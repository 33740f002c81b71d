/** prepareAnswerCorrections and approveAnswerCorrections: confirmed facts added to a release, cells completed from them. */
module AnswerCorrections {
  import opened Wrappers
  import opened ReleaseContent
  import opened AdditiveManifest
  import opened CellCompletion
  import opened CorrectionRules

  class Draft {
    var manifest: GridManifest
    const base: GridManifest

    constructor (source: GridManifest)
      requires UniqueKeys(source)
      ensures manifest == source == base && Valid()
    {
      manifest, base := source, source;
    }

    ghost predicate Valid()
      reads this
    {
      UniqueKeys(base) && Grown(base, manifest) && manifest.sources == base.sources
      && (manifest.version, manifest.aliasVersion, manifest.resolverVersion) == (base.version, base.aliasVersion, base.resolverVersion)
      && manifest.release == base.release
    }

    /** A player the release lacks, with its exact aliases and its image. */
    method ImportPlayer(donor: Player, exact: seq<Alias>)
      requires Valid() && !HasPlayer(manifest, donor.id)
      modifies this`manifest
      ensures Valid() && manifest == WithPlayer(old(manifest), donor, exact)
      ensures manifest.players == old(manifest).players + [donor] && donor.image in manifest.assets
      ensures forall a | a in exact :: exists k | k in manifest.aliases ::
        k.player == a.player && k.normalized == a.normalized && k.locale == a.locale && k.kind == a.kind
      ensures old(manifest).aliases <= manifest.aliases
      ensures forall k | k in manifest.aliases :: k in old(manifest).aliases || k in exact
      ensures forall i | i in manifest.assets :: i in old(manifest).assets || i == donor.image
    {
      NewAliasesCover(manifest.aliases, exact);
      NewAliasesFrom(manifest.aliases, exact);
      UniqueAppend(manifest.players, PlayerKey, donor);
      var added := NewAliases(manifest.aliases, exact);
      var assets := if donor.image in manifest.assets then manifest.assets else manifest.assets + [donor.image];
      assert donor in manifest.players + [donor];
      manifest := manifest.(players := manifest.players + [donor], aliases := manifest.aliases + added, assets := assets);
    }

    /** One membership, unless it is there already. */
    method AddMembership(ctx: Context, f: Fact, criterion: Id)
      requires Valid()
      modifies this`manifest
      ensures Valid() && IsMember(manifest.memberships, criterion, f.player)
      ensures manifest == Credited(ctx, old(manifest), f, criterion)
    {
      var members := CollectMembers(manifest.memberships);
      MemberSetsExact(manifest.memberships, criterion, f.player);
      if criterion in members && f.player in members[criterion] {
        return;
      }
      var row := Membership(criterion, f.player, [ctx.source], (ctx.naming.stamp)(f.rest, ctx.at));
      UniqueAppend(manifest.memberships, MembershipKey, row);
      assert row in manifest.memberships + [row];
      manifest := manifest.(memberships := manifest.memberships + [row]);
    }

    /**
     * One confirmed fact. It is refused when it matters and the player is known under another name or cannot be
     * imported; it is skipped when it has no criterion here, or is for present players and the player is absent;
     * otherwise it holds afterwards.
     */
    method AddFact(ctx: Context, f: Fact) returns (ok: bool)
      requires Valid()
      modifies this`manifest
      ensures Valid() && manifest == TakeFact(ctx, old(manifest), f)
      ensures manifest.criteria == old(manifest).criteria
      ensures old(manifest).memberships <= manifest.memberships && old(manifest).players <= manifest.players
      ensures ok <==> !Refused(ctx, old(manifest), f)
      ensures ok <==> FactPasses(ctx, old(manifest), f)
      ensures ok ==> FactHolds(manifest, f) || Skipped(old(manifest), f)
      ensures forall m | m in manifest.memberships :: m in old(manifest).memberships || StatesFact(ctx, f, m)
      ensures Imported(old(manifest), manifest, ctx.catalog)
    {
      TakeFactHolds(ctx, manifest, f);
      PassesExact(ctx, manifest, f);
      FindPlayerExact(manifest.players, f.player);
      if !exists c | c in f.criteria :: Relevant(manifest, c) {
        return true;
      }
      var existing := FindPlayer(manifest.players, f.player);
      if existing.None? && f.presentOnly {
        return true;
      }
      var donor := FindPlayer(ctx.catalog.players, f.player);
      if (existing.Some? && existing.value.name != f.name) || (donor.Some? && donor.value.name != f.name) {
        return false;
      }
      if existing.None? {
        ok := TakeOver(ctx, f.player, donor);
        if !ok {
          return false;
        }
      }
      AddMemberships(ctx, f);
      ok := true;
    }

    /** A player from the catalog, if it has exact aliases in both languages and an image that fits. */
    method TakeOver(ctx: Context, id: Id, donor: Option<Player>) returns (ok: bool)
      requires Valid() && !HasPlayer(manifest, id) && donor == FindPlayer(ctx.catalog.players, id)
      modifies this`manifest
      ensures Valid() && (ok <==> Importable(ctx, old(manifest), id))
      ensures manifest == if ok then WithPlayer(old(manifest), donor.value, ExactAliases(ctx.catalog.aliases, id)) else old(manifest)
      ensures ok ==> donor.value in manifest.players && Equipped(ctx.catalog, manifest, donor.value)
      ensures Imported(old(manifest), manifest, ctx.catalog)
    {
      FindPlayerExact(ctx.catalog.players, id);
      ExactAliasesExact(ctx.catalog.aliases, id);
      if donor.None? {
        return false;
      }
      var exact := ExactAliases(ctx.catalog.aliases, id);
      if !(exists a | a in exact :: a.locale == ENGLISH) || !(exists a | a in exact :: a.locale == GEORGIAN) {
        return false;
      }
      if !(ctx.naming.imageFits)(manifest.players, donor.value) {
        return false;
      }
      NewAliasesFrom(manifest.aliases, exact);
      ImportPlayer(donor.value, exact);
      ok := true;
    }

    method AddMemberships(ctx: Context, f: Fact)
      requires Valid()
      modifies this`manifest
      ensures Valid() && manifest == CreditedAll(ctx, old(manifest), f, |f.criteria|)
    {
      for i := 0 to |f.criteria|
        invariant Valid()
        invariant manifest == CreditedAll(ctx, old(manifest), f, i)
      {
        if Relevant(manifest, f.criteria[i]) {
          AddMembership(ctx, f, f.criteria[i]);
        }
      }
    }

    /** A reviewed alias is refused when it names another player; it is added unless the player has it already. */
    method AddReviewedAlias(ctx: Context, a: ReviewedAlias) returns (ok: bool)
      requires Valid()
      modifies this`manifest
      ensures Valid() && manifest == TakeAlias(ctx, old(manifest), a)
      ensures manifest == old(manifest).(aliases := manifest.aliases) && old(manifest).aliases <= manifest.aliases
      ensures ok <==> !AliasRefused(old(manifest), a)
      ensures ok <==> AliasPasses(old(manifest), a)
      ensures ok ==> AliasHolds(manifest, a)
      ensures ok && HasPlayer(manifest, a.player) ==> forall k | k in manifest.aliases && k.normalized == a.normalized.value :: k.player == a.player
      ensures forall k | k in manifest.aliases :: k in old(manifest).aliases || (a.normalized.Some? && k == ReviewedRow(ctx, a))
    {
      TakeAliasHolds(ctx, manifest, a);
      AliasPassesExact(manifest, a);
      var player := FindPlayer(manifest.players, a.player);
      FindPlayerExact(manifest.players, a.player);
      if player.None? && a.presentOnly {
        return true;
      }
      if player.None? || player.value.name != a.name || a.normalized.None? {
        return false;
      }
      if exists k | k in manifest.aliases :: k.normalized == a.normalized.value && k.player != a.player {
        return false;
      }
      if !HasAlias(manifest, a.player, a.normalized.value) {
        var row := ReviewedRow(ctx, a);
        manifest := manifest.(aliases := manifest.aliases + [row]);
      }
      ok := true;
    }

    /** criterion.metadata.memberCount, for the criteria that gained a membership. */
    method CountMembers(gained: set<Id>)
      requires Valid()
      modifies this`manifest
      ensures Valid() && manifest == old(manifest).(criteria := Recounted(old(manifest), gained))
    {
      var members := CollectMembers(manifest.memberships);
      var criteria := manifest.criteria;
      for i := 0 to |criteria|
        invariant |criteria| == |manifest.criteria|
        invariant forall k | i <= k < |criteria| :: criteria[k] == manifest.criteria[k]
        invariant forall k | 0 <= k < i :: criteria[k] == if manifest.criteria[k].key in gained
          then manifest.criteria[k].(memberCount := Some(|MembersOf(members, manifest.criteria[k].key)|)) else manifest.criteria[k]
      {
        if criteria[i].key in gained {
          criteria := criteria[i := criteria[i].(memberCount := Some(|MembersOf(members, criteria[i].key)|))];
        }
      }
      assert CleanAll(criteria) == CleanAll(manifest.criteria);
      assert criteria == Recounted(manifest, gained);
      manifest := manifest.(criteria := criteria);
    }
  }

  // ------------------------------------------------------------------------------------------------ the loops

  /** addFamilyAliases: the forms of every player whose English name is anchored by an exact English alias. */
  method AddFamilyAliases(players: seq<Player>, anchors: seq<Alias>, naming: Naming, at: Id) returns (aliases: seq<Alias>, added: nat)
    ensures aliases == WithFamilies(players, anchors, naming, at, |players|)
    ensures anchors <= aliases && |aliases| == |anchors| + added
    ensures forall p, form | p in players && NamedExactly(anchors, naming, p) && form in (naming.forms)(p, at) :: IsSpelled(aliases, form)
    ensures FreshSpellings(aliases, |anchors|)
    ensures forall a | a in aliases :: a in anchors || FormOf(players, anchors, naming, at, a)
  {
    aliases, added := anchors, 0;
    for i := 0 to |players|
      invariant aliases == WithFamilies(players, anchors, naming, at, i)
      invariant |aliases| == |anchors| + added
    {
      if Anchored(anchors, naming, players[i]) {
        var more;
        aliases, more := AddForms(aliases, (naming.forms)(players[i], at));
        added := added + more;
      }
    }
    WithFamiliesHolds(players, anchors, naming, at, |players|);
    forall p, form | p in players && NamedExactly(anchors, naming, p) && form in (naming.forms)(p, at) ensures IsSpelled(aliases, form) {
      var k :| 0 <= k < |players| && players[k] == p;
      assert Anchored(anchors, naming, players[k]);
      assert HasSpelling(aliases, form);
    }
  }

  method AddForms(aliases: seq<Alias>, forms: seq<Alias>) returns (now: seq<Alias>, added: nat)
    ensures now == Spelled(aliases, forms) && |now| == |aliases| + added
  {
    now, added := aliases, 0;
    for i := 0 to |forms|
      invariant now == Spelled(aliases, forms[..i]) && |now| == |aliases| + added
    {
      assert forms[..i + 1][..i] == forms[..i];
      if !HasSpelling(now, forms[i]) {
        now, added := now + [forms[i]], added + 1;
      }
    }
    assert forms[..|forms|] == forms;
  }

  method AddFacts(d: Draft, ctx: Context, facts: seq<Fact>) returns (ok: bool)
    requires d.Valid()
    modifies d`manifest
    ensures d.Valid()
    ensures ok <==> FactsFine(ctx, old(d.manifest), facts)
    ensures ok ==> d.manifest == TakeFacts(ctx, old(d.manifest), facts)
  {
    for i := 0 to |facts|
      invariant d.Valid()
      invariant d.manifest == TakeFacts(ctx, old(d.manifest), facts[..i])
      invariant FactsFine(ctx, old(d.manifest), facts[..i])
    {
      assert facts[..i + 1][..i] == facts[..i];
      FactsFineStep(ctx, old(d.manifest), facts, i);
      var added := d.AddFact(ctx, facts[i]);
      if !added {
        return false;
      }
    }
    assert facts[..|facts|] == facts;
    ok := true;
  }

  method AddReviewedAliases(d: Draft, ctx: Context, aliases: seq<ReviewedAlias>) returns (ok: bool)
    requires d.Valid()
    modifies d`manifest
    ensures d.Valid() && d.manifest == old(d.manifest).(aliases := d.manifest.aliases)
    ensures ok <==> AliasesFine(ctx, old(d.manifest), aliases)
    ensures ok ==> d.manifest == TakeAliases(ctx, old(d.manifest), aliases)
  {
    for i := 0 to |aliases|
      invariant d.Valid() && d.manifest == old(d.manifest).(aliases := d.manifest.aliases)
      invariant d.manifest == TakeAliases(ctx, old(d.manifest), aliases[..i])
      invariant AliasesFine(ctx, old(d.manifest), aliases[..i])
    {
      assert aliases[..i + 1][..i] == aliases[..i];
      AliasesFineStep(ctx, old(d.manifest), aliases, i);
      var added := d.AddReviewedAlias(ctx, aliases[i]);
      if !added {
        return false;
      }
    }
    assert aliases[..|aliases|] == aliases;
    ok := true;
  }

  // ------------------------------------------------------------------------------------------------ the transform

  /** The whole of it without the boards: facts, aliases, forms, counts. */
  method Fill(d: Draft, ctx: Context, batch: Batch) returns (ok: bool)
    requires d.Valid() && d.manifest == d.base
    modifies d`manifest
    ensures d.Valid()
    ensures ok <==> Fillable(ctx, d.base, batch)
    ensures ok ==> d.manifest == Filled(ctx, d.base, batch)
  {
    ok := AddFacts(d, ctx, batch.facts);
    if !ok {
      return;
    }
    ok := AddReviewedAliases(d, ctx, batch.aliases);
    if !ok {
      return;
    }
    var aliases, more := AddFamilyAliases(d.manifest.players, d.manifest.aliases, ctx.naming, ctx.at);
    d.manifest := d.manifest.(aliases := aliases);
    d.CountMembers(Gained(d.manifest.memberships, |d.base.memberships|));
  }

  lemma ComposedAdditive(rules: Rules, source: GridManifest, catalog: GridManifest, version: nat, at: Id, batch: Option<Id>,
                         filled: GridManifest, members: Members, boards: seq<GridBoard>)
    requires UniqueKeys(source) && Grown(source, filled) && filled.sources == source.sources
    requires Startable(rules, source, version, at, batch) && BoardsCompleted(source.boards, boards, members)
    ensures Additive(source, Composed(rules, source, catalog, version, at, batch, filled, boards))
  {
    var c := Composed(rules, source, catalog, version, at, batch, filled, boards);
    UniqueAppend(source.sources, SourceKey, c.sources[|source.sources|]);
    GrownIsAdditive(source, c.(boards := source.boards), members, boards);
    assert c.(boards := source.boards).(boards := boards) == c;
  }

  /** The second half: cells are completed, and the source and the release record are added. */
  method Compose(rules: Rules, source: GridManifest, catalog: GridManifest, version: nat, at: Id, batch: Option<Id>, filled: GridManifest)
    returns (r: Result<GridManifest>, added: nat, changed: nat)
    requires UniqueKeys(source) && Grown(source, filled) && filled.sources == source.sources
    requires Startable(rules, source, version, at, batch)
    ensures r.Ok? <==> AllSupported(source.boards, MemberSets(filled.memberships))
    ensures r.Ok? ==>
      r.value == Composed(rules, source, catalog, version, at, batch, filled, CompletedBoards(source.boards, MemberSets(filled.memberships)))
    ensures r.Ok? ==> Additive(source, r.value) && BoardTally(source.boards, r.value.boards, added, changed)
  {
    var members := CollectMembers(filled.memberships);
    var boards;
    boards, added, changed := CompleteBoards(source.boards, members);
    if boards.Err? {
      return Err(boards.error), 0, 0;
    }
    BoardsDetermined(source.boards, boards.value, members);
    ComposedAdditive(rules, source, catalog, version, at, batch, filled, members, boards.value);
    var row := rules.batches(batch).value.source.(approved := false, owner := Unreviewed, at := at);
    r := Ok(filled.(sources := source.sources + [row], version := version, aliasVersion := source.aliasVersion + 1,
                    boards := boards.value, release := PreparedRelease(source, catalog, at, batch, boards.value)));
  }

  /**
   * prepareAnswerCorrections. It goes through exactly when the batch is known and new to the source, the version higher,
   * the time valid, no fact and no alias refused at its turn, and every stored answer supported; then it gives the
   * prepared draft, which is above its source.
   */
  method PrepareAnswerCorrections(rules: Rules, source: GridManifest, catalog: GridManifest, version: nat, at: Id, batch: Option<Id>)
    returns (r: Result<CorrectionDraft>, added: nat, changed: nat)
    requires UniqueKeys(source)
    ensures r.Ok? <==> Preparable(rules, source, catalog, version, at, batch)
    ensures r.Ok? ==> r.value == Prepared(rules, source, catalog, version, at, batch)
    ensures r.Ok? <==>
      && rules.batches(batch).Some? && version > source.version && rules.valid(at)
      && (forall s | s in source.sources :: s.key != rules.batches(batch).value.source.key)
      && var ctx := ContextOf(rules, catalog, at, rules.batches(batch).value);
      && Fillable(ctx, source, rules.batches(batch).value)
      && StoredSupported(source.boards, Filled(ctx, source, rules.batches(batch).value).memberships)
    ensures r.Ok? ==> Additive(source, r.value.candidate) && BoardTally(source.boards, r.value.candidate.boards, added, changed)
  {
    added, changed := 0, 0;
    PreparableExact(rules, source, catalog, version, at, batch);
    if !Startable(rules, source, version, at, batch) {
      return Err("unknown batch, version, time or correction source"), 0, 0;
    }
    var d := new Draft(source);
    var ok := Fill(d, ContextOf(rules, catalog, at, rules.batches(batch).value), rules.batches(batch).value);
    if !ok {
      return Err("fact or alias refused"), 0, 0;
    }
    var candidate;
    candidate, added, changed := Compose(rules, source, catalog, version, at, batch, d.manifest);
    if candidate.Err? {
      return Err(candidate.error), 0, 0;
    }
    r := Ok(CorrectionDraft(true, source.version, candidate.value));
  }

  /** A draft becomes a release: the correction source and the changed boards are signed by the reviewer. */
  method ApproveAnswerCorrections(rules: Rules, draft: CorrectionDraft, reviewer: Approval, at: Id) returns (r: Result<GridManifest>)
    ensures r.Ok? <==> Approvable(rules, draft, reviewer, at)
    ensures r.Ok? <==>
      && draft.waiting && reviewer.Approved? && rules.valid(at) && rules.batches(draft.candidate.release.batch).Some?
      && draft.candidate.release.transform == 1 && draft.candidate.release.from == draft.sourceVersion
      && draft.candidate.release.review == Pending
      && forall s | s in draft.candidate.sources :: s.approved || s.key == rules.batches(draft.candidate.release.batch).value.source.key
    ensures r.Ok? ==> r.value == CorrectionRules.Approved(draft.candidate, reviewer, at)
  {
    var candidate := draft.candidate;
    if !draft.waiting || reviewer.Unreviewed? || !rules.valid(at) {
      return Err("explicit reviewer and time required");
    }
    var selected := rules.batches(candidate.release.batch);
    if selected.None? || candidate.release.transform != CORRECTION || candidate.release.from != draft.sourceVersion
       || candidate.release.review != Pending {
      return Err("invalid draft");
    }
    var sources: seq<Source> := [];
    for i := 0 to |candidate.sources|
      invariant |sources| == i
      invariant forall k | 0 <= k < i :: candidate.sources[k].approved || candidate.sources[k].key == selected.value.source.key
      invariant forall k | 0 <= k < i :: sources[k] == Signed(candidate.sources[k], reviewer, at)
    {
      var s := candidate.sources[i];
      if !s.approved && s.key != selected.value.source.key {
        return Err("unexpected unreviewed source");
      }
      sources := sources + [if s.approved then s else s.(approved := true, owner := reviewer, at := at)];
    }
    var boards := candidate.boards;
    for i := 0 to |boards|
      invariant |boards| == |candidate.boards|
      invariant forall k | i <= k < |boards| :: boards[k] == candidate.boards[k]
      invariant forall k | 0 <= k < i :: boards[k] == SignedBoard(candidate.boards[k], reviewer)
    {
      if boards[i].approvedBy == Unreviewed {
        boards := boards[i := boards[i].(approvedBy := reviewer)];
      }
    }
    assert sources == SignedSources(candidate.sources, reviewer, at) && boards == SignedBoards(candidate.boards, reviewer);
    r := Ok(candidate.(sources := sources, boards := boards,
                       release := candidate.release.(approvedBy := reviewer, approvedAt := at, review := Reviewed)));
  }

  /** Approving keeps a draft additive over its source. */
  lemma ApprovalAdditive(source: GridManifest, candidate: GridManifest, reviewer: Approval, at: Id)
    requires Additive(source, candidate) && forall s | s in source.sources :: s.approved
    ensures Additive(source, CorrectionRules.Approved(candidate, reviewer, at))
  {
    var approved := CorrectionRules.Approved(candidate, reviewer, at);
    forall s | s in source.sources ensures s in approved.sources {
      assert s in candidate.sources;
      var i :| 0 <= i < |candidate.sources| && candidate.sources[i] == s;
      assert approved.sources[i] == s;
    }
    forall i, j | 0 <= i < j < |approved.sources| ensures SourceKey(approved.sources[i]) != SourceKey(approved.sources[j]) {
      assert SourceKey(candidate.sources[i]) != SourceKey(candidate.sources[j]);
    }
    forall i, j | 0 <= i < j < |approved.boards| ensures BoardKeyOf(approved.boards[i]) != BoardKeyOf(approved.boards[j]) {
      assert BoardKeyOf(candidate.boards[i]) != BoardKeyOf(candidate.boards[j]);
    }
    forall b | b in source.boards ensures exists c | c in approved.boards :: BoardGrows(b, c) {
      var c :| c in candidate.boards && BoardGrows(b, c);
      var i :| 0 <= i < |candidate.boards| && candidate.boards[i] == c;
      var c' := approved.boards[i];
      assert BoardGrows(b, c') by {
        assert forall k | 0 <= k < |b.cells| :: CellGrows(b.cells[k], c.cells[k]);
      }
      assert c' in approved.boards;
    }
  }

  /** The whole correction of an approved release: exactly the corrected release, above its source, holding the correction. */
  method CorrectAndApprove(rules: Rules, source: GridManifest, catalog: GridManifest, version: nat, at: Id, batch: Option<Id>,
                           reviewer: Approval, approvedAt: Id)
    returns (r: Result<GridManifest>)
    requires UniqueKeys(source)
    ensures r.Ok? <==> Corrected(rules, source, catalog, version, at, batch, reviewer, approvedAt).Some?
    ensures r.Ok? ==> r.value == Corrected(rules, source, catalog, version, at, batch, reviewer, approvedAt).value
    ensures r.Ok? ==> Additive(source, r.value)
  {
    var draft, added, changed := PrepareAnswerCorrections(rules, source, catalog, version, at, batch);
    if draft.Err? {
      return Err(draft.error);
    }
    r := ApproveAnswerCorrections(rules, draft.value, reviewer, approvedAt);
    if r.Ok? {
      SourceApproved(rules, source, catalog, version, at, batch, reviewer, approvedAt);
      ApprovalAdditive(source, draft.value.candidate, reviewer, approvedAt);
    }
  }
}
