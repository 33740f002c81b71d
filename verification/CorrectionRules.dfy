/**
 * What a reviewed correction makes of a release: confirmed facts and aliases are added, names get their family forms,
 * member counts are taken again, cells are completed, and the result is signed.
 */
module CorrectionRules {
  import opened Wrappers
  import opened ReleaseContent
  import opened AdditiveManifest
  import opened CellCompletion

  /** A reviewed fact: a player satisfies some criteria. `presentOnly` facts are for players the release already has. */
  datatype Fact = Fact(player: Id, name: Id, criteria: seq<Id>, presentOnly: bool, rest: Id)

  /** A reviewed alias; its normalized form may be empty. */
  datatype ReviewedAlias = ReviewedAlias(player: Id, name: Id, normalized: Option<Id>, locale: Id, presentOnly: bool, rest: Id)

  /** A reviewed batch: its source, and the facts and aliases that cite it. */
  datatype Batch = Batch(source: Source, facts: seq<Fact>, aliases: seq<ReviewedAlias>)

  /** What the scripts decide by means this model does not look into: the alias rows a display name gives rise to, its
      normalized form, whether a player's image lies on the release's own storage, whether a player has a Georgian name,
      and the remaining fields of a row that is reviewed at some time. */
  datatype Naming = Naming(
    forms: (Player, Id) -> seq<Alias>, normalized: Id -> Id, imageFits: (seq<Player>, Player) -> bool, translated: Player -> bool,
    stamp: (Id, Id) -> Id)

  /** The known batches, None being the default one, and which timestamps parse. */
  datatype Rules = Rules(naming: Naming, batches: Option<Id> -> Option<Batch>, valid: Id -> bool)

  /** What stays the same while one correction is prepared. */
  datatype Context = Context(catalog: GridManifest, naming: Naming, source: Id, at: Id)

  /** A draft: its status, the version it was made of, and the candidate release. */
  datatype CorrectionDraft = CorrectionDraft(waiting: bool, sourceVersion: nat, candidate: GridManifest)

  /** relationshipSnapshot.transform of a correction */
  const CORRECTION: Id := 1

  const ENGLISH: Id := 0
  const GEORGIAN: Id := 1
  const EXACT: Id := 0
  const UNIQUE_ONLY: Id := 1
  const FAMILY_NAME: Id := 2

  // ------------------------------------------------------------------------------------------------ memberships by criterion

  function MemberSets(rows: seq<Membership>): Members {
    if rows == [] then map[]
    else
      var last := rows[|rows| - 1];
      var before := MemberSets(rows[..|rows| - 1]);
      before[last.criterion := (if last.criterion in before then before[last.criterion] else {}) + {last.player}]
  }

  ghost predicate IsMember(rows: seq<Membership>, criterion: Id, player: Id) {
    exists m | m in rows :: m.criterion == criterion && m.player == player
  }

  lemma {:induction false} MemberSetsExact(rows: seq<Membership>, criterion: Id, player: Id)
    ensures criterion in MemberSets(rows) && player in MemberSets(rows)[criterion] <==> IsMember(rows, criterion, player)
  {
    if rows != [] {
      var n := |rows| - 1;
      MemberSetsExact(rows[..n], criterion, player);
      assert rows == rows[..n] + [rows[n]];
    }
  }

  /** memberships.get(m.criterionKey)!.add(m.playerId), row by row. */
  method CollectMembers(rows: seq<Membership>) returns (members: Members)
    ensures members == MemberSets(rows)
  {
    members := map[];
    for i := 0 to |rows|
      invariant members == MemberSets(rows[..i])
    {
      assert rows[..i + 1][..i] == rows[..i];
      var m := rows[i];
      members := members[m.criterion := (if m.criterion in members then members[m.criterion] else {}) + {m.player}];
    }
    assert rows[..|rows|] == rows;
  }

  // ------------------------------------------------------------------------------------------------ growing a manifest

  /** Everything of the base is still there, in front; only member counts may differ; boards are untouched. */
  ghost predicate Grown(base: GridManifest, now: GridManifest) {
    && base.sources <= now.sources && base.players <= now.players
    && base.memberships <= now.memberships && base.aliases <= now.aliases
    && AllIn(base.assets, now.assets)
    && CleanAll(base.criteria) == CleanAll(now.criteria) && base.boards == now.boards
    && UniqueBy(now.players, PlayerKey) && UniqueBy(now.memberships, MembershipKey)
  }

  lemma PrefixAllIn<T>(a: seq<T>, b: seq<T>)
    requires a <= b
    ensures AllIn(a, b)
  {
    forall x | x in a ensures x in b {
      var i :| 0 <= i < |a| && a[i] == x;
      assert b[i] == x;
    }
  }

  /** A grown manifest whose boards have been completed is above its base in the additive relation. */
  lemma GrownIsAdditive(base: GridManifest, now: GridManifest, members: Members, boards: seq<GridBoard>)
    requires UniqueKeys(base) && Grown(base, now) && UniqueBy(now.sources, SourceKey)
    requires BoardsCompleted(base.boards, boards, members)
    ensures Additive(base, now.(boards := boards))
  {
    PrefixAllIn(base.sources, now.sources);
    PrefixAllIn(base.players, now.players);
    PrefixAllIn(base.memberships, now.memberships);
    assert now.aliases == base.aliases + now.aliases[|base.aliases|..];
    CompletedGrows(base.boards, boards, members);
    assert |CleanAll(base.criteria)| == |CleanAll(now.criteria)|;
    forall i, j | 0 <= i < j < |now.criteria| ensures CriterionKey(now.criteria[i]) != CriterionKey(now.criteria[j]) {
      assert CleanAll(base.criteria)[i] == CleanAll(now.criteria)[i] && CleanAll(base.criteria)[j] == CleanAll(now.criteria)[j];
      assert CriterionKey(base.criteria[i]) != CriterionKey(base.criteria[j]);
    }
  }

  lemma UniqueAppend<T, K>(rows: seq<T>, key: T -> K, row: T)
    requires UniqueBy(rows, key) && forall r | r in rows :: key(r) != key(row)
    ensures UniqueBy(rows + [row], key)
  {
    forall i, j | 0 <= i < j < |rows + [row]| ensures key((rows + [row])[i]) != key((rows + [row])[j]) {
      if j == |rows| {
        assert rows[i] in rows;
      }
    }
  }

  function FindPlayer(players: seq<Player>, id: Id): Option<Player> {
    if players == [] then None else if players[0].id == id then Some(players[0]) else FindPlayer(players[1..], id)
  }

  lemma {:induction false} FindPlayerExact(players: seq<Player>, id: Id)
    ensures FindPlayer(players, id).None? <==> forall p | p in players :: p.id != id
    ensures FindPlayer(players, id).Some? ==> FindPlayer(players, id).value in players && FindPlayer(players, id).value.id == id
  {
    if players != [] {
      FindPlayerExact(players[1..], id);
      assert players == [players[0]] + players[1..];
    }
  }

  function ExactAliases(aliases: seq<Alias>, id: Id): seq<Alias> {
    if aliases == [] then []
    else (if aliases[0].player == id && aliases[0].policy == EXACT then [aliases[0]] else []) + ExactAliases(aliases[1..], id)
  }

  predicate SameAlias(a: Alias, b: Alias) {
    a.player == b.player && a.normalized == b.normalized && a.locale == b.locale && a.kind == b.kind
  }

  function NewAliases(known: seq<Alias>, candidates: seq<Alias>): seq<Alias> {
    if candidates == [] then []
    else
      (if exists k | k in known :: SameAlias(k, candidates[0]) then [] else [candidates[0]]) + NewAliases(known, candidates[1..])
  }

  predicate Relevant(m: GridManifest, criterion: Id) {
    exists c | c in m.criteria :: c.key == criterion
  }

  predicate HasPlayer(m: GridManifest, id: Id) {
    exists p | p in m.players :: p.id == id
  }

  /** A fact is in the manifest: each of its criteria that the release has is a membership of the player. */
  ghost predicate FactHolds(m: GridManifest, f: Fact) {
    forall c, k | c in f.criteria && k in m.criteria && k.key == c :: IsMember(m.memberships, c, f.player)
  }

  lemma RelevantKept(base: GridManifest, now: GridManifest, criterion: Id)
    requires CleanAll(base.criteria) == CleanAll(now.criteria)
    ensures Relevant(base, criterion) <==> Relevant(now, criterion)
  {
    assert |CleanAll(base.criteria)| == |CleanAll(now.criteria)|;
    forall i | 0 <= i < |base.criteria| ensures base.criteria[i].key == now.criteria[i].key {
      assert CleanAll(base.criteria)[i] == CleanAll(now.criteria)[i];
    }
    if Relevant(base, criterion) {
      var c :| c in base.criteria && c.key == criterion;
      var i :| 0 <= i < |base.criteria| && base.criteria[i] == c;
      assert now.criteria[i] in now.criteria;
    }
    if Relevant(now, criterion) {
      var c :| c in now.criteria && c.key == criterion;
      var i :| 0 <= i < |now.criteria| && now.criteria[i] == c;
      assert base.criteria[i] in base.criteria;
    }
  }

  /** The release can take the player over from the catalog. */
  predicate Importable(ctx: Context, m: GridManifest, id: Id) {
    var donor := FindPlayer(ctx.catalog.players, id);
    && donor.Some? && (ctx.naming.imageFits)(m.players, donor.value)
    && (exists a | a in ctx.catalog.aliases :: a.player == id && a.policy == EXACT && a.locale == ENGLISH)
    && (exists a | a in ctx.catalog.aliases :: a.player == id && a.policy == EXACT && a.locale == GEORGIAN)
  }

  /** The release has a criterion of the fact, and the player if the fact is for present players only. */
  predicate Matters(m: GridManifest, f: Fact) {
    (exists c | c in f.criteria :: Relevant(m, c)) && !(f.presentOnly && FindPlayer(m.players, f.player).None?)
  }

  /** A fact that matters here and is about someone of another name, or about someone who cannot be taken over. */
  predicate Refused(ctx: Context, m: GridManifest, f: Fact) {
    var existing, donor := FindPlayer(m.players, f.player), FindPlayer(ctx.catalog.players, f.player);
    && Matters(m, f)
    && ((existing.Some? && existing.value.name != f.name) || (donor.Some? && donor.value.name != f.name)
        || (existing.None? && !Importable(ctx, m, f.player)))
  }

  /** A reviewed alias of nobody here, of someone with another name, without a normalized form, or someone else's already. */
  predicate AliasRefused(m: GridManifest, a: ReviewedAlias) {
    var player := FindPlayer(m.players, a.player);
    if player.None? then !a.presentOnly
    else player.value.name != a.name || a.normalized.None?
         || exists k | k in m.aliases :: k.normalized == a.normalized.value && k.player != a.player
  }

  /** A fact goes through when the release has none of its criteria; or when it is for present players and its player is
      absent; or when whoever has the player's id, here and in the catalog, has the name, and an absent player can come in:
      the catalog has the player, with exact aliases in both languages and an image that fits. */
  ghost predicate FactPasses(ctx: Context, m: GridManifest, f: Fact) {
    var donor := FindPlayer(ctx.catalog.players, f.player);
    || (forall c | c in m.criteria :: c.key !in f.criteria)
    || (f.presentOnly && forall p | p in m.players :: p.id != f.player)
    || ((forall p | p in m.players && p.id == f.player :: p.name == f.name)
        && (donor.Some? ==> donor.value.name == f.name)
        && ((exists p | p in m.players :: p.id == f.player)
            || (donor.Some? && (ctx.naming.imageFits)(m.players, donor.value)
                && (exists a | a in ctx.catalog.aliases :: a.player == f.player && a.policy == 0 && a.locale == 0)
                && (exists a | a in ctx.catalog.aliases :: a.player == f.player && a.policy == 0 && a.locale == 1))))
  }

  lemma PassesExact(ctx: Context, m: GridManifest, f: Fact)
    requires UniqueBy(m.players, PlayerKey)
    ensures FactPasses(ctx, m, f) <==> !Refused(ctx, m, f)
  {
    FindPlayerExact(m.players, f.player);
    OnePlayer(m.players, f.player);
    assert (exists c | c in f.criteria :: Relevant(m, c)) <==> !forall c | c in m.criteria :: c.key !in f.criteria by {
      if c :| c in m.criteria && c.key in f.criteria {
        assert Relevant(m, c.key);
      }
    }
  }

  lemma OnePlayer(players: seq<Player>, id: Id)
    requires UniqueBy(players, PlayerKey)
    ensures forall p | p in players && p.id == id :: FindPlayer(players, id) == Some(p)
  {
    FindPlayerExact(players, id);
    forall p | p in players && p.id == id ensures FindPlayer(players, id) == Some(p) {
      var i :| 0 <= i < |players| && players[i] == p;
      var j :| 0 <= j < |players| && players[j] == FindPlayer(players, id).value;
      assert PlayerKey(players[i]) == PlayerKey(players[j]);
    }
  }

  /** A reviewed alias goes through when its player is absent and it is for present players, or when its player is here by
      this name, it is not empty, and nobody else has the spelling. */
  ghost predicate AliasPasses(m: GridManifest, a: ReviewedAlias) {
    || (a.presentOnly && forall p | p in m.players :: p.id != a.player)
    || ((exists p | p in m.players :: p.id == a.player && p.name == a.name) && a.normalized.Some?
        && forall k | k in m.aliases && k.normalized == a.normalized.value :: k.player == a.player)
  }

  lemma AliasPassesExact(m: GridManifest, a: ReviewedAlias)
    requires UniqueBy(m.players, PlayerKey)
    ensures AliasPasses(m, a) <==> !AliasRefused(m, a)
  {
    FindPlayerExact(m.players, a.player);
    OnePlayer(m.players, a.player);
  }

  function ReviewedRow(ctx: Context, a: ReviewedAlias): Alias
    requires a.normalized.Some?
  {
    Alias(a.player, a.normalized.value, a.locale, FAMILY_NAME, UNIQUE_ONLY, (ctx.naming.stamp)(a.rest, ctx.at))
  }

  /** New players and aliases are the catalog's, the aliases exact ones. */
  ghost predicate Imported(m: GridManifest, now: GridManifest, catalog: GridManifest) {
    && (forall p | p in now.players :: p in m.players || p in catalog.players)
    && (forall a | a in now.aliases :: a in m.aliases || (a in catalog.aliases && a.policy == EXACT))
  }

  lemma {:induction false} ExactAliasesExact(aliases: seq<Alias>, id: Id)
    ensures forall a :: a in ExactAliases(aliases, id) <==> a in aliases && a.player == id && a.policy == EXACT
  {
    if aliases != [] {
      ExactAliasesExact(aliases[1..], id);
      assert aliases == [aliases[0]] + aliases[1..];
    }
  }

  lemma {:induction false} NewAliasesFrom(known: seq<Alias>, candidates: seq<Alias>)
    ensures forall a | a in NewAliases(known, candidates) :: a in candidates
  {
    if candidates != [] {
      NewAliasesFrom(known, candidates[1..]);
      assert candidates == [candidates[0]] + candidates[1..];
    }
  }

  function MembersOf(members: Members, key: Id): set<PlayerId> {
    if key in members then members[key] else {}
  }

  lemma MembersKept(before: seq<Membership>, after: seq<Membership>, criterion: Id, player: Id)
    requires before <= after && IsMember(before, criterion, player)
    ensures IsMember(after, criterion, player)
  {
    PrefixAllIn(before, after);
  }

  /** keys.has(`${player}:${locale}:${normalized}`) */
  predicate HasSpelling(aliases: seq<Alias>, form: Alias) {
    exists k | k in aliases :: k.player == form.player && k.locale == form.locale && k.normalized == form.normalized
  }

  /** Every alias from the n-th on was a new spelling when it was added. */
  ghost predicate FreshSpellings(aliases: seq<Alias>, n: nat) {
    forall i | n <= i < |aliases| :: !HasSpelling(aliases[..i], aliases[i])
  }

  lemma FreshMore(aliases: seq<Alias>, n: nat, form: Alias)
    requires FreshSpellings(aliases, n) && !HasSpelling(aliases, form)
    ensures FreshSpellings(aliases + [form], n)
  {
    var all := aliases + [form];
    forall i | n <= i < |all| ensures !HasSpelling(all[..i], all[i]) {
      assert all[..i] == aliases[..i];
      assert aliases[..|aliases|] == aliases;
    }
  }

  lemma FreshJoins(before: seq<Alias>, after: seq<Alias>, n: nat)
    requires FreshSpellings(before, n) && before <= after && FreshSpellings(after, |before|)
    ensures FreshSpellings(after, n)
  {
    forall i | n <= i < |after| ensures !HasSpelling(after[..i], after[i]) {
      if i < |before| {
        assert after[..i] == before[..i] && after[i] == before[i];
      }
    }
  }

  /** A form of an anchored player's name. */
  ghost predicate FormOf(players: seq<Player>, anchors: seq<Alias>, naming: Naming, at: Id, a: Alias) {
    exists p | p in players :: NamedExactly(anchors, naming, p) && a in (naming.forms)(p, at)
  }

  lemma SpellingsKept(before: seq<Alias>, after: seq<Alias>)
    requires before <= after
    ensures forall form | HasSpelling(before, form) :: HasSpelling(after, form)
  {
    PrefixAllIn(before, after);
  }

  predicate Anchored(aliases: seq<Alias>, naming: Naming, p: Player) {
    exists a | a in aliases :: a.player == p.id && a.locale == ENGLISH && a.policy == EXACT && a.normalized == (naming.normalized)(p.name)
  }

  /** Every form of a player whose name `anchors` anchors is one of the player's spellings. */
  ghost predicate FamiliesSpelled(m: GridManifest, anchors: seq<Alias>, naming: Naming, at: Id) {
    forall p, form | p in m.players && NamedExactly(anchors, naming, p) && form in (naming.forms)(p, at) :: IsSpelled(m.aliases, form)
  }

  ghost predicate IsSpelled(aliases: seq<Alias>, form: Alias) {
    exists k | k in aliases :: k.player == form.player && k.locale == form.locale && k.normalized == form.normalized
  }

  /** An exact English alias of the player is the player's name. */
  ghost predicate NamedExactly(aliases: seq<Alias>, naming: Naming, p: Player) {
    exists a | a in aliases :: a.player == p.id && a.locale == ENGLISH && a.policy == EXACT && a.normalized == (naming.normalized)(p.name)
  }

  /** A fact for present players only, about one who is not there. */
  predicate Skipped(m: GridManifest, f: Fact) {
    f.presentOnly && forall p | p in m.players :: p.id != f.player
  }

  /** The row that states one criterion of a fact, citing the correction's source. */
  ghost predicate StatesFact(ctx: Context, f: Fact, m: Membership) {
    && m.player == f.player && m.criterion in f.criteria
    && m.evidence == [ctx.source] && m.rest == (ctx.naming.stamp)(f.rest, ctx.at)
  }

  /** Every added membership states one of the facts. */
  ghost predicate FromFacts(ctx: Context, base: seq<Membership>, now: seq<Membership>, facts: seq<Fact>) {
    forall m | m in now :: m in base || exists f | f in facts :: StatesFact(ctx, f, m)
  }

  /** The player has the catalog's exact aliases, each as it is or as one with the same spelling and kind, and its image. */
  ghost predicate Equipped(catalog: GridManifest, now: GridManifest, p: Player) {
    && p.image in now.assets
    && forall a | a in catalog.aliases && a.player == p.id && a.policy == EXACT ::
      exists k | k in now.aliases :: k.player == a.player && k.normalized == a.normalized && k.locale == a.locale && k.kind == a.kind
  }

  /** Players who came in are the catalog's, fully equipped, and have a fact that is not for present players only. */
  ghost predicate Brought(m: GridManifest, now: GridManifest, catalog: GridManifest, facts: seq<Fact>) {
    forall p | p in now.players && p !in m.players ::
      && !HasPlayer(m, p.id) && p in catalog.players && Equipped(catalog, now, p)
      && exists f | f in facts :: f.player == p.id && f.name == p.name && !f.presentOnly
  }

  /** Every added alias is an exact one of the catalog, a reviewed one, or a form of a player's name. */
  ghost predicate AliasesBacked(ctx: Context, source: GridManifest, now: GridManifest, reviewed: seq<ReviewedAlias>) {
    forall a | a in now.aliases ::
      || a in source.aliases || (a in ctx.catalog.aliases && a.policy == EXACT)
      || (exists w | w in reviewed :: w.normalized.Some? && a == ReviewedRow(ctx, w))
      || (exists p | p in now.players :: NamedExactly(now.aliases, ctx.naming, p) && a in (ctx.naming.forms)(p, ctx.at))
  }

  // ------------------------------------------------------------------------------------------------ the correction, in full

  ghost function Credited(ctx: Context, m: GridManifest, f: Fact, criterion: Id): GridManifest {
    if IsMember(m.memberships, criterion, f.player) then m
    else m.(memberships := m.memberships + [Membership(criterion, f.player, [ctx.source], (ctx.naming.stamp)(f.rest, ctx.at))])
  }

  /** The first n criteria of the fact, those the release has. */
  ghost function CreditedAll(ctx: Context, m: GridManifest, f: Fact, n: nat): GridManifest
    requires n <= |f.criteria|
  {
    if n == 0 then m
    else
      var before := CreditedAll(ctx, m, f, n - 1);
      if Relevant(before, f.criteria[n - 1]) then Credited(ctx, before, f, f.criteria[n - 1]) else before
  }

  function WithPlayer(m: GridManifest, donor: Player, exact: seq<Alias>): GridManifest {
    m.(players := m.players + [donor], aliases := m.aliases + NewAliases(m.aliases, exact),
       assets := if donor.image in m.assets then m.assets else m.assets + [donor.image])
  }

  /** One fact that is not refused; others leave the release as it is. */
  ghost function TakeFact(ctx: Context, m: GridManifest, f: Fact): GridManifest {
    if !Matters(m, f) || Refused(ctx, m, f) then m
    else
      CreditedAll(ctx, TakeFactKnown(ctx, m, f), f, |f.criteria|)
  }

  ghost function TakeFacts(ctx: Context, m: GridManifest, facts: seq<Fact>): GridManifest {
    if facts == [] then m else TakeFact(ctx, TakeFacts(ctx, m, facts[..|facts| - 1]), facts[|facts| - 1])
  }

  /** No fact is refused when its turn comes. */
  ghost predicate FactsFine(ctx: Context, m: GridManifest, facts: seq<Fact>) {
    forall i | 0 <= i < |facts| :: !Refused(ctx, TakeFacts(ctx, m, facts[..i]), facts[i])
  }

  lemma {:induction false} CreditedAllHolds(ctx: Context, m: GridManifest, f: Fact, n: nat)
    requires n <= |f.criteria|
    ensures CreditedAll(ctx, m, f, n) == m.(memberships := CreditedAll(ctx, m, f, n).memberships)
    ensures m.memberships <= CreditedAll(ctx, m, f, n).memberships
    ensures forall c | c in f.criteria[..n] && Relevant(m, c) :: IsMember(CreditedAll(ctx, m, f, n).memberships, c, f.player)
    ensures forall r | r in CreditedAll(ctx, m, f, n).memberships :: r in m.memberships || StatesFact(ctx, f, r)
  {
    if n > 0 {
      CreditedAllHolds(ctx, m, f, n - 1);
      var before, last := CreditedAll(ctx, m, f, n - 1), f.criteria[n - 1];
      assert f.criteria[..n] == f.criteria[..n - 1] + [last];
      var after := CreditedAll(ctx, m, f, n);
      forall c | c in f.criteria[..n] && Relevant(m, c) ensures IsMember(after.memberships, c, f.player) {
        if c in f.criteria[..n - 1] {
          MembersKept(before.memberships, after.memberships, c, f.player);
        } else if !IsMember(before.memberships, c, f.player) {
          assert after.memberships[|before.memberships|] in after.memberships;
        }
      }
    }
  }

  lemma WithPlayerImports(catalog: GridManifest, m: GridManifest, id: Id)
    requires FindPlayer(catalog.players, id).Some?
    ensures var donor := FindPlayer(catalog.players, id).value;
      var now := WithPlayer(m, donor, ExactAliases(catalog.aliases, id));
      && Imported(m, now, catalog) && Equipped(catalog, now, donor) && donor.id == id && donor in catalog.players
      && m.aliases <= now.aliases && AllIn(m.assets, now.assets) && m.players <= now.players
  {
    FindPlayerExact(catalog.players, id);
    ExactAliasesExact(catalog.aliases, id);
    NewAliasesFrom(m.aliases, ExactAliases(catalog.aliases, id));
    NewAliasesCover(m.aliases, ExactAliases(catalog.aliases, id));
    var donor := FindPlayer(catalog.players, id).value;
    var now := WithPlayer(m, donor, ExactAliases(catalog.aliases, id));
    assert now.assets == m.assets || now.assets[|m.assets|] == donor.image;
    forall a | a in catalog.aliases && a.player == id && a.policy == EXACT
      ensures exists k | k in now.aliases :: k.player == a.player && k.normalized == a.normalized && k.locale == a.locale && k.kind == a.kind
    {
      assert a in ExactAliases(catalog.aliases, id);
    }
  }

  lemma {:induction false} NewAliasesCover(known: seq<Alias>, candidates: seq<Alias>)
    ensures forall a | a in candidates ::
      exists k | k in known + NewAliases(known, candidates) ::
        k.player == a.player && k.normalized == a.normalized && k.locale == a.locale && k.kind == a.kind
  {
    if candidates != [] {
      var all, rest := known + NewAliases(known, candidates), known + NewAliases(known, candidates[1..]);
      NewAliasesCover(known, candidates[1..]);
      assert forall k | k in rest :: k in all;
      forall a | a in candidates
        ensures exists k | k in all :: k.player == a.player && k.normalized == a.normalized && k.locale == a.locale && k.kind == a.kind
      {
        if a == candidates[0] {
          if k :| k in known && SameAlias(k, a) {
            assert k in all;
          } else {
            assert NewAliases(known, candidates)[0] == a;
            assert a in all;
          }
        } else {
          assert a in candidates[1..];
          var k :| k in rest && k.player == a.player && k.normalized == a.normalized && k.locale == a.locale && k.kind == a.kind;
          assert k in all;
        }
      }
    }
  }

  lemma EquippedKept(catalog: GridManifest, before: GridManifest, after: GridManifest, p: Player)
    requires Equipped(catalog, before, p) && AllIn(before.aliases, after.aliases) && AllIn(before.assets, after.assets)
    ensures Equipped(catalog, after, p)
  {
  }

  /** A fact that is not refused holds afterwards, or was for present players only; nothing else comes in with it. */
  lemma TakeFactHolds(ctx: Context, m: GridManifest, f: Fact)
    ensures TakeFact(ctx, m, f).criteria == m.criteria && m.players <= TakeFact(ctx, m, f).players
    ensures m.memberships <= TakeFact(ctx, m, f).memberships
    ensures !Refused(ctx, m, f) ==> FactHolds(TakeFact(ctx, m, f), f) || Skipped(m, f)
    ensures forall r | r in TakeFact(ctx, m, f).memberships :: r in m.memberships || StatesFact(ctx, f, r)
    ensures Imported(m, TakeFact(ctx, m, f), ctx.catalog)
    ensures AllIn(m.aliases, TakeFact(ctx, m, f).aliases) && AllIn(m.assets, TakeFact(ctx, m, f).assets)
    ensures Brought(m, TakeFact(ctx, m, f), ctx.catalog, [f])
    ensures forall r | r in TakeFact(ctx, m, f).memberships :: r in m.memberships || HasPlayer(TakeFact(ctx, m, f), r.player)
  {
    FindPlayerExact(m.players, f.player);
    if Matters(m, f) && !Refused(ctx, m, f) {
      if FindPlayer(m.players, f.player).None? {
        WithPlayerImports(ctx.catalog, m, f.player);
        PrefixAllIn(m.aliases, TakeFactKnown(ctx, m, f).aliases);
      }
      var known := TakeFactKnown(ctx, m, f);
      CreditedAllHolds(ctx, known, f, |f.criteria|);
      assert f.criteria[..|f.criteria|] == f.criteria;
      assert [f][0] == f;
      var now := TakeFact(ctx, m, f);
      assert now == known.(memberships := now.memberships);
      KnownHas(ctx, m, f);
    }
  }

  /** The release with the fact's player. */
  ghost function TakeFactKnown(ctx: Context, m: GridManifest, f: Fact): GridManifest
    requires Matters(m, f) && !Refused(ctx, m, f)
  {
    if FindPlayer(m.players, f.player).Some? then m
    else WithPlayer(m, FindPlayer(ctx.catalog.players, f.player).value, ExactAliases(ctx.catalog.aliases, f.player))
  }

  lemma KnownHas(ctx: Context, m: GridManifest, f: Fact)
    requires Matters(m, f) && !Refused(ctx, m, f)
    ensures HasPlayer(TakeFactKnown(ctx, m, f), f.player)
  {
    FindPlayerExact(m.players, f.player);
    FindPlayerExact(ctx.catalog.players, f.player);
    var known := TakeFactKnown(ctx, m, f);
    if FindPlayer(m.players, f.player).None? {
      assert known.players[|m.players|] in known.players;
    }
  }

  lemma FactKept(before: GridManifest, after: GridManifest, f: Fact)
    requires FactHolds(before, f) && before.memberships <= after.memberships && before.criteria == after.criteria
    ensures FactHolds(after, f)
  {
    forall c | c in f.criteria && Relevant(after, c) ensures IsMember(after.memberships, c, f.player) {
      assert Relevant(before, c);
      MembersKept(before.memberships, after.memberships, c, f.player);
    }
  }

  lemma FactsFineFront(ctx: Context, m: GridManifest, facts: seq<Fact>)
    requires FactsFine(ctx, m, facts) && facts != []
    ensures FactsFine(ctx, m, facts[..|facts| - 1]) && !Refused(ctx, TakeFacts(ctx, m, facts[..|facts| - 1]), facts[|facts| - 1])
  {
    forall i | 0 <= i < |facts| - 1 ensures !Refused(ctx, TakeFacts(ctx, m, facts[..|facts| - 1][..i]), facts[i]) {
      assert facts[..|facts| - 1][..i] == facts[..i];
    }
  }

  lemma BroughtMore(m: GridManifest, before: GridManifest, now: GridManifest, catalog: GridManifest, front: seq<Fact>, last: Fact)
    requires Brought(m, before, catalog, front) && Brought(before, now, catalog, [last])
    requires AllIn(m.players, before.players) && AllIn(before.aliases, now.aliases) && AllIn(before.assets, now.assets)
    ensures Brought(m, now, catalog, front + [last])
  {
    forall p | p in now.players && p !in m.players
      ensures !HasPlayer(m, p.id) && p in catalog.players && Equipped(catalog, now, p)
           && exists f | f in front + [last] :: f.player == p.id && f.name == p.name && !f.presentOnly
    {
      if p in before.players {
        EquippedKept(catalog, before, now, p);
        var f :| f in front && f.player == p.id && f.name == p.name && !f.presentOnly;
        assert f in front + [last];
      } else {
        var f :| f in [last] && f.player == p.id && f.name == p.name && !f.presentOnly;
        assert f in front + [last];
      }
    }
  }

  lemma FactsFineStep(ctx: Context, m: GridManifest, facts: seq<Fact>, i: nat)
    requires i < |facts| && FactsFine(ctx, m, facts[..i])
    ensures FactsFine(ctx, m, facts[..i + 1]) <==> !Refused(ctx, TakeFacts(ctx, m, facts[..i]), facts[i])
    ensures FactsFine(ctx, m, facts) ==> FactsFine(ctx, m, facts[..i + 1])
  {
    if FactsFine(ctx, m, facts[..i + 1]) {
      assert facts[..i + 1][..i] == facts[..i] && !Refused(ctx, TakeFacts(ctx, m, facts[..i + 1][..i]), facts[..i + 1][i]);
    }
    if !Refused(ctx, TakeFacts(ctx, m, facts[..i]), facts[i]) {
      var upTo := facts[..i + 1];
      forall k | 0 <= k < |upTo| ensures !Refused(ctx, TakeFacts(ctx, m, upTo[..k]), upTo[k]) {
        assert upTo[..k] == facts[..k];
        if k < i {
          assert facts[..i][..k] == facts[..k] && !Refused(ctx, TakeFacts(ctx, m, facts[..i][..k]), facts[..i][k]);
        }
      }
    }
    if FactsFine(ctx, m, facts) {
      assert facts[..i] == facts[..i + 1][..i];
      assert !Refused(ctx, TakeFacts(ctx, m, facts[..i]), facts[i]);
    }
  }

  /** When no fact is refused all of them hold, and nothing else has come in. */
  lemma {:induction false} TakeFactsHold(ctx: Context, m: GridManifest, facts: seq<Fact>)
    requires FactsFine(ctx, m, facts)
    ensures TakeFacts(ctx, m, facts).criteria == m.criteria && m.players <= TakeFacts(ctx, m, facts).players
    ensures m.memberships <= TakeFacts(ctx, m, facts).memberships && AllIn(m.aliases, TakeFacts(ctx, m, facts).aliases)
    ensures forall f | f in facts :: FactHolds(TakeFacts(ctx, m, facts), f) || Skipped(m, f)
    ensures FromFacts(ctx, m.memberships, TakeFacts(ctx, m, facts).memberships, facts)
    ensures Imported(m, TakeFacts(ctx, m, facts), ctx.catalog) && Brought(m, TakeFacts(ctx, m, facts), ctx.catalog, facts)
    ensures forall r | r in TakeFacts(ctx, m, facts).memberships :: r in m.memberships || HasPlayer(TakeFacts(ctx, m, facts), r.player)
  {
    if facts != [] {
      var front, last := facts[..|facts| - 1], facts[|facts| - 1];
      FactsFineFront(ctx, m, facts);
      TakeFactsHold(ctx, m, front);
      var before := TakeFacts(ctx, m, front);
      TakeFactHolds(ctx, before, last);
      PrefixAllIn(m.players, before.players);
      PrefixAllIn(before.players, TakeFacts(ctx, m, facts).players);
      assert facts == front + [last];
      BroughtMore(m, before, TakeFacts(ctx, m, facts), ctx.catalog, front, last);
      forall f | f in facts ensures FactHolds(TakeFacts(ctx, m, facts), f) || Skipped(m, f) {
        if f in front && FactHolds(before, f) {
          FactKept(before, TakeFacts(ctx, m, facts), f);
        }
      }
    }
  }

  /** The player has the spelling. */
  predicate HasAlias(m: GridManifest, player: Id, normalized: Id) {
    exists k | k in m.aliases :: k.player == player && k.normalized == normalized
  }

  function TakeAlias(ctx: Context, m: GridManifest, a: ReviewedAlias): GridManifest {
    if FindPlayer(m.players, a.player).None? || AliasRefused(m, a) || HasAlias(m, a.player, a.normalized.value) then m
    else m.(aliases := m.aliases + [ReviewedRow(ctx, a)])
  }

  function TakeAliases(ctx: Context, m: GridManifest, aliases: seq<ReviewedAlias>): GridManifest {
    if aliases == [] then m else TakeAlias(ctx, TakeAliases(ctx, m, aliases[..|aliases| - 1]), aliases[|aliases| - 1])
  }

  /** No reviewed alias is refused when its turn comes. */
  ghost predicate AliasesFine(ctx: Context, m: GridManifest, aliases: seq<ReviewedAlias>) {
    forall i | 0 <= i < |aliases| :: !AliasRefused(TakeAliases(ctx, m, aliases[..i]), aliases[i])
  }

  /** The reviewed alias is the player's, or was for present players and the player is absent. */
  ghost predicate AliasHolds(m: GridManifest, a: ReviewedAlias) {
    if exists p | p in m.players :: p.id == a.player
    then a.normalized.Some? && exists k | k in m.aliases :: k.player == a.player && k.normalized == a.normalized.value
    else a.presentOnly
  }

  lemma AliasKept(before: GridManifest, after: GridManifest, a: ReviewedAlias)
    requires AliasHolds(before, a) && before.aliases <= after.aliases && before.players == after.players
    ensures AliasHolds(after, a)
  {
    PrefixAllIn(before.aliases, after.aliases);
  }

  lemma TakeAliasHolds(ctx: Context, m: GridManifest, a: ReviewedAlias)
    ensures TakeAlias(ctx, m, a) == m.(aliases := TakeAlias(ctx, m, a).aliases) && m.aliases <= TakeAlias(ctx, m, a).aliases
    ensures !AliasRefused(m, a) ==> AliasHolds(TakeAlias(ctx, m, a), a)
    ensures forall k | k in TakeAlias(ctx, m, a).aliases :: k in m.aliases || (a.normalized.Some? && k == ReviewedRow(ctx, a))
  {
    FindPlayerExact(m.players, a.player);
    if FindPlayer(m.players, a.player).Some? && !AliasRefused(m, a) && !HasAlias(m, a.player, a.normalized.value) {
      var row := ReviewedRow(ctx, a);
      assert row in TakeAlias(ctx, m, a).aliases;
    }
  }

  lemma AliasesFineFront(ctx: Context, m: GridManifest, aliases: seq<ReviewedAlias>)
    requires AliasesFine(ctx, m, aliases) && aliases != []
    ensures AliasesFine(ctx, m, aliases[..|aliases| - 1])
    ensures !AliasRefused(TakeAliases(ctx, m, aliases[..|aliases| - 1]), aliases[|aliases| - 1])
  {
    forall i | 0 <= i < |aliases| - 1 ensures !AliasRefused(TakeAliases(ctx, m, aliases[..|aliases| - 1][..i]), aliases[i]) {
      assert aliases[..|aliases| - 1][..i] == aliases[..i];
    }
  }

  lemma AliasesFineStep(ctx: Context, m: GridManifest, aliases: seq<ReviewedAlias>, i: nat)
    requires i < |aliases| && AliasesFine(ctx, m, aliases[..i])
    ensures AliasesFine(ctx, m, aliases[..i + 1]) <==> !AliasRefused(TakeAliases(ctx, m, aliases[..i]), aliases[i])
    ensures AliasesFine(ctx, m, aliases) ==> AliasesFine(ctx, m, aliases[..i + 1])
  {
    if AliasesFine(ctx, m, aliases[..i + 1]) {
      assert aliases[..i + 1][..i] == aliases[..i] && !AliasRefused(TakeAliases(ctx, m, aliases[..i + 1][..i]), aliases[..i + 1][i]);
    }
    if !AliasRefused(TakeAliases(ctx, m, aliases[..i]), aliases[i]) {
      var upTo := aliases[..i + 1];
      forall k | 0 <= k < |upTo| ensures !AliasRefused(TakeAliases(ctx, m, upTo[..k]), upTo[k]) {
        assert upTo[..k] == aliases[..k];
        if k < i {
          assert aliases[..i][..k] == aliases[..k] && !AliasRefused(TakeAliases(ctx, m, aliases[..i][..k]), aliases[..i][k]);
        }
      }
    }
    if AliasesFine(ctx, m, aliases) {
      assert aliases[..i] == aliases[..i + 1][..i];
      assert !AliasRefused(TakeAliases(ctx, m, aliases[..i]), aliases[i]);
    }
  }

  /** When no reviewed alias is refused all of them are there, and nothing else has come in. */
  lemma {:induction false} TakeAliasesHold(ctx: Context, m: GridManifest, aliases: seq<ReviewedAlias>)
    requires AliasesFine(ctx, m, aliases)
    ensures TakeAliases(ctx, m, aliases) == m.(aliases := TakeAliases(ctx, m, aliases).aliases)
    ensures m.aliases <= TakeAliases(ctx, m, aliases).aliases
    ensures forall a | a in aliases :: AliasHolds(TakeAliases(ctx, m, aliases), a)
    ensures forall k | k in TakeAliases(ctx, m, aliases).aliases ::
      k in m.aliases || exists w | w in aliases :: w.normalized.Some? && k == ReviewedRow(ctx, w)
  {
    if aliases != [] {
      var front, last := aliases[..|aliases| - 1], aliases[|aliases| - 1];
      AliasesFineFront(ctx, m, aliases);
      TakeAliasesHold(ctx, m, front);
      var before := TakeAliases(ctx, m, front);
      TakeAliasHolds(ctx, before, last);
      assert aliases == front + [last];
      forall a | a in aliases ensures AliasHolds(TakeAliases(ctx, m, aliases), a) {
        if a in front {
          AliasKept(before, TakeAliases(ctx, m, aliases), a);
        }
      }
    }
  }

  function Spelled(aliases: seq<Alias>, forms: seq<Alias>): seq<Alias> {
    if forms == [] then aliases
    else
      var before, form := Spelled(aliases, forms[..|forms| - 1]), forms[|forms| - 1];
      if HasSpelling(before, form) then before else before + [form]
  }

  /** The forms of the first n players that `anchors` anchors. */
  function WithFamilies(players: seq<Player>, anchors: seq<Alias>, naming: Naming, at: Id, n: nat): seq<Alias>
    requires n <= |players|
  {
    if n == 0 then anchors
    else
      var before := WithFamilies(players, anchors, naming, at, n - 1);
      if Anchored(anchors, naming, players[n - 1]) then Spelled(before, (naming.forms)(players[n - 1], at)) else before
  }

  lemma {:induction false} SpelledHolds(aliases: seq<Alias>, forms: seq<Alias>)
    ensures aliases <= Spelled(aliases, forms) && FreshSpellings(Spelled(aliases, forms), |aliases|)
    ensures forall form | form in forms :: HasSpelling(Spelled(aliases, forms), form)
    ensures forall a | a in Spelled(aliases, forms) :: a in aliases || a in forms
  {
    if forms != [] {
      var front, form := forms[..|forms| - 1], forms[|forms| - 1];
      SpelledHolds(aliases, front);
      var before := Spelled(aliases, front);
      assert forms == front + [form];
      if !HasSpelling(before, form) {
        FreshMore(before, |aliases|, form);
        assert (before + [form])[|before|] in before + [form];
        SpellingsKept(before, before + [form]);
      }
    }
  }

  /** What the forms of the first n players make of the anchors. */
  ghost predicate Named(players: seq<Player>, anchors: seq<Alias>, naming: Naming, at: Id, n: nat, aliases: seq<Alias>)
    requires n <= |players|
  {
    && anchors <= aliases && FreshSpellings(aliases, |anchors|)
    && (forall k, form | 0 <= k < n && Anchored(anchors, naming, players[k]) && form in (naming.forms)(players[k], at) :: HasSpelling(aliases, form))
    && (forall a | a in aliases :: a in anchors || FormOf(players, anchors, naming, at, a))
  }

  lemma NamedStep(players: seq<Player>, anchors: seq<Alias>, naming: Naming, at: Id, n: nat, before: seq<Alias>)
    requires 0 < n <= |players| && Named(players, anchors, naming, at, n - 1, before) && Anchored(anchors, naming, players[n - 1])
    ensures Named(players, anchors, naming, at, n, Spelled(before, (naming.forms)(players[n - 1], at)))
  {
    var player := players[n - 1];
    var after := Spelled(before, (naming.forms)(player, at));
    SpelledHolds(before, (naming.forms)(player, at));
    FreshJoins(before, after, |anchors|);
    SpellingsKept(before, after);
    forall a | a in after && a !in before ensures FormOf(players, anchors, naming, at, a) {
      assert player in players && a in (naming.forms)(player, at);
    }
  }

  lemma {:induction false} WithFamiliesHolds(players: seq<Player>, anchors: seq<Alias>, naming: Naming, at: Id, n: nat)
    requires n <= |players|
    ensures Named(players, anchors, naming, at, n, WithFamilies(players, anchors, naming, at, n))
  {
    if n > 0 {
      WithFamiliesHolds(players, anchors, naming, at, n - 1);
      var before := WithFamilies(players, anchors, naming, at, n - 1);
      if Anchored(anchors, naming, players[n - 1]) {
        NamedStep(players, anchors, naming, at, n, before);
      } else {
        assert forall k | 0 <= k < n && Anchored(anchors, naming, players[k]) :: k < n - 1;
      }
    }
  }

  /** The criteria, with the members of those in `gained` counted again. */
  function Recounted(m: GridManifest, gained: set<Id>): seq<Criterion> {
    seq(|m.criteria|, i requires 0 <= i < |m.criteria| =>
      if m.criteria[i].key in gained
      then m.criteria[i].(memberCount := Some(|MembersOf(MemberSets(m.memberships), m.criteria[i].key)|)) else m.criteria[i])
  }

  /** The criteria of the rows from the n-th on. */
  function Gained(rows: seq<Membership>, n: nat): set<Id> {
    if n <= |rows| then set m | m in rows[n..] :: m.criterion else {}
  }

  function Exposed(boards: seq<GridBoard>): set<PlayerId> {
    set b, c, p | b in boards && c in b.cells && p in c.players :: p
  }

  /** The source with its facts, aliases, family forms and counts; boards are as they were. */
  ghost function Filled(ctx: Context, source: GridManifest, batch: Batch): GridManifest {
    var taken := TakeAliases(ctx, TakeFacts(ctx, source, batch.facts), batch.aliases);
    var named := taken.(aliases := WithFamilies(taken.players, taken.aliases, ctx.naming, ctx.at, |taken.players|));
    named.(criteria := Recounted(named, Gained(named.memberships, |source.memberships|)))
  }

  /** The release information of a prepared candidate. */
  function PreparedRelease(source: GridManifest, catalog: GridManifest, at: Id, batch: Option<Id>, boards: seq<GridBoard>): Release {
    source.release.(
      approvedBy := Unreviewed, approvedAt := at, from := source.version, transform := CORRECTION,
      catalogVersion := catalog.version, preparedAt := Some(at), batch := if batch.Some? then batch else source.release.batch,
      exposed := |Exposed(boards)|, review := Pending)
  }

  /** No fact and no reviewed alias of the batch is refused at its turn. */
  ghost predicate Fillable(ctx: Context, source: GridManifest, batch: Batch) {
    FactsFine(ctx, source, batch.facts) && AliasesFine(ctx, TakeFacts(ctx, source, batch.facts), batch.aliases)
  }

  /** A known batch the source does not have yet, a higher version, and a valid time. */
  predicate Startable(rules: Rules, source: GridManifest, version: nat, at: Id, batch: Option<Id>) {
    && rules.batches(batch).Some? && version > source.version && rules.valid(at)
    && forall s | s in source.sources :: s.key != rules.batches(batch).value.source.key
  }

  /** prepareAnswerCorrections goes through. */
  ghost predicate Preparable(rules: Rules, source: GridManifest, catalog: GridManifest, version: nat, at: Id, batch: Option<Id>) {
    && Startable(rules, source, version, at, batch)
    && var known := rules.batches(batch).value;
    && var ctx := ContextOf(rules, catalog, at, known);
    && Fillable(ctx, source, known)
    && AllSupported(source.boards, MemberSets(Filled(ctx, source, known).memberships))
  }

  /** The candidate with given content and boards. */
  function Composed(rules: Rules, source: GridManifest, catalog: GridManifest, version: nat, at: Id, batch: Option<Id>,
                    filled: GridManifest, boards: seq<GridBoard>): GridManifest
    requires rules.batches(batch).Some?
  {
    filled.(sources := source.sources + [rules.batches(batch).value.source.(approved := false, owner := Unreviewed, at := at)],
            version := version, aliasVersion := source.aliasVersion + 1, boards := boards,
            release := PreparedRelease(source, catalog, at, batch, boards))
  }

  /** What it gives: the candidate and what it is a draft of. */
  ghost function Prepared(rules: Rules, source: GridManifest, catalog: GridManifest, version: nat, at: Id, batch: Option<Id>): CorrectionDraft
    requires Preparable(rules, source, catalog, version, at, batch)
  {
    var known := rules.batches(batch).value;
    var filled := Filled(ContextOf(rules, catalog, at, known), source, known);
    var boards := CompletedBoards(source.boards, MemberSets(filled.memberships));
    CorrectionDraft(true, source.version, Composed(rules, source, catalog, version, at, batch, filled, boards))
  }

  /** approveAnswerCorrections goes through: a waiting draft of a correction, a reviewer with a name and a time, and no
      unreviewed source but the batch's own. */
  predicate Approvable(rules: Rules, draft: CorrectionDraft, reviewer: Approval, at: Id) {
    && draft.waiting && reviewer.Approved? && rules.valid(at)
    && rules.batches(draft.candidate.release.batch).Some?
    && draft.candidate.release.transform == CORRECTION && draft.candidate.release.from == draft.sourceVersion
    && draft.candidate.release.review == Pending
    && forall s | s in draft.candidate.sources :: s.approved || s.key == rules.batches(draft.candidate.release.batch).value.source.key
  }

  function Signed(s: Source, reviewer: Approval, at: Id): Source {
    if s.approved then s else s.(approved := true, owner := reviewer, at := at)
  }

  function SignedBoard(b: GridBoard, reviewer: Approval): GridBoard {
    if b.approvedBy == Unreviewed then b.(approvedBy := reviewer) else b
  }

  function SignedSources(sources: seq<Source>, reviewer: Approval, at: Id): seq<Source> {
    seq(|sources|, i requires 0 <= i < |sources| => Signed(sources[i], reviewer, at))
  }

  function SignedBoards(boards: seq<GridBoard>, reviewer: Approval): seq<GridBoard> {
    seq(|boards|, i requires 0 <= i < |boards| => SignedBoard(boards[i], reviewer))
  }

  function Approved(candidate: GridManifest, reviewer: Approval, at: Id): GridManifest {
    candidate.(sources := SignedSources(candidate.sources, reviewer, at), boards := SignedBoards(candidate.boards, reviewer),
               release := candidate.release.(approvedBy := reviewer, approvedAt := at, review := Reviewed))
  }

  /** The corrected release: prepared, then approved; None when either is refused. */
  ghost function Corrected(rules: Rules, source: GridManifest, catalog: GridManifest, version: nat, at: Id, batch: Option<Id>,
                           reviewer: Approval, approvedAt: Id): Option<GridManifest> {
    if !Preparable(rules, source, catalog, version, at, batch) then None
    else
      var draft := Prepared(rules, source, catalog, version, at, batch);
      if Approvable(rules, draft, reviewer, approvedAt) then Some(Approved(draft.candidate, reviewer, approvedAt)) else None
  }

  // ------------------------------------------------------------------------------------------------ what a correction holds

  /** The aliases that can anchor a name: all but the family forms themselves. */
  ghost function Anchors(ctx: Context, source: GridManifest, batch: Batch): seq<Alias> {
    TakeAliases(ctx, TakeFacts(ctx, source, batch.facts), batch.aliases).aliases
  }

  /** All facts, the rows that state them and only these, the players they need with all that is theirs, and right counts. */
  ghost predicate HoldsFacts(ctx: Context, source: GridManifest, now: GridManifest, facts: seq<Fact>) {
    && (forall f | f in facts :: FactHolds(now, f) || Skipped(source, f))
    && FromFacts(ctx, source.memberships, now.memberships, facts)
    && (forall m | m in now.memberships :: m in source.memberships || HasPlayer(now, m.player))
    && AllIn(source.players, now.players) && Brought(source, now, ctx.catalog, facts)
    && RightCounts(source, now)
  }

  /** All reviewed aliases, every form of an anchored name, and no alias from anywhere else. */
  ghost predicate HoldsNames(ctx: Context, source: GridManifest, now: GridManifest, batch: Batch) {
    && AllIn(source.aliases, now.aliases) && (forall a | a in batch.aliases :: AliasHolds(now, a))
    && FamiliesSpelled(now, Anchors(ctx, source, batch), ctx.naming, ctx.at)
    && AliasesBacked(ctx, source, now, batch.aliases)
  }

  ghost predicate HoldsCorrection(ctx: Context, source: GridManifest, now: GridManifest, batch: Batch) {
    HoldsFacts(ctx, source, now, batch.facts) && HoldsNames(ctx, source, now, batch)
  }

  /** The count of every criterion that gained a membership is the number of its members; the others are as they were. */
  ghost predicate RightCounts(source: GridManifest, now: GridManifest) {
    && source.memberships <= now.memberships && |now.criteria| == |source.criteria|
    && forall i | 0 <= i < |source.criteria| ::
      now.criteria[i] ==
        if exists m | m in now.memberships[|source.memberships|..] :: m.criterion == source.criteria[i].key
        then source.criteria[i].(memberCount := Some(|set m | m in now.memberships && m.criterion == source.criteria[i].key :: m.player|))
        else source.criteria[i]
  }

  lemma MembersAre(rows: seq<Membership>, key: Id)
    ensures MembersOf(MemberSets(rows), key) == set m | m in rows && m.criterion == key :: m.player
  {
    forall p ensures p in MembersOf(MemberSets(rows), key) <==> p in (set m | m in rows && m.criterion == key :: m.player) {
      MemberSetsExact(rows, key, p);
    }
  }

  lemma RecountedIsRight(source: GridManifest, now: GridManifest)
    requires source.memberships <= now.memberships
    requires now.criteria == Recounted(source.(memberships := now.memberships), Gained(now.memberships, |source.memberships|))
    ensures RightCounts(source, now)
  {
    forall i | 0 <= i < |source.criteria|
      ensures MembersOf(MemberSets(now.memberships), source.criteria[i].key)
           == set m | m in now.memberships && m.criterion == source.criteria[i].key :: m.player
    {
      MembersAre(now.memberships, source.criteria[i].key);
    }
  }

  lemma CountingKeepsFacts(before: GridManifest, after: GridManifest, source: GridManifest, facts: seq<Fact>)
    requires forall f | f in facts :: FactHolds(before, f) || Skipped(source, f)
    requires before.memberships == after.memberships && CleanAll(before.criteria) == CleanAll(after.criteria)
    ensures forall f | f in facts :: FactHolds(after, f) || Skipped(source, f)
  {
    forall f | f in facts && FactHolds(before, f) ensures FactHolds(after, f) {
      forall c, k | c in f.criteria && k in after.criteria && k.key == c ensures IsMember(after.memberships, c, f.player) {
        assert Relevant(after, c);
        RelevantKept(before, after, c);
      }
    }
  }

  lemma BackedBy(ctx: Context, source: GridManifest, taken: seq<Alias>, now: GridManifest, reviewed: seq<ReviewedAlias>, credited: seq<Alias>)
    requires forall a | a in credited :: a in source.aliases || (a in ctx.catalog.aliases && a.policy == EXACT)
    requires forall k | k in taken :: k in credited || exists w | w in reviewed :: w.normalized.Some? && k == ReviewedRow(ctx, w)
    requires AllIn(taken, now.aliases)
    requires forall a | a in now.aliases :: a in taken || FormOf(now.players, taken, ctx.naming, ctx.at, a)
    ensures AliasesBacked(ctx, source, now, reviewed)
  {
    forall a | a in now.aliases && a !in taken
      ensures exists p | p in now.players :: NamedExactly(now.aliases, ctx.naming, p) && a in (ctx.naming.forms)(p, ctx.at)
    {
      var p :| p in now.players && NamedExactly(taken, ctx.naming, p) && a in (ctx.naming.forms)(p, ctx.at);
      assert NamedExactly(now.aliases, ctx.naming, p);
    }
  }

  lemma FilledFacts(ctx: Context, source: GridManifest, credited: GridManifest, filled: GridManifest, facts: seq<Fact>)
    requires FactsFine(ctx, source, facts) && credited == TakeFacts(ctx, source, facts)
    requires filled.players == credited.players && filled.memberships == credited.memberships && filled.assets == credited.assets
    requires AllIn(credited.aliases, filled.aliases)
    requires filled.criteria == Recounted(source.(memberships := filled.memberships), Gained(filled.memberships, |source.memberships|))
    ensures HoldsFacts(ctx, source, filled, facts)
  {
    TakeFactsHold(ctx, source, facts);
    assert CleanAll(credited.criteria) == CleanAll(filled.criteria);
    CountingKeepsFacts(credited, filled, source, facts);
    RecountedIsRight(source, filled);
    PrefixAllIn(source.players, credited.players);
    forall p | p in filled.players && p !in source.players ensures Equipped(ctx.catalog, filled, p) {
      EquippedKept(ctx.catalog, credited, filled, p);
    }
  }

  lemma FilledNames(ctx: Context, source: GridManifest, credited: GridManifest, taken: GridManifest, filled: GridManifest, batch: Batch)
    requires FactsFine(ctx, source, batch.facts) && credited == TakeFacts(ctx, source, batch.facts)
    requires AliasesFine(ctx, credited, batch.aliases) && taken == TakeAliases(ctx, credited, batch.aliases)
    requires filled.players == taken.players
    requires filled.aliases == WithFamilies(taken.players, taken.aliases, ctx.naming, ctx.at, |taken.players|)
    ensures AllIn(credited.aliases, filled.aliases) && HoldsNames(ctx, source, filled, batch)
  {
    TakeFactsHold(ctx, source, batch.facts);
    TakeAliasesHold(ctx, credited, batch.aliases);
    WithFamiliesHolds(taken.players, taken.aliases, ctx.naming, ctx.at, |taken.players|);
    PrefixAllIn(credited.aliases, taken.aliases);
    PrefixAllIn(taken.aliases, filled.aliases);
    forall a | a in batch.aliases ensures AliasHolds(filled, a) {
      AliasKept(taken, filled, a);
    }
    FamiliesThere(taken, filled, ctx);
    BackedBy(ctx, source, taken.aliases, filled, batch.aliases, credited.aliases);
  }

  lemma FilledHolds(ctx: Context, source: GridManifest, batch: Batch)
    requires Fillable(ctx, source, batch)
    ensures HoldsCorrection(ctx, source, Filled(ctx, source, batch), batch)
  {
    var credited := TakeFacts(ctx, source, batch.facts);
    var taken := TakeAliases(ctx, credited, batch.aliases);
    var filled := Filled(ctx, source, batch);
    TakeAliasesHold(ctx, credited, batch.aliases);
    SameCriteria(ctx, source, batch.facts);
    FilledNames(ctx, source, credited, taken, filled, batch);
    assert filled.criteria == Recounted(source.(memberships := filled.memberships), Gained(filled.memberships, |source.memberships|));
    FilledFacts(ctx, source, credited, filled, batch.facts);
  }

  lemma SameCriteria(ctx: Context, source: GridManifest, facts: seq<Fact>)
    requires FactsFine(ctx, source, facts)
    ensures TakeFacts(ctx, source, facts).criteria == source.criteria
  {
    TakeFactsHold(ctx, source, facts);
  }

  lemma FamiliesThere(taken: GridManifest, filled: GridManifest, ctx: Context)
    requires filled.players == taken.players
    requires filled.aliases == WithFamilies(taken.players, taken.aliases, ctx.naming, ctx.at, |taken.players|)
    ensures FamiliesSpelled(filled, taken.aliases, ctx.naming, ctx.at)
  {
    WithFamiliesHolds(taken.players, taken.aliases, ctx.naming, ctx.at, |taken.players|);
    forall p, form | p in filled.players && NamedExactly(taken.aliases, ctx.naming, p) && form in (ctx.naming.forms)(p, ctx.at)
      ensures IsSpelled(filled.aliases, form)
    {
      var k :| 0 <= k < |taken.players| && taken.players[k] == p;
      assert Anchored(taken.aliases, ctx.naming, taken.players[k]);
      assert HasSpelling(filled.aliases, form);
    }
  }

  /** The context a batch is prepared in. */
  function ContextOf(rules: Rules, catalog: GridManifest, at: Id, batch: Batch): Context {
    Context(catalog, rules.naming, batch.source.key, at)
  }

  lemma SameFacts(ctx: Context, source: GridManifest, m: GridManifest, facts: seq<Fact>, n: GridManifest)
    requires HoldsFacts(ctx, source, m, facts) && AllIn(m.aliases, n.aliases)
    requires n.memberships == m.memberships && n.players == m.players && n.criteria == m.criteria && n.assets == m.assets
    ensures HoldsFacts(ctx, source, n, facts)
  {
    assert CleanAll(m.criteria) == CleanAll(n.criteria);
    CountingKeepsFacts(m, n, source, facts);
    forall p | p in n.players && p !in source.players ensures Equipped(ctx.catalog, n, p) {
      EquippedKept(ctx.catalog, m, n, p);
    }
  }

  lemma SameNames(ctx: Context, source: GridManifest, m: GridManifest, batch: Batch, n: GridManifest)
    requires HoldsNames(ctx, source, m, batch) && n.players == m.players && forall a :: a in n.aliases <==> a in m.aliases
    ensures HoldsNames(ctx, source, n, batch)
  {
    forall a | a in batch.aliases ensures AliasHolds(n, a) {
      assert AliasHolds(m, a);
    }
    forall p, form | p in n.players && NamedExactly(Anchors(ctx, source, batch), ctx.naming, p) && form in (ctx.naming.forms)(p, ctx.at)
      ensures IsSpelled(n.aliases, form)
    {
      assert IsSpelled(m.aliases, form);
    }
    assert forall p | NamedExactly(m.aliases, ctx.naming, p) :: NamedExactly(n.aliases, ctx.naming, p);
  }

  lemma SameContent(ctx: Context, source: GridManifest, m: GridManifest, batch: Batch, n: GridManifest)
    requires HoldsCorrection(ctx, source, m, batch)
    requires n.memberships == m.memberships && n.players == m.players && n.criteria == m.criteria && n.assets == m.assets
    requires multiset(n.aliases) == multiset(m.aliases)
    ensures HoldsCorrection(ctx, source, n, batch)
  {
    forall a ensures a in n.aliases <==> a in m.aliases {
      assert a in multiset(n.aliases) <==> a in multiset(m.aliases);
    }
    SameFacts(ctx, source, m, batch.facts, n);
    SameNames(ctx, source, m, batch, n);
  }

  /** Boards as they are served: each with its definition; in every cell exactly the players with both memberships, the old
      ones first, the others in order; and a version one higher exactly where a cell changed. */
  ghost predicate Served(boards: seq<GridBoard>, next: seq<GridBoard>, rows: seq<Membership>) {
    |boards| == |next| && forall i | 0 <= i < |boards| :: BoardServed(boards[i], next[i], rows)
  }

  ghost predicate BoardServed(b: GridBoard, c: GridBoard, rows: seq<Membership>) {
    && c.key == b.key && c.rows == b.rows && c.columns == b.columns && c.rest == b.rest
    && |b.rows| == 3 && |b.columns| == 3 && |b.cells| == |c.cells| == 9
    && (forall i | 0 <= i < 9 :: CellServed(b.cells[i], c.cells[i], rows, b.rows[i / 3], b.columns[i % 3]))
    && c.version == b.version + if c.cells == b.cells then 0 else 1
  }

  ghost predicate CellServed(cell: Cell, next: Cell, rows: seq<Membership>, row: Id, column: Id) {
    && next.samples == cell.samples && |cell.players| <= |next.players| && next.players[..|cell.players|] == cell.players
    && (forall p :: p in next.players <==> IsMember(rows, row, p) && IsMember(rows, column, p))
    && (forall i, j | |cell.players| <= i < j < |next.players| :: next.players[i] < next.players[j])
    && (forall i | |cell.players| <= i < |next.players| :: next.players[i] !in cell.players)
  }

  /** The sets tell the members of every criterion they are about. */
  ghost predicate TellMembers(members: Members, rows: seq<Membership>) {
    forall k, p | k in members :: p in members[k] <==> IsMember(rows, k, p)
  }

  lemma MemberSetsTell(rows: seq<Membership>)
    ensures TellMembers(MemberSets(rows), rows)
  {
    var members := MemberSets(rows);
    forall k, p | k in members ensures p in members[k] <==> IsMember(rows, k, p) {
      MemberSetsExact(rows, k, p);
    }
  }

  ghost predicate BoardStored(b: GridBoard, rows: seq<Membership>) {
    && |b.rows| == 3 && |b.columns| == 3 && |b.cells| == 9
    && (forall k | k in b.rows + b.columns :: exists m | m in rows :: m.criterion == k)
    && forall i, p | 0 <= i < 9 && p in b.cells[i].players ::
      (exists m | m in rows :: m.criterion == b.rows[i / 3] && m.player == p)
      && (exists m | m in rows :: m.criterion == b.columns[i % 3] && m.player == p)
  }

  /** Every board is well formed, its criteria have members, and every stored answer is a member of both of its criteria. */
  ghost predicate StoredSupported(boards: seq<GridBoard>, rows: seq<Membership>) {
    forall b | b in boards :: BoardStored(b, rows)
  }

  lemma {:induction false} MemberKeys(rows: seq<Membership>, k: Id)
    ensures k in MemberSets(rows) <==> exists m | m in rows :: m.criterion == k
  {
    if rows != [] {
      var n := |rows| - 1;
      MemberKeys(rows[..n], k);
      assert rows == rows[..n] + [rows[n]];
    }
  }

  lemma BoardSupported(b: GridBoard, rows: seq<Membership>)
    ensures Supported(b, MemberSets(rows)) <==> BoardStored(b, rows)
  {
    var members := MemberSets(rows);
    forall k ensures k in members <==> exists m | m in rows :: m.criterion == k {
      MemberKeys(rows, k);
    }
    forall k, p | k in members ensures p in members[k] <==> exists m | m in rows :: m.criterion == k && m.player == p {
      MemberSetsExact(rows, k, p);
    }
    assert (forall k | k in b.rows + b.columns :: k in members) <==> (forall k | k in b.rows :: k in members) && (forall k | k in b.columns :: k in members);
    if Keyed(b, members) {
      forall i, p | 0 <= i < 9
        ensures p in Both(b, members, i) <==>
          (exists m | m in rows :: m.criterion == b.rows[i / 3] && m.player == p)
          && (exists m | m in rows :: m.criterion == b.columns[i % 3] && m.player == p)
      {
      }
      if Supported(b, members) {
        forall i, p | 0 <= i < 9 && p in b.cells[i].players ensures p in Both(b, members, i) {
          assert CellSupported(b, members, i);
        }
      }
    }
  }

  /** prepareAnswerCorrections goes through, in the rows themselves. */
  lemma PreparableExact(rules: Rules, source: GridManifest, catalog: GridManifest, version: nat, at: Id, batch: Option<Id>)
    ensures Preparable(rules, source, catalog, version, at, batch) <==>
      && rules.batches(batch).Some? && version > source.version && rules.valid(at)
      && (forall s | s in source.sources :: s.key != rules.batches(batch).value.source.key)
      && var ctx := ContextOf(rules, catalog, at, rules.batches(batch).value);
      && Fillable(ctx, source, rules.batches(batch).value)
      && StoredSupported(source.boards, Filled(ctx, source, rules.batches(batch).value).memberships)
  {
    if rules.batches(batch).Some? {
      var rows := Filled(ContextOf(rules, catalog, at, rules.batches(batch).value), source, rules.batches(batch).value).memberships;
      SupportedExact(source.boards, rows);
    }
  }

  lemma SupportedExact(boards: seq<GridBoard>, rows: seq<Membership>)
    ensures AllSupported(boards, MemberSets(rows)) <==> StoredSupported(boards, rows)
  {
    forall b | b in boards
      ensures Supported(b, MemberSets(rows)) <==> BoardStored(b, rows)
    {
      BoardSupported(b, rows);
    }
  }

  lemma CompletedIsServed(boards: seq<GridBoard>, next: seq<GridBoard>, members: Members, rows: seq<Membership>)
    requires BoardsCompleted(boards, next, members) && TellMembers(members, rows)
    ensures Served(boards, next, rows)
  {
    forall i | 0 <= i < |boards| ensures BoardServed(boards[i], next[i], rows) {
      var b, c := boards[i], next[i];
      assert Definition(b).key == Definition(c).key && Definition(b).rows == Definition(c).rows;
      assert Definition(b).columns == Definition(c).columns && Definition(b).rest == Definition(c).rest;
      forall k | 0 <= k < 9 ensures CellServed(b.cells[k], c.cells[k], rows, b.rows[k / 3], b.columns[k % 3]) {
        OneCellServed(b.cells[k], c.cells[k], members, rows, b.rows[k / 3], b.columns[k % 3]);
      }
    }
  }

  lemma OneCellServed(cell: Cell, next: Cell, members: Members, rows: seq<Membership>, row: Id, column: Id)
    requires TellMembers(members, rows) && row in members && column in members
    requires Completes(cell, next, members[row] * members[column])
    ensures CellServed(cell, next, rows, row, column)
  {
    var n := |cell.players|;
    forall p ensures p in next.players <==> IsMember(rows, row, p) && IsMember(rows, column, p) {
      assert p in next.players <==> p in Elements(next.players);
    }
    forall i, j | n <= i < j < |next.players| ensures next.players[i] < next.players[j] {
      assert next.players[n..][i - n] < next.players[n..][j - n];
    }
    forall i | n <= i < |next.players| ensures next.players[i] !in cell.players {
      assert next.players[n..][i - n] in next.players[n..];
    }
  }

  /** What is written over a correction: the versions, the record of where it came from, and its source, all signed. */
  ghost predicate Recorded(source: GridManifest, catalog: GridManifest, c: GridManifest, version: nat, at: Id, batch: Option<Id>,
                           cited: Source, reviewer: Approval, approvedAt: Id)
  {
    && c.version == version && c.aliasVersion == source.aliasVersion + 1 && c.resolverVersion == source.resolverVersion
    && c.sources == source.sources + [Source(cited.key, cited.dataset, cited.provider, true, reviewer, approvedAt, cited.rest)]
    && c.release == Release(
         reviewer, approvedAt, 1, source.version, catalog.version, Some(at), if batch.Some? then batch else source.release.batch, Reviewed,
         |set b, cell, p | b in c.boards && cell in b.cells && p in cell.players :: p|,
         source.release.stagingOnly, source.release.project, source.release.sourceDigest, source.release.rest)
    && |c.boards| == |source.boards|
    && forall i | 0 <= i < |c.boards| ::
      c.boards[i].approvedBy ==
        if c.boards[i].cells == source.boards[i].cells && source.boards[i].approvedBy != Unreviewed then source.boards[i].approvedBy else reviewer
  }

  lemma SameExposed(a: seq<GridBoard>, b: seq<GridBoard>)
    requires |a| == |b| && forall i | 0 <= i < |a| :: a[i].cells == b[i].cells
    ensures Exposed(a) == Exposed(b)
  {
    forall p ensures p in Exposed(a) <==> p in Exposed(b) {
      if p in Exposed(a) {
        var x, cell :| x in a && cell in x.cells && p in cell.players;
        var i :| 0 <= i < |a| && a[i] == x;
        assert b[i] in b && cell in b[i].cells;
      }
      if p in Exposed(b) {
        var x, cell :| x in b && cell in x.cells && p in cell.players;
        var i :| 0 <= i < |b| && b[i] == x;
        assert a[i] in a && cell in a[i].cells;
      }
    }
  }

  /** The corrected release holds the whole correction, serves exactly the members of every cell, records where it came
      from, and nothing in it is unreviewed. */
  lemma CorrectedHolds(rules: Rules, source: GridManifest, catalog: GridManifest, version: nat, at: Id, batch: Option<Id>,
                       reviewer: Approval, approvedAt: Id)
    requires Corrected(rules, source, catalog, version, at, batch, reviewer, approvedAt).Some?
    ensures var c, known := Corrected(rules, source, catalog, version, at, batch, reviewer, approvedAt).value, rules.batches(batch).value;
      && HoldsCorrection(ContextOf(rules, catalog, at, known), source, c, known)
      && Served(source.boards, c.boards, c.memberships)
      && Recorded(source, catalog, c, version, at, batch, known.source, reviewer, approvedAt)
      && (forall s | s in c.sources :: s.approved) && (forall b | b in c.boards :: b.approvedBy != Unreviewed)
  {
    var known := rules.batches(batch).value;
    var ctx := ContextOf(rules, catalog, at, known);
    var draft := Prepared(rules, source, catalog, version, at, batch);
    var filled := Filled(ctx, source, known);
    var c := Approved(draft.candidate, reviewer, approvedAt);
    FilledHolds(ctx, source, known);
    SameContent(ctx, source, filled, known, c);
    CompletionExists(source.boards, MemberSets(filled.memberships));
    MemberSetsTell(filled.memberships);
    CompletedIsServed(source.boards, draft.candidate.boards, MemberSets(filled.memberships), filled.memberships);
    SigningServes(source.boards, draft.candidate.boards, filled.memberships, reviewer);
    SourceApproved(rules, source, catalog, version, at, batch, reviewer, approvedAt);
    CorrectedRecorded(rules, source, catalog, version, at, batch, reviewer, approvedAt);
  }

  lemma SigningServes(boards: seq<GridBoard>, next: seq<GridBoard>, rows: seq<Membership>, reviewer: Approval)
    requires Served(boards, next, rows)
    ensures Served(boards, SignedBoards(next, reviewer), rows)
  {
    forall i | 0 <= i < |boards| ensures BoardServed(boards[i], SignedBoard(next[i], reviewer), rows) {
      assert BoardServed(boards[i], next[i], rows);
    }
  }

  lemma CorrectedRecorded(rules: Rules, source: GridManifest, catalog: GridManifest, version: nat, at: Id, batch: Option<Id>,
                          reviewer: Approval, approvedAt: Id)
    requires Corrected(rules, source, catalog, version, at, batch, reviewer, approvedAt).Some?
    requires forall s | s in source.sources :: s.approved
    ensures Recorded(source, catalog, Corrected(rules, source, catalog, version, at, batch, reviewer, approvedAt).value,
                     version, at, batch, rules.batches(batch).value.source, reviewer, approvedAt)
  {
    var known := rules.batches(batch).value;
    var ctx := ContextOf(rules, catalog, at, known);
    var filled := Filled(ctx, source, known);
    var next := CompletedBoards(source.boards, MemberSets(filled.memberships));
    FilledRest(ctx, source, known);
    CompletionExists(source.boards, MemberSets(filled.memberships));
    StampedIsRecorded(rules, source, catalog, version, at, batch, filled, next, MemberSets(filled.memberships), reviewer, approvedAt);
  }

  lemma StampedIsRecorded(rules: Rules, source: GridManifest, catalog: GridManifest, version: nat, at: Id, batch: Option<Id>,
                          filled: GridManifest, next: seq<GridBoard>, members: Members, reviewer: Approval, approvedAt: Id)
    requires rules.batches(batch).Some? && filled.resolverVersion == source.resolverVersion
    requires (forall s | s in source.sources :: s.approved) && BoardsCompleted(source.boards, next, members)
    ensures Recorded(source, catalog, Approved(Composed(rules, source, catalog, version, at, batch, filled, next), reviewer, approvedAt),
                     version, at, batch, rules.batches(batch).value.source, reviewer, approvedAt)
  {
    var signed := SignedBoards(next, reviewer);
    SameExposed(signed, next);
    assert Exposed(next) == set b, cell, p | b in signed && cell in b.cells && p in cell.players :: p;
    SourcesSigned(source.sources, rules.batches(batch).value.source, reviewer, at, approvedAt);
    BoardsSigned(source.boards, next, members, reviewer);
  }

  lemma SourcesSigned(sources: seq<Source>, cited: Source, reviewer: Approval, at: Id, approvedAt: Id)
    requires forall s | s in sources :: s.approved
    ensures SignedSources(sources + [cited.(approved := false, owner := Unreviewed, at := at)], reviewer, approvedAt)
         == sources + [Source(cited.key, cited.dataset, cited.provider, true, reviewer, approvedAt, cited.rest)]
  {
  }

  lemma BoardsSigned(boards: seq<GridBoard>, next: seq<GridBoard>, members: Members, reviewer: Approval)
    requires BoardsCompleted(boards, next, members)
    ensures forall i | 0 <= i < |boards| ::
      SignedBoards(next, reviewer)[i].approvedBy ==
        if next[i].cells == boards[i].cells && boards[i].approvedBy != Unreviewed then boards[i].approvedBy else reviewer
  {
    forall i | 0 <= i < |boards|
      ensures SignedBoard(next[i], reviewer).approvedBy ==
        if next[i].cells == boards[i].cells && boards[i].approvedBy != Unreviewed then boards[i].approvedBy else reviewer
    {
      assert BoardCompleted(boards[i], next[i], members);
    }
  }

  /** Filling touches nothing but players, aliases, assets, memberships and counts. */
  lemma FilledRest(ctx: Context, source: GridManifest, batch: Batch)
    requires Fillable(ctx, source, batch)
    ensures var filled := Filled(ctx, source, batch);
      filled == source.(assets := filled.assets, players := filled.players, criteria := filled.criteria,
                        memberships := filled.memberships, aliases := filled.aliases)
  {
    TakeFactsRest(ctx, source, batch.facts);
    TakeAliasesHold(ctx, TakeFacts(ctx, source, batch.facts), batch.aliases);
  }

  lemma {:induction false} TakeFactsRest(ctx: Context, m: GridManifest, facts: seq<Fact>)
    ensures var now := TakeFacts(ctx, m, facts);
      now == m.(assets := now.assets, players := now.players, memberships := now.memberships, aliases := now.aliases)
    decreases |facts|
  {
    if facts != [] {
      var front, last := facts[..|facts| - 1], facts[|facts| - 1];
      TakeFactsRest(ctx, m, front);
      var before := TakeFacts(ctx, m, front);
      if Matters(before, last) && !Refused(ctx, before, last) {
        CreditedAllHolds(ctx, TakeFactKnown(ctx, before, last), last, |last.criteria|);
      }
    }
  }

  // ------------------------------------------------------------------------------------------------ which batch

  /** No two batches share their source key. */
  ghost predicate BatchesApart(rules: Rules) {
    forall a, b | rules.batches(a).Some? && rules.batches(b).Some? && rules.batches(a).value.source.key == rules.batches(b).value.source.key :: a == b
  }

  /** A release that says it came from a named batch cannot be corrected by the default one: the draft keeps the old
      name, and approval looks for that batch's source. */
  lemma DefaultAfterNamed(rules: Rules, source: GridManifest, catalog: GridManifest, version: nat, at: Id, reviewer: Approval, approvedAt: Id)
    requires BatchesApart(rules) && source.release.batch.Some?
    ensures Corrected(rules, source, catalog, version, at, None, reviewer, approvedAt).None?
  {
    if Preparable(rules, source, catalog, version, at, None) {
      var draft := Prepared(rules, source, catalog, version, at, None);
      var row := draft.candidate.sources[|source.sources|];
      assert row in draft.candidate.sources && !row.approved && row.key == rules.batches(None).value.source.key;
      assert draft.candidate.release.batch == source.release.batch;
    }
  }

  /** Only an approved release can be corrected. */
  lemma SourceApproved(rules: Rules, source: GridManifest, catalog: GridManifest, version: nat, at: Id, batch: Option<Id>,
                       reviewer: Approval, approvedAt: Id)
    requires Corrected(rules, source, catalog, version, at, batch, reviewer, approvedAt).Some?
    ensures forall s | s in source.sources :: s.approved
  {
    var draft := Prepared(rules, source, catalog, version, at, batch);
    var key := rules.batches(batch).value.source.key;
    var row := draft.candidate.sources[|source.sources|];
    assert row in draft.candidate.sources && !row.approved && row.key == key;
    forall s | s in source.sources ensures s.approved {
      assert s in draft.candidate.sources && s.key != key;
    }
  }
}
