/**
 * What a coverage draft takes from the catalog and from a source audit: which memberships are proposed, whose player the
 * draft has or can take over, and what makes the whole call fail. None of it depends on the order of the rows.
 */
module CoverageRules {
  import opened Wrappers
  import opened ReleaseContent
  import opened AdditiveManifest
  import opened CellCompletion
  import opened CorrectionRules

  /** A fact proposed by the source audit. */
  datatype SourceFact = SourceFact(criterion: Id, player: Id, rest: Id)

  /** The proposals for one release. */
  datatype Audit = Audit(version: nat, facts: seq<SourceFact>)

  /** A report: whether it waits for review, whether it names the checksum of its snapshot, and the releases it is about. */
  datatype Report = Report(waiting: bool, checksummed: bool, releases: seq<Audit>)

  /** What stays the same while one draft is covered. */
  datatype Scope = Scope(draft: GridManifest, catalog: GridManifest, naming: Naming)

  /** The source key every audited fact cites, the families an audit may speak about, and the transform's name. */
  const AUDIT_SOURCE: Id := 1
  const AUDITED_FAMILIES: set<Id> := {0, 1, 2, 3}
  const COVERAGE: Id := 3

  // ------------------------------------------------------------------------------------------------ looking things up

  /** new Map(rows.map(r => [r.key, r])).get(key): the last one wins. */
  function FindCriterion(criteria: seq<Criterion>, key: Id): Option<Criterion> {
    if criteria == [] then None
    else if criteria[|criteria| - 1].key == key then Some(criteria[|criteria| - 1])
    else FindCriterion(criteria[..|criteria| - 1], key)
  }

  lemma {:induction false} FindCriterionExact(criteria: seq<Criterion>, key: Id)
    ensures FindCriterion(criteria, key).Some? <==> exists c | c in criteria :: c.key == key
    ensures FindCriterion(criteria, key).Some? ==> FindCriterion(criteria, key).value in criteria && FindCriterion(criteria, key).value.key == key
  {
    if criteria != [] {
      var n := |criteria| - 1;
      FindCriterionExact(criteria[..n], key);
      assert criteria == criteria[..n] + [criteria[n]];
    }
  }

  function LastPlayer(players: seq<Player>, id: Id): Option<Player> {
    if players == [] then None
    else if players[|players| - 1].id == id then Some(players[|players| - 1])
    else LastPlayer(players[..|players| - 1], id)
  }

  lemma {:induction false} LastPlayerExact(players: seq<Player>, id: Id)
    ensures LastPlayer(players, id).Some? <==> exists p | p in players :: p.id == id
    ensures LastPlayer(players, id).Some? ==> LastPlayer(players, id).value in players && LastPlayer(players, id).value.id == id
  {
    if players != [] {
      var n := |players| - 1;
      LastPlayerExact(players[..n], id);
      assert players == players[..n] + [players[n]];
    }
  }

  function FindSource(sources: seq<Source>, key: Id): Option<Source> {
    if sources == [] then None else if sources[0].key == key then Some(sources[0]) else FindSource(sources[1..], key)
  }

  lemma {:induction false} FindSourceExact(sources: seq<Source>, key: Id)
    ensures FindSource(sources, key).None? <==> forall s | s in sources :: s.key != key
    ensures FindSource(sources, key).Some? ==> FindSource(sources, key).value in sources && FindSource(sources, key).value.key == key
  {
    if sources != [] {
      FindSourceExact(sources[1..], key);
      assert sources == [sources[0]] + sources[1..];
    }
  }

  lemma {:induction false} FindSourceAppend(sources: seq<Source>, row: Source, key: Id)
    ensures FindSource(sources + [row], key) ==
      if FindSource(sources, key).Some? then FindSource(sources, key) else if row.key == key then Some(row) else None
  {
    if sources != [] {
      assert (sources + [row])[1..] == sources[1..] + [row];
      FindSourceAppend(sources[1..], row, key);
    }
  }

  function AliasesOf(aliases: seq<Alias>, id: Id): seq<Alias> {
    if aliases == [] then [] else (if aliases[0].player == id then [aliases[0]] else []) + AliasesOf(aliases[1..], id)
  }

  lemma {:induction false} AliasesOfExact(aliases: seq<Alias>, id: Id)
    ensures forall a :: a in AliasesOf(aliases, id) <==> a in aliases && a.player == id
  {
    if aliases != [] {
      AliasesOfExact(aliases[1..], id);
      assert aliases == [aliases[0]] + aliases[1..];
    }
  }

  /** report.releases.find(r => r.releaseVersion === version) */
  function AuditOf(releases: seq<Audit>, version: nat): Option<Audit> {
    if releases == [] then None else if releases[0].version == version then Some(releases[0]) else AuditOf(releases[1..], version)
  }

  lemma {:induction false} AuditOfExact(releases: seq<Audit>, version: nat)
    ensures AuditOf(releases, version).None? <==> forall a | a in releases :: a.version != version
    ensures AuditOf(releases, version).Some? ==> exists i | 0 <= i < |releases| ::
      && releases[i] == AuditOf(releases, version).value && releases[i].version == version
      && forall j | 0 <= j < i :: releases[j].version != version
  {
    if releases != [] && releases[0].version != version {
      AuditOfExact(releases[1..], version);
      assert releases == [releases[0]] + releases[1..];
      if AuditOf(releases, version).Some? {
        var i :| 0 <= i < |releases[1..]| && releases[1..][i] == AuditOf(releases, version).value && releases[1..][i].version == version
          && forall j | 0 <= j < i :: releases[1..][j].version != version;
        assert releases[i + 1] == releases[1..][i];
      }
    }
  }

  // ------------------------------------------------------------------------------------------------ what can be taken

  /** The catalog has the player, with a Georgian name and exact aliases in both languages. */
  predicate Donated(s: Scope, id: Id) {
    && LastPlayer(s.catalog.players, id).Some? && (s.naming.translated)(LastPlayer(s.catalog.players, id).value)
    && (exists a | a in AliasesOf(s.catalog.aliases, id) :: a.locale == ENGLISH && a.policy == EXACT)
    && (exists a | a in AliasesOf(s.catalog.aliases, id) :: a.locale == GEORGIAN && a.policy == EXACT)
  }

  /** The draft has the player or can take it over; otherwise its facts stay unresolved. */
  predicate Resolvable(s: Scope, id: Id) {
    LastPlayer(s.draft.players, id).Some? || Donated(s, id)
  }

  /** The catalog calls the draft's player by another name, or a player to take over has an image lying elsewhere. */
  predicate PersonRefused(s: Scope, id: Id) {
    var known, donor := LastPlayer(s.draft.players, id), LastPlayer(s.catalog.players, id);
    if known.Some? then donor.Some? && (s.naming.normalized)(donor.value.name) != (s.naming.normalized)(known.value.name)
    else Donated(s, id) && !(s.naming.imageFits)(s.draft.players, donor.value)
  }

  /** The catalog lacks the source, or the draft has another version of it. */
  predicate SourceRefused(s: Scope, key: Id) {
    var left, right := FindSource(s.draft.sources, key), FindSource(s.catalog.sources, key);
    right.None? || (left.Some? && (left.value.dataset != right.value.dataset || left.value.provider != right.value.provider))
  }

  /** Both releases mean the same by the criterion. */
  predicate SameMeaning(s: Scope, criterion: Id) {
    var target, donor := FindCriterion(s.draft.criteria, criterion), FindCriterion(s.catalog.criteria, criterion);
    target.Some? && donor.Some? && donor.value.family == target.value.family && donor.value.subtype == target.value.subtype
  }

  /** The criterion is the draft's, and of a family an audit may infer. */
  predicate Audited(s: Scope, criterion: Id) {
    FindCriterion(s.draft.criteria, criterion).Some? && FindCriterion(s.draft.criteria, criterion).value.family in AUDITED_FAMILIES
  }

  /** The catalog proposes the membership, on a criterion of the draft. */
  ghost predicate CatalogPair(s: Scope, criterion: Id, player: Id) {
    IsMember(s.catalog.memberships, criterion, player) && Relevant(s.draft, criterion)
  }

  ghost predicate AuditPair(audit: seq<SourceFact>, criterion: Id, player: Id) {
    exists f | f in audit :: f.criterion == criterion && f.player == player
  }

  ghost predicate Proposed(s: Scope, audit: seq<SourceFact>, criterion: Id, player: Id) {
    CatalogPair(s, criterion, player) || AuditPair(audit, criterion, player)
  }

  /** The source is cited by a catalog membership that matters here. */
  ghost predicate BringsSource(s: Scope, key: Id) {
    exists m | m in s.catalog.memberships :: Relevant(s.draft, m.criterion) && key in m.evidence
  }

  /** What a catalog row must meet, if it matters. */
  ghost predicate CatalogFine(s: Scope, m: Membership) {
    Relevant(s.draft, m.criterion) ==>
      && SameMeaning(s, m.criterion) && (forall e | e in m.evidence :: !SourceRefused(s, e))
      && (IsMember(s.draft.memberships, m.criterion, m.player) || !PersonRefused(s, m.player))
  }

  /** What an audited fact must meet: a family an audit may infer, and for a new membership nobody refused and, unless the
      catalog has it too or the player is unknown, the audit's own source. */
  ghost predicate AuditFine(s: Scope, f: SourceFact) {
    && Audited(s, f.criterion)
    && (IsMember(s.draft.memberships, f.criterion, f.player)
        || (!PersonRefused(s, f.player)
            && (CatalogPair(s, f.criterion, f.player) || !Resolvable(s, f.player)
                || FindSource(s.draft.sources, AUDIT_SOURCE).Some? || BringsSource(s, AUDIT_SOURCE))))
  }

  /** No row of the catalog and no fact of the audit is refused. */
  ghost predicate Gatherable(s: Scope, audit: seq<SourceFact>) {
    (forall m | m in s.catalog.memberships :: CatalogFine(s, m)) && forall f | f in audit :: AuditFine(s, f)
  }

  /** A membership of the covered draft. */
  ghost predicate CoveredMember(s: Scope, audit: seq<SourceFact>, criterion: Id, player: Id) {
    IsMember(s.draft.memberships, criterion, player) || (Proposed(s, audit, criterion, player) && Resolvable(s, player))
  }

  /** A proposal that stays unresolved. */
  ghost predicate Unresolved(s: Scope, audit: seq<SourceFact>, u: (Id, Id)) {
    Proposed(s, audit, u.0, u.1) && !IsMember(s.draft.memberships, u.0, u.1) && !Resolvable(s, u.1)
  }

  /** The membership an audited fact becomes. */
  function AuditRow(s: Scope, f: SourceFact): Membership {
    Membership(f.criterion, f.player, [AUDIT_SOURCE], (s.naming.stamp)(f.rest, s.draft.release.approvedAt))
  }

  /** The row is one that states a fact of the audit, for review. */
  ghost predicate FromAudit(s: Scope, audit: seq<SourceFact>, m: Membership) {
    exists f | f in audit :: m == Membership(f.criterion, f.player, [1], (s.naming.stamp)(f.rest, s.draft.release.approvedAt))
  }

  /** What resolves a player, and what refuses one, in the rows themselves. */
  lemma PeopleExact(s: Scope, id: Id)
    requires UniqueBy(s.draft.players, PlayerKey)
    ensures Resolvable(s, id) <==>
      || (exists p | p in s.draft.players :: p.id == id)
      || (LastPlayer(s.catalog.players, id).Some? && (s.naming.translated)(LastPlayer(s.catalog.players, id).value)
          && (exists a | a in s.catalog.aliases :: a.player == id && a.locale == 0 && a.policy == 0)
          && (exists a | a in s.catalog.aliases :: a.player == id && a.locale == 1 && a.policy == 0))
    ensures PersonRefused(s, id) <==>
      var donor := LastPlayer(s.catalog.players, id);
      && donor.Some?
      && ((exists p | p in s.draft.players :: p.id == id && (s.naming.normalized)(p.name) != (s.naming.normalized)(donor.value.name))
          || ((forall p | p in s.draft.players :: p.id != id) && Resolvable(s, id) && !(s.naming.imageFits)(s.draft.players, donor.value)))
  {
    LastPlayerExact(s.draft.players, id);
    AliasesOfExact(s.catalog.aliases, id);
    var known := LastPlayer(s.draft.players, id);
    if p :| p in s.draft.players && p.id == id {
      var i :| 0 <= i < |s.draft.players| && s.draft.players[i] == p;
      var j :| 0 <= j < |s.draft.players| && s.draft.players[j] == known.value;
      assert PlayerKey(s.draft.players[i]) == PlayerKey(s.draft.players[j]);
      assert p == known.value;
    }
  }

  /** And what refuses a catalog row's sources and criterion, and an audited criterion. */
  lemma CriteriaExact(s: Scope, criterion: Id)
    requires UniqueBy(s.draft.criteria, CriterionKey) && UniqueBy(s.catalog.criteria, CriterionKey)
    ensures SameMeaning(s, criterion) <==> exists t, d | t in s.draft.criteria && d in s.catalog.criteria ::
      t.key == criterion && d.key == criterion && t.family == d.family && t.subtype == d.subtype
    ensures Audited(s, criterion) <==> exists t | t in s.draft.criteria :: t.key == criterion && t.family in {0, 1, 2, 3}
  {
    FindCriterionExact(s.draft.criteria, criterion);
    FindCriterionExact(s.catalog.criteria, criterion);
    OneCriterion(s.draft.criteria, criterion);
    OneCriterion(s.catalog.criteria, criterion);
  }

  lemma OneCriterion(criteria: seq<Criterion>, key: Id)
    requires UniqueBy(criteria, CriterionKey)
    ensures forall c | c in criteria && c.key == key :: FindCriterion(criteria, key) == Some(c)
  {
    FindCriterionExact(criteria, key);
    forall c | c in criteria && c.key == key ensures FindCriterion(criteria, key) == Some(c) {
      var i :| 0 <= i < |criteria| && criteria[i] == c;
      var j :| 0 <= j < |criteria| && criteria[j] == FindCriterion(criteria, key).value;
      assert CriterionKey(criteria[i]) == CriterionKey(criteria[j]);
    }
  }

  /** All pairs of rows with the key are of one version, or all are not. */
  ghost predicate AllAgree(left: seq<Source>, right: seq<Source>, key: Id, agree: bool) {
    forall l, r | l in left && r in right && l.key == key && r.key == key ::
      (l.dataset == r.dataset && l.provider == r.provider) == agree
  }

  lemma SourcesExact(s: Scope, key: Id)
    ensures (forall r | r in s.catalog.sources :: r.key != key) ==> SourceRefused(s, key)
    ensures (exists r | r in s.catalog.sources :: r.key == key) && AllAgree(s.draft.sources, s.catalog.sources, key, true) ==>
      !SourceRefused(s, key)
    ensures (exists l | l in s.draft.sources :: l.key == key) && AllAgree(s.draft.sources, s.catalog.sources, key, false) ==>
      SourceRefused(s, key)
  {
    FindSourceExact(s.draft.sources, key);
    FindSourceExact(s.catalog.sources, key);
  }

  /** The player has a membership the draft did not have. */
  ghost predicate Gains(s: Scope, memberships: seq<Membership>, id: Id) {
    exists c :: IsMember(memberships, c, id) && !IsMember(s.draft.memberships, c, id)
  }

  /**
   * Exactly the proposed memberships of resolvable players have come in, the others are listed, once each; a row comes
   * from the audit only where the catalog has none; and exactly the players with new memberships were taken over.
   */
  ghost predicate Gathered(s: Scope, audit: seq<SourceFact>, now: GridManifest, unresolved: seq<(Id, Id)>, people: set<Id>) {
    && (forall c, p :: IsMember(now.memberships, c, p) <==> CoveredMember(s, audit, c, p))
    && NoDup(unresolved) && (forall u :: u in unresolved <==> Unresolved(s, audit, u))
    && (forall id :: id in people <==> exists u | u in unresolved :: u.1 == id)
    && (forall m | m in now.memberships ::
          || m in s.draft.memberships || m in s.catalog.memberships
          || (!CatalogPair(s, m.criterion, m.player) && FromAudit(s, audit, m)))
    && (forall p | p in now.players ::
          p in s.draft.players || (p in s.catalog.players && Gains(s, now.memberships, p.id) && p.image in now.assets))
    && (forall p | p in s.draft.players :: p in now.players) && (forall m | m in s.draft.memberships :: m in now.memberships)
    && (forall r | r in now.sources ::
          || r in s.draft.sources
          || exists c | c in s.catalog.sources :: r == Source(c.key, c.dataset, c.provider, false, Unreviewed, c.at, c.rest))
    && (forall m | m in now.memberships :: m in s.draft.memberships || HasPlayer(now, m.player))
    && (forall key :: FindSource(now.sources, key).Some? <==> FindSource(s.draft.sources, key).Some? || BringsSource(s, key))
  }

  // ------------------------------------------------------------------------------------------------ names and boards

  /** An exact English alias anchors the player's name: one of the draft, or one that came with the player. */
  ghost predicate NameAnchored(s: Scope, p: Player) {
    exists a | a in s.draft.aliases || (a in s.catalog.aliases && !HasPlayer(s.draft, a.player)) ::
      a.player == p.id && a.locale == ENGLISH && a.policy == EXACT && a.normalized == (s.naming.normalized)(p.name)
  }

  /** Players come with all their catalog aliases; every form of an anchored name is a spelling; no other alias is added. */
  ghost predicate NamesCovered(s: Scope, now: GridManifest) {
    && (forall a | a in s.catalog.aliases && HasPlayer(now, a.player) && !HasPlayer(s.draft, a.player) :: a in now.aliases)
    && (forall p, form | p in now.players && NameAnchored(s, p) && form in (s.naming.forms)(p, s.draft.release.approvedAt) ::
          IsSpelled(now.aliases, form))
    && (forall a | a in now.aliases ::
          || a in s.draft.aliases || (a in s.catalog.aliases && HasPlayer(now, a.player) && !HasPlayer(s.draft, a.player))
          || exists p | p in now.players :: NameAnchored(s, p) && a in (s.naming.forms)(p, s.draft.release.approvedAt))
  }

  /** One entry per criterion, also for criteria without members. */
  function CriterionMembers(criteria: seq<Criterion>, rows: seq<Membership>): Members {
    map c | c in criteria :: c.key := MembersOf(MemberSets(rows), c.key)
  }

  function Counted(criteria: seq<Criterion>, rows: seq<Membership>): seq<Criterion> {
    seq(|criteria|, i requires 0 <= i < |criteria| =>
      criteria[i].(memberCount := Some(|MembersOf(MemberSets(rows), criteria[i].key)|)))
  }

  /** Every stored answer of a well formed board will have both its memberships. */
  ghost predicate AnswersCovered(s: Scope, audit: seq<SourceFact>) {
    forall b | b in s.draft.boards ::
      && |b.rows| == 3 && |b.columns| == 3 && |b.cells| == 9
      && (forall k | k in b.rows :: Relevant(s.draft, k)) && (forall k | k in b.columns :: Relevant(s.draft, k))
      && forall i, p | 0 <= i < 9 && p in b.cells[i].players ::
        CoveredMember(s, audit, b.rows[i / 3], p) && CoveredMember(s, audit, b.columns[i % 3], p)
  }

  lemma CriterionMembersExact(m: GridManifest, rows: seq<Membership>, criterion: Id)
    ensures criterion in CriterionMembers(m.criteria, rows) <==> Relevant(m, criterion)
    ensures Relevant(m, criterion) ==> forall p :: p in CriterionMembers(m.criteria, rows)[criterion] <==> IsMember(rows, criterion, p)
  {
    forall p ensures p in MembersOf(MemberSets(rows), criterion) <==> IsMember(rows, criterion, p) {
      MemberSetsExact(rows, criterion, p);
    }
  }

  /** So the board loop goes through exactly when every stored answer is covered. */
  lemma SupportedIsCovered(s: Scope, audit: seq<SourceFact>, rows: seq<Membership>)
    requires forall c, p :: IsMember(rows, c, p) <==> CoveredMember(s, audit, c, p)
    ensures AllSupported(s.draft.boards, CriterionMembers(s.draft.criteria, rows)) <==> AnswersCovered(s, audit)
  {
    var members := CriterionMembers(s.draft.criteria, rows);
    forall k ensures k in members <==> Relevant(s.draft, k) {
      CriterionMembersExact(s.draft, rows, k);
    }
    forall k, p | k in members ensures p in members[k] <==> CoveredMember(s, audit, k, p) {
      CriterionMembersExact(s.draft, rows, k);
    }
    if AllSupported(s.draft.boards, members) {
      forall b | b in s.draft.boards ensures Supported(b, members) {
      }
      forall b, i, p | b in s.draft.boards && 0 <= i < 9 && p in b.cells[i].players
        ensures CoveredMember(s, audit, b.rows[i / 3], p) && CoveredMember(s, audit, b.columns[i % 3], p)
      {
        assert Supported(b, members) && CellSupported(b, members, i);
        assert p in Both(b, members, i);
      }
    }
    if AnswersCovered(s, audit) {
      forall b | b in s.draft.boards ensures Supported(b, members) {
        assert Keyed(b, members);
        forall i | 0 <= i < 9 ensures CellSupported(b, members, i) {
        }
      }
    }
  }

  /** A draft waiting for review, never approved, made with this catalog, and a report that waits for review, knows its
      snapshot and speaks about the draft's release. */
  predicate ReportFits(draft: CorrectionDraft, catalog: GridManifest, report: Report) {
    && draft.waiting && draft.candidate.release.approvedBy.Unreviewed? && catalog.version == draft.candidate.release.catalogVersion
    && report.waiting && report.checksummed && AuditOf(report.releases, draft.sourceVersion).Some?
  }

  /** prepareCatalogCoverage goes through. */
  ghost predicate Coverable(draft: CorrectionDraft, catalog: GridManifest, report: Report, naming: Naming) {
    && draft.waiting && draft.candidate.release.approvedBy.Unreviewed? && catalog.version == draft.candidate.release.catalogVersion
    && report.waiting && report.checksummed && AuditOf(report.releases, draft.sourceVersion).Some?
    && var s, audit := Scope(draft.candidate, catalog, naming), AuditOf(report.releases, draft.sourceVersion).value.facts;
    && Gatherable(s, audit) && (forall m | m in draft.candidate.memberships :: Relevant(draft.candidate, m.criterion))
    && AnswersCovered(s, audit)
  }

  function CoverageRelease(release: Release, boards: seq<GridBoard>): Release {
    release.(transform := COVERAGE, exposed := |Exposed(boards)|)
  }
}
