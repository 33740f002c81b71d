/**
 * Manifests, and the additive relation the staging gate demands between a release and its successor: nothing that
 * was there is changed or lost.
 */
module AdditiveManifest {
  import opened Wrappers
  import opened ReleaseContent

  type Id = nat

  /** `rest` stands for the fields no rule looks into. */
  datatype Source = Source(key: Id, dataset: Id, provider: Id, approved: bool, owner: Approval, at: Id, rest: Id)

  datatype Player = Player(id: Id, name: Id, image: Id, rest: Id)

  datatype Criterion = Criterion(key: Id, family: Id, subtype: Id, rest: Id, memberCount: Option<nat>)

  /** `evidence` lists the source keys of its evidence. */
  datatype Membership = Membership(criterion: Id, player: Id, evidence: seq<Id>, rest: Id)

  datatype Alias = Alias(player: Id, normalized: Id, locale: Id, kind: Id, policy: Id, rest: Id)

  datatype Approval = Unreviewed | Approved(reviewer: Id)

  datatype GridBoard = GridBoard(
    key: Id, version: nat, rows: seq<Id>, columns: seq<Id>, approvedBy: Approval, rest: Id, cells: seq<Cell>)

  datatype Review = Unstarted | Pending | Reviewed

  /** Who approved the release and when, and the snapshot fields that say how it came about. */
  datatype Release = Release(
    approvedBy: Approval, approvedAt: Id, transform: Id, from: nat, catalogVersion: nat, preparedAt: Option<Id>, batch: Option<Id>,
    review: Review,
    exposed: nat, stagingOnly: bool, project: Id, sourceDigest: Id, rest: Id)

  datatype GridManifest = GridManifest(
    version: nat, aliasVersion: nat, resolverVersion: nat, release: Release,
    sources: seq<Source>, assets: seq<Id>, players: seq<Player>, criteria: seq<Criterion>,
    memberships: seq<Membership>, aliases: seq<Alias>, boards: seq<GridBoard>)

  // ------------------------------------------------------------------------------------------------ the relation

  ghost predicate UniqueBy<T, K>(rows: seq<T>, key: T -> K) {
    forall i, j | 0 <= i < j < |rows| :: key(rows[i]) != key(rows[j])
  }

  ghost predicate AllIn<T>(rows: seq<T>, next: seq<T>) {
    forall x | x in rows :: x in next
  }

  function SourceKey(s: Source): (Id, Id) { (s.key, s.dataset) }

  function PlayerKey(p: Player): Id { p.id }

  function MembershipKey(m: Membership): (Id, Id) { (m.criterion, m.player) }

  function CriterionKey(c: Criterion): Id { c.key }

  function BoardKeyOf(b: GridBoard): Id { b.key }

  ghost predicate UniqueKeys(m: GridManifest) {
    && UniqueBy(m.sources, SourceKey) && UniqueBy(m.players, PlayerKey) && UniqueBy(m.memberships, MembershipKey)
    && UniqueBy(m.criteria, CriterionKey) && UniqueBy(m.boards, BoardKeyOf)
  }

  /** A criterion without its member count. */
  function Clean(c: Criterion): Criterion { c.(memberCount := None) }

  function CleanAll(criteria: seq<Criterion>): seq<Criterion> {
    seq(|criteria|, i requires 0 <= i < |criteria| => Clean(criteria[i]))
  }

  /** A board's definition: what is left without version, approval and cells. */
  function Definition(b: GridBoard): GridBoard { b.(version := 0, approvedBy := Unreviewed, cells := []) }

  predicate CellGrows(c: Cell, d: Cell) {
    d.samples == c.samples && forall p | p in c.players :: p in d.players
  }

  predicate BoardGrows(b: GridBoard, c: GridBoard) {
    && Definition(b) == Definition(c) && b.version <= c.version
    && |b.cells| <= |c.cells| && forall i | 0 <= i < |b.cells| :: CellGrows(b.cells[i], c.cells[i])
  }

  ghost predicate BoardsGrow(boards: seq<GridBoard>, next: seq<GridBoard>) {
    forall b | b in boards :: exists c | c in next :: BoardGrows(b, c)
  }

  /** The content conditions of the gate. */
  ghost predicate Additive(m: GridManifest, n: GridManifest) {
    && UniqueKeys(n)
    && AllIn(m.sources, n.sources) && AllIn(m.players, n.players) && AllIn(m.memberships, n.memberships)
    && multiset(m.aliases) <= multiset(n.aliases)
    && AllIn(m.assets, n.assets)
    && AllIn(CleanAll(m.criteria), CleanAll(n.criteria))
    && |m.criteria| == |n.criteria| && |m.boards| == |n.boards|
    && BoardsGrow(m.boards, n.boards)
  }

  /** The conditions in the rows themselves: nothing that was there is changed or lost, nothing is there twice. */
  lemma AdditiveExact(m: GridManifest, n: GridManifest)
    ensures Additive(m, n) <==>
      && (forall i, j | 0 <= i < j < |n.sources| :: !(n.sources[i].key == n.sources[j].key && n.sources[i].dataset == n.sources[j].dataset))
      && (forall i, j | 0 <= i < j < |n.players| :: n.players[i].id != n.players[j].id)
      && (forall i, j | 0 <= i < j < |n.memberships| ::
            !(n.memberships[i].criterion == n.memberships[j].criterion && n.memberships[i].player == n.memberships[j].player))
      && (forall i, j | 0 <= i < j < |n.criteria| :: n.criteria[i].key != n.criteria[j].key)
      && (forall i, j | 0 <= i < j < |n.boards| :: n.boards[i].key != n.boards[j].key)
      && (forall s | s in m.sources :: s in n.sources) && (forall p | p in m.players :: p in n.players)
      && (forall r | r in m.memberships :: r in n.memberships) && (forall a :: multiset(m.aliases)[a] <= multiset(n.aliases)[a])
      && (forall x | x in m.assets :: x in n.assets)
      && |m.criteria| == |n.criteria| && (forall c | c in m.criteria :: exists d | d in n.criteria :: SameCriterion(c, d))
      && |m.boards| == |n.boards| && (forall b | b in m.boards :: exists c | c in n.boards :: Succeeds(b, c))
  {
    UniqueSpelled(n);
    CriteriaSpelled(m.criteria, n.criteria);
    forall b, c ensures BoardGrows(b, c) <==> Succeeds(b, c) {
      GrowsSpelled(b, c);
    }
    assert multiset(m.aliases) <= multiset(n.aliases) <==> forall a :: multiset(m.aliases)[a] <= multiset(n.aliases)[a];
  }

  predicate SameCriterion(c: Criterion, d: Criterion) {
    c.key == d.key && c.family == d.family && c.subtype == d.subtype && c.rest == d.rest
  }

  /** The same board, no older, with the same samples and all the answers of every cell. */
  predicate Succeeds(b: GridBoard, c: GridBoard) {
    && b.key == c.key && b.rows == c.rows && b.columns == c.columns && b.rest == c.rest && b.version <= c.version
    && |b.cells| <= |c.cells|
    && forall i | 0 <= i < |b.cells| :: b.cells[i].samples == c.cells[i].samples && forall p | p in b.cells[i].players :: p in c.cells[i].players
  }

  lemma GrowsSpelled(b: GridBoard, c: GridBoard)
    ensures BoardGrows(b, c) <==> Succeeds(b, c)
  {
    assert Definition(b) == Definition(c) <==> b.key == c.key && b.rows == c.rows && b.columns == c.columns && b.rest == c.rest;
    forall i | 0 <= i < |b.cells| && i < |c.cells|
      ensures CellGrows(b.cells[i], c.cells[i]) <==>
        b.cells[i].samples == c.cells[i].samples && forall p | p in b.cells[i].players :: p in c.cells[i].players
    {
    }
  }

  lemma CriteriaSpelled(a: seq<Criterion>, b: seq<Criterion>)
    ensures AllIn(CleanAll(a), CleanAll(b)) <==> forall c | c in a :: exists d | d in b :: SameCriterion(c, d)
  {
    if AllIn(CleanAll(a), CleanAll(b)) {
      forall c | c in a ensures exists d | d in b :: SameCriterion(c, d) {
        var i :| 0 <= i < |a| && a[i] == c;
        var x := CleanAll(a)[i];
        assert x in CleanAll(a) && x in CleanAll(b);
        var j :| 0 <= j < |CleanAll(b)| && CleanAll(b)[j] == x;
        assert b[j] in b && Clean(b[j]) == Clean(c) == c.(memberCount := None);
        assert SameCriterion(c, b[j]);
      }
    }
    if forall c | c in a :: exists d | d in b :: SameCriterion(c, d) {
      forall x | x in CleanAll(a) ensures x in CleanAll(b) {
        var i :| 0 <= i < |a| && CleanAll(a)[i] == x;
        assert a[i] in a;
        var d :| d in b && SameCriterion(a[i], d);
        var j :| 0 <= j < |b| && b[j] == d;
        assert CleanAll(b)[j] == Clean(d) == Clean(a[i]) == x;
      }
    }
  }

  lemma UniqueSpelled(n: GridManifest)
    ensures UniqueKeys(n) <==>
      && (forall i, j | 0 <= i < j < |n.sources| :: !(n.sources[i].key == n.sources[j].key && n.sources[i].dataset == n.sources[j].dataset))
      && (forall i, j | 0 <= i < j < |n.players| :: n.players[i].id != n.players[j].id)
      && (forall i, j | 0 <= i < j < |n.memberships| ::
            !(n.memberships[i].criterion == n.memberships[j].criterion && n.memberships[i].player == n.memberships[j].player))
      && (forall i, j | 0 <= i < j < |n.criteria| :: n.criteria[i].key != n.criteria[j].key)
      && (forall i, j | 0 <= i < j < |n.boards| :: n.boards[i].key != n.boards[j].key)
  {
    assert UniqueBy(n.sources, SourceKey) <==>
      forall i, j | 0 <= i < j < |n.sources| :: !(n.sources[i].key == n.sources[j].key && n.sources[i].dataset == n.sources[j].dataset);
    assert UniqueBy(n.players, PlayerKey) <==> forall i, j | 0 <= i < j < |n.players| :: n.players[i].id != n.players[j].id;
    assert UniqueBy(n.memberships, MembershipKey) <==>
      forall i, j | 0 <= i < j < |n.memberships| ::
        !(n.memberships[i].criterion == n.memberships[j].criterion && n.memberships[i].player == n.memberships[j].player);
    assert UniqueBy(n.criteria, CriterionKey) <==> forall i, j | 0 <= i < j < |n.criteria| :: n.criteria[i].key != n.criteria[j].key;
    assert UniqueBy(n.boards, BoardKeyOf) <==> forall i, j | 0 <= i < j < |n.boards| :: n.boards[i].key != n.boards[j].key;
  }

  /** relationshipSnapshot.transform of a staging rehearsal, and the project it may go to. */
  const REHEARSAL: Id := 2
  const STAGING_PROJECT: Id := 0

  /** The release conditions of the gate: a rehearsal for the staging project, made of exactly this source, of a higher
      version, no older alias version and the same resolver. */
  predicate Rehearses(digest: GridManifest -> Id, m: GridManifest, n: GridManifest) {
    && n.release.transform == REHEARSAL && n.release.stagingOnly && n.release.project == STAGING_PROJECT
    && n.release.from == m.version && n.release.sourceDigest == digest(m)
    && n.version > m.version && n.aliasVersion >= m.aliasVersion && n.resolverVersion == m.resolverVersion
  }

  lemma AdditiveReflexive(m: GridManifest)
    requires UniqueKeys(m)
    ensures Additive(m, m)
  {
    forall b | b in m.boards ensures exists c | c in m.boards :: BoardGrows(b, c) {
      assert BoardGrows(b, b);
    }
  }

  lemma AdditiveTransitive(m: GridManifest, n: GridManifest, o: GridManifest)
    requires Additive(m, n) && Additive(n, o)
    ensures Additive(m, o)
  {
    forall b | b in m.boards ensures exists d | d in o.boards :: BoardGrows(b, d) {
      var c :| c in n.boards && BoardGrows(b, c);
      var d :| d in o.boards && BoardGrows(c, d);
      BoardGrowsTransitive(b, c, d);
    }
  }

  lemma BoardGrowsTransitive(b: GridBoard, c: GridBoard, d: GridBoard)
    requires BoardGrows(b, c) && BoardGrows(c, d)
    ensures BoardGrows(b, d)
  {
    forall i | 0 <= i < |b.cells| ensures CellGrows(b.cells[i], d.cells[i]) {
      assert CellGrows(b.cells[i], c.cells[i]) && CellGrows(c.cells[i], d.cells[i]);
    }
  }

  // ------------------------------------------------------------------------------------------------ the gate

  function KeysOf<T, K>(rows: seq<T>, key: T -> K): (keys: seq<K>)
    ensures |keys| == |rows| && forall i | 0 <= i < |rows| :: keys[i] == key(rows[i])
  {
    seq(|rows|, i requires 0 <= i < |rows| => key(rows[i]))
  }

  /** new Map(next.map(row => [key(row), row])) */
  method IndexBy<T, K(==)>(rows: seq<T>, key: T -> K) returns (index: map<K, T>)
    ensures index.Keys == Elements(KeysOf(rows, key))
    ensures forall k | k in index :: index[k] in rows && key(index[k]) == k
    ensures |index| == |rows| <==> UniqueBy(rows, key)
  {
    index := map[];
    for i := 0 to |rows|
      invariant index.Keys == Elements(KeysOf(rows[..i], key))
      invariant forall k | k in index :: index[k] in rows[..i] && key(index[k]) == k
    {
      assert rows[..i + 1] == rows[..i] + [rows[i]];
      assert KeysOf(rows[..i + 1], key) == KeysOf(rows[..i], key) + [key(rows[i])];
      index := index[key(rows[i]) := rows[i]];
    }
    assert rows[..|rows|] == rows;
    ElementsSize(KeysOf(rows, key));
    assert |index| == |index.Keys|;
    assert NoDup(KeysOf(rows, key)) <==> UniqueBy(rows, key);
  }

  lemma FoundUnderKey<T, K>(rows: seq<T>, key: T -> K, index: map<K, T>, x: T)
    requires UniqueBy(rows, key) && index.Keys == Elements(KeysOf(rows, key))
    requires forall k | k in index :: index[k] in rows && key(index[k]) == k
    ensures x in rows <==> key(x) in index && index[key(x)] == x
  {
    if x in rows {
      var i :| 0 <= i < |rows| && rows[i] == x;
      assert KeysOf(rows, key)[i] == key(x);
      var y := index[key(x)];
      var j :| 0 <= j < |rows| && rows[j] == y;
      assert key(rows[i]) == key(rows[j]);
    }
  }

  /** unchangedSubset: keys of `next` are unique, and every old row is found under its key, unchanged. */
  method UnchangedSubset<T(==), K(==)>(rows: seq<T>, next: seq<T>, key: T -> K) returns (ok: bool)
    ensures ok <==> UniqueBy(next, key) && AllIn(rows, next)
  {
    var index := IndexBy(next, key);
    if |index| != |next| {
      return false;
    }
    for i := 0 to |rows|
      invariant AllIn(rows[..i], next)
    {
      FoundUnderKey(next, key, index, rows[i]);
      if key(rows[i]) !in index || index[key(rows[i])] != rows[i] {
        return false;
      }
      assert rows[..i + 1] == rows[..i] + [rows[i]];
    }
    assert rows[..|rows|] == rows;
    ok := true;
  }

  function CountOf(counts: map<Alias, nat>, a: Alias): nat {
    if a in counts then counts[a] else 0
  }

  /** The alias rule: count the new rows, then take one off for every old row. */
  method AliasesIncluded(rows: seq<Alias>, next: seq<Alias>) returns (ok: bool)
    ensures ok <==> multiset(rows) <= multiset(next)
  {
    var counts: map<Alias, nat> := map[];
    for i := 0 to |next|
      invariant forall a :: CountOf(counts, a) == multiset(next[..i])[a]
    {
      assert next[..i + 1] == next[..i] + [next[i]];
      counts := counts[next[i] := CountOf(counts, next[i]) + 1];
    }
    assert next[..|next|] == next;
    for i := 0 to |rows|
      invariant forall a :: CountOf(counts, a) + multiset(rows[..i])[a] == multiset(next)[a]
    {
      assert rows[..i + 1] == rows[..i] + [rows[i]];
      if CountOf(counts, rows[i]) == 0 {
        assert multiset(rows[..i + 1])[rows[i]] > multiset(next)[rows[i]];
        assert rows == rows[..i + 1] + rows[i + 1..];
        return false;
      }
      counts := counts[rows[i] := CountOf(counts, rows[i]) - 1];
    }
    assert rows[..|rows|] == rows;
    ok := true;
  }

  method AssetsIncluded(rows: seq<Id>, next: seq<Id>) returns (ok: bool)
    ensures ok <==> AllIn(rows, next)
  {
    ok := forall x | x in rows :: x in next;
  }

  /** Under unique keys only the board with the same key can be the old board's successor. */
  lemma OnlyUnderKey(next: seq<GridBoard>, b: GridBoard, j: nat)
    requires UniqueBy(next, BoardKeyOf) && j <= |next|
    requires forall k | 0 <= k < j :: next[k].key != b.key
    requires j < |next| ==> next[j].key == b.key
    ensures (exists c | c in next :: BoardGrows(b, c)) <==> j < |next| && BoardGrows(b, next[j])
  {
    forall c | c in next && BoardGrows(b, c) ensures j < |next| && next[j] == c {
      var k :| 0 <= k < |next| && next[k] == c;
      assert Definition(b).key == Definition(c).key;
      assert j < |next| ==> BoardKeyOf(next[k]) == BoardKeyOf(next[j]);
    }
  }

  method BoardsIncluded(boards: seq<GridBoard>, next: seq<GridBoard>) returns (ok: bool)
    requires UniqueBy(next, BoardKeyOf)
    ensures ok <==> BoardsGrow(boards, next)
  {
    for i := 0 to |boards|
      invariant BoardsGrow(boards[..i], next)
    {
      var b := boards[i];
      var j := 0;
      while j < |next| && next[j].key != b.key
        invariant 0 <= j <= |next|
        invariant forall k | 0 <= k < j :: next[k].key != b.key
      {
        j := j + 1;
      }
      OnlyUnderKey(next, b, j);
      if j == |next| || !BoardGrows(b, next[j]) {
        assert b in boards;
        return false;
      }
      assert boards[..i + 1] == boards[..i] + [b];
    }
    assert boards[..|boards|] == boards;
    ok := true;
  }

  /** assertAdditiveStagingResearch. */
  method AssertAdditive(digest: GridManifest -> Id, source: GridManifest, candidate: GridManifest) returns (ok: bool)
    ensures ok <==> Rehearses(digest, source, candidate) && Additive(source, candidate)
    ensures ok ==>
      && candidate.release.transform == 2 && candidate.release.stagingOnly && candidate.release.project == STAGING_PROJECT
      && candidate.release.from == source.version && candidate.release.sourceDigest == digest(source)
      && candidate.version > source.version && candidate.aliasVersion >= source.aliasVersion
      && candidate.resolverVersion == source.resolverVersion
  {
    if !Rehearses(digest, source, candidate) {
      return false;
    }
    var sources := UnchangedSubset(source.sources, candidate.sources, SourceKey);
    var players := UnchangedSubset(source.players, candidate.players, PlayerKey);
    var memberships := UnchangedSubset(source.memberships, candidate.memberships, MembershipKey);
    var aliases := AliasesIncluded(source.aliases, candidate.aliases);
    var assets := AssetsIncluded(source.assets, candidate.assets);
    var criteria := UnchangedSubset(CleanAll(source.criteria), CleanAll(candidate.criteria), CriterionKey);
    var unique := UnchangedSubset([], candidate.boards, BoardKeyOf);
    assert UniqueBy(CleanAll(candidate.criteria), CriterionKey) <==> UniqueBy(candidate.criteria, CriterionKey) by {
      assert forall i | 0 <= i < |candidate.criteria| ::
        CriterionKey(CleanAll(candidate.criteria)[i]) == CriterionKey(candidate.criteria[i]);
    }
    if !sources || !players || !memberships || !aliases || !assets || !criteria || !unique
       || |source.criteria| != |candidate.criteria| || |source.boards| != |candidate.boards| {
      return false;
    }
    ok := BoardsIncluded(source.boards, candidate.boards);
  }
}
