/**
 * generateCandidateBoards: every choice of three row and three column criteria whose nine cells have enough answers,
 * found through a prefilter on pairs of criteria, and the selection of boards by difficulty.
 */
module BoardGeneration {
  import opened Wrappers
  import opened ReleaseContent

  type Key = nat

  datatype Difficulty = Easy | Normal | Hard

  datatype Criterion = Criterion(key: Key, difficulty: Difficulty)

  // ------------------------------------------------------------------------------------------------ combinations

  /** `c` is a subsequence of `v`. */
  predicate Sub<T(==)>(c: seq<T>, v: seq<T>) {
    c == [] || (v != [] && ((c[0] == v[0] && Sub(c[1..], v[1..])) || Sub(c, v[1..])))
  }

  function Prepend<T>(x: T, lists: seq<seq<T>>): (r: seq<seq<T>>)
    ensures |r| == |lists| && forall i | 0 <= i < |lists| :: r[i] == [x] + lists[i]
  {
    if lists == [] then [] else [[x] + lists[0]] + Prepend(x, lists[1..])
  }

  /** The k-element choices from `v`, those with the first element first. */
  function Choices<T>(v: seq<T>, k: nat): seq<seq<T>> {
    if k == 0 then [[]]
    else if v == [] then []
    else Prepend(v[0], Choices(v[1..], k - 1)) + Choices(v[1..], k)
  }

  lemma InPrepend<T>(x: T, lists: seq<seq<T>>, c: seq<T>)
    ensures c in Prepend(x, lists) <==> c != [] && c[0] == x && c[1..] in lists
  {
    if c != [] && c[0] == x && c[1..] in lists {
      var i :| 0 <= i < |lists| && lists[i] == c[1..];
      assert Prepend(x, lists)[i] == c;
    }
    if c in Prepend(x, lists) {
      var i :| 0 <= i < |lists| && Prepend(x, lists)[i] == c;
      assert c[1..] == lists[i];
    }
  }

  lemma {:induction false} SubShorter<T>(c: seq<T>, v: seq<T>)
    requires Sub(c, v)
    ensures |c| <= |v|
  {
    if c != [] {
      if c[0] == v[0] && Sub(c[1..], v[1..]) {
        SubShorter(c[1..], v[1..]);
      } else {
        SubShorter(c, v[1..]);
      }
    }
  }

  /** The choices are exactly the subsequences of length k. */
  lemma {:induction false} ChoicesExact<T>(v: seq<T>, k: nat, c: seq<T>)
    ensures c in Choices(v, k) <==> |c| == k && Sub(c, v)
    decreases |v|
  {
    if k > 0 && v != [] {
      ChoicesExact(v[1..], k, c);
      if c != [] {
        ChoicesExact(v[1..], k - 1, c[1..]);
      }
      ChoicesStep(v, k, c, Choices(v[1..], k - 1), Choices(v[1..], k));
    }
  }

  lemma ChoicesStep<T>(v: seq<T>, k: nat, c: seq<T>, front: seq<seq<T>>, back: seq<seq<T>>)
    requires k > 0 && v != [] && (c in back <==> |c| == k && Sub(c, v[1..]))
    requires c != [] ==> (c[1..] in front <==> |c[1..]| == k - 1 && Sub(c[1..], v[1..]))
    ensures c in Prepend(v[0], front) + back <==> |c| == k && Sub(c, v)
  {
    InPrepend(v[0], front, c);
  }

  lemma {:induction false} SubMember<T>(c: seq<T>, v: seq<T>, x: T)
    requires Sub(c, v) && x in c
    ensures x in v
  {
    if c[0] == v[0] && Sub(c[1..], v[1..]) {
      if x != c[0] {
        SubMember(c[1..], v[1..], x);
      }
    } else {
      SubMember(c, v[1..], x);
    }
  }

  /** No choice appears twice when the values are distinct. */
  lemma {:induction false} ChoicesDistinct<T>(v: seq<T>, k: nat)
    requires NoDup(v)
    ensures NoDup(Choices(v, k))
    decreases |v|
  {
    if k > 0 && v != [] {
      ChoicesDistinct(v[1..], k - 1);
      ChoicesDistinct(v[1..], k);
      var front, back := Prepend(v[0], Choices(v[1..], k - 1)), Choices(v[1..], k);
      forall i, j | 0 <= i < j < |front| ensures front[i] != front[j] {
        assert front[i][1..] == Choices(v[1..], k - 1)[i] && front[j][1..] == Choices(v[1..], k - 1)[j];
      }
      forall c | c in front ensures c !in back {
        InPrepend(v[0], Choices(v[1..], k - 1), c);
        ChoicesExact(v[1..], k, c);
        if c in back {
          SubMember(c, v[1..], v[0]);
        }
      }
      NoDupAppend(front, back);
    }
  }

  lemma {:induction false} NoChoices<T>(v: seq<T>, k: nat)
    requires |v| < k
    ensures Choices(v, k) == []
  {
    if v != [] {
      NoChoices(v[1..], k - 1);
      NoChoices(v[1..], k);
    }
  }

  function AppendAll<T>(front: seq<T>, lists: seq<seq<T>>): seq<seq<T>> {
    if lists == [] then [] else [front + lists[0]] + AppendAll(front, lists[1..])
  }

  lemma {:induction false} AppendAllIs<T>(front: seq<T>, lists: seq<seq<T>>)
    ensures |AppendAll(front, lists)| == |lists|
    ensures forall i | 0 <= i < |lists| :: AppendAll(front, lists)[i] == front + lists[i]
  {
    if lists != [] {
      AppendAllIs(front, lists[1..]);
    }
  }

  /** What visit appends when it continues `chosen` with k more values from position `index` on. */
  function Completions<T>(chosen: seq<T>, values: seq<T>, index: nat, k: nat): seq<seq<T>>
    requires index <= |values|
  {
    AppendAll(chosen, Choices(values[index..], k))
  }

  lemma AppendAllConcat<T>(front: seq<T>, a: seq<seq<T>>, b: seq<seq<T>>)
    ensures AppendAll(front, a + b) == AppendAll(front, a) + AppendAll(front, b)
  {
    AppendAllIs(front, a + b);
    AppendAllIs(front, a);
    AppendAllIs(front, b);
  }

  lemma AppendAllPrepend<T>(front: seq<T>, x: T, lists: seq<seq<T>>)
    ensures AppendAll(front, Prepend(x, lists)) == AppendAll(front + [x], lists)
  {
    AppendAllIs(front, Prepend(x, lists));
    AppendAllIs(front + [x], lists);
    forall i | 0 <= i < |lists| ensures front + ([x] + lists[i]) == (front + [x]) + lists[i] {
    }
  }

  lemma VisitStep<T>(chosen: seq<T>, values: seq<T>, index: nat, k: nat) returns (first: seq<seq<T>>, later: seq<seq<T>>)
    requires index < |values| && k > 0
    ensures first == Completions(chosen + [values[index]], values, index + 1, k - 1)
    ensures later == Completions(chosen, values, index + 1, k)
    ensures Completions(chosen, values, index, k) == first + later
  {
    var v, rest := values[index..], values[index + 1..];
    assert v[0] == values[index] && v[1..] == rest;
    AppendAllConcat(chosen, Prepend(v[0], Choices(rest, k - 1)), Choices(rest, k));
    AppendAllPrepend(chosen, v[0], Choices(rest, k - 1));
    first := Completions(chosen + [values[index]], values, index + 1, k - 1);
    later := Completions(chosen, values, index + 1, k);
  }

  lemma VisitLeaf<T>(chosen: seq<T>, values: seq<T>, index: nat)
    requires index <= |values|
    ensures Completions(chosen, values, index, 0) == [chosen]
  {
    assert Choices(values[index..], 0) == [[]];
    AppendAllIs(chosen, [[]]);
    assert chosen + [] == chosen;
  }

  lemma VisitEnd<T>(chosen: seq<T>, values: seq<T>, index: nat, k: nat)
    requires index <= |values| && |values| - index < k
    ensures Completions(chosen, values, index, k) == []
  {
    NoChoices(values[index..], k);
  }

  /** The recursive closure of `combinations`, with its two shared arrays. */
  class Enumeration<T> {
    var chosen: seq<T>
    var result: seq<seq<T>>

    constructor ()
      ensures chosen == [] && result == []
    {
      chosen, result := [], [];
    }

    /** visit: pushes and pops `chosen`, and appends every completion of it from `start` on. */
    method Visit(values: seq<T>, count: nat, start: nat)
      requires |chosen| <= count && start <= |values|
      modifies this
      ensures chosen == old(chosen)
      ensures result == old(result) + Completions(old(chosen), values, start, count - |old(chosen)|)
      decreases count - |chosen|, 2
    {
      if |chosen| == count {
        VisitLeaf(chosen, values, start);
        result := result + [chosen];
        return;
      }
      VisitLoop(values, count, start);
    }

    /** The loop of visit: every value that leaves enough values behind it, in turn. */
    method VisitLoop(values: seq<T>, count: nat, start: nat)
      requires |chosen| < count && start <= |values|
      modifies this
      ensures chosen == old(chosen)
      ensures result == old(result) + Completions(old(chosen), values, start, count - |old(chosen)|)
      decreases count - |chosen|, 1
    {
      var index := start;
      ghost var todo := Completions(chosen, values, start, count - |chosen|);
      ghost var whole := result + todo;
      while index <= |values| - (count - |chosen|)
        invariant start <= index <= |values|
        invariant chosen == old(chosen) && |chosen| < count
        invariant todo == Completions(chosen, values, index, count - |chosen|)
        invariant result + todo == whole
      {
        todo := VisitWith(values, count, index, todo, whole);
        index := index + 1;
      }
      VisitEnd(chosen, values, index, count - |chosen|);
      assert result + [] == result;
    }

    /** The body of the loop: push, visit, pop. `todo` is what the loop has yet to append to reach `whole`. */
    method VisitWith(values: seq<T>, count: nat, index: nat, ghost todo: seq<seq<T>>, ghost whole: seq<seq<T>>)
      returns (ghost later: seq<seq<T>>)
      requires |chosen| < count && index < |values|
      requires todo == Completions(chosen, values, index, count - |chosen|) && result + todo == whole
      modifies this
      ensures chosen == old(chosen)
      ensures later == Completions(chosen, values, index + 1, count - |chosen|) && result + later == whole
      decreases count - |chosen|, 0
    {
      ghost var before, first := result, [];
      first, later := VisitStep(chosen, values, index, count - |chosen|);
      chosen := chosen + [values[index]];
      Visit(values, count, index + 1);
      chosen := chosen[..|chosen| - 1];
      Assoc(before, first, later);
    }
  }

  lemma Assoc<T>(a: seq<T>, b: seq<T>, c: seq<T>)
    ensures (a + b) + c == a + (b + c)
  {
  }

  /** combinations(values, count) */
  method Combinations<T>(values: seq<T>, count: nat) returns (result: seq<seq<T>>)
    ensures result == Choices(values, count)
  {
    var e := new Enumeration<T>();
    e.Visit(values, count, 0);
    assert values[0..] == values;
    ghost var all := Choices(values, count);
    assert AppendAll([], all) == all by {
      AppendAllIs([], all);
      assert forall i | 0 <= i < |all| :: [] + all[i] == all[i];
    }
    result := e.result;
  }

  // ------------------------------------------------------------------------------------------------ cells and boards

  /** What the generator works with: the criteria in key order, the cell of a pair of criteria, the canonical board
      checksum, and the least number of answers of a cell. */
  datatype Source = Source(
    criteria: seq<Criterion>, cell: (Key, Key) -> Cell, checksum: (seq<Key>, seq<Key>) -> nat, minimum: nat)

  datatype Candidate = Candidate(
    checksum: nat, rows: seq<Criterion>, columns: seq<Criterion>, difficulty: Difficulty, cells: seq<Cell>)

  /** The manifest's memberships, and the players with exact English and Georgian aliases. */
  datatype Content = Content(members: map<Key, set<PlayerId>>, launch: set<PlayerId>)

  function Members(m: Content, key: Key): set<PlayerId> {
    if key in m.members then m.members[key] else {}
  }

  function Covered(m: Content, players: seq<PlayerId>): seq<PlayerId> {
    if players == [] then []
    else (if players[0] in m.launch then [players[0]] else []) + Covered(m, players[1..])
  }

  /** A generated cell: the sorted intersection, and its first two players with launch aliases. */
  function GeneratedCell(m: Content, row: Key, column: Key): Cell {
    var players := Sorted(Members(m, row) * Members(m, column));
    Cell(players, Take(Covered(m, players), 2))
  }

  function SourceOf(m: Content, criteria: seq<Criterion>, checksum: (seq<Key>, seq<Key>) -> nat, minimum: nat): Source {
    Source(criteria, (row: Key, column: Key) => GeneratedCell(m, row, column), checksum, minimum)
  }

  lemma {:induction false} CoveredExact(m: Content, players: seq<PlayerId>)
    ensures forall p :: p in Covered(m, players) <==> p in players && p in m.launch
    ensures NoDup(players) ==> NoDup(Covered(m, players))
  {
    if players != [] {
      CoveredExact(m, players[1..]);
      assert players == [players[0]] + players[1..];
      var rest := Covered(m, players[1..]);
      if NoDup(players) {
        assert players[0] !in players[1..] by {
          forall i | 0 <= i < |players[1..]| ensures players[1..][i] != players[0] {
            assert players[1..][i] == players[i + 1];
          }
        }
        forall i, j | 0 <= i < j < |players[1..]| ensures players[1..][i] != players[1..][j] {
          assert players[i + 1] != players[j + 1];
        }
        assert NoDup(rest) && players[0] !in rest;
        NoDupAppend([players[0]], rest);
      }
    }
  }

  /** A generated cell lists the players of both criteria, each once; its samples are distinct players it lists. */
  lemma GeneratedCellSound(m: Content, row: Key, column: Key)
    ensures var cell := GeneratedCell(m, row, column);
      && Elements(cell.players) == Members(m, row) * Members(m, column)
      && NoDup(cell.players) && NoDup(cell.samples) && |cell.samples| <= 2
      && (forall p | p in cell.samples :: p in cell.players && p in m.launch)
      && (|cell.samples| < 2 ==> forall p | p in cell.players && p in m.launch :: p in cell.samples)
  {
    var cell := GeneratedCell(m, row, column);
    ElementsSize(cell.players);
    CoveredExact(m, cell.players);
    assert forall p | p in cell.samples :: p in Covered(m, cell.players);
  }

  function KeysOf(criteria: seq<Criterion>): seq<Key> {
    seq(|criteria|, i requires 0 <= i < |criteria| => criteria[i].key)
  }

  function HardOnes(criteria: seq<Criterion>): nat {
    if criteria == [] then 0 else (if criteria[0].difficulty == Hard then 1 else 0) + HardOnes(criteria[1..])
  }

  function NormalOnes(criteria: seq<Criterion>): nat {
    if criteria == [] then 0 else (if criteria[0].difficulty == Normal then 1 else 0) + NormalOnes(criteria[1..])
  }

  function GeneratedDifficulty(criteria: seq<Criterion>): Difficulty {
    if HardOnes(criteria) >= 2 then Hard
    else if HardOnes(criteria) == 1 || NormalOnes(criteria) >= 3 then Normal
    else Easy
  }

  /** The pair test behind `neighbors`. */
  predicate Compatible(s: Source, left: Key, right: Key) {
    left != right && |(s.cell)(left, right).players| >= s.minimum
  }

  predicate Serves(s: Source, cell: Cell) {
    |cell.players| >= s.minimum && |cell.samples| >= 2
  }

  /** What makes a choice of rows and columns a board, without the generator's shortcuts. */
  ghost predicate Admissible(s: Source, rows: seq<Criterion>, columns: seq<Criterion>) {
    && |rows| == 3 && |columns| == 3 && Sub(rows, s.criteria) && Sub(columns, s.criteria)
    && HardOnes(rows) <= 1 && HardOnes(columns) <= 1
    && (forall r, c | r in rows && c in columns :: r.key != c.key && Serves(s, (s.cell)(r.key, c.key)))
  }

  function BoardChecksum(s: Source, rows: seq<Criterion>, columns: seq<Criterion>): nat {
    (s.checksum)(KeysOf(rows), KeysOf(columns))
  }

  function Cells(s: Source, rows: seq<Criterion>, columns: seq<Criterion>): seq<Cell>
    requires |rows| == 3 && |columns| == 3
  {
    [(s.cell)(rows[0].key, columns[0].key), (s.cell)(rows[0].key, columns[1].key), (s.cell)(rows[0].key, columns[2].key),
     (s.cell)(rows[1].key, columns[0].key), (s.cell)(rows[1].key, columns[1].key), (s.cell)(rows[1].key, columns[2].key),
     (s.cell)(rows[2].key, columns[0].key), (s.cell)(rows[2].key, columns[1].key), (s.cell)(rows[2].key, columns[2].key)]
  }

  function BoardOf(s: Source, rows: seq<Criterion>, columns: seq<Criterion>): Candidate
    requires |rows| == 3 && |columns| == 3
  {
    Candidate(BoardChecksum(s, rows, columns), rows, columns, GeneratedDifficulty(rows + columns), Cells(s, rows, columns))
  }

  // ------------------------------------------------------------------------------------------------ boards, spelled out

  /** Three of the criteria, in their order. */
  ghost predicate Three(chosen: seq<Criterion>, criteria: seq<Criterion>) {
    exists i, j, k :: 0 <= i < j < k < |criteria| && chosen == [criteria[i], criteria[j], criteria[k]]
  }

  ghost function PlacesOf(chosen: seq<Criterion>, d: Difficulty): set<int> {
    set i | 0 <= i < |chosen| && chosen[i].difficulty == d
  }

  ghost function CountOf(chosen: seq<Criterion>, d: Difficulty): nat {
    |PlacesOf(chosen, d)|
  }

  /** Three rows and three columns, at most one hard row and one hard column, no criterion on both sides, and in each of the
      nine cells enough answers and two samples. */
  ghost predicate Fair(s: Source, rows: seq<Criterion>, columns: seq<Criterion>) {
    && Three(rows, s.criteria) && Three(columns, s.criteria) && CountOf(rows, Hard) <= 1 && CountOf(columns, Hard) <= 1
    && forall i, j | 0 <= i < 3 && 0 <= j < 3 ::
      && rows[i].key != columns[j].key
      && |(s.cell)(rows[i].key, columns[j].key).players| >= s.minimum && |(s.cell)(rows[i].key, columns[j].key).samples| >= 2
  }

  /** A board of a fair choice: its cells row by row, its checksum, and its difficulty by the number of hard and normal
      criteria among the six. */
  ghost predicate FairBoard(s: Source, b: Candidate) {
    && Fair(s, b.rows, b.columns)
    && b.checksum == (s.checksum)([b.rows[0].key, b.rows[1].key, b.rows[2].key], [b.columns[0].key, b.columns[1].key, b.columns[2].key])
    && |b.cells| == 9 && (forall i | 0 <= i < 9 :: b.cells[i] == (s.cell)(b.rows[i / 3].key, b.columns[i % 3].key))
    && (b.difficulty == Hard <==> CountOf(b.rows + b.columns, Hard) >= 2)
    && (b.difficulty == Normal <==>
          b.difficulty != Hard && (CountOf(b.rows + b.columns, Hard) == 1 || CountOf(b.rows + b.columns, Normal) >= 3))
  }

  lemma CountLast(chosen: seq<Criterion>, x: Criterion, d: Difficulty)
    ensures CountOf(chosen + [x], d) == CountOf(chosen, d) + if x.difficulty == d then 1 else 0
  {
    assert PlacesOf(chosen + [x], d) == PlacesOf(chosen, d) + if x.difficulty == d then {|chosen|} else {};
  }

  lemma {:induction false} OnesLast(chosen: seq<Criterion>, x: Criterion)
    ensures HardOnes(chosen + [x]) == HardOnes(chosen) + if x.difficulty == Hard then 1 else 0
    ensures NormalOnes(chosen + [x]) == NormalOnes(chosen) + if x.difficulty == Normal then 1 else 0
  {
    if chosen == [] {
      assert chosen + [x] == [x] && [x][1..] == [];
    } else {
      assert (chosen + [x])[1..] == chosen[1..] + [x];
      OnesLast(chosen[1..], x);
    }
  }

  lemma {:induction false} OnesExact(chosen: seq<Criterion>)
    ensures HardOnes(chosen) == CountOf(chosen, Hard) && NormalOnes(chosen) == CountOf(chosen, Normal)
  {
    if chosen == [] {
      assert PlacesOf(chosen, Hard) == {} && PlacesOf(chosen, Normal) == {};
    } else {
      var front, x := chosen[..|chosen| - 1], chosen[|chosen| - 1];
      assert chosen == front + [x];
      OnesExact(front);
      OnesLast(front, x);
      CountLast(front, x, Hard);
      CountLast(front, x, Normal);
    }
  }

  lemma {:induction false} SubOfOne(v: seq<Criterion>, i: nat)
    requires i < |v|
    ensures Sub([v[i]], v)
  {
    if i == 0 {
      assert [v[i]][1..] == [] && Sub([v[i]][1..], v[1..]);
    } else {
      assert v[1..][i - 1] == v[i];
      SubOfOne(v[1..], i - 1);
    }
  }

  lemma {:induction false} SubOfTwo(v: seq<Criterion>, i: nat, j: nat)
    requires i < j < |v|
    ensures Sub([v[i], v[j]], v)
  {
    assert v[1..][j - 1] == v[j];
    if i == 0 {
      SubOfOne(v[1..], j - 1);
      assert [v[i], v[j]][1..] == [v[j]];
    } else {
      assert v[1..][i - 1] == v[i];
      SubOfTwo(v[1..], i - 1, j - 1);
    }
  }

  lemma {:induction false} SubOfThree(v: seq<Criterion>, i: nat, j: nat, k: nat)
    requires i < j < k < |v|
    ensures Sub([v[i], v[j], v[k]], v)
  {
    assert v[1..][j - 1] == v[j] && v[1..][k - 1] == v[k];
    if i == 0 {
      SubOfTwo(v[1..], j - 1, k - 1);
      assert [v[i], v[j], v[k]][1..] == [v[j], v[k]];
    } else {
      assert v[1..][i - 1] == v[i];
      SubOfThree(v[1..], i - 1, j - 1, k - 1);
    }
  }

  /** Where the elements of a subsequence stand. */
  lemma {:induction false} Places(c: seq<Criterion>, v: seq<Criterion>) returns (at: seq<nat>)
    requires Sub(c, v)
    ensures |at| == |c| && (forall x | 0 <= x < |c| :: at[x] < |v| && v[at[x]] == c[x]) && forall x, y | 0 <= x < y < |c| :: at[x] < at[y]
    decreases |v|
  {
    if c == [] {
      at := [];
    } else if c[0] == v[0] && Sub(c[1..], v[1..]) {
      var rest := Places(c[1..], v[1..]);
      at := [0] + seq(|rest|, x requires 0 <= x < |rest| => rest[x] + 1);
    } else {
      var rest := Places(c, v[1..]);
      at := seq(|rest|, x requires 0 <= x < |rest| => rest[x] + 1);
    }
  }

  lemma SubThree(c: seq<Criterion>, v: seq<Criterion>)
    requires |c| == 3
    ensures Sub(c, v) <==> Three(c, v)
  {
    if Sub(c, v) {
      var at := Places(c, v);
      assert c == [v[at[0]], v[at[1]], v[at[2]]];
    }
    if i, j, k :| 0 <= i < j < k < |v| && c == [v[i], v[j], v[k]] {
      SubOfThree(v, i, j, k);
    }
  }

  lemma CellsServe(s: Source, rows: seq<Criterion>, columns: seq<Criterion>)
    requires |rows| == 3 && |columns| == 3
    ensures (forall r, c | r in rows && c in columns :: r.key != c.key && Serves(s, (s.cell)(r.key, c.key))) <==>
      forall i, j | 0 <= i < 3 && 0 <= j < 3 :: rows[i].key != columns[j].key && Serves(s, (s.cell)(rows[i].key, columns[j].key))
  {
    if forall r, c | r in rows && c in columns :: r.key != c.key && Serves(s, (s.cell)(r.key, c.key)) {
      forall i, j | 0 <= i < 3 && 0 <= j < 3 ensures rows[i].key != columns[j].key && Serves(s, (s.cell)(rows[i].key, columns[j].key)) {
        assert rows[i] in rows && columns[j] in columns;
      }
    }
  }

  /** The generator's rule is the rule spelled out. */
  lemma FairExact(s: Source, rows: seq<Criterion>, columns: seq<Criterion>)
    ensures Admissible(s, rows, columns) <==> Fair(s, rows, columns)
  {
    if |rows| == 3 && |columns| == 3 {
      SubThree(rows, s.criteria);
      SubThree(columns, s.criteria);
      OnesExact(rows);
      OnesExact(columns);
      CellsServe(s, rows, columns);
    }
  }

  lemma BoardIsFair(s: Source, rows: seq<Criterion>, columns: seq<Criterion>)
    requires Admissible(s, rows, columns)
    ensures FairBoard(s, BoardOf(s, rows, columns))
  {
    FairExact(s, rows, columns);
    OnesExact(rows + columns);
    assert KeysOf(rows) == [rows[0].key, rows[1].key, rows[2].key] && KeysOf(columns) == [columns[0].key, columns[1].key, columns[2].key];
    NineCells(s, rows, columns);
  }

  lemma NineCells(s: Source, rows: seq<Criterion>, columns: seq<Criterion>)
    requires |rows| == 3 && |columns| == 3
    ensures forall i | 0 <= i < 9 :: Cells(s, rows, columns)[i] == (s.cell)(rows[i / 3].key, columns[i % 3].key)
  {
  }

  /** The columns left for three rows: every row is a neighbor. */
  function ColumnPool(s: Source, rows: seq<Criterion>, criteria: seq<Criterion>): seq<Criterion> {
    if criteria == [] then []
    else (if forall r | r in rows :: Compatible(s, r.key, criteria[0].key) then [criteria[0]] else [])
         + ColumnPool(s, rows, criteria[1..])
  }

  lemma {:induction false} PoolMembers(s: Source, rows: seq<Criterion>, criteria: seq<Criterion>, c: Criterion)
    ensures c in ColumnPool(s, rows, criteria) <==> c in criteria && forall r | r in rows :: Compatible(s, r.key, c.key)
  {
    if criteria != [] {
      PoolMembers(s, rows, criteria[1..], c);
      assert criteria == [criteria[0]] + criteria[1..];
    }
  }

  lemma {:induction false} SubOfPool(s: Source, rows: seq<Criterion>, criteria: seq<Criterion>, columns: seq<Criterion>)
    ensures Sub(columns, ColumnPool(s, rows, criteria)) <==>
      Sub(columns, criteria) && forall c, r | c in columns && r in rows :: Compatible(s, r.key, c.key)
    decreases |criteria|
  {
    if columns == [] || criteria == [] {
      assert columns != [] ==> columns[0] in columns;
    } else {
      var pool := ColumnPool(s, rows, criteria);
      SubOfPool(s, rows, criteria[1..], columns);
      SubOfPool(s, rows, criteria[1..], columns[1..]);
      assert columns == [columns[0]] + columns[1..];
      if forall r | r in rows :: Compatible(s, r.key, criteria[0].key) {
        assert pool[0] == criteria[0] && pool[1..] == ColumnPool(s, rows, criteria[1..]);
      } else {
        assert pool == ColumnPool(s, rows, criteria[1..]);
        if columns[0] == criteria[0] {
          assert !(forall c, r | c in columns && r in rows :: Compatible(s, r.key, c.key)) by {
            assert columns[0] in columns;
          }
        }
      }
    }
  }

  /** The prefilter is lossless: it lets through exactly the column choices whose nine intersections are large enough. */
  lemma PrefilterExact(s: Source, rows: seq<Criterion>, columns: seq<Criterion>)
    requires |rows| == 3 && |columns| == 3
    ensures columns in Choices(ColumnPool(s, rows, s.criteria), 3) <==>
      && Sub(columns, s.criteria)
      && (forall r, c | r in rows && c in columns :: r.key != c.key)
      && (forall i | 0 <= i < 9 :: |Cells(s, rows, columns)[i].players| >= s.minimum)
  {
    ChoicesExact(ColumnPool(s, rows, s.criteria), 3, columns);
    SubOfPool(s, rows, s.criteria, columns);
    NinePairs(s, rows, columns, (cell: Cell) => |cell.players| >= s.minimum);
  }

  /** The nine cells are the nine pairs of a row and a column. */
  lemma NinePairs(s: Source, rows: seq<Criterion>, columns: seq<Criterion>, p: Cell -> bool)
    requires |rows| == 3 && |columns| == 3
    ensures (forall i | 0 <= i < 9 :: p(Cells(s, rows, columns)[i])) <==>
      forall r, c | r in rows && c in columns :: p((s.cell)(r.key, c.key))
  {
    var cells := Cells(s, rows, columns);
    var all := forall a, b | 0 <= a < 3 && 0 <= b < 3 :: PairOk(s, rows, columns, p, a, b);
    assert PairOk(s, rows, columns, p, 0, 0) == p(cells[0]) && PairOk(s, rows, columns, p, 0, 1) == p(cells[1])
      && PairOk(s, rows, columns, p, 0, 2) == p(cells[2]) && PairOk(s, rows, columns, p, 1, 0) == p(cells[3])
      && PairOk(s, rows, columns, p, 1, 1) == p(cells[4]) && PairOk(s, rows, columns, p, 1, 2) == p(cells[5])
      && PairOk(s, rows, columns, p, 2, 0) == p(cells[6]) && PairOk(s, rows, columns, p, 2, 1) == p(cells[7])
      && PairOk(s, rows, columns, p, 2, 2) == p(cells[8]);
    assert all <==> forall i | 0 <= i < 9 :: p(cells[i]);
    PairsByIndex(s, rows, columns, p);
  }

  predicate PairOk(s: Source, rows: seq<Criterion>, columns: seq<Criterion>, p: Cell -> bool, a: nat, b: nat)
    requires a < |rows| && b < |columns|
  {
    p((s.cell)(rows[a].key, columns[b].key))
  }

  lemma PairsByIndex(s: Source, rows: seq<Criterion>, columns: seq<Criterion>, p: Cell -> bool)
    requires |rows| == 3 && |columns| == 3
    ensures (forall a, b | 0 <= a < 3 && 0 <= b < 3 :: PairOk(s, rows, columns, p, a, b)) <==>
      forall r, c | r in rows && c in columns :: p((s.cell)(r.key, c.key))
  {
    if forall a, b | 0 <= a < 3 && 0 <= b < 3 :: PairOk(s, rows, columns, p, a, b) {
      forall r, c | r in rows && c in columns ensures p((s.cell)(r.key, c.key)) {
        var a :| 0 <= a < 3 && rows[a] == r;
        var b :| 0 <= b < 3 && columns[b] == c;
        assert PairOk(s, rows, columns, p, a, b);
      }
    }
    if forall r, c | r in rows && c in columns :: p((s.cell)(r.key, c.key)) {
      forall a, b | 0 <= a < 3 && 0 <= b < 3 ensures PairOk(s, rows, columns, p, a, b) {
        assert rows[a] in rows && columns[b] in columns;
      }
    }
  }

  // ------------------------------------------------------------------------------------------------ the generator

  ghost predicate Sound(s: Source, found: seq<Candidate>) {
    && (forall i | 0 <= i < |found| :: Admissible(s, found[i].rows, found[i].columns)
                                       && found[i] == BoardOf(s, found[i].rows, found[i].columns))
    && (forall i, j | 0 <= i < j < |found| :: found[i].checksum != found[j].checksum)
  }

  function Checksums(found: seq<Candidate>): set<nat> {
    set f | f in found :: f.checksum
  }

  class Generator {
    const source: Source
    const cap: nat
    var found: seq<Candidate>
    var seen: set<nat>

    constructor (source: Source, cap: nat)
      requires cap > 0
      ensures this.source == source && this.cap == cap && found == [] && seen == {}
    {
      this.source, this.cap := source, cap;
      found, seen := [], {};
    }

    ghost predicate Valid()
      reads this
    {
      Sound(source, found) && seen == Checksums(found) && |found| <= cap
    }

    /** One choice of rows and columns: it becomes a board exactly when it is admissible and its checksum is new. */
    method Consider(rows: seq<Criterion>, columns: seq<Criterion>)
      requires Valid() && |found| < cap
      requires |rows| == 3 && Sub(rows, source.criteria) && HardOnes(rows) <= 1
      requires |columns| == 3 && Sub(columns, source.criteria)
      requires forall r, c | r in rows && c in columns :: r.key != c.key
      modifies this`found, this`seen
      ensures Valid() && old(found) <= found && old(seen) <= seen
      ensures Tried(source, rows, columns, seen)
    {
      var checksum := BoardChecksum(source, rows, columns);
      if HardOnes(columns) <= 1 && checksum !in seen {
        var cells := Cells(source, rows, columns);
        NinePairs(source, rows, columns, (cell: Cell) => Serves(source, cell));
        if forall k | 0 <= k < 9 :: Serves(source, cells[k]) {
          assert Admissible(source, rows, columns);
          SoundAppend(source, found, BoardOf(source, rows, columns));
          found, seen := found + [BoardOf(source, rows, columns)], seen + {checksum};
        }
      }
    }

    /** The next column choice of three rows. */
    method TryNext(rows: seq<Criterion>, choices: seq<seq<Criterion>>, i: nat)
      requires Valid() && |found| < cap && |rows| == 3 && Sub(rows, source.criteria) && HardOnes(rows) <= 1
      requires choices == Choices(ColumnPool(source, rows, source.criteria), 3) && i < |choices|
      requires TriedUpTo(source, rows, choices, i, seen)
      modifies this`found, this`seen
      ensures Valid() && old(found) <= found && old(seen) <= seen
      ensures TriedUpTo(source, rows, choices, i + 1, seen)
    {
      ChosenFits(source, rows, choices[i]);
      ghost var before := seen;
      Consider(rows, choices[i]);
      TriedGrows(source, rows, choices, i, before, seen);
    }

    /** All column choices of three rows, until the cap is reached. */
    method AddColumns(rows: seq<Criterion>)
      requires Valid() && |found| < cap
      requires |rows| == 3 && Sub(rows, source.criteria) && HardOnes(rows) <= 1
      modifies this`found, this`seen
      ensures Valid() && old(found) <= found && old(seen) <= seen
      ensures |found| < cap ==> Explored(source, rows, seen)
    {
      var choices := Combinations(ColumnPool(source, rows, source.criteria), 3);
      for i := 0 to |choices|
        invariant Valid() && |found| < cap && old(found) <= found && old(seen) <= seen
        invariant TriedUpTo(source, rows, choices, i, seen)
      {
        TryNext(rows, choices, i);
        if |found| >= cap {
          return;
        }
      }
      AllTried(source, rows, choices, seen);
    }

    /** The next choice of rows. */
    method ExploreNext(choices: seq<seq<Criterion>>, i: nat)
      requires Valid() && |found| < cap && choices == Choices(source.criteria, 3) && i < |choices|
      requires forall k | 0 <= k < i :: Explored(source, choices[k], seen)
      modifies this`found, this`seen
      ensures Valid() && (|found| < cap ==> forall k | 0 <= k <= i :: Explored(source, choices[k], seen))
    {
      ChoicesExact(source.criteria, 3, choices[i]);
      if HardOnes(choices[i]) <= 1 {
        ghost var before := seen;
        AddColumns(choices[i]);
        forall k | 0 <= k < i ensures Explored(source, choices[k], seen) {
          ExploredGrows(source, choices[k], before, seen);
        }
      }
    }

    /** The whole search: sound, without repetition, and complete unless the cap stopped it. */
    method Generate()
      requires Valid() && found == [] && cap > 0
      modifies this`found, this`seen
      ensures Valid()
      ensures |found| < cap ==> forall rows :: Explored(source, rows, seen)
    {
      var choices := Combinations(source.criteria, 3);
      for i := 0 to |choices|
        invariant Valid() && |found| < cap
        invariant forall k | 0 <= k < i :: Explored(source, choices[k], seen)
      {
        ExploreNext(choices, i);
        if |found| >= cap {
          return;
        }
      }
      AllExplored(source, choices, seen);
    }
  }

  /** If the choice is a board, its checksum has been found. */
  ghost predicate Tried(s: Source, rows: seq<Criterion>, columns: seq<Criterion>, seen: set<nat>) {
    Admissible(s, rows, columns) ==> BoardChecksum(s, rows, columns) in seen
  }

  /** Every board these rows can give has been found. */
  ghost predicate Explored(s: Source, rows: seq<Criterion>, seen: set<nat>) {
    forall columns :: Tried(s, rows, columns, seen)
  }

  lemma AllExplored(s: Source, choices: seq<seq<Criterion>>, seen: set<nat>)
    requires choices == Choices(s.criteria, 3) && forall k | 0 <= k < |choices| :: Explored(s, choices[k], seen)
    ensures forall rows :: Explored(s, rows, seen)
  {
    forall rows ensures Explored(s, rows, seen) {
      ChoicesExact(s.criteria, 3, rows);
      if rows in choices {
        var k :| 0 <= k < |choices| && choices[k] == rows;
      }
    }
  }

  /** The first n choices of columns have been tried. */
  ghost predicate TriedUpTo(s: Source, rows: seq<Criterion>, choices: seq<seq<Criterion>>, n: nat, seen: set<nat>)
    requires n <= |choices|
  {
    forall k | 0 <= k < n :: Tried(s, rows, choices[k], seen)
  }

  lemma TriedGrows(s: Source, rows: seq<Criterion>, choices: seq<seq<Criterion>>, i: nat, before: set<nat>, after: set<nat>)
    requires i < |choices| && TriedUpTo(s, rows, choices, i, before) && before <= after && Tried(s, rows, choices[i], after)
    ensures TriedUpTo(s, rows, choices, i + 1, after)
  {
  }

  lemma ExploredGrows(s: Source, rows: seq<Criterion>, before: set<nat>, after: set<nat>)
    requires before <= after && Explored(s, rows, before)
    ensures Explored(s, rows, after)
  {
    forall columns ensures Tried(s, rows, columns, after) {
      assert Tried(s, rows, columns, before);
    }
  }

  lemma ChosenFits(s: Source, rows: seq<Criterion>, columns: seq<Criterion>)
    requires |rows| == 3 && columns in Choices(ColumnPool(s, rows, s.criteria), 3)
    ensures |columns| == 3 && Sub(columns, s.criteria) && forall r, c | r in rows && c in columns :: r.key != c.key
  {
    ChoicesExact(ColumnPool(s, rows, s.criteria), 3, columns);
    PrefilterExact(s, rows, columns);
  }

  lemma AdmissibleIsChosen(s: Source, rows: seq<Criterion>, columns: seq<Criterion>)
    requires Admissible(s, rows, columns)
    ensures columns in Choices(ColumnPool(s, rows, s.criteria), 3)
  {
    NinePairs(s, rows, columns, (cell: Cell) => |cell.players| >= s.minimum);
    forall r, c | r in rows && c in columns ensures |(s.cell)(r.key, c.key).players| >= s.minimum {
      assert Serves(s, (s.cell)(r.key, c.key));
    }
    PrefilterExact(s, rows, columns);
  }

  /** A board's columns are among the choices, so trying all of these explores the rows. */
  lemma AllTried(s: Source, rows: seq<Criterion>, choices: seq<seq<Criterion>>, seen: set<nat>)
    requires |rows| == 3 && choices == Choices(ColumnPool(s, rows, s.criteria), 3)
    requires forall k | 0 <= k < |choices| :: Tried(s, rows, choices[k], seen)
    ensures Explored(s, rows, seen)
  {
    forall columns ensures Tried(s, rows, columns, seen) {
      if Admissible(s, rows, columns) {
        AdmissibleIsChosen(s, rows, columns);
        var k :| 0 <= k < |choices| && choices[k] == columns;
      }
    }
  }

  lemma ChecksumsAppend(found: seq<Candidate>, board: Candidate)
    ensures Checksums(found + [board]) == Checksums(found) + {board.checksum}
  {
    var all := found + [board];
    assert forall f :: f in all <==> f in found || f == board;
  }

  lemma SoundAppend(s: Source, found: seq<Candidate>, board: Candidate)
    requires Sound(s, found) && board.checksum !in Checksums(found)
    requires Admissible(s, board.rows, board.columns) && board == BoardOf(s, board.rows, board.columns)
    ensures Sound(s, found + [board]) && Checksums(found + [board]) == Checksums(found) + {board.checksum}
  {
    var all := found + [board];
    ChecksumsAppend(found, board);
    forall i, j | 0 <= i < j < |all| ensures all[i].checksum != all[j].checksum {
      if j == |found| {
        assert found[i] in found;
      }
    }
  }

  // ------------------------------------------------------------------------------------------------ the selection

  /** Math.round(limit * 0.25) and Math.round(limit * 0.60) */
  function EasyTarget(limit: nat): nat { (limit + 2) / 4 }

  function NormalTarget(limit: nat): nat { (6 * limit + 5) / 10 }

  /** The targets are the integers nearest to a quarter and to six tenths of the limit, halves going up, and leave a rest. */
  lemma TargetsFit(limit: nat)
    ensures EasyTarget(limit) + NormalTarget(limit) <= limit
    ensures -2 < 4 * EasyTarget(limit) - limit <= 2 && -5 < 10 * NormalTarget(limit) - 6 * limit <= 5
  {
  }

  function HardTarget(limit: nat): nat {
    TargetsFit(limit);
    limit - EasyTarget(limit) - NormalTarget(limit)
  }

  function Bucket(found: seq<Candidate>, d: Difficulty): seq<Candidate> {
    if found == [] then []
    else (if found[0].difficulty == d then [found[0]] else []) + Bucket(found[1..], d)
  }

  function Take<T>(s: seq<T>, n: nat): seq<T> {
    if |s| <= n then s else s[..n]
  }

  /** A board's key: a prefix of its checksum. */
  type Naming = nat -> nat

  function NotNamed(name: Naming, names: set<nat>, boards: seq<Candidate>): seq<Candidate> {
    if boards == [] then []
    else (if name(boards[0].checksum) in names then [] else [boards[0]]) + NotNamed(name, names, boards[1..])
  }

  function Names(name: Naming, boards: seq<Candidate>): set<nat> {
    set b | b in boards :: name(b.checksum)
  }

  ghost predicate DistinctNames(name: Naming, boards: seq<Candidate>) {
    forall i, j | 0 <= i < j < |boards| :: name(boards[i].checksum) != name(boards[j].checksum)
  }

  lemma {:induction false} NotNamedMembers(name: Naming, names: set<nat>, boards: seq<Candidate>)
    ensures forall b :: b in NotNamed(name, names, boards) <==> b in boards && name(b.checksum) !in names
  {
    if boards != [] {
      NotNamedMembers(name, names, boards[1..]);
      assert boards == [boards[0]] + boards[1..];
    }
  }

  /** A checksum as its own name: boards of different names are then boards of different checksums. */
  function Self(x: nat): nat { x }

  function Named(name: Naming, names: set<nat>, boards: seq<Candidate>): seq<Candidate> {
    if boards == [] then []
    else (if name(boards[0].checksum) in names then [boards[0]] else []) + Named(name, names, boards[1..])
  }

  lemma {:induction false} NamedSplit(name: Naming, names: set<nat>, boards: seq<Candidate>)
    ensures |NotNamed(name, names, boards)| + |Named(name, names, boards)| == |boards|
    ensures forall b :: b in Named(name, names, boards) <==> b in boards && name(b.checksum) in names
  {
    if boards != [] {
      NamedSplit(name, names, boards[1..]);
      assert boards == [boards[0]] + boards[1..];
    }
  }

  lemma {:induction false} NotNamedDistinct(key: Naming, name: Naming, names: set<nat>, boards: seq<Candidate>)
    requires DistinctNames(key, boards)
    ensures DistinctNames(key, NotNamed(name, names, boards))
  {
    if boards != [] {
      RestDiffers(key, boards);
      NotNamedDistinct(key, name, names, boards[1..]);
      NotNamedMembers(name, names, boards[1..]);
      ConcatDistinct(key, [boards[0]], NotNamed(name, names, boards[1..]));
    }
  }

  lemma {:induction false} NamedDistinct(key: Naming, name: Naming, names: set<nat>, boards: seq<Candidate>)
    requires DistinctNames(key, boards)
    ensures DistinctNames(key, Named(name, names, boards))
  {
    if boards != [] {
      RestDiffers(key, boards);
      NamedDistinct(key, name, names, boards[1..]);
      NamedSplit(name, names, boards[1..]);
      ConcatDistinct(key, [boards[0]], Named(name, names, boards[1..]));
    }
  }

  lemma RestDiffers(key: Naming, boards: seq<Candidate>)
    requires DistinctNames(key, boards) && boards != []
    ensures DistinctNames(key, boards[1..]) && forall b | b in boards[1..] :: key(boards[0].checksum) != key(b.checksum)
  {
    forall b | b in boards[1..] ensures key(boards[0].checksum) != key(b.checksum) {
      var k :| 0 <= k < |boards[1..]| && boards[1..][k] == b;
      assert boards[k + 1] == b;
    }
  }

  lemma DistinctBoardsSize(boards: seq<Candidate>)
    requires DistinctNames(Self, boards)
    ensures |Elements(boards)| == |boards|
  {
    forall i, j | 0 <= i < j < |boards| ensures boards[i] != boards[j] {
      assert Self(boards[i].checksum) != Self(boards[j].checksum);
    }
    ElementsSize(boards);
  }

  lemma {:induction false} BucketsSplit(found: seq<Candidate>, b: Candidate)
    ensures b in found <==> b in Bucket(found, Easy) + Bucket(found, Normal) + Bucket(found, Hard)
    ensures |found| == |Bucket(found, Easy) + Bucket(found, Normal) + Bucket(found, Hard)|
    ensures forall d :: b in Bucket(found, d) <==> b in found && b.difficulty == d
  {
    if found != [] {
      BucketsSplit(found[1..], b);
      assert found == [found[0]] + found[1..];
    }
  }

  lemma {:induction false} BucketDistinct(name: Naming, found: seq<Candidate>, d: Difficulty)
    requires DistinctNames(name, found)
    ensures DistinctNames(name, Bucket(found, d))
  {
    if found != [] {
      BucketDistinct(name, found[1..], d);
      forall b | b in Bucket(found[1..], d) ensures name(b.checksum) != name(found[0].checksum) {
        BucketsSplit(found[1..], b);
        var k :| 0 <= k < |found[1..]| && found[1..][k] == b;
        assert found[k + 1] == b;
      }
      var rest := Bucket(found[1..], d);
      assert forall k | 0 <= k < |rest| :: rest[k] in rest;
    }
  }

  lemma {:induction false} SameNameSameBoard(name: Naming, found: seq<Candidate>, a: Candidate, b: Candidate)
    requires DistinctNames(name, found) && a in found && b in found && name(a.checksum) == name(b.checksum)
    ensures a == b
  {
    var i :| 0 <= i < |found| && found[i] == a;
    var j :| 0 <= j < |found| && found[j] == b;
  }

  lemma ConcatDistinct(name: Naming, a: seq<Candidate>, b: seq<Candidate>)
    requires DistinctNames(name, a) && DistinctNames(name, b)
    requires forall x, y | x in a && y in b :: name(x.checksum) != name(y.checksum)
    ensures DistinctNames(name, a + b)
  {
    forall i, j | 0 <= i < j < |a + b| ensures name((a + b)[i].checksum) != name((a + b)[j].checksum) {
      if i < |a| <= j {
        assert a[i] in a && b[j - |a|] in b;
      }
    }
  }

  lemma BucketsDistinct(name: Naming, found: seq<Candidate>)
    requires DistinctNames(name, found)
    ensures DistinctNames(name, Bucket(found, Easy) + Bucket(found, Normal) + Bucket(found, Hard))
  {
    var e, n, h := Bucket(found, Easy), Bucket(found, Normal), Bucket(found, Hard);
    BucketDistinct(name, found, Easy);
    BucketDistinct(name, found, Normal);
    BucketDistinct(name, found, Hard);
    forall x, y | (x in e && y in n) || (x in e && y in h) || (x in n && y in h) ensures name(x.checksum) != name(y.checksum) {
      BucketsSplit(found, x);
      BucketsSplit(found, y);
      if name(x.checksum) == name(y.checksum) {
        SameNameSameBoard(name, found, x, y);
      }
    }
    ConcatDistinct(name, e, n);
    ConcatDistinct(name, e + n, h);
  }

  lemma TakeDistinct(name: Naming, a: seq<Candidate>, n: nat)
    requires DistinctNames(name, a)
    ensures DistinctNames(name, Take(a, n)) && forall x | x in Take(a, n) :: x in a
  {
  }

  /** The target number of each difficulty. */
  function Quota(found: seq<Candidate>, limit: nat): seq<Candidate> {
    Take(Bucket(found, Easy), EasyTarget(limit)) + Take(Bucket(found, Normal), NormalTarget(limit)) + Take(Bucket(found, Hard), HardTarget(limit))
  }

  function Share(d: Difficulty, easy: int, normal: int, hard: int): int {
    match d case Easy => easy case Normal => normal case Hard => hard
  }

  ghost function PlacesBefore(found: seq<Candidate>, i: nat, d: Difficulty): set<int>
    requires i <= |found|
  {
    set j | 0 <= j < i && found[j].difficulty == d
  }

  ghost function Earlier(found: seq<Candidate>, i: nat, d: Difficulty): nat
    requires i <= |found|
  {
    |PlacesBefore(found, i, d)|
  }

  /** A board with fewer boards of its difficulty found before it than a quarter, six tenths or the rest of the limit, for
      easy, normal and hard ones, is selected. */
  ghost predicate FirstOnes(found: seq<Candidate>, limit: nat, selected: seq<Candidate>) {
    exists e: nat, n: nat | e + n <= limit && -2 < 4 * e - limit <= 2 && -5 < 10 * n - 6 * limit <= 5 ::
      forall i | 0 <= i < |found| && Earlier(found, i, found[i].difficulty) < Share(found[i].difficulty, e, n, limit - e - n) :: found[i] in selected
  }

  lemma {:induction false} BucketGrows(found: seq<Candidate>, x: Candidate, d: Difficulty)
    ensures Bucket(found + [x], d) == Bucket(found, d) + if x.difficulty == d then [x] else []
  {
    if found == [] {
      assert found + [x] == [x] && [x][1..] == [];
    } else {
      assert (found + [x])[1..] == found[1..] + [x];
      BucketGrows(found[1..], x, d);
    }
  }

  lemma OneMoreBefore(found: seq<Candidate>, i: nat, d: Difficulty)
    requires 0 < i <= |found|
    ensures Earlier(found, i, d) == Earlier(found, i - 1, d) + if found[i - 1].difficulty == d then 1 else 0
  {
    assert PlacesBefore(found, i, d) == PlacesBefore(found, i - 1, d) + if found[i - 1].difficulty == d then {i - 1} else {};
  }

  lemma {:induction false} BucketCounts(found: seq<Candidate>, i: nat, d: Difficulty)
    requires i <= |found|
    ensures |Bucket(found[..i], d)| == Earlier(found, i, d)
    decreases i
  {
    if i == 0 {
      assert PlacesBefore(found, i, d) == {};
    } else {
      BucketCounts(found, i - 1, d);
      assert found[..i] == found[..i - 1] + [found[i - 1]];
      BucketGrows(found[..i - 1], found[i - 1], d);
      OneMoreBefore(found, i, d);
    }
  }

  /** A board stands in its bucket behind the earlier boards of its difficulty. */
  lemma {:induction false} BucketPlace(found: seq<Candidate>, i: nat, n: nat)
    requires i < n <= |found|
    ensures var d := found[i].difficulty;
      Earlier(found, i, d) < |Bucket(found[..n], d)| && Bucket(found[..n], d)[Earlier(found, i, d)] == found[i]
    decreases n
  {
    var d := found[i].difficulty;
    assert found[..n] == found[..n - 1] + [found[n - 1]];
    BucketGrows(found[..n - 1], found[n - 1], d);
    if i == n - 1 {
      BucketCounts(found, i, d);
    } else {
      BucketPlace(found, i, n - 1);
    }
  }

  lemma QuotaIsFirst(found: seq<Candidate>, limit: nat, selected: seq<Candidate>)
    requires forall b | b in Quota(found, limit) :: b in selected
    ensures FirstOnes(found, limit, selected)
  {
    TargetsFit(limit);
    forall i | 0 <= i < |found|
        && Earlier(found, i, found[i].difficulty) < Share(found[i].difficulty, EasyTarget(limit), NormalTarget(limit), HardTarget(limit))
      ensures found[i] in Quota(found, limit)
    {
      BucketPlace(found, i, |found|);
      assert found[..|found|] == found;
      var d := found[i].difficulty;
      var place := Earlier(found, i, d);
      var target: nat := Share(d, EasyTarget(limit), NormalTarget(limit), HardTarget(limit));
      assert Take(Bucket(found, d), target)[place] == found[i];
      assert found[i] in Take(Bucket(found, d), target);
    }
  }

  /** The boards outside the quota that have the key of a board in it: the filter by key drops them with it. */
  function Shadowed(name: Naming, found: seq<Candidate>, quota: seq<Candidate>): set<Candidate> {
    set b | b in found && b !in quota && name(b.checksum) in Names(name, quota)
  }

  function Min(a: int, b: int): int { if a <= b then a else b }

  /**
   * The selection: the target number of each difficulty, then the remaining boards in order. No found board comes twice,
   * and the number is min(limit, found) less what the keys shadow: keys are prefixes of checksums and may clash.
   */
  method Select(found: seq<Candidate>, limit: nat, name: Naming) returns (selected: seq<Candidate>)
    requires DistinctNames(Self, found)
    ensures forall b | b in selected :: b in found
    ensures DistinctNames(Self, selected)
    ensures |selected| == Min(limit, |found| - |Shadowed(name, found, Quota(found, limit))|)
    ensures |selected| == Min(limit, |found|) <==>
      || Shadowed(name, found, Quota(found, limit)) == {}
      || |found| - |Shadowed(name, found, Quota(found, limit))| >= limit
    ensures forall b | b in Quota(found, limit) :: b in selected && b in found
    ensures |selected| < limit ==> forall b | b in found :: name(b.checksum) in Names(name, selected)
    ensures FirstOnes(found, limit, selected)
  {
    var e, n, h := Bucket(found, Easy), Bucket(found, Normal), Bucket(found, Hard);
    var all := e + n + h;
    var quota := Take(e, EasyTarget(limit)) + Take(n, NormalTarget(limit)) + Take(h, HardTarget(limit));
    BucketsDistinct(Self, found);
    SameMembers(found);
    QuotasDistinct(Self, e, n, h, EasyTarget(limit), NormalTarget(limit), HardTarget(limit));
    QuotasMembers(e, n, h, EasyTarget(limit), NormalTarget(limit), HardTarget(limit));
    ShadowedSame(name, found, all, quota);
    RemainderFits(name, quota, all, limit);
    selected := quota;
    if |selected| < limit {
      selected := selected + Take(NotNamed(name, Names(name, quota), all), limit - |quota|);
    }
    QuotaIsFirst(found, limit, selected);
  }

  lemma ShadowedSame(name: Naming, found: seq<Candidate>, all: seq<Candidate>, quota: seq<Candidate>)
    requires forall b :: b in found <==> b in all
    ensures Shadowed(name, found, quota) == Shadowed(name, all, quota)
  {
  }

  lemma SameMembers(found: seq<Candidate>)
    ensures var all := Bucket(found, Easy) + Bucket(found, Normal) + Bucket(found, Hard);
      |all| == |found| && forall b :: b in found <==> b in all
  {
    var all := Bucket(found, Easy) + Bucket(found, Normal) + Bucket(found, Hard);
    forall b ensures b in found <==> b in all {
      BucketsSplit(found, b);
    }
    if found != [] {
      BucketsSplit(found, found[0]);
    }
  }

  /** What bears a quota key: the quota's own boards, and what they shadow. */
  lemma NamedSize(name: Naming, quota: seq<Candidate>, all: seq<Candidate>)
    requires DistinctNames(Self, quota) && DistinctNames(Self, all) && forall b | b in quota :: b in all
    ensures |Named(name, Names(name, quota), all)| == |quota| + |Shadowed(name, all, quota)|
  {
    var named := Named(name, Names(name, quota), all);
    NamedSplit(name, Names(name, quota), all);
    NamedDistinct(Self, name, Names(name, quota), all);
    DistinctBoardsSize(named);
    DistinctBoardsSize(quota);
    assert Elements(named) == Elements(quota) + Shadowed(name, all, quota);
    assert Elements(quota) !! Shadowed(name, all, quota);
  }

  /** Filling up with the boards whose keys are not taken. */
  lemma RemainderFits(name: Naming, quota: seq<Candidate>, all: seq<Candidate>, limit: nat)
    requires DistinctNames(Self, quota) && DistinctNames(Self, all) && |quota| <= limit
    requires forall b | b in quota :: b in all
    ensures var whole := quota + Take(NotNamed(name, Names(name, quota), all), limit - |quota|);
      && DistinctNames(Self, whole) && |whole| == Min(limit, |all| - |Shadowed(name, all, quota)|)
      && (forall b | b in whole :: b in all) && (forall b | b in quota :: b in whole)
      && (|whole| < limit ==> forall b | b in all :: name(b.checksum) in Names(name, whole))
    ensures |quota| + |Shadowed(name, all, quota)| <= |all|
  {
    var names := Names(name, quota);
    var rest := NotNamed(name, names, all);
    NotNamedMembers(name, names, all);
    NamedSplit(name, names, all);
    NamedSize(name, quota, all);
    NotNamedDistinct(Self, name, names, all);
    TakeDistinct(Self, rest, limit - |quota|);
    forall x, y | x in quota && y in Take(rest, limit - |quota|) ensures Self(x.checksum) != Self(y.checksum) {
      assert name(y.checksum) !in names && name(x.checksum) in names;
    }
    ConcatDistinct(Self, quota, Take(rest, limit - |quota|));
    var whole := quota + Take(rest, limit - |quota|);
    if |whole| < limit {
      assert whole == quota + rest;
      forall b | b in all ensures name(b.checksum) in Names(name, whole) {
        if name(b.checksum) in names {
          var q :| q in quota && name(q.checksum) == name(b.checksum);
          assert q in whole;
        } else {
          assert b in rest && b in whole;
        }
      }
    }
  }

  lemma PartsDistinct(name: Naming, a: seq<Candidate>, b: seq<Candidate>)
    requires DistinctNames(name, a + b)
    ensures DistinctNames(name, a) && DistinctNames(name, b)
    ensures forall x, y | x in a && y in b :: name(x.checksum) != name(y.checksum)
  {
    assert forall i | 0 <= i < |a| :: (a + b)[i] == a[i];
    assert forall i | 0 <= i < |b| :: (a + b)[|a| + i] == b[i];
    forall x, y | x in a && y in b ensures name(x.checksum) != name(y.checksum) {
      var i :| 0 <= i < |a| && a[i] == x;
      var j :| 0 <= j < |b| && b[j] == y;
      assert (a + b)[i] == x && (a + b)[|a| + j] == y;
    }
  }

  lemma QuotasDistinct(name: Naming, e: seq<Candidate>, n: seq<Candidate>, h: seq<Candidate>, i: nat, j: nat, k: nat)
    requires DistinctNames(name, e + n + h)
    ensures DistinctNames(name, Take(e, i) + Take(n, j) + Take(h, k))
  {
    PartsDistinct(name, e + n, h);
    PartsDistinct(name, e, n);
    TakeDistinct(name, e, i);
    TakeDistinct(name, n, j);
    TakeDistinct(name, h, k);
    ConcatDistinct(name, Take(e, i), Take(n, j));
    ConcatDistinct(name, Take(e, i) + Take(n, j), Take(h, k));
  }

  lemma QuotasMembers(e: seq<Candidate>, n: seq<Candidate>, h: seq<Candidate>, i: nat, j: nat, k: nat)
    ensures forall b | b in Take(e, i) + Take(n, j) + Take(h, k) :: b in e + n + h
  {
    forall b | b in Take(e, i) + Take(n, j) + Take(h, k) ensures b in e || b in n || b in h {
      assert b in Take(e, i) || b in Take(n, j) || b in Take(h, k);
    }
  }

  /** The checksum of an admissible choice. */
  ghost predicate OfBoard(s: Source, x: nat) {
    exists rows, columns :: Admissible(s, rows, columns) && BoardChecksum(s, rows, columns) == x
  }

  /** The keys tell apart the checksums of all admissible choices. */
  ghost predicate TellsApart(s: Source, name: Naming) {
    forall x, y | OfBoard(s, x) && OfBoard(s, y) && name(x) == name(y) :: x == y
  }

  /** Every admissible choice has been found, by its checksum. */
  ghost predicate FoundAll(s: Source, found: seq<Candidate>) {
    forall x | OfBoard(s, x) :: x in Checksums(found)
  }

  /** Every admissible choice has the key of one of the boards. */
  ghost predicate KeysCover(s: Source, name: Naming, boards: seq<Candidate>) {
    forall x | OfBoard(s, x) :: name(x) in Names(name, boards)
  }

  ghost predicate AreBoards(s: Source, found: seq<Candidate>) {
    forall b | b in found :: OfBoard(s, b.checksum)
  }

  lemma SoundBoards(s: Source, found: seq<Candidate>)
    requires Sound(s, found)
    ensures AreBoards(s, found) && DistinctNames(Self, found)
  {
    forall b | b in found ensures OfBoard(s, b.checksum) {
      var i :| 0 <= i < |found| && found[i] == b;
      assert Admissible(s, b.rows, b.columns) && b == BoardOf(s, b.rows, b.columns);
    }
  }

  /** A board with the checksum of the choice has been found. */
  ghost predicate AmongFound(s: Source, rows: seq<Criterion>, columns: seq<Criterion>, found: seq<Candidate>)
    requires |rows| == 3 && |columns| == 3
  {
    exists b | b in found ::
      b.checksum == (s.checksum)([rows[0].key, rows[1].key, rows[2].key], [columns[0].key, columns[1].key, columns[2].key])
  }

  /** Every fair choice has been found, by its checksum. */
  ghost predicate FairAllFound(s: Source, found: seq<Candidate>) {
    forall rows: seq<Criterion>, columns: seq<Criterion> | Fair(s, rows, columns) :: AmongFound(s, rows, columns, found)
  }

  /** The search: below its cap it has found every admissible choice. */
  method FindCandidates(s: Source, cap: nat) returns (found: seq<Candidate>)
    requires cap > 0
    ensures Sound(s, found) && |found| <= cap
    ensures forall b | b in found :: FairBoard(s, b)
    ensures |found| < cap ==> FoundAll(s, found) && FairAllFound(s, found)
  {
    var generator := new Generator(s, cap);
    generator.Generate();
    found := generator.found;
    SoundIsFair(s, found);
    if |found| < cap {
      ExploredFinds(s, found);
    }
  }

  lemma SoundIsFair(s: Source, found: seq<Candidate>)
    requires Sound(s, found)
    ensures forall b | b in found :: FairBoard(s, b)
  {
    forall b | b in found ensures FairBoard(s, b) {
      var i :| 0 <= i < |found| && found[i] == b;
      assert Admissible(s, found[i].rows, found[i].columns) && found[i] == BoardOf(s, found[i].rows, found[i].columns);
      BoardIsFair(s, b.rows, b.columns);
    }
  }

  lemma ExploredFinds(s: Source, found: seq<Candidate>)
    requires forall rows :: Explored(s, rows, Checksums(found))
    ensures FoundAll(s, found) && FairAllFound(s, found)
  {
    forall rows: seq<Criterion>, columns: seq<Criterion> | Fair(s, rows, columns) ensures AmongFound(s, rows, columns, found) {
      FairIsFound(s, found, rows, columns);
    }
    forall x | OfBoard(s, x) ensures x in Checksums(found) {
      var rows, columns :| Admissible(s, rows, columns) && BoardChecksum(s, rows, columns) == x;
      assert Explored(s, rows, Checksums(found)) && Tried(s, rows, columns, Checksums(found));
    }
  }

  lemma FairIsFound(s: Source, found: seq<Candidate>, rows: seq<Criterion>, columns: seq<Criterion>)
    requires Explored(s, rows, Checksums(found)) && Fair(s, rows, columns)
    ensures AmongFound(s, rows, columns, found)
  {
    FairExact(s, rows, columns);
    assert Tried(s, rows, columns, Checksums(found));
    var b :| b in found && b.checksum == BoardChecksum(s, rows, columns);
    assert KeysOf(rows) == [rows[0].key, rows[1].key, rows[2].key] && KeysOf(columns) == [columns[0].key, columns[1].key, columns[2].key];
  }

  /**
   * The selection among all boards found: exactly min(limit, found) less what the keys shadow. Fewer than the limit means
   * that every admissible choice has the key of a selected board, unless the keys shadow more than nineteen times the
   * limit and the cap stopped the search. Where keys tell the checksums apart nothing is shadowed, keys are distinct,
   * and fewer than the limit means that nothing is left.
   */
  method SelectCandidates(s: Source, limit: nat, name: Naming, found: seq<Candidate>) returns (boards: seq<Candidate>)
    requires AreBoards(s, found) && DistinctNames(Self, found)
    requires |found| < limit * 20 ==> FoundAll(s, found)
    ensures FirstOnes(found, limit, boards)
    ensures (forall b | b in boards :: b in found) && DistinctNames(Self, boards)
    ensures |boards| == Min(limit, |found| - |Shadowed(name, found, Quota(found, limit))|)
    ensures |boards| < limit ==> KeysCover(s, name, boards) || |Shadowed(name, found, Quota(found, limit))| > 19 * limit
    ensures TellsApart(s, name) ==> DistinctNames(name, boards) && |boards| == Min(limit, |found|)
    ensures TellsApart(s, name) && |boards| < limit ==> FoundAll(s, boards)
  {
    boards := Select(found, limit, name);
    if |boards| < limit && |found| < limit * 20 {
      CoverAll(s, name, found, boards);
    }
    if TellsApart(s, name) {
      FoundApart(s, name, found);
      NoneShadowed(name, found, Quota(found, limit));
      ApartKeys(name, found, boards);
      if |boards| < limit {
        ApartCovers(s, name, found, boards);
      }
    }
  }

  /** generateCandidateBoards: the search up to twenty times the limit, then the selection. */
  method GenerateCandidateBoards(s: Source, limit: nat, name: Naming) returns (boards: seq<Candidate>, ghost found: seq<Candidate>)
    requires limit > 0
    ensures Sound(s, found) && |found| <= limit * 20 && (|found| < limit * 20 ==> FoundAll(s, found))
    ensures (forall b | b in boards :: FairBoard(s, b)) && FirstOnes(found, limit, boards)
    ensures |found| < limit * 20 ==> FairAllFound(s, found)
    ensures (forall b | b in boards :: b in found) && DistinctNames(Self, boards)
    ensures |boards| == Min(limit, |found| - |Shadowed(name, found, Quota(found, limit))|)
    ensures |boards| < limit ==> KeysCover(s, name, boards) || |Shadowed(name, found, Quota(found, limit))| > 19 * limit
    ensures TellsApart(s, name) ==> DistinctNames(name, boards) && |boards| == Min(limit, |found|)
    ensures TellsApart(s, name) && |boards| < limit ==> FoundAll(s, boards)
  {
    var candidates := FindCandidates(s, limit * 20);
    found := candidates;
    SoundBoards(s, candidates);
    boards := SelectCandidates(s, limit, name, candidates);
  }

  lemma CoverAll(s: Source, name: Naming, found: seq<Candidate>, boards: seq<Candidate>)
    requires FoundAll(s, found) && forall b | b in found :: name(b.checksum) in Names(name, boards)
    ensures KeysCover(s, name, boards)
  {
    forall x | OfBoard(s, x) ensures name(x) in Names(name, boards) {
      var f :| f in found && f.checksum == x;
    }
  }

  ghost predicate KeysApart(name: Naming, found: seq<Candidate>) {
    forall a, b | a in found && b in found && name(a.checksum) == name(b.checksum) :: a == b
  }

  /** Found boards are admissible choices, so keys that tell these apart tell the boards apart. */
  lemma FoundApart(s: Source, name: Naming, found: seq<Candidate>)
    requires TellsApart(s, name) && AreBoards(s, found) && DistinctNames(Self, found)
    ensures KeysApart(name, found)
  {
    forall a, b | a in found && b in found && name(a.checksum) == name(b.checksum) ensures a == b {
      assert a.checksum == b.checksum;
      SameNameSameBoard(Self, found, a, b);
    }
  }

  lemma NoneShadowed(name: Naming, found: seq<Candidate>, quota: seq<Candidate>)
    requires KeysApart(name, found) && forall b | b in quota :: b in found
    ensures Shadowed(name, found, quota) == {}
  {
    forall b | b in found && name(b.checksum) in Names(name, quota) ensures b in quota {
      var q :| q in quota && name(q.checksum) == name(b.checksum);
    }
  }

  lemma ApartKeys(name: Naming, found: seq<Candidate>, boards: seq<Candidate>)
    requires KeysApart(name, found) && DistinctNames(Self, boards) && forall b | b in boards :: b in found
    ensures DistinctNames(name, boards)
  {
    forall i, j | 0 <= i < j < |boards| ensures name(boards[i].checksum) != name(boards[j].checksum) {
      assert boards[i] in boards && boards[j] in boards;
      assert Self(boards[i].checksum) != Self(boards[j].checksum);
    }
  }

  lemma ApartCovers(s: Source, name: Naming, found: seq<Candidate>, boards: seq<Candidate>)
    requires KeysApart(name, found) && FoundAll(s, found)
    requires (forall b | b in boards :: b in found) && forall b | b in found :: name(b.checksum) in Names(name, boards)
    ensures FoundAll(s, boards)
  {
    forall x | OfBoard(s, x) ensures x in Checksums(boards) {
      var f :| f in found && f.checksum == x;
      var b :| b in boards && name(b.checksum) == name(f.checksum);
      assert b == f;
    }
  }
}
