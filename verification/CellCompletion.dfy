/** The last part of both content transforms: every cell gets the whole intersection of its row and column. */
module CellCompletion {
  import opened Wrappers
  import opened ReleaseContent
  import opened AdditiveManifest

  type Members = map<Id, set<PlayerId>>

  /** The two criteria of the cell at `i` of a board. */
  predicate Keyed(b: GridBoard, members: Members) {
    && |b.rows| == 3 && |b.columns| == 3 && |b.cells| == 9
    && (forall k | k in b.rows :: k in members) && (forall k | k in b.columns :: k in members)
  }

  function Both(b: GridBoard, members: Members, i: nat): set<PlayerId>
    requires Keyed(b, members) && i < 9
  {
    members[b.rows[i / 3]] * members[b.columns[i % 3]]
  }

  /** Every stored answer has both memberships. */
  predicate Supported(b: GridBoard, members: Members) {
    Keyed(b, members) && forall i | 0 <= i < 9 :: CellSupported(b, members, i)
  }

  predicate CellSupported(b: GridBoard, members: Members, i: nat)
    requires Keyed(b, members) && i < 9
  {
    forall p | p in b.cells[i].players :: p in Both(b, members, i)
  }

  function CellTotal(cells: seq<Cell>): nat {
    if cells == [] then 0 else CellTotal(cells[..|cells| - 1]) + |cells[|cells| - 1].players|
  }

  function AnswerTotal(boards: seq<GridBoard>): nat {
    if boards == [] then 0 else AnswerTotal(boards[..|boards| - 1]) + CellTotal(boards[|boards| - 1].cells)
  }

  /** How many cells of two lists differ. */
  function Changed(cells: seq<Cell>, next: seq<Cell>): nat
    requires |cells| == |next|
  {
    if cells == [] then 0
    else
      var n := |cells| - 1;
      Changed(cells[..n], next[..n]) + if cells[n] == next[n] then 0 else 1
  }

  function ChangedTotal(boards: seq<GridBoard>, next: seq<GridBoard>): nat
    requires |boards| == |next| && forall i | 0 <= i < |boards| :: |boards[i].cells| == |next[i].cells|
  {
    if boards == [] then 0
    else
      var n := |boards| - 1;
      ChangedTotal(boards[..n], next[..n]) + Changed(boards[n].cells, next[n].cells)
  }

  /** A completed cell: the old list first, then the missing players in order; together exactly `both`, nobody added twice. */
  ghost predicate Completes(cell: Cell, next: Cell, both: set<PlayerId>) {
    && cell.players <= next.players && next.samples == cell.samples
    && Elements(next.players) == both
    && NoDup(next.players[|cell.players|..])
    && (forall p | p in next.players[|cell.players|..] :: p !in cell.players)
    && Ascends(next.players[|cell.players|..])
  }

  predicate Ascends(s: seq<PlayerId>) {
    forall i, j | 0 <= i < j < |s| :: s[i] < s[j]
  }

  ghost predicate BoardCompleted(b: GridBoard, c: GridBoard, members: Members)
    requires Keyed(b, members)
  {
    && Definition(b) == Definition(c) && |c.cells| == 9
    && (forall i | 0 <= i < 9 :: Completes(b.cells[i], c.cells[i], Both(b, members, i)))
    && (b.cells == c.cells ==> c == b)
    && (b.cells != c.cells ==> c.version == b.version + 1 && c.approvedBy == Unreviewed)
  }

  /** The completed cell, in full: the missing players come last, in sorted order. */
  function CompletedCell(cell: Cell, both: set<PlayerId>): Cell {
    Cell(cell.players + Sorted(both - Elements(cell.players)), cell.samples)
  }

  function CompletedBoard(b: GridBoard, members: Members): GridBoard
    requires Keyed(b, members)
  {
    var cells := seq(9, i requires 0 <= i < 9 => CompletedCell(b.cells[i], Both(b, members, i)));
    if cells == b.cells then b else b.(cells := cells, version := b.version + 1, approvedBy := Unreviewed)
  }

  function CompletedBoards(boards: seq<GridBoard>, members: Members): seq<GridBoard>
    requires forall b | b in boards :: Keyed(b, members)
  {
    seq(|boards|, i requires 0 <= i < |boards| => CompletedBoard(boards[i], members))
  }

  lemma AppendCompletes(cell: Cell, added: seq<PlayerId>, both: set<PlayerId>)
    requires forall p | p in cell.players :: p in both
    requires NoDup(added) && Ascends(added) && Elements(added) == both - Elements(cell.players)
    ensures Completes(cell, Cell(cell.players + added, cell.samples), both)
  {
    var players := cell.players + added;
    assert players[|cell.players|..] == added;
    forall p ensures p in Elements(players) <==> p in both {
      assert p in added <==> p in Elements(added);
      assert p in cell.players <==> p in Elements(cell.players);
    }
    forall p | p in added ensures p !in cell.players {
      assert p in Elements(added);
    }
  }

  lemma {:induction false} SortedAscends(s: set<PlayerId>)
    ensures Ascends(Sorted(s))
    decreases |s|
  {
    if s != {} {
      var x := Least(s);
      SortedAscends(s - {x});
      var rest := Sorted(s - {x});
      forall k | 0 <= k < |rest| ensures x < rest[k] {
        assert rest[k] in Elements(rest);
      }
    }
  }

  /** One cell: the missing players are appended in sorted order. */
  method CompleteCell(cell: Cell, both: set<PlayerId>) returns (next: Cell, grown: nat)
    requires forall p | p in cell.players :: p in both
    ensures Completes(cell, next, both)
    ensures |next.players| == |cell.players| + grown
    ensures next == cell <==> grown == 0
  {
    var missing := both - Elements(cell.players);
    var additions := Sorted(missing);
    ElementsSize(additions);
    SortedAscends(missing);
    AppendCompletes(cell, additions, both);
    grown := |additions|;
    next := Cell(cell.players + additions, cell.samples);
    assert grown == 0 ==> next.players == cell.players;
  }

  /** The first `i` cells of a board are done. */
  ghost predicate CellsDone(b: GridBoard, members: Members, i: nat, cells: seq<Cell>)
    requires Keyed(b, members) && i <= 9
  {
    && |cells| == i
    && forall k | 0 <= k < i :: CellSupported(b, members, k) && Completes(b.cells[k], cells[k], Both(b, members, k))
  }

  lemma CellsStep(b: GridBoard, members: Members, i: nat, cells: seq<Cell>, next: Cell)
    requires Keyed(b, members) && i < 9 && CellsDone(b, members, i, cells)
    requires CellSupported(b, members, i) && Completes(b.cells[i], next, Both(b, members, i))
    ensures CellsDone(b, members, i + 1, cells + [next])
  {
    var now := cells + [next];
    forall k | 0 <= k < i + 1
      ensures CellSupported(b, members, k) && Completes(b.cells[k], now[k], Both(b, members, k))
    {
      if k < i {
        assert now[k] == cells[k];
      }
    }
  }

  /** The counters after the first `i` cells. */
  ghost predicate Tally(all: seq<Cell>, i: nat, cells: seq<Cell>, grown: nat, changed: nat)
    requires i <= |all|
  {
    && |cells| == i
    && CellTotal(cells) == CellTotal(all[..i]) + grown
    && changed == Changed(all[..i], cells)
    && (changed == 0 <==> cells == all[..i])
  }

  lemma TallyStep(all: seq<Cell>, i: nat, cells: seq<Cell>, grown: nat, changed: nat, cell: Cell, added: nat)
    requires i < |all| && Tally(all, i, cells, grown, changed)
    requires |cell.players| == |all[i].players| + added && (cell == all[i] <==> added == 0)
    ensures Tally(all, i + 1, cells + [cell], grown + added, changed + if added > 0 then 1 else 0)
  {
    assert all[..i + 1][..i] == all[..i] && (cells + [cell])[..i] == cells && all[..i + 1] == all[..i] + [all[i]];
  }

  method CompleteCells(b: GridBoard, members: Members) returns (cells: seq<Cell>, ok: bool, grown: nat, changed: nat)
    requires Keyed(b, members)
    ensures ok <==> Supported(b, members)
    ensures ok ==> CellsDone(b, members, 9, cells) && Tally(b.cells, 9, cells, grown, changed)
  {
    cells := [];
    grown, changed := 0, 0;
    for i := 0 to 9
      invariant CellsDone(b, members, i, cells)
      invariant Tally(b.cells, i, cells, grown, changed)
    {
      if !CellSupported(b, members, i) {
        return cells, false, 0, 0;
      }
      var next, added := CompleteCell(b.cells[i], Both(b, members, i));
      CellsStep(b, members, i, cells, next);
      TallyStep(b.cells, i, cells, grown, changed, next, added);
      cells := cells + [next];
      grown := grown + added;
      if added > 0 {
        changed := changed + 1;
      }
    }
    ok := true;
  }

  /** One board: its cells, and a new version when some cell grew. */
  method CompleteBoard(b: GridBoard, members: Members) returns (r: Option<GridBoard>, grown: nat, changed: nat)
    ensures r.Some? <==> Supported(b, members)
    ensures r.Some? ==>
      && BoardCompleted(b, r.value, members)
      && CellTotal(r.value.cells) == CellTotal(b.cells) + grown
      && changed == Changed(b.cells, r.value.cells)
  {
    if !Keyed(b, members) {
      return None, 0, 0;
    }
    var cells, ok;
    cells, ok, grown, changed := CompleteCells(b, members);
    if !ok {
      return None, 0, 0;
    }
    assert b.cells[..9] == b.cells;
    if changed == 0 {
      assert cells == b.cells;
      r := Some(b);
    } else {
      r := Some(b.(cells := cells, version := b.version + 1, approvedBy := Unreviewed));
    }
  }

  ghost predicate BoardsCompleted(boards: seq<GridBoard>, next: seq<GridBoard>, members: Members) {
    && |boards| == |next|
    && forall i | 0 <= i < |boards| :: Keyed(boards[i], members) && BoardCompleted(boards[i], next[i], members)
  }

  ghost predicate BoardTally(boards: seq<GridBoard>, next: seq<GridBoard>, grown: nat, changed: nat) {
    && SameShape(boards, next)
    && AnswerTotal(next) == AnswerTotal(boards) + grown
    && changed == ChangedTotal(boards, next)
  }

  /**
   * The board loop. It fails exactly when some stored answer lacks a membership (or a board is malformed); otherwise
   * every cell is exactly the intersection, and the counters are the growth and the number of cells that grew.
   */
  method CompleteBoards(boards: seq<GridBoard>, members: Members)
    returns (r: Result<seq<GridBoard>>, grown: nat, changed: nat)
    ensures r.Ok? <==> AllSupported(boards, members)
    ensures r.Ok? ==> BoardsCompleted(boards, r.value, members) && BoardTally(boards, r.value, grown, changed)
  {
    var next: seq<GridBoard> := [];
    grown, changed := 0, 0;
    for i := 0 to |boards|
      invariant AllSupported(boards[..i], members)
      invariant BoardsCompleted(boards[..i], next, members)
      invariant BoardTally(boards[..i], next, grown, changed)
    {
      var board, more, cells := CompleteBoard(boards[i], members);
      if board.None? {
        assert boards[i] in boards;
        return Err("existing answer lacks evidence"), 0, 0;
      }
      BoardsStep(boards, next, i, board.value, members, grown, changed, more, cells);
      next, grown, changed := next + [board.value], grown + more, changed + cells;
    }
    assert boards[..|boards|] == boards;
    r := Ok(next);
  }

  ghost predicate AllSupported(boards: seq<GridBoard>, members: Members) {
    forall b | b in boards :: Supported(b, members)
  }

  lemma BoardsStep(boards: seq<GridBoard>, next: seq<GridBoard>, i: nat, board: GridBoard, members: Members,
                   grown: nat, changed: nat, more: nat, cells: nat)
    requires i < |boards| && BoardsCompleted(boards[..i], next, members) && BoardTally(boards[..i], next, grown, changed)
    requires AllSupported(boards[..i], members) && Supported(boards[i], members) && BoardCompleted(boards[i], board, members)
    requires CellTotal(board.cells) == CellTotal(boards[i].cells) + more && cells == Changed(boards[i].cells, board.cells)
    ensures AllSupported(boards[..i + 1], members)
    ensures BoardsCompleted(boards[..i + 1], next + [board], members)
    ensures BoardTally(boards[..i + 1], next + [board], grown + more, changed + cells)
  {
    CountBoard(boards, next, i, board);
    CompletedStep(boards, next, i, board, members);
  }

  lemma CompletedStep(boards: seq<GridBoard>, next: seq<GridBoard>, i: nat, board: GridBoard, members: Members)
    requires i < |boards| && BoardsCompleted(boards[..i], next, members)
    requires Keyed(boards[i], members) && BoardCompleted(boards[i], board, members)
    ensures BoardsCompleted(boards[..i + 1], next + [board], members)
  {
    var now := next + [board];
    forall k | 0 <= k < i + 1 ensures Keyed(boards[..i + 1][k], members) && BoardCompleted(boards[..i + 1][k], now[k], members) {
      if k < i {
        assert boards[..i][k] == boards[..i + 1][k] && now[k] == next[k];
      }
    }
  }

  ghost predicate SameShape(boards: seq<GridBoard>, next: seq<GridBoard>) {
    |boards| == |next| && forall i | 0 <= i < |boards| :: |boards[i].cells| == |next[i].cells|
  }

  lemma CountBoard(boards: seq<GridBoard>, next: seq<GridBoard>, i: nat, board: GridBoard)
    requires i < |boards| && SameShape(boards[..i], next) && |board.cells| == |boards[i].cells|
    ensures boards[..i + 1] == boards[..i] + [boards[i]]
    ensures AnswerTotal(boards[..i + 1]) == AnswerTotal(boards[..i]) + CellTotal(boards[i].cells)
    ensures AnswerTotal(next + [board]) == AnswerTotal(next) + CellTotal(board.cells)
    ensures SameShape(boards[..i + 1], next + [board])
    ensures ChangedTotal(boards[..i + 1], next + [board]) == ChangedTotal(boards[..i], next) + Changed(boards[i].cells, board.cells)
  {
    assert boards[..i + 1][..i] == boards[..i] && (next + [board])[..i] == next;
  }

  lemma {:induction false} OneAscending(a: seq<PlayerId>, b: seq<PlayerId>)
    requires Ascends(a) && Ascends(b) && Elements(a) == Elements(b)
    ensures a == b
  {
    NoElements(a);
    NoElements(b);
    if a != [] {
      assert a[0] in Elements(a) && b[0] in Elements(b);
      var j :| 0 <= j < |b| && b[j] == a[0];
      var i :| 0 <= i < |a| && a[i] == b[0];
      assert a[0] == b[0];
      RestElements(a);
      RestElements(b);
      OneAscending(a[1..], b[1..]);
    }
  }

  lemma NoElements(s: seq<PlayerId>)
    ensures s == [] <==> Elements(s) == {}
  {
    if s != [] {
      assert s[0] in Elements(s);
    }
  }

  lemma RestElements(s: seq<PlayerId>)
    requires s != [] && Ascends(s)
    ensures Elements(s[1..]) == Elements(s) - {s[0]} && s == [s[0]] + s[1..]
  {
    assert s == [s[0]] + s[1..];
    forall x | x in s[1..] ensures x != s[0] {
      var k :| 0 <= k < |s[1..]| && s[1..][k] == x;
      assert s[k + 1] == x;
    }
  }

  lemma CellDetermined(cell: Cell, next: Cell, both: set<PlayerId>)
    requires Completes(cell, next, both)
    ensures next == CompletedCell(cell, both)
  {
    var added := next.players[|cell.players|..];
    assert next.players == cell.players + added;
    SortedAscends(both - Elements(cell.players));
    forall p ensures p in Elements(added) <==> p in both - Elements(cell.players) {
      assert p in next.players <==> p in cell.players || p in added;
      assert p in Elements(next.players) <==> p in both;
    }
    OneAscending(added, Sorted(both - Elements(cell.players)));
  }

  lemma BoardDetermined(b: GridBoard, c: GridBoard, members: Members)
    requires Keyed(b, members) && BoardCompleted(b, c, members)
    ensures c == CompletedBoard(b, members)
  {
    CellsDetermined(b, c.cells, members);
    assert Definition(b).rows == Definition(c).rows;
  }

  lemma CellsDetermined(b: GridBoard, cells: seq<Cell>, members: Members)
    requires Keyed(b, members) && |cells| == 9 && forall i | 0 <= i < 9 :: Completes(b.cells[i], cells[i], Both(b, members, i))
    ensures cells == seq(9, i requires 0 <= i < 9 => CompletedCell(b.cells[i], Both(b, members, i)))
  {
    forall i | 0 <= i < 9 ensures cells[i] == CompletedCell(b.cells[i], Both(b, members, i)) {
      CellDetermined(b.cells[i], cells[i], Both(b, members, i));
    }
  }

  /** What a completion is leaves no choice: there is one completed list of boards. */
  lemma BoardsDetermined(boards: seq<GridBoard>, next: seq<GridBoard>, members: Members)
    requires BoardsCompleted(boards, next, members)
    ensures (forall b | b in boards :: Keyed(b, members)) && next == CompletedBoards(boards, members)
  {
    forall i | 0 <= i < |boards| ensures next[i] == CompletedBoard(boards[i], members) {
      BoardDetermined(boards[i], next[i], members);
    }
  }

  /** And there always is one, when every stored answer is supported. */
  lemma CompletionExists(boards: seq<GridBoard>, members: Members)
    requires AllSupported(boards, members)
    ensures BoardsCompleted(boards, CompletedBoards(boards, members), members)
  {
    forall i | 0 <= i < |boards| ensures Keyed(boards[i], members) && BoardCompleted(boards[i], CompletedBoard(boards[i], members), members) {
      assert Supported(boards[i], members);
      BoardCompletes(boards[i], members);
    }
  }

  lemma BoardCompletes(b: GridBoard, members: Members)
    requires Supported(b, members)
    ensures BoardCompleted(b, CompletedBoard(b, members), members)
  {
    forall i | 0 <= i < 9 ensures Completes(b.cells[i], CompletedCell(b.cells[i], Both(b, members, i)), Both(b, members, i)) {
      assert CellSupported(b, members, i);
      var missing := Both(b, members, i) - Elements(b.cells[i].players);
      SortedAscends(missing);
      AppendCompletes(b.cells[i], Sorted(missing), Both(b, members, i));
    }
  }

  /** Completed boards are grown boards. */
  lemma CompletedGrows(boards: seq<GridBoard>, next: seq<GridBoard>, members: Members)
    requires BoardsCompleted(boards, next, members)
    ensures BoardsGrow(boards, next)
    ensures UniqueBy(boards, BoardKeyOf) ==> UniqueBy(next, BoardKeyOf)
  {
    forall i | 0 <= i < |boards| ensures BoardGrows(boards[i], next[i]) {
      forall c | 0 <= c < 9 ensures CellGrows(boards[i].cells[c], next[i].cells[c]) {
        assert Completes(boards[i].cells[c], next[i].cells[c], Both(boards[i], members, c));
      }
    }
    forall b | b in boards ensures exists c | c in next :: BoardGrows(b, c) {
      var i :| 0 <= i < |boards| && boards[i] == b;
      assert BoardGrows(b, next[i]);
    }
    if UniqueBy(boards, BoardKeyOf) {
      forall i, j | 0 <= i < j < |next| ensures BoardKeyOf(next[i]) != BoardKeyOf(next[j]) {
        assert Definition(boards[i]).key == Definition(next[i]).key && Definition(boards[j]).key == Definition(next[j]).key;
        assert BoardKeyOf(boards[i]) != BoardKeyOf(boards[j]);
      }
    }
  }

  /** Completing twice with the same memberships changes nothing the second time. */
  lemma CompletionIdempotent(boards: seq<GridBoard>, next: seq<GridBoard>, again: seq<GridBoard>, members: Members)
    requires BoardsCompleted(boards, next, members) && BoardsCompleted(next, again, members)
    ensures again == next
  {
    forall i | 0 <= i < |next| ensures again[i] == next[i] {
      forall c | 0 <= c < 9 ensures again[i].cells[c] == next[i].cells[c] {
        assert Completes(boards[i].cells[c], next[i].cells[c], Both(boards[i], members, c));
        assert Completes(next[i].cells[c], again[i].cells[c], Both(next[i], members, c));
        assert Definition(boards[i]).rows == next[i].rows && Definition(boards[i]).columns == next[i].columns;
        NothingMissing(next[i].cells[c], again[i].cells[c], Both(next[i], members, c));
      }
      assert again[i].cells == next[i].cells;
    }
  }

  lemma FirstMember<T>(s: seq<T>)
    ensures s != [] ==> exists x :: x in s
  {
    if s != [] {
      assert s[0] in s;
    }
  }

  lemma NothingMissing(cell: Cell, next: Cell, both: set<PlayerId>)
    requires Completes(cell, next, both) && Elements(cell.players) == both
    ensures next == cell
  {
    var added := next.players[|cell.players|..];
    assert next.players == cell.players + added;
    assert forall p | p in added :: p in Elements(next.players) && p !in Elements(cell.players);
    FirstMember(added);
  }
}
