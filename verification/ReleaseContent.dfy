/** Boards, cells and answer rows of a Football Grid release, as publish writes them. */
module ReleaseContent {
  import opened Wrappers

  type BoardKey = nat
  type PlayerId = nat
  type Version = nat

  /** A cell's accepted players, and its recognizable ones in rank order. */
  datatype Cell = Cell(players: seq<PlayerId>, samples: seq<PlayerId>)

  /** A board under its canonical checksum. */
  datatype Board = Board(key: BoardKey, cells: seq<Cell>)

  /** `content` stands for everything else in the manifest. */
  datatype Manifest = Manifest(version: Version, boards: seq<Board>, content: nat)

  /** SHA-256 of the printed manifest, taken as injective. */
  datatype Digest = Digest(of: Manifest)

  /** One row of football_grid_board_answers; a sample is a row with a rank. */
  datatype Answer = Answer(board: BoardKey, cell: nat, player: PlayerId, rank: Option<nat>)

  /** recognizablePlayerIds.indexOf(player) + 1 */
  function RankIn(samples: seq<PlayerId>, player: PlayerId): Option<nat> {
    if samples == [] then None
    else if samples[0] == player then Some(1)
    else match RankIn(samples[1..], player) case None => None case Some(r) => Some(r + 1)
  }

  function CellRows(board: BoardKey, index: nat, cell: Cell): seq<Answer> {
    seq(|cell.players|, i requires 0 <= i < |cell.players| =>
      Answer(board, index, cell.players[i], RankIn(cell.samples, cell.players[i])))
  }

  function BoardRows(board: Board, n: nat): seq<Answer>
    requires n <= |board.cells|
  {
    if n == 0 then [] else BoardRows(board, n - 1) + CellRows(board.key, n - 1, board.cells[n - 1])
  }

  function Rows(boards: seq<Board>): seq<Answer> {
    if boards == [] then []
    else
      var last := boards[|boards| - 1];
      Rows(boards[..|boards| - 1]) + BoardRows(last, |last.cells|)
  }

  function Elements<T>(s: seq<T>): set<T> {
    set x | x in s
  }

  ghost predicate NoDup<T>(s: seq<T>) {
    forall i, j | 0 <= i < j < |s| :: s[i] != s[j]
  }

  predicate DistinctBoards(boards: seq<Board>) {
    forall i, j | 0 <= i < j < |boards| :: boards[i].key != boards[j].key
  }

  /** No player twice in one cell. */
  ghost predicate DuplicateFree(boards: seq<Board>) {
    forall b, c | 0 <= b < |boards| && 0 <= c < |boards[b].cells| :: NoDup(boards[b].cells[c].players)
  }

  /** What it means for a row to be an answer of the boards, without the loops that write it. */
  ghost predicate IsAnswerOf(boards: seq<Board>, a: Answer) {
    exists b | 0 <= b < |boards| :: IsAnswerOfBoard(boards[b], a)
  }

  ghost predicate IsAnswerOfBoard(board: Board, a: Answer) {
    && a.board == board.key && a.cell < |board.cells|
    && a.player in board.cells[a.cell].players
    && RankIs(board.cells[a.cell].samples, a.player, a.rank)
  }

  /** The place of the player's first mention among the samples, counted from one; none for a player who is no sample. */
  ghost predicate RankIs(samples: seq<PlayerId>, p: PlayerId, rank: Option<nat>) {
    match rank
    case None => p !in samples
    case Some(r) => 1 <= r <= |samples| && samples[r - 1] == p && p !in samples[..r - 1]
  }

  lemma {:induction false} RankExact(samples: seq<PlayerId>, p: PlayerId, rank: Option<nat>)
    ensures RankIs(samples, p, rank) <==> rank == RankIn(samples, p)
  {
    if samples != [] && samples[0] != p {
      var rest := samples[1..];
      var earlier := if rank.Some? && rank.value > 0 then Some(rank.value - 1) else rank;
      RankExact(rest, p, earlier);
      if rank.Some? && 1 <= rank.value <= |samples| {
        assert rank.value > 1 ==> samples[..rank.value - 1] == [samples[0]] + rest[..rank.value - 2];
      }
      assert RankIn(rest, p).Some? ==> RankIn(rest, p).value >= 1;
    }
  }

  lemma {:induction false} BoardRowsExact(board: Board, n: nat, a: Answer)
    requires n <= |board.cells|
    ensures a in BoardRows(board, n) <==> IsAnswerOfBoard(board, a) && a.cell < n
  {
    if n > 0 {
      BoardRowsExact(board, n - 1, a);
      var cell := board.cells[n - 1];
      var rows := CellRows(board.key, n - 1, cell);
      RankExact(cell.samples, a.player, a.rank);
      if a in rows {
        var i :| 0 <= i < |rows| && rows[i] == a;
        assert cell.players[i] in cell.players;
      }
      if IsAnswerOfBoard(board, a) && a.cell == n - 1 {
        var i :| 0 <= i < |cell.players| && cell.players[i] == a.player;
        assert rows[i] == a;
      }
    }
  }

  lemma LastBoard(boards: seq<Board>, a: Answer)
    requires boards != []
    ensures IsAnswerOf(boards, a) <==>
      IsAnswerOf(boards[..|boards| - 1], a) || IsAnswerOfBoard(boards[|boards| - 1], a)
  {
    var n := |boards| - 1;
    if IsAnswerOf(boards, a) && !IsAnswerOfBoard(boards[n], a) {
      var b :| 0 <= b < |boards| && IsAnswerOfBoard(boards[b], a);
      assert IsAnswerOfBoard(boards[..n][b], a);
    }
    if IsAnswerOf(boards[..n], a) {
      var b :| 0 <= b < n && IsAnswerOfBoard(boards[..n][b], a);
      assert IsAnswerOfBoard(boards[b], a);
    }
  }

  /** The rows publish inserts are exactly the manifest's answers. */
  lemma {:induction false} RowsExact(boards: seq<Board>, a: Answer)
    ensures a in Rows(boards) <==> IsAnswerOf(boards, a)
  {
    if boards != [] {
      var n := |boards| - 1;
      RowsExact(boards[..n], a);
      BoardRowsExact(boards[n], |boards[n].cells|, a);
      LastBoard(boards, a);
    }
  }

  lemma RowsStep(boards: seq<Board>, b: nat)
    requires b < |boards|
    ensures Rows(boards[..b + 1]) == Rows(boards[..b]) + BoardRows(boards[b], |boards[b].cells|)
  {
    assert boards[..b + 1][..b] == boards[..b] && boards[..b + 1][b] == boards[b];
  }

  predicate SameSlot(a: Answer, b: Answer) {
    a.board == b.board && a.cell == b.cell && a.player == b.player
  }

  /** The primary key of an answer row decides the whole row. */
  lemma SlotDecides(boards: seq<Board>, a: Answer, b: Answer)
    requires DistinctBoards(boards) && a in Rows(boards) && b in Rows(boards) && SameSlot(a, b)
    ensures a == b
  {
    RowsExact(boards, a);
    RowsExact(boards, b);
  }

  /** INSERT ... ON CONFLICT (board, cell, player) DO NOTHING. */
  function InsertNew(stored: set<Answer>, rows: seq<Answer>): set<Answer> {
    stored + set a | a in rows && forall b | b in stored :: !SameSlot(a, b)
  }

  lemma InsertNewIsUnion(boards: seq<Board>, stored: set<Answer>, rows: seq<Answer>)
    requires DistinctBoards(boards) && stored <= Elements(Rows(boards)) && Elements(rows) <= Elements(Rows(boards))
    ensures InsertNew(stored, rows) == stored + Elements(rows)
  {
    forall a | a in rows && !(forall b | b in stored :: !SameSlot(a, b)) ensures a in stored {
      var b :| b in stored && SameSlot(a, b);
      assert b in Elements(Rows(boards)) && a in Elements(rows) && a in Elements(Rows(boards));
      SlotDecides(boards, a, b);
    }
  }

  // ------------------------------------------------------------------------------------------------ counting

  /** A list has as many distinct entries as entries exactly when it repeats none. */
  lemma {:induction false} ElementsSize<T>(s: seq<T>)
    ensures |Elements(s)| <= |s|
    ensures |Elements(s)| == |s| <==> NoDup(s)
  {
    if s != [] {
      var n := |s| - 1;
      ElementsSize(s[..n]);
      assert s == s[..n] + [s[n]];
      assert Elements(s) == Elements(s[..n]) + {s[n]};
      if s[n] in s[..n] {
        assert Elements(s) == Elements(s[..n]);
        var i :| 0 <= i < n && s[..n][i] == s[n];
        assert s[i] == s[n];
      }
    }
  }

  lemma NoDupAppend<T>(a: seq<T>, b: seq<T>)
    ensures NoDup(a + b) <==> NoDup(a) && NoDup(b) && forall x | x in a :: x !in b
  {
    var s := a + b;
    if NoDup(s) {
      forall i, j | 0 <= i < j < |a| ensures a[i] != a[j] {
        assert s[i] != s[j];
      }
      forall i, j | 0 <= i < j < |b| ensures b[i] != b[j] {
        assert s[|a| + i] != s[|a| + j];
      }
      forall x | x in a ensures x !in b {
        var i :| 0 <= i < |a| && a[i] == x;
        forall j | 0 <= j < |b| ensures b[j] != x {
          assert s[i] != s[|a| + j];
        }
      }
    }
    if NoDup(a) && NoDup(b) && forall x | x in a :: x !in b {
      forall i, j | 0 <= i < j < |s| ensures s[i] != s[j] {
        if i < |a| <= j {
          assert a[i] in a && b[j - |a|] in b;
        }
      }
    }
  }

  lemma CellRowsNoDup(board: BoardKey, index: nat, cell: Cell)
    ensures NoDup(CellRows(board, index, cell)) <==> NoDup(cell.players)
  {
    var rows := CellRows(board, index, cell);
    assert forall i | 0 <= i < |rows| :: rows[i].player == cell.players[i];
    assert forall i, j | 0 <= i < |rows| && 0 <= j < |rows| :: rows[i] == rows[j] <==> cell.players[i] == cell.players[j];
  }

  lemma {:induction false} BoardRowsNoDup(board: Board, n: nat)
    requires n <= |board.cells|
    ensures NoDup(BoardRows(board, n)) <==> forall c | 0 <= c < n :: NoDup(board.cells[c].players)
  {
    if n > 0 {
      BoardRowsNoDup(board, n - 1);
      CellRowsNoDup(board.key, n - 1, board.cells[n - 1]);
      var front, back := BoardRows(board, n - 1), CellRows(board.key, n - 1, board.cells[n - 1]);
      NoDupAppend(front, back);
      forall a | a in front ensures a !in back {
        BoardRowsExact(board, n - 1, a);
      }
    }
  }

  lemma {:induction false} RowsNoDup(boards: seq<Board>)
    requires DistinctBoards(boards)
    ensures NoDup(Rows(boards)) <==> DuplicateFree(boards)
  {
    if boards != [] {
      var n := |boards| - 1;
      RowsNoDup(boards[..n]);
      BoardRowsNoDup(boards[n], |boards[n].cells|);
      var front, back := Rows(boards[..n]), BoardRows(boards[n], |boards[n].cells|);
      NoDupAppend(front, back);
      forall a | a in front ensures a !in back {
        RowsExact(boards[..n], a);
        BoardRowsExact(boards[n], |boards[n].cells|, a);
      }
      assert DuplicateFree(boards) <==> DuplicateFree(boards[..n]) && forall c | 0 <= c < |boards[n].cells| :: NoDup(boards[n].cells[c].players) by {
        assert forall b | 0 <= b < n :: boards[..n][b] == boards[b];
      }
    }
  }

  lemma SubsetOfSize<T>(a: set<T>, b: set<T>)
    requires a <= b && |a| >= |b|
    ensures a == b
  {
    assert b == a + (b - a);
    assert |b| == |a| + |b - a|;
  }

  /**
   * The count test: stored rows are some of the manifest's rows, so equal counts mean the stored set is exactly the
   * manifest's and no cell lists a player twice.
   */
  lemma CountForcesEquality(boards: seq<Board>, stored: set<Answer>)
    requires DistinctBoards(boards) && stored <= Elements(Rows(boards))
    ensures |stored| == |Rows(boards)| <==> stored == Elements(Rows(boards)) && DuplicateFree(boards)
    ensures |stored| <= |Rows(boards)|
  {
    var all := Elements(Rows(boards));
    ElementsSize(Rows(boards));
    RowsNoDup(boards);
    assert |all| == |stored| + |all - stored| by {
      assert all == stored + (all - stored);
    }
    if |stored| == |Rows(boards)| {
      SubsetOfSize(stored, all);
    }
  }

  /** The same for one board: the rows publish may skip. */
  lemma BoardCountForcesEquality(board: Board, stored: set<Answer>)
    requires stored <= Elements(BoardRows(board, |board.cells|))
    ensures |stored| == |BoardRows(board, |board.cells|)| ==> stored == Elements(BoardRows(board, |board.cells|))
    ensures |stored| <= |BoardRows(board, |board.cells|)|
  {
    var all := Elements(BoardRows(board, |board.cells|));
    ElementsSize(BoardRows(board, |board.cells|));
    assert |all| == |stored| + |all - stored| by {
      assert all == stored + (all - stored);
    }
    if |stored| == |BoardRows(board, |board.cells|)| {
      SubsetOfSize(stored, all);
    }
  }

  // ------------------------------------------------------------------------------------------------ sorted sets

  predicate IsLeast(s: set<PlayerId>, x: PlayerId) {
    x in s && forall y | y in s :: x <= y
  }

  lemma {:induction false} LeastExists(s: set<PlayerId>) returns (least: PlayerId)
    requires s != {}
    ensures IsLeast(s, least)
    decreases |s|
  {
    var x :| x in s;
    var rest := s - {x};
    least := x;
    if rest == {} {
      assert s == {x};
    } else {
      var m := LeastExists(rest);
      least := if x <= m then x else m;
      assert forall y | y in s :: y == x || y in rest;
    }
  }

  function Least(s: set<PlayerId>): (x: PlayerId)
    requires s != {}
    ensures x in s && forall y | y in s :: x <= y
  {
    assert exists x :: x in s && IsLeast(s, x) by {
      var least := LeastExists(s);
    }
    var x :| x in s && IsLeast(s, x);
    x
  }

  /** The intersection in sorted order. */
  function Sorted(s: set<PlayerId>): (list: seq<PlayerId>)
    ensures |list| == |s| && Elements(list) == s
    decreases |s|
  {
    if s == {} then [] else
      var x := Least(s);
      var rest := Sorted(s - {x});
      assert forall y :: y in [x] + rest <==> y == x || y in Elements(rest);
      [x] + rest
  }
}
