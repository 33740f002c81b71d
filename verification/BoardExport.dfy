/**
 * projectExportedBoards: boards and players rebuilt from stored answer rows, and what becomes of a cell that is
 * written by publish and read back by export.
 */
module BoardExport {
  import opened Wrappers
  import opened ReleaseContent

  const CELLS := 9

  /** A player's display record; an empty text is a missing one. */
  datatype Display = Display(nameEn: string, nameKa: string, image: string)

  /** A stored answer row as the query returns it. */
  datatype Row = Row(answer: Answer, display: Display, isSample: bool)

  predicate Complete(d: Display) {
    d.nameEn != "" && d.nameKa != "" && d.image != ""
  }

  predicate RowFine(row: Row) {
    row.isSample == row.answer.rank.Some? && Complete(row.display)
  }

  ghost predicate Consistent(rows: seq<Row>) {
    forall i, j | 0 <= i < j < |rows| && rows[i].answer.player == rows[j].answer.player :: rows[i].display == rows[j].display
  }

  function OfCell(rows: seq<Row>, board: BoardKey, cell: nat): seq<Answer> {
    if rows == [] then []
    else
      var last := rows[|rows| - 1].answer;
      OfCell(rows[..|rows| - 1], board, cell) + (if last.board == board && last.cell == cell then [last] else [])
  }

  function Rank(a: Answer): nat {
    match a.rank case None => 0 case Some(r) => r
  }

  function InsertByRank(a: Answer, sorted: seq<Answer>): seq<Answer> {
    if sorted == [] || Rank(a) <= Rank(sorted[0]) then [a] + sorted else [sorted[0]] + InsertByRank(a, sorted[1..])
  }

  /** The samples of a cell, stably sorted by rank. */
  function Samples(answers: seq<Answer>): seq<Answer> {
    if answers == [] then []
    else if answers[0].rank.Some? then InsertByRank(answers[0], Samples(answers[1..]))
    else Samples(answers[1..])
  }

  /** The rows that have a rank. */
  function RankedRows(answers: seq<Answer>): multiset<Answer> {
    if answers == [] then multiset{}
    else RankedRows(answers[1..]) + if answers[0].rank.Some? then multiset{answers[0]} else multiset{}
  }

  /** Rows with ranks, none before one of a smaller rank. */
  predicate ByRank(sorted: seq<Answer>) {
    && (forall i | 0 <= i < |sorted| :: sorted[i].rank.Some?)
    && forall i, j | 0 <= i < j < |sorted| :: sorted[i].rank.value <= sorted[j].rank.value
  }

  lemma {:induction false} InsertAdds(a: Answer, sorted: seq<Answer>)
    ensures multiset(InsertByRank(a, sorted)) == multiset(sorted) + multiset{a}
  {
    if sorted != [] {
      assert sorted == [sorted[0]] + sorted[1..];
      InsertAdds(a, sorted[1..]);
    }
  }

  lemma {:induction false} InsertSorts(a: Answer, sorted: seq<Answer>)
    requires a.rank.Some? && ByRank(sorted)
    ensures ByRank(InsertByRank(a, sorted))
    ensures forall b | b in InsertByRank(a, sorted) :: b == a || b in sorted
  {
    if sorted != [] && Rank(a) > Rank(sorted[0]) {
      var first, rest := sorted[0], sorted[1..];
      assert forall i | 0 <= i < |rest| :: rest[i] == sorted[i + 1];
      InsertSorts(a, rest);
      var more := InsertByRank(a, rest);
      forall j | 0 <= j < |more| ensures first.rank.value <= more[j].rank.value {
        assert more[j] in more;
      }
      assert forall b | b in rest :: b in sorted;
    }
  }

  /** The samples are the rows that have a rank, by rank. */
  lemma {:induction false} SamplesSorted(answers: seq<Answer>)
    ensures ByRank(Samples(answers)) && multiset(Samples(answers)) == RankedRows(answers)
  {
    if answers != [] {
      SamplesSorted(answers[1..]);
      var rest := Samples(answers[1..]);
      if answers[0].rank.Some? {
        InsertSorts(answers[0], rest);
        InsertAdds(answers[0], rest);
      }
    }
  }

  predicate Contiguous(samples: seq<Answer>) {
    forall i | 0 <= i < |samples| :: samples[i].rank == Some(i + 1)
  }

  function Players(answers: seq<Answer>): seq<PlayerId> {
    seq(|answers|, i requires 0 <= i < |answers| => answers[i].player)
  }

  function ExportedCell(answers: seq<Answer>): Cell {
    Cell(Players(answers), Players(Samples(answers)))
  }

  /** One board's nine cells; an error when some cell's sample ranks are not 1..n. */
  method ProjectBoard(rows: seq<Row>, board: BoardKey) returns (r: Option<Board>)
    ensures r.Some? <==> forall c | 0 <= c < CELLS :: Contiguous(Samples(OfCell(rows, board, c)))
    ensures r.Some? ==>
      && r.value.key == board && |r.value.cells| == CELLS
      && forall c | 0 <= c < CELLS :: r.value.cells[c] == ExportedCell(OfCell(rows, board, c))
  {
    var cells: seq<Cell> := [];
    for c := 0 to CELLS
      invariant |cells| == c
      invariant forall k | 0 <= k < c :: Contiguous(Samples(OfCell(rows, board, k))) && cells[k] == ExportedCell(OfCell(rows, board, k))
    {
      var answers := OfCell(rows, board, c);
      var samples := Samples(answers);
      for i := 0 to |samples|
        invariant forall k | 0 <= k < i :: samples[k].rank == Some(k + 1)
      {
        if samples[i].rank != Some(i + 1) {
          assert !Contiguous(Samples(OfCell(rows, board, c)));
          return None;
        }
      }
      cells := cells + [ExportedCell(answers)];
    }
    r := Some(Board(board, cells));
  }

  /** Every row's flags and display record, and one display record per player. */
  method CollectPlayers(rows: seq<Row>) returns (r: Option<map<PlayerId, Display>>)
    ensures r.Some? <==>
      && (forall row | row in rows ::
            && row.isSample == row.answer.rank.Some?
            && row.display.nameEn != "" && row.display.nameKa != "" && row.display.image != "")
      && Consistent(rows)
    ensures r.Some? ==> forall row | row in rows :: row.answer.player in r.value && r.value[row.answer.player] == row.display
    ensures r.Some? ==> forall p | p in r.value :: exists row | row in rows :: row.answer.player == p
  {
    var players: map<PlayerId, Display> := map[];
    for i := 0 to |rows|
      invariant forall k | 0 <= k < i :: RowFine(rows[k]) && rows[k].answer.player in players && players[rows[k].answer.player] == rows[k].display
      invariant forall p | p in players :: exists k | 0 <= k < i :: rows[k].answer.player == p
    {
      var row := rows[i];
      if !RowFine(row) {
        return None;
      }
      if row.answer.player in players && players[row.answer.player] != row.display {
        ghost var k :| 0 <= k < i && rows[k].answer.player == row.answer.player;
        assert rows[k].display != row.display;
        return None;
      }
      players := players[row.answer.player := row.display];
    }
    r := Some(players);
  }

  /** What the projection accepts. */
  ghost predicate Exportable(boards: seq<BoardKey>, rows: seq<Row>) {
    && (forall row | row in rows :: RowFine(row)) && Consistent(rows)
    && forall b, c | b in boards && 0 <= c < CELLS :: Contiguous(Samples(OfCell(rows, b, c)))
  }

  function ExportedBoard(board: BoardKey, rows: seq<Row>): Board {
    Board(board, seq(CELLS, c requires 0 <= c < CELLS => ExportedCell(OfCell(rows, board, c))))
  }

  function ExportedBoards(boards: seq<BoardKey>, rows: seq<Row>): seq<Board> {
    seq(|boards|, b requires 0 <= b < |boards| => ExportedBoard(boards[b], rows))
  }

  /** One display record for every player of a row, and for nobody else. */
  ghost predicate DisplaysOf(players: map<PlayerId, Display>, rows: seq<Row>) {
    && (forall row | row in rows :: row.answer.player in players && players[row.answer.player] == row.display)
    && (forall p | p in players :: exists row | row in rows :: row.answer.player == p)
  }

  method ProjectExportedBoards(boards: seq<BoardKey>, rows: seq<Row>) returns (r: Result<(seq<Board>, map<PlayerId, Display>)>)
    ensures r.Ok? <==> Exportable(boards, rows)
    ensures r.Ok? ==> r.value.0 == ExportedBoards(boards, rows) && DisplaysOf(r.value.1, rows)
  {
    var players := CollectPlayers(rows);
    if players.None? {
      return Err("rows disagree or are incomplete");
    }
    var projected: seq<Board> := [];
    for b := 0 to |boards|
      invariant |projected| == b
      invariant forall k | 0 <= k < b :: projected[k] == ExportedBoard(boards[k], rows)
      invariant forall k, c | 0 <= k < b && 0 <= c < CELLS :: Contiguous(Samples(OfCell(rows, boards[k], c)))
    {
      var board := ProjectBoard(rows, boards[b]);
      if board.None? {
        return Err("sample ranks are not 1..n");
      }
      assert board.value.cells == ExportedBoard(boards[b], rows).cells;
      projected := projected + [board.value];
    }
    r := Ok((projected, players.value));
  }

  // ------------------------------------------------------------------------------------------------ writing and reading a cell

  /** What publish stores of a cell. */
  function Written(board: BoardKey, index: nat, cell: Cell): set<Answer> {
    Elements(CellRows(board, index, cell))
  }

  /** ORDER BY recognizable_rank NULLS LAST, football_player_id */
  predicate Before(a: Answer, b: Answer) {
    if a.rank.Some? && b.rank.Some? then a.rank.value < b.rank.value || (a.rank == b.rank && a.player < b.player)
    else if a.rank == b.rank then a.player < b.player
    else a.rank.Some?
  }

  /** The query's answer: the stored rows, each once, in that order. */
  ghost predicate Listed(answers: seq<Answer>, stored: set<Answer>) {
    && Elements(answers) == stored
    && forall i, j | 0 <= i < j < |answers| :: Before(answers[i], answers[j])
  }

  /** The sample at `i` is a player of the cell and its first mention. */
  predicate Counts(cell: Cell, i: nat)
    requires i < |cell.samples|
  {
    cell.samples[i] in cell.players && cell.samples[i] !in cell.samples[..i]
  }

  /** No sample that counts comes after one that does not. */
  ghost predicate CountingFirst(cell: Cell) {
    forall i, j | 0 <= i < j < |cell.samples| && Counts(cell, j) :: Counts(cell, i)
  }

  /** The samples are distinct players of the cell. */
  ghost predicate SamplesSound(cell: Cell) {
    forall i | 0 <= i < |cell.samples| :: Counts(cell, i)
  }

  function CountingSamples(cell: Cell, n: nat): seq<PlayerId>
    requires n <= |cell.samples|
  {
    if n == 0 then []
    else CountingSamples(cell, n - 1) + (if Counts(cell, n - 1) then [cell.samples[n - 1]] else [])
  }

  lemma RankIsFirst(samples: seq<PlayerId>, p: PlayerId)
    ensures RankIs(samples, p, RankIn(samples, p))
  {
    RankExact(samples, p, RankIn(samples, p));
  }

  lemma FirstIsRank(samples: seq<PlayerId>, i: nat)
    requires i < |samples| && samples[i] !in samples[..i]
    ensures RankIn(samples, samples[i]) == Some(i + 1)
  {
    RankExact(samples, samples[i], Some(i + 1));
  }

  /** A stored row has the rank. */
  predicate Stored(stored: set<Answer>, r: nat) {
    exists a | a in stored :: a.rank == Some(r)
  }

  predicate Ranked(s: seq<Answer>, r: nat) {
    exists i | 0 <= i < |s| :: s[i].rank == Some(r)
  }

  /** The ranks that are stored are the positions of the samples that count. */
  lemma WrittenRanks(board: BoardKey, index: nat, cell: Cell, r: nat)
    ensures Stored(Written(board, index, cell), r)
       <==> 1 <= r <= |cell.samples| && Counts(cell, r - 1)
  {
    var rows := CellRows(board, index, cell);
    if exists a | a in Written(board, index, cell) :: a.rank == Some(r) {
      var a :| a in Written(board, index, cell) && a.rank == Some(r);
      var i :| 0 <= i < |rows| && rows[i] == a;
      RankIsFirst(cell.samples, cell.players[i]);
    }
    if 1 <= r <= |cell.samples| && Counts(cell, r - 1) {
      FirstIsRank(cell.samples, r - 1);
      var i :| 0 <= i < |cell.players| && cell.players[i] == cell.samples[r - 1];
      assert rows[i] in Written(board, index, cell) && rows[i].rank == Some(r);
    }
  }

  lemma WrittenRow(board: BoardKey, index: nat, cell: Cell, a: Answer)
    ensures a in Written(board, index, cell) <==>
      a.board == board && a.cell == index && a.player in cell.players && RankIs(cell.samples, a.player, a.rank)
  {
    RankExact(cell.samples, a.player, a.rank);
    var rows := CellRows(board, index, cell);
    if a in rows {
      var i :| 0 <= i < |rows| && rows[i] == a;
      assert cell.players[i] in cell.players;
    }
    if a.board == board && a.cell == index && a.player in cell.players && a.rank == RankIn(cell.samples, a.player) {
      var i :| 0 <= i < |cell.players| && cell.players[i] == a.player;
      assert rows[i] == a;
    }
  }

  // ------------------------------------------------------------------------------------------------ the samples of a listing

  predicate Ascending(answers: seq<Answer>) {
    forall i, j | 0 <= i < j < |answers| :: Before(answers[i], answers[j])
  }

  lemma {:induction false} NoSamples(answers: seq<Answer>)
    requires forall i | 0 <= i < |answers| :: answers[i].rank.None?
    ensures Samples(answers) == []
  {
    if answers != [] {
      NoSamples(answers[1..]);
    }
  }

  /** In the query's order the samples come first, in rank order, so sorting them changes nothing. */
  lemma {:induction false} SamplesAreFront(answers: seq<Answer>)
    requires Ascending(answers)
    ensures var s := Samples(answers);
      && s <= answers
      && (forall i | 0 <= i < |s| :: s[i].rank.Some?)
      && (forall i | |s| <= i < |answers| :: answers[i].rank.None?)
  {
    if answers != [] {
      var rest := answers[1..];
      assert Ascending(rest) by {
        forall i, j | 0 <= i < j < |rest| ensures Before(rest[i], rest[j]) {
          assert rest[i] == answers[i + 1] && rest[j] == answers[j + 1];
        }
      }
      SamplesAreFront(rest);
      var s := Samples(rest);
      if answers[0].rank.Some? {
        if s != [] {
          assert s[0] == rest[0] == answers[1];
          assert Before(answers[0], answers[1]);
        }
        assert Samples(answers) == [answers[0]] + s;
        assert forall i | 1 <= i < |answers| :: answers[i] == rest[i - 1];
      } else {
        forall i | 0 <= i < |rest| ensures rest[i].rank.None? {
          assert Before(answers[0], answers[i + 1]);
        }
        NoSamples(rest);
        assert forall i | 1 <= i < |answers| :: answers[i] == rest[i - 1];
      }
    }
  }

  /** A rank is stored exactly when a sample of the listing has it. */
  lemma ListedRank(answers: seq<Answer>, stored: set<Answer>, r: nat)
    requires Listed(answers, stored)
    requires forall a, b | a in stored && b in stored && a.rank == b.rank && a.rank.Some? :: a == b
    ensures Stored(stored, r) <==> Ranked(Samples(answers), r)
  {
    SamplesAreFront(answers);
    var s := Samples(answers);
    if exists a | a in stored :: a.rank == Some(r) {
      var a :| a in stored && a.rank == Some(r);
      assert a in Elements(answers);
      var i :| 0 <= i < |answers| && answers[i] == a;
      assert s[i].rank == Some(r);
    }
    if i :| 0 <= i < |s| && s[i].rank == Some(r) {
      assert answers[i] in Elements(answers);
    }
  }

  lemma ListedSamples(answers: seq<Answer>, stored: set<Answer>)
    requires Listed(answers, stored)
    requires forall a, b | a in stored && b in stored && a.rank == b.rank && a.rank.Some? :: a == b
    ensures var s := Samples(answers);
      && (forall i | 0 <= i < |s| :: s[i].rank.Some? && s[i] in stored)
      && (forall i, j | 0 <= i < j < |s| :: s[i].rank.value < s[j].rank.value)
  {
    SamplesAreFront(answers);
    var s := Samples(answers);
    forall i, j | 0 <= i < j < |s| ensures s[i].rank.value < s[j].rank.value {
      assert Before(answers[i], answers[j]) && answers[i] in Elements(answers) && answers[j] in Elements(answers);
    }
  }

  /** Increasing positive ranks are 1..n exactly when no rank below a used one is unused. */
  lemma {:induction false} ContiguousExact(s: seq<Answer>, k: nat)
    requires forall i | 0 <= i < |s| :: s[i].rank.Some? && s[i].rank.value >= 1
    requires forall i, j | 0 <= i < j < |s| :: s[i].rank.value < s[j].rank.value
    requires forall r: nat, q: nat | 1 <= q < r && Ranked(s, r) :: Ranked(s, q)
    requires k < |s|
    ensures s[k].rank == Some(k + 1)
    decreases k
  {
    if k > 0 {
      ContiguousExact(s, k - 1);
    }
    assert Ranked(s, s[k].rank.value);
    assert Ranked(s, k + 1);
    var i :| 0 <= i < |s| && s[i].rank == Some(k + 1);
    assert i >= k;
  }

  lemma WrittenRanksDiffer(board: BoardKey, index: nat, cell: Cell)
    ensures forall a, b | a in Written(board, index, cell) && b in Written(board, index, cell) && a.rank == b.rank && a.rank.Some? :: a == b
    ensures forall a | a in Written(board, index, cell) && a.rank.Some? ::
      1 <= a.rank.value <= |cell.samples| && a.player == cell.samples[a.rank.value - 1]
  {
    forall a | a in Written(board, index, cell)
      ensures a.board == board && a.cell == index
      ensures a.rank.Some? ==> 1 <= a.rank.value <= |cell.samples| && a.player == cell.samples[a.rank.value - 1]
    {
      WrittenRow(board, index, cell, a);
      RankIsFirst(cell.samples, a.player);
    }
  }

  lemma {:induction false} CountingPrefix(cell: Cell, n: nat)
    requires n <= |cell.samples| && forall i | 0 <= i < n :: Counts(cell, i)
    ensures CountingSamples(cell, n) == cell.samples[..n]
  {
    if n > 0 {
      CountingPrefix(cell, n - 1);
    }
  }

  lemma {:induction false} NothingCounts(cell: Cell, n: nat, m: nat)
    requires n <= m <= |cell.samples| && forall i | n <= i < m :: !Counts(cell, i)
    ensures CountingSamples(cell, m) == CountingSamples(cell, n)
    decreases m
  {
    if n < m {
      NothingCounts(cell, n, m - 1);
    }
  }

  /**
   * Reading back a written cell. It succeeds exactly when no sample that counts comes after one that does not; then
   * the player set is the cell's and the samples are the ones that count, in order. They are the cell's own samples
   * exactly when those are distinct players of the cell.
   */
  lemma WriteThenExport(board: BoardKey, index: nat, cell: Cell, answers: seq<Answer>)
    requires Listed(answers, Written(board, index, cell))
    ensures Contiguous(Samples(answers)) <==> CountingFirst(cell)
    ensures Elements(ExportedCell(answers).players) == Elements(cell.players)
    ensures Contiguous(Samples(answers)) ==>
      && ExportedCell(answers).samples == CountingSamples(cell, |cell.samples|)
      && |Samples(answers)| <= |cell.samples|
      && ExportedCell(answers).samples == cell.samples[..|Samples(answers)|]
      && (forall i | 0 <= i < |cell.samples| :: Counts(cell, i) <==> i < |Samples(answers)|)
    ensures Contiguous(Samples(answers)) ==> (ExportedCell(answers).samples == cell.samples <==> SamplesSound(cell))
  {
    var s := Samples(answers);
    ReadRanks(board, index, cell, answers);
    PlayersRead(board, index, cell, answers);
    if CountingFirst(cell) {
      CountingIsContiguous(cell, s);
    }
    if Contiguous(s) {
      ContiguousReads(cell, s);
      assert ExportedCell(answers).samples == cell.samples[..|s|];
      CountingPrefix(cell, |s|);
      NothingCounts(cell, |s|, |cell.samples|);
    }
  }

  /** What a listing's samples are for a written cell: in rank order, one for every sample that counts. */
  ghost predicate Reading(cell: Cell, s: seq<Answer>) {
    && (forall r: nat :: Ranked(s, r) <==> 1 <= r <= |cell.samples| && Counts(cell, r - 1))
    && (forall i | 0 <= i < |s| :: s[i].rank.Some? && 1 <= s[i].rank.value <= |cell.samples|
                                   && s[i].player == cell.samples[s[i].rank.value - 1])
    && (forall i, j | 0 <= i < j < |s| :: s[i].rank.value < s[j].rank.value)
  }

  /** Concrete cells: a sample that is no player in front of one that is makes the export fail; behind it, it is lost. */
  lemma StraySamples(player: PlayerId, stray: PlayerId)
    requires player != stray
    ensures !CountingFirst(Cell([player], [stray, player]))
    ensures CountingFirst(Cell([player], [player, stray])) && !SamplesSound(Cell([player], [player, stray]))
    ensures CountingSamples(Cell([player], [player, stray]), 2) == [player]
  {
    var front, back := Cell([player], [stray, player]), Cell([player], [player, stray]);
    assert front.samples[0] == stray && front.samples[1] == player && front.samples[..1] == [stray];
    assert !Counts(front, 0) && Counts(front, 1);
    assert back.samples[0] == player && back.samples[1] == stray && back.samples[..0] == [];
    assert Counts(back, 0) && !Counts(back, 1);
    assert CountingSamples(back, 1) == CountingSamples(back, 0) + [player];
    assert [] + [player] == [player];
  }

  lemma ReadRanks(board: BoardKey, index: nat, cell: Cell, answers: seq<Answer>)
    requires Listed(answers, Written(board, index, cell))
    ensures Reading(cell, Samples(answers))
  {
    var stored := Written(board, index, cell);
    var s := Samples(answers);
    WrittenRanksDiffer(board, index, cell);
    ListedSamples(answers, stored);
    forall r: nat ensures Ranked(s, r) <==> 1 <= r <= |cell.samples| && Counts(cell, r - 1) {
      WrittenRanks(board, index, cell, r);
      ListedRank(answers, stored, r);
    }
  }

  lemma CountingIsContiguous(cell: Cell, s: seq<Answer>)
    requires Reading(cell, s) && CountingFirst(cell)
    ensures Contiguous(s)
  {
    forall r, q: nat | 1 <= q < r && Ranked(s, r)
      ensures Ranked(s, q)
    {
      assert Counts(cell, r - 1) && Counts(cell, q - 1);
    }
    forall k | 0 <= k < |s| ensures s[k].rank == Some(k + 1) {
      ContiguousExact(s, k);
    }
  }

  lemma ContiguousReads(cell: Cell, s: seq<Answer>)
    requires Reading(cell, s) && Contiguous(s)
    ensures |s| <= |cell.samples| && (forall i | 0 <= i < |s| :: s[i].player == cell.samples[i])
    ensures forall i | 0 <= i < |cell.samples| :: Counts(cell, i) <==> i < |s|
  {
    if s != [] {
      assert s[|s| - 1].rank == Some(|s|);
    }
    forall i | 0 <= i < |cell.samples| ensures Counts(cell, i) <==> i < |s| {
      RankUsed(cell, s, i);
    }
  }

  lemma RankUsed(cell: Cell, s: seq<Answer>, i: nat)
    requires Reading(cell, s) && Contiguous(s) && i < |cell.samples|
    ensures Counts(cell, i) <==> i < |s|
  {
    var r: nat := i + 1;
    assert Ranked(s, r) <==> Counts(cell, i);
    if i < |s| {
      assert s[i].rank == Some(r);
    }
  }

  lemma PlayersRead(board: BoardKey, index: nat, cell: Cell, answers: seq<Answer>)
    requires Listed(answers, Written(board, index, cell))
    ensures Elements(Players(answers)) == Elements(cell.players)
  {
    forall p ensures p in Players(answers) <==> p in cell.players {
      if p in Players(answers) {
        var i :| 0 <= i < |answers| && answers[i].player == p;
        assert answers[i] in Elements(answers);
        WrittenRow(board, index, cell, answers[i]);
      }
      if p in cell.players {
        var a := Answer(board, index, p, RankIn(cell.samples, p));
        RankIsFirst(cell.samples, p);
        WrittenRow(board, index, cell, a);
        assert a in Elements(answers);
        var i :| 0 <= i < |answers| && answers[i] == a;
        assert Players(answers)[i] == p;
      }
    }
  }

  // ------------------------------------------------------------------------------------------------ the fixed point

  lemma {:induction false} ListingUnique(a: seq<Answer>, b: seq<Answer>)
    requires Ascending(a) && Ascending(b) && Elements(a) == Elements(b)
    ensures a == b
  {
    assert b == [] <==> Elements(b) == {} by {
      NonEmptyElements(b);
    }
    if a != [] {
      assert a[0] in Elements(b);
      var j :| 0 <= j < |b| && b[j] == a[0];
      assert b[0] in Elements(a);
      var i :| 0 <= i < |a| && a[i] == b[0];
      assert a[0] == b[0];
      forall x ensures x in a[1..] <==> x in b[1..] {
        assert x in a <==> x == a[0] || x in a[1..];
        assert x in b <==> x == b[0] || x in b[1..];
        assert x in Elements(a) <==> x in Elements(b);
        NotInTail(a);
        NotInTail(b);
      }
      ListingUnique(a[1..], b[1..]);
    }
  }

  lemma NonEmptyElements(b: seq<Answer>)
    ensures b != [] ==> Elements(b) != {}
  {
    if b != [] {
      assert b[0] in Elements(b);
    }
  }

  lemma NotInTail(a: seq<Answer>)
    requires Ascending(a) && a != []
    ensures a[0] !in a[1..]
  {
    forall i | 0 < i < |a| ensures a[i] != a[0] {
      assert Before(a[0], a[i]);
    }
  }

  lemma {:induction false} RankInPrefix(samples: seq<PlayerId>, n: nat, p: PlayerId)
    requires n <= |samples| && (p in samples ==> p in samples[..n])
    ensures RankIn(samples[..n], p) == RankIn(samples, p)
  {
    if n > 0 && samples[0] != p {
      assert samples[..n][1..] == samples[1..][..n - 1];
      assert p in samples[1..] ==> p in samples[1..][..n - 1] by {
        assert samples == [samples[0]] + samples[1..] && samples[..n] == [samples[0]] + samples[1..][..n - 1];
      }
      RankInPrefix(samples[1..], n - 1, p);
    } else if n == 0 {
      RankIsFirst(samples, p);
    }
  }

  /** Publishing an exported cell stores the same rows again. */
  lemma ExportWritesSame(board: BoardKey, index: nat, cell: Cell, answers: seq<Answer>)
    requires Listed(answers, Written(board, index, cell)) && Contiguous(Samples(answers))
    ensures Written(board, index, ExportedCell(answers)) == Written(board, index, cell)
  {
    WriteThenExport(board, index, cell, answers);
    var back := ExportedCell(answers);
    var n := |Samples(answers)|;
    forall a ensures a in Written(board, index, back) <==> a in Written(board, index, cell) {
      WrittenRow(board, index, back, a);
      WrittenRow(board, index, cell, a);
      assert a.player in back.players <==> a.player in Elements(back.players);
      assert a.player in cell.players <==> a.player in Elements(cell.players);
      if a.player in cell.players {
        if a.player in cell.samples {
          RankIsFirst(cell.samples, a.player);
          var r := RankIn(cell.samples, a.player).value;
          assert Counts(cell, r - 1);
          assert cell.samples[..n][r - 1] == a.player;
        }
        RankInPrefix(cell.samples, n, a.player);
      }
    }
  }

  /** So a second export of the cell gives the same. */
  lemma ExportIsFixedPoint(board: BoardKey, index: nat, cell: Cell, answers: seq<Answer>, again: seq<Answer>)
    requires Listed(answers, Written(board, index, cell)) && Contiguous(Samples(answers))
    requires Listed(again, Written(board, index, ExportedCell(answers)))
    ensures ExportedCell(again) == ExportedCell(answers) && Contiguous(Samples(again))
  {
    ExportWritesSame(board, index, cell, answers);
    ListingUnique(answers, again);
  }
}
