/**
 * The board round trip of a whole release: publish writes the answer rows of all boards with their players' display
 * records, export queries them and projects them back.
 */
module ReleaseExport {
  import opened Wrappers
  import opened ReleaseContent
  import opened BoardExport

  /** The manifest's display records; a player it lacks is written with empty fields. */
  type Displays = map<PlayerId, Display>

  function DisplayOf(displays: Displays, p: PlayerId): Display {
    if p in displays then displays[p] else Display("", "", "")
  }

  function RowOf(displays: Displays, a: Answer): Row {
    Row(a, DisplayOf(displays, a.player), a.rank.Some?)
  }

  /** What publish stores of a release. */
  function WrittenRelease(boards: seq<Board>, displays: Displays): set<Row> {
    set a | a in Rows(boards) :: RowOf(displays, a)
  }

  /** ORDER BY board_id, cell_index, recognizable_rank NULLS LAST, football_player_id; boards come page by page. */
  ghost predicate QueryOrder(rows: seq<Row>) {
    forall i, j | 0 <= i < j < |rows| && rows[i].answer.board == rows[j].answer.board :: InBoardOrder(rows[i].answer, rows[j].answer)
  }

  predicate InBoardOrder(a: Answer, b: Answer) {
    a.cell < b.cell || (a.cell == b.cell && Before(a, b))
  }

  ghost predicate Queried(rows: seq<Row>, stored: set<Row>) {
    Elements(rows) == stored && QueryOrder(rows)
  }

  /** The boards' keys, in the order of their checksums. */
  ghost predicate KeysOf(keys: seq<BoardKey>, boards: seq<Board>) {
    && (forall k :: k in keys <==> exists b | 0 <= b < |boards| :: boards[b].key == k)
    && forall i, j | 0 <= i < j < |keys| :: keys[i] < keys[j]
  }

  ghost predicate NineCells(boards: seq<Board>) {
    forall b | b in boards :: |b.cells| == 9
  }

  /** A player of some cell. */
  ghost predicate ListedPlayer(boards: seq<Board>, p: PlayerId) {
    exists b, c | 0 <= b < |boards| && 0 <= c < |boards[b].cells| :: p in boards[b].cells[c].players
  }

  // ------------------------------------------------------------------------------------------------ the rows of one cell

  lemma {:induction false} OfCellMembers(rows: seq<Row>, board: BoardKey, cell: nat, a: Answer)
    ensures a in OfCell(rows, board, cell) <==> a.board == board && a.cell == cell && exists i | 0 <= i < |rows| :: rows[i].answer == a
  {
    if rows != [] {
      var n := |rows| - 1;
      OfCellMembers(rows[..n], board, cell, a);
      assert forall i | 0 <= i < n :: rows[..n][i] == rows[i];
    }
  }

  lemma {:induction false} OfCellAscends(rows: seq<Row>, board: BoardKey, cell: nat)
    requires QueryOrder(rows)
    ensures Ascending(OfCell(rows, board, cell))
  {
    if rows != [] {
      var n := |rows| - 1;
      assert forall i | 0 <= i < n :: rows[..n][i] == rows[i];
      OfCellAscends(rows[..n], board, cell);
      var before, last := OfCell(rows[..n], board, cell), rows[n].answer;
      if last.board == board && last.cell == cell {
        forall i | 0 <= i < |before| ensures Before(before[i], last) {
          assert before[i] in before;
          OfCellMembers(rows[..n], board, cell, before[i]);
          var k :| 0 <= k < n && rows[..n][k].answer == before[i];
          assert InBoardOrder(rows[k].answer, rows[n].answer);
        }
      }
    }
  }

  lemma RowsOfCell(boards: seq<Board>, b: nat, c: nat, a: Answer)
    requires DistinctBoards(boards) && b < |boards| && c < |boards[b].cells|
    ensures a in Rows(boards) && a.board == boards[b].key && a.cell == c <==> a in Written(boards[b].key, c, boards[b].cells[c])
  {
    RowsExact(boards, a);
    WrittenRow(boards[b].key, c, boards[b].cells[c], a);
    if a in Written(boards[b].key, c, boards[b].cells[c]) {
      assert IsAnswerOfBoard(boards[b], a);
    }
  }

  /** Export reads of every cell the listing of what publish wrote of it. */
  lemma CellListed(boards: seq<Board>, displays: Displays, rows: seq<Row>, b: nat, c: nat)
    requires DistinctBoards(boards) && Queried(rows, WrittenRelease(boards, displays)) && b < |boards| && c < |boards[b].cells|
    ensures Listed(OfCell(rows, boards[b].key, c), Written(boards[b].key, c, boards[b].cells[c]))
  {
    var answers := OfCell(rows, boards[b].key, c);
    OfCellAscends(rows, boards[b].key, c);
    forall a ensures a in answers <==> a in Written(boards[b].key, c, boards[b].cells[c]) {
      OfCellMembers(rows, boards[b].key, c, a);
      RowsOfCell(boards, b, c, a);
      QueriedAnswer(boards, displays, rows, a);
    }
  }

  lemma QueriedAnswer(boards: seq<Board>, displays: Displays, rows: seq<Row>, a: Answer)
    requires Queried(rows, WrittenRelease(boards, displays))
    ensures (exists i | 0 <= i < |rows| :: rows[i].answer == a) <==> a in Rows(boards)
    ensures a in Rows(boards) ==> RowOf(displays, a) in rows
  {
    if i :| 0 <= i < |rows| && rows[i].answer == a {
      assert rows[i] in Elements(rows);
    }
    if a in Rows(boards) {
      assert RowOf(displays, a) in WrittenRelease(boards, displays);
      assert RowOf(displays, a) in Elements(rows);
    }
  }

  lemma QueriedRow(boards: seq<Board>, displays: Displays, rows: seq<Row>, row: Row)
    requires Queried(rows, WrittenRelease(boards, displays))
    ensures row in rows <==> row.answer in Rows(boards) && row == RowOf(displays, row.answer)
  {
    assert row in rows <==> row in Elements(rows);
  }

  /** The players of the rows are the players of the cells. */
  lemma RowPlayers(boards: seq<Board>, p: PlayerId)
    ensures ListedPlayer(boards, p) <==> exists a | a in Rows(boards) :: a.player == p
  {
    if a :| a in Rows(boards) && a.player == p {
      RowsExact(boards, a);
      var b :| 0 <= b < |boards| && IsAnswerOfBoard(boards[b], a);
      assert p in boards[b].cells[a.cell].players;
    }
    if ListedPlayer(boards, p) {
      var b, c :| 0 <= b < |boards| && 0 <= c < |boards[b].cells| && p in boards[b].cells[c].players;
      var a := Answer(boards[b].key, c, p, RankIn(boards[b].cells[c].samples, p));
      RankExact(boards[b].cells[c].samples, p, a.rank);
      assert IsAnswerOfBoard(boards[b], a);
      RowsExact(boards, a);
    }
  }

  // ------------------------------------------------------------------------------------------------ the round trip

  /** The rows of a release always agree about a player, and are fine exactly when every listed player's display is complete. */
  lemma DisplaysFine(boards: seq<Board>, displays: Displays, rows: seq<Row>)
    requires Queried(rows, WrittenRelease(boards, displays))
    ensures Consistent(rows)
    ensures (forall row | row in rows :: RowFine(row)) <==> forall p | ListedPlayer(boards, p) :: Complete(DisplayOf(displays, p))
  {
    forall i | 0 <= i < |rows| ensures rows[i] == RowOf(displays, rows[i].answer) {
      QueriedRow(boards, displays, rows, rows[i]);
    }
    if forall row | row in rows :: RowFine(row) {
      forall p | ListedPlayer(boards, p) ensures Complete(DisplayOf(displays, p)) {
        RowPlayers(boards, p);
        var a :| a in Rows(boards) && a.player == p;
        QueriedRow(boards, displays, rows, RowOf(displays, a));
      }
    }
    if forall p | ListedPlayer(boards, p) :: Complete(DisplayOf(displays, p)) {
      forall row | row in rows ensures RowFine(row) {
        QueriedRow(boards, displays, rows, row);
        RowPlayers(boards, row.answer.player);
      }
    }
  }

  ghost predicate AllContiguous(keys: seq<BoardKey>, rows: seq<Row>) {
    forall b, c | b in keys && 0 <= c < CELLS :: Contiguous(Samples(OfCell(rows, b, c)))
  }

  ghost predicate AllCountingFirst(boards: seq<Board>) {
    forall b, c | 0 <= b < |boards| && 0 <= c < |boards[b].cells| :: CountingFirst(boards[b].cells[c])
  }

  lemma RanksFine(boards: seq<Board>, displays: Displays, keys: seq<BoardKey>, rows: seq<Row>)
    requires DistinctBoards(boards) && NineCells(boards) && KeysOf(keys, boards) && Queried(rows, WrittenRelease(boards, displays))
    ensures AllContiguous(keys, rows) <==> AllCountingFirst(boards)
  {
    forall b, c | 0 <= b < |boards| && 0 <= c < CELLS
      ensures Contiguous(Samples(OfCell(rows, boards[b].key, c))) <==> CountingFirst(boards[b].cells[c])
    {
      assert boards[b] in boards;
      CellListed(boards, displays, rows, b, c);
      WriteThenExport(boards[b].key, c, boards[b].cells[c], OfCell(rows, boards[b].key, c));
    }
    if AllContiguous(keys, rows) {
      forall b, c | 0 <= b < |boards| && 0 <= c < |boards[b].cells| ensures CountingFirst(boards[b].cells[c]) {
        assert boards[b] in boards && boards[b].key in keys;
      }
    }
    if AllCountingFirst(boards) {
      forall k, c | k in keys && 0 <= c < CELLS ensures Contiguous(Samples(OfCell(rows, k, c))) {
        var b :| 0 <= b < |boards| && boards[b].key == k;
        assert boards[b] in boards;
      }
    }
  }

  /** The exported board of a key holds the same cells: the same players, and the samples that count, in order. */
  ghost predicate SameCells(written: Board, exported: Board) {
    && exported.key == written.key && |exported.cells| == |written.cells|
    && forall c | 0 <= c < |written.cells| ::
      && Elements(exported.cells[c].players) == Elements(written.cells[c].players)
      && exported.cells[c].samples == CountingSamples(written.cells[c], |written.cells[c].samples|)
      && (exported.cells[c].samples == written.cells[c].samples <==> SamplesSound(written.cells[c]))
  }

  /**
   * Exporting a written release succeeds exactly when in every cell the samples that count come first and every listed
   * player's display record is there and complete. It then gives back one board per key with the same cells, and the
   * display records as they were.
   */
  lemma ReleaseRoundTrip(boards: seq<Board>, displays: Displays, keys: seq<BoardKey>, rows: seq<Row>)
    requires DistinctBoards(boards) && NineCells(boards) && KeysOf(keys, boards) && Queried(rows, WrittenRelease(boards, displays))
    ensures Exportable(keys, rows) <==>
      AllCountingFirst(boards) && forall p | ListedPlayer(boards, p) :: Complete(DisplayOf(displays, p))
    ensures Exportable(keys, rows) ==> forall b | 0 <= b < |boards| :: SameCells(boards[b], ExportedBoard(boards[b].key, rows))
    ensures forall players: Displays, p | DisplaysOf(players, rows) ::
      (p in players <==> ListedPlayer(boards, p)) && (p in players ==> players[p] == DisplayOf(displays, p))
  {
    DisplaysFine(boards, displays, rows);
    RanksFine(boards, displays, keys, rows);
    if Exportable(keys, rows) {
      forall b | 0 <= b < |boards| ensures SameCells(boards[b], ExportedBoard(boards[b].key, rows)) {
        BoardReadsBack(boards, displays, keys, rows, b);
      }
    }
    forall players: Displays, p | DisplaysOf(players, rows)
      ensures (p in players <==> ListedPlayer(boards, p)) && (p in players ==> players[p] == DisplayOf(displays, p))
    {
      DisplaysReadBack(boards, displays, rows, players, p);
    }
  }

  lemma BoardReadsBack(boards: seq<Board>, displays: Displays, keys: seq<BoardKey>, rows: seq<Row>, b: nat)
    requires DistinctBoards(boards) && NineCells(boards) && KeysOf(keys, boards) && Queried(rows, WrittenRelease(boards, displays))
    requires b < |boards| && Exportable(keys, rows)
    ensures SameCells(boards[b], ExportedBoard(boards[b].key, rows))
  {
    var key := boards[b].key;
    assert boards[b] in boards && key in keys;
    forall c | 0 <= c < CELLS
      ensures var cell := ExportedBoard(key, rows).cells[c];
        && Elements(cell.players) == Elements(boards[b].cells[c].players)
        && cell.samples == CountingSamples(boards[b].cells[c], |boards[b].cells[c].samples|)
        && (cell.samples == boards[b].cells[c].samples <==> SamplesSound(boards[b].cells[c]))
    {
      CellListed(boards, displays, rows, b, c);
      WriteThenExport(key, c, boards[b].cells[c], OfCell(rows, key, c));
    }
  }

  lemma DisplaysReadBack(boards: seq<Board>, displays: Displays, rows: seq<Row>, players: Displays, p: PlayerId)
    requires Queried(rows, WrittenRelease(boards, displays)) && DisplaysOf(players, rows)
    ensures p in players <==> ListedPlayer(boards, p)
    ensures p in players ==> players[p] == DisplayOf(displays, p)
  {
    RowPlayers(boards, p);
    if p in players {
      var row :| row in rows && row.answer.player == p;
      QueriedRow(boards, displays, rows, row);
    }
    if ListedPlayer(boards, p) {
      var a :| a in Rows(boards) && a.player == p;
      QueriedRow(boards, displays, rows, RowOf(displays, a));
    }
  }

  // ------------------------------------------------------------------------------------------------ the fixed point

  /** Publishing what was exported stores the very rows that were exported. */
  lemma ExportedIsWritten(boards: seq<Board>, displays: Displays, keys: seq<BoardKey>, rows: seq<Row>, players: Displays)
    requires DistinctBoards(boards) && NineCells(boards) && KeysOf(keys, boards) && Queried(rows, WrittenRelease(boards, displays))
    requires Exportable(keys, rows) && DisplaysOf(players, rows)
    ensures WrittenRelease(ExportedBoards(keys, rows), players) == WrittenRelease(boards, displays)
  {
    var back := ExportedBoards(keys, rows);
    forall a ensures a in Rows(back) <==> a in Rows(boards) {
      ExportedAnswers(boards, displays, keys, rows, a);
    }
    forall a | a in Rows(boards) ensures RowOf(players, a) == RowOf(displays, a) {
      RowPlayers(boards, a.player);
      DisplaysReadBack(boards, displays, rows, players, a.player);
    }
    forall row ensures row in WrittenRelease(back, players) <==> row in WrittenRelease(boards, displays) {
      assert row in WrittenRelease(back, players) <==> row.answer in Rows(back) && row == RowOf(players, row.answer);
      assert row in WrittenRelease(boards, displays) <==> row.answer in Rows(boards) && row == RowOf(displays, row.answer);
    }
  }

  lemma ExportedAnswers(boards: seq<Board>, displays: Displays, keys: seq<BoardKey>, rows: seq<Row>, a: Answer)
    requires DistinctBoards(boards) && NineCells(boards) && KeysOf(keys, boards) && Queried(rows, WrittenRelease(boards, displays))
    requires Exportable(keys, rows)
    ensures a in Rows(ExportedBoards(keys, rows)) <==> a in Rows(boards)
  {
    var back := ExportedBoards(keys, rows);
    RowsExact(back, a);
    RowsExact(boards, a);
    if a in Rows(boards) {
      var b :| 0 <= b < |boards| && IsAnswerOfBoard(boards[b], a);
      assert boards[b] in boards && boards[b].key in keys;
      var k :| 0 <= k < |keys| && keys[k] == boards[b].key;
      CellKept(boards, displays, keys, rows, b, a);
      assert back[k] == ExportedBoard(boards[b].key, rows);
    }
    if a in Rows(back) {
      var k :| 0 <= k < |back| && IsAnswerOfBoard(back[k], a);
      assert keys[k] in keys;
      var b :| 0 <= b < |boards| && boards[b].key == keys[k];
      assert boards[b] in boards;
      CellKept(boards, displays, keys, rows, b, a);
    }
  }

  lemma CellKept(boards: seq<Board>, displays: Displays, keys: seq<BoardKey>, rows: seq<Row>, b: nat, a: Answer)
    requires DistinctBoards(boards) && NineCells(boards) && KeysOf(keys, boards) && Queried(rows, WrittenRelease(boards, displays))
    requires Exportable(keys, rows) && b < |boards|
    ensures IsAnswerOfBoard(ExportedBoard(boards[b].key, rows), a) <==> IsAnswerOfBoard(boards[b], a)
  {
    var key := boards[b].key;
    assert boards[b] in boards && key in keys;
    if a.cell < CELLS {
      var answers := OfCell(rows, key, a.cell);
      CellListed(boards, displays, rows, b, a.cell);
      ExportWritesSame(key, a.cell, boards[b].cells[a.cell], answers);
      WrittenRow(key, a.cell, boards[b].cells[a.cell], a);
      WrittenRow(key, a.cell, ExportedCell(answers), a);
    }
  }

  /** From the second time on export gives the same release: the boards of a re-published export read back as they are. */
  lemma SecondExportIsSame(boards: seq<Board>, displays: Displays, keys: seq<BoardKey>, rows: seq<Row>, players: Displays, again: seq<Row>)
    requires DistinctBoards(boards) && NineCells(boards) && KeysOf(keys, boards) && Queried(rows, WrittenRelease(boards, displays))
    requires Exportable(keys, rows) && DisplaysOf(players, rows)
    requires Queried(again, WrittenRelease(ExportedBoards(keys, rows), players))
    ensures Exportable(keys, again) && ExportedBoards(keys, again) == ExportedBoards(keys, rows)
    ensures forall later: Displays | DisplaysOf(later, again) :: later == players
  {
    ExportedIsWritten(boards, displays, keys, rows, players);
    SecondIsExportable(boards, displays, keys, rows, again);
    forall k | 0 <= k < |keys| ensures ExportedBoard(keys[k], again) == ExportedBoard(keys[k], rows) {
      assert keys[k] in keys;
      var b :| 0 <= b < |boards| && boards[b].key == keys[k];
      SameListing(boards, displays, rows, again, b);
    }
    forall later: Displays | DisplaysOf(later, again) ensures later == players {
      SameDisplays(boards, displays, rows, again, players, later);
    }
  }

  lemma SecondIsExportable(boards: seq<Board>, displays: Displays, keys: seq<BoardKey>, rows: seq<Row>, again: seq<Row>)
    requires DistinctBoards(boards) && NineCells(boards) && KeysOf(keys, boards) && Exportable(keys, rows)
    requires Queried(rows, WrittenRelease(boards, displays)) && Queried(again, WrittenRelease(boards, displays))
    ensures Exportable(keys, again)
  {
    DisplaysFine(boards, displays, rows);
    DisplaysFine(boards, displays, again);
    RanksFine(boards, displays, keys, rows);
    RanksFine(boards, displays, keys, again);
  }

  lemma SameDisplays(boards: seq<Board>, displays: Displays, rows: seq<Row>, again: seq<Row>, players: Displays, later: Displays)
    requires Queried(rows, WrittenRelease(boards, displays)) && DisplaysOf(players, rows)
    requires Queried(again, WrittenRelease(boards, displays)) && DisplaysOf(later, again)
    ensures later == players
  {
    forall p ensures (p in later <==> p in players) && (p in players ==> later[p] == players[p]) {
      DisplaysReadBack(boards, displays, rows, players, p);
      DisplaysReadBack(boards, displays, again, later, p);
    }
  }

  lemma SameListing(boards: seq<Board>, displays: Displays, rows: seq<Row>, again: seq<Row>, b: nat)
    requires DistinctBoards(boards) && NineCells(boards) && b < |boards|
    requires Queried(rows, WrittenRelease(boards, displays)) && Queried(again, WrittenRelease(boards, displays))
    ensures ExportedBoard(boards[b].key, again) == ExportedBoard(boards[b].key, rows)
  {
    assert boards[b] in boards;
    forall c | 0 <= c < CELLS ensures OfCell(again, boards[b].key, c) == OfCell(rows, boards[b].key, c) {
      CellListed(boards, displays, rows, b, c);
      CellListed(boards, displays, again, b, c);
      ListingUnique(OfCell(again, boards[b].key, c), OfCell(rows, boards[b].key, c));
    }
  }
}
