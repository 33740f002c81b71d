/**
 * Quarantine rows and their transfer to a release made from another one. The table is kept in the order of
 * (created_at, id), so "newer" means later in the sequence.
 */
module QuarantineTransfer {
  import opened Wrappers

  type ReleaseId = nat
  type BoardId = nat
  type Checksum = nat
  type Time = nat

  datatype Action = Disable | Enable

  /** A reason as it was given, or the one of the row it was carried from. */
  datatype Reason = Given(text: nat) | CarriedFrom(reason: Reason, release: ReleaseId)

  /** `board` is None for a row about the whole release; `expires` is None for a row without an end. */
  datatype Entry = Entry(release: ReleaseId, board: Option<BoardId>, action: Action, expires: Option<Time>, reason: Reason)

  /** The boards of a release, by canonical checksum. */
  type Boards = map<BoardId, Checksum>

  predicate Alive(e: Entry, now: Time) {
    e.expires.Some? ==> e.expires.value > now
  }

  predicate About(e: Entry, release: ReleaseId, board: BoardId) {
    e.release == release && e.board == Some(board)
  }

  /** A row the query counts: an unexpired disable with no newer enable for the same board. */
  predicate Effective(log: seq<Entry>, i: nat, now: Time)
    requires i < |log|
  {
    && log[i].action == Disable && log[i].board.Some? && Alive(log[i], now)
    && forall j | i < j < |log| :: !(About(log[j], log[i].release, log[i].board.value) && log[j].action == Enable)
  }

  predicate Disabled(log: seq<Entry>, release: ReleaseId, board: BoardId, now: Time) {
    exists i | 0 <= i < |log| :: About(log[i], release, board) && Effective(log, i, now)
  }

  /** Reading the log from its beginning: an unexpired disable sets the state, an enable clears it. */
  function Replay(log: seq<Entry>, release: ReleaseId, board: BoardId, now: Time): bool {
    if log == [] then false
    else
      var last := log[|log| - 1];
      var before := Replay(log[..|log| - 1], release, board, now);
      if last.release != release || last.board != Some(board) then before
      else if last.action == Enable then false
      else before || last.expires.None? || last.expires.value > now
  }

  /** The query's condition is the state the log leaves behind. */
  lemma {:induction false} QueryIsReplay(log: seq<Entry>, release: ReleaseId, board: BoardId, now: Time)
    ensures Disabled(log, release, board, now) <==> Replay(log, release, board, now)
  {
    if log != [] {
      var n := |log| - 1;
      QueryIsReplay(log[..n], release, board, now);
      if Disabled(log[..n], release, board, now) && !(About(log[n], release, board) && log[n].action == Enable) {
        var i :| 0 <= i < n && About(log[..n][i], release, board) && Effective(log[..n], i, now);
        assert Effective(log, i, now) by {
          forall j | i < j < |log| ensures !(About(log[j], release, board) && log[j].action == Enable) {
            if j < n {
              assert log[..n][j] == log[j];
            }
          }
        }
      }
      if Disabled(log, release, board, now) {
        var i :| 0 <= i < |log| && About(log[i], release, board) && Effective(log, i, now);
        if i < n {
          assert !(About(log[n], release, board) && log[n].action == Enable);
          assert Effective(log[..n], i, now) by {
            forall j | i < j < n ensures !(About(log[..n][j], release, board) && log[..n][j].action == Enable) {
              assert log[..n][j] == log[j];
            }
          }
        }
      }
      if About(log[n], release, board) && log[n].action == Disable && Alive(log[n], now) {
        assert Effective(log, n, now);
      }
    }
  }

  // ------------------------------------------------------------------------------------------------ the transfer

  /** A target board that has an effectively disabled source twin and is not effectively disabled itself. */
  predicate Due(log: seq<Entry>, from: ReleaseId, source: Boards, to: ReleaseId, target: Boards, i: nat, board: BoardId, now: Time)
    requires i < |log|
  {
    && log[i].release == from && log[i].board.Some? && Effective(log, i, now)
    && log[i].board.value in source && board in target && target[board] == source[log[i].board.value]
    && !Disabled(log, to, board, now)
  }

  ghost predicate TwinDisabled(log: seq<Entry>, from: ReleaseId, source: Boards, target: Boards, board: BoardId, now: Time)
    requires board in target
  {
    exists b | b in source :: source[b] == target[board] && Disabled(log, from, b, now)
  }

  class Quarantines {
    var log: seq<Entry>

    constructor (rows: seq<Entry>)
      ensures log == rows
    {
      log := rows;
    }

    /** The INSERT ... SELECT: one row for every effective source row and every target board it is due for. */
    method Transfer(from: ReleaseId, source: Boards, to: ReleaseId, target: Boards, now: Time) returns (inserted: nat)
      modifies this
      ensures Transferred(old(log), log, from, source, to, target, now) && |log| == |old(log)| + inserted
      ensures inserted == |Pairs(old(log), from, source, to, target, |old(log)|, now)|
    {
      var before := log;
      var rows: seq<Entry> := [];
      for i := 0 to |before|
        invariant log == before && Carrying(before, from, source, to, target, i, now, rows)
      {
        var boards := DueBoards(before, from, source, to, target, i, now);
        var more := RowsFor(before[i], to, boards);
        CarryingMore(before, from, source, to, target, i, now, rows, more);
        rows := rows + more;
      }
      log := before + rows;
      inserted := |rows|;
      CarryingEnds(before, from, source, to, target, now, rows);
    }
  }

  /** The row a source row becomes on a target board. */
  function CopyOf(e: Entry, to: ReleaseId, board: BoardId): Entry {
    Entry(to, Some(board), Disable, e.expires, CarriedFrom(e.reason, e.release))
  }

  /** The target boards a source row is due for. */
  function DueBoards(log: seq<Entry>, from: ReleaseId, source: Boards, to: ReleaseId, target: Boards, i: nat, now: Time): set<BoardId>
    requires i < |log|
  {
    set board | board in target && Due(log, from, source, to, target, i, board, now)
  }

  /** The first n source rows, each with every target board it is due for. */
  ghost function Pairs(log: seq<Entry>, from: ReleaseId, source: Boards, to: ReleaseId, target: Boards, n: nat, now: Time): set<(nat, BoardId)>
    requires n <= |log|
  {
    set i: nat, board | 0 <= i < n && board in target && Due(log, from, source, to, target, i, board, now) :: (i, board)
  }

  function PairsAt(i: nat, boards: set<BoardId>): set<(nat, BoardId)> {
    set board | board in boards :: (i, board)
  }

  lemma {:induction false} PairsSize(i: nat, boards: set<BoardId>)
    ensures |PairsAt(i, boards)| == |boards|
    decreases |boards|
  {
    if boards == {} {
      assert PairsAt(i, boards) == {};
    } else {
      var board :| board in boards;
      PairsSize(i, boards - {board});
      assert PairsAt(i, boards) == PairsAt(i, boards - {board}) + {(i, board)};
    }
  }

  lemma PairsMore(log: seq<Entry>, from: ReleaseId, source: Boards, to: ReleaseId, target: Boards, i: nat, now: Time)
    requires i < |log|
    ensures |Pairs(log, from, source, to, target, i + 1, now)|
         == |Pairs(log, from, source, to, target, i, now)| + |DueBoards(log, from, source, to, target, i, now)|
  {
    var before := Pairs(log, from, source, to, target, i, now);
    var boards := DueBoards(log, from, source, to, target, i, now);
    PairsSize(i, boards);
    assert Pairs(log, from, source, to, target, i + 1, now) == before + PairsAt(i, boards) && before !! PairsAt(i, boards);
  }

  /** The rows one source row gives rise to, one for every board it is due for. */
  method RowsFor(e: Entry, to: ReleaseId, boards: set<BoardId>) returns (rows: seq<Entry>)
    ensures forall k | 0 <= k < |rows| :: exists board | board in boards :: rows[k] == CopyOf(e, to, board)
    ensures forall board | board in boards :: CopyOf(e, to, board) in rows
    ensures |rows| == |boards|
  {
    rows := [];
    var todo := boards;
    while todo != {}
      invariant todo <= boards && |rows| + |todo| == |boards|
      invariant forall k | 0 <= k < |rows| :: exists board | board in boards :: rows[k] == CopyOf(e, to, board)
      invariant forall board | board in boards - todo :: CopyOf(e, to, board) in rows
      decreases |todo|
    {
      var board :| board in todo;
      todo := todo - {board};
      rows := rows + [CopyOf(e, to, board)];
    }
  }

  /** A row the transfer may insert. */
  ghost predicate Carried(log: seq<Entry>, from: ReleaseId, source: Boards, to: ReleaseId, target: Boards, row: Entry, now: Time) {
    && row.board.Some?
    && exists i | 0 <= i < |log| ::
      && Due(log, from, source, to, target, i, row.board.value, now)
      && row.release == to && row.action == Disable && row.expires == log[i].expires && row.reason == CarriedFrom(log[i].reason, from)
  }

  /** What Transfer promises of the table. */
  ghost predicate Transferred(log: seq<Entry>, after: seq<Entry>, from: ReleaseId, source: Boards, to: ReleaseId, target: Boards, now: Time) {
    && log <= after
    && (forall k | |log| <= k < |after| :: Carried(log, from, source, to, target, after[k], now))
    && (forall i, board | 0 <= i < |log| && Due(log, from, source, to, target, i, board, now) ::
          exists k | |log| <= k < |after| :: after[k] == CopyOf(log[i], to, board))
  }

  /** The rows the first n source rows give rise to. */
  ghost predicate Carrying(log: seq<Entry>, from: ReleaseId, source: Boards, to: ReleaseId, target: Boards, n: nat, now: Time, rows: seq<Entry>)
    requires n <= |log|
  {
    && (forall k | 0 <= k < |rows| :: Carried(log, from, source, to, target, rows[k], now))
    && (forall i, board | 0 <= i < n && Due(log, from, source, to, target, i, board, now) :: CopyOf(log[i], to, board) in rows)
    && |rows| == |Pairs(log, from, source, to, target, n, now)|
  }

  lemma CarryingMore(log: seq<Entry>, from: ReleaseId, source: Boards, to: ReleaseId, target: Boards, i: nat, now: Time,
                     rows: seq<Entry>, more: seq<Entry>)
    requires i < |log| && Carrying(log, from, source, to, target, i, now, rows)
    requires forall k | 0 <= k < |more| ::
      exists board | board in DueBoards(log, from, source, to, target, i, now) :: more[k] == CopyOf(log[i], to, board)
    requires forall board | board in DueBoards(log, from, source, to, target, i, now) :: CopyOf(log[i], to, board) in more
    requires |more| == |DueBoards(log, from, source, to, target, i, now)|
    ensures Carrying(log, from, source, to, target, i + 1, now, rows + more)
  {
    PairsMore(log, from, source, to, target, i, now);
    forall k | 0 <= k < |more| ensures Carried(log, from, source, to, target, more[k], now) {
    }
  }

  lemma CarryingEnds(log: seq<Entry>, from: ReleaseId, source: Boards, to: ReleaseId, target: Boards, now: Time, rows: seq<Entry>)
    requires Carrying(log, from, source, to, target, |log|, now, rows)
    ensures Transferred(log, log + rows, from, source, to, target, now)
  {
    forall i, board | 0 <= i < |log| && Due(log, from, source, to, target, i, board, now)
      ensures exists k | |log| <= k < |log + rows| :: (log + rows)[k] == CopyOf(log[i], to, board)
    {
      var k :| 0 <= k < |rows| && rows[k] == CopyOf(log[i], to, board);
      assert (log + rows)[|log| + k] == rows[k];
    }
  }

  /** Appended disables that are alive: they disable their board and leave every other board's state alone. */
  lemma AppendDisables(log: seq<Entry>, after: seq<Entry>, release: ReleaseId, board: BoardId, now: Time)
    requires log <= after && forall k | |log| <= k < |after| :: after[k].action == Disable && Alive(after[k], now)
    ensures Disabled(after, release, board, now) <==>
      Disabled(log, release, board, now) || exists k | |log| <= k < |after| :: About(after[k], release, board)
  {
    if Disabled(log, release, board, now) {
      var i :| 0 <= i < |log| && About(log[i], release, board) && Effective(log, i, now);
      assert after[i] == log[i];
      assert Effective(after, i, now) by {
        forall j | i < j < |after| ensures !(About(after[j], release, board) && after[j].action == Enable) {
          if j < |log| {
            assert after[j] == log[j];
          }
        }
      }
    }
    if k :| |log| <= k < |after| && About(after[k], release, board) {
      assert Effective(after, k, now);
    }
    if Disabled(after, release, board, now) {
      var i :| 0 <= i < |after| && About(after[i], release, board) && Effective(after, i, now);
      if i < |log| {
        assert after[i] == log[i];
        assert Effective(log, i, now) by {
          forall j | i < j < |log| ensures !(About(log[j], release, board) && log[j].action == Enable) {
            assert after[j] == log[j];
          }
        }
      }
    }
  }

  lemma CarriedAlive(log: seq<Entry>, after: seq<Entry>, from: ReleaseId, source: Boards, to: ReleaseId, target: Boards, now: Time)
    requires Transferred(log, after, from, source, to, target, now)
    ensures forall k | |log| <= k < |after| ::
      after[k].action == Disable && Alive(after[k], now) && after[k].release == to && after[k].board.Some?
  {
    forall k | |log| <= k < |after| ensures after[k].action == Disable && Alive(after[k], now) && after[k].release == to && after[k].board.Some? {
      assert Carried(log, from, source, to, target, after[k], now);
    }
  }

  /** A target board that gets a row has a disabled twin and is not disabled itself. */
  lemma RowMeansTwin(log: seq<Entry>, after: seq<Entry>, from: ReleaseId, source: Boards, to: ReleaseId, target: Boards, k: nat, board: BoardId, now: Time)
    requires board in target && |log| <= k < |after| && About(after[k], to, board)
    requires Carried(log, from, source, to, target, after[k], now)
    ensures TwinDisabled(log, from, source, target, board, now) && !Disabled(log, to, board, now)
  {
    var i :| 0 <= i < |log| && Due(log, from, source, to, target, i, board, now);
    assert Disabled(log, from, log[i].board.value, now);
  }

  /** And the other way round: it is due for a row. */
  lemma TwinMeansDue(log: seq<Entry>, from: ReleaseId, source: Boards, to: ReleaseId, target: Boards, board: BoardId, now: Time) returns (i: nat)
    requires board in target && TwinDisabled(log, from, source, target, board, now) && !Disabled(log, to, board, now)
    ensures i < |log| && Due(log, from, source, to, target, i, board, now)
  {
    var b :| b in source && source[b] == target[board] && Disabled(log, from, b, now);
    i :| 0 <= i < |log| && About(log[i], from, b) && Effective(log, i, now);
  }

  /**
   * After a transfer a target board is effectively disabled exactly when it was before or its source twin is; every
   * other release keeps the state of all its boards, and no row about a whole release was added.
   */
  lemma TransferExact(log: seq<Entry>, after: seq<Entry>, from: ReleaseId, source: Boards, to: ReleaseId, target: Boards, now: Time)
    requires Transferred(log, after, from, source, to, target, now)
    ensures forall board | board in target ::
      Disabled(after, to, board, now) <==> Disabled(log, to, board, now) || TwinDisabled(log, from, source, target, board, now)
    ensures forall release, board | release != to || board !in target ::
      Disabled(after, release, board, now) <==> Disabled(log, release, board, now)
    ensures forall k | |log| <= k < |after| :: after[k].board.Some?
  {
    CarriedAlive(log, after, from, source, to, target, now);
    forall board | board in target
      ensures Disabled(after, to, board, now) <==> Disabled(log, to, board, now) || TwinDisabled(log, from, source, target, board, now)
    {
      AppendDisables(log, after, to, board, now);
      if k :| |log| <= k < |after| && About(after[k], to, board) {
        RowMeansTwin(log, after, from, source, to, target, k, board, now);
      }
      if TwinDisabled(log, from, source, target, board, now) && !Disabled(log, to, board, now) {
        var i := TwinMeansDue(log, from, source, to, target, board, now);
        var k :| |log| <= k < |after| && after[k] == CopyOf(log[i], to, board);
        assert About(after[k], to, board);
      }
    }
    forall release, board | release != to || board !in target
      ensures Disabled(after, release, board, now) <==> Disabled(log, release, board, now)
    {
      AppendDisables(log, after, release, board, now);
      forall k | |log| <= k < |after| ensures !About(after[k], release, board) {
        assert Carried(log, from, source, to, target, after[k], now);
      }
    }
  }

  /** Repeating a transfer at a time when nothing has expired since inserts nothing. */
  lemma TransferIdempotent(log: seq<Entry>, after: seq<Entry>, again: seq<Entry>,
                           from: ReleaseId, source: Boards, to: ReleaseId, target: Boards, now: Time, later: Time)
    requires from != to
    requires Transferred(log, after, from, source, to, target, now)
    requires Transferred(after, again, from, source, to, target, later)
    requires forall k | 0 <= k < |after| :: Alive(after[k], later) <==> Alive(after[k], now)
    ensures again == after
  {
    forall i, board | 0 <= i < |after| ensures !Due(after, from, source, to, target, i, board, later) {
      if after[i].release == from && after[i].board.Some? && Effective(after, i, later)
         && after[i].board.value in source && board in target && target[board] == source[after[i].board.value] {
        StillDisabled(log, after, from, source, to, target, i, board, now, later);
      }
    }
    NewRowIsDue(after, again, from, source, to, target, later);
  }

  /** The twin of a board that is effectively disabled later is, after the transfer, effectively disabled later. */
  lemma StillDisabled(log: seq<Entry>, after: seq<Entry>, from: ReleaseId, source: Boards, to: ReleaseId, target: Boards,
                      i: nat, board: BoardId, now: Time, later: Time)
    requires from != to && Transferred(log, after, from, source, to, target, now)
    requires forall k | 0 <= k < |after| :: Alive(after[k], later) <==> Alive(after[k], now)
    requires i < |after| && after[i].release == from && after[i].board.Some? && Effective(after, i, later)
    requires after[i].board.value in source && board in target && target[board] == source[after[i].board.value]
    ensures Disabled(after, to, board, later)
  {
    TransferExact(log, after, from, source, to, target, now);
    var b := after[i].board.value;
    assert Effective(after, i, now);
    assert Disabled(after, from, b, now);
    assert TwinDisabled(log, from, source, target, board, now);
    var k :| 0 <= k < |after| && About(after[k], to, board) && Effective(after, k, now);
    assert Effective(after, k, later);
  }

  lemma NewRowIsDue(log: seq<Entry>, after: seq<Entry>, from: ReleaseId, source: Boards, to: ReleaseId, target: Boards, now: Time)
    requires Transferred(log, after, from, source, to, target, now)
    ensures after != log ==> exists i, board | 0 <= i < |log| :: Due(log, from, source, to, target, i, board, now)
  {
    if |after| > |log| {
      assert Carried(log, from, source, to, target, after[|log|], now);
    }
  }
}
