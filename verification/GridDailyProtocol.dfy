/**
 * Any number of daily-grid seeding runs and online match starts over one database.
 *
 * One step is one committed transaction or one statement outside a transaction. A run may stop for good after any
 * step (a crash is a run that takes no further step). Match starts follow the contract the script states: a
 * transaction that begins after a day row was committed never picks that row's board while the row stands.
 *
 * `clock` is the database clock, which never goes back but may stand still between two events; `event` orders the
 * events themselves.
 */
module GridDailyProtocol {
  import opened Wrappers
  import opened GridDailyTable

  type TxId = nat
  type MatchId = nat

  /** An open database transaction: its xact_start, when it began among the events, the board it picked so far. */
  datatype Tx = Tx(start: nat, began: nat, picked: Option<Checksum>)

  /** A stored match; `live` is phase <> 'terminal'. */
  datatype Match = Match(checksum: Checksum, live: bool)

  /** Where a seeding run stands in settleReserved. */
  datatype Run =
    | Idle
    | TookOver(reserved: map<Day, Option<Checksum>>)
    | Waiting(reserved: map<Day, Option<Checksum>>, since: nat)
    | Past(reserved: map<Day, Option<Checksum>>)
    | Judged(clashing: set<Day>, clean: set<Day>)
    | Settling(clean: set<Day>)

  datatype State = State(
    days: Days, matches: map<MatchId, Match>, open: map<TxId, Tx>, runs: map<Token, Run>, clock: nat, event: nat)

  datatype Step =
    | Tick(elapsed: nat)
    | Begin(tx: TxId)
    | Pick(tx: TxId, checksum: Checksum)
    | Commit(tx: TxId, made: MatchId)
    | Abort(txs: set<TxId>)
    | Finish(ended: set<MatchId>)
    | Start(run: Token)
    | Reserve(run: Token, picks: map<Day, PoolBoard>)
    | Seize(run: Token)
    | ReadSince(run: Token)
    | PassBarrier(run: Token)
    | ReadLive(run: Token)
    | DropClashing(run: Token)
    | PublishClean(run: Token)

  function LiveChecksums(matches: map<MatchId, Match>): set<Checksum> {
    set m | m in matches && matches[m].live :: matches[m].checksum
  }

  /** The match-start contract: every stored row of the board was committed after the transaction began. */
  predicate MayPick(s: State, tx: TxId, checksum: Checksum)
    requires tx in s.open
  {
    forall day | day in s.days && s.days[day].checksum == Some(checksum) :: s.open[tx].began < s.days[day].inserted
  }

  predicate Enabled(s: State, step: Step) {
    match step
    case Tick(_) => true
    case Begin(tx) => tx !in s.open
    case Pick(tx, checksum) => tx in s.open && MayPick(s, tx, checksum)
    case Commit(tx, made) => tx in s.open && s.open[tx].picked.Some? && made !in s.matches
    case Abort(_) => true
    case Finish(_) => true
    case Start(run) => run !in s.runs && forall day | day in s.days :: s.days[day].reserved != Some(run)
    case Reserve(run, _) => run in s.runs && s.runs[run].Idle?
    case Seize(run) => run in s.runs && s.runs[run].Idle?
    case ReadSince(run) => run in s.runs && s.runs[run].TookOver?
    case PassBarrier(run) =>
      && run in s.runs && s.runs[run].Waiting?
      && forall tx | tx in s.open :: s.open[tx].start >= s.runs[run].since
    case ReadLive(run) => run in s.runs && s.runs[run].Past?
    case DropClashing(run) => run in s.runs && s.runs[run].Judged?
    case PublishClean(run) => run in s.runs && s.runs[run].Settling?
  }

  function Apply(s: State, step: Step): State
    requires Enabled(s, step)
  {
    var t := s.(event := s.event + 1);
    match step
    case Tick(elapsed) => t.(clock := s.clock + elapsed)
    case Begin(tx) => t.(open := s.open[tx := Tx(s.clock, s.event, None)])
    case Pick(tx, checksum) => t.(open := s.open[tx := s.open[tx].(picked := Some(checksum))])
    case Commit(tx, made) =>
      t.(matches := s.matches[made := Match(s.open[tx].picked.value, true)], open := s.open - {tx})
    case Abort(txs) => t.(open := s.open - txs)
    case Finish(ended) =>
      t.(matches := map m | m in s.matches :: if m in ended then s.matches[m].(live := false) else s.matches[m])
    case Start(run) => t.(runs := s.runs[run := Idle])
    case Reserve(run, picks) => t.(days := Insert(s.days, picks, run, s.event))
    case Seize(run) =>
      var reserved := ReservedChecksums(s.days);
      t.(days := TakeOver(s.days, run), runs := s.runs[run := if reserved == map[] then Idle else TookOver(reserved)])
    case ReadSince(run) => t.(runs := s.runs[run := Waiting(s.runs[run].reserved, s.clock)])
    case PassBarrier(run) => t.(runs := s.runs[run := Past(s.runs[run].reserved)])
    case ReadLive(run) =>
      var reserved := s.runs[run].reserved;
      var clashing := Clashing(reserved, LiveChecksums(s.matches));
      t.(runs := s.runs[run := Judged(clashing, reserved.Keys - clashing)])
    case DropClashing(run) =>
      t.(days := Drop(s.days, s.runs[run].clashing, run), runs := s.runs[run := Settling(s.runs[run].clean)])
    case PublishClean(run) =>
      t.(days := Publish(s.days, s.runs[run].clean, run), runs := s.runs[run := Idle])
  }

  ghost predicate Legal(s: State, steps: seq<Step>)
    decreases |steps|
  {
    steps != [] ==> Enabled(s, steps[0]) && Legal(Apply(s, steps[0]), steps[1..])
  }

  ghost function After(s: State, steps: seq<Step>): State
    requires Legal(s, steps)
    decreases |steps|
  {
    if steps == [] then s else After(Apply(s, steps[0]), steps[1..])
  }

  /** What publication must guarantee: no live match stands on a published day's board. */
  ghost predicate Safe(s: State) {
    forall day, m | Published(s.days, day) && m in s.matches && s.matches[m].live ::
      s.days[day].checksum != Some(s.matches[m].checksum)
  }

  /** Every open transaction older than one of the run's reserved rows began at an earlier clock reading than now. */
  ghost predicate ClockPastOlder(s: State, run: Token) {
    forall day, tx | day in s.days && s.days[day].reserved == Some(run) && s.days[day].checksum.Some? && tx in s.open
                     && s.open[tx].began < s.days[day].inserted ::
      s.open[tx].start < s.clock
  }

  /** The clock had moved on whenever a run noted `since`. */
  ghost predicate Timely(s: State, steps: seq<Step>)
    requires Legal(s, steps)
    decreases |steps|
  {
    steps != [] ==>
      && (steps[0].ReadSince? ==> ClockPastOlder(s, steps[0].run))
      && Timely(Apply(s, steps[0]), steps[1..])
  }

  // ------------------------------------------------------------------------------------------------ the invariant

  ghost predicate Owned(s: State, run: Token, day: Day) {
    day in s.days && s.days[day].reserved == Some(run)
  }

  /** No transaction is open that began before the row was committed. */
  ghost predicate Quiet(s: State, day: Day)
    requires day in s.days
  {
    s.days[day].checksum.Some? ==> forall tx | tx in s.open :: s.days[day].inserted <= s.open[tx].began
  }

  ghost predicate NoLive(s: State, day: Day)
    requires day in s.days
  {
    forall m | m in s.matches && s.matches[m].live :: s.days[day].checksum != Some(s.matches[m].checksum)
  }

  ghost predicate RunInv(s: State, run: Token)
    requires run in s.runs
  {
    match s.runs[run]
    case Idle => true
    case TookOver(reserved) => Noted(s, run, reserved)
    case Waiting(reserved, since) =>
      && Noted(s, run, reserved)
      && forall day, tx | Owned(s, run, day) && s.days[day].checksum.Some? && tx in s.open
                          && s.open[tx].began < s.days[day].inserted :: s.open[tx].start < since
    case Past(reserved) =>
      && Noted(s, run, reserved)
      && forall day | Owned(s, run, day) :: Quiet(s, day)
    case Judged(clashing, clean) =>
      forall day | Owned(s, run, day) :: day in clashing || (day in clean && Quiet(s, day) && NoLive(s, day))
    case Settling(clean) =>
      forall day | Owned(s, run, day) :: day in clean && Quiet(s, day) && NoLive(s, day)
  }

  ghost predicate Noted(s: State, run: Token, reserved: map<Day, Option<Checksum>>) {
    forall day | Owned(s, run, day) :: day in reserved && reserved[day] == s.days[day].checksum
  }

  ghost predicate Inv(s: State) {
    && (forall day | day in s.days :: s.days[day].inserted < s.event)
    && (forall tx | tx in s.open :: s.open[tx].began < s.event && s.open[tx].start <= s.clock)
    && (forall day, tx | day in s.days && tx in s.open && s.days[day].inserted <= s.open[tx].began && s.days[day].checksum.Some? ::
          s.open[tx].picked != s.days[day].checksum)
    && (forall run | run in s.runs :: RunInv(s, run))
    && (forall day | Published(s.days, day) :: Quiet(s, day) && NoLive(s, day))
  }

  ghost predicate Init(s: State) {
    && s.days == map[] && s.runs == map[]
    && (forall tx | tx in s.open :: s.open[tx].began < s.event && s.open[tx].start <= s.clock)
  }

  /** A step keeps what is known of a row it keeps. */
  lemma RowStep(s: State, step: Step, day: Day)
    requires Inv(s) && Enabled(s, step)
    requires day in s.days && day in Apply(s, step).days
    requires Apply(s, step).days[day].inserted == s.days[day].inserted
    requires Apply(s, step).days[day].checksum == s.days[day].checksum
    requires Quiet(s, day)
    ensures Quiet(Apply(s, step), day)
    ensures NoLive(s, day) ==> NoLive(Apply(s, step), day)
  {
    var t := Apply(s, step);
    if NoLive(s, day) {
      forall m | m in t.matches && t.matches[m].live ensures t.days[day].checksum != Some(t.matches[m].checksum) {
        if m in s.matches {
          assert s.matches[m].live && s.matches[m].checksum == t.matches[m].checksum;
        }
      }
    }
  }

  /** Only a run's own claims give it rows. */
  lemma OwnedStep(s: State, step: Step, run: Token, day: Day)
    requires Enabled(s, step) && Owned(Apply(s, step), run, day)
    requires step != Seize(run) && !(step.Reserve? && step.run == run)
    ensures Owned(s, run, day) && Apply(s, step).days[day] == s.days[day]
  {
  }

  lemma InvStep(s: State, step: Step)
    requires Inv(s) && Enabled(s, step)
    requires step.ReadSince? ==> ClockPastOlder(s, step.run)
    ensures Inv(Apply(s, step))
  {
    var t := Apply(s, step);
    forall run | run in t.runs ensures RunInv(t, run) {
      RunStep(s, step, run);
    }
    forall day | Published(t.days, day) ensures Quiet(t, day) && NoLive(t, day) {
      assert day in s.days;
      if !Published(s.days, day) {
        OwnershipStep(s, step, day);
        assert Owned(s, step.run, day) && RunInv(s, step.run);
      }
      RowStep(s, step, day);
    }
  }

  lemma RunStep(s: State, step: Step, run: Token)
    requires Inv(s) && Enabled(s, step)
    requires step.ReadSince? ==> ClockPastOlder(s, step.run)
    requires run in Apply(s, step).runs
    ensures RunInv(Apply(s, step), run)
  {
    if step == Start(run) || step == Seize(run) || (step.Reserve? && step.run == run) {
    } else {
      OwnedRows(s, step, run);
      if s.runs[run] == Apply(s, step).runs[run] {
        BystanderStep(s, step, run);
      } else {
        ActorStep(s, step, run);
      }
    }
  }

  /** Rows a run holds after a step that is not its claim: it held them before, as they are, and they stay as quiet. */
  lemma OwnedRows(s: State, step: Step, run: Token)
    requires Inv(s) && Enabled(s, step)
    requires step != Seize(run) && !(step.Reserve? && step.run == run)
    ensures RowsKept(s, Apply(s, step), run)
  {
    forall day | Owned(Apply(s, step), run, day)
      ensures Owned(s, run, day) && Apply(s, step).days[day] == s.days[day]
      ensures Quiet(s, day) ==> Quiet(Apply(s, step), day)
      ensures Quiet(s, day) && NoLive(s, day) ==> NoLive(Apply(s, step), day)
    {
      OwnedStep(s, step, run, day);
      if Quiet(s, day) {
        RowStep(s, step, day);
      }
    }
  }

  ghost predicate RowsKept(s: State, t: State, run: Token) {
    forall day | Owned(t, run, day) ::
      && Owned(s, run, day) && t.days[day] == s.days[day]
      && (Quiet(s, day) ==> Quiet(t, day))
      && (Quiet(s, day) && NoLive(s, day) ==> NoLive(t, day))
  }

  lemma BystanderStep(s: State, step: Step, run: Token)
    requires Inv(s) && Enabled(s, step) && run in s.runs && run in Apply(s, step).runs
    requires s.runs[run] == Apply(s, step).runs[run] && RowsKept(s, Apply(s, step), run)
    ensures RunInv(Apply(s, step), run)
  {
    assert RunInv(s, run);
    var t := Apply(s, step);
    if t.runs[run].Waiting? {
      forall day, tx | Owned(t, run, day) && t.days[day].checksum.Some? && tx in t.open
                       && t.open[tx].began < t.days[day].inserted
        ensures t.open[tx].start < t.runs[run].since
      {
        assert Owned(s, run, day) && tx in s.open;
      }
    }
  }

  lemma ActorStep(s: State, step: Step, run: Token)
    requires Inv(s) && Enabled(s, step) && run in s.runs && run in Apply(s, step).runs
    requires s.runs[run] != Apply(s, step).runs[run] && RowsKept(s, Apply(s, step), run)
    requires step != Seize(run) && step != Start(run)
    requires step.ReadSince? ==> ClockPastOlder(s, step.run)
    ensures RunInv(Apply(s, step), run)
  {
    assert RunInv(s, run);
    var t := Apply(s, step);
    match step {
      case ReadSince(_) =>
      case PassBarrier(_) =>
        forall day | Owned(t, run, day) ensures Quiet(s, day) {
          assert Owned(s, run, day);
        }
      case ReadLive(_) =>
        forall day | Owned(t, run, day)
          ensures day in t.runs[run].clashing || (day in t.runs[run].clean && NoLive(s, day))
        {
          assert Owned(s, run, day);
          assert s.days[day].checksum.Some? && s.days[day].checksum.value !in LiveChecksums(s.matches) ==> NoLive(s, day);
        }
      case DropClashing(_) =>
        forall day | Owned(t, run, day) ensures day !in s.runs[run].clashing {
        }
      case PublishClean(_) =>
    }
  }

  lemma {:induction false} InvRun(s: State, steps: seq<Step>)
    requires Inv(s) && Legal(s, steps) && Timely(s, steps)
    ensures Inv(After(s, steps))
    decreases |steps|
  {
    if steps != [] {
      InvStep(s, steps[0]);
      InvRun(Apply(s, steps[0]), steps[1..]);
    }
  }

  // ------------------------------------------------------------------------------------------------ publication safety

  /** From an empty table on, over every interleaving, no live match ever stands on a published day's board. */
  lemma PublicationSafety(s: State, steps: seq<Step>)
    requires Init(s) && Legal(s, steps) && Timely(s, steps)
    ensures Safe(After(s, steps))
  {
    InvRun(s, steps);
  }

  /** No step of any run changes or deletes a published day; only the row's own run publishes or drops a reserved one. */
  lemma OwnershipStep(s: State, step: Step, day: Day)
    requires Enabled(s, step) && day in s.days
    ensures
      var after := Apply(s, step).days;
      && (Published(s.days, day) ==> day in after && after[day] == s.days[day])
      && (day !in after ==> step.DropClashing? && s.days[day].reserved == Some(step.run) && day in s.runs[step.run].clashing)
      && (day in after && !Published(s.days, day) && Published(after, day) ==>
            step.PublishClean? && s.days[day].reserved == Some(step.run) && after[day] == s.days[day].(reserved := None))
      && (day in after && after[day] != s.days[day] && !Published(after, day) ==>
            step.Seize? && after[day] == s.days[day].(reserved := Some(step.run)))
  {
  }

  /** Once published, a day keeps its row for ever, and no later state has a live match on its board. */
  lemma {:induction false} PublishedForever(s: State, steps: seq<Step>, day: Day)
    requires Inv(s) && Legal(s, steps) && Timely(s, steps) && Published(s.days, day)
    ensures day in After(s, steps).days && After(s, steps).days[day] == s.days[day]
    ensures NoLive(After(s, steps), day)
    decreases |steps|
  {
    if steps == [] {
      assert NoLive(s, day);
    } else {
      InvStep(s, steps[0]);
      OwnershipStep(s, steps[0], day);
      PublishedForever(Apply(s, steps[0]), steps[1..], day);
    }
  }

  ghost predicate NoClaimBy(steps: seq<Step>, run: Token) {
    forall i | 0 <= i < |steps| ::
      steps[i] != Seize(run) && !(steps[i].Reserve? && steps[i].run == run) && steps[i] != Start(run)
  }

  /**
   * A row that carries the run's token carried it, unchanged, ever since the run last claimed rows: between the
   * takeover and the publishing of a day nothing else happened to that row.
   */
  lemma {:induction false} TokenIsContinuous(s: State, steps: seq<Step>, run: Token, day: Day)
    requires Legal(s, steps) && NoClaimBy(steps, run) && Owned(After(s, steps), run, day)
    ensures Owned(s, run, day) && s.days[day] == After(s, steps).days[day]
    decreases |steps|
  {
    if steps != [] {
      var t := Apply(s, steps[0]);
      assert NoClaimBy(steps[1..], run);
      TokenIsContinuous(t, steps[1..], run, day);
      assert steps[0] != Seize(run) && !(steps[0].Reserve? && steps[0].run == run);
    }
  }

  // ------------------------------------------------------------------------------------------------ the barrier, exactly

  lemma FreshMatch(matches: set<MatchId>) returns (m: MatchId)
    ensures m !in matches && forall x | x in matches :: x < m
    decreases |matches|
  {
    m := 0;
    if matches != {} {
      var x :| x in matches;
      m := FreshMatch(matches - {x});
      assert forall y | y in matches :: y == x || y in matches - {x};
      if m <= x {
        m := x + 1;
      }
    }
  }

  /** A tie leaves the barrier blind: the run goes on to judge the day clean while the older match start is open. */
  lemma {:induction false} BlindBarrier(s: State, run: Token, day: Day, tx: TxId) returns (steps: seq<Step>, t: State)
    requires Inv(s) && run in s.runs && s.runs[run].TookOver?
    requires Owned(s, run, day) && tx in s.open && s.open[tx].start == s.clock
    ensures ReachedBy(Apply(s, ReadSince(run)), steps, t)
    ensures t.days == s.days && tx in t.open && t.open[tx] == s.open[tx]
    ensures run in t.runs && t.runs[run].Judged? && t.runs[run].clashing == {} && day in t.runs[run].clean
  {
    assert RunInv(s, run);
    var s0 := Apply(s, ReadSince(run));
    var others := s0.open.Keys - {tx};
    var s1 := Apply(s0, Abort(others));
    assert s1.open.Keys == {tx};
    var s2 := Apply(s1, PassBarrier(run));
    var s3 := Apply(s2, Finish(s2.matches.Keys));
    assert LiveChecksums(s3.matches) == {};
    t := Apply(s3, ReadLive(run));
    steps := Prepend(s3, ReadLive(run), [], t);
    steps := Prepend(s2, Finish(s2.matches.Keys), steps, t);
    steps := Prepend(s1, PassBarrier(run), steps, t);
    steps := Prepend(s0, Abort(others), steps, t);
  }

  /** ... and the match start then takes the board before the day is published. */
  lemma {:induction false} PublishUnderMatch(s: State, run: Token, day: Day, tx: TxId)
    returns (steps: seq<Step>, t: State)
    requires OneDayPerChecksum(s.days) && Owned(s, run, day) && s.days[day].checksum.Some?
    requires tx in s.open && s.open[tx].began < s.days[day].inserted
    requires run in s.runs && s.runs[run].Judged? && s.runs[run].clashing == {} && day in s.runs[run].clean
    ensures ReachedBy(s, steps, t) && !Safe(t)
  {
    var checksum := s.days[day].checksum.value;
    var made := FreshMatch(s.matches.Keys);
    assert MayPick(s, tx, checksum);
    var s1 := Apply(s, Pick(tx, checksum));
    var s2 := Apply(s1, Commit(tx, made));
    var s3 := Apply(s2, DropClashing(run));
    assert s3.days == s.days;
    t := Apply(s3, PublishClean(run));
    assert Published(t.days, day) && t.matches[made] == Match(checksum, true);
    steps := Prepend(s3, PublishClean(run), [], t);
    steps := Prepend(s2, DropClashing(run), steps, t);
    steps := Prepend(s1, Commit(tx, made), steps, t);
    steps := Prepend(s, Pick(tx, checksum), steps, t);
  }

  /**
   * The wait compares xact_start < since, strictly. If the clock has not moved since an older match start began, the
   * run can publish a day that a live match goes on to use.
   */
  lemma {:induction false} TieIsUnsafe(s: State, run: Token, day: Day, tx: TxId) returns (steps: seq<Step>)
    requires Inv(s) && OneDayPerChecksum(s.days)
    requires run in s.runs && s.runs[run].TookOver?
    requires Owned(s, run, day) && s.days[day].checksum.Some? && tx in s.open
    requires s.open[tx].began < s.days[day].inserted && s.open[tx].start == s.clock
    ensures var noted := Apply(s, ReadSince(run));
      Legal(noted, steps) && Timely(noted, steps) && !Safe(After(noted, steps))
  {
    var first, t := BlindBarrier(s, run, day, tx);
    var rest, u := PublishUnderMatch(t, run, day, tx);
    steps := first + rest;
    Chain(Apply(s, ReadSince(run)), first, t, rest, u);
  }

  lemma InitInv(s: State)
    requires Init(s)
    ensures Inv(s)
  {
  }

  /** A match start begins, a run starts and reserves a board for a day: the row is younger than the match start. */
  lemma {:induction false} Opening(s: State, run: Token, day: Day, board: PoolBoard, tx: TxId) returns (steps: seq<Step>, t: State)
    requires Init(s) && tx !in s.open
    ensures ReachedBy(s, steps, t)
    ensures t.runs == map[run := Idle] && tx in t.open && t.open[tx] == Tx(s.clock, s.event, None) && t.clock == s.clock
    ensures t.days == map[day := Row(board.id, Some(board.checksum), Some(run), s.event + 2)]
  {
    var s1 := s.(open := s.open[tx := Tx(s.clock, s.event, None)], event := s.event + 1);
    assert Apply(s, Begin(tx)) == s1;
    var s2 := s1.(runs := map[run := Idle], event := s.event + 2);
    assert Apply(s1, Start(run)) == s2;
    var reserve := Reserve(run, map[day := board]);
    t := s2.(days := map[day := Row(board.id, Some(board.checksum), Some(run), s.event + 2)], event := s.event + 3);
    assert Apply(s2, reserve) == t;
    steps := Prepend(s2, reserve, [], t);
    steps := Prepend(s1, Start(run), steps, t);
    steps := Prepend(s, Begin(tx), steps, t);
  }

  /** The run takes over and notes `since` while the clock stands: the tie. */
  lemma {:induction false} SeizeAtTie(s: State, run: Token, day: Day, board: PoolBoard, tx: TxId) returns (steps: seq<Step>)
    requires Inv(s) && run in s.runs && s.runs[run].Idle? && tx in s.open && s.open[tx].start == s.clock
    requires s.days == map[day := Row(board.id, Some(board.checksum), Some(run), s.open[tx].began + 2)]
    ensures Legal(s, steps) && !Safe(After(s, steps))
  {
    assert ReservedChecksums(s.days) == map[day := Some(board.checksum)];
    var t := Apply(s, Seize(run));
    InvStep(s, Seize(run));
    assert day in ReservedChecksums(s.days);
    assert t.runs[run] == TookOver(ReservedChecksums(s.days));
    assert TakeOver(s.days, run) == s.days;
    assert t.days == s.days;
    assert Owned(t, run, day);
    assert OneDayPerChecksum(t.days);
    var rest := TieIsUnsafe(t, run, day, tx);
    steps := FollowedBy(t, ReadSince(run), rest);
    steps := FollowedBy(s, Seize(run), steps);
  }

  /**
   * The tie is reached from an empty table: a match start begins, a run reserves a board for a day, takes over and notes
   * `since` without the clock moving, and the day ends up published under a live match.
   */
  lemma {:induction false} TieFromInit(s: State, run: Token, day: Day, board: PoolBoard, tx: TxId) returns (steps: seq<Step>)
    requires Init(s) && tx !in s.open
    ensures Legal(s, steps) && Safe(s) && !Safe(After(s, steps))
  {
    var first, t := Opening(s, run, day, board, tx);
    InitInv(s);
    InvRun(s, first);
    var rest := SeizeAtTie(t, run, day, board, tx);
    steps := first + rest;
    LegalJoin(s, first, rest);
  }

  lemma {:induction false} LegalJoin(s: State, first: seq<Step>, rest: seq<Step>)
    requires Legal(s, first) && Legal(After(s, first), rest)
    ensures Legal(s, first + rest) && After(s, first + rest) == After(After(s, first), rest)
    decreases |first|
  {
    if first == [] {
      assert first + rest == rest;
    } else {
      LegalJoin(Apply(s, first[0]), first[1..], rest);
      assert (first + rest)[1..] == first[1..] + rest;
    }
  }

  lemma FollowedBy(s: State, step: Step, rest: seq<Step>) returns (steps: seq<Step>)
    requires Enabled(s, step) && Legal(Apply(s, step), rest)
    ensures Legal(s, steps) && After(s, steps) == After(Apply(s, step), rest)
  {
    steps := [step] + rest;
    assert steps[1..] == rest;
  }

  ghost predicate ReachedBy(s: State, steps: seq<Step>, t: State) {
    Legal(s, steps) && Timely(s, steps) && After(s, steps) == t
  }

  lemma Prepend(s: State, step: Step, rest: seq<Step>, t: State) returns (steps: seq<Step>)
    requires Enabled(s, step) && !step.ReadSince? && ReachedBy(Apply(s, step), rest, t)
    ensures ReachedBy(s, steps, t)
  {
    steps := [step] + rest;
    assert steps[1..] == rest;
  }

  lemma {:induction false} Chain(s: State, first: seq<Step>, t: State, rest: seq<Step>, u: State)
    requires ReachedBy(s, first, t) && ReachedBy(t, rest, u)
    ensures ReachedBy(s, first + rest, u)
    decreases |first|
  {
    if first == [] {
      assert first + rest == rest;
    } else {
      Chain(Apply(s, first[0]), first[1..], t, rest, u);
      assert (first + rest)[1..] == first[1..] + rest;
    }
  }

  /**
   * Exactly when the wait protects: noting `since` in state `s` leads to safe states only, in every continuation,
   * if and only if the clock has moved past every open transaction that is older than a row the run holds.
   */
  lemma BarrierExact(s: State, run: Token)
    requires Inv(s) && OneDayPerChecksum(s.days)
    requires run in s.runs && s.runs[run].TookOver?
    ensures
      var noted := Apply(s, ReadSince(run));
      ClockPastOlder(s, run) <==>
        forall steps | Legal(noted, steps) && Timely(noted, steps) :: Safe(After(noted, steps))
  {
    var noted := Apply(s, ReadSince(run));
    if ClockPastOlder(s, run) {
      InvStep(s, ReadSince(run));
      forall steps | Legal(noted, steps) && Timely(noted, steps) ensures Safe(After(noted, steps)) {
        InvRun(noted, steps);
      }
    } else {
      var day, tx :| day in s.days && s.days[day].reserved == Some(run) && s.days[day].checksum.Some? && tx in s.open
        && s.open[tx].began < s.days[day].inserted && !(s.open[tx].start < s.clock);
      var steps := TieIsUnsafe(s, run, day, tx);
    }
  }

  // ------------------------------------------------------------------------------------------------ what a run does

  /** Reading the live matches judges each row the run holds by its own board. */
  lemma ReadLiveJudges(s: State, run: Token, day: Day)
    requires Inv(s) && Enabled(s, ReadLive(run)) && Owned(s, run, day)
    ensures var t := Apply(s, ReadLive(run));
      && t.runs[run].Judged?
      && (day in t.runs[run].clashing <==>
            (s.days[day].checksum.Some? && exists m | m in s.matches :: s.matches[m].live && s.matches[m].checksum == s.days[day].checksum.value))
      && (day in t.runs[run].clean <==> day !in t.runs[run].clashing)
  {
    assert Noted(s, run, s.runs[run].reserved);
  }

  /** The steps of others leave a run where it is. */
  lemma {:induction false} OthersPass(s: State, steps: seq<Step>, run: Token)
    requires Legal(s, steps) && run in s.runs && forall k | 0 <= k < |steps| :: !OfRun(steps[k], run)
    ensures run in After(s, steps).runs && After(s, steps).runs[run] == s.runs[run]
    decreases |steps|
  {
    if steps != [] {
      assert !OfRun(steps[0], run);
      assert forall k | 0 <= k < |steps[1..]| :: steps[1..][k] == steps[k + 1];
      OthersPass(Apply(s, steps[0]), steps[1..], run);
    }
  }

  /** A step of the run's own. */
  predicate OfRun(step: Step, run: Token) {
    match step
    case Start(r) => r == run
    case Reserve(r, _) => r == run
    case Seize(r) => r == run
    case ReadSince(r) => r == run
    case PassBarrier(r) => r == run
    case ReadLive(r) => r == run
    case DropClashing(r) => r == run
    case PublishClean(r) => r == run
    case _ => false
  }

  /**
   * From reading the live matches to publishing, whatever others do in between: a row the run holds on a board that no live
   * match stood on is published if the run still holds it in the end, and is not dropped by the run.
   */
  lemma FreeRowIsPublished(s: State, run: Token, day: Day, judged: State, first: seq<Step>, dropped: State, second: seq<Step>)
    requires Inv(s) && Enabled(s, ReadLive(run)) && judged == Apply(s, ReadLive(run)) && Owned(s, run, day)
    requires forall m | m in s.matches && s.matches[m].live :: s.days[day].checksum != Some(s.matches[m].checksum)
    requires Legal(judged, first) && (forall k | 0 <= k < |first| :: !OfRun(first[k], run))
    requires Enabled(After(judged, first), DropClashing(run)) && dropped == Apply(After(judged, first), DropClashing(run))
    requires Legal(dropped, second) && (forall k | 0 <= k < |second| :: !OfRun(second[k], run))
    requires Enabled(After(dropped, second), PublishClean(run))
    ensures Owned(After(judged, first), run, day) ==> Owned(dropped, run, day)
    ensures var last := After(dropped, second);
      Owned(last, run, day) ==> Published(Apply(last, PublishClean(run)).days, day)
  {
    ReadLiveJudges(s, run, day);
    OthersPass(judged, first, run);
    OthersPass(dropped, second, run);
  }

  /** And a row it holds on a board that a live match stood on is gone after dropping, if the run held it till then. */
  lemma LiveRowIsDropped(s: State, run: Token, day: Day, judged: State, first: seq<Step>, m: MatchId)
    requires Inv(s) && Enabled(s, ReadLive(run)) && judged == Apply(s, ReadLive(run)) && Owned(s, run, day)
    requires m in s.matches && s.matches[m].live && s.days[day].checksum == Some(s.matches[m].checksum)
    requires Legal(judged, first) && (forall k | 0 <= k < |first| :: !OfRun(first[k], run))
    requires Enabled(After(judged, first), DropClashing(run))
    ensures Owned(After(judged, first), run, day) ==> day !in Apply(After(judged, first), DropClashing(run)).days
  {
    ReadLiveJudges(s, run, day);
    OthersPass(judged, first, run);
  }

  // ------------------------------------------------------------------------------------------------ one board, one day

  /** A pick that reserveMissing can make when no other reserving transaction changes the table between its query and
      its insert. Matches may start in between: nothing is asked of them. */
  ghost predicate SerialPicks(days: Days, picks: map<Day, PoolBoard>) {
    && (forall day, e | day in picks && e in days :: days[e].checksum != Some(picks[day].checksum))
    && (forall d, e | d in picks && e in picks && d != e :: picks[d].checksum != picks[e].checksum)
  }

  ghost predicate SerialReserves(s: State, steps: seq<Step>)
    requires Legal(s, steps)
    decreases |steps|
  {
    steps != [] ==>
      && (steps[0].Reserve? ==> SerialPicks(s.days, steps[0].picks))
      && SerialReserves(Apply(s, steps[0]), steps[1..])
  }

  /** With reserving transactions that do not overlap, no board is ever on two days, whatever else interleaves. */
  lemma {:induction false} NoBoardTwice(s: State, steps: seq<Step>)
    requires Legal(s, steps) && SerialReserves(s, steps) && OneDayPerChecksum(s.days)
    ensures OneDayPerChecksum(After(s, steps).days)
    decreases |steps|
  {
    if steps != [] {
      NoBoardTwice(Apply(s, steps[0]), steps[1..]);
    }
  }
}
