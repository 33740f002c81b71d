/**
 * runPool: a few workers share one job counter and stop together. The code between two awaits runs undisturbed, so
 * one step of the model is one worker going on from its await to the next one; the steps of the workers interleave
 * in any order.
 */
module WorkerPool {
  import opened ReleaseContent

  const RATE_LIMIT_WAITS := 40
  const MISSES_TO_STOP := 6
  const ATTEMPTS := 2

  type Job = nat

  /** Where a worker awaits: not begun, a model call, the wait after a 429, or nothing any more. */
  datatype Worker =
    | Ready
    | Calling(job: Job, attempt: nat)
    | Waiting(job: Job, attempt: nat)
    | Finished

  /** How a call ends. */
  datatype Outcome = Success | Failure | RateLimited | OutOfBudget

  /** `next` is the shared counter; `ended` lists the jobs afterJob ran for; `calls` counts all calls. */
  datatype State = State(
    jobs: nat, next: nat, misses: nat, rateLimited: nat, stop: bool, workers: seq<Worker>, ended: seq<Job>, calls: nat)

  datatype Step = Begin(worker: nat) | Returned(worker: nat, outcome: Outcome) | Wake(worker: nat)

  // ------------------------------------------------------------------------------------------------ the segments

  /** The head of the while loop: take the next job and call, or be done. */
  function TakeJob(s: State, w: nat): State
    requires w < |s.workers|
  {
    if !s.stop && s.next < s.jobs then
      s.(next := s.next + 1, calls := s.calls + 1, workers := s.workers[w := Calling(s.next, 1)])
    else s.(workers := s.workers[w := Finished])
  }

  /** After the attempts of a job: afterJob, then the loop's head. */
  function EndJob(s: State, w: nat, job: Job): State
    requires w < |s.workers|
  {
    TakeJob(s.(ended := s.ended + [job]), w)
  }

  /** The head of the attempt loop. */
  function Attempt(s: State, w: nat, job: Job, attempt: nat): State
    requires w < |s.workers|
  {
    if attempt <= ATTEMPTS && !s.stop then s.(calls := s.calls + 1, workers := s.workers[w := Calling(job, attempt)])
    else EndJob(s, w, job)
  }

  /** A real failure: the sixth in a row stops the run. */
  function Miss(s: State): State {
    s.(misses := s.misses + 1, stop := s.stop || s.misses + 1 >= MISSES_TO_STOP)
  }

  /** A 429: forty of them are waited out, later ones are failures. */
  function Limited(s: State, w: nat, job: Job, attempt: nat): State
    requires w < |s.workers|
  {
    var t := s.(rateLimited := s.rateLimited + 1);
    if t.rateLimited <= RATE_LIMIT_WAITS then t.(workers := s.workers[w := Waiting(job, attempt)])
    else Attempt(Miss(t), w, job, attempt + 1)
  }

  predicate Enabled(s: State, step: Step) {
    match step
    case Begin(w) => w < |s.workers| && s.workers[w].Ready?
    case Returned(w, _) => w < |s.workers| && s.workers[w].Calling?
    case Wake(w) => w < |s.workers| && s.workers[w].Waiting?
  }

  function Apply(s: State, step: Step): State
    requires Enabled(s, step)
  {
    match step
    case Begin(w) => TakeJob(s, w)
    case Returned(w, outcome) =>
      var job, attempt := s.workers[w].job, s.workers[w].attempt;
      (match outcome
       case Success => EndJob(s.(misses := 0), w, job)
       case OutOfBudget => EndJob(s.(stop := true), w, job)
       case Failure => Attempt(Miss(s), w, job, attempt + 1)
       case RateLimited => Limited(s, w, job, attempt))
    case Wake(w) => Attempt(s, w, s.workers[w].job, s.workers[w].attempt)
  }

  ghost predicate Init(s: State) {
    && s.next == 0 && s.misses == 0 && s.rateLimited == 0 && !s.stop && s.ended == [] && s.calls == 0
    && (forall w | 0 <= w < |s.workers| :: s.workers[w] == Ready)
    && |s.workers| <= s.jobs && (s.jobs > 0 ==> |s.workers| > 0)
  }

  ghost predicate Legal(s: State, steps: seq<Step>)
    decreases |steps|
  {
    steps != [] ==> Enabled(s, steps[0]) && Legal(Apply(s, steps[0]), steps[1..])
  }

  ghost function After(s: State, steps: seq<Step>): State
    requires Legal(s, steps)
    decreases |steps|
  {
    if steps == [] then s else After(Apply(s, steps[0]), steps[1..])
  }

  // ------------------------------------------------------------------------------------------------ the invariant

  predicate Busy(w: Worker) { w.Calling? || w.Waiting? }

  /** Calls a busy worker may still make for its job without another 429. */
  function Allowance(w: Worker): nat {
    match w
    case Calling(_, attempt) => if attempt <= ATTEMPTS then ATTEMPTS - attempt else 0
    case Waiting(_, attempt) => if attempt <= ATTEMPTS then ATTEMPTS - attempt + 1 else 0
    case _ => 0
  }

  function Allowances(workers: seq<Worker>): nat {
    if workers == [] then 0 else Allowances(workers[..|workers| - 1]) + Allowance(workers[|workers| - 1])
  }

  function Waits(s: State): nat {
    if s.rateLimited <= RATE_LIMIT_WAITS then s.rateLimited else RATE_LIMIT_WAITS
  }

  ghost predicate Held(s: State, w: nat, job: Job) {
    w < |s.workers| && Busy(s.workers[w]) && s.workers[w].job == job
  }

  ghost predicate Inv(s: State) {
    && s.next <= s.jobs
    && (forall w | 0 <= w < |s.workers| && Busy(s.workers[w]) :: s.workers[w].job < s.next && 1 <= s.workers[w].attempt <= ATTEMPTS)
    && (forall w, v | 0 <= w < v < |s.workers| && Busy(s.workers[w]) && Busy(s.workers[v]) :: s.workers[w].job != s.workers[v].job)
    && NoDup(s.ended)
    && (forall j | j in s.ended :: j < s.next && forall w | 0 <= w < |s.workers| && Busy(s.workers[w]) :: s.workers[w].job != j)
    && (forall j | 0 <= j < s.next :: j in s.ended || exists w :: Held(s, w, j))
    && s.calls + Allowances(s.workers) <= 2 * s.next + Waits(s)
    && (!s.stop && s.next < s.jobs ==> forall w | 0 <= w < |s.workers| :: !s.workers[w].Finished?)
    && (s.jobs > 0 ==> |s.workers| > 0)
  }

  lemma {:induction false} AllowancesUpdate(workers: seq<Worker>, w: nat, x: Worker)
    requires w < |workers|
    ensures Allowances(workers[w := x]) == Allowances(workers) - Allowance(workers[w]) + Allowance(x)
    decreases |workers|
  {
    var n := |workers| - 1;
    if w == n {
      assert workers[w := x][..n] == workers[..n];
    } else {
      assert workers[w := x][..n] == workers[..n][w := x];
      AllowancesUpdate(workers[..n], w, x);
    }
  }

  lemma InitInv(s: State)
    requires Init(s)
    ensures Inv(s)
  {
    NoAllowance(s.workers);
  }

  lemma {:induction false} NoAllowance(workers: seq<Worker>)
    requires forall w | 0 <= w < |workers| :: workers[w] == Ready
    ensures Allowances(workers) == 0
  {
    if workers != [] {
      NoAllowance(workers[..|workers| - 1]);
    }
  }

  /** A worker goes on with the job it holds. */
  lemma KeepJob(s: State, t: State, w: nat, x: Worker)
    requires Inv(s) && w < |s.workers| && Busy(s.workers[w]) && Busy(x) && x.job == s.workers[w].job
    requires 1 <= x.attempt <= ATTEMPTS
    requires t == s.(misses := t.misses, rateLimited := t.rateLimited, stop := t.stop, calls := t.calls, workers := s.workers[w := x])
    requires s.stop ==> t.stop
    requires t.calls + Allowance(x) - s.calls - Allowance(s.workers[w]) <= Waits(t) - Waits(s)
    ensures Inv(t)
  {
    AllowancesUpdate(s.workers, w, x);
    forall j | 0 <= j < t.next ensures j in t.ended || exists v :: Held(t, v, j) {
      if j !in s.ended {
        var v :| Held(s, v, j);
        assert Held(t, v, j);
      }
    }
  }

  /** A worker ends the job it holds and becomes free for a moment. */
  lemma DropJob(s: State, t: State, w: nat)
    requires Inv(s) && w < |s.workers| && Busy(s.workers[w])
    requires t == s.(misses := t.misses, rateLimited := t.rateLimited, stop := t.stop, ended := s.ended + [s.workers[w].job],
                     workers := s.workers[w := Ready])
    requires Waits(s) <= Waits(t) && (s.stop ==> t.stop)
    ensures Inv(t)
  {
    AllowancesUpdate(s.workers, w, Ready);
    var job := s.workers[w].job;
    NoDupAppend(s.ended, [job]);
    forall j | 0 <= j < t.next ensures j in t.ended || exists v :: Held(t, v, j) {
      if j !in s.ended && j != job {
        var v :| Held(s, v, j);
        assert v != w;
        assert Held(t, v, j);
      }
    }
  }

  /** A free worker takes the next job, or finishes. */
  lemma TakeJobInv(s: State, w: nat)
    requires Inv(s) && w < |s.workers| && s.workers[w].Ready?
    ensures Inv(TakeJob(s, w))
  {
    var t := TakeJob(s, w);
    AllowancesUpdate(s.workers, w, t.workers[w]);
    forall j | 0 <= j < t.next ensures j in t.ended || exists v :: Held(t, v, j) {
      if j == s.next {
        assert Held(t, w, j);
      } else if j !in s.ended {
        var v :| Held(s, v, j);
        assert Held(t, v, j);
      }
    }
  }

  lemma EndJobInv(s: State, t: State, w: nat)
    requires Inv(s) && w < |s.workers| && Busy(s.workers[w])
    requires t == s.(misses := t.misses, rateLimited := t.rateLimited, stop := t.stop)
    requires Waits(s) <= Waits(t) && (s.stop ==> t.stop)
    ensures Inv(EndJob(t, w, s.workers[w].job))
  {
    var free := t.(ended := s.ended + [s.workers[w].job], workers := s.workers[w := Ready]);
    DropJob(s, free, w);
    TakeJobInv(free, w);
    assert s.workers[w := Ready][w := Calling(t.next, 1)] == s.workers[w := Calling(t.next, 1)];
    assert s.workers[w := Ready][w := Finished] == s.workers[w := Finished];
    assert TakeJob(free, w) == EndJob(t, w, s.workers[w].job);
  }

  lemma AttemptInv(s: State, t: State, w: nat, attempt: nat)
    requires Inv(s) && w < |s.workers| && Busy(s.workers[w])
    requires t == s.(misses := t.misses, rateLimited := t.rateLimited, stop := t.stop)
    requires Waits(s) <= Waits(t) && (s.stop ==> t.stop) && attempt >= 1
    requires attempt <= ATTEMPTS ==> 1 + ATTEMPTS - attempt <= Allowance(s.workers[w])
    ensures Inv(Attempt(t, w, s.workers[w].job, attempt))
  {
    if attempt <= ATTEMPTS && !t.stop {
      KeepJob(s, Attempt(t, w, s.workers[w].job, attempt), w, Calling(s.workers[w].job, attempt));
    } else {
      EndJobInv(s, t, w);
    }
  }

  lemma WaitingInv(s: State, w: nat)
    requires Inv(s) && w < |s.workers| && s.workers[w].Calling? && s.rateLimited < RATE_LIMIT_WAITS
    ensures Inv(s.(rateLimited := s.rateLimited + 1, workers := s.workers[w := Waiting(s.workers[w].job, s.workers[w].attempt)]))
  {
    var x := Waiting(s.workers[w].job, s.workers[w].attempt);
    KeepJob(s, s.(rateLimited := s.rateLimited + 1, workers := s.workers[w := x]), w, x);
  }

  lemma OverLimitInv(s: State, w: nat)
    requires Inv(s) && w < |s.workers| && s.workers[w].Calling? && s.rateLimited >= RATE_LIMIT_WAITS
    ensures Inv(Attempt(Miss(s.(rateLimited := s.rateLimited + 1)), w, s.workers[w].job, s.workers[w].attempt + 1))
  {
    var t := Miss(s.(rateLimited := s.rateLimited + 1));
    assert Waits(s) == Waits(t);
    AttemptInv(s, t, w, s.workers[w].attempt + 1);
  }

  lemma RateLimitedInv(s: State, w: nat)
    requires Inv(s) && w < |s.workers| && s.workers[w].Calling?
    ensures Inv(Limited(s, w, s.workers[w].job, s.workers[w].attempt))
  {
    LimitedCases(s, w, s.workers[w].job, s.workers[w].attempt);
    if s.rateLimited < RATE_LIMIT_WAITS {
      WaitingInv(s, w);
    } else {
      OverLimitInv(s, w);
    }
  }

  lemma LimitedCases(s: State, w: nat, job: Job, attempt: nat)
    requires w < |s.workers|
    ensures s.rateLimited < RATE_LIMIT_WAITS ==>
      Limited(s, w, job, attempt) == s.(rateLimited := s.rateLimited + 1, workers := s.workers[w := Waiting(job, attempt)])
    ensures s.rateLimited >= RATE_LIMIT_WAITS ==>
      Limited(s, w, job, attempt) == Attempt(Miss(s.(rateLimited := s.rateLimited + 1)), w, job, attempt + 1)
  {
  }

  lemma FailureInv(s: State, w: nat)
    requires Inv(s) && Enabled(s, Returned(w, Failure))
    ensures Inv(Apply(s, Returned(w, Failure)))
  {
    AttemptInv(s, Miss(s), w, s.workers[w].attempt + 1);
  }

  lemma InvStep(s: State, step: Step)
    requires Inv(s) && Enabled(s, step)
    ensures Inv(Apply(s, step))
  {
    if step.Begin? {
      TakeJobInv(s, step.worker);
    } else if step.Wake? {
      AttemptInv(s, s, step.worker, s.workers[step.worker].attempt);
    } else if step.outcome.Success? {
      EndJobInv(s, s.(misses := 0), step.worker);
    } else if step.outcome.OutOfBudget? {
      EndJobInv(s, s.(stop := true), step.worker);
    } else if step.outcome.Failure? {
      FailureInv(s, step.worker);
    } else {
      RateLimitedInv(s, step.worker);
    }
  }

  // ------------------------------------------------------------------------------------------------ whole runs

  lemma {:induction false} InvRun(s: State, steps: seq<Step>)
    requires Inv(s) && Legal(s, steps)
    ensures Inv(After(s, steps)) && After(s, steps).jobs == s.jobs
    decreases |steps|
  {
    if steps != [] {
      InvStep(s, steps[0]);
      InvRun(Apply(s, steps[0]), steps[1..]);
    }
  }

  /** Whatever the order of the steps, at most two calls per job and forty more for the rate limit are made. */
  lemma CallsBounded(s: State, steps: seq<Step>)
    requires Init(s) && Legal(s, steps)
    ensures After(s, steps).calls <= 2 * s.jobs + RATE_LIMIT_WAITS
  {
    InitInv(s);
    InvRun(s, steps);
  }

  /** No call begins once the run is stopped, and stopped it stays. */
  lemma StopIsFinal(s: State, step: Step)
    requires Enabled(s, step)
    ensures s.stop ==> Apply(s, step).stop && Apply(s, step).calls == s.calls && Apply(s, step).next == s.next
    ensures Apply(s, step).calls > s.calls ==> !Apply(s, step).stop && Apply(s, step).calls == s.calls + 1
  {
  }

  ghost predicate Quiescent(s: State) {
    forall w | 0 <= w < |s.workers| :: s.workers[w].Finished?
  }

  /**
   * When every worker is done, afterJob has run exactly once for each job taken, and for no other; and unless the run
   * was stopped these are all the jobs.
   */
  lemma RunComplete(s: State, steps: seq<Step>)
    requires Init(s) && Legal(s, steps) && Quiescent(After(s, steps))
    ensures var t := After(s, steps);
      && NoDup(t.ended) && (forall j :: j in t.ended <==> 0 <= j < t.next)
      && (!t.stop ==> t.next == s.jobs)
  {
    InitInv(s);
    InvRun(s, steps);
    var t := After(s, steps);
    forall j | 0 <= j < t.next ensures j in t.ended {
      assert forall w :: !Held(t, w, j);
    }
    if !t.stop && t.next < t.jobs {
      assert t.workers[0].Finished?;
    }
  }

  // ------------------------------------------------------------------------------------------------ what the calls decide

  /** A call has ended: for which job, and how. */
  datatype Event = Event(job: Job, outcome: Outcome)

  /** The calls that end in a run, in order. */
  ghost function Trace(s: State, steps: seq<Step>): seq<Event>
    requires Legal(s, steps)
    decreases |steps|
  {
    if steps == [] then []
    else
      (if steps[0].Returned? then [Event(s.workers[steps[0].worker].job, steps[0].outcome)] else []) + Trace(Apply(s, steps[0]), steps[1..])
  }

  ghost function LimitedBefore(trace: seq<Event>, i: nat): set<int>
    requires i <= |trace|
  {
    set k | 0 <= k < i && trace[k].outcome == RateLimited
  }

  /** A failure that counts: a real one, or a 429 after forty others. */
  ghost predicate Counted(trace: seq<Event>, i: nat)
    requires i < |trace|
  {
    trace[i].outcome == Failure || (trace[i].outcome == RateLimited && |LimitedBefore(trace, i)| >= 40)
  }

  ghost function CountedBetween(trace: seq<Event>, a: nat, b: nat): set<int>
    requires a <= b <= |trace|
  {
    set i | a <= i < b && Counted(trace, i)
  }

  /** Six counted failures with no success between them. */
  ghost predicate SixInARow(trace: seq<Event>) {
    exists a, b | 0 <= a <= b <= |trace| ::
      (forall i | a <= i < b :: trace[i].outcome != Success) && |CountedBetween(trace, a, b)| >= 6
  }

  /** Some call ran out of budget, or six failed in a row. */
  ghost predicate MustStop(trace: seq<Event>) {
    (exists i | 0 <= i < |trace| :: trace[i].outcome == OutOfBudget) || SixInARow(trace)
  }

  /** The events of one job. */
  ghost function Of(trace: seq<Event>, job: Job, outcome: Outcome): set<int> {
    set i | 0 <= i < |trace| && trace[i].job == job && trace[i].outcome == outcome
  }

  ghost function CountedOf(trace: seq<Event>, job: Job): set<int> {
    set i | 0 <= i < |trace| && trace[i].job == job && Counted(trace, i)
  }

  /** What the shared variables say of the calls so far: `rateLimited` counts the 429s, `misses` the counted failures since
      the last success, and `stop` is set exactly when it must be. */
  ghost predicate Tells(s: State, trace: seq<Event>) {
    && s.rateLimited == |LimitedBefore(trace, |trace|)|
    && (exists a | 0 <= a <= |trace| :: Since(trace, a) && s.misses == |CountedBetween(trace, a, |trace|)|)
    && (s.stop <==> MustStop(trace))
  }

  /** The last success stands right before `a`. */
  ghost predicate Since(trace: seq<Event>, a: nat)
    requires a <= |trace|
  {
    (a > 0 ==> trace[a - 1].outcome == Success) && forall i | a <= i < |trace| :: trace[i].outcome != Success
  }

  lemma LimitedMore(trace: seq<Event>, e: Event, i: nat)
    requires i <= |trace|
    ensures LimitedBefore(trace + [e], i) == LimitedBefore(trace, i)
    ensures |LimitedBefore(trace + [e], |trace| + 1)| == |LimitedBefore(trace, |trace|)| + if e.outcome == RateLimited then 1 else 0
  {
    assert LimitedBefore(trace + [e], |trace| + 1) == LimitedBefore(trace, |trace|) + if e.outcome == RateLimited then {|trace|} else {};
  }

  lemma CountedMore(trace: seq<Event>, e: Event, i: nat)
    requires i < |trace|
    ensures Counted(trace + [e], i) <==> Counted(trace, i)
  {
    LimitedMore(trace, e, i);
  }

  lemma BetweenMore(trace: seq<Event>, e: Event, a: nat, b: nat)
    requires a <= b <= |trace|
    ensures CountedBetween(trace + [e], a, b) == CountedBetween(trace, a, b)
    ensures |CountedBetween(trace + [e], a, |trace| + 1)| == |CountedBetween(trace, a, |trace|)| + if Counted(trace + [e], |trace|) then 1 else 0
  {
    var all := trace + [e];
    forall i | 0 <= i < |trace| ensures Counted(all, i) <==> Counted(trace, i) {
      CountedMore(trace, e, i);
    }
    assert CountedBetween(all, a, |trace| + 1) == CountedBetween(trace, a, |trace|) + if Counted(all, |trace|) then {|trace|} else {};
  }

  lemma NarrowerCounts(trace: seq<Event>, a: nat, b: nat, c: nat)
    requires a <= b <= c <= |trace|
    ensures |CountedBetween(trace, b, c)| <= |CountedBetween(trace, a, c)|
  {
    SubsetCounts(CountedBetween(trace, b, c), CountedBetween(trace, a, c));
  }

  lemma SubsetCounts(x: set<int>, y: set<int>)
    requires x <= y
    ensures |x| <= |y|
  {
    assert y == x + (y - x);
  }

  /** Six in a row after one more call: there were before, or the calls since the last success now make six. */
  lemma SixMore(trace: seq<Event>, e: Event, a: nat)
    requires a <= |trace| && Since(trace, a)
    ensures SixInARow(trace + [e]) <==>
      SixInARow(trace) || (e.outcome != Success && |CountedBetween(trace + [e], a, |trace| + 1)| >= 6)
  {
    var all := trace + [e];
    if SixInARow(trace) {
      var x, y :| 0 <= x <= y <= |trace| && (forall i | x <= i < y :: trace[i].outcome != Success) && |CountedBetween(trace, x, y)| >= 6;
      BetweenMore(trace, e, x, y);
      assert forall i | x <= i < y :: all[i] == trace[i];
    }
    if e.outcome != Success && |CountedBetween(all, a, |trace| + 1)| >= 6 {
      assert forall i | a <= i < |all| :: all[i].outcome != Success;
    }
    if SixInARow(all) {
      var x, y :| 0 <= x <= y <= |all| && (forall i | x <= i < y :: all[i].outcome != Success) && |CountedBetween(all, x, y)| >= 6;
      if y <= |trace| {
        BetweenMore(trace, e, x, y);
        assert forall i | x <= i < y :: all[i] == trace[i];
      } else {
        assert x < y by {
          assert CountedBetween(all, y, y) == {};
        }
        assert all[|trace|] == e && e.outcome != Success;
        assert a > 0 ==> all[a - 1] == trace[a - 1];
        assert a <= x;
        NarrowerCounts(all, a, x, y);
      }
    }
  }

  lemma BudgetMore(trace: seq<Event>, e: Event)
    ensures (exists i | 0 <= i < |trace + [e]| :: (trace + [e])[i].outcome == OutOfBudget) <==>
      (exists i | 0 <= i < |trace| :: trace[i].outcome == OutOfBudget) || e.outcome == OutOfBudget
  {
    var all := trace + [e];
    if i :| 0 <= i < |trace| && trace[i].outcome == OutOfBudget {
      assert all[i].outcome == OutOfBudget;
    }
    if e.outcome == OutOfBudget {
      assert all[|trace|].outcome == OutOfBudget;
    }
  }

  /** The end of a call changes the shared variables as the calls say. */
  lemma ReturnTells(s: State, trace: seq<Event>, w: nat, outcome: Outcome)
    requires Tells(s, trace) && Enabled(s, Returned(w, outcome))
    ensures Tells(Apply(s, Returned(w, outcome)), trace + [Event(s.workers[w].job, outcome)])
  {
    var e := Event(s.workers[w].job, outcome);
    var all, t := trace + [e], Apply(s, Returned(w, outcome));
    var a :| 0 <= a <= |trace| && Since(trace, a) && s.misses == |CountedBetween(trace, a, |trace|)|;
    LimitedMore(trace, e, |trace|);
    BetweenMore(trace, e, a, |trace|);
    SixMore(trace, e, a);
    BudgetMore(trace, e);
    SharedAfter(s, w, outcome);
    if outcome == Success {
      assert Since(all, |all|) && CountedBetween(all, |all|, |all|) == {};
    } else {
      assert Since(all, a) by {
        assert a > 0 ==> all[a - 1] == trace[a - 1];
        assert forall i | a <= i < |trace| :: all[i] == trace[i];
      }
    }
    if s.misses >= 6 {
      assert SixInARow(trace);
    }
  }

  /** What a step does to the shared variables. */
  lemma SharedAfter(s: State, w: nat, outcome: Outcome)
    requires Enabled(s, Returned(w, outcome))
    ensures var t := Apply(s, Returned(w, outcome));
      var counts := outcome == Failure || (outcome == RateLimited && s.rateLimited >= 40);
      && t.rateLimited == s.rateLimited + (if outcome == RateLimited then 1 else 0)
      && t.misses == (if outcome == Success then 0 else if counts then s.misses + 1 else s.misses)
      && (t.stop <==> s.stop || outcome == OutOfBudget || (counts && s.misses >= 5))
  {
    var job, attempt := s.workers[w].job, s.workers[w].attempt;
    match outcome {
      case RateLimited => LimitedCases(s, w, job, attempt);
      case _ =>
    }
  }

  lemma StepTells(s: State, before: seq<Event>, step: Step)
    requires Enabled(s, step)
    ensures Tells(s, before) ==>
      Tells(Apply(s, step), before + if step.Returned? then [Event(s.workers[step.worker].job, step.outcome)] else [])
  {
    if Tells(s, before) {
      if step.Returned? {
        ReturnTells(s, before, step.worker, step.outcome);
      } else {
        assert before + [] == before;
      }
    }
  }

  lemma {:induction false} TraceTells(s: State, steps: seq<Step>, before: seq<Event>)
    requires Legal(s, steps)
    ensures Tells(s, before) ==> Tells(After(s, steps), before + Trace(s, steps))
    decreases |steps|
  {
    if steps == [] {
      assert before + [] == before;
    } else {
      var more := if steps[0].Returned? then [Event(s.workers[steps[0].worker].job, steps[0].outcome)] else [];
      StepTells(s, before, steps[0]);
      TraceTells(Apply(s, steps[0]), steps[1..], before + more);
      assert before + more + Trace(Apply(s, steps[0]), steps[1..]) == before + Trace(s, steps);
    }
  }

  /** A run is stopped exactly when a call ran out of budget or six failures came with no success between them. */
  lemma StopExact(s: State, steps: seq<Step>)
    requires Init(s) && Legal(s, steps)
    ensures After(s, steps).stop <==> MustStop(Trace(s, steps))
  {
    var none: seq<Event> := [];
    assert LimitedBefore(none, 0) == {} && CountedBetween(none, 0, 0) == {};
    assert Since(none, 0);
    assert !SixInARow(none) by {
      assert forall a, b | 0 <= a <= b <= |none| :: CountedBetween(none, a, b) == {};
    }
    TraceTells(s, steps, none);
    assert none + Trace(s, steps) == Trace(s, steps);
  }

  /** So a run whose calls give no reason to stop ends every job, each once. */
  lemma AllJobsEnd(s: State, steps: seq<Step>)
    requires Init(s) && Legal(s, steps) && Quiescent(After(s, steps)) && !MustStop(Trace(s, steps))
    ensures NoDup(After(s, steps).ended) && forall j :: j in After(s, steps).ended <==> 0 <= j < s.jobs
  {
    StopExact(s, steps);
    RunComplete(s, steps);
  }

  // ------------------------------------------------------------------------------------------------ what becomes of a job

  /** The job has had neither a success nor the end of the budget, and so many counted failures. */
  ghost predicate Story(trace: seq<Event>, job: Job, failures: int) {
    Of(trace, job, Success) == {} && Of(trace, job, OutOfBudget) == {} && |CountedOf(trace, job)| == failures
  }

  /** A job that is through: one success after at most one failure, or two failures. */
  ghost predicate Through(trace: seq<Event>, job: Job) {
    || (|Of(trace, job, Success)| == 1 && |CountedOf(trace, job)| <= 1)
    || (|Of(trace, job, Success)| == 0 && |CountedOf(trace, job)| == 2)
  }

  ghost predicate Stories(s: State, trace: seq<Event>) {
    && (forall w | 0 <= w < |s.workers| && Busy(s.workers[w]) :: Story(trace, s.workers[w].job, s.workers[w].attempt - 1))
    && (forall j | j >= s.next :: Story(trace, j, 0))
    && (forall j | j in s.ended :: Through(trace, j) || s.stop)
  }

  lemma EventsMore(trace: seq<Event>, e: Event, job: Job)
    ensures forall o :: Of(trace + [e], job, o) == Of(trace, job, o) + if e.job == job && e.outcome == o then {|trace|} else {}
    ensures CountedOf(trace + [e], job) == CountedOf(trace, job) + if e.job == job && Counted(trace + [e], |trace|) then {|trace|} else {}
  {
    forall i | 0 <= i < |trace| ensures Counted(trace + [e], i) <==> Counted(trace, i) {
      CountedMore(trace, e, i);
    }
  }

  /** A call changes the story of its own job only. */
  lemma OtherStories(trace: seq<Event>, e: Event, job: Job, failures: int)
    requires job != e.job
    ensures Story(trace, job, failures) ==> Story(trace + [e], job, failures)
    ensures Through(trace, job) ==> Through(trace + [e], job)
  {
    EventsMore(trace, e, job);
  }

  lemma OwnStory(trace: seq<Event>, e: Event, failures: int)
    requires Story(trace, e.job, failures)
    ensures e.outcome == Success && failures <= 1 ==> Through(trace + [e], e.job)
    ensures e.outcome in {Failure, RateLimited} ==>
      Story(trace + [e], e.job, failures + if Counted(trace + [e], |trace|) then 1 else 0)
    ensures e.outcome in {Failure, RateLimited} && Counted(trace + [e], |trace|) && failures == 1 ==> Through(trace + [e], e.job)
  {
    EventsMore(trace, e, e.job);
  }

  /** The worker's place after a step: still busy with its job, or the job ended and the next one taken or nothing left. */
  lemma JobAfter(s: State, w: nat, outcome: Outcome)
    requires Inv(s) && Enabled(s, Returned(w, outcome))
    ensures var t, job, attempt := Apply(s, Returned(w, outcome)), s.workers[w].job, s.workers[w].attempt;
      var counts := outcome == Failure || (outcome == RateLimited && s.rateLimited >= 40);
      if outcome == RateLimited && !counts then Goes(s, t, w, Waiting(job, attempt))
      else if counts && attempt == 1 && !t.stop then Goes(s, t, w, Calling(job, 2))
      else Ends(s, t, w, job)
  {
    var job, attempt := s.workers[w].job, s.workers[w].attempt;
    match outcome {
      case RateLimited => LimitedCases(s, w, job, attempt);
      case _ =>
    }
  }

  ghost predicate Goes(s: State, t: State, w: nat, x: Worker)
    requires w < |s.workers|
  {
    t.workers == s.workers[w := x] && t.next == s.next && t.ended == s.ended
  }

  ghost predicate Ends(s: State, t: State, w: nat, job: Job)
    requires w < |s.workers|
  {
    && t.ended == s.ended + [job]
    && ((t.workers == s.workers[w := Calling(s.next, 1)] && t.next == s.next + 1) || (t.workers == s.workers[w := Finished] && t.next == s.next))
  }

  /** The calls so far, with perhaps one more of the job. */
  ghost predicate OneMore(trace: seq<Event>, now: seq<Event>, job: Job) {
    now == trace || exists e :: now == trace + [e] && e.job == job
  }

  lemma OthersKept(trace: seq<Event>, now: seq<Event>, own: Job, job: Job, failures: int)
    requires OneMore(trace, now, own) && job != own
    ensures Story(trace, job, failures) ==> Story(now, job, failures)
    ensures Through(trace, job) ==> Through(now, job)
  {
    if now != trace {
      var e :| now == trace + [e] && e.job == own;
      OtherStories(trace, e, job, failures);
    }
  }

  lemma OtherWorkers(s: State, w: nat, trace: seq<Event>, now: seq<Event>)
    requires Inv(s) && w < |s.workers| && Busy(s.workers[w]) && Stories(s, trace) && OneMore(trace, now, s.workers[w].job)
    ensures forall v | 0 <= v < |s.workers| && v != w && Busy(s.workers[v]) :: Story(now, s.workers[v].job, s.workers[v].attempt - 1)
    ensures forall j | j >= s.next :: Story(now, j, 0)
    ensures forall j | j in s.ended :: Through(now, j) || s.stop
  {
    var own := s.workers[w].job;
    forall v | 0 <= v < |s.workers| && v != w && Busy(s.workers[v]) ensures Story(now, s.workers[v].job, s.workers[v].attempt - 1) {
      OthersKept(trace, now, own, s.workers[v].job, s.workers[v].attempt - 1);
    }
    forall j | j >= s.next ensures Story(now, j, 0) {
      OthersKept(trace, now, own, j, 0);
    }
    forall j | j in s.ended ensures Through(now, j) || s.stop {
      OthersKept(trace, now, own, j, 0);
    }
  }

  lemma StoriesGo(s: State, t: State, w: nat, x: Worker, trace: seq<Event>, now: seq<Event>)
    requires Inv(s) && w < |s.workers| && Goes(s, t, w, x) && (s.stop ==> t.stop)
    requires Busy(s.workers[w]) && Busy(x) && x.job == s.workers[w].job && Stories(s, trace)
    requires OneMore(trace, now, x.job) && Story(now, x.job, x.attempt - 1)
    ensures Stories(t, now)
  {
    OtherWorkers(s, w, trace, now);
  }

  lemma StoriesEnd(s: State, t: State, w: nat, job: Job, trace: seq<Event>, now: seq<Event>)
    requires Inv(s) && w < |s.workers| && Busy(s.workers[w]) && s.workers[w].job == job && Ends(s, t, w, job) && (s.stop ==> t.stop)
    requires Stories(s, trace) && OneMore(trace, now, job)
    requires Through(now, job) || t.stop
    ensures Stories(t, now)
  {
    OtherWorkers(s, w, trace, now);
  }

  lemma ReturnStories(s: State, trace: seq<Event>, w: nat, outcome: Outcome)
    requires Inv(s) && Tells(s, trace) && Stories(s, trace) && Enabled(s, Returned(w, outcome))
    ensures Stories(Apply(s, Returned(w, outcome)), trace + [Event(s.workers[w].job, outcome)])
  {
    var job, attempt := s.workers[w].job, s.workers[w].attempt;
    var e := Event(job, outcome);
    var now, t := trace + [e], Apply(s, Returned(w, outcome));
    LimitedMore(trace, e, |trace|);
    OwnStory(trace, e, attempt - 1);
    JobAfter(s, w, outcome);
    StopIsFinal(s, Returned(w, outcome));
    SharedAfter(s, w, outcome);
    var counts := outcome == Failure || (outcome == RateLimited && s.rateLimited >= 40);
    assert counts <==> Counted(now, |trace|);
    if outcome == RateLimited && !counts {
      StoriesGo(s, t, w, Waiting(job, attempt), trace, now);
    } else if counts && attempt == 1 && !t.stop {
      StoriesGo(s, t, w, Calling(job, 2), trace, now);
    } else {
      StoriesEnd(s, t, w, job, trace, now);
    }
  }

  lemma WakeStories(s: State, trace: seq<Event>, w: nat)
    requires Inv(s) && Stories(s, trace) && Enabled(s, Wake(w))
    ensures Stories(Apply(s, Wake(w)), trace)
  {
    var job, attempt := s.workers[w].job, s.workers[w].attempt;
    var t := Apply(s, Wake(w));
    if s.stop {
      assert Ends(s, t, w, job);
      StoriesEnd(s, t, w, job, trace, trace);
    } else {
      StoriesGo(s, t, w, Calling(job, attempt), trace, trace);
    }
  }

  ghost predicate Told(s: State, trace: seq<Event>) {
    Inv(s) && Tells(s, trace) && Stories(s, trace)
  }

  lemma {:induction false} TraceStories(s: State, steps: seq<Step>, before: seq<Event>)
    requires Legal(s, steps)
    ensures Told(s, before) ==> Told(After(s, steps), before + Trace(s, steps))
    decreases |steps|
  {
    if steps == [] {
      assert before + [] == before;
    } else {
      var more := if steps[0].Returned? then [Event(s.workers[steps[0].worker].job, steps[0].outcome)] else [];
      StepStories(s, before, steps[0]);
      TraceStories(Apply(s, steps[0]), steps[1..], before + more);
      assert before + more + Trace(Apply(s, steps[0]), steps[1..]) == before + Trace(s, steps);
    }
  }

  lemma StepStories(s: State, before: seq<Event>, step: Step)
    requires Enabled(s, step)
    ensures Told(s, before) ==>
      Told(Apply(s, step), before + if step.Returned? then [Event(s.workers[step.worker].job, step.outcome)] else [])
  {
    if Told(s, before) {
      InvStep(s, step);
      StepTells(s, before, step);
      if step.Returned? {
        ReturnStories(s, before, step.worker, step.outcome);
      } else {
        assert before + [] == before;
        if step.Wake? {
          WakeStories(s, before, step.worker);
        } else {
          BeginStories(s, before, step.worker);
        }
      }
    }
  }

  lemma BeginStories(s: State, trace: seq<Event>, w: nat)
    requires Stories(s, trace) && Enabled(s, Begin(w))
    ensures Stories(Apply(s, Begin(w)), trace)
  {
  }

  /** Every ended job of a run that was not stopped is through: it succeeded once, after at most one failure, or it failed
      twice and did not succeed. */
  lemma JobsThrough(s: State, steps: seq<Step>)
    requires Init(s) && Legal(s, steps) && !MustStop(Trace(s, steps))
    ensures forall j | j in After(s, steps).ended :: Through(Trace(s, steps), j)
  {
    var none: seq<Event> := [];
    assert LimitedBefore(none, 0) == {} && CountedBetween(none, 0, 0) == {} && Since(none, 0);
    assert !SixInARow(none) by {
      assert forall a, b | 0 <= a <= b <= |none| :: CountedBetween(none, a, b) == {};
    }
    forall j ensures Story(none, j, 0) {
      assert CountedOf(none, j) == {};
    }
    InitInv(s);
    TraceStories(s, steps, none);
    assert none + Trace(s, steps) == Trace(s, steps);
    StopExact(s, steps);
  }

  // ------------------------------------------------------------------------------------------------ termination

  function Weight(w: Worker): nat {
    match w
    case Ready => 1
    case Calling(_, attempt) => if attempt <= ATTEMPTS then 2 * (ATTEMPTS - attempt) + 1 else 0
    case Waiting(_, attempt) => if attempt <= ATTEMPTS then 2 * (ATTEMPTS - attempt) + 2 else 0
    case Finished => 0
  }

  function Weights(workers: seq<Worker>): nat {
    if workers == [] then 0 else Weights(workers[..|workers| - 1]) + Weight(workers[|workers| - 1])
  }

  /** How many steps the pool can still take. */
  function Remaining(s: State): nat
    requires s.next <= s.jobs
  {
    4 * (s.jobs - s.next) + 2 * (RATE_LIMIT_WAITS - Waits(s)) + Weights(s.workers)
  }

  lemma {:induction false} WeightsUpdate(workers: seq<Worker>, w: nat, x: Worker)
    requires w < |workers|
    ensures Weights(workers[w := x]) == Weights(workers) - Weight(workers[w]) + Weight(x)
    decreases |workers|
  {
    var n := |workers| - 1;
    if w == n {
      assert workers[w := x][..n] == workers[..n];
    } else {
      assert workers[w := x][..n] == workers[..n][w := x];
      WeightsUpdate(workers[..n], w, x);
    }
  }

  lemma TakeJobUses(s: State, w: nat)
    requires s.next <= s.jobs && w < |s.workers| && Weight(s.workers[w]) > 0
    ensures TakeJob(s, w).next <= s.jobs && Remaining(TakeJob(s, w)) < Remaining(s)
  {
    WeightsUpdate(s.workers, w, TakeJob(s, w).workers[w]);
  }

  lemma AttemptUses(s: State, w: nat, job: Job, attempt: nat)
    requires s.next <= s.jobs && w < |s.workers| && Weight(s.workers[w]) > 0 && attempt >= 1
    requires attempt <= ATTEMPTS ==> Weight(Calling(job, attempt)) < Weight(s.workers[w])
    ensures Attempt(s, w, job, attempt).next <= s.jobs && Remaining(Attempt(s, w, job, attempt)) < Remaining(s)
  {
    if attempt <= ATTEMPTS && !s.stop {
      WeightsUpdate(s.workers, w, Calling(job, attempt));
    } else {
      TakeJobUses(s.(ended := s.ended + [job]), w);
    }
  }

  /** Every step uses up some of it, the waits that give an attempt back included. */
  lemma StepDecreases(s: State, step: Step)
    requires Inv(s) && Enabled(s, step)
    ensures Apply(s, step).next <= Apply(s, step).jobs && Remaining(Apply(s, step)) < Remaining(s)
  {
    var w := step.worker;
    if step.Begin? {
      TakeJobUses(s, w);
    } else {
      var job, attempt := s.workers[w].job, s.workers[w].attempt;
      if step.Wake? {
        AttemptUses(s, w, job, attempt);
      } else if step.outcome.Success? {
        TakeJobUses(s.(misses := 0, ended := s.ended + [job]), w);
      } else if step.outcome.OutOfBudget? {
        TakeJobUses(s.(stop := true, ended := s.ended + [job]), w);
      } else if step.outcome.Failure? {
        AttemptUses(Miss(s), w, job, attempt + 1);
      } else {
        var t := s.(rateLimited := s.rateLimited + 1);
        if t.rateLimited <= RATE_LIMIT_WAITS {
          WeightsUpdate(s.workers, w, Waiting(job, attempt));
        } else {
          AttemptUses(Miss(t), w, job, attempt + 1);
        }
      }
    }
  }

  /** So every run of the pool is finite: no schedule has more steps than this. */
  lemma {:induction false} RunsEnd(s: State, steps: seq<Step>)
    requires Inv(s) && Legal(s, steps)
    ensures |steps| <= Remaining(s)
    decreases |steps|
  {
    if steps != [] {
      InvStep(s, steps[0]);
      StepDecreases(s, steps[0]);
      RunsEnd(Apply(s, steps[0]), steps[1..]);
    }
  }

  // ------------------------------------------------------------------------------------------------ the shared variables

  /** The variables the workers share, updated in place between awaits. */
  class Pool {
    const jobs: nat
    var next: nat
    var misses: nat
    var rateLimited: nat
    var stop: bool
    var workers: seq<Worker>
    var ended: seq<Job>
    var calls: nat

    constructor (jobs: nat, concurrency: nat)
      requires concurrency > 0
      ensures Init(Snapshot()) && this.jobs == jobs
      ensures |workers| == if concurrency <= jobs then concurrency else jobs
    {
      this.jobs := jobs;
      next, misses, rateLimited, stop, ended, calls := 0, 0, 0, false, [], 0;
      workers := seq(if concurrency <= jobs then concurrency else jobs, _ => Ready);
    }

    function Snapshot(): State
      reads this
    {
      State(jobs, next, misses, rateLimited, stop, workers, ended, calls)
    }

    /** while (!stop && next < jobs.length): the next job, or the end of the worker. */
    method TakeNext(w: nat)
      requires w < |workers|
      modifies this
      ensures Snapshot() == TakeJob(old(Snapshot()), w)
    {
      if !stop && next < jobs {
        workers, next, calls := workers[w := Calling(next, 1)], next + 1, calls + 1;
      } else {
        workers := workers[w := Finished];
      }
    }

    /** The job is over: afterJob, then the next one. */
    method End(w: nat, job: Job)
      requires w < |workers|
      modifies this
      ensures Snapshot() == EndJob(old(Snapshot()), w, job)
    {
      ended := ended + [job];
      TakeNext(w);
    }

    /** for (...; attempt <= 2 && !stop; ...): another call, or the end of the job. */
    method Try(w: nat, job: Job, attempt: nat)
      requires w < |workers|
      modifies this
      ensures Snapshot() == Attempt(old(Snapshot()), w, job, attempt)
    {
      if attempt <= ATTEMPTS && !stop {
        calls, workers := calls + 1, workers[w := Calling(job, attempt)];
      } else {
        End(w, job);
      }
    }

    /** The catch block. */
    method Caught(w: nat, outcome: Outcome)
      requires w < |workers| && workers[w].Calling? && outcome != Success
      modifies this
      ensures Snapshot() == Apply(old(Snapshot()), Returned(w, outcome))
    {
      var job, attempt := workers[w].job, workers[w].attempt;
      if outcome.OutOfBudget? {
        stop := true;
        End(w, job);
        return;
      }
      if outcome.RateLimited? {
        rateLimited := rateLimited + 1;
        if rateLimited <= RATE_LIMIT_WAITS {
          workers := workers[w := Waiting(job, attempt)];
          return;
        }
      }
      misses := misses + 1;
      if misses >= MISSES_TO_STOP {
        stop := true;
      }
      Try(w, job, attempt + 1);
    }

    /** From the start of a worker, or from its await, to its next await. */
    method Resume(step: Step)
      requires Inv(Snapshot()) && Enabled(Snapshot(), step)
      modifies this
      ensures Snapshot() == Apply(old(Snapshot()), step) && Inv(Snapshot())
    {
      InvStep(Snapshot(), step);
      match step {
        case Begin(w) => TakeNext(w);
        case Wake(w) => Try(w, workers[w].job, workers[w].attempt);
        case Returned(w, outcome) =>
          if outcome.Success? {
            misses := 0;
            End(w, workers[w].job);
          } else {
            Caught(w, outcome);
          }
      }
    }
  }
}
