/**
 * Any number of publishing, activating and retiring processes on one database, each of which may stop at any step.
 * Activation locks its pinned source releases (FOR SHARE), so retiring one waits until the activation has ended.
 */
module ReleaseProtocol {
  import opened Wrappers
  import opened ReleaseContent
  import opened ReleasePublish

  type Pid = nat

  datatype Pin = Pin(version: Version, digest: Digest)

  /** A publishing run: the manifest it stages, and whether its final count has matched. */
  datatype Publisher = Publisher(manifest: Manifest, counted: bool)

  /** An open activation transaction: what it activates, the sources it must pin, the ones it has locked. */
  datatype Activation = Activation(target: Pin, wanted: set<Pin>, locked: set<Pin>)

  datatype State = State(
    releases: map<Version, Release>, publishers: map<Pid, Publisher>, activations: map<Pid, Activation>)

  datatype Step =
    | Create(pid: Pid, manifest: Manifest)
    | Resume(pid: Pid, manifest: Manifest)
    | FlushSome(pid: Pid, rows: seq<Answer>)
    | CountAll(pid: Pid)
    | Finalize(pid: Pid)
    | OpenActivation(pid: Pid, target: Pin, wanted: set<Pin>)
    | Lock(pid: Pid, pin: Pin)
    | CommitActivation(pid: Pid)
    | Stop(pid: Pid)
    | Retire(version: Version)

  predicate Holds(s: State, pin: Pin, status: Status) {
    && pin.version in s.releases
    && s.releases[pin.version].digest == pin.digest && s.releases[pin.version].status == status
  }

  predicate Locked(s: State, version: Version) {
    exists pid | pid in s.activations :: exists pin | pin in s.activations[pid].locked :: pin.version == version
  }

  predicate Enabled(s: State, step: Step) {
    match step
    case Create(pid, m) => pid !in s.publishers && m.version !in s.releases && DistinctBoards(m.boards)
    case Resume(pid, m) => pid !in s.publishers && m.version in s.releases && Resumable(s.releases, m)
    case FlushSome(pid, rows) =>
      && pid in s.publishers
      && Elements(rows) <= Elements(Rows(s.publishers[pid].manifest.boards))
      && s.publishers[pid].manifest.version in s.releases
    case CountAll(pid) =>
      && pid in s.publishers && s.publishers[pid].manifest.version in s.releases
      && |s.releases[s.publishers[pid].manifest.version].answers| == |Rows(s.publishers[pid].manifest.boards)|
    case Finalize(pid) =>
      && pid in s.publishers && s.publishers[pid].counted
      && Holds(s, Pin(s.publishers[pid].manifest.version, Digest(s.publishers[pid].manifest)), Draft)
    case OpenActivation(pid, _, _) => pid !in s.activations
    case Lock(pid, pin) => pid in s.activations && pin in s.activations[pid].wanted && Holds(s, pin, Published)
    case CommitActivation(pid) =>
      && pid in s.activations && s.activations[pid].wanted == s.activations[pid].locked
      && Holds(s, s.activations[pid].target, Feasibility)
      && !Locked(s, s.activations[pid].target.version)
    case Stop(_) => true
    case Retire(version) =>
      version in s.releases && s.releases[version].status == Published && !Locked(s, version)
  }

  function SetStatus(s: State, version: Version, status: Status): map<Version, Release>
    requires version in s.releases
  {
    s.releases[version := s.releases[version].(status := status)]
  }

  function Apply(s: State, step: Step): State
    requires Enabled(s, step)
  {
    match step
    case Create(pid, m) =>
      s.(releases := s.releases[m.version := Release(Draft, Digest(m), Keys(m.boards), {})],
         publishers := s.publishers[pid := Publisher(m, false)])
    case Resume(pid, m) => s.(publishers := s.publishers[pid := Publisher(m, false)])
    case FlushSome(pid, rows) =>
      var v := s.publishers[pid].manifest.version;
      s.(releases := s.releases[v := s.releases[v].(answers := InsertNew(s.releases[v].answers, rows))])
    case CountAll(pid) => s.(publishers := s.publishers[pid := s.publishers[pid].(counted := true)])
    case Finalize(pid) => s.(releases := SetStatus(s, s.publishers[pid].manifest.version, Feasibility))
    case OpenActivation(pid, target, wanted) =>
      s.(activations := s.activations[pid := Activation(target, wanted, {})])
    case Lock(pid, pin) =>
      s.(activations := s.activations[pid := s.activations[pid].(locked := s.activations[pid].locked + {pin})])
    case CommitActivation(pid) =>
      s.(releases := SetStatus(s, s.activations[pid].target.version, Published), activations := s.activations - {pid})
    case Stop(pid) => s.(publishers := s.publishers - {pid}, activations := s.activations - {pid})
    case Retire(version) => s.(releases := SetStatus(s, version, Retired))
  }

  ghost predicate Legal(s: State, steps: seq<Step>)
    decreases |steps|
  {
    steps != [] ==> Enabled(s, steps[0]) && Legal(Apply(s, steps[0]), steps[1..])
  }

  ghost function After(s: State, steps: seq<Step>): State
    requires Legal(s, steps)
    decreases |steps|
  {
    if steps == [] then s else After(Apply(s, steps[0]), steps[1..])
  }

  ghost predicate PublisherOk(s: State, p: Publisher) {
    && p.manifest.version in s.releases
    && s.releases[p.manifest.version].digest == Digest(p.manifest)
    && (p.counted ==> s.releases[p.manifest.version].answers == Elements(Rows(p.manifest.boards))
                      && DuplicateFree(p.manifest.boards))
  }

  ghost predicate Inv(s: State) {
    && StoreOk(s.releases)
    && (forall pid | pid in s.publishers :: PublisherOk(s, s.publishers[pid]))
    && (forall pid, pin | pid in s.activations && pin in s.activations[pid].locked :: Holds(s, pin, Published))
    && (forall pid | pid in s.activations :: s.activations[pid].locked <= s.activations[pid].wanted)
  }

  ghost predicate Init(s: State) {
    s.releases == map[] && s.publishers == map[] && s.activations == map[]
  }

  lemma FlushKeeps(s: State, pid: Pid, rows: seq<Answer>)
    requires Inv(s) && Enabled(s, FlushSome(pid, rows))
    ensures
      var v := s.publishers[pid].manifest.version;
      var r := s.releases[v];
      var t := r.(answers := InsertNew(r.answers, rows));
      ReleaseOk(v, t) && r.answers <= t.answers && (r.answers == Elements(Rows(r.digest.of.boards)) ==> t == r)
  {
    assert PublisherOk(s, s.publishers[pid]);
    var v := s.publishers[pid].manifest.version;
    assert ReleaseOk(v, s.releases[v]);
    InsertNewIsUnion(s.releases[v].digest.of.boards, s.releases[v].answers, rows);
  }

  lemma StoreStep(s: State, step: Step)
    requires Inv(s) && Enabled(s, step)
    ensures StoreOk(Apply(s, step).releases)
  {
    match step {
      case FlushSome(pid, rows) => FlushKeeps(s, pid, rows);
      case Finalize(pid) => assert PublisherOk(s, s.publishers[pid]);
      case _ =>
    }
  }

  lemma PublisherStep(s: State, step: Step, pid: Pid)
    requires Inv(s) && Enabled(s, step) && pid in Apply(s, step).publishers
    ensures PublisherOk(Apply(s, step), Apply(s, step).publishers[pid])
  {
    if pid in s.publishers {
      assert PublisherOk(s, s.publishers[pid]);
    }
    match step {
      case FlushSome(q, rows) => FlushKeeps(s, q, rows);
      case CountAll(q) =>
        var m := s.publishers[q].manifest;
        assert PublisherOk(s, s.publishers[q]) && ReleaseOk(m.version, s.releases[m.version]);
        CountForcesEquality(m.boards, s.releases[m.version].answers);
      case _ =>
    }
  }

  /** A locked source stays published: retiring waits for the lock. */
  lemma LockStep(s: State, step: Step, pid: Pid, pin: Pin)
    requires Inv(s) && Enabled(s, step)
    requires pid in Apply(s, step).activations && pin in Apply(s, step).activations[pid].locked
    ensures Holds(Apply(s, step), pin, Published)
  {
    if pid in s.activations && pin in s.activations[pid].locked {
      assert Holds(s, pin, Published);
    }
  }

  lemma InvStep(s: State, step: Step)
    requires Inv(s) && Enabled(s, step)
    ensures Inv(Apply(s, step))
  {
    var t := Apply(s, step);
    StoreStep(s, step);
    forall pid | pid in t.publishers ensures PublisherOk(t, t.publishers[pid]) {
      PublisherStep(s, step, pid);
    }
    forall pid, pin | pid in t.activations && pin in t.activations[pid].locked ensures Holds(t, pin, Published) {
      LockStep(s, step, pid, pin);
    }
  }

  function Order(status: Status): nat {
    match status
    case Draft => 0
    case Feasibility => 1
    case Published => 2
    case Retired => 3
  }

  /** One step moves a release at most one status forward, never changes its content, and only adds answers. */
  lemma ForwardStep(s: State, step: Step, v: Version)
    requires Inv(s) && Enabled(s, step) && v in s.releases
    ensures v in Apply(s, step).releases
    ensures
      var before, after := s.releases[v], Apply(s, step).releases[v];
      && Order(before.status) <= Order(after.status) <= Order(before.status) + 1
      && after.digest == before.digest && after.boards == before.boards
      && before.answers <= after.answers
      && (before.status != Draft ==> after.answers == before.answers)
  {
    if step.FlushSome? {
      FlushKeeps(s, step.pid, step.rows);
      assert ReleaseOk(v, s.releases[v]);
    }
  }

  /** What a step does to the releases, told by the step: who creates one, fills it, and moves it on. */
  lemma StepTells(s: State, step: Step, v: Version)
    requires Enabled(s, step)
    ensures v !in s.releases ==> (v in Apply(s, step).releases <==> step.Create? && step.manifest.version == v)
    ensures v !in s.releases && v in Apply(s, step).releases ==>
      Apply(s, step).releases[v] == Release(Draft, Digest(step.manifest), set b | b in step.manifest.boards :: b.key, {})
    ensures v in s.releases ==> v in Apply(s, step).releases
    ensures v in s.releases ==>
      var status := if step.Finalize? && s.publishers[step.pid].manifest.version == v then Feasibility
        else if step.CommitActivation? && s.activations[step.pid].target.version == v then Published
        else if step == Retire(v) then Retired
        else s.releases[v].status;
      Apply(s, step).releases[v].status == status
    ensures v in s.releases && step.FlushSome? && s.publishers[step.pid].manifest.version == v ==>
      var before, after := s.releases[v].answers, Apply(s, step).releases[v].answers;
      && before <= after <= before + Elements(step.rows)
      && forall a | a in step.rows :: exists b | b in after :: SameSlot(a, b)
    ensures v in s.releases && !(step.FlushSome? && s.publishers[step.pid].manifest.version == v) ==>
      Apply(s, step).releases[v].answers == s.releases[v].answers
  {
    if step.FlushSome? && s.publishers[step.pid].manifest.version == v {
      var before, after := s.releases[v].answers, Apply(s, step).releases[v].answers;
      forall a | a in step.rows ensures exists b | b in after :: SameSlot(a, b) {
        if forall b | b in before :: !SameSlot(a, b) {
          assert a in after;
        }
      }
    }
  }

  lemma ThreeSteps(s: State, a: Step, b: Step, c: Step)
    requires Enabled(s, a) && Enabled(Apply(s, a), b) && Enabled(Apply(Apply(s, a), b), c)
    ensures Legal(s, [a, b, c]) && After(s, [a, b, c]) == Apply(Apply(Apply(s, a), b), c)
  {
    var s1 := Apply(s, a);
    var s2 := Apply(s1, b);
    assert [a, b, c][1..] == [b, c] && [b, c][1..] == [c];
    var none: seq<Step> := [c][1..];
    assert none == [];
    assert Legal(Apply(s2, c), none) && After(Apply(s2, c), none) == Apply(s2, c);
    assert Legal(s2, [c]) && After(s2, [c]) == Apply(s2, c);
    assert Legal(s1, [b, c]) && After(s1, [b, c]) == Apply(s2, c);
  }

  /** A publisher of a manifest that repeats no player can always finish: flush, count, finalize stage exactly its answers. */
  lemma PublisherFinishes(s: State, pid: Pid)
    requires Inv(s) && pid in s.publishers && DuplicateFree(s.publishers[pid].manifest.boards)
    requires s.releases[s.publishers[pid].manifest.version].status == Draft
    ensures
      var m := s.publishers[pid].manifest;
      var steps := [FlushSome(pid, Rows(m.boards)), CountAll(pid), Finalize(pid)];
      && Legal(s, steps) && m.version in After(s, steps).releases
      && After(s, steps).releases[m.version].status == Feasibility
      && forall a :: a in After(s, steps).releases[m.version].answers <==> IsAnswerOf(m.boards, a)
  {
    var m := s.publishers[pid].manifest;
    var rows := Rows(m.boards);
    assert PublisherOk(s, s.publishers[pid]) && ReleaseOk(m.version, s.releases[m.version]);
    InsertNewIsUnion(m.boards, s.releases[m.version].answers, rows);
    CountForcesEquality(m.boards, Elements(rows));
    var s1 := Apply(s, FlushSome(pid, rows));
    assert s1.releases[m.version].answers == Elements(rows);
    assert Enabled(s1, CountAll(pid));
    var s2 := Apply(s1, CountAll(pid));
    assert Enabled(s2, Finalize(pid));
    ThreeSteps(s, FlushSome(pid, rows), CountAll(pid), Finalize(pid));
    forall a ensures a in Elements(rows) <==> IsAnswerOf(m.boards, a) {
      RowsExact(m.boards, a);
    }
  }

  /** The steps that lock the pins and commit. */
  function LockAll(pid: Pid, pins: seq<Pin>): seq<Step> {
    if pins == [] then [CommitActivation(pid)] else [Lock(pid, pins[0])] + LockAll(pid, pins[1..])
  }

  /** Only published releases are locked. */
  lemma NotLocked(s: State, pin: Pin)
    requires Inv(s) && Holds(s, pin, Feasibility)
    ensures !Locked(s, pin.version)
  {
    forall pid, other | pid in s.activations && other in s.activations[pid].locked ensures other.version != pin.version {
      assert Holds(s, other, Published);
    }
  }

  lemma {:induction false} ActivationFinishes(s: State, pid: Pid, pins: seq<Pin>)
    requires Inv(s) && pid in s.activations && Holds(s, s.activations[pid].target, Feasibility)
    requires s.activations[pid].wanted == s.activations[pid].locked + Elements(pins)
    requires forall pin | pin in pins :: Holds(s, pin, Published)
    ensures Legal(s, LockAll(pid, pins)) && Holds(After(s, LockAll(pid, pins)), s.activations[pid].target, Published)
    decreases |pins|
  {
    var step := LockAll(pid, pins)[0];
    if pins == [] {
      assert s.activations[pid].wanted == s.activations[pid].locked;
      NotLocked(s, s.activations[pid].target);
      var t := Apply(s, step);
      assert LockAll(pid, pins)[1..] == [];
      assert After(t, []) == t;
    } else {
      assert pins[0] in pins && pins[0] in Elements(pins);
      InvStep(s, step);
      var t := Apply(s, step);
      assert pins == [pins[0]] + pins[1..];
      assert Elements(pins) == {pins[0]} + Elements(pins[1..]);
      assert t.releases == s.releases && t.activations[pid].locked == s.activations[pid].locked + {pins[0]};
      forall pin | pin in pins[1..] ensures Holds(t, pin, Published) {
        assert pin in pins && Holds(s, pin, Published);
      }
      ActivationFinishes(t, pid, pins[1..]);
      assert LockAll(pid, pins)[1..] == LockAll(pid, pins[1..]);
    }
  }

  /** A staged release whose sources are all published can always be activated. */
  lemma CanActivate(s: State, pid: Pid, target: Pin, pins: seq<Pin>)
    requires Inv(s) && pid !in s.activations && Holds(s, target, Feasibility) && forall pin | pin in pins :: Holds(s, pin, Published)
    ensures var steps := [OpenActivation(pid, target, Elements(pins))] + LockAll(pid, pins);
      Legal(s, steps) && IsPublished(After(s, steps).releases, target)
  {
    var step := OpenActivation(pid, target, Elements(pins));
    InvStep(s, step);
    ActivationFinishes(Apply(s, step), pid, pins);
    assert ([step] + LockAll(pid, pins))[1..] == LockAll(pid, pins);
  }

  lemma InitInv(s: State)
    requires Init(s)
    ensures Inv(s)
  {
  }

  lemma {:induction false} InvRun(s: State, steps: seq<Step>)
    requires Inv(s) && Legal(s, steps)
    ensures Inv(After(s, steps))
    decreases |steps|
  {
    if steps != [] {
      InvStep(s, steps[0]);
      InvRun(Apply(s, steps[0]), steps[1..]);
    }
  }

  /** In every state reached from an empty store a staged, published or retired release holds exactly its manifest's answers. */
  lemma ReachableExact(s: State, steps: seq<Step>, v: Version)
    requires Init(s) && Legal(s, steps) && v in After(s, steps).releases
    ensures
      var r := After(s, steps).releases[v];
      r.status != Draft ==>
        DuplicateFree(r.digest.of.boards) && forall a :: a in r.answers <==> IsAnswerOf(r.digest.of.boards, a)
  {
    InitInv(s);
    InvRun(s, steps);
    var r := After(s, steps).releases[v];
    assert ReleaseOk(v, r);
    forall a ensures r.status != Draft ==> (a in r.answers <==> IsAnswerOf(r.digest.of.boards, a)) {
      RowsExact(r.digest.of.boards, a);
    }
  }

  /** Over any run a release's status only moves forward and, once it has left draft, its rows never change. */
  lemma {:induction false} ForwardRun(s: State, steps: seq<Step>, v: Version)
    requires Inv(s) && Legal(s, steps) && v in s.releases
    ensures v in After(s, steps).releases
    ensures Order(s.releases[v].status) <= Order(After(s, steps).releases[v].status)
    ensures s.releases[v].digest == After(s, steps).releases[v].digest
    ensures s.releases[v].status != Draft ==> s.releases[v].answers == After(s, steps).releases[v].answers
    decreases |steps|
  {
    if steps != [] {
      InvStep(s, steps[0]);
      ForwardStep(s, steps[0], v);
      ForwardRun(Apply(s, steps[0]), steps[1..], v);
    }
  }

  /** The pinned release is there, published, with the pinned content. */
  ghost predicate IsPublished(releases: map<Version, Release>, pin: Pin) {
    pin.version in releases && releases[pin.version].digest == pin.digest && releases[pin.version].status == Published
  }

  /** When an activation commits, every source it verified is published, unchanged, in the very state it commits to. */
  lemma ActivationPinsSources(s: State, pid: Pid)
    requires Inv(s) && Enabled(s, CommitActivation(pid))
    ensures forall pin | pin in s.activations[pid].wanted :: IsPublished(Apply(s, CommitActivation(pid)).releases, pin)
    ensures IsPublished(Apply(s, CommitActivation(pid)).releases, s.activations[pid].target)
  {
    forall pin | pin in s.activations[pid].wanted ensures IsPublished(Apply(s, CommitActivation(pid)).releases, pin) {
      assert Holds(s, pin, Published);
    }
  }

  /** From the first lock to its end, no step of anyone else unpublishes a source an activation has locked. */
  lemma {:induction false} LockHolds(s: State, steps: seq<Step>, pid: Pid, pin: Pin)
    requires Inv(s) && Legal(s, steps) && pid in s.activations && pin in s.activations[pid].locked
    requires forall i | 0 <= i < |steps| :: steps[i] != Stop(pid) && steps[i] != CommitActivation(pid)
    ensures IsPublished(After(s, steps).releases, pin)
    decreases |steps|
  {
    if steps == [] {
      assert Holds(s, pin, Published);
    } else {
      InvStep(s, steps[0]);
      assert pid in Apply(s, steps[0]).activations && pin in Apply(s, steps[0]).activations[pid].locked;
      LockHolds(Apply(s, steps[0]), steps[1..], pid, pin);
    }
  }
}
