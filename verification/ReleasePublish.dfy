/** The publish command: a release's answers are written in committed batches, and a crashed run can be resumed. */
module ReleasePublish {
  import opened Wrappers
  import opened ReleaseContent

  datatype Status = Draft | Feasibility | Published | Retired

  datatype Release = Release(status: Status, digest: Digest, boards: set<BoardKey>, answers: set<Answer>)

  const ANSWER_CHUNK := 5_000

  /** How a run of publish ends: done, refused with an error, or dead after its last committed transaction. */
  datatype Outcome = Done | Refused | Crashed

  function Keys(boards: seq<Board>): set<BoardKey> {
    set b | b in boards :: b.key
  }

  /** What every reachable release satisfies. */
  ghost predicate ReleaseOk(version: Version, r: Release) {
    var boards := r.digest.of.boards;
    && r.digest.of.version == version
    && DistinctBoards(boards)
    && r.boards == Keys(boards)
    && r.answers <= Elements(Rows(boards))
    && (r.status != Draft ==> r.answers == Elements(Rows(boards)) && DuplicateFree(boards))
  }

  ghost predicate StoreOk(releases: map<Version, Release>) {
    forall v | v in releases :: ReleaseOk(v, releases[v])
  }

  predicate Resumable(releases: map<Version, Release>, m: Manifest) {
    m.version in releases ==>
      releases[m.version].digest == Digest(m) && releases[m.version].status in {Draft, Feasibility}
  }

  function OfBoard(answers: set<Answer>, key: BoardKey): set<Answer> {
    set a | a in answers && a.board == key
  }

  class Store {
    var releases: map<Version, Release>

    constructor ()
      ensures releases == map[]
    {
      releases := map[];
    }

    /** One committed batch of answers: the rows whose slot is free are inserted. */
    method Flush(version: Version, rows: seq<Answer>)
      requires version in releases
      modifies this
      ensures version in releases
      ensures releases == old(releases)[version := releases[version]]
      ensures releases[version] == old(releases)[version].(answers := InsertNew(old(releases)[version].answers, rows))
      ensures
        var boards := old(releases)[version].digest.of.boards;
        DistinctBoards(boards) && old(releases)[version].answers <= Elements(Rows(boards)) && Elements(rows) <= Elements(Rows(boards)) ==>
          releases[version].answers == old(releases)[version].answers + Elements(rows)
    {
      var r := releases[version];
      releases := releases[version := r.(answers := InsertNew(r.answers, rows))];
      ghost var boards := r.digest.of.boards;
      if DistinctBoards(boards) && r.answers <= Elements(Rows(boards)) && Elements(rows) <= Elements(Rows(boards)) {
        InsertNewIsUnion(boards, r.answers, rows);
      }
    }

    /** The board loop: pending rows are flushed whenever a chunk is full, boards that are complete are skipped. */
    method FlushBoards(m: Manifest, commits: nat) returns (left: nat, alive: bool, excess: bool)
      requires m.version in releases && ReleaseOk(m.version, releases[m.version])
      requires releases[m.version].digest == Digest(m)
      modifies this
      ensures m.version in releases
      ensures releases[m.version] == old(releases)[m.version].(answers := releases[m.version].answers)
      ensures releases == old(releases)[m.version := releases[m.version]]
      ensures old(releases)[m.version].answers <= releases[m.version].answers <= Elements(Rows(m.boards))
      ensures !excess
      ensures alive ==> releases[m.version].answers == Elements(Rows(m.boards))
      ensures left <= commits && (commits >= |m.boards| + 1 ==> alive && left + |m.boards| + 1 >= commits)
    {
      ghost var before := releases;
      var stored := releases[m.version].answers;
      var pending: seq<Answer> := [];
      left := commits;
      for b := 0 to |m.boards|
        invariant m.version in releases
        invariant releases[m.version] == before[m.version].(answers := releases[m.version].answers)
        invariant releases == before[m.version := releases[m.version]]
        invariant stored <= releases[m.version].answers <= Elements(Rows(m.boards))
        invariant Elements(pending) <= Elements(Rows(m.boards))
        invariant Elements(Rows(m.boards[..b])) <= releases[m.version].answers + Elements(pending)
        invariant left <= commits && commits <= left + b
      {
        var board := m.boards[b];
        var rows := BoardRows(board, |board.cells|);
        var present := OfBoard(stored, board.key);
        SkipIsSound(m.boards, b, stored);
        if |present| > |rows| {
          return left, true, true;
        }
        if |present| < |rows| {
          assert Elements(pending + rows) == Elements(pending) + Elements(rows);
          pending := pending + rows;
          if |pending| >= ANSWER_CHUNK {
            if left == 0 {
              return 0, false, false;
            }
            Flush(m.version, pending);
            left := left - 1;
            pending := [];
          }
        }
      }
      assert m.boards[..|m.boards|] == m.boards;
      if |pending| > 0 {
        if left == 0 {
          return 0, false, false;
        }
        Flush(m.version, pending);
        left := left - 1;
      }
      alive, excess := true, false;
    }

    /** From the stored release on: the finished-release test, the answers, the final count, the status. */
    method Complete(m: Manifest, commits: nat) returns (outcome: Outcome)
      requires m.version in releases && ReleaseOk(m.version, releases[m.version])
      requires releases[m.version].digest == Digest(m) && releases[m.version].status in {Draft, Feasibility}
      modifies this
      ensures m.version in releases && ReleaseOk(m.version, releases[m.version])
      ensures releases == old(releases)[m.version := releases[m.version]]
      ensures releases[m.version].digest == Digest(m)
      ensures old(releases)[m.version].answers <= releases[m.version].answers
      ensures outcome == Done ==> releases[m.version].status == Feasibility
      ensures outcome == Refused ==> !DuplicateFree(m.boards)
      ensures outcome == Crashed ==> commits < |m.boards| + 2
    {
      CountForcesEquality(m.boards, releases[m.version].answers);
      if releases[m.version].status == Feasibility && |releases[m.version].answers| != |Rows(m.boards)| {
        return Refused;
      }
      var left, alive, excess := FlushBoards(m, commits);
      if excess {
        return Refused;
      }
      if !alive {
        return Crashed;
      }
      CountForcesEquality(m.boards, releases[m.version].answers);
      if |releases[m.version].answers| != |Rows(m.boards)| {
        return Refused;
      }
      if releases[m.version].status == Draft {
        if left == 0 {
          return Crashed;
        }
        releases := releases[m.version := releases[m.version].(status := Feasibility)];
      }
      outcome := Done;
    }

    /**
     * One run of publish that lives for `commits` committed transactions. Whatever happens, the store stays in order
     * and no other release changes; a published or retired release is never touched. A run that is done has staged
     * exactly the manifest's answers. A duplicate-free manifest on a resumable release is never refused, so after any
     * number of crashes one undisturbed run finishes.
     */
    method Publish(m: Manifest, commits: nat) returns (outcome: Outcome)
      requires StoreOk(releases)
      modifies this
      ensures StoreOk(releases)
      ensures forall v | v in old(releases) && (v != m.version || old(releases)[v].status in {Published, Retired}) ::
        v in releases && releases[v] == old(releases)[v]
      ensures forall v | v in releases && v != m.version :: v in old(releases)
      ensures m.version in old(releases) ==>
        m.version in releases && old(releases)[m.version].answers <= releases[m.version].answers
      ensures outcome == Done ==>
        && m.version in releases && releases[m.version].digest == Digest(m)
        && releases[m.version].status == Feasibility
        && DuplicateFree(m.boards)
        && (forall a :: a in releases[m.version].answers <==> IsAnswerOf(m.boards, a))
      ensures (exists i, j :: 0 <= i < j < |m.boards| && m.boards[i].key == m.boards[j].key) ==>
        outcome == Refused && releases == old(releases)
      ensures (m.version in old(releases)
               && (old(releases)[m.version].digest != Digest(m) || old(releases)[m.version].status !in {Draft, Feasibility})) ==>
        outcome == Refused && releases == old(releases)
      ensures outcome == Refused ==>
        || (exists i, j :: 0 <= i < j < |m.boards| && m.boards[i].key == m.boards[j].key)
        || (m.version in old(releases)
            && (old(releases)[m.version].digest != Digest(m) || old(releases)[m.version].status !in {Draft, Feasibility}))
        || !DuplicateFree(m.boards)
      ensures outcome == Crashed ==> commits < |m.boards| + 3
    {
      if !DistinctBoards(m.boards) || !Resumable(releases, m) {
        return Refused;
      }
      var left := commits;
      if m.version !in releases {
        if left == 0 {
          return Crashed;
        }
        left := left - 1;
        releases := releases[m.version := Release(Draft, Digest(m), Keys(m.boards), {})];
      }
      outcome := Complete(m, left);
      forall a ensures outcome == Done ==> (a in releases[m.version].answers <==> IsAnswerOf(m.boards, a)) {
        RowsExact(m.boards, a);
      }
    }
  }

  lemma BoardRowsInManifest(boards: seq<Board>, b: nat)
    requires b < |boards|
    ensures Elements(BoardRows(boards[b], |boards[b].cells|)) <= Elements(Rows(boards))
  {
    forall a | a in BoardRows(boards[b], |boards[b].cells|) ensures a in Rows(boards) {
      BoardRowsExact(boards[b], |boards[b].cells|, a);
      RowsExact(boards, a);
    }
  }

  lemma BoardPresent(boards: seq<Board>, b: nat, stored: set<Answer>)
    requires b < |boards| && DistinctBoards(boards) && stored <= Elements(Rows(boards))
    ensures OfBoard(stored, boards[b].key) <= Elements(BoardRows(boards[b], |boards[b].cells|))
  {
    forall a | a in OfBoard(stored, boards[b].key) ensures a in BoardRows(boards[b], |boards[b].cells|) {
      assert a in Rows(boards);
      RowsExact(boards, a);
      BoardRowsExact(boards[b], |boards[b].cells|, a);
    }
  }

  /** The per-board test is sound: counts never exceed, and a board with all its rows counted has them all stored. */
  lemma SkipIsSound(boards: seq<Board>, b: nat, stored: set<Answer>)
    requires b < |boards| && DistinctBoards(boards) && stored <= Elements(Rows(boards))
    ensures
      var rows := BoardRows(boards[b], |boards[b].cells|);
      var present := OfBoard(stored, boards[b].key);
      && |present| <= |rows|
      && (|present| == |rows| ==> Elements(rows) <= stored)
      && Elements(rows) <= Elements(Rows(boards))
      && Elements(Rows(boards[..b + 1])) == Elements(Rows(boards[..b])) + Elements(rows)
  {
    RowsStep(boards, b);
    BoardRowsInManifest(boards, b);
    BoardPresent(boards, b, stored);
    BoardCountForcesEquality(boards[b], OfBoard(stored, boards[b].key));
  }
}
