/**
 * The table grid_daily_days and the statements the daily-grid seeding script runs on it.
 *
 * Every statement is a function on the table's value; class GridDailyDays runs the same statements in place, the way
 * the script does, and its methods are proved equal to the functions. The protocol module interleaves the functions.
 */
module GridDailyTable {
  import opened Wrappers

  type Day = nat
  type BoardId = nat
  type Checksum = nat
  type Token = nat

  /** One stored day. `reserved` is the token in `board.reserved`; `inserted` orders the row's commit among all events. */
  datatype Row = Row(board: BoardId, checksum: Option<Checksum>, reserved: Option<Token>, inserted: nat)

  type Days = map<Day, Row>

  /** A board of the pool. `usable` stands for theme, score, verdict, release status and quarantine. */
  datatype PoolBoard = PoolBoard(id: BoardId, checksum: Checksum, usable: bool)

  const MAX_PASSES := 3

  predicate Published(days: Days, day: Day) {
    day in days && days[day].reserved.None?
  }

  function PublishedDays(days: Days): set<Day> {
    set day | day in days && days[day].reserved.None?
  }

  function ReservedDays(days: Days): set<Day> {
    set day | day in days && days[day].reserved.Some?
  }

  ghost predicate OneDayPerChecksum(days: Days) {
    forall d, e | d in days && e in days && d != e && days[d].checksum.Some? ::
      days[d].checksum != days[e].checksum
  }

  // ------------------------------------------------------------------------------------------------ the statements

  /** INSERT ... ON CONFLICT (day) DO NOTHING of every pick, under `token`. */
  function Insert(days: Days, picks: map<Day, PoolBoard>, token: Token, at: nat): Days {
    (map day | day in picks :: Row(picks[day].id, Some(picks[day].checksum), Some(token), at)) + days
  }

  /** UPDATE ... SET reserved = token WHERE reserved exists. */
  function TakeOver(days: Days, token: Token): Days {
    map day | day in days ::
      if days[day].reserved.Some? then days[day].(reserved := Some(token)) else days[day]
  }

  /** DELETE ... WHERE day = ANY(targets) AND reserved = token. */
  function Drop(days: Days, targets: set<Day>, token: Token): Days {
    map day | day in days && !(day in targets && days[day].reserved == Some(token)) :: days[day]
  }

  /** UPDATE ... SET board = board - 'reserved' WHERE day = ANY(targets) AND reserved = token. */
  function Publish(days: Days, targets: set<Day>, token: Token): Days {
    map day | day in days ::
      if day in targets && days[day].reserved == Some(token) then days[day].(reserved := None) else days[day]
  }

  /** The reserved days whose board a live match stands on. */
  function Clashing(reserved: map<Day, Option<Checksum>>, live: set<Checksum>): set<Day> {
    set day | day in reserved && reserved[day].Some? && reserved[day].value in live
  }

  function ReservedChecksums(days: Days): map<Day, Option<Checksum>> {
    map day | day in days && days[day].reserved.Some? :: days[day].checksum
  }

  // ------------------------------------------------------------------------------------------------ the pool query

  ghost predicate Eligible(board: PoolBoard, days: Days, busy: set<Checksum>) {
    && board.usable
    && (forall day | day in days :: days[day].board != board.id)
    && (forall day | day in days :: days[day].checksum != Some(board.checksum))
    && board.checksum !in busy
  }

  /** Every eligible board the pool prefers to the i-th pick has the checksum of an earlier pick. */
  ghost predicate FirstChoice(pool: seq<PoolBoard>, days: Days, busy: set<Checksum>, picked: seq<PoolBoard>, i: nat)
    requires i < |picked|
  {
    exists k | 0 <= k < |pool| && pool[k] == picked[i] ::
      forall j | 0 <= j < k && Eligible(pool[j], days, busy) :: exists p | p in picked[..i] :: p.checksum == pool[j].checksum
  }

  lemma ChoiceJoins(pool: seq<PoolBoard>, days: Days, busy: set<Checksum>, picked: seq<PoolBoard>, i: nat)
    requires i < |pool| && AllFirst(pool, days, busy, picked)
    requires forall board | board in pool[..i] && Eligible(board, days, busy) :: board.checksum in (set p | p in picked :: p.checksum)
    ensures AllFirst(pool, days, busy, picked + [pool[i]])
  {
    var all := picked + [pool[i]];
    forall k | 0 <= k < |all| ensures FirstChoice(pool, days, busy, all, k) {
      if k < |picked| {
        assert all[..k] == picked[..k] && all[k] == picked[k] && FirstChoice(pool, days, busy, picked, k);
      } else {
        assert all[..k] == picked && pool[i] == all[k];
        forall j | 0 <= j < i && Eligible(pool[j], days, busy) ensures exists p | p in all[..k] :: p.checksum == pool[j].checksum {
          assert pool[j] in pool[..i];
        }
      }
    }
  }

  /** The query's first `n` rows: eligible boards in order of preference, only the first board of each checksum. */
  method Candidates(pool: seq<PoolBoard>, days: Days, busy: set<Checksum>, n: nat) returns (picked: seq<PoolBoard>)
    ensures |picked| <= n
    ensures forall i | 0 <= i < |picked| :: picked[i] in pool && Eligible(picked[i], days, busy)
    ensures forall i, j | 0 <= i < j < |picked| :: picked[i].checksum != picked[j].checksum
    ensures |picked| < n ==>
      forall board | board in pool && Eligible(board, days, busy) :: board.checksum in (set p | p in picked :: p.checksum)
    ensures forall i | 0 <= i < |picked| :: FirstChoice(pool, days, busy, picked, i)
  {
    picked := [];
    var takenIds := set day | day in days :: days[day].board;
    var takenSums := set day | day in days :: days[day].checksum;
    var seen: set<Checksum> := {};
    for i := 0 to |pool|
      invariant |picked| <= n && Picking(pool, days, busy, i, n, picked, seen) && AllFirst(pool, days, busy, picked)
    {
      var board := pool[i];
      assert Some(board.checksum) in takenSums <==> exists day | day in days :: days[day].checksum == Some(board.checksum);
      if board.usable && board.id !in takenIds && Some(board.checksum) !in takenSums && board.checksum !in busy
         && board.checksum !in seen && |picked| < n {
        ChoiceJoins(pool, days, busy, picked, i);
        PickingJoins(pool, days, busy, i, n, picked, seen);
        picked := picked + [board];
        seen := seen + {board.checksum};
      } else {
        PickingSkips(pool, days, busy, i, n, picked, seen);
      }
    }
    assert pool[..|pool|] == pool;
  }

  /** The picks among the first i boards of the pool, and their checksums. */
  ghost predicate Picking(pool: seq<PoolBoard>, days: Days, busy: set<Checksum>, i: nat, n: nat, picked: seq<PoolBoard>, seen: set<Checksum>)
    requires i <= |pool|
  {
    && seen == (set p | p in picked :: p.checksum)
    && (forall k | 0 <= k < |picked| :: picked[k] in pool[..i] && Eligible(picked[k], days, busy))
    && (forall j, k | 0 <= j < k < |picked| :: picked[j].checksum != picked[k].checksum)
    && (|picked| < n ==> forall board | board in pool[..i] && Eligible(board, days, busy) :: board.checksum in seen)
  }

  ghost predicate AllFirst(pool: seq<PoolBoard>, days: Days, busy: set<Checksum>, picked: seq<PoolBoard>) {
    forall k | 0 <= k < |picked| :: FirstChoice(pool, days, busy, picked, k)
  }

  lemma PickingJoins(pool: seq<PoolBoard>, days: Days, busy: set<Checksum>, i: nat, n: nat, picked: seq<PoolBoard>, seen: set<Checksum>)
    requires i < |pool| && Picking(pool, days, busy, i, n, picked, seen) && |picked| < n
    requires Eligible(pool[i], days, busy) && pool[i].checksum !in seen
    ensures Picking(pool, days, busy, i + 1, n, picked + [pool[i]], seen + {pool[i].checksum})
  {
    assert pool[..i + 1] == pool[..i] + [pool[i]];
    assert forall k | 0 <= k < |picked| :: picked[k] in picked;
  }

  lemma PickingSkips(pool: seq<PoolBoard>, days: Days, busy: set<Checksum>, i: nat, n: nat, picked: seq<PoolBoard>, seen: set<Checksum>)
    requires i < |pool| && Picking(pool, days, busy, i, n, picked, seen)
    requires |picked| >= n || !Eligible(pool[i], days, busy) || pool[i].checksum in seen
    ensures Picking(pool, days, busy, i + 1, n, picked, seen)
  {
    assert pool[..i + 1] == pool[..i] + [pool[i]];
  }

  /** The days of `wanted` and `also` that have no row yet, each once, in order. */
  method MissingDays(wanted: seq<Day>, also: seq<Day>, days: Days) returns (missing: seq<Day>)
    ensures forall day :: day in missing <==> (day in wanted || day in also) && day !in days
    ensures forall i, j | 0 <= i < j < |missing| :: missing[i] != missing[j]
  {
    missing := [];
    var all := wanted + also;
    for i := 0 to |all|
      invariant forall day :: day in missing <==> day in all[..i] && day !in days
      invariant forall j, k | 0 <= j < k < |missing| :: missing[j] != missing[k]
    {
      assert all[..i + 1] == all[..i] + [all[i]];
      if all[i] !in days && all[i] !in missing {
        missing := missing + [all[i]];
      }
    }
    assert all[..|all|] == all;
  }

  /** The checksums of the boards that may be picked. */
  ghost function FreeChecksums(pool: seq<PoolBoard>, days: Days, busy: set<Checksum>): set<Checksum> {
    set board | board in pool && Eligible(board, days, busy) :: board.checksum
  }

  /** The checksums a day may still get: of a usable board that no day has, by id or content, and nobody is playing. */
  ghost function FreeSums(pool: seq<PoolBoard>, days: Days, busy: set<Checksum>): set<Checksum> {
    set b | b in pool && b.usable && b.checksum !in busy
            && (forall day | day in days :: days[day].board != b.id && days[day].checksum != Some(b.checksum)) :: b.checksum
  }

  lemma FreeSumsExact(pool: seq<PoolBoard>, days: Days, busy: set<Checksum>)
    ensures FreeSums(pool, days, busy) == FreeChecksums(pool, days, busy)
  {
    forall b | b in pool
      ensures Eligible(b, days, busy) <==>
        b.usable && b.checksum !in busy && forall day | day in days :: days[day].board != b.id && days[day].checksum != Some(b.checksum)
    {
    }
  }

  /** A newly stored day: reserved under the token, with a usable board of the pool that no day had and nobody is playing. */
  ghost predicate NewRow(row: Row, pool: seq<PoolBoard>, before: Days, busy: set<Checksum>, token: Token, at: nat) {
    && row.reserved == Some(token) && row.inserted == at && row.checksum.Some? && row.checksum.value !in busy
    && (forall day | day in before :: before[day].board != row.board && before[day].checksum != row.checksum)
    && exists b | b in pool :: b.id == row.board && b.checksum == row.checksum.value && b.usable
  }

  function Missing(wanted: seq<Day>, also: seq<Day>, days: Days): set<Day> {
    set day | day in wanted + also && day !in days
  }

  function ToSet<T>(s: seq<T>): set<T> {
    set x | x in s
  }

  lemma {:induction false} AllDifferent<T>(s: seq<T>)
    requires forall i, j | 0 <= i < j < |s| :: s[i] != s[j]
    ensures |ToSet(s)| == |s|
  {
    if s != [] {
      var n := |s| - 1;
      AllDifferent(s[..n]);
      assert ToSet(s) == ToSet(s[..n]) + {s[n]};
    }
  }

  lemma SubsetSize<T>(a: set<T>, b: set<T>)
    requires a <= b
    ensures |a| <= |b|
  {
    assert b == a + (b - a);
  }

  /** Fewer boards than wanted were picked only when every free checksum has been picked. */
  ghost predicate PickedWell(pool: seq<PoolBoard>, days: Days, busy: set<Checksum>, picked: seq<PoolBoard>, n: nat) {
    && |picked| <= n
    && (forall i | 0 <= i < |picked| :: picked[i] in pool && Eligible(picked[i], days, busy))
    && (forall i, j | 0 <= i < j < |picked| :: picked[i].checksum != picked[j].checksum)
    && (|picked| < n ==> forall board | board in pool && Eligible(board, days, busy) :: board.checksum in (set p | p in picked :: p.checksum))
  }

  lemma CountPicks(sums: seq<Checksum>, free: set<Checksum>, n: nat)
    requires |sums| <= n && (forall i, j | 0 <= i < j < |sums| :: sums[i] != sums[j])
    requires ToSet(sums) <= free && (|sums| < n ==> free <= ToSet(sums))
    ensures |sums| < n <==> |free| < n
  {
    AllDifferent(sums);
    SubsetSize(ToSet(sums), free);
    if |sums| < n {
      SubsetSize(free, ToSet(sums));
    }
  }

  function Sums(picked: seq<PoolBoard>): seq<Checksum> {
    seq(|picked|, i requires 0 <= i < |picked| => picked[i].checksum)
  }

  lemma SumsOf(picked: seq<PoolBoard>)
    ensures ToSet(Sums(picked)) == set p | p in picked :: p.checksum
  {
    forall x ensures x in ToSet(Sums(picked)) <==> x in (set p | p in picked :: p.checksum) {
      if x in ToSet(Sums(picked)) {
        var i :| 0 <= i < |picked| && Sums(picked)[i] == x;
        assert picked[i] in picked;
      }
      if p :| p in picked && p.checksum == x {
        var i :| 0 <= i < |picked| && picked[i] == p;
        assert Sums(picked)[i] == x;
      }
    }
  }

  lemma PickedSize(pool: seq<PoolBoard>, days: Days, busy: set<Checksum>, picked: seq<PoolBoard>, n: nat)
    requires PickedWell(pool, days, busy, picked, n)
    ensures |picked| < n <==> |FreeChecksums(pool, days, busy)| < n
  {
    SumsOf(picked);
    forall x | x in ToSet(Sums(picked)) ensures x in FreeChecksums(pool, days, busy) {
      var p :| p in picked && p.checksum == x;
      assert p in pool;
    }
    CountPicks(Sums(picked), FreeChecksums(pool, days, busy), n);
  }

  /** There are too few candidates exactly when fewer checksums are free than days are missing. */
  lemma EnoughExact(pool: seq<PoolBoard>, days: Days, busy: set<Checksum>, picked: seq<PoolBoard>, missing: seq<Day>,
                    wanted: seq<Day>, also: seq<Day>)
    requires PickedWell(pool, days, busy, picked, |missing|)
    requires forall day :: day in missing <==> (day in wanted || day in also) && day !in days
    requires forall i, j | 0 <= i < j < |missing| :: missing[i] != missing[j]
    ensures |picked| < |missing| <==> |FreeChecksums(pool, days, busy)| < |Missing(wanted, also, days)|
  {
    AllDifferent(missing);
    assert ToSet(missing) == Missing(wanted, also, days);
    PickedSize(pool, days, busy, picked, |missing|);
  }

  /** missing[i] gets boards[i]. */
  function Assigned(missing: seq<Day>, boards: seq<PoolBoard>): map<Day, PoolBoard>
    requires |missing| == |boards|
  {
    if missing == [] then map[]
    else
      var n := |missing| - 1;
      Assigned(missing[..n], boards[..n])[missing[n] := boards[n]]
  }

  lemma {:induction false} AssignedIs(missing: seq<Day>, boards: seq<PoolBoard>)
    requires |missing| == |boards|
    requires forall i, j | 0 <= i < j < |missing| :: missing[i] != missing[j]
    ensures Assigned(missing, boards).Keys == set day | day in missing
    ensures forall i | 0 <= i < |missing| :: missing[i] in Assigned(missing, boards) && Assigned(missing, boards)[missing[i]] == boards[i]
  {
    if missing != [] {
      var n := |missing| - 1;
      AssignedIs(missing[..n], boards[..n]);
      assert missing == missing[..n] + [missing[n]];
    }
  }

  lemma InsertOne(days: Days, missing: seq<Day>, boards: seq<PoolBoard>, day: Day, board: PoolBoard, token: Token, at: nat)
    requires |missing| == |boards| && day !in missing
    requires forall i, j | 0 <= i < j < |missing| :: missing[i] != missing[j]
    ensures
      var before := Insert(days, Assigned(missing, boards), token, at);
      Insert(days, Assigned(missing + [day], boards + [board]), token, at)
        == if day in before then before else before[day := Row(board.id, Some(board.checksum), Some(token), at)]
  {
    AssignedIs(missing, boards);
    assert (missing + [day])[..|missing|] == missing && (boards + [board])[..|boards|] == boards;
    assert Assigned(missing + [day], boards + [board]) == Assigned(missing, boards)[day := board];
    InsertMore(days, Assigned(missing, boards), day, board, token, at);
  }

  lemma InsertMore(days: Days, picks: map<Day, PoolBoard>, day: Day, board: PoolBoard, token: Token, at: nat)
    requires day !in picks
    ensures
      var before := Insert(days, picks, token, at);
      Insert(days, picks[day := board], token, at)
        == if day in before then before else before[day := Row(board.id, Some(board.checksum), Some(token), at)]
  {
  }

  // ------------------------------------------------------------------------------------------------ the script

  /** What the database shows one pass of the script: the pool, the boards in play when days are reserved, whether the
      wait for older transactions ended, and the boards in play when it is read again after the wait. */
  datatype Glimpse = Glimpse(pool: seq<PoolBoard>, busy: set<Checksum>, waited: bool, live: set<Checksum>)

  class GridDailyDays {
    var days: Days

    constructor (stored: Days)
      ensures days == stored
    {
      days := stored;
    }

    /** The INSERT of one day at a time. */
    method InsertRows(missing: seq<Day>, boards: seq<PoolBoard>, token: Token, at: nat)
      requires |missing| == |boards|
      requires forall i, j | 0 <= i < j < |missing| :: missing[i] != missing[j]
      modifies this
      ensures days == Insert(old(days), Assigned(missing, boards), token, at)
    {
      assert Insert(days, map[], token, at) == days;
      for i := 0 to |missing|
        invariant days == Insert(old(days), Assigned(missing[..i], boards[..i]), token, at)
      {
        assert missing[..i + 1] == missing[..i] + [missing[i]] && boards[..i + 1] == boards[..i] + [boards[i]];
        InsertOne(old(days), missing[..i], boards[..i], missing[i], boards[i], token, at);
        if missing[i] !in days {
          days := days[missing[i] := Row(boards[i].id, Some(boards[i].checksum), Some(token), at)];
        }
      }
      assert missing[..|missing|] == missing && boards[..|boards|] == boards;
    }

    /** reserveMissing: all missing days get a board, or none does. */
    method ReserveMissing(wanted: seq<Day>, also: seq<Day>, pool: seq<PoolBoard>, busy: set<Checksum>,
                          token: Token, at: nat)
      returns (r: Result<map<Day, PoolBoard>>)
      modifies this
      ensures r.Err? <==> |FreeChecksums(pool, old(days), busy)| < |Missing(wanted, also, old(days))|
      ensures r.Err? ==> days == old(days)
      ensures r.Ok? ==> days == Insert(old(days), r.value, token, at)
      ensures r.Ok? ==> forall day :: day in r.value <==> (day in wanted || day in also) && day !in old(days)
      ensures r.Ok? ==> forall day | day in r.value :: r.value[day] in pool && Eligible(r.value[day], old(days), busy)
      ensures r.Ok? ==> forall d, e | d in r.value && e in r.value && d != e :: r.value[d].checksum != r.value[e].checksum
      ensures OneDayPerChecksum(old(days)) ==> OneDayPerChecksum(days)
      ensures r.Err? <==> |FreeSums(pool, old(days), busy)| < |set day | day in wanted + also && day !in old(days)|
      ensures r.Ok? ==> forall day | day in old(days) :: day in days && days[day] == old(days)[day]
      ensures r.Ok? ==> forall day :: day in days && day !in old(days) <==> (day in wanted || day in also) && day !in old(days)
      ensures r.Ok? ==> forall day | day in days && day !in old(days) :: NewRow(days[day], pool, old(days), busy, token, at)
    {
      FreeSumsExact(pool, days, busy);
      assert (set day | day in wanted + also && day !in days) == Missing(wanted, also, days);
      var missing := MissingDays(wanted, also, days);
      var candidates := Candidates(pool, days, busy, |missing|);
      EnoughExact(pool, days, busy, candidates, missing, wanted, also);
      if |candidates| < |missing| {
        return Err("not enough boards");
      }
      candidates := candidates[..|missing|];
      var picks := Assigned(missing, candidates);
      AssignedIs(missing, candidates);
      InsertKeeps(days, picks, busy, token, at);
      InsertRows(missing, candidates, token, at);
      r := Ok(picks);
    }

    /** settleReserved, run alone: take over, wait, re-read the live matches, drop the clashing days, publish the rest. */
    method SettleReserved(token: Token, waited: bool, live: set<Checksum>)
      returns (r: Result<(nat, seq<Day>)>)
      modifies this
      ensures r.Err? <==> !waited && ReservedDays(old(days)) != {}
      ensures r.Err? ==> days == TakeOver(old(days), token)
      ensures r.Ok? ==>
        var clashing := Clashing(ReservedChecksums(old(days)), live);
        && r.value.0 == |ReservedDays(old(days)) - clashing|
        && (forall day :: day in r.value.1 <==> day in clashing)
        && |r.value.1| == |clashing|
        && days == Publish(Drop(TakeOver(old(days), token), clashing, token), ReservedDays(old(days)) - clashing, token)
        && days == Settled(old(days), live)
      ensures r.Ok? ==> EachByItsOwn(old(days), days, live) && forall day :: day in r.value.1 <==> day in old(days) && day !in days
      ensures r.Ok? ==> r.value.0 == |set day | day in days && day in old(days) && old(days)[day].reserved.Some?|
    {
      SettledEachByItsOwn(days, live);
      SettledIs(days, token, live);
      var reserved := ReservedChecksums(days);
      assert reserved.Keys == ReservedDays(days);
      days := TakeOver(days, token);
      if reserved == map[] {
        assert Clashing(reserved, live) == {};
        assert days == Publish(Drop(days, {}, token), {}, token);
        return Ok((0, []));
      }
      if !waited {
        return Err("older transactions are still open");
      }
      var clashing := Clashing(reserved, live);
      var clean := reserved.Keys - clashing;
      var droppedDays := set day | day in days && day in clashing && days[day].reserved == Some(token);
      assert droppedDays == clashing;
      days := Drop(days, clashing, token);
      var publishedDays := set day | day in days && day in clean && days[day].reserved == Some(token);
      assert publishedDays == clean;
      days := Publish(days, clean, token);
      var dropped := Listing(droppedDays);
      r := Ok((|publishedDays|, dropped));
    }
  }

  /** Settling decides every reserved day by its own board: gone exactly when a live match stands on it, published as it is
      otherwise. Other days are left alone. */
  ghost predicate EachByItsOwn(before: Days, after: Days, live: set<Checksum>) {
    && (forall day | day in before && before[day].reserved.Some? ::
          && (day !in after <==> before[day].checksum.Some? && before[day].checksum.value in live)
          && (day in after ==> after[day] == Row(before[day].board, before[day].checksum, None, before[day].inserted)))
    && (forall day | day in before && before[day].reserved.None? :: day in after && after[day] == before[day])
    && (forall day | day in after :: day in before)
  }

  lemma SettledEachByItsOwn(days: Days, live: set<Checksum>)
    ensures EachByItsOwn(days, Settled(days, live), live)
    ensures forall day :: day in Clashing(ReservedChecksums(days), live) <==> day in days && day !in Settled(days, live)
    ensures (set day | day in Settled(days, live) && day in days && days[day].reserved.Some?)
         == ReservedDays(days) - Clashing(ReservedChecksums(days), live)
  {
  }

  /** RETURNING: the rows of a set, in some order. */
  method Listing(s: set<Day>) returns (list: seq<Day>)
    ensures forall day :: day in list <==> day in s
    ensures |list| == |s|
  {
    list := [];
    var rest := s;
    while rest != {}
      invariant rest <= s
      invariant forall day :: day in list <==> day in s && day !in rest
      invariant |list| + |rest| == |s|
      decreases |rest|
    {
      var day :| day in rest;
      rest := rest - {day};
      list := list + [day];
    }
  }

  /** One pass of settling: what it keeps, what it publishes, and which days it gives back. */
  method SettlePass(table: GridDailyDays, token: Token, glimpses: seq<Glimpse>, pass: nat, ghost before: Days, ghost earlier: seq<Days>)
    returns (settled: Result<(nat, seq<Day>)>, ghost stages: seq<Days>)
    requires pass < |glimpses| && |earlier| == pass && Progress(before, table.days, earlier, glimpses)
    modifies table
    ensures Progress(before, table.days, stages, glimpses)
    ensures stages == if settled.Ok? then earlier + [table.days] else earlier
    ensures OneDayPerChecksum(old(table.days)) ==> OneDayPerChecksum(table.days)
    ensures settled.Ok? ==> ReservedDays(table.days) == {} && forall day | day in table.days :: Published(table.days, day)
    ensures settled.Ok? ==> |PublishedDays(table.days)| == |PublishedDays(old(table.days))| + settled.value.0
    ensures settled.Ok? ==> forall day | day in old(table.days) :: day in table.days || day in settled.value.1
    ensures settled.Ok? && |settled.value.1| == 0 ==> table.days.Keys == old(table.days).Keys
    ensures settled.Ok? ==> EachByItsOwn(old(table.days), table.days, glimpses[pass].live)
    ensures settled.Ok? ==> forall day :: day in settled.value.1 <==> day in old(table.days) && day !in table.days
    ensures settled.Err? <==> !glimpses[pass].waited && ReservedDays(old(table.days)) != {}
  {
    ghost var start := table.days;
    stages := earlier;
    settled := table.SettleReserved(token, glimpses[pass].waited, glimpses[pass].live);
    if settled.Err? {
      TakeOverKeeps(start, token);
      ProgressSame(before, start, table.days, earlier, glimpses);
      return;
    }
    SettleKeeps(start, glimpses[pass].live);
    SettleProgress(before, start, earlier, glimpses);
    AllSettled(start, table.days, settled.value.1, glimpses[pass].live);
    stages := earlier + [table.days];
  }

  /** A settled table holds published days only, and what it lost is what is reported. */
  lemma AllSettled(days: Days, after: Days, dropped: seq<Day>, live: set<Checksum>)
    requires after == Settled(days, live) && forall day :: day in dropped <==> day in days && day !in after
    ensures ReservedDays(after) == {} && forall day | day in after :: Published(after, day)
    ensures forall day | day in days :: day in after || day in dropped
    ensures |dropped| == 0 ==> after.Keys == days.Keys
  {
    SettleLeaves(days, live);
  }

  /** After settling every day that is left is published, and only clashing days are gone. */
  lemma SettleLeaves(days: Days, live: set<Checksum>)
    ensures var after := Settled(days, live);
      && (forall day | day in after :: Published(after, day))
      && after.Keys == days.Keys - Clashing(ReservedChecksums(days), live)
  {
  }

  /** Steps that publish nothing keep the progress. */
  lemma ProgressSame(before: Days, now: Days, next: Days, stages: seq<Days>, glimpses: seq<Glimpse>)
    requires Progress(before, now, stages, glimpses) && SamePublished(now, next)
    ensures Progress(before, next, stages, glimpses)
  {
    forall day | Published(before, day) ensures day in next && next[day] == before[day] {
      assert Published(Prior(before, stages, |stages|), day) by {
        assert Published(now, day);
      }
    }
  }

  /** Reserving once more, for the days given back. */
  method ReservePass(table: GridDailyDays, wanted: seq<Day>, also: seq<Day>, glimpse: Glimpse, token: Token, at: nat)
    returns (ok: bool)
    modifies table
    ensures SamePublished(old(table.days), table.days)
    ensures OneDayPerChecksum(old(table.days)) ==> OneDayPerChecksum(table.days)
    ensures PublishedDays(table.days) == PublishedDays(old(table.days))
    ensures ok ==> forall day | day in wanted || day in also || day in old(table.days) :: day in table.days
    ensures !ok ==> table.days == old(table.days)
    ensures !ok <==> |FreeSums(glimpse.pool, old(table.days), glimpse.busy)| < |set day | day in wanted + also && day !in old(table.days)|
  {
    ghost var start := table.days;
    var r := table.ReserveMissing(wanted, also, glimpse.pool, glimpse.busy, token, at);
    ok := r.Ok?;
    if ok {
      InsertPublishesNone(start, r.value, token, at);
    }
  }

  /**
   * One --write run with no other run beside it, from reserving to the last pass. It either stops with an error, or
   * every wanted day is published, nothing is left reserved, and the counter is the number of newly published days.
   * In both cases the days that were published before are untouched, and a day published by a pass had a board that was
   * free when that very pass read the live matches again. `stages` are the tables the passes left, `starts` those they
   * began with; they say why the run has ended.
   */
  method SeedDays(table: GridDailyDays, wanted: seq<Day>, glimpses: seq<Glimpse>, token: Token, at: nat)
    returns (r: Result<nat>, ghost starts: seq<Days>, ghost stages: seq<Days>)
    requires |glimpses| == MAX_PASSES
    modifies table
    ensures forall day | Published(old(table.days), day) :: day in table.days && table.days[day] == old(table.days)[day]
    ensures OneDayPerChecksum(old(table.days)) ==> OneDayPerChecksum(table.days)
    ensures r.Ok? ==> Succeeded(wanted, old(table.days), table.days, r.value, stages)
    ensures Progress(old(table.days), table.days, stages, glimpses)
    ensures Passes(starts, stages, glimpses) && Ended(r.Ok?, wanted, starts, stages, glimpses, table.days)
  {
    ghost var before := table.days;
    starts, stages, r := [], [], Err("not enough boards");
    var going := ReservePass(table, wanted, [], glimpses[0], token, at);
    ProgressStarts(before, table.days, glimpses);
    if going {
      starts := [table.days];
    } else {
      EndsShort(wanted, [], starts, stages, glimpses, table.days);
    }
    var published: nat := 0;
    var pass := 0;
    while going
      invariant 0 <= pass < MAX_PASSES
      invariant Standing(wanted, before, table.days, pass, published, starts, stages, glimpses, going, r)
      decreases going, MAX_PASSES - pass
    {
      going, r, published, starts, stages := NextPass(table, wanted, token, at, glimpses, pass, published, before, starts, stages);
      pass := if going then pass + 1 else pass;
    }
  }

  /** The body of the loop: settle; unless it is the last pass, reserve for the days given back. */
  method NextPass(table: GridDailyDays, wanted: seq<Day>, token: Token, at: nat, glimpses: seq<Glimpse>, pass: nat, count: nat,
                  ghost before: Days, ghost begun: seq<Days>, ghost earlier: seq<Days>)
    returns (going: bool, r: Result<nat>, published: nat, ghost starts: seq<Days>, ghost stages: seq<Days>)
    requires pass < MAX_PASSES
    requires Standing(wanted, before, table.days, pass, count, begun, earlier, glimpses, true, Err("not enough boards"))
    modifies table
    ensures going ==> pass + 1 < MAX_PASSES
    ensures Standing(wanted, before, table.days, if going then pass + 1 else pass, published, starts, stages, glimpses, going, r)
  {
    var settled, last;
    ghost var start := table.days;
    starts, r, published := begun, Err("days are still without a board"), count;
    settled, last, stages := OnePass(table, wanted, token, glimpses, pass, before, begun, earlier);
    going := !last;
    if settled.Ok? {
      published := published + settled.value.0;
    }
    if last {
      if settled.Ok? && |settled.value.1| == 0 {
        r := Ok(published);
      }
      StandsAtLast(wanted, before, start, table.days, pass, count, published, begun, earlier, stages, glimpses, settled, r);
    } else {
      ghost var mid := table.days;
      going := ReserveAgain(table, wanted, settled.value.1, glimpses, pass + 1, token, at + pass + 1, before, begun, stages);
      if going {
        starts := starts + [table.days];
        StandsAgain(wanted, before, start, mid, table.days, pass, count, published, begun, earlier, stages, glimpses, settled.value.1);
      }
    }
  }

  lemma StandsAtLast(wanted: seq<Day>, before: Days, start: Days, now: Days, pass: nat, count: nat, published: nat,
                     starts: seq<Days>, earlier: seq<Days>, stages: seq<Days>, glimpses: seq<Glimpse>,
                     settled: Result<(nat, seq<Day>)>, r: Result<nat>)
    requires InPass(wanted, before, start, pass, count, starts, earlier) && |glimpses| == 3
    requires Progress(before, now, stages, glimpses) && Passes(starts, stages, glimpses)
    requires OneDayPerChecksum(before) ==> OneDayPerChecksum(now)
    requires Ended(settled.Ok? && |settled.value.1| == 0, wanted, starts, stages, glimpses, now)
    requires r.Ok? <==> settled.Ok? && |settled.value.1| == 0
    requires r.Ok? ==> r.value == published == count + settled.value.0
    requires settled.Ok? ==> |PublishedDays(now)| == |PublishedDays(start)| + settled.value.0
    requires settled.Ok? ==> forall day | day in start :: day in now || day in settled.value.1
    requires settled.Ok? && |settled.value.1| == 0 ==>
      && ReservedDays(now) == {} && (forall day | day in now :: Published(now, day))
      && stages != [] && stages[|stages| - 1] == now
    ensures Standing(wanted, before, now, pass, published, starts, stages, glimpses, false, r)
  {
  }

  lemma StandsAgain(wanted: seq<Day>, before: Days, start: Days, mid: Days, now: Days, pass: nat, count: nat, published: nat,
                    starts: seq<Days>, earlier: seq<Days>, stages: seq<Days>, glimpses: seq<Glimpse>, also: seq<Day>)
    requires InPass(wanted, before, start, pass, count, starts, earlier) && |glimpses| == 3 && |stages| == pass + 1
    requires Progress(before, now, stages, glimpses) && Passes(starts + [now], stages, glimpses) && AllDropped(starts + [now], stages)
    requires OneDayPerChecksum(before) ==> OneDayPerChecksum(now)
    requires published == count + |PublishedDays(mid)| - |PublishedDays(start)| && PublishedDays(now) == PublishedDays(mid)
    requires forall day | day in start :: day in mid || day in also
    requires forall day | day in wanted || day in also || day in mid :: day in now
    ensures Standing(wanted, before, now, pass + 1, published, starts + [now], stages, glimpses, true, Err("days are still without a board"))
  {
  }

  /** Where a run stands before a pass, or after its last one. */
  ghost predicate Standing(wanted: seq<Day>, before: Days, now: Days, pass: nat, published: nat, starts: seq<Days>, stages: seq<Days>,
                           glimpses: seq<Glimpse>, going: bool, r: Result<nat>)
  {
    && Progress(before, now, stages, glimpses) && Passes(starts, stages, glimpses) && |glimpses| == 3
    && (OneDayPerChecksum(before) ==> OneDayPerChecksum(now))
    && (going ==> InPass(wanted, before, now, pass, published, starts, stages))
    && (!going ==> Ended(r.Ok?, wanted, starts, stages, glimpses, now))
    && (!going && r.Ok? ==> Succeeded(wanted, before, now, r.value, stages))
  }

  /** A run between reserving and settling. */
  ghost predicate InPass(wanted: seq<Day>, before: Days, now: Days, pass: nat, published: nat, starts: seq<Days>, stages: seq<Days>) {
    && |stages| == pass && |starts| == pass + 1 && starts[pass] == now && AllDropped(starts, stages)
    && (forall day | day in wanted || day in before :: day in now)
    && published == |PublishedDays(now)| - |PublishedDays(before)|
  }

  /** A run that returns normally: every day is published, none is left reserved, and the counter is right. */
  ghost predicate Succeeded(wanted: seq<Day>, before: Days, now: Days, published: nat, stages: seq<Days>) {
    && (forall day | day in wanted || day in before :: Published(now, day)) && ReservedDays(now) == {}
    && published == |PublishedDays(now)| - |PublishedDays(before)|
    && stages != [] && stages[|stages| - 1] == now
  }

  /** One pass, and whether it is the last one. */
  method OnePass(table: GridDailyDays, ghost wanted: seq<Day>, token: Token, glimpses: seq<Glimpse>, pass: nat,
                 ghost before: Days, ghost starts: seq<Days>, ghost earlier: seq<Days>)
    returns (settled: Result<(nat, seq<Day>)>, last: bool, ghost stages: seq<Days>)
    requires pass == |earlier| && |starts| == pass + 1 && |starts| <= |glimpses| == 3 && starts[pass] == table.days
    requires Progress(before, table.days, earlier, glimpses) && Passes(starts, earlier, glimpses) && AllDropped(starts, earlier)
    modifies table
    ensures Progress(before, table.days, stages, glimpses) && Passes(starts, stages, glimpses)
    ensures OneDayPerChecksum(old(table.days)) ==> OneDayPerChecksum(table.days)
    ensures last <==> settled.Err? || |settled.value.1| == 0 || pass == 2
    ensures last ==> Ended(settled.Ok? && |settled.value.1| == 0, wanted, starts, stages, glimpses, table.days)
    ensures !last ==> |stages| == pass + 1 && AllDropped(starts, stages)
    ensures !last ==> forall day :: day in settled.value.1 <==> day in starts[pass] && day !in stages[pass]
    ensures settled.Ok? ==> |PublishedDays(table.days)| == |PublishedDays(old(table.days))| + settled.value.0
    ensures settled.Ok? ==> forall day | day in old(table.days) :: day in table.days || day in settled.value.1
    ensures settled.Ok? && |settled.value.1| == 0 ==>
      && ReservedDays(table.days) == {} && (forall day | day in table.days :: Published(table.days, day))
      && stages != [] && stages[|stages| - 1] == table.days
  {
    settled, stages := SettlePass(table, token, glimpses, pass, before, earlier);
    last := settled.Err? || |settled.value.1| == 0 || pass + 1 >= MAX_PASSES;
    if settled.Err? {
      EndsWaiting(wanted, starts, stages, glimpses, table.days);
    } else {
      PassesMore(starts, earlier, glimpses, table.days, settled.value.1);
      if last {
        EndsSettled(wanted, starts, earlier, glimpses, table.days, |settled.value.1| == 0);
      }
    }
  }

  /** Reserving for the next pass. */
  method ReserveAgain(table: GridDailyDays, wanted: seq<Day>, also: seq<Day>, glimpses: seq<Glimpse>, pass: nat, token: Token, at: nat,
                      ghost before: Days, ghost starts: seq<Days>, ghost stages: seq<Days>)
    returns (ok: bool)
    requires 0 < pass == |stages| == |starts| < |glimpses| == 3 && AllDropped(starts, stages)
    requires Progress(before, table.days, stages, glimpses) && Passes(starts, stages, glimpses)
    requires forall day :: day in also <==> day in starts[pass - 1] && day !in stages[pass - 1]
    modifies table
    ensures Progress(before, table.days, stages, glimpses)
    ensures OneDayPerChecksum(old(table.days)) ==> OneDayPerChecksum(table.days)
    ensures PublishedDays(table.days) == PublishedDays(old(table.days))
    ensures ok ==> forall day | day in wanted || day in also || day in old(table.days) :: day in table.days
    ensures ok ==> Passes(starts + [table.days], stages, glimpses) && AllDropped(starts + [table.days], stages)
    ensures !ok ==> Ended(false, wanted, starts, stages, glimpses, table.days)
  {
    ghost var settled := table.days;
    ok := ReservePass(table, wanted, also, glimpses[pass], token, at);
    ProgressSame(before, settled, table.days, stages, glimpses);
    if ok {
      FrontDropped(starts, starts + [table.days], stages);
    } else {
      EndsShort(wanted, also, starts, stages, glimpses, table.days);
    }
  }

  ghost predicate DroppedSome(start: Days, settled: Days) {
    exists day :: day in start && day !in settled
  }

  /** Every pass settled what it began with, day by day. */
  ghost predicate Passes(starts: seq<Days>, stages: seq<Days>, glimpses: seq<Glimpse>) {
    && |stages| <= |starts| <= |glimpses|
    && forall k | 0 <= k < |stages| :: EachByItsOwn(starts[k], stages[k], glimpses[k].live)
  }

  /** Why a run has ended: it succeeds when a pass drops nothing. It fails when the boards do not suffice for the wanted days
      and those the last pass dropped, when the wait does not end with a day reserved, or when the third pass drops a day. */
  ghost predicate Ended(ok: bool, wanted: seq<Day>, starts: seq<Days>, stages: seq<Days>, glimpses: seq<Glimpse>, now: Days)
    requires |stages| <= |starts| <= |glimpses| == 3
  {
    var k := |stages|;
    && (forall p | 0 <= p < k - 1 :: DroppedSome(starts[p], stages[p]))
    && (ok ==> 0 < k == |starts| && !DroppedSome(starts[k - 1], stages[k - 1]))
    && (!ok ==>
          || (k == |starts| == 3 && DroppedSome(starts[2], stages[2]))
          || (k < |starts| && !glimpses[k].waited && exists day :: day in starts[k] && starts[k][day].reserved.Some?)
          || (k == |starts| < 3 && (k > 0 ==> DroppedSome(starts[k - 1], stages[k - 1]))
              && |FreeSums(glimpses[k].pool, now, glimpses[k].busy)| < |Lacking(wanted, starts, stages, now)|))
  }

  /** The days to reserve: those wanted, and those the last pass dropped. */
  ghost function Lacking(wanted: seq<Day>, starts: seq<Days>, stages: seq<Days>, now: Days): set<Day>
    requires |stages| <= |starts|
  {
    var k := |stages|;
    (set day | day in wanted && day !in now) + if k == 0 then {} else set day | day in starts[k - 1] && day !in stages[k - 1] && day !in now
  }

  ghost predicate AllDropped(starts: seq<Days>, stages: seq<Days>)
    requires |stages| <= |starts|
  {
    forall k | 0 <= k < |stages| :: DroppedSome(starts[k], stages[k])
  }

  lemma FrontDropped(starts: seq<Days>, longer: seq<Days>, stages: seq<Days>)
    requires |stages| <= |starts| && starts <= longer && AllDropped(starts, stages)
    ensures AllDropped(longer, stages)
  {
    forall k | 0 <= k < |stages| ensures DroppedSome(longer[k], stages[k]) {
      assert longer[k] == starts[k];
    }
  }

  lemma PassesMore(starts: seq<Days>, stages: seq<Days>, glimpses: seq<Glimpse>, after: Days, dropped: seq<Day>)
    requires |starts| == |stages| + 1 && |starts| <= |glimpses| && Passes(starts, stages, glimpses)
    requires EachByItsOwn(starts[|stages|], after, glimpses[|stages|].live)
    requires forall day :: day in dropped <==> day in starts[|stages|] && day !in after
    ensures Passes(starts, stages + [after], glimpses)
    ensures |dropped| == 0 <==> !DroppedSome(starts[|stages|], after)
    ensures AllDropped(starts, stages) && |dropped| > 0 ==> AllDropped(starts, stages + [after])
  {
    if |dropped| > 0 {
      assert dropped[0] in dropped;
    }
  }

  lemma EndsWaiting(wanted: seq<Day>, starts: seq<Days>, stages: seq<Days>, glimpses: seq<Glimpse>, now: Days)
    requires |starts| == |stages| + 1 && |starts| <= |glimpses| == 3 && AllDropped(starts, stages)
    requires !glimpses[|stages|].waited && ReservedDays(starts[|stages|]) != {}
    ensures Ended(false, wanted, starts, stages, glimpses, now)
  {
    var day :| day in ReservedDays(starts[|stages|]);
    assert day in starts[|stages|] && starts[|stages|][day].reserved.Some?;
  }

  lemma EndsSettled(wanted: seq<Day>, starts: seq<Days>, stages: seq<Days>, glimpses: seq<Glimpse>, now: Days, ok: bool)
    requires |starts| == |stages| + 1 && |starts| <= |glimpses| == 3 && AllDropped(starts, stages)
    requires ok <==> !DroppedSome(starts[|stages|], now)
    requires !ok ==> |starts| == 3
    ensures Ended(ok, wanted, starts, stages + [now], glimpses, now)
  {
    var all := stages + [now];
    assert forall k | 0 <= k < |stages| :: all[k] == stages[k];
  }

  lemma EndsShort(wanted: seq<Day>, also: seq<Day>, starts: seq<Days>, stages: seq<Days>, glimpses: seq<Glimpse>, now: Days)
    requires |starts| == |stages| < |glimpses| == 3 && AllDropped(starts, stages)
    requires stages == [] ==> also == []
    requires stages != [] ==> forall day :: day in also <==> day in starts[|stages| - 1] && day !in stages[|stages| - 1]
    requires |FreeSums(glimpses[|stages|].pool, now, glimpses[|stages|].busy)| < |set day | day in wanted + also && day !in now|
    ensures Ended(false, wanted, starts, stages, glimpses, now)
  {
    assert Lacking(wanted, starts, stages, now) == set day | day in wanted + also && day !in now;
  }

  ghost predicate SamePublished(a: Days, b: Days) {
    && (forall day | Published(a, day) :: Published(b, day) && b[day] == a[day])
    && (forall day | Published(b, day) :: Published(a, day))
  }

  /** A pass: what was published stands, and what it publishes has a board that its re-read found free. */
  ghost predicate Stage(earlier: Days, later: Days, live: set<Checksum>) {
    && (forall day | Published(earlier, day) :: Published(later, day) && later[day] == earlier[day])
    && (forall day | Published(later, day) && !Published(earlier, day) && later[day].checksum.Some? :: later[day].checksum.value !in live)
  }

  /** The table before the k-th pass published anything. */
  ghost function Prior(before: Days, stages: seq<Days>, k: nat): Days
    requires k <= |stages|
  {
    if k == 0 then before else stages[k - 1]
  }

  /** What every moment of a run keeps: the k-th pass judged by its own re-read, and nothing was published in between. */
  ghost predicate Progress(before: Days, now: Days, stages: seq<Days>, glimpses: seq<Glimpse>) {
    && |stages| <= |glimpses|
    && (forall k | 0 <= k < |stages| :: Stage(Prior(before, stages, k), stages[k], glimpses[k].live))
    && SamePublished(Prior(before, stages, |stages|), now)
    && (forall day | Published(before, day) :: day in now && now[day] == before[day])
  }

  lemma ProgressStarts(before: Days, now: Days, glimpses: seq<Glimpse>)
    requires SamePublished(before, now)
    ensures Progress(before, now, [], glimpses)
  {
  }

  lemma InsertPublishesNone(now: Days, picks: map<Day, PoolBoard>, token: Token, at: nat)
    ensures SamePublished(now, Insert(now, picks, token, at))
    ensures PublishedDays(Insert(now, picks, token, at)) == PublishedDays(now)
  {
    var after := Insert(now, picks, token, at);
    forall day | Published(after, day) ensures Published(now, day) && after[day] == now[day] {
    }
  }

  lemma TakeOverKeeps(now: Days, token: Token)
    ensures SamePublished(now, TakeOver(now, token))
    ensures OneDayPerChecksum(now) ==> OneDayPerChecksum(TakeOver(now, token))
  {
    var after := TakeOver(now, token);
    forall day | Published(after, day) ensures Published(now, day) && after[day] == now[day] {
    }
  }

  lemma SettleStage(now: Days, live: set<Checksum>)
    ensures Stage(now, Settled(now, live), live)
  {
    var after := Settled(now, live);
    forall day | Published(after, day) && !Published(now, day) && after[day].checksum.Some?
      ensures after[day].checksum.value !in live
    {
      assert day in ReservedChecksums(now);
    }
  }

  /** Settling is a pass of its own: it judges by the re-read of this very pass. */
  lemma SettleProgress(before: Days, now: Days, stages: seq<Days>, glimpses: seq<Glimpse>)
    requires |stages| < |glimpses| && Progress(before, now, stages, glimpses)
    ensures var after := Settled(now, glimpses[|stages|].live);
      Progress(before, after, stages + [after], glimpses)
  {
    var n := |stages|;
    var after := Settled(now, glimpses[n].live);
    var all := stages + [after];
    SettleStage(now, glimpses[n].live);
    forall k | 0 <= k < |all| ensures Stage(Prior(before, all, k), all[k], glimpses[k].live) {
      assert Prior(before, all, k) == Prior(before, stages, k);
      if k == n {
        assert SamePublished(Prior(before, stages, n), now);
      } else {
        assert Stage(Prior(before, stages, k), stages[k], glimpses[k].live);
      }
    }
    forall day | Published(before, day) ensures day in after && after[day] == before[day] {
      assert Published(now, day);
    }
  }

  /** What one undisturbed settling leaves: every reserved day is published or dropped, by its checksum alone. */
  function Settled(days: Days, live: set<Checksum>): Days {
    map day | day in days && day !in Clashing(ReservedChecksums(days), live) :: days[day].(reserved := None)
  }

  lemma SettledIs(days: Days, token: Token, live: set<Checksum>)
    ensures
      var clashing := Clashing(ReservedChecksums(days), live);
      Publish(Drop(TakeOver(days, token), clashing, token), ReservedDays(days) - clashing, token) == Settled(days, live)
  {
    var clashing := Clashing(ReservedChecksums(days), live);
    var dropped := Drop(TakeOver(days, token), clashing, token);
    assert dropped.Keys == days.Keys - clashing;
    forall day | day in dropped
      ensures Publish(dropped, ReservedDays(days) - clashing, token)[day] == days[day].(reserved := None)
    {
      assert day in ReservedDays(days) <==> days[day].reserved.Some?;
    }
  }

  lemma SettleKeeps(days: Days, live: set<Checksum>)
    ensures
      var clashing := Clashing(ReservedChecksums(days), live);
      var after := Settled(days, live);
      && |PublishedDays(after)| == |PublishedDays(days)| + |ReservedDays(days) - clashing|
      && ReservedDays(after) == {}
      && (forall day | Published(days, day) :: day in after && after[day] == days[day])
      && (OneDayPerChecksum(days) ==> OneDayPerChecksum(after))
  {
    var clashing := Clashing(ReservedChecksums(days), live);
    var after := Settled(days, live);
    assert PublishedDays(after) == PublishedDays(days) + (ReservedDays(days) - clashing);
    assert PublishedDays(days) !! (ReservedDays(days) - clashing);
  }

  /** Inserting picks that avoid the stored checksums, and each other, keeps one day per checksum. */
  lemma InsertKeeps(days: Days, picks: map<Day, PoolBoard>, busy: set<Checksum>, token: Token, at: nat)
    requires forall day | day in picks :: Eligible(picks[day], days, busy)
    requires forall d, e | d in picks && e in picks && d != e :: picks[d].checksum != picks[e].checksum
    ensures OneDayPerChecksum(days) ==> OneDayPerChecksum(Insert(days, picks, token, at))
  {
    var after := Insert(days, picks, token, at);
    if OneDayPerChecksum(days) {
      forall d, e | d in after && e in after && d != e && after[d].checksum.Some?
        ensures after[d].checksum != after[e].checksum
      {
        if d !in days { assert Eligible(picks[d], days, busy); }
        if e !in days { assert Eligible(picks[e], days, busy); }
      }
    }
  }
}
