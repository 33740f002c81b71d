/** The announcement blast: batches of recipients, one mail per address, resumable through the mail log. */
module MailBlast {
  import opened Wrappers
  import opened ReleaseContent

  type UserId = nat
  type Address = nat

  /** A user row at one moment; `open` stands for every condition on the user alone (not banned, not unsubscribed, ...). */
  datatype User = User(id: UserId, address: Address, open: bool)

  /** A row of the mail log for this blast. */
  datatype Logged = Logged(sent: bool, attempts: nat)

  type Log = map<UserId, Logged>

  const BATCH_SIZE := 200
  const MAX_ATTEMPTS := 5
  const MAX_CONSECUTIVE_FAILURES := 5

  /** Users keep their address; a view lists users by address, then by age. */
  type Addresses = UserId -> Address

  ghost predicate ViewOk(view: seq<User>, addresses: Addresses, world: set<Address>) {
    && (forall i | 0 <= i < |view| :: view[i].address == addresses(view[i].id) && view[i].address in world)
    && (forall i, j | 0 <= i < j < |view| :: view[i].address <= view[j].address)
  }

  predicate SentTo(log: Log, addresses: Addresses, address: Address) {
    exists u | u in log :: log[u].sent && addresses(u) == address
  }

  /** The WHERE clause: not sent and not exhausted itself, and no other user of the address was sent. */
  predicate Eligible(log: Log, addresses: Addresses, u: User) {
    && u.open
    && !(u.id in log && (log[u.id].sent || log[u.id].attempts >= MAX_ATTEMPTS))
    && !exists v | v in log :: log[v].sent && v != u.id && addresses(v) == u.address
  }

  /** Someone who can still be mailed: open, tried fewer than five times, and no user of the address has a success. */
  ghost predicate Due(log: Log, addresses: Addresses, u: User) {
    && u.open && (u.id in log ==> log[u.id].attempts < 5)
    && forall v | v in log && log[v].sent :: addresses(v) != u.address
  }

  lemma EligibleIsDue(log: Log, addresses: Addresses, u: User)
    requires u.address == addresses(u.id)
    ensures Eligible(log, addresses, u) <==> Due(log, addresses, u)
  {
  }

  /** recordAttempt's upsert. */
  function Record(log: Log, u: UserId, ok: bool): Log {
    if u in log then log[u := Logged(log[u].sent || ok, log[u].attempts + 1)] else log[u := Logged(ok, 1)]
  }

  /** An address of the view with a user who can be mailed. */
  ghost predicate Wanted(log: Log, addresses: Addresses, view: seq<User>, address: Address) {
    exists u | u in view :: u.address == address && Due(log, addresses, u)
  }

  /** No older user of the address can be mailed. */
  ghost predicate OldestDue(log: Log, addresses: Addresses, view: seq<User>, u: User) {
    exists k :: 0 <= k < |view| && view[k] == u && forall j | 0 <= j < k && view[j].address == u.address :: !Due(log, addresses, view[j])
  }

  ghost predicate Listing(view: seq<User>, eligible: User -> bool, batch: seq<User>) {
    && |batch| <= BATCH_SIZE
    && (forall i | 0 <= i < |batch| :: batch[i] in view && eligible(batch[i]))
    && (forall i, j | 0 <= i < j < |batch| :: batch[i].address < batch[j].address)
    && (|batch| < BATCH_SIZE ==> forall u | u in view && eligible(u) :: u.address in BatchAddresses(batch))
  }

  ghost predicate BatchOk(log: Log, addresses: Addresses, view: seq<User>, batch: seq<User>) {
    && |batch| <= 200
    && (forall i | 0 <= i < |batch| :: batch[i] in view && Due(log, addresses, batch[i]))
    && (forall i, j | 0 <= i < j < |batch| :: batch[i].address < batch[j].address)
    && (|batch| < 200 ==> forall a | Wanted(log, addresses, view, a) :: a in BatchAddresses(batch))
  }

  function BatchAddresses(batch: seq<User>): set<Address> {
    set u | u in batch :: u.address
  }

  lemma LastIsBelow(view: seq<User>, i: nat, batch: seq<User>)
    requires i < |view| && forall a, b | 0 <= a < b < |view| :: view[a].address <= view[b].address
    requires batch != [] && batch[|batch| - 1] in view[..i]
    ensures batch[|batch| - 1].address <= view[i].address
  {
    var k :| 0 <= k < i && view[..i][k] == batch[|batch| - 1];
    assert view[k].address <= view[i].address;
  }

  /** A user after the last batch address joins the batch. */
  lemma ListingJoins(view: seq<User>, eligible: User -> bool, batch: seq<User>, u: User)
    requires Listing(view, eligible, batch) && |batch| < BATCH_SIZE && eligible(u)
    requires batch != [] ==> batch[|batch| - 1].address < u.address
    ensures Listing(view + [u], eligible, batch + [u])
  {
    assert BatchAddresses(batch + [u]) == BatchAddresses(batch) + {u.address};
    forall k | 0 <= k < |batch| ensures batch[k].address < u.address {
      assert k < |batch| - 1 ==> batch[k].address < batch[|batch| - 1].address;
    }
  }

  /** Another user of the last batch address adds nothing. */
  lemma ListingSame(view: seq<User>, eligible: User -> bool, batch: seq<User>, u: User)
    requires Listing(view, eligible, batch) && batch != [] && batch[|batch| - 1].address == u.address
    ensures Listing(view + [u], eligible, batch)
  {
    assert batch[|batch| - 1] in batch;
  }

  /** The first eligible user of every run of one address. */
  function Firsts(view: seq<User>, eligible: User -> bool): seq<User> {
    if view == [] then []
    else
      var before, u := Firsts(view[..|view| - 1], eligible), view[|view| - 1];
      if eligible(u) && (before == [] || before[|before| - 1].address != u.address) then before + [u] else before
  }

  function Leading(users: seq<User>): seq<User> {
    if |users| <= BATCH_SIZE then users else users[..BATCH_SIZE]
  }

  lemma {:induction false} FirstsLast(view: seq<User>, eligible: User -> bool)
    ensures var f := Firsts(view, eligible); f != [] ==> exists k :: 0 <= k < |view| && view[k] == f[|f| - 1] && eligible(view[k])
  {
    if view != [] {
      var n := |view| - 1;
      FirstsLast(view[..n], eligible);
      assert forall k | 0 <= k < n :: view[..n][k] == view[k];
    }
  }

  /** In address order, the oldest eligible user of an address is its recipient, as old as users are listed. */
  lemma {:induction false} OldestIsFirst(view: seq<User>, eligible: User -> bool, k: nat)
    requires forall i, j | 0 <= i < j < |view| :: view[i].address <= view[j].address
    requires k < |view| && eligible(view[k]) && forall j | 0 <= j < k && view[j].address == view[k].address :: !eligible(view[j])
    ensures view[k] in Firsts(view, eligible)
  {
    var n := |view| - 1;
    assert forall j | 0 <= j < n :: view[..n][j] == view[j];
    if k < n {
      OldestIsFirst(view[..n], eligible, k);
    } else {
      FirstsLast(view[..n], eligible);
    }
  }

  lemma LeadingStep(view: seq<User>, eligible: User -> bool, i: nat)
    requires i < |view|
    ensures var batch := Leading(Firsts(view[..i], eligible));
      Leading(Firsts(view[..i + 1], eligible)) ==
        if |batch| < BATCH_SIZE && eligible(view[i]) && (batch == [] || batch[|batch| - 1].address != view[i].address)
        then batch + [view[i]] else batch
  {
    assert view[..i + 1][..i] == view[..i];
  }

  /** One more user of a view in address order. */
  lemma ListingNext(view: seq<User>, eligible: User -> bool, batch: seq<User>, u: User, whole: seq<User>, next: seq<User>)
    requires Listing(view, eligible, batch)
    requires batch != [] ==> batch[|batch| - 1].address <= u.address
    requires whole == view + [u]
    requires next == if |batch| < BATCH_SIZE && eligible(u) && (batch == [] || batch[|batch| - 1].address != u.address)
                       then batch + [u] else batch
    ensures Listing(whole, eligible, next)
  {
    if |batch| == BATCH_SIZE || !eligible(u) {
      ListingSkips(view, eligible, batch, u);
    } else if batch == [] || batch[|batch| - 1].address != u.address {
      ListingJoins(view, eligible, batch, u);
    } else {
      ListingSame(view, eligible, batch, u);
    }
  }

  /** The leading users before place m do not come after the user at m. */
  ghost predicate LeadsUpTo(view: seq<User>, eligible: User -> bool, m: nat)
    requires m < |view|
  {
    var batch := Leading(Firsts(view[..m], eligible));
    batch != [] ==> batch[|batch| - 1].address <= view[m].address
  }

  lemma LeadsInOrder(view: seq<User>, eligible: User -> bool, m: nat)
    requires m < |view| && forall i, j | 0 <= i < j < |view| :: view[i].address <= view[j].address
    ensures LeadsUpTo(view, eligible, m)
  {
    var batch := Leading(Firsts(view[..m], eligible));
    if batch != [] {
      FirstsFrom(view[..m], eligible, batch[|batch| - 1]);
      LastIsBelow(view, m, batch);
    }
  }

  lemma {:induction false} FirstsFrom(view: seq<User>, eligible: User -> bool, u: User)
    requires u in Firsts(view, eligible)
    ensures u in view && eligible(u)
  {
    if u in Firsts(view[..|view| - 1], eligible) {
      FirstsFrom(view[..|view| - 1], eligible, u);
    }
  }

  /** The leading users of the first n, as a list of them. */
  ghost predicate LeadingListed(view: seq<User>, eligible: User -> bool, n: nat)
    requires n <= |view|
  {
    Listing(view[..n], eligible, Leading(Firsts(view[..n], eligible)))
  }

  lemma LeadingNext(view: seq<User>, eligible: User -> bool, n: nat, batch: seq<User>, next: seq<User>)
    requires n < |view| && batch == Leading(Firsts(view[..n], eligible)) && next == Leading(Firsts(view[..n + 1], eligible))
    requires Listing(view[..n], eligible, batch) && (batch != [] ==> batch[|batch| - 1].address <= view[n].address)
    ensures Listing(view[..n + 1], eligible, next)
  {
    LeadingStep(view, eligible, n);
    ListingNext(view[..n], eligible, batch, view[n], view[..n + 1], next);
  }

  /** What the leading users of a view in address order are to the view. */
  lemma {:induction false} LeadingLists(view: seq<User>, eligible: User -> bool, n: nat)
    requires n <= |view| && forall m | 0 <= m < |view| :: LeadsUpTo(view, eligible, m)
    ensures LeadingListed(view, eligible, n)
  {
    if n > 0 {
      LeadingLists(view, eligible, n - 1);
      assert LeadsUpTo(view, eligible, n - 1);
      LeadingNext(view, eligible, n - 1, Leading(Firsts(view[..n - 1], eligible)), Leading(Firsts(view[..n], eligible)));
    }
  }

  /** A user who is not eligible, or comes after a full batch, adds nothing. */
  lemma ListingSkips(view: seq<User>, eligible: User -> bool, batch: seq<User>, u: User)
    requires Listing(view, eligible, batch) && (|batch| == BATCH_SIZE || !eligible(u))
    ensures Listing(view + [u], eligible, batch)
  {
  }

  /** SELECT DISTINCT ON (address) ... ORDER BY address, created_at LIMIT. */
  method FirstPerAddress(view: seq<User>, eligible: User -> bool) returns (batch: seq<User>)
    requires forall i, j | 0 <= i < j < |view| :: view[i].address <= view[j].address
    ensures Listing(view, eligible, batch)
    ensures batch == Leading(Firsts(view, eligible))
  {
    batch := [];
    for i := 0 to |view|
      invariant batch == Leading(Firsts(view[..i], eligible))
    {
      LeadingStep(view, eligible, i);
      if |batch| < BATCH_SIZE && eligible(view[i]) && (batch == [] || batch[|batch| - 1].address != view[i].address) {
        batch := batch + [view[i]];
      }
    }
    assert view[..|view|] == view;
    forall m | 0 <= m < |view| ensures LeadsUpTo(view, eligible, m) {
      LeadsInOrder(view, eligible, m);
    }
    LeadingLists(view, eligible, |view|);
  }

  /** nextBatch: the first eligible user of each address, in address order, up to the batch size. */
  method NextBatch(log: Log, addresses: Addresses, view: seq<User>) returns (batch: seq<User>)
    requires forall i, j | 0 <= i < j < |view| :: view[i].address <= view[j].address
    requires forall i | 0 <= i < |view| :: view[i].address == addresses(view[i].id)
    ensures BatchOk(log, addresses, view, batch)
    ensures forall u | u in batch :: OldestDue(log, addresses, view, u)
    ensures batch == Leading(Firsts(view, (u: User) => Eligible(log, addresses, u)))
  {
    batch := FirstPerAddress(view, (u: User) => Eligible(log, addresses, u));
    forall u | u in view ensures Eligible(log, addresses, u) <==> Due(log, addresses, u) {
      var k :| 0 <= k < |view| && view[k] == u;
      EligibleIsDue(log, addresses, u);
    }
    forall u | u in batch ensures OldestDue(log, addresses, view, u) {
      var k := FirstIsOldest(view, (w: User) => Eligible(log, addresses, w), u);
      assert forall j | 0 <= j < k :: view[j] in view;
    }
  }

  /** One attempt of a run. */
  datatype Try = Try(user: UserId, address: Address, ok: bool)

  /** Why a run ended. */
  datatype Stopped = Empty | NoProgress | Limit | Outage | Expired | Died

  function Tried(tries: seq<Try>): set<Address> {
    set t | t in tries :: t.address
  }

  function SentCount(tries: seq<Try>): nat {
    if tries == [] then 0 else SentCount(tries[..|tries| - 1]) + if tries[|tries| - 1].ok then 1 else 0
  }

  /** How many attempts have failed since the last success. */
  function Streak(tries: seq<Try>): nat {
    if tries == [] || tries[|tries| - 1].ok then 0 else Streak(tries[..|tries| - 1]) + 1
  }

  /** The log after the attempts, one recorded after the other. */
  function RecordAll(log: Log, tries: seq<Try>): Log {
    if tries == [] then log else Record(RecordAll(log, tries[..|tries| - 1]), tries[|tries| - 1].user, tries[|tries| - 1].ok)
  }

  /** What becomes of an attempt: the provider's answer, and whether the run dies before it is recorded. */
  datatype Fate = Fate(ok: bool, dies: bool)

  /** The log is what the attempts leave, their outcomes are the answers in turn, and `streak` failures came last. */
  ghost predicate Faithful(start: Log, now: Log, tries: seq<Try>, answer: nat -> Fate, streak: nat) {
    && now == RecordAll(start, tries) && streak == Streak(tries)
    && (forall i | 0 <= i < |tries| :: answer(i) == Fate(tries[i].ok, false))
    && forall n | 0 <= n < |tries| :: Streak(tries[..n]) < MAX_CONSECUTIVE_FAILURES
  }

  lemma FaithfulMore(start: Log, now: Log, tries: seq<Try>, answer: nat -> Fate, streak: nat, t: Try)
    requires Faithful(start, now, tries, answer, streak) && answer(|tries|) == Fate(t.ok, false)
    requires streak < MAX_CONSECUTIVE_FAILURES
    ensures Faithful(start, Record(now, t.user, t.ok), tries + [t], answer, if t.ok then 0 else streak + 1)
  {
    assert (tries + [t])[..|tries|] == tries;
    assert forall n | 0 <= n < |tries| :: (tries + [t])[..n] == tries[..n];
  }

  /** The first n attempts ended with five failures. */
  ghost predicate FiveFailed(tries: seq<Try>, n: nat)
    requires n <= |tries|
  {
    n >= 5 && forall i | n - 5 <= i < n :: !tries[i].ok
  }

  lemma {:induction false} StreakLasts(tries: seq<Try>, k: nat)
    requires k <= |tries|
    ensures Streak(tries) >= k <==> forall i | |tries| - k <= i < |tries| :: !tries[i].ok
  {
    if k > 0 {
      var n := |tries| - 1;
      StreakLasts(tries[..n], k - 1);
      assert forall i | 0 <= i < n :: tries[..n][i] == tries[i];
    }
  }

  lemma {:induction false} StreakBound(tries: seq<Try>)
    ensures Streak(tries) <= |tries|
  {
    if tries != [] {
      StreakBound(tries[..|tries| - 1]);
    }
  }

  /** A run stops at the first five failures in a row. */
  lemma StopsAtFive(start: Log, now: Log, tries: seq<Try>, answer: nat -> Fate, streak: nat)
    requires Faithful(start, now, tries, answer, streak)
    ensures streak >= 5 <==> FiveFailed(tries, |tries|)
    ensures forall n | 0 <= n < |tries| :: !FiveFailed(tries, n)
  {
    StreakBound(tries);
    if |tries| >= 5 {
      StreakLasts(tries, 5);
    }
    forall n | 0 <= n < |tries| ensures !FiveFailed(tries, n) {
      if n >= 5 {
        StreakLasts(tries[..n], 5);
        assert Streak(tries[..n]) < MAX_CONSECUTIVE_FAILURES;
      }
    }
  }

  function TriesOf(tries: seq<Try>, u: UserId): set<nat> {
    set i | 0 <= i < |tries| && tries[i].user == u
  }

  function Successes(tries: seq<Try>): set<nat> {
    set i | 0 <= i < |tries| && tries[i].ok
  }

  /** A user's row counts the attempts on him, and has a success if there is one. */
  ghost predicate RowGrows(start: Log, now: Log, tries: seq<Try>, u: UserId) {
    && (u in now <==> u in start || TriesOf(tries, u) != {})
    && (u in now ==>
          && now[u].attempts == (if u in start then start[u].attempts else 0) + |TriesOf(tries, u)|
          && (now[u].sent <==> (u in start && start[u].sent) || TriesOf(tries, u) * Successes(tries) != {}))
  }

  lemma RowGrowsMore(start: Log, now: Log, tries: seq<Try>, t: Try, u: UserId)
    requires RowGrows(start, now, tries, u)
    ensures RowGrows(start, Record(now, t.user, t.ok), tries + [t], u)
  {
    TriesMore(tries, t, u);
  }

  lemma TriesMore(tries: seq<Try>, t: Try, u: UserId)
    ensures t.user != u ==> TriesOf(tries + [t], u) == TriesOf(tries, u)
    ensures t.user != u ==> TriesOf(tries + [t], u) * Successes(tries + [t]) == TriesOf(tries, u) * Successes(tries)
    ensures t.user == u ==> TriesOf(tries + [t], u) != {} && |TriesOf(tries + [t], u)| == |TriesOf(tries, u)| + 1
    ensures t.user == u ==>
      (TriesOf(tries + [t], u) * Successes(tries + [t]) != {} <==> t.ok || TriesOf(tries, u) * Successes(tries) != {})
  {
    var n := |tries|;
    OneMoreTry(tries, t, u);
    OneMoreSuccess(tries, t);
    assert n !in TriesOf(tries, u) && n !in Successes(tries);
    MeetMore(TriesOf(tries, u), Successes(tries), TriesOf(tries + [t], u), Successes(tries + [t]), n, t.user == u, t.ok);
  }

  lemma MeetMore(a: set<nat>, b: set<nat>, a': set<nat>, b': set<nat>, n: nat, left: bool, right: bool)
    requires n !in a && n !in b && a' == a + (if left then {n} else {}) && b' == b + if right then {n} else {}
    ensures !left ==> a' == a && a' * b' == a * b
    ensures left ==> a' != {} && |a'| == |a| + 1 && (a' * b' != {} <==> right || a * b != {})
  {
    if left {
      assert n in a' && a' * b' == a * b + if right then {n} else {};
    }
  }

  lemma OneMoreTry(tries: seq<Try>, t: Try, u: UserId)
    ensures TriesOf(tries + [t], u) == TriesOf(tries, u) + if t.user == u then {|tries|} else {}
  {
  }

  lemma OneMoreSuccess(tries: seq<Try>, t: Try)
    ensures Successes(tries + [t]) == Successes(tries) + if t.ok then {|tries|} else {}
  {
  }

  /** The log counts attempts exactly: every user's row grows by the recorded attempts on that user. */
  lemma {:induction false} RecordExact(start: Log, tries: seq<Try>, u: UserId)
    ensures RowGrows(start, RecordAll(start, tries), tries, u)
  {
    if tries == [] {
      assert TriesOf(tries, u) == {};
    } else {
      var n := |tries| - 1;
      RecordExact(start, tries[..n], u);
      RowGrowsMore(start, RecordAll(start, tries[..n]), tries[..n], tries[n], u);
      assert tries[..n] + [tries[n]] == tries;
    }
  }

  lemma {:induction false} SentCountExact(tries: seq<Try>)
    ensures SentCount(tries) == |Successes(tries)|
  {
    if tries == [] {
      assert Successes(tries) == {};
    } else {
      var n := |tries| - 1;
      SentCountExact(tries[..n]);
      assert Successes(tries) == Successes(tries[..n]) + if tries[n].ok then {n} else {};
    }
  }

  /** A mail of a run: to a user it saw, open, with fewer than five attempts in the log it began with. */
  ghost predicate Chosen(view: nat -> seq<User>, start: Log, t: Try) {
    exists k, u :: u in view(k) && u.id == t.user && u.address == t.address && u.open && (u.id in start ==> start[u.id].attempts < 5)
  }

  ghost predicate OneOf(batch: seq<User>, t: Try) {
    exists u :: u in batch && u.id == t.user && u.address == t.address
  }

  ghost predicate AllChosen(view: nat -> seq<User>, start: Log, tries: seq<Try>) {
    forall i | 0 <= i < |tries| :: Chosen(view, start, tries[i])
  }

  /** All but the first n attempts went to users of the batch. */
  ghost predicate FromBatch(batch: seq<User>, tries: seq<Try>, n: nat) {
    forall i | n <= i < |tries| :: OneOf(batch, tries[i])
  }

  lemma FromBatchMore(batch: seq<User>, tries: seq<Try>, n: nat, all: seq<Try>, i: nat)
    requires FromBatch(batch, tries, n) && tries <= all && |all| <= |tries| + 1 && i < |batch|
    requires |all| > |tries| ==> all[|tries|].user == batch[i].id && all[|tries|].address == batch[i].address
    ensures FromBatch(batch, all, n)
  {
    assert batch[i] in batch;
  }

  lemma BatchIsChosen(views: nat -> seq<User>, k: nat, start: Log, now: Log, addresses: Addresses, tries: seq<Try>,
                      batch: seq<User>, t: Try)
    requires RunOk(start, now, addresses, tries) && BatchOk(now, addresses, views(k), batch) && OneOf(batch, t)
    ensures Chosen(views, start, t)
  {
    var u :| u in batch && u.id == t.user && u.address == t.address;
    assert u in views(k) && Due(now, addresses, u);
  }

  lemma RoundIsChosen(views: nat -> seq<User>, k: nat, start: Log, now: Log, addresses: Addresses, tries: seq<Try>,
                      batch: seq<User>, all: seq<Try>, lost: Option<Try>)
    requires RunOk(start, now, addresses, tries) && BatchOk(now, addresses, views(k), batch)
    requires AllChosen(views, start, tries) && tries <= all && FromBatch(batch, all, |tries|)
    requires lost.Some? ==> OneOf(batch, lost.value)
    ensures AllChosen(views, start, all) && (lost.Some? ==> Chosen(views, start, lost.value))
  {
    forall t | OneOf(batch, t) ensures Chosen(views, start, t) {
      BatchIsChosen(views, k, start, now, addresses, tries, batch, t);
    }
  }

  /** What holds of a run's attempts at every moment, counted from the log it began with. */
  ghost predicate RunOk(start: Log, now: Log, addresses: Addresses, tries: seq<Try>) {
    && (forall i, j | 0 <= i < j < |tries| :: tries[i].address != tries[j].address)
    && (forall i | 0 <= i < |tries| :: tries[i].address == addresses(tries[i].user) && !SentTo(start, addresses, tries[i].address))
    && (forall a :: SentTo(now, addresses, a) <==> SentTo(start, addresses, a) || exists i :: 0 <= i < |tries| && tries[i].address == a && tries[i].ok)
    && (forall u | u in start :: u in now && now[u].attempts >= start[u].attempts && (start[u].sent ==> now[u].sent))
  }

  lemma RecordSent(log: Log, addresses: Addresses, u: UserId, ok: bool, a: Address)
    ensures SentTo(Record(log, u, ok), addresses, a) <==> SentTo(log, addresses, a) || (ok && addresses(u) == a)
  {
    var after := Record(log, u, ok);
    if SentTo(log, addresses, a) {
      var v :| v in log && log[v].sent && addresses(v) == a;
      assert after[v].sent;
    }
    if ok && addresses(u) == a {
      assert after[u].sent;
    }
    if SentTo(after, addresses, a) {
      var v :| v in after && after[v].sent && addresses(v) == a;
      assert v != u ==> v in log && log[v].sent;
    }
  }

  lemma BatchFits(log: Log, addresses: Addresses, view: seq<User>, world: set<Address>, batch: seq<User>)
    requires ViewOk(view, addresses, world) && BatchOk(log, addresses, view, batch)
    ensures forall i | 0 <= i < |batch| ::
      batch[i].address == addresses(batch[i].id) && !SentTo(log, addresses, batch[i].address)
    ensures forall i, j | 0 <= i < j < |batch| :: batch[i].address < batch[j].address
    ensures BatchAddresses(batch) <= world
  {
    forall i | 0 <= i < |batch|
      ensures batch[i].address == addresses(batch[i].id) && batch[i].address in world && !SentTo(log, addresses, batch[i].address)
    {
      assert batch[i] in view;
      var k :| 0 <= k < |view| && view[k] == batch[i];
    }
  }

  lemma TrySteps(start: Log, now: Log, addresses: Addresses, tries: seq<Try>, t: Try)
    requires RunOk(start, now, addresses, tries)
    requires t.address == addresses(t.user) && t.address !in Tried(tries) && !SentTo(now, addresses, t.address)
    ensures RunOk(start, Record(now, t.user, t.ok), addresses, tries + [t])
    ensures Tried(tries + [t]) == Tried(tries) + {t.address}
    ensures SentCount(tries + [t]) == SentCount(tries) + if t.ok then 1 else 0
  {
    var after := Record(now, t.user, t.ok);
    var all := tries + [t];
    assert all[..|tries|] == tries;
    forall a ensures SentTo(after, addresses, a) <==>
      SentTo(start, addresses, a) || exists i :: 0 <= i < |all| && all[i].address == a && all[i].ok
    {
      RecordSent(now, addresses, t.user, t.ok, a);
      if i :| 0 <= i < |tries| && tries[i].address == a && tries[i].ok {
        assert all[i].address == a && all[i].ok;
      }
      if t.ok && t.address == a {
        assert all[|tries|].address == a && all[|tries|].ok;
      }
    }
    forall i | 0 <= i < |tries| ensures tries[i].address != t.address {
      assert tries[i] in tries;
    }
  }

  /** What the world does while the run goes on: the users at each query, what becomes of each attempt, and the clock. */
  datatype Surroundings = Surroundings(view: nat -> seq<User>, answer: nat -> Fate, expired: nat -> bool)

  /** An attempt the log knows nothing of: the mail went out, and the run died. */
  ghost predicate LostOk(log: Log, addresses: Addresses, tries: seq<Try>, t: Try) {
    t.address == addresses(t.user) && t.address !in Tried(tries) && !SentTo(log, addresses, t.address)
  }

  class Blast {
    var log: Log
    const addresses: Addresses
    ghost const world: set<Address>

    constructor (log: Log, addresses: Addresses, ghost world: set<Address>)
      ensures this.log == log && this.addresses == addresses && this.world == world
    {
      this.log, this.addresses, this.world := log, addresses, world;
    }

    /** One recipient whose address this run has not tried: send, and live to record the attempt. */
    method Send(u: User, answer: nat -> Fate, tries: seq<Try>, failures: nat, ghost start: Log, ghost rest: set<Address>)
      returns (all: seq<Try>, streak: nat)
      requires Faithful(start, log, tries, answer, failures) && !answer(|tries|).dies && failures < MAX_CONSECUTIVE_FAILURES
      requires RunOk(start, log, addresses, tries) && u.address == addresses(u.id) && u.address !in Tried(tries)
      requires !SentTo(log, addresses, u.address) && u.address !in rest && forall a | a in rest :: !SentTo(log, addresses, a)
      modifies this`log
      ensures all == tries + [Try(u.id, u.address, answer(|tries|).ok)] && RunOk(start, log, addresses, all)
      ensures Faithful(start, log, all, answer, streak) && streak <= failures + 1
      ensures Tried(all) == Tried(tries) + {u.address}
      ensures forall a | a in rest :: !SentTo(log, addresses, a)
    {
      var ok := answer(|tries|).ok;
      TrySteps(start, log, addresses, tries, Try(u.id, u.address, ok));
      FaithfulMore(start, log, tries, answer, failures, Try(u.id, u.address, ok));
      forall a | a in rest ensures !SentTo(Record(log, u.id, ok), addresses, a) {
        RecordSent(log, addresses, u.id, ok, a);
      }
      log := Record(log, u.id, ok);
      all := tries + [Try(u.id, u.address, ok)];
      streak := if ok then 0 else failures + 1;
    }

    /** One recipient of a batch: passed over when this run has tried the address; the run may die on it. */
    method SendNext(u: User, answer: nat -> Fate, tries: seq<Try>, failures: nat, ghost start: Log, ghost rest: set<Address>)
      returns (all: seq<Try>, streak: nat, lost: Option<Try>)
      requires Faithful(start, log, tries, answer, failures) && RunOk(start, log, addresses, tries) && u.address == addresses(u.id)
      requires failures < MAX_CONSECUTIVE_FAILURES
      requires !SentTo(log, addresses, u.address) && u.address !in rest && forall a | a in rest :: !SentTo(log, addresses, a)
      modifies this`log
      ensures RunOk(start, log, addresses, all) && Faithful(start, log, all, answer, streak) && streak <= failures + 1
      ensures tries <= all && |all| <= |tries| + 1 && (|all| == |tries| ==> log == old(log) && streak == failures)
      ensures |all| > |tries| ==> all[|tries|].user == u.id && all[|tries|].address == u.address
      ensures lost.Some? ==> lost.value.user == u.id && lost.value.address == u.address
      ensures lost.Some? ==> all == tries && LostOk(log, addresses, all, lost.value) && answer(|all|) == Fate(lost.value.ok, true)
      ensures lost.None? ==> Tried(all) == Tried(tries) + {u.address}
      ensures forall a | a in rest :: !SentTo(log, addresses, a)
    {
      all, streak, lost := tries, failures, None;
      if u.address !in Tried(tries) {
        if answer(|tries|).dies {
          lost := Some(Try(u.id, u.address, answer(|tries|).ok));
        } else {
          all, streak := Send(u, answer, tries, failures, start, rest);
        }
      }
    }

    /**
     * Where the loop over a batch stands before its recipient i: it stops at the limit, if and only if the last five
     * attempts failed, or when the run dies; otherwise every address so far has been tried.
     */
    ghost predicate Sending(start: Log, batch: seq<User>, i: nat, answer: nat -> Fate, limit: Option<nat>, tries: seq<Try>,
                            all: seq<Try>, streak: nat, stop: Option<Stopped>, lost: Option<Try>)
      requires i <= |batch|
      reads this
    {
      && RunOk(start, log, addresses, all) && tries <= all && (limit.Some? ==> |all| <= limit.value)
      && Faithful(start, log, all, answer, streak)
      && (stop.None? || stop == Some(Limit) || stop == Some(Outage) || stop == Some(Died))
      && (stop == Some(Limit) ==> limit.Some? && |all| == limit.value)
      && (stop == Some(Outage) <==> streak >= MAX_CONSECUTIVE_FAILURES)
      && (stop == Some(Died) <==> lost.Some?)
      && (lost.Some? ==> LostOk(log, addresses, all, lost.value) && answer(|all|) == Fate(lost.value.ok, true))
      && (forall a | a in BatchAddresses(batch[i..]) :: !SentTo(log, addresses, a))
      && (stop.None? ==> BatchAddresses(batch[..i]) <= Tried(all))
      && Tried(all) <= Tried(tries) + BatchAddresses(batch[..i])
      && FromBatch(batch, all, |tries|) && (lost.Some? ==> OneOf(batch, lost.value))
    }

    lemma SendingStarts(start: Log, batch: seq<User>, answer: nat -> Fate, limit: Option<nat>, tries: seq<Try>, failures: nat)
      requires RunOk(start, log, addresses, tries) && (limit.Some? ==> |tries| <= limit.value)
      requires Faithful(start, log, tries, answer, failures) && failures < MAX_CONSECUTIVE_FAILURES
      requires forall i | 0 <= i < |batch| :: !SentTo(log, addresses, batch[i].address)
      ensures Sending(start, batch, 0, answer, limit, tries, tries, failures, None, None)
    {
    }

    lemma SendingEnds(start: Log, batch: seq<User>, i: nat, answer: nat -> Fate, limit: Option<nat>, tries: seq<Try>,
                      all: seq<Try>, streak: nat, stop: Option<Stopped>, lost: Option<Try>)
      requires i <= |batch| && Sending(start, batch, i, answer, limit, tries, all, streak, stop, lost)
      requires i == |batch| || stop.Some?
      ensures Sending(start, batch, |batch|, answer, limit, tries, all, streak, stop, lost)
      ensures |all| == |tries| ==> all == tries
    {
      BatchPart(batch, i);
      assert batch[..|batch|] == batch;
    }

    /** One turn of that loop: the limit is reached, or the next recipient's turn has come. */
    method SendAt(batch: seq<User>, i: nat, answer: nat -> Fate, limit: Option<nat>, ghost tries: seq<Try>, before: seq<Try>,
                  failures: nat, ghost start: Log)
      returns (all: seq<Try>, streak: nat, stop: Option<Stopped>, lost: Option<Try>)
      requires i < |batch| && Sending(start, batch, i, answer, limit, tries, before, failures, None, None)
      requires batch[i].address == addresses(batch[i].id) && forall a, b | 0 <= a < b < |batch| :: batch[a].address < batch[b].address
      modifies this`log
      ensures Sending(start, batch, i + 1, answer, limit, tries, all, streak, stop, lost)
      ensures before <= all && (|all| == |before| ==> log == old(log))
    {
      all, streak, stop, lost := before, failures, None, None;
      ghost var rest := BatchAddresses(batch[i + 1..]);
      BatchSplit(batch, i);
      if limit.Some? && |all| >= limit.value {
        stop := Some(Limit);
      } else {
        all, streak, lost := SendNext(batch[i], answer, all, streak, start, rest);
        FromBatchMore(batch, before, |tries|, all, i);
        stop := if lost.Some? then Some(Died) else if streak >= MAX_CONSECUTIVE_FAILURES then Some(Outage) else None;
      }
    }

    /** The recipients of one batch, in order, without addresses this run has tried. */
    method SendBatch(batch: seq<User>, answer: nat -> Fate, limit: Option<nat>, tries: seq<Try>, failures: nat,
                     ghost start: Log)
      returns (all: seq<Try>, streak: nat, stop: Option<Stopped>, lost: Option<Try>)
      requires RunOk(start, log, addresses, tries) && (limit.Some? ==> |tries| <= limit.value)
      requires Faithful(start, log, tries, answer, failures) && failures < MAX_CONSECUTIVE_FAILURES
      requires forall i | 0 <= i < |batch| :: batch[i].address == addresses(batch[i].id) && !SentTo(log, addresses, batch[i].address)
      requires forall i, j | 0 <= i < j < |batch| :: batch[i].address < batch[j].address
      modifies this`log
      ensures Sending(start, batch, |batch|, answer, limit, tries, all, streak, stop, lost)
      ensures |all| == |tries| ==> log == old(log) && all == tries
    {
      all, streak, stop, lost := tries, failures, None, None;
      SendingStarts(start, batch, answer, limit, tries, failures);
      var i := 0;
      while i < |batch| && stop.None?
        invariant 0 <= i <= |batch| && Sending(start, batch, i, answer, limit, tries, all, streak, stop, lost)
        invariant tries <= all && (|all| == |tries| ==> log == old(log))
      {
        all, streak, stop, lost := SendAt(batch, i, answer, limit, tries, all, streak, start);
        i := i + 1;
      }
      SendingEnds(start, batch, i, answer, limit, tries, all, streak, stop, lost);
    }

    /** One batch of a run: new attempts, or the reason to stop. */
    method Round(view: seq<User>, answer: nat -> Fate, limit: Option<nat>, tries: seq<Try>, failures: nat,
                 ghost start: Log, ghost views: nat -> seq<User>, ghost k: nat)
      returns (all: seq<Try>, streak: nat, stop: Option<Stopped>, lost: Option<Try>)
      requires ViewOk(view, addresses, world) && view == views(k)
      requires AllChosen(views, start, tries)
      requires RunOk(start, log, addresses, tries) && (limit.Some? ==> |tries| <= limit.value) && Tried(tries) <= world
      requires Faithful(start, log, tries, answer, failures) && failures < MAX_CONSECUTIVE_FAILURES
      modifies this`log
      ensures RunOk(start, log, addresses, all) && tries <= all && Tried(all) <= world
      ensures limit.Some? ==> |all| <= limit.value
      ensures Faithful(start, log, all, answer, streak)
      ensures stop == Some(Limit) ==> limit.Some? && |all| == limit.value
      ensures stop == Some(Outage) <==> streak >= MAX_CONSECUTIVE_FAILURES
      ensures stop != Some(Expired) && (stop == Some(Died) <==> lost.Some?)
      ensures AllChosen(views, start, all) && (lost.Some? ==> Chosen(views, start, lost.value))
      ensures lost.Some? ==> LostOk(log, addresses, all, lost.value) && answer(|all|) == Fate(lost.value.ok, true)
      ensures stop.None? ==> |world - Tried(all)| < |world - Tried(tries)|
      ensures stop in {Some(Empty), Some(NoProgress)} && |all| - SentCount(all) < BATCH_SIZE ==>
        forall a | Wanted(log, addresses, view, a) :: a in Tried(all)
    {
      var batch := NextBatch(log, addresses, view);
      if batch == [] {
        return tries, failures, Some(Empty), None;
      }
      BatchFits(log, addresses, view, world, batch);
      ghost var before := log;
      all, streak, stop, lost := SendBatch(batch, answer, limit, tries, failures, start);
      assert batch[..|batch|] == batch;
      RoundIsChosen(views, k, start, before, addresses, tries, batch, all, lost);
      if stop.None? {
        if |all| == |tries| {
          if |all| - SentCount(all) < BATCH_SIZE {
            NoProgressMeansDone(start, log, addresses, view, batch, all);
          }
          stop := Some(NoProgress);
        } else {
          Progressed(world, tries, all);
        }
      }
    }

    /**
     * One run of the blast. No address is tried that the log has a success for, none twice, and only open users with
     * fewer than five attempts; every row of the log grows by the attempts on its user; the counters are the attempts and
     * respect the limit; the run stops at the first five failures in a row, and ends on any finite set of addresses; and
     * if it ends for lack of new recipients with fewer failures than a batch holds, every address that can still be mailed
     * in the users it last saw has been tried. When the run dies between a mail and its record, that one attempt is lost
     * to the log.
     */
    method Run(s: Surroundings, limit: Option<nat>)
      returns (tries: seq<Try>, sent: nat, failed: nat, why: Stopped, last: nat, lost: Option<Try>)
      requires forall k :: ViewOk(s.view(k), addresses, world)
      modifies this`log
      ensures RunOk(old(log), log, addresses, tries)
      ensures forall u :: RowGrows(old(log), log, tries, u)
      ensures forall i | 0 <= i < |tries| :: Chosen(s.view, old(log), tries[i])
      ensures lost.Some? ==> Chosen(s.view, old(log), lost.value)
      ensures forall i | 0 <= i < |tries| :: s.answer(i) == Fate(tries[i].ok, false)
      ensures sent == |Successes(tries)| && sent + failed == |tries|
      ensures limit.Some? ==> |tries| <= limit.value
      ensures why == Outage <==> FiveFailed(tries, |tries|)
      ensures forall n | 0 <= n < |tries| :: !FiveFailed(tries, n)
      ensures why == Limit ==> limit.Some? && |tries| == limit.value
      ensures why == Expired ==> s.expired(last)
      ensures why == Died <==> lost.Some?
      ensures lost.Some? ==> LostOk(log, addresses, tries, lost.value) && s.answer(|tries|) == Fate(lost.value.ok, true)
      ensures why in {Empty, NoProgress} && failed < 200 ==>
        forall a | Wanted(log, addresses, s.view(last), a) :: a in Tried(tries)
    {
      tries, last, lost := [], 0, None;
      var streak: nat := 0;
      while true
        invariant RunOk(old(log), log, addresses, tries) && Tried(tries) <= world
        invariant limit.Some? ==> |tries| <= limit.value
        invariant Faithful(old(log), log, tries, s.answer, streak) && streak < MAX_CONSECUTIVE_FAILURES
        invariant AllChosen(s.view, old(log), tries)
        decreases |world - Tried(tries)|
      {
        if s.expired(last) {
          sent, failed := Counters(tries);
          RunIsRecorded(old(log), log, tries, s.answer, streak);
          return tries, sent, failed, Expired, last, None;
        }
        var all, more, stop, unrecorded := Round(s.view(last), s.answer, limit, tries, streak, old(log), s.view, last);
        if stop.Some? {
          sent, failed := Counters(all);
          RunIsRecorded(old(log), log, all, s.answer, more);
          return all, sent, failed, stop.value, last, unrecorded;
        }
        tries, streak, last := all, more, last + 1;
      }
    }
  }

  lemma RunIsRecorded(start: Log, now: Log, tries: seq<Try>, answer: nat -> Fate, streak: nat)
    requires Faithful(start, now, tries, answer, streak)
    ensures forall u :: RowGrows(start, now, tries, u)
    ensures SentCount(tries) == |Successes(tries)|
    ensures streak >= 5 <==> FiveFailed(tries, |tries|)
    ensures forall n | 0 <= n < |tries| :: !FiveFailed(tries, n)
  {
    forall u ensures RowGrows(start, now, tries, u) {
      RecordExact(start, tries, u);
    }
    SentCountExact(tries);
    StopsAtFive(start, now, tries, answer, streak);
  }

  method Counters(tries: seq<Try>) returns (sent: nat, failed: nat)
    ensures sent == SentCount(tries) && sent + failed == |tries|
  {
    sent, failed := 0, 0;
    for i := 0 to |tries|
      invariant sent == SentCount(tries[..i]) && sent + failed == i
    {
      assert tries[..i + 1][..i] == tries[..i];
      if tries[i].ok {
        sent := sent + 1;
      } else {
        failed := failed + 1;
      }
    }
    assert tries[..|tries|] == tries;
  }

  lemma BatchSplit(batch: seq<User>, i: nat)
    requires i < |batch| && forall a, b | 0 <= a < b < |batch| :: batch[a].address < batch[b].address
    ensures batch[i].address in BatchAddresses(batch[i..])
    ensures BatchAddresses(batch[i + 1..]) == BatchAddresses(batch[i..]) - {batch[i].address}
    ensures BatchAddresses(batch[..i + 1]) == BatchAddresses(batch[..i]) + {batch[i].address}
    ensures BatchAddresses(batch[..i + 1]) <= BatchAddresses(batch)
  {
    assert batch[i..] == [batch[i]] + batch[i + 1..];
    assert batch[..i + 1] == batch[..i] + [batch[i]];
    forall u | u in batch[i + 1..] ensures u.address != batch[i].address {
      var k :| 0 <= k < |batch[i + 1..]| && batch[i + 1..][k] == u;
      assert batch[i + 1 + k] == u;
    }
  }

  lemma BatchPart(batch: seq<User>, i: nat)
    requires i <= |batch|
    ensures BatchAddresses(batch[..i]) <= BatchAddresses(batch) && (i == |batch| ==> batch[..i] == batch)
  {
  }

  lemma Progressed(world: set<Address>, tries: seq<Try>, all: seq<Try>)
    requires tries <= all && |all| > |tries| && Tried(all) <= world
    requires forall i, j | 0 <= i < j < |all| :: all[i].address != all[j].address
    ensures |world - Tried(all)| < |world - Tried(tries)|
  {
    var x := all[|tries|].address;
    assert all[|tries|] in all;
    forall t | t in tries ensures t.address != x && t.address in Tried(all) {
      var i :| 0 <= i < |tries| && tries[i] == t;
      assert all[i] == t && all[i] in all;
    }
    Smaller(world - Tried(all), world - Tried(tries), x);
  }

  lemma Smaller(a: set<Address>, b: set<Address>, x: Address)
    requires a <= b - {x} && x in b
    ensures |a| < |b|
  {
    assert b - {x} == a + (b - {x} - a);
    assert |b - {x}| == |a| + |b - {x} - a|;
  }

  lemma {:induction false} FailedAddresses(tries: seq<Try>, addresses: set<Address>)
    requires forall i, j | 0 <= i < j < |tries| :: tries[i].address != tries[j].address
    requires forall a | a in addresses :: exists i :: 0 <= i < |tries| && tries[i].address == a && !tries[i].ok
    ensures |addresses| <= |tries| - SentCount(tries)
  {
    if tries == [] {
      assert forall a :: a !in addresses;
      assert addresses == {};
    } else {
      var n := |tries| - 1;
      var t := tries[n];
      forall a | a in addresses - {t.address} ensures exists i :: 0 <= i < n && tries[..n][i].address == a && !tries[..n][i].ok {
        var i :| 0 <= i < |tries| && tries[i].address == a && !tries[i].ok;
        assert tries[..n][i] == tries[i];
      }
      if t.address in addresses {
        FailedAddresses(tries[..n], addresses - {t.address});
        var i :| 0 <= i < |tries| && tries[i].address == t.address && !tries[i].ok;
        assert i == n;
      } else {
        assert addresses - {t.address} == addresses;
        FailedAddresses(tries[..n], addresses);
      }
    }
  }

  lemma {:induction false} BatchAddressesSize(batch: seq<User>)
    requires forall i, j | 0 <= i < j < |batch| :: batch[i].address < batch[j].address
    ensures |BatchAddresses(batch)| == |batch|
  {
    if batch == [] {
      assert BatchAddresses(batch) == {};
    } else {
      var n := |batch| - 1;
      BatchAddressesSize(batch[..n]);
      assert batch == batch[..n] + [batch[n]];
      assert BatchAddresses(batch) == BatchAddresses(batch[..n]) + {batch[n].address};
    }
  }

  /** A full batch without a new address means a batch of failures; a short one lists all that is left. */
  lemma NoProgressMeansDone(start: Log, log: Log, addresses: Addresses, view: seq<User>, batch: seq<User>, tries: seq<Try>)
    requires RunOk(start, log, addresses, tries) && |tries| - SentCount(tries) < BATCH_SIZE
    requires BatchOk(log, addresses, view, batch) && BatchAddresses(batch) <= Tried(tries)
    requires forall i | 0 <= i < |batch| :: !SentTo(log, addresses, batch[i].address)
    ensures forall a | Wanted(log, addresses, view, a) :: a in Tried(tries)
  {
    forall a | a in BatchAddresses(batch) ensures exists i :: 0 <= i < |tries| && tries[i].address == a && !tries[i].ok {
      var u :| u in batch && u.address == a;
      assert a in Tried(tries);
      var t :| t in tries && t.address == a;
      var i :| 0 <= i < |tries| && tries[i] == t;
    }
    FailedAddresses(tries, BatchAddresses(batch));
    BatchAddressesSize(batch);
  }

  // ------------------------------------------------------------------------------------------------ runs after runs

  /** One run: the attempts it recorded, and the one it died before recording. */
  datatype OneRun = OneRun(tries: seq<Try>, lost: Option<Try>)

  /** Sequential runs: each one begins with the log the previous one left. */
  datatype Past = Past(logs: seq<Log>, runs: seq<OneRun>)

  ghost predicate History(p: Past, addresses: Addresses) {
    && |p.logs| == |p.runs| + 1
    && forall r | 0 <= r < |p.runs| ::
      && RunOk(p.logs[r], p.logs[r + 1], addresses, p.runs[r].tries)
      && (p.runs[r].lost.Some? ==> LostOk(p.logs[r + 1], addresses, p.runs[r].tries, p.runs[r].lost.value))
  }

  /** The mails of a run, the last one perhaps unrecorded. */
  function Attempts(run: OneRun): seq<Try> {
    if run.lost.Some? then run.tries + [run.lost.value] else run.tries
  }

  lemma {:induction false} SentStaysSent(p: Past, addresses: Addresses, r: nat, q: nat, a: Address)
    requires History(p, addresses) && r <= q < |p.logs| && SentTo(p.logs[r], addresses, a)
    ensures SentTo(p.logs[q], addresses, a)
    decreases q - r
  {
    if r < q {
      assert RunOk(p.logs[r], p.logs[r + 1], addresses, p.runs[r].tries);
      SentStaysSent(p, addresses, r + 1, q, a);
    }
  }

  /** A run's mails go to addresses the log it began with has no success for, each once. */
  lemma AttemptsFit(p: Past, addresses: Addresses, r: nat, i: nat)
    requires History(p, addresses) && r < |p.runs| && i < |Attempts(p.runs[r])|
    ensures !SentTo(p.logs[r], addresses, Attempts(p.runs[r])[i].address)
    ensures forall j | i < j < |Attempts(p.runs[r])| :: Attempts(p.runs[r])[j].address != Attempts(p.runs[r])[i].address
    ensures i < |p.runs[r].tries| && p.runs[r].tries[i].ok ==> SentTo(p.logs[r + 1], addresses, Attempts(p.runs[r])[i].address)
  {
    var run := p.runs[r];
    assert RunOk(p.logs[r], p.logs[r + 1], addresses, run.tries);
    assert forall k | 0 <= k < |run.tries| :: run.tries[k] in run.tries && run.tries[k].address in Tried(run.tries);
    assert forall a :: SentTo(p.logs[r], addresses, a) ==> SentTo(p.logs[r + 1], addresses, a);
  }

  /** Over any number of runs an address with a success is tried again only in a later run, and only if the run of the
      success died before recording it. */
  lemma RepeatMeansCrash(p: Past, addresses: Addresses, r: nat, i: nat, q: nat, j: nat)
    requires History(p, addresses) && r < |p.runs| && q < |p.runs| && i < |Attempts(p.runs[r])| && j < |Attempts(p.runs[q])|
    requires Attempts(p.runs[r])[i].ok && (r < q || (r == q && i < j))
    requires Attempts(p.runs[q])[j].address == Attempts(p.runs[r])[i].address
    ensures r < q && p.runs[r].lost == Some(Attempts(p.runs[r])[i])
  {
    var a := Attempts(p.runs[r])[i].address;
    AttemptsFit(p, addresses, r, i);
    AttemptsFit(p, addresses, q, j);
    if i < |p.runs[r].tries| {
      SentStaysSent(p, addresses, r + 1, q, a);
    }
  }

  /** So no address is tried after a recorded success. */
  lemma NeverAfterSuccess(p: Past, addresses: Addresses, r: nat, i: nat, q: nat, j: nat)
    requires History(p, addresses) && r < |p.runs| && q < |p.runs| && i < |p.runs[r].tries| && j < |Attempts(p.runs[q])|
    requires p.runs[r].tries[i].ok && (r < q || (r == q && i < j))
    ensures Attempts(p.runs[q])[j].address != p.runs[r].tries[i].address
  {
    AttemptsFit(p, addresses, r, i);
    AttemptsFit(p, addresses, q, j);
    if r < q {
      SentStaysSent(p, addresses, r + 1, q, p.runs[r].tries[i].address);
    }
  }

  ghost predicate Delivers(run: OneRun, a: Address) {
    exists i :: 0 <= i < |Attempts(run)| && Attempts(run)[i].address == a && Attempts(run)[i].ok
  }

  /** In how many of the first n runs the address gets the mail. */
  ghost function Deliveries(p: Past, a: Address, n: nat): nat
    requires n <= |p.runs|
  {
    if n == 0 then 0 else Deliveries(p, a, n - 1) + if Delivers(p.runs[n - 1], a) then 1 else 0
  }

  /** How many of the first n runs died on a mail that had reached the address. */
  function Crashes(p: Past, a: Address, n: nat): nat
    requires n <= |p.runs|
  {
    if n == 0 then 0
    else
      var lost := p.runs[n - 1].lost;
      Crashes(p, a, n - 1) + if lost.Some? && lost.value.ok && lost.value.address == a then 1 else 0
  }

  /** An address gets the mail at most once, and once more for every run that died on a mail to it. */
  lemma {:induction false} OneMailPerCrash(p: Past, addresses: Addresses, a: Address, n: nat)
    requires History(p, addresses) && n <= |p.runs|
    ensures Deliveries(p, a, n) <= Crashes(p, a, n) + if SentTo(p.logs[n], addresses, a) then 1 else 0
  {
    if n > 0 {
      OneMailPerCrash(p, addresses, a, n - 1);
      var run := p.runs[n - 1];
      if SentTo(p.logs[n - 1], addresses, a) {
        SentStaysSent(p, addresses, n - 1, n, a);
      }
      if Delivers(run, a) {
        var i :| 0 <= i < |Attempts(run)| && Attempts(run)[i].address == a && Attempts(run)[i].ok;
        AttemptsFit(p, addresses, n - 1, i);
      }
    }
  }

  lemma FirstRecord(addresses: Addresses, u: UserId)
    ensures RunOk(map[], map[u := Logged(true, 1)], addresses, [Try(u, addresses(u), true)])
  {
    var none: Log, t := map[], Try(u, addresses(u), true);
    TrySteps(none, none, addresses, [], t);
    assert [] + [t] == [t] && Record(none, u, true) == map[u := Logged(true, 1)];
  }

  /** The repeat does happen: a run dies on its first mail, the next one sends it again. */
  lemma RepeatHappens(addresses: Addresses, u: UserId)
    ensures
      var t := Try(u, addresses(u), true);
      var p := Past([map[], map[], map[u := Logged(true, 1)]], [OneRun([], Some(t)), OneRun([t], None)]);
      && History(p, addresses)
      && Attempts(p.runs[0])[0].ok && Attempts(p.runs[1])[0].address == Attempts(p.runs[0])[0].address
  {
    var t := Try(u, addresses(u), true);
    var none: Log := map[];
    assert RunOk(none, none, addresses, []);
    FirstRecord(addresses, u);
    assert !SentTo(none, addresses, addresses(u));
  }

  lemma {:induction false} LatestGroup(view: seq<User>, eligible: User -> bool, k: nat)
    requires (forall i, j | 0 <= i < j < |view| :: view[i].address <= view[j].address) && k < |view| && eligible(view[k])
    ensures var f := Firsts(view, eligible); f != [] && view[k].address <= f[|f| - 1].address
  {
    var n := |view| - 1;
    assert forall j | 0 <= j < n :: view[..n][j] == view[j];
    if k < n {
      LatestGroup(view[..n], eligible, k);
    }
  }

  /** The recipient of an address is its first eligible user. */
  lemma {:induction false} FirstIsOldest(view: seq<User>, eligible: User -> bool, u: User) returns (k: nat)
    requires (forall i, j | 0 <= i < j < |view| :: view[i].address <= view[j].address) && u in Firsts(view, eligible)
    ensures k < |view| && view[k] == u && eligible(u)
    ensures forall j | 0 <= j < k && view[j].address == u.address :: !eligible(view[j])
  {
    var n := |view| - 1;
    assert forall j | 0 <= j < n :: view[..n][j] == view[j];
    if u in Firsts(view[..n], eligible) {
      k := FirstIsOldest(view[..n], eligible, u);
    } else {
      k := n;
      FirstsLast(view[..n], eligible);
      forall j | 0 <= j < n && eligible(view[j]) ensures view[j].address != u.address {
        LatestGroup(view[..n], eligible, j);
      }
    }
  }

  /** The log says the same of every user of the address. */
  ghost predicate SameFor(log: Log, later: Log, addresses: Addresses, a: Address) {
    forall v | addresses(v) == a :: (v in log <==> v in later) && (v in log ==> log[v] == later[v])
  }

  /**
   * While the users stay and the log says the same of the address, its recipient stays: a mail repeated after a crash
   * goes to the same user, under the same idempotency key.
   */
  lemma SameUserAgain(view: seq<User>, addresses: Addresses, log: Log, later: Log, u: User)
    requires forall i, j | 0 <= i < j < |view| :: view[i].address <= view[j].address
    requires (forall i | 0 <= i < |view| :: view[i].address == addresses(view[i].id)) && SameFor(log, later, addresses, u.address)
    requires u in Firsts(view, (w: User) => Eligible(log, addresses, w))
    ensures u in Firsts(view, (w: User) => Eligible(later, addresses, w))
  {
    var k := FirstIsOldest(view, (w: User) => Eligible(log, addresses, w), u);
    forall j | 0 <= j <= k && view[j].address == u.address
      ensures Eligible(later, addresses, view[j]) <==> Eligible(log, addresses, view[j])
    {
    }
    OldestIsFirst(view, (w: User) => Eligible(later, addresses, w), k);
  }
}
