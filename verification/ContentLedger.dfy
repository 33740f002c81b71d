/**
 * The Dato falso ledgers: the daily cards' seed and the room pool's seed run under one lock, each as one transaction.
 * Whatever was ever shown stays in the ledger.
 */
module ContentLedger {
  import opened Wrappers
  import opened ReleaseContent
  import opened GapScan

  type Day = nat
  type CardId = nat
  type Folded = nat

  /** A card: its id, its footballer's id, and the footballer's folded name. */
  datatype Card = Card(id: CardId, player: PlayerId, name: Folded)

  datatype Side = Daily | Room

  /** A ledger row; the day is not part of its key. */
  datatype Row = Row(side: Side, card: Card, day: Option<Day>)

  datatype Entry = Entry(day: Day, cards: seq<Card>)

  const PLAYER_GAP_DAYS := 7

  type Days = map<Day, seq<Card>>

  // ------------------------------------------------------------------------------------------------ the rules

  /** No footballer, by id or by folded name, is on both sides. */
  ghost predicate SidesApart(ledger: set<Row>) {
    forall r, q | r in ledger && q in ledger && r.side == Daily && q.side == Room ::
      r.card.player != q.card.player && r.card.name != q.card.name
  }

  /** A daily card was only ever shown on one day. */
  ghost predicate OneDayPerCard(ledger: set<Row>) {
    forall r, q | r in ledger && q in ledger && r.side == Daily && q.side == Daily && r.card.id == q.card.id :: r.day == q.day
  }

  /** Every stored card is in the ledger, under its day. */
  ghost predicate AllRecorded(days: Days, ledger: set<Row>) {
    forall d, c | d in days && c in days[d] :: Row(Daily, c, Some(d)) in ledger
  }

  /** The pairwise rule on the stored schedule. */
  ghost predicate ScheduleOk(days: Days) {
    forall d, i, e, j | d in days && 0 <= i < |days[d]| && e in days && 0 <= j < |days[e]| && (d < e || (d == e && i < j)) ::
      && days[d][i].id != days[e][j].id
      && (days[d][i].player == days[e][j].player || days[d][i].name == days[e][j].name ==> e - d >= 7)
  }

  // ------------------------------------------------------------------------------------------------ the merged schedule

  function Cards(days: Days, order: seq<Day>): seq<(Day, Card)>
    requires forall d | d in order :: d in days
  {
    if order == [] then [] else seq(|days[order[0]]|, i requires 0 <= i < |days[order[0]]| => (order[0], days[order[0]][i])) + Cards(days, order[1..])
  }

  datatype Key = ById(player: PlayerId) | ByName(name: Folded)

  /** The two keys of every card of the schedule, in order. */
  function Occurrences(cards: seq<(Day, Card)>): (all: seq<Occurrence<Key>>)
  {
    seq(2 * |cards|, i requires 0 <= i < 2 * |cards| =>
      Occurrence(cards[i / 2].0 as int, if i % 2 == 0 then ById(cards[i / 2].1.player) else ByName(cards[i / 2].1.name)))
  }

  predicate Ascending(order: seq<Day>) {
    forall i, j | 0 <= i < j < |order| :: order[i] < order[j]
  }

  lemma {:induction false} SortedAscends(s: set<nat>)
    ensures Ascending(Sorted(s))
    decreases |s|
  {
    if s != {} {
      var x := Least(s);
      SortedAscends(s - {x});
      var rest := Sorted(s - {x});
      forall k | 0 <= k < |rest| ensures x < rest[k] {
        assert rest[k] in Elements(rest);
      }
    }
  }

  /** `cards` lists the schedule: every place of a day, earlier places first. */
  ghost predicate Lists(cards: seq<(Day, Card)>, days: Days, order: seq<Day>) {
    && (forall k | 0 <= k < |cards| :: cards[k].0 in order)
    && (forall j, k | 0 <= j < k < |cards| :: cards[j].0 <= cards[k].0)
  }

  lemma {:induction false} CardsInOrder(days: Days, order: seq<Day>)
    requires Ascending(order) && forall d | d in order :: d in days
    ensures Lists(Cards(days, order), days, order)
  {
    if order != [] {
      assert Ascending(order[1..]) by {
        assert forall i | 0 <= i < |order[1..]| :: order[1..][i] == order[i + 1];
      }
      CardsInOrder(days, order[1..]);
      var rest := Cards(days, order[1..]);
      forall k | 0 <= k < |rest| ensures order[0] < rest[k].0 {
        assert rest[k].0 in order[1..];
        var i :| 0 <= i < |order[1..]| && order[1..][i] == rest[k].0;
        assert order[i + 1] == rest[k].0;
      }
    }
  }

  /** Where the i-th card of a day is in the list. */
  function Place(days: Days, order: seq<Day>, d: Day, i: nat): nat
    requires d in order && forall x | x in order :: x in days
  {
    if order[0] == d then i else |days[order[0]]| + Place(days, order[1..], d, i)
  }

  lemma {:induction false} PlaceHolds(days: Days, order: seq<Day>, d: Day, i: nat)
    requires Ascending(order) && d in order && (forall x | x in order :: x in days) && i < |days[d]|
    ensures Place(days, order, d, i) < |Cards(days, order)| && Cards(days, order)[Place(days, order, d, i)] == (d, days[d][i])
  {
    if order[0] != d {
      assert Ascending(order[1..]) by {
        assert forall k | 0 <= k < |order[1..]| :: order[1..][k] == order[k + 1];
      }
      PlaceHolds(days, order[1..], d, i);
    }
  }

  lemma {:induction false} PlaceGrows(days: Days, order: seq<Day>, d: Day, i: nat, e: Day, j: nat)
    requires Ascending(order) && d in order && e in order && (forall x | x in order :: x in days)
    requires i < |days[d]| && j < |days[e]| && (d < e || (d == e && i < j))
    ensures Place(days, order, d, i) < Place(days, order, e, j)
  {
    if order[0] != d {
      assert Ascending(order[1..]) by {
        assert forall k | 0 <= k < |order[1..]| :: order[1..][k] == order[k + 1];
      }
      assert order[0] != e by {
        var k :| 0 <= k < |order| && order[k] == d;
        assert order[0] < order[k];
      }
      PlaceGrows(days, order[1..], d, i, e, j);
    }
  }

  lemma {:induction false} EveryPlace(days: Days, order: seq<Day>, k: nat) returns (d: Day, i: nat)
    requires Ascending(order) && (forall x | x in order :: x in days) && k < |Cards(days, order)|
    ensures d in order && i < |days[d]| && Place(days, order, d, i) == k && Cards(days, order)[k] == (d, days[d][i])
  {
    var n := |days[order[0]]|;
    if k < n {
      d, i := order[0], k;
    } else {
      assert Ascending(order[1..]) by {
        assert forall x | 0 <= x < |order[1..]| :: order[1..][x] == order[x + 1];
      }
      d, i := EveryPlace(days, order[1..], k - n);
      var x :| 0 <= x < |order[1..]| && order[1..][x] == d;
      assert order[0] < order[x + 1];
    }
  }

  function GapOf(key: Key): int {
    PLAYER_GAP_DAYS
  }

  /** No two of the first n places hold the same card. */
  ghost predicate OnceUpTo(cards: seq<(Day, Card)>, n: nat)
    requires n <= |cards|
  {
    forall j, k | 0 <= j < k < n :: cards[j].1.id != cards[k].1.id
  }

  ghost predicate PairOk(a: (Day, Card), b: (Day, Card)) {
    && a.1.id != b.1.id
    && (a.1.player == b.1.player || a.1.name == b.1.name ==> b.0 - a.0 >= PLAYER_GAP_DAYS)
  }

  ghost predicate PairsOk(cards: seq<(Day, Card)>) {
    forall j, k | 0 <= j < k < |cards| :: PairOk(cards[j], cards[k])
  }

  lemma KeysOfCard(cards: seq<(Day, Card)>, k: nat)
    requires k < |cards|
    ensures |Occurrences(cards)| == 2 * |cards|
    ensures Occurrences(cards)[2 * k] == Occurrence(cards[k].0, ById(cards[k].1.player))
    ensures Occurrences(cards)[2 * k + 1] == Occurrence(cards[k].0, ByName(cards[k].1.name))
  {
    assert (2 * k + 1) / 2 == k && (2 * k + 1) % 2 == 1;
  }

  lemma KeysInOrder(cards: seq<(Day, Card)>)
    requires forall j, k | 0 <= j < k < |cards| :: cards[j].0 <= cards[k].0
    ensures InOrder(Occurrences(cards))
  {
    var all := Occurrences(cards);
    forall i, j | 0 <= i < j < |all| ensures all[i].day <= all[j].day {
      assert all[i].day == cards[i / 2].0 && all[j].day == cards[j / 2].0;
      assert i / 2 <= j / 2;
    }
  }

  /** Both keys far enough apart, no card twice: the pairwise rule. */
  lemma PairsOfList(cards: seq<(Day, Card)>)
    ensures OnceUpTo(cards, |cards|) && Apart(Occurrences(cards), GapOf) <==> PairsOk(cards)
  {
    var all := Occurrences(cards);
    if OnceUpTo(cards, |cards|) && Apart(all, GapOf) {
      forall j, k | 0 <= j < k < |cards| ensures PairOk(cards[j], cards[k]) {
        KeysOfCard(cards, j);
        KeysOfCard(cards, k);
        assert FarApart(all, 2 * j, 2 * k, GapOf) && FarApart(all, 2 * j + 1, 2 * k + 1, GapOf);
      }
    }
    if PairsOk(cards) {
      forall j, k | 0 <= j < k < |cards| ensures cards[j].1.id != cards[k].1.id {
        assert PairOk(cards[j], cards[k]);
      }
      forall i, j | 0 <= i < j < |all| ensures FarApart(all, i, j, GapOf) {
        if all[i].key == all[j].key {
          assert i % 2 == j % 2 && i / 2 < j / 2;
          assert PairOk(cards[i / 2], cards[j / 2]);
        }
      }
    }
  }

  /** The check on the list is the rule on the schedule. */
  lemma ListIsSchedule(days: Days, order: seq<Day>)
    requires Ascending(order) && (forall d :: d in order <==> d in days)
    ensures PairsOk(Cards(days, order)) <==> ScheduleOk(days)
  {
    var cards := Cards(days, order);
    if PairsOk(cards) {
      forall d, i, e, j | d in days && 0 <= i < |days[d]| && e in days && 0 <= j < |days[e]| && (d < e || (d == e && i < j))
        ensures PairOk((d, days[d][i]), (e, days[e][j]))
      {
        PlaceHolds(days, order, d, i);
        PlaceHolds(days, order, e, j);
        PlaceGrows(days, order, d, i, e, j);
        assert PairOk(cards[Place(days, order, d, i)], cards[Place(days, order, e, j)]);
      }
    }
    if ScheduleOk(days) {
      forall a, b | 0 <= a < b < |cards| ensures PairOk(cards[a], cards[b]) {
        var d, i := EveryPlace(days, order, a);
        var e, j := EveryPlace(days, order, b);
        CardsInOrder(days, order);
        assert d <= e;
        if d == e {
          assert i != j;
          if j < i {
            PlaceGrows(days, order, e, j, d, i);
          }
        }
      }
    }
  }

  /** The cards seen among the first k. */
  ghost predicate Seen(cards: seq<(Day, Card)>, k: nat, seen: set<CardId>)
    requires k <= |cards|
  {
    && (forall j | 0 <= j < k :: cards[j].1.id in seen)
    && (forall id | id in seen :: exists j | 0 <= j < k :: cards[j].1.id == id)
  }

  lemma SeenDecides(cards: seq<(Day, Card)>, k: nat, seen: set<CardId>)
    requires k < |cards| && Seen(cards, k, seen) && OnceUpTo(cards, k)
    ensures OnceUpTo(cards, k + 1) <==> cards[k].1.id !in seen
    ensures Seen(cards, k + 1, seen + {cards[k].1.id})
  {
  }

  /** `all` holds the two keys of every card. */
  ghost predicate KeysOf(all: seq<Occurrence<Key>>, cards: seq<(Day, Card)>) {
    && |all| == 2 * |cards|
    && forall k | 0 <= k < |cards| ::
      && all[2 * k] == Occurrence(cards[k].0, ById(cards[k].1.player))
      && all[2 * k + 1] == Occurrence(cards[k].0, ByName(cards[k].1.name))
  }

  /** The one pass over the schedule, with the cards seen and the last day of every key. */
  method ScanCards(cards: seq<(Day, Card)>, ghost all: seq<Occurrence<Key>>) returns (ok: bool)
    requires InOrder(all) && KeysOf(all, cards)
    ensures ok <==> OnceUpTo(cards, |cards|) && Apart(all, GapOf)
  {
    var seen: set<CardId> := {};
    var last: map<Key, int> := map[];
    for k := 0 to |cards|
      invariant OnceUpTo(cards, k) && Seen(cards, k, seen)
      invariant ApartUpTo(all, 2 * k, GapOf) && LastDays(all, 2 * k, last)
    {
      SeenDecides(cards, k, seen);
      if cards[k].1.id in seen {
        return false;
      }
      seen := seen + {cards[k].1.id};
      ok, last := Visit(all, 2 * k, cards[k].0, cards[k].1, last);
      if !ok {
        return false;
      }
    }
    ok := true;
  }

  /** Both keys of one card against their last days; `all` holds the card's keys at i and i + 1. */
  method Visit(ghost all: seq<Occurrence<Key>>, ghost i: nat, day: Day, card: Card, before: map<Key, int>)
    returns (ok: bool, last: map<Key, int>)
    requires InOrder(all) && i + 1 < |all|
    requires all[i] == Occurrence(day, ById(card.player)) && all[i + 1] == Occurrence(day, ByName(card.name))
    requires ApartUpTo(all, i, GapOf) && LastDays(all, i, before)
    ensures ok <==> ApartUpTo(all, i + 2, GapOf)
    ensures ok ==> LastDays(all, i + 2, last)
  {
    last := before;
    var far := Far(last, ById(card.player), day, all, i);
    if !far {
      return false, last;
    }
    last := last[ById(card.player) := day];
    far := Far(last, ByName(card.name), day, all, i + 1);
    if !far {
      return false, last;
    }
    last := last[ByName(card.name) := day];
    ok := true;
  }

  /** Is the key's last day far enough back? */
  method Far(last: map<Key, int>, key: Key, day: Day, ghost all: seq<Occurrence<Key>>, ghost i: nat) returns (far: bool)
    requires InOrder(all) && i < |all| && all[i] == Occurrence(day, key)
    requires ApartUpTo(all, i, GapOf) && LastDays(all, i, last)
    ensures far <==> (key in last ==> day - last[key] >= PLAYER_GAP_DAYS)
    ensures far <==> ApartUpTo(all, i + 1, GapOf)
    ensures LastDays(all, i + 1, last[key := day])
  {
    LatestDecides(all, i, last, GapOf);
    LastDaysStep(all, i, last);
    far := !(key in last && day - last[key] < PLAYER_GAP_DAYS);
  }

  /** The scan of the merged schedule, sorted by day. */
  method CheckSchedule(days: Days) returns (ok: bool)
    ensures ok <==> ScheduleOk(days)
  {
    var order := Sorted(days.Keys);
    SortedAscends(days.Keys);
    assert forall d :: d in order <==> d in Elements(order);
    var cards := Cards(days, order);
    CardsInOrder(days, order);
    ListIsSchedule(days, order);
    KeysInOrder(cards);
    PairsOfList(cards);
    forall k | 0 <= k < |cards| {
      KeysOfCard(cards, k);
    }
    ok := ScanCards(cards, Occurrences(cards));
  }

  // ------------------------------------------------------------------------------------------------ the two seeds

  /** A day's content version: 32 bits of a hash of its cards. */
  type Versions = seq<Card> -> nat

  function AsMap(file: seq<Entry>): Days {
    if file == [] then map[] else AsMap(file[..|file| - 1])[file[|file| - 1].day := file[|file| - 1].cards]
  }

  predicate DistinctDays(file: seq<Entry>) {
    forall i, j | 0 <= i < j < |file| :: file[i].day != file[j].day
  }

  lemma {:induction false} AsMapExact(file: seq<Entry>, d: Day)
    requires DistinctDays(file)
    ensures d in AsMap(file) <==> exists i | 0 <= i < |file| :: file[i].day == d
    ensures forall i | 0 <= i < |file| :: file[i].day in AsMap(file) && AsMap(file)[file[i].day] == file[i].cards
  {
    if file != [] {
      var n := |file| - 1;
      AsMapExact(file[..n], d);
      assert forall i | 0 <= i < n :: file[..n][i] == file[i];
      forall i | 0 <= i < n ensures file[i].day in AsMap(file) && AsMap(file)[file[i].day] == file[i].cards {
        assert file[i].day != file[n].day;
      }
      if exists i | 0 <= i < |file| :: file[i].day == d {
        var i :| 0 <= i < |file| && file[i].day == d;
        if i < n {
          assert file[..n][i].day == d;
        }
      }
    }
  }

  /** INSERT ... ON CONFLICT DO NOTHING: a row whose key is there already is not inserted. */
  predicate SameKey(r: Row, q: Row) {
    r.side == q.side && r.card == q.card
  }

  function Record(ledger: set<Row>, rows: set<Row>): set<Row> {
    ledger + set r | r in rows && forall q | q in ledger :: !SameKey(r, q)
  }

  function DailyRows(days: Days): set<Row> {
    set d, c | d in days && c in days[d] :: Row(Daily, c, Some(d))
  }

  function RoomRows(cards: seq<Card>): set<Row> {
    set c | c in cards :: Row(Room, c, None)
  }

  predicate OnSide(ledger: set<Row>, side: Side, card: Card) {
    exists r | r in ledger :: r.side == side && (r.card.player == card.player || r.card.name == card.name)
  }

  /** One more day of the file; no day comes twice. */
  lemma StoredMore(days: Days, incoming: Days, entry: Entry, versions: Versions)
    requires entry.day !in incoming
    ensures
      var before := Stored(days, incoming, versions);
      && (entry.day in before <==> entry.day in days) && (entry.day in days ==> before[entry.day] == days[entry.day])
      && Stored(days, incoming[entry.day := entry.cards], versions)
        == if entry.day in before && versions(before[entry.day]) == versions(entry.cards) then before else before[entry.day := entry.cards]
  {
  }

  lemma StoredRecorded(days: Days, incoming: Days, versions: Versions, ledger: set<Row>)
    requires AllRecorded(days, ledger) && AllRecorded(days + incoming, ledger)
    ensures AllRecorded(Stored(days, incoming, versions), ledger)
  {
    var stored := Stored(days, incoming, versions);
    forall d, c | d in stored && c in stored[d] ensures Row(Daily, c, Some(d)) in ledger {
      if d in incoming && stored[d] == incoming[d] {
        assert d in days + incoming && (days + incoming)[d] == incoming[d];
      }
    }
  }

  predicate ShownElsewhere(ledger: set<Row>, card: CardId, day: Day) {
    exists r | r in ledger :: r.side == Daily && r.card.id == card && r.day != Some(day)
  }

  /** No card of the file is on the rooms' side, none was shown on another day. */
  predicate Welcome(ledger: set<Row>, incoming: Days) {
    forall d: Day, c: Card | d in incoming && c in incoming[d] :: !OnSide(ledger, Room, c) && !ShownElsewhere(ledger, c.id, d)
  }

  /** Days stored already come with the version they have. */
  predicate Unchanged(days: Days, incoming: Days, versions: Versions) {
    forall d | d in incoming && d in days :: versions(days[d]) == versions(incoming[d])
  }

  /** Stored days and their new cards share a version only when they are equal. */
  ghost predicate VersionsTell(days: Days, incoming: Days, versions: Versions) {
    forall d | d in incoming && d in days && versions(days[d]) == versions(incoming[d]) :: days[d] == incoming[d]
  }

  /** What the writes leave: a stored day whose version is that of the file's cards is not written. */
  function Stored(days: Days, incoming: Days, versions: Versions): Days {
    days + map d | d in incoming && !(d in days && versions(days[d]) == versions(incoming[d])) :: incoming[d]
  }

  /** The stored days are the schedule that was checked exactly when the versions tell the cards apart. */
  lemma StoredIsChecked(days: Days, incoming: Days, versions: Versions)
    ensures Stored(days, incoming, versions) == days + incoming <==> VersionsTell(days, incoming, versions)
  {
    var stored := Stored(days, incoming, versions);
    assert stored.Keys == (days + incoming).Keys;
    forall d | d in incoming && d in days && versions(days[d]) == versions(incoming[d]) ensures stored[d] == days[d] {
    }
  }

  /** The four checks of the days' seed. */
  ghost predicate Accepts(days: Days, ledger: set<Row>, file: seq<Entry>, allowCorrection: bool, versions: Versions) {
    && DistinctDays(file) && Welcome(ledger, AsMap(file)) && ScheduleOk(days + AsMap(file))
    && (allowCorrection || Unchanged(days, AsMap(file), versions))
  }

  /** No room card is about the footballer, by id or by folded name. */
  ghost predicate NotInRooms(ledger: set<Row>, card: Card) {
    forall r | r in ledger && r.side == Room :: r.card.player != card.player && r.card.name != card.name
  }

  /** The card was shown on no other day. */
  ghost predicate OnlyOn(ledger: set<Row>, card: Card, day: Day) {
    forall r | r in ledger && r.side == Daily && r.card.id == card.id :: r.day == Some(day)
  }

  ghost predicate Fine(ledger: set<Row>, card: Card, day: Day) {
    NotInRooms(ledger, card) && OnlyOn(ledger, card, day)
  }

  /** The same, entry by entry: each day once, nobody of the rooms' side, no card shown on another day, the schedule's rule,
      and no stored day with another version unless corrections are allowed. */
  ghost predicate Permitted(days: Days, ledger: set<Row>, file: seq<Entry>, allowCorrection: bool, versions: Versions) {
    && (forall i, j | 0 <= i < j < |file| :: file[i].day != file[j].day)
    && (forall i, c | 0 <= i < |file| && c in file[i].cards :: Fine(ledger, c, file[i].day))
    && ScheduleOk(days + AsMap(file))
    && (allowCorrection || forall i | 0 <= i < |file| && file[i].day in days :: versions(days[file[i].day]) == versions(file[i].cards))
  }

  lemma WelcomeIsFine(ledger: set<Row>, incoming: Days)
    ensures Welcome(ledger, incoming) <==> forall d, c | d in incoming && c in incoming[d] :: Fine(ledger, c, d)
  {
    forall d: Day, c: Card | d in incoming && c in incoming[d]
      ensures Fine(ledger, c, d) <==> !OnSide(ledger, Room, c) && !ShownElsewhere(ledger, c.id, d)
    {
    }
  }

  lemma EveryEntry(ledger: set<Row>, file: seq<Entry>)
    requires DistinctDays(file)
    ensures (forall d, c | d in AsMap(file) && c in AsMap(file)[d] :: Fine(ledger, c, d)) <==>
            (forall i, c | 0 <= i < |file| && c in file[i].cards :: Fine(ledger, c, file[i].day))
  {
    if forall d, c | d in AsMap(file) && c in AsMap(file)[d] :: Fine(ledger, c, d) {
      forall i, c | 0 <= i < |file| && c in file[i].cards ensures Fine(ledger, c, file[i].day) {
        AsMapExact(file, file[i].day);
      }
    }
    if forall i, c | 0 <= i < |file| && c in file[i].cards :: Fine(ledger, c, file[i].day) {
      forall d, c | d in AsMap(file) && c in AsMap(file)[d] ensures Fine(ledger, c, d) {
        AsMapExact(file, d);
        var i :| 0 <= i < |file| && file[i].day == d;
        assert Fine(ledger, c, file[i].day);
      }
    }
  }

  lemma AcceptsExact(days: Days, ledger: set<Row>, file: seq<Entry>, allowCorrection: bool, versions: Versions)
    ensures Accepts(days, ledger, file, allowCorrection, versions) <==> Permitted(days, ledger, file, allowCorrection, versions)
  {
    if DistinctDays(file) {
      WelcomeIsFine(ledger, AsMap(file));
      EveryEntry(ledger, file);
      forall i | 0 <= i < |file| ensures file[i].day in AsMap(file) && AsMap(file)[file[i].day] == file[i].cards {
        AsMapExact(file, file[i].day);
      }
      forall d | d in AsMap(file) ensures exists i | 0 <= i < |file| :: file[i].day == d {
        AsMapExact(file, d);
      }
    }
  }

  /** Each day of the file has its cards, unless its version was there already; all other days stay. */
  ghost predicate Overlaid(days: Days, after: Days, file: seq<Entry>, versions: Versions) {
    && (forall d :: d in after <==> d in days || exists i | 0 <= i < |file| :: file[i].day == d)
    && (forall i | 0 <= i < |file| && file[i].day in after ::
          var d := file[i].day;
          after[d] == if d in days && versions(days[d]) == versions(file[i].cards) then days[d] else file[i].cards)
    && (forall d | d in days && d in after && forall i | 0 <= i < |file| :: file[i].day != d :: after[d] == days[d])
  }

  lemma StoredOverlaid(days: Days, file: seq<Entry>, versions: Versions)
    requires DistinctDays(file)
    ensures Overlaid(days, Stored(days, AsMap(file), versions), file, versions)
  {
    forall d ensures d in AsMap(file) <==> exists i | 0 <= i < |file| :: file[i].day == d {
      AsMapExact(file, d);
    }
    forall i | 0 <= i < |file| ensures AsMap(file)[file[i].day] == file[i].cards {
      AsMapExact(file, file[i].day);
    }
  }

  /** The row says that the card was shown on a day of the file. */
  ghost predicate OfFile(file: seq<Entry>, r: Row) {
    r.side == Daily && exists i | 0 <= i < |file| :: r.card in file[i].cards && r.day == Some(file[i].day)
  }

  /** The room card's row. */
  ghost predicate OfRooms(cards: seq<Card>, r: Row) {
    r.side == Room && r.day == None && r.card in cards
  }

  ghost predicate Recorded(ledger: set<Row>, side: Side, card: Card) {
    exists q | q in ledger :: q.side == side && q.card == card
  }

  /** Every card of the file is recorded with its day, unless the ledger has it on the daily side already. */
  ghost predicate Logged(ledger: set<Row>, after: set<Row>, file: seq<Entry>) {
    forall r :: r in after <==> r in ledger || (OfFile(file, r) && !Recorded(ledger, Daily, r.card))
  }

  lemma RecordLogged(ledger: set<Row>, file: seq<Entry>)
    requires DistinctDays(file)
    ensures Logged(ledger, Record(ledger, DailyRows(AsMap(file))), file)
  {
    forall r ensures r in DailyRows(AsMap(file)) <==> OfFile(file, r) {
      if r.day.Some? {
        AsMapExact(file, r.day.value);
      }
    }
  }

  /** Two cards on consecutive days: neither the same card nor the same footballer. */
  lemma TwoDays(a: Card, b: Card)
    ensures ScheduleOk(map[0 := [a], 1 := [b]]) <==> a.id != b.id && a.player != b.player && a.name != b.name
  {
    var days: Days := map[0 := [a], 1 := [b]];
    assert days[0][0] == a && days[1][0] == b;
  }

  lemma TwoEntries(a: Card, b: Card)
    ensures DistinctDays([Entry(0, [a]), Entry(1, [b])]) && AsMap([Entry(0, [a]), Entry(1, [b])]) == map[0 := [a], 1 := [b]]
  {
    var file := [Entry(0, [a]), Entry(1, [b])];
    assert file[..1] == [file[0]] && [file[0]][..0] == [];
    assert AsMap([file[0]]) == map[0 := [a]];
  }

  /**
   * A collision gets through: day 0 is stored with one footballer, the file moves him to day 1 and gives day 0 another
   * card of the same version. The file is accepted, day 0 is not rewritten, and he stands on two days in a row.
   */
  lemma CollisionBreaks(versions: Versions, stayed: Card, other: Card, moved: Card)
    requires stayed.id != moved.id && other.id != moved.id && other.id != stayed.id
    requires stayed.player == moved.player && other.player != moved.player && other.name != moved.name
    requires versions([stayed]) == versions([other])
    ensures
      var days: Days, file := map[0 := [stayed]], [Entry(0, [other]), Entry(1, [moved])];
      var ledger := {Row(Daily, stayed, Some(0))};
      && SidesApart(ledger) && OneDayPerCard(ledger) && AllRecorded(days, ledger)
      && Accepts(days, ledger, file, false, versions)
      && !ScheduleOk(Stored(days, AsMap(file), versions))
  {
    var days: Days, file := map[0 := [stayed]], [Entry(0, [other]), Entry(1, [moved])];
    TwoEntries(other, moved);
    TwoDays(other, moved);
    TwoDays(stayed, moved);
    assert days + AsMap(file) == map[0 := [other], 1 := [moved]];
    assert Stored(days, AsMap(file), versions) == map[0 := [stayed], 1 := [moved]];
    CollisionWelcome(stayed, other, moved);
  }

  lemma CollisionWelcome(stayed: Card, other: Card, moved: Card)
    requires stayed.id != moved.id && other.id != stayed.id
    ensures Welcome({Row(Daily, stayed, Some(0))}, map[0 := [other], 1 := [moved]])
  {
    var ledger := {Row(Daily, stayed, Some(0))};
    var incoming: Days := map[0 := [other], 1 := [moved]];
    forall d: Day, c: Card | d in incoming && c in incoming[d] ensures !OnSide(ledger, Room, c) && !ShownElsewhere(ledger, c.id, d) {
      assert c == other || c == moved;
    }
  }

  class Ledgers {
    var days: Days
    var ledger: set<Row>

    constructor ()
      ensures days == map[] && ledger == {} && Valid() && ScheduleOk(days)
    {
      days, ledger := map[], {};
    }

    ghost predicate Valid()
      reads this
    {
      SidesApart(ledger) && OneDayPerCard(ledger) && AllRecorded(days, ledger)
    }

    /**
     * The days' seed: refused as a whole, or every day of the file is stored, unless it has its version already, and
     * recorded. The stored days are the checked schedule exactly when the versions tell the cards apart.
     */
    method SeedDays(file: seq<Entry>, allowCorrection: bool, versions: Versions) returns (ok: bool)
      requires Valid()
      modifies this
      ensures Valid() && old(ledger) <= ledger
      ensures ok <==> Permitted(old(days), old(ledger), file, allowCorrection, versions)
      ensures !ok ==> days == old(days) && ledger == old(ledger)
      ensures ok ==> Overlaid(old(days), days, file, versions) && Logged(old(ledger), ledger, file)
      ensures ok ==> (days == old(days) + AsMap(file) <==> VersionsTell(old(days), AsMap(file), versions))
      ensures ok && VersionsTell(old(days), AsMap(file), versions) ==> ScheduleOk(days)
    {
      AcceptsExact(days, ledger, file, allowCorrection, versions);
      if !DistinctDays(file) {
        return false;
      }
      var incoming := AsMap(file);
      if !Welcome(ledger, incoming) {
        return false;
      }
      var scheduled := CheckSchedule(days + incoming);
      if !scheduled || (!allowCorrection && !Unchanged(days, incoming, versions)) {
        return false;
      }
      RecordDaily(days, incoming, ledger);
      StoredIsChecked(days, incoming, versions);
      StoredOverlaid(days, file, versions);
      RecordLogged(ledger, file);
      StoredRecorded(days, incoming, versions, Record(ledger, DailyRows(incoming)));
      WriteDays(file, versions);
      ledger := Record(ledger, DailyRows(incoming));
      ok := true;
    }

    /** One write per day whose version differs from the one read before. */
    method WriteDays(file: seq<Entry>, versions: Versions)
      requires DistinctDays(file)
      modifies this`days
      ensures days == Stored(old(days), AsMap(file), versions)
    {
      for i := 0 to |file|
        invariant days == Stored(old(days), AsMap(file[..i]), versions)
      {
        assert file[..i + 1][..i] == file[..i];
        AsMapExact(file[..i], file[i].day);
        assert forall k | 0 <= k < i :: file[..i][k].day != file[i].day;
        StoredMore(old(days), AsMap(file[..i]), file[i], versions);
        if file[i].day !in days || versions(days[file[i].day]) != versions(file[i].cards) {
          days := days[file[i].day := file[i].cards];
        }
      }
      assert file[..|file|] == file;
    }

    /** The room pool's seed: refused when a footballer is in the dailies, else recorded. */
    method SeedRooms(cards: seq<Card>) returns (ok: bool)
      requires Valid()
      modifies this`ledger
      ensures Valid() && old(ledger) <= ledger
      ensures ok <==> forall c, r | c in cards && r in old(ledger) && r.side == Daily :: r.card.player != c.player && r.card.name != c.name
      ensures !ok ==> ledger == old(ledger)
      ensures ok ==> forall r :: r in ledger <==> r in old(ledger) || (OfRooms(cards, r) && !Recorded(old(ledger), Room, r.card))
    {
      if exists c | c in cards :: OnSide(ledger, Daily, c) {
        return false;
      }
      RecordRooms(days, ledger, cards);
      assert forall r :: r in RoomRows(cards) <==> OfRooms(cards, r);
      ledger := Record(ledger, RoomRows(cards));
      ok := true;
    }
  }

  lemma RecordDaily(days: Days, incoming: Days, ledger: set<Row>)
    requires SidesApart(ledger) && OneDayPerCard(ledger) && AllRecorded(days, ledger)
    requires ScheduleOk(days + incoming)
    requires Welcome(ledger, incoming)
    ensures var after := Record(ledger, DailyRows(incoming));
      SidesApart(after) && OneDayPerCard(after) && AllRecorded(days + incoming, after)
  {
    var after := Record(ledger, DailyRows(incoming));
    var merged := days + incoming;
    forall r, q | r in after && q in after && r.side == Daily && q.side == Room
      ensures r.card.player != q.card.player && r.card.name != q.card.name
    {
      assert q in ledger;
      if r !in ledger {
        assert !OnSide(ledger, Room, r.card);
      }
    }
    forall r, q | r in after && q in after && r.side == Daily && q.side == Daily && r.card.id == q.card.id ensures r.day == q.day {
      if r in DailyRows(incoming) && r !in ledger {
        SameDay(incoming, merged, ledger, r, q);
      } else if q in DailyRows(incoming) && q !in ledger {
        SameDay(incoming, merged, ledger, q, r);
      }
    }
    forall d, c | d in merged && c in merged[d] ensures Row(Daily, c, Some(d)) in after {
      if d in incoming {
        var row := Row(Daily, c, Some(d));
        assert row in DailyRows(incoming);
        if q :| q in ledger && SameKey(row, q) {
          assert !ShownElsewhere(ledger, c.id, d);
          assert q == row;
        }
      }
    }
  }

  lemma SameDay(incoming: Days, merged: Days, ledger: set<Row>, r: Row, q: Row)
    requires r in DailyRows(incoming) && (q in ledger || q in DailyRows(incoming)) && q.side == Daily && r.card.id == q.card.id
    requires ScheduleOk(merged) && forall d | d in incoming :: d in merged && merged[d] == incoming[d]
    requires forall d, c | d in incoming && c in incoming[d] :: !ShownElsewhere(ledger, c.id, d)
    ensures r.day == q.day
  {
    var d := r.day.value;
    if q in ledger {
      assert !ShownElsewhere(ledger, r.card.id, d);
    } else {
      var e := q.day.value;
      var i :| 0 <= i < |incoming[d]| && incoming[d][i] == r.card;
      var j :| 0 <= j < |incoming[e]| && incoming[e][j] == q.card;
      assert merged[d][i].id == merged[e][j].id;
    }
  }

  lemma RecordRooms(days: Days, ledger: set<Row>, cards: seq<Card>)
    requires SidesApart(ledger) && OneDayPerCard(ledger) && AllRecorded(days, ledger)
    requires forall c | c in cards :: !OnSide(ledger, Daily, c)
    ensures var after := Record(ledger, RoomRows(cards));
      SidesApart(after) && OneDayPerCard(after) && AllRecorded(days, after)
  {
    var after := Record(ledger, RoomRows(cards));
    forall r, q | r in after && q in after && r.side == Daily && q.side == Room
      ensures r.card.player != q.card.player && r.card.name != q.card.name
    {
      assert r in ledger;
      if q !in ledger {
        assert !OnSide(ledger, Daily, q.card);
      }
    }
  }
}
