/**
 * Fixture slots of criterion labels. A key's primary slot is the key itself; any other English label of the key lives
 * under "<key>|<label>". Slots can be assigned at once, or found by repeating a build, as the Russian one does.
 */
module LabelSlots {
  import opened Wrappers

  type Family = nat

  datatype Row = Row(id: nat, key: string, family: Family, en: string)

  /** A fixture entry; an empty text is one still to translate. Only German entries name the family. */
  datatype Entry = Entry(en: string, text: string, family: Option<Family>)

  type Labels = map<string, Entry>

  // ------------------------------------------------------------------------------------------------ slots

  function Second(key: string, en: string): string {
    key + "|" + en
  }

  /** Keys have no '|', which separates a key from a second label. */
  ghost predicate BarFree(rows: seq<Row>) {
    forall j | 0 <= j < |rows| :: '|' !in rows[j].key
  }

  function LastLabel(rows: seq<Row>, key: string): Option<string> {
    if rows == [] then None
    else if rows[|rows| - 1].key == key then Some(rows[|rows| - 1].en)
    else LastLabel(rows[..|rows| - 1], key)
  }

  /** The label of the key's primary slot: the fixture's, or the last one in the order of the rows. */
  function PrimaryLabel(labels: Labels, rows: seq<Row>, key: string): Option<string> {
    if key in labels then Some(labels[key].en) else LastLabel(rows, key)
  }

  function Slot(labels: Labels, rows: seq<Row>, row: Row): string {
    if PrimaryLabel(labels, rows, row.key) == Some(row.en) then row.key else Second(row.key, row.en)
  }

  /** How apply, and a pass of the Russian build, look a row up. */
  function FixtureSlot(labels: Labels, row: Row): string {
    if row.key !in labels || labels[row.key].en == row.en then row.key else Second(row.key, row.en)
  }

  lemma {:induction false} LastLabelExact(rows: seq<Row>, key: string)
    ensures LastLabel(rows, key).None? <==> forall j | 0 <= j < |rows| :: rows[j].key != key
    ensures LastLabel(rows, key).Some? ==> exists j | 0 <= j < |rows| :: rows[j].key == key && rows[j].en == LastLabel(rows, key).value
                                             && forall k | j < k < |rows| :: rows[k].key != key
  {
    if rows != [] {
      var n := |rows| - 1;
      LastLabelExact(rows[..n], key);
      assert forall j | 0 <= j < n :: rows[..n][j] == rows[j];
    }
  }

  /** A second slot tells its key and its label. */
  lemma SecondTells(key: string, en: string, other: string, name: string)
    requires '|' !in key && '|' !in other && Second(key, en) == Second(other, name)
    ensures key == other && en == name
  {
    var s, t := Second(key, en), Second(other, name);
    assert s[|key|] == '|' && t[|other|] == '|';
    assert |key| == |other|;
    assert s[..|key|] == key && t[..|other|] == other;
    assert s[|key| + 1..] == en && t[|other| + 1..] == name;
  }

  lemma SecondHasBar(key: string, en: string)
    ensures '|' in Second(key, en)
  {
    assert Second(key, en)[|key|] == '|';
  }

  /** Two rows in one slot have one key and one label. */
  lemma SlotTells(labels: Labels, rows: seq<Row>, row: Row, other: Row)
    requires '|' !in row.key && '|' !in other.key
    requires Slot(labels, rows, row) == Slot(labels, rows, other)
    ensures row.key == other.key && row.en == other.en
  {
    SecondHasBar(row.key, row.en);
    SecondHasBar(other.key, other.en);
    if Slot(labels, rows, row) != row.key {
      SecondTells(row.key, row.en, other.key, other.en);
    }
  }

  method AssignSlots(rows: seq<Row>, labels: Labels) returns (slots: seq<string>)
    requires BarFree(rows)
    ensures |slots| == |rows| && forall j | 0 <= j < |rows| :: slots[j] == Slot(labels, rows, rows[j])
  {
    var primary: map<string, string> := map slot | slot in labels && '|' !in slot :: labels[slot].en;
    var last: map<string, string> := map[];
    for i := 0 to |rows|
      invariant forall key :: if key in last then LastLabel(rows[..i], key) == Some(last[key]) else LastLabel(rows[..i], key) == None
    {
      assert rows[..i + 1][..i] == rows[..i];
      last := last[rows[i].key := rows[i].en];
    }
    assert rows[..|rows|] == rows;
    primary := last + primary;
    slots := [];
    for i := 0 to |rows|
      invariant |slots| == i && forall j | 0 <= j < i :: slots[j] == Slot(labels, rows, rows[j])
    {
      var key := rows[i].key;
      LastLabelExact(rows, key);
      assert PrimaryLabel(labels, rows, key) == Some(primary[key]);
      slots := slots + [if primary[key] == rows[i].en then key else Second(key, rows[i].en)];
    }
  }

  // ------------------------------------------------------------------------------------------------ what a build keeps

  predicate Cached(labels: Labels, slot: string, en: string) {
    slot in labels && labels[slot].en == en && labels[slot].text != ""
  }

  /** The entry is the one from before, or holds the label of a row of this slot that was not done before. */
  ghost predicate EntryKept(after: Labels, start: Labels, rows: seq<Row>, slot: string)
    requires slot in after
  {
    || (slot in start && after[slot] == start[slot])
    || exists j :: 0 <= j < |rows| && Slot(start, rows, rows[j]) == slot && after[slot].en == rows[j].en && !Cached(start, slot, rows[j].en)
  }

  /** Nothing is dropped, nothing done is touched, and every new entry is of a row of its slot. */
  ghost predicate Kept(after: Labels, start: Labels, rows: seq<Row>) {
    && (forall slot | slot in start :: slot in after)
    && (forall slot | slot in after :: EntryKept(after, start, rows, slot))
  }

  ghost predicate KeysPresent(labels: Labels, rows: seq<Row>) {
    forall j | 0 <= j < |rows| :: rows[j].key in labels
  }

  /** Second slots of the fixture hold the label they are named after. */
  ghost predicate WellFormed(labels: Labels, rows: seq<Row>) {
    forall j | 0 <= j < |rows| :: Second(rows[j].key, rows[j].en) in labels ==> labels[Second(rows[j].key, rows[j].en)].en == rows[j].en
  }

  /** A finished build: every row's slot, as assigned at the start, holds the row's label and a text. */
  ghost predicate Complete(after: Labels, start: Labels, rows: seq<Row>) {
    Kept(after, start, rows) && forall j | 0 <= j < |rows| :: Cached(after, Slot(start, rows, rows[j]), rows[j].en)
  }

  lemma KeptPrimary(after: Labels, start: Labels, rows: seq<Row>, j: nat)
    requires BarFree(rows) && Kept(after, start, rows) && j < |rows| && rows[j].key in after
    ensures PrimaryLabel(start, rows, rows[j].key) == Some(after[rows[j].key].en)
  {
    var key := rows[j].key;
    assert EntryKept(after, start, rows, key);
    if !(key in start && after[key] == start[key]) {
      var k :| 0 <= k < |rows| && Slot(start, rows, rows[k]) == key && after[key].en == rows[k].en;
      SecondHasBar(rows[k].key, rows[k].en);
      assert rows[k].key == key;
    }
  }

  /** Once its key is in the fixture, a row's slot never moves, and every way to look it up agrees. */
  lemma SlotStays(after: Labels, start: Labels, rows: seq<Row>, j: nat)
    requires BarFree(rows) && Kept(after, start, rows) && j < |rows| && rows[j].key in after
    ensures Slot(after, rows, rows[j]) == FixtureSlot(after, rows[j]) == Slot(start, rows, rows[j])
  {
    KeptPrimary(after, start, rows, j);
  }

  lemma WellFormedStays(after: Labels, start: Labels, rows: seq<Row>)
    requires BarFree(rows) && Kept(after, start, rows) && WellFormed(start, rows)
    ensures WellFormed(after, rows)
  {
    forall j | 0 <= j < |rows| && Second(rows[j].key, rows[j].en) in after ensures after[Second(rows[j].key, rows[j].en)].en == rows[j].en {
      var slot := Second(rows[j].key, rows[j].en);
      assert EntryKept(after, start, rows, slot);
      if !(slot in start && after[slot] == start[slot]) {
        var k :| 0 <= k < |rows| && Slot(start, rows, rows[k]) == slot && after[slot].en == rows[k].en;
        SecondHasBar(rows[j].key, rows[j].en);
        assert '|' !in rows[k].key;
        SecondTells(rows[j].key, rows[j].en, rows[k].key, rows[k].en);
      }
    }
  }

  lemma KeptChains(last: Labels, mid: Labels, start: Labels, rows: seq<Row>)
    requires BarFree(rows) && Kept(mid, start, rows) && KeysPresent(mid, rows) && Kept(last, mid, rows)
    ensures Kept(last, start, rows)
  {
    forall slot | slot in last ensures EntryKept(last, start, rows, slot) {
      assert EntryKept(last, mid, rows, slot);
      if slot in mid && last[slot] == mid[slot] {
        assert EntryKept(mid, start, rows, slot);
      } else {
        var j :| 0 <= j < |rows| && Slot(mid, rows, rows[j]) == slot && last[slot].en == rows[j].en && !Cached(mid, slot, rows[j].en);
        SlotStays(mid, start, rows, j);
        if Cached(start, slot, rows[j].en) {
          assert EntryKept(mid, start, rows, slot);
          var k :| 0 <= k < |rows| && Slot(start, rows, rows[k]) == slot && mid[slot].en == rows[k].en && !Cached(start, slot, rows[k].en);
          SlotTells(start, rows, rows[j], rows[k]);
        }
      }
    }
  }

  /** After a finished build, apply finds every row: nothing missing, nothing stale. */
  lemma CompleteResolves(after: Labels, start: Labels, rows: seq<Row>, j: nat)
    requires BarFree(rows) && Complete(after, start, rows) && j < |rows|
    ensures FixtureSlot(after, rows[j]) == Slot(start, rows, rows[j])
    ensures Cached(after, FixtureSlot(after, rows[j]), rows[j].en)
  {
    var key := rows[j].key;
    if key !in start {
      LastLabelExact(rows, key);
      var k :| 0 <= k < |rows| && rows[k].key == key && rows[k].en == LastLabel(rows, key).value;
      assert Cached(after, Slot(start, rows, rows[k]), rows[k].en);
    }
    SlotStays(after, start, rows, j);
    assert Cached(after, Slot(start, rows, rows[j]), rows[j].en);
  }

  function English(labels: Labels): map<string, string> {
    map slot | slot in labels :: labels[slot].en
  }

  lemma EnglishDecidesSlots(a: Labels, b: Labels, rows: seq<Row>, row: Row)
    requires English(a) == English(b)
    ensures Slot(a, rows, row) == Slot(b, rows, row)
  {
    assert row.key in a <==> row.key in English(a);
    assert row.key in b <==> row.key in English(b);
    if row.key in a {
      assert English(a)[row.key] == English(b)[row.key];
    }
  }

  lemma OneSide(a: Labels, b: Labels, startA: Labels, startB: Labels, rows: seq<Row>, slot: string)
    requires BarFree(rows) && English(startA) == English(startB)
    requires Complete(a, startA, rows) && Complete(b, startB, rows) && slot in a
    ensures slot in b && a[slot].en == b[slot].en
  {
    if j :| 0 <= j < |rows| && Slot(startA, rows, rows[j]) == slot {
      EnglishDecidesSlots(startA, startB, rows, rows[j]);
      assert Cached(a, slot, rows[j].en) && Cached(b, Slot(startB, rows, rows[j]), rows[j].en);
    } else {
      assert EntryKept(a, startA, rows, slot);
      assert slot in English(startA) && slot in English(startB);
      assert English(startA)[slot] == English(startB)[slot];
      assert slot in b && EntryKept(b, startB, rows, slot);
      forall j | 0 <= j < |rows| ensures Slot(startB, rows, rows[j]) != slot {
        EnglishDecidesSlots(startA, startB, rows, rows[j]);
      }
    }
  }

  /** Two finished builds over the same English labels agree on every slot and its label, in either language. */
  lemma BuildsAgree(a: Labels, b: Labels, startA: Labels, startB: Labels, rows: seq<Row>)
    requires BarFree(rows) && English(startA) == English(startB)
    requires Complete(a, startA, rows) && Complete(b, startB, rows)
    ensures English(a) == English(b)
  {
    forall slot ensures slot in a ==> slot in b && a[slot].en == b[slot].en
                ensures slot in b ==> slot in a && a[slot].en == b[slot].en {
      if slot in a {
        OneSide(a, b, startA, startB, rows, slot);
      }
      if slot in b {
        OneSide(b, a, startB, startA, rows, slot);
      }
    }
  }

  // ------------------------------------------------------------------------------------------------ the Russian build

  /** One row of a slot waits: the last one of the key when the key is new. */
  ghost predicate Pending(start: Labels, rows: seq<Row>, i: nat, pending: map<string, Row>)
    requires i <= |rows|
  {
    && (forall slot | slot in pending ::
          pending[slot] in rows[..i] && FixtureSlot(start, pending[slot]) == slot && !Cached(start, slot, pending[slot].en)
          && (pending[slot].key !in start ==> LastLabel(rows[..i], pending[slot].key) == Some(pending[slot].en)))
    && (forall j | 0 <= j < i :: Cached(start, FixtureSlot(start, rows[j]), rows[j].en) || FixtureSlot(start, rows[j]) in pending)
  }

  method FindPending(rows: seq<Row>, labels: Labels) returns (order: seq<string>, pending: map<string, Row>)
    requires BarFree(rows)
    ensures Pending(labels, rows, |rows|, pending) && (forall slot :: slot in order <==> slot in pending)
  {
    order, pending := [], map[];
    for i := 0 to |rows|
      invariant Pending(labels, rows, i, pending) && (forall slot :: slot in order <==> slot in pending)
    {
      var slot := FixtureSlot(labels, rows[i]);
      assert rows[..i + 1] == rows[..i] + [rows[i]];
      assert rows[..i + 1][..i] == rows[..i];
      if !Cached(labels, slot, rows[i].en) {
        if slot !in pending {
          order := order + [slot];
        }
        PendingStep(labels, rows, i, pending);
        pending := pending[slot := rows[i]];
      } else {
        PendingSkip(labels, rows, i, pending);
      }
    }
  }

  lemma PendingStep(start: Labels, rows: seq<Row>, i: nat, pending: map<string, Row>)
    requires BarFree(rows) && i < |rows| && Pending(start, rows, i, pending)
    requires !Cached(start, FixtureSlot(start, rows[i]), rows[i].en)
    ensures Pending(start, rows, i + 1, pending[FixtureSlot(start, rows[i]) := rows[i]])
  {
    assert rows[..i + 1] == rows[..i] + [rows[i]];
    assert rows[..i + 1][..i] == rows[..i];
    var next := pending[FixtureSlot(start, rows[i]) := rows[i]];
    forall slot | slot in next && slot != FixtureSlot(start, rows[i]) && next[slot].key !in start
      ensures LastLabel(rows[..i + 1], next[slot].key) == Some(next[slot].en)
    {
      assert next[slot].key == slot;
      assert rows[i].key != slot;
    }
  }

  lemma PendingSkip(start: Labels, rows: seq<Row>, i: nat, pending: map<string, Row>)
    requires BarFree(rows) && i < |rows| && Pending(start, rows, i, pending)
    requires Cached(start, FixtureSlot(start, rows[i]), rows[i].en)
    ensures Pending(start, rows, i + 1, pending)
  {
    assert rows[..i + 1] == rows[..i] + [rows[i]];
    assert rows[..i + 1][..i] == rows[..i];
    SecondHasBar(rows[i].key, rows[i].en);
    assert rows[i].key in start;
  }

  /** The slot a pass writes is the row's assigned slot. */
  lemma PendingSlot(start: Labels, rows: seq<Row>, pending: map<string, Row>, slot: string)
    requires Pending(start, rows, |rows|, pending) && slot in pending
    ensures Slot(start, rows, pending[slot]) == slot && exists j :: 0 <= j < |rows| && rows[j] == pending[slot]
  {
    assert rows[..|rows|] == rows;
  }

  /** No answer is an empty text. */
  ghost predicate Texts(answer: Row -> Option<string>) {
    forall row | answer(row).Some? :: answer(row).value != ""
  }

  ghost predicate AllCome(answer: Row -> Option<string>) {
    forall row :: answer(row).Some?
  }

  /** The entries of the slots in `done` with an answer are the answers, all others are the old ones. */
  ghost predicate Answered(labels: Labels, start: Labels, pending: map<string, Row>, done: seq<string>, answer: Row -> Option<string>)
    requires forall slot | slot in done :: slot in pending
  {
    && (forall slot | slot in done && answer(pending[slot]).Some? ::
          slot in labels && labels[slot] == Entry(pending[slot].en, answer(pending[slot]).value, None))
    && (forall slot | slot in labels && !(slot in done && answer(pending[slot]).Some?) :: slot in start && labels[slot] == start[slot])
  }

  /** An answer of None is a text that did not come or was refused. */
  method TranslatePending(rows: seq<Row>, start: Labels, order: seq<string>, pending: map<string, Row>, answer: Row -> Option<string>)
    returns (labels: Labels)
    requires Texts(answer)
    requires Pending(start, rows, |rows|, pending) && forall slot | slot in order :: slot in pending
    ensures Kept(labels, start, rows) && Answered(labels, start, pending, order, answer)
    ensures order == [] ==> labels == start
  {
    labels := start;
    for i := 0 to |order|
      invariant Kept(labels, start, rows) && Answered(labels, start, pending, order[..i], answer)
      invariant i == 0 ==> labels == start
    {
      var slot := order[i];
      assert order[..i + 1] == order[..i] + [slot];
      PendingSlot(start, rows, pending, slot);
      var text := answer(pending[slot]);
      if text.Some? {
        KeptWrite(labels, start, rows, pending[slot], Entry(pending[slot].en, text.value, None));
        labels := labels[slot := Entry(pending[slot].en, text.value, None)];
      }
    }
    assert order[..|order|] == order;
  }

  /** What the passes are answered, pass by pass. */
  type Replies = nat -> Row -> Option<string>

  /** The entry is what pass n was answered for row j, which is of this slot. */
  ghost predicate AnswerOf(entry: Entry, start: Labels, rows: seq<Row>, slot: string, answers: Replies, n: nat, j: nat) {
    && j < |rows| && Slot(start, rows, rows[j]) == slot
    && answers(n)(rows[j]).Some? && entry == Entry(rows[j].en, answers(n)(rows[j]).value, None)
  }

  /** The entry is the one from before, or an answer for a row of its slot. */
  ghost predicate Sourced(entry: Entry, start: Labels, rows: seq<Row>, slot: string, answers: Replies) {
    (slot in start && entry == start[slot]) || exists n, j :: AnswerOf(entry, start, rows, slot, answers, n, j)
  }

  ghost function Unsourced(after: Labels, start: Labels, rows: seq<Row>, answers: Replies): set<string> {
    set slot | slot in after && !Sourced(after[slot], start, rows, slot, answers)
  }

  lemma PassAnswers(labels: Labels, start: Labels, rows: seq<Row>, order: seq<string>, pending: map<string, Row>,
                    answers: Replies, n: nat)
    requires Pending(start, rows, |rows|, pending) && (forall slot | slot in order :: slot in pending)
    requires Answered(labels, start, pending, order, answers(n))
    ensures Unsourced(labels, start, rows, answers) == {}
  {
    forall slot | slot in labels ensures Sourced(labels[slot], start, rows, slot, answers) {
      if slot in order && answers(n)(pending[slot]).Some? {
        PendingSlot(start, rows, pending, slot);
        var j :| 0 <= j < |rows| && rows[j] == pending[slot];
        assert AnswerOf(labels[slot], start, rows, slot, answers, n, j);
      }
    }
  }

  lemma SourcedChains(entry: Entry, mid: Labels, start: Labels, rows: seq<Row>, slot: string, answers: Replies)
    requires BarFree(rows) && Kept(mid, start, rows) && KeysPresent(mid, rows)
    requires Sourced(entry, mid, rows, slot, answers) && (slot in mid ==> Sourced(mid[slot], start, rows, slot, answers))
    ensures Sourced(entry, start, rows, slot, answers)
  {
    if !(slot in mid && entry == mid[slot]) {
      var n, j :| AnswerOf(entry, mid, rows, slot, answers, n, j);
      SlotStays(mid, start, rows, j);
      assert AnswerOf(entry, start, rows, slot, answers, n, j);
    }
  }

  lemma AnswersChain(last: Labels, mid: Labels, start: Labels, rows: seq<Row>, answers: Replies)
    requires BarFree(rows) && Kept(mid, start, rows) && KeysPresent(mid, rows)
    requires Unsourced(mid, start, rows, answers) == {} && Unsourced(last, mid, rows, answers) == {}
    ensures Unsourced(last, start, rows, answers) == {}
  {
    forall slot ensures slot !in Unsourced(last, start, rows, answers) {
      if slot in last {
        assert slot !in Unsourced(last, mid, rows, answers) && slot !in Unsourced(mid, start, rows, answers);
        SourcedChains(last[slot], mid, start, rows, slot, answers);
      }
    }
  }

  /** One pass: translate what waits. */
  method Pass(rows: seq<Row>, start: Labels, answers: Replies, pass: nat) returns (r: Result<Labels>, empty: bool)
    requires BarFree(rows) && Texts(answers(pass))
    ensures r.Ok? ==> PassOk(r.value, start, rows, answers, pass)
    ensures empty ==> r == Ok(start)
    ensures AllCome(answers(pass)) ==> r.Ok?
    ensures empty <==> forall j | 0 <= j < |rows| :: Cached(start, FixtureSlot(start, rows[j]), rows[j].en)
  {
    var order, pending := FindPending(rows, start);
    empty := order == [];
    NothingPending(start, rows, order, pending);
    var labels := TranslatePending(rows, start, order, pending, answers(pass));
    if exists slot | slot in order :: slot !in labels || labels[slot].text == "" {
      return Err("labels still untranslated"), empty;
    }
    PassKeys(labels, start, rows, pending);
    PassAnswers(labels, start, rows, order, pending, answers, pass);
    if WellFormed(start, rows) || AllCome(answers(pass)) {
      PassTexts(labels, start, rows, pending, answers(pass));
    }
    r := Ok(labels);
  }

  /** What the rows whose keys were there are after a pass. */
  ghost predicate KnownFilled(after: Labels, start: Labels, rows: seq<Row>) {
    forall j | 0 <= j < |rows| && rows[j].key in start :: Cached(after, Slot(start, rows, rows[j]), rows[j].en)
  }

  /** What a pass promises: nothing dropped or touched that was done, all keys there, every new text an answer for a row of
      its slot, and the rows whose keys were there done, if every text came or no second slot held another label. */
  ghost predicate PassOk(after: Labels, start: Labels, rows: seq<Row>, answers: Replies, pass: nat) {
    && Kept(after, start, rows) && KeysPresent(after, rows) && Unsourced(after, start, rows, answers) == {}
    && (WellFormed(start, rows) || AllCome(answers(pass)) ==> KnownFilled(after, start, rows))
  }

  lemma NothingPending(start: Labels, rows: seq<Row>, order: seq<string>, pending: map<string, Row>)
    requires BarFree(rows) && Pending(start, rows, |rows|, pending) && forall slot :: slot in order <==> slot in pending
    ensures order == [] <==> forall j | 0 <= j < |rows| :: Cached(start, FixtureSlot(start, rows[j]), rows[j].en)
  {
    if order != [] {
      assert order[0] in order;
      PendingSlot(start, rows, pending, order[0]);
    }
  }

  lemma KeptWrite(labels: Labels, start: Labels, rows: seq<Row>, row: Row, entry: Entry)
    requires Kept(labels, start, rows) && row in rows && entry.en == row.en && !Cached(start, Slot(start, rows, row), row.en)
    ensures Kept(labels[Slot(start, rows, row) := entry], start, rows)
  {
    var slot := Slot(start, rows, row);
    var after := labels[slot := entry];
    forall other | other in after ensures EntryKept(after, start, rows, other) {
      if other != slot {
        assert EntryKept(labels, start, rows, other);
      }
    }
  }

  lemma PassKeys(labels: Labels, start: Labels, rows: seq<Row>, pending: map<string, Row>)
    requires BarFree(rows) && Kept(labels, start, rows) && Pending(start, rows, |rows|, pending)
    requires forall slot | slot in pending :: slot in labels
    ensures KeysPresent(labels, rows)
  {
    forall j | 0 <= j < |rows| ensures rows[j].key in labels {
      if rows[j].key !in start {
        assert FixtureSlot(start, rows[j]) == rows[j].key;
      }
    }
  }

  lemma PassTexts(labels: Labels, start: Labels, rows: seq<Row>, pending: map<string, Row>, answer: Row -> Option<string>)
    requires BarFree(rows) && Pending(start, rows, |rows|, pending) && (WellFormed(start, rows) || AllCome(answer))
    requires forall slot | slot in pending :: slot in labels && labels[slot].text != ""
    requires forall slot | slot in pending && answer(pending[slot]).Some? :: labels[slot].en == pending[slot].en
    requires forall slot | slot in labels && !(slot in pending && answer(pending[slot]).Some?) :: slot in start && labels[slot] == start[slot]
    requires forall slot | slot in start :: slot in labels
    ensures forall j | 0 <= j < |rows| && rows[j].key in start :: Cached(labels, Slot(start, rows, rows[j]), rows[j].en)
  {
    forall j | 0 <= j < |rows| && rows[j].key in start ensures Cached(labels, Slot(start, rows, rows[j]), rows[j].en) {
      var slot := Slot(start, rows, rows[j]);
      assert slot == FixtureSlot(start, rows[j]);
      if slot in pending {
        PendingSlot(start, rows, pending, slot);
        var k :| 0 <= k < |rows| && rows[k] == pending[slot];
        SlotTells(start, rows, rows[j], rows[k]);
      } else {
        assert Cached(start, slot, rows[j].en);
      }
    }
  }

  /** Every text comes, or no second slot holds another label. */
  ghost predicate Fillable(start: Labels, rows: seq<Row>, answers: Replies) {
    WellFormed(start, rows) || forall n :: AllCome(answers(n))
  }

  /** What a build promises from this pass on: as a pass does, and with two passes ahead, or one and all keys there, every
      row done. */
  ghost predicate BuildOk(after: Labels, start: Labels, rows: seq<Row>, answers: Replies, pass: nat) {
    && Kept(after, start, rows) && KeysPresent(after, rows) && Unsourced(after, start, rows, answers) == {}
    && (Fillable(start, rows, answers) && (pass == 1 || (pass == 2 && KeysPresent(start, rows))) ==> Complete(after, start, rows))
  }

  lemma NextPass(last: Labels, mid: Labels, start: Labels, rows: seq<Row>, answers: Replies, pass: nat)
    requires BarFree(rows) && 1 <= pass < 3
    requires PassOk(mid, start, rows, answers, pass) && BuildOk(last, mid, rows, answers, pass + 1)
    ensures BuildOk(last, start, rows, answers, pass)
  {
    KeptChains(last, mid, start, rows);
    AnswersChain(last, mid, start, rows, answers);
    if Fillable(start, rows, answers) {
      if WellFormed(start, rows) {
        WellFormedStays(mid, start, rows);
      }
      if pass == 1 {
        CompleteChains(last, mid, start, rows);
      } else if KeysPresent(start, rows) {
        SecondPassIsLast(last, mid, start, rows);
      }
    }
  }

  lemma NothingLeft(start: Labels, rows: seq<Row>, answers: Replies, pass: nat)
    requires BarFree(rows) && forall j | 0 <= j < |rows| :: Cached(start, FixtureSlot(start, rows[j]), rows[j].en)
    ensures BuildOk(start, start, rows, answers, pass)
  {
    EmptyIsComplete(start, rows);
  }

  /** The Russian build: it repeats itself until a pass finds nothing to do; two passes are always enough. */
  method BuildRussian(rows: seq<Row>, start: Labels, answers: Replies, pass: nat) returns (r: Result<Labels>)
    requires BarFree(rows) && 1 <= pass <= 3
    requires forall n :: Texts(answers(n))
    ensures r.Ok? ==> BuildOk(r.value, start, rows, answers, pass)
    ensures (forall n :: AllCome(answers(n))) ==> r.Ok?
    decreases 3 - pass
  {
    var empty;
    r, empty := Pass(rows, start, answers, pass);
    if empty {
      NothingLeft(start, rows, answers, pass);
    } else if r.Ok? && pass < 3 {
      var mid := r.value;
      r := BuildRussian(rows, mid, answers, pass + 1);
      if r.Ok? {
        NextPass(r.value, mid, start, rows, answers, pass);
      }
    }
  }

  lemma EmptyIsComplete(start: Labels, rows: seq<Row>)
    requires BarFree(rows) && forall j | 0 <= j < |rows| :: Cached(start, FixtureSlot(start, rows[j]), rows[j].en)
    ensures Complete(start, start, rows) && KeysPresent(start, rows)
  {
    forall j | 0 <= j < |rows| ensures rows[j].key in start && Cached(start, Slot(start, rows, rows[j]), rows[j].en) {
      assert Cached(start, FixtureSlot(start, rows[j]), rows[j].en);
      assert Kept(start, start, rows);
      SlotStays(start, start, rows, j);
    }
  }

  lemma CompleteChains(last: Labels, mid: Labels, start: Labels, rows: seq<Row>)
    requires BarFree(rows) && Kept(mid, start, rows) && KeysPresent(mid, rows) && Kept(last, start, rows) && Complete(last, mid, rows)
    ensures Complete(last, start, rows)
  {
    forall j | 0 <= j < |rows| ensures Cached(last, Slot(start, rows, rows[j]), rows[j].en) {
      SlotStays(mid, start, rows, j);
      assert Cached(last, Slot(mid, rows, rows[j]), rows[j].en);
    }
  }

  /** What a pass over a fixture with all keys leaves done stays done. */
  lemma SecondPassIsLast(last: Labels, mid: Labels, start: Labels, rows: seq<Row>)
    requires BarFree(rows) && KeysPresent(start, rows) && Kept(mid, start, rows) && KeysPresent(mid, rows)
    requires Kept(last, mid, rows) && Kept(last, start, rows)
    requires forall j | 0 <= j < |rows| :: Cached(mid, Slot(start, rows, rows[j]), rows[j].en)
    ensures Complete(last, start, rows)
  {
    forall j | 0 <= j < |rows| ensures Cached(last, Slot(start, rows, rows[j]), rows[j].en) {
      var slot := Slot(start, rows, rows[j]);
      SlotStays(mid, start, rows, j);
      assert EntryKept(last, mid, rows, slot);
      if last[slot] != mid[slot] {
        var k :| 0 <= k < |rows| && Slot(mid, rows, rows[k]) == slot && last[slot].en == rows[k].en && !Cached(mid, slot, rows[k].en);
        SlotTells(mid, rows, rows[j], rows[k]);
        assert false;
      }
    }
  }
}
