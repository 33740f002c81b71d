/**
 * The German labels: a build assigns all slots at once, labels by rule what it can, asks for the rest, and checks the
 * fixture; apply checks it again before it writes.
 */
module GermanLabels {
  import opened Wrappers
  import opened LabelSlots

  // ------------------------------------------------------------------------------------------------ the German build

  /** What goes to the model, for one or several slots. */
  datatype Item = Item(family: Family, en: string, slots: seq<string>)

  datatype Rules = Rules(rule: (Family, string) -> Option<string>, model: set<Family>)

  /** The model's text for a label of a family, if one came. */
  type Answers = (Family, string) -> Option<string>

  /** The fixture and the items for the model. */
  datatype Work = Work(labels: Labels, items: seq<Item>)

  /** The item asks for this row's label. */
  predicate Asks(item: Item, row: Row) {
    item.family == row.family && item.en == row.en
  }

  ghost predicate Wanted(start: Labels, rows: seq<Row>, item: Item, slot: string) {
    exists j :: 0 <= j < |rows| && Slot(start, rows, rows[j]) == slot && Asks(item, rows[j]) && !Cached(start, slot, rows[j].en)
  }

  /** Every item's slot is of a row with its label that was not done at the start. */
  ghost predicate ItemsWanted(start: Labels, rows: seq<Row>, items: seq<Item>) {
    forall q, slot | 0 <= q < |items| && slot in items[q].slots :: Wanted(start, rows, items[q], slot)
  }

  ghost predicate Waits(items: seq<Item>, slot: string) {
    exists q :: 0 <= q < |items| && slot in items[q].slots
  }

  /** The item with this family and label gets the slot. */
  function AddItem(items: seq<Item>, family: Family, en: string, slot: string): seq<Item> {
    if items == [] then [Item(family, en, [slot])]
    else if items[0].family == family && items[0].en == en then
      [if slot in items[0].slots then items[0] else items[0].(slots := items[0].slots + [slot])] + items[1..]
    else [items[0]] + AddItem(items[1..], family, en, slot)
  }

  /** Items are asked for once: no two have one family and one label. */
  ghost predicate OneEach(items: seq<Item>) {
    forall p, q | 0 <= p < q < |items| :: !(items[p].family == items[q].family && items[p].en == items[q].en)
  }

  lemma {:induction false} AddItemExact(items: seq<Item>, family: Family, en: string, slot: string)
    ensures var after := AddItem(items, family, en, slot);
      && |items| <= |after| <= |items| + 1
      && (forall q | 0 <= q < |items| :: after[q].family == items[q].family && after[q].en == items[q].en)
      && (forall q, s | 0 <= q < |items| && s in items[q].slots :: s in after[q].slots)
      && (forall q, s | 0 <= q < |after| && s in after[q].slots ::
            (s == slot && after[q].family == family && after[q].en == en) || (q < |items| && s in items[q].slots))
      && (|after| > |items| ==> after[|items|] == Item(family, en, [slot]) && forall q | 0 <= q < |items| :: !(items[q].family == family && items[q].en == en))
      && exists q :: 0 <= q < |after| && after[q].family == family && after[q].en == en && slot in after[q].slots
  {
    var after := AddItem(items, family, en, slot);
    if items == [] {
      assert slot in after[0].slots;
    } else if items[0].family == family && items[0].en == en {
      assert slot in after[0].slots;
      assert forall q | 1 <= q < |after| :: after[q] == items[q];
    } else {
      var rest := AddItem(items[1..], family, en, slot);
      AddItemExact(items[1..], family, en, slot);
      assert after[0] == items[0] && forall q | 1 <= q < |after| :: after[q] == rest[q - 1];
      assert forall q | 1 <= q < |items| :: items[q] == items[1..][q - 1];
      var q :| 0 <= q < |rest| && rest[q].family == family && rest[q].en == en && slot in rest[q].slots;
      assert after[q + 1] == rest[q];
    }
  }

  lemma WaitsMore(items: seq<Item>, family: Family, en: string, slot: string)
    ensures Waits(AddItem(items, family, en, slot), slot)
    ensures forall other | Waits(items, other) :: Waits(AddItem(items, family, en, slot), other)
    ensures OneEach(items) ==> OneEach(AddItem(items, family, en, slot))
  {
    AddItemExact(items, family, en, slot);
    var after := AddItem(items, family, en, slot);
    forall other | Waits(items, other) ensures Waits(after, other) {
      var q :| 0 <= q < |items| && other in items[q].slots;
      assert other in after[q].slots;
    }
  }

  lemma WantedGrows(start: Labels, rows: seq<Row>, items: seq<Item>, row: Row)
    requires ItemsWanted(start, rows, items) && row in rows && !Cached(start, Slot(start, rows, row), row.en)
    ensures ItemsWanted(start, rows, AddItem(items, row.family, row.en, Slot(start, rows, row)))
  {
    var slot := Slot(start, rows, row);
    var after := AddItem(items, row.family, row.en, slot);
    AddItemExact(items, row.family, row.en, slot);
    forall q, s | 0 <= q < |after| && s in after[q].slots ensures Wanted(start, rows, after[q], s) {
      if q < |items| && s in items[q].slots {
        assert Wanted(start, rows, items[q], s);
        var j :| 0 <= j < |rows| && Slot(start, rows, rows[j]) == s && Asks(items[q], rows[j]) && !Cached(start, s, rows[j].en);
        assert Asks(after[q], rows[j]);
      } else {
        var j :| 0 <= j < |rows| && rows[j] == row;
        assert Asks(after[q], rows[j]) && Slot(start, rows, rows[j]) == s;
      }
    }
  }

  /** Done when the fixture was loaded with a text for the slot, and the slot now holds this label. */
  predicate Done(start: Labels, labels: Labels, slot: string, en: string) {
    slot in start && start[slot].text != "" && slot in labels && labels[slot].en == en
  }

  /** The first loop up to the n-th row: done already, labelled by rule, or for the model. */
  function Sorted(rows: seq<Row>, start: Labels, rules: Rules, n: nat): Work
    requires n <= |rows|
    decreases n
  {
    if n == 0 then Work(start, [])
    else
      SortRow(start, rules, Sorted(rows, start, rules, n - 1), rows[n - 1], Slot(start, rows, rows[n - 1]))
  }

  function SortRow(start: Labels, rules: Rules, work: Work, row: Row, slot: string): Work {
    var rule := rules.rule(row.family, row.en);
    if Done(start, work.labels, slot, row.en) then work
    else if rule.Some? then work.(labels := work.labels[slot := Entry(row.en, rule.value, Some(row.family))])
    else work.(items := AddItem(work.items, row.family, row.en, slot))
  }

  /** The row is done, or has a rule, or a family the model may translate. */
  predicate RowFine(start: Labels, rules: Rules, labels: Labels, row: Row, slot: string) {
    Done(start, labels, slot, row.en) || rules.rule(row.family, row.en).Some? || row.family in rules.model
  }

  /** Every row is fine when its turn comes. */
  predicate Sortable(rows: seq<Row>, start: Labels, rules: Rules) {
    forall j | 0 <= j < |rows| :: RowFine(start, rules, Sorted(rows, start, rules, j).labels, rows[j], Slot(start, rows, rows[j]))
  }

  function WriteAll(labels: Labels, slots: seq<string>, entry: Entry): Labels {
    labels + map slot | slot in slots :: entry
  }

  /** What one item's answer does. */
  function OneAnswer(labels: Labels, item: Item, answer: Answers): Labels {
    var text := answer(item.family, item.en);
    if text.Some? && text.value != "" then WriteAll(labels, item.slots, Entry(item.en, text.value, Some(item.family))) else labels
  }

  /** The second loop up to the n-th item: a text that came goes to all slots of its item. */
  function WithAnswers(labels: Labels, items: seq<Item>, answer: Answers, n: nat): Labels
    requires n <= |items|
    decreases n
  {
    if n == 0 then labels
    else
      OneAnswer(WithAnswers(labels, items, answer, n - 1), items[n - 1], answer)
  }

  /** The fixture a build arrives at. */
  function Built(rows: seq<Row>, start: Labels, rules: Rules, answer: Answers): Labels {
    var work := Sorted(rows, start, rules, |rows|);
    WithAnswers(work.labels, work.items, answer, |work.items|)
  }

  /** No item has a slot without a text. */
  predicate NothingOpen(labels: Labels, items: seq<Item>) {
    forall item, slot | item in items && slot in item.slots :: slot in labels && labels[slot].text != ""
  }

  /** A build goes through: every row can be sorted, every text came, and the fixture passes its check. */
  ghost predicate Builds(rows: seq<Row>, start: Labels, rules: Rules, answer: Answers, valid: (string, Entry) -> bool) {
    && Sortable(rows, start, rules) && NothingOpen(Built(rows, start, rules, answer), Sorted(rows, start, rules, |rows|).items)
    && Checks(rows, Built(rows, start, rules, answer), valid)
  }

  /** Work in hand is kept, wanted, asked for once, and leaves no row of the first n out. */
  ghost predicate InHand(rows: seq<Row>, start: Labels, work: Work, n: nat)
    requires n <= |rows|
  {
    && Kept(work.labels, start, rows) && ItemsWanted(start, rows, work.items) && OneEach(work.items)
    && forall j | 0 <= j < n :: Slot(start, rows, rows[j]) in work.labels || Waits(work.items, Slot(start, rows, rows[j]))
  }

  lemma CachedIsDone(rows: seq<Row>, start: Labels, labels: Labels, row: Row)
    requires BarFree(rows) && Kept(labels, start, rows) && row in rows && Cached(start, Slot(start, rows, row), row.en)
    ensures Done(start, labels, Slot(start, rows, row), row.en)
  {
    var slot := Slot(start, rows, row);
    assert EntryKept(labels, start, rows, slot);
    if labels[slot] != start[slot] {
      var k :| 0 <= k < |rows| && Slot(start, rows, rows[k]) == slot && labels[slot].en == rows[k].en && !Cached(start, slot, rows[k].en);
      assert '|' !in row.key;
      SlotTells(start, rows, row, rows[k]);
    }
  }

  lemma InHandStart(rows: seq<Row>, start: Labels)
    ensures InHand(rows, start, Work(start, []), 0)
  {
  }

  lemma {:induction false} SortedInHand(rows: seq<Row>, start: Labels, rules: Rules, n: nat)
    requires n <= |rows|
    ensures BarFree(rows) ==> InHand(rows, start, Sorted(rows, start, rules, n), n)
    decreases n
  {
    if n == 0 {
      InHandStart(rows, start);
    } else {
      SortedInHand(rows, start, rules, n - 1);
      InHandStep(rows, start, rules, Sorted(rows, start, rules, n - 1), n, Sorted(rows, start, rules, n));
    }
  }

  lemma InHandStep(rows: seq<Row>, start: Labels, rules: Rules, work: Work, n: nat, next: Work)
    requires 0 < n <= |rows| && next == SortRow(start, rules, work, rows[n - 1], Slot(start, rows, rows[n - 1]))
    ensures BarFree(rows) && InHand(rows, start, work, n - 1) ==> InHand(rows, start, next, n)
  {
    var row := rows[n - 1];
    var slot, rule := Slot(start, rows, row), rules.rule(row.family, row.en);
    if BarFree(rows) && InHand(rows, start, work, n - 1) && !Done(start, work.labels, slot, row.en) {
      if Cached(start, slot, row.en) {
        CachedIsDone(rows, start, work.labels, row);
      }
      if rule.Some? {
        KeptWrite(work.labels, start, rows, row, Entry(row.en, rule.value, Some(row.family)));
      } else {
        WantedGrows(start, rows, work.items, row);
        WaitsMore(work.items, row.family, row.en, slot);
      }
    }
  }

  lemma KeptWriteAll(rows: seq<Row>, start: Labels, labels: Labels, item: Item, text: string)
    requires Kept(labels, start, rows) && forall slot | slot in item.slots :: Wanted(start, rows, item, slot)
    ensures Kept(WriteAll(labels, item.slots, Entry(item.en, text, Some(item.family))), start, rows)
  {
    var after := WriteAll(labels, item.slots, Entry(item.en, text, Some(item.family)));
    forall slot | slot in after ensures EntryKept(after, start, rows, slot) {
      if slot in item.slots {
        assert Wanted(start, rows, item, slot);
      } else {
        assert EntryKept(labels, start, rows, slot);
      }
    }
  }

  lemma {:induction false} AnsweredKept(rows: seq<Row>, start: Labels, work: Work, answer: Answers, n: nat)
    requires n <= |work.items| && Kept(work.labels, start, rows) && ItemsWanted(start, rows, work.items)
    ensures Kept(WithAnswers(work.labels, work.items, answer, n), start, rows)
    ensures forall slot | slot in work.labels :: slot in WithAnswers(work.labels, work.items, answer, n)
    decreases n
  {
    if n > 0 {
      AnsweredKept(rows, start, work, answer, n - 1);
      var item := work.items[n - 1];
      if answer(item.family, item.en).Some? {
        KeptWriteAll(rows, start, WithAnswers(work.labels, work.items, answer, n - 1), item, answer(item.family, item.en).value);
      }
    }
  }

  // ------------------------------------------------------------------------------------------------ where texts come from

  /** The row's entry: the rule's text, or the model's where there is no rule. */
  ghost predicate EntryOf(entry: Entry, start: Labels, rows: seq<Row>, slot: string, rules: Rules, answer: Answers, j: nat) {
    && j < |rows| && Slot(start, rows, rows[j]) == slot
    && var rule, text := rules.rule(rows[j].family, rows[j].en), answer(rows[j].family, rows[j].en);
      if rule.Some? then entry == Entry(rows[j].en, rule.value, Some(rows[j].family))
      else text.Some? && text.value != "" && entry == Entry(rows[j].en, text.value, Some(rows[j].family))
  }

  /** The entry is the one from before, or a row's. */
  ghost predicate FromRow(entry: Entry, start: Labels, rows: seq<Row>, slot: string, rules: Rules, answer: Answers) {
    (slot in start && entry == start[slot]) || exists j :: EntryOf(entry, start, rows, slot, rules, answer, j)
  }

  ghost function FromNowhere(after: Labels, start: Labels, rows: seq<Row>, rules: Rules, answer: Answers): set<string> {
    set slot | slot in after && !FromRow(after[slot], start, rows, slot, rules, answer)
  }

  lemma {:induction false} SortedFromRows(rows: seq<Row>, start: Labels, rules: Rules, answer: Answers, n: nat)
    requires n <= |rows|
    ensures FromNowhere(Sorted(rows, start, rules, n).labels, start, rows, rules, answer) == {}
    decreases n
  {
    var labels := Sorted(rows, start, rules, n).labels;
    if n > 0 {
      SortedFromRows(rows, start, rules, answer, n - 1);
      var before := Sorted(rows, start, rules, n - 1).labels;
      forall slot | slot in labels ensures FromRow(labels[slot], start, rows, slot, rules, answer) {
        if slot in before && labels[slot] == before[slot] {
          assert slot !in FromNowhere(before, start, rows, rules, answer);
        } else {
          assert EntryOf(labels[slot], start, rows, slot, rules, answer, n - 1);
        }
      }
    }
  }

  lemma WantedEntry(rows: seq<Row>, start: Labels, rules: Rules, answer: Answers, item: Item, slot: string)
    requires Wanted(start, rows, item, slot) && rules.rule(item.family, item.en).None?
    requires answer(item.family, item.en).Some? && answer(item.family, item.en).value != ""
    ensures FromRow(Entry(item.en, answer(item.family, item.en).value, Some(item.family)), start, rows, slot, rules, answer)
  {
    var j :| 0 <= j < |rows| && Slot(start, rows, rows[j]) == slot && Asks(item, rows[j]) && !Cached(start, slot, rows[j].en);
    assert EntryOf(Entry(item.en, answer(item.family, item.en).value, Some(item.family)), start, rows, slot, rules, answer, j);
  }

  lemma {:induction false} AnsweredFromRows(rows: seq<Row>, start: Labels, rules: Rules, answer: Answers, work: Work, n: nat)
    requires n <= |work.items| && ItemsWanted(start, rows, work.items) && Ruleless(rules, work.items)
    requires FromNowhere(work.labels, start, rows, rules, answer) == {}
    ensures FromNowhere(WithAnswers(work.labels, work.items, answer, n), start, rows, rules, answer) == {}
    decreases n
  {
    if n > 0 {
      AnsweredFromRows(rows, start, rules, answer, work, n - 1);
      var before, after := WithAnswers(work.labels, work.items, answer, n - 1), WithAnswers(work.labels, work.items, answer, n);
      var item := work.items[n - 1];
      assert item in work.items;
      forall slot | slot in after ensures FromRow(after[slot], start, rows, slot, rules, answer) {
        if slot in before && after[slot] == before[slot] {
          assert slot !in FromNowhere(before, start, rows, rules, answer);
        } else {
          assert slot in item.slots && Wanted(start, rows, item, slot);
          WantedEntry(rows, start, rules, answer, item, slot);
        }
      }
    }
  }

  /** Every text of a build is the one from before, the rule's, or the model's where there is no rule, of a row of the slot. */
  lemma BuiltFromRows(rows: seq<Row>, start: Labels, rules: Rules, answer: Answers)
    requires BarFree(rows)
    ensures FromNowhere(Built(rows, start, rules, answer), start, rows, rules, answer) == {}
  {
    var work := Sorted(rows, start, rules, |rows|);
    SortedInHand(rows, start, rules, |rows|);
    ItemsHaveNoRule(rows, start, rules, |rows|);
    SortedFromRows(rows, start, rules, answer, |rows|);
    AnsweredFromRows(rows, start, rules, answer, work, |work.items|);
  }

  /** One row of the first loop: done already, labelled by rule, for the model, or refused. */
  method Sort(start: Labels, rules: Rules, work: Work, row: Row, slot: string) returns (ok: bool, next: Work)
    ensures ok <==>
      || (slot in start && start[slot].text != "" && slot in work.labels && work.labels[slot].en == row.en)
      || rules.rule(row.family, row.en).Some? || row.family in rules.model
    ensures ok ==> next == SortRow(start, rules, work, row, slot)
  {
    if Done(start, work.labels, slot, row.en) {
      return true, work;
    }
    var rule := rules.rule(row.family, row.en);
    if rule.Some? {
      return true, work.(labels := work.labels[slot := Entry(row.en, rule.value, Some(row.family))]);
    }
    if row.family !in rules.model {
      return false, work;
    }
    ok, next := true, work.(items := AddItem(work.items, row.family, row.en, slot));
  }

  /** The first loop: labels by rule, and the items for the model. */
  method ByRule(rows: seq<Row>, start: Labels, slots: seq<string>, rules: Rules) returns (r: Result<Work>)
    requires |slots| == |rows| && forall j | 0 <= j < |rows| :: slots[j] == Slot(start, rows, rows[j])
    ensures r.Ok? <==> Sortable(rows, start, rules)
    ensures r.Ok? ==> r.value == Sorted(rows, start, rules, |rows|)
  {
    var work := Work(start, []);
    for i := 0 to |rows|
      invariant work == Sorted(rows, start, rules, i) && FineUpTo(rows, start, rules, i)
    {
      var ok, next := Sort(start, rules, work, rows[i], slots[i]);
      FineStep(rows, start, rules, i);
      if !ok {
        return Err("no rule for the label");
      }
      work := next;
    }
    r := Ok(work);
  }

  ghost predicate FineUpTo(rows: seq<Row>, start: Labels, rules: Rules, n: nat)
    requires n <= |rows|
  {
    forall j | 0 <= j < n :: RowFine(start, rules, Sorted(rows, start, rules, j).labels, rows[j], Slot(start, rows, rows[j]))
  }

  lemma FineStep(rows: seq<Row>, start: Labels, rules: Rules, n: nat)
    requires n < |rows|
    ensures FineUpTo(rows, start, rules, n + 1) <==>
      FineUpTo(rows, start, rules, n) && RowFine(start, rules, Sorted(rows, start, rules, n).labels, rows[n], Slot(start, rows, rows[n]))
    ensures Sortable(rows, start, rules) ==> FineUpTo(rows, start, rules, n + 1)
  {
  }

  /** The model's answers go to all slots of their item. */
  method Translate(before: Labels, items: seq<Item>, answer: Answers) returns (labels: Labels)
    ensures labels == WithAnswers(before, items, answer, |items|)
  {
    labels := before;
    for q := 0 to |items|
      invariant labels == WithAnswers(before, items, answer, q)
    {
      var item := items[q];
      var text := answer(item.family, item.en);
      if text.Some? && text.value != "" {
        labels := WriteSlots(labels, item.slots, Entry(item.en, text.value, Some(item.family)));
      }
    }
  }

  method WriteSlots(before: Labels, slots: seq<string>, entry: Entry) returns (labels: Labels)
    ensures labels == WriteAll(before, slots, entry)
  {
    labels := before;
    for s := 0 to |slots|
      invariant labels == WriteAll(before, slots[..s], entry)
    {
      assert slots[..s + 1] == slots[..s] + [slots[s]];
      labels := labels[slots[s] := entry];
    }
    assert slots[..|slots|] == slots;
  }

  // ------------------------------------------------------------------------------------------------ the check

  /** No later row has the same key and label. */
  predicate LastOf(rows: seq<Row>, j: nat)
    requires j < |rows|
  {
    forall k | j < k < |rows| :: !(rows[k].key == rows[j].key && rows[k].en == rows[j].en)
  }

  /** A label of one family has one translation. */
  predicate OneTranslation(labels: Labels) {
    forall a, b | a in labels && b in labels && labels[a].family == labels[b].family && labels[a].en == labels[b].en ::
      labels[a].text == labels[b].text
  }

  /** Every entry has a text of a valid form, and no label has two. */
  predicate Forms(labels: Labels, valid: (string, Entry) -> bool) {
    (forall slot | slot in labels :: labels[slot].text != "" && valid(slot, labels[slot])) && OneTranslation(labels)
  }

  /** The fixture passes its check against the rows: every row's slot, assigned anew, holds its label and a text, and the
      family of the last row of that slot; all entries are well formed. */
  ghost predicate Checks(rows: seq<Row>, labels: Labels, valid: (string, Entry) -> bool) {
    (forall j | 0 <= j < |rows| :: InOrder(rows, labels, j)) && AllValid(labels, valid)
  }

  /** Every entry has a text of a valid form, and entries of one family with one English label have one text. */
  ghost predicate AllValid(labels: Labels, valid: (string, Entry) -> bool) {
    && (forall slot | slot in labels :: labels[slot].text != "" && valid(slot, labels[slot]))
    && (forall a, b | a in labels && b in labels && labels[a].family == labels[b].family && labels[a].en == labels[b].en ::
          labels[a].text == labels[b].text)
  }

  /** The rows by slot, the last one of each. */
  ghost predicate BySlot(rows: seq<Row>, slots: seq<string>, n: nat, bySlot: map<string, Row>)
    requires n <= |rows| == |slots|
  {
    && (forall j | 0 <= j < n :: slots[j] in bySlot)
    && (forall slot | slot in bySlot :: exists j :: 0 <= j < n && slots[j] == slot && rows[j] == bySlot[slot] && forall k | j < k < n :: slots[k] != slot)
  }

  lemma BySlotStep(rows: seq<Row>, slots: seq<string>, n: nat, bySlot: map<string, Row>)
    requires n < |rows| == |slots| && BySlot(rows, slots, n, bySlot)
    ensures BySlot(rows, slots, n + 1, bySlot[slots[n] := rows[n]])
  {
    var next := bySlot[slots[n] := rows[n]];
    forall slot | slot in next
      ensures exists j :: 0 <= j < n + 1 && slots[j] == slot && rows[j] == next[slot] && forall k | j < k < n + 1 :: slots[k] != slot
    {
      if slot == slots[n] {
        assert slots[n] == slot && rows[n] == next[slot];
      } else {
        var j :| 0 <= j < n && slots[j] == slot && rows[j] == bySlot[slot] && forall k | j < k < n :: slots[k] != slot;
        assert slots[j] == slot && rows[j] == next[slot];
      }
    }
  }

  predicate Holds(labels: Labels, slot: string, row: Row) {
    slot in labels && labels[slot].en == row.en && labels[slot].family == Some(row.family)
  }

  /** The row's slot is in order: its label and a text, and the family when no later row shares the slot. */
  ghost predicate InOrder(rows: seq<Row>, labels: Labels, j: nat)
    requires j < |rows|
  {
    && Cached(labels, Slot(labels, rows, rows[j]), rows[j].en)
    && (LastOf(rows, j) ==> labels[Slot(labels, rows, rows[j])].family == Some(rows[j].family))
  }

  lemma SlotsSame(rows: seq<Row>, labels: Labels, j: nat, k: nat)
    requires BarFree(rows) && j < |rows| && k < |rows|
    ensures Slot(labels, rows, rows[j]) == Slot(labels, rows, rows[k]) <==> rows[j].key == rows[k].key && rows[j].en == rows[k].en
  {
    if Slot(labels, rows, rows[j]) == Slot(labels, rows, rows[k]) {
      SlotTells(labels, rows, rows[j], rows[k]);
    }
  }

  lemma LastRowsSuffice(rows: seq<Row>, labels: Labels, slots: seq<string>, bySlot: map<string, Row>, j: nat)
    requires BarFree(rows) && |slots| == |rows| && (forall k | 0 <= k < |rows| :: slots[k] == Slot(labels, rows, rows[k]))
    requires BySlot(rows, slots, |rows|, bySlot) && (forall slot | slot in labels :: labels[slot].text != "") && j < |rows|
    requires forall slot | slot in bySlot :: Holds(labels, slot, bySlot[slot])
    ensures InOrder(rows, labels, j)
  {
    var slot := slots[j];
    assert Holds(labels, slot, bySlot[slot]);
    var k :| 0 <= k < |rows| && slots[k] == slot && rows[k] == bySlot[slot] && forall i | k < i < |rows| :: slots[i] != slot;
    SlotsSame(rows, labels, j, k);
    if LastOf(rows, j) {
      assert j == k;
    }
  }

  lemma LastRowsNeeded(rows: seq<Row>, labels: Labels, slots: seq<string>, bySlot: map<string, Row>, slot: string)
    requires BarFree(rows) && |slots| == |rows| && (forall k | 0 <= k < |rows| :: slots[k] == Slot(labels, rows, rows[k]))
    requires BySlot(rows, slots, |rows|, bySlot) && slot in bySlot
    requires forall j | 0 <= j < |rows| :: InOrder(rows, labels, j)
    ensures Holds(labels, slot, bySlot[slot])
  {
    var j :| 0 <= j < |rows| && slots[j] == slot && rows[j] == bySlot[slot] && forall k | j < k < |rows| :: slots[k] != slot;
    forall k | j < k < |rows| ensures !(rows[k].key == rows[j].key && rows[k].en == rows[j].en) {
      SlotsSame(rows, labels, j, k);
    }
    assert InOrder(rows, labels, j);
  }

  /** checkFixture; `valid` stands for the forms of the texts of each family. */
  method CheckFixture(rows: seq<Row>, labels: Labels, valid: (string, Entry) -> bool) returns (ok: bool)
    requires BarFree(rows)
    ensures ok <==> Checks(rows, labels, valid)
  {
    var slots := AssignSlots(rows, labels);
    var bySlot: map<string, Row> := map[];
    for i := 0 to |rows|
      invariant BySlot(rows, slots, i, bySlot)
    {
      BySlotStep(rows, slots, i, bySlot);
      bySlot := bySlot[slots[i] := rows[i]];
    }
    if !Forms(labels, valid) {
      return false;
    }
    ok := forall slot | slot in bySlot :: Holds(labels, slot, bySlot[slot]);
    if ok {
      forall j | 0 <= j < |rows| ensures InOrder(rows, labels, j) {
        LastRowsSuffice(rows, labels, slots, bySlot, j);
      }
    } else if forall j | 0 <= j < |rows| :: InOrder(rows, labels, j) {
      forall slot | slot in bySlot ensures Holds(labels, slot, bySlot[slot]) {
        LastRowsNeeded(rows, labels, slots, bySlot, slot);
      }
    }
  }

  // ------------------------------------------------------------------------------------------------ a whole build

  method BuildGerman(rows: seq<Row>, start: Labels, rules: Rules, answer: Answers, valid: (string, Entry) -> bool)
    returns (r: Result<Labels>)
    requires BarFree(rows)
    ensures r.Ok? <==> Builds(rows, start, rules, answer, valid)
    ensures r.Ok? ==> r.value == Built(rows, start, rules, answer) && Complete(r.value, start, rows)
    ensures r.Ok? ==> FromNowhere(r.value, start, rows, rules, answer) == {}
  {
    var slots := AssignSlots(rows, start);
    var work := ByRule(rows, start, slots, rules);
    if work.Err? {
      return Err(work.error);
    }
    var labels := Translate(work.value.labels, work.value.items, answer);
    if !NothingOpen(labels, work.value.items) {
      return Err("labels still untranslated");
    }
    var ok := CheckFixture(rows, labels, valid);
    if !ok {
      return Err("the fixture fails its check");
    }
    SortedInHand(rows, start, rules, |rows|);
    AnsweredKept(rows, start, work.value, answer, |work.value.items|);
    NobodyOut(rows, start, work.value, labels);
    forall j | 0 <= j < |rows| ensures Cached(labels, Slot(labels, rows, rows[j]), rows[j].en) {
      assert InOrder(rows, labels, j);
    }
    GermanComplete(rows, start, labels);
    BuiltFromRows(rows, start, rules, answer);
    r := Ok(labels);
  }

  lemma NobodyOut(rows: seq<Row>, start: Labels, work: Work, labels: Labels)
    requires InHand(rows, start, work, |rows|) && NothingOpen(labels, work.items) && forall slot | slot in work.labels :: slot in labels
    ensures forall j | 0 <= j < |rows| :: Slot(start, rows, rows[j]) in labels
  {
    forall j | 0 <= j < |rows| ensures Slot(start, rows, rows[j]) in labels {
      if Waits(work.items, Slot(start, rows, rows[j])) {
        var q :| 0 <= q < |work.items| && Slot(start, rows, rows[j]) in work.items[q].slots;
        assert work.items[q] in work.items;
      }
    }
  }

  lemma GermanComplete(rows: seq<Row>, start: Labels, labels: Labels)
    requires BarFree(rows) && Kept(labels, start, rows)
    requires forall j | 0 <= j < |rows| :: Slot(start, rows, rows[j]) in labels
    requires forall j | 0 <= j < |rows| :: Cached(labels, Slot(labels, rows, rows[j]), rows[j].en)
    ensures Complete(labels, start, rows)
  {
    forall j | 0 <= j < |rows| ensures Cached(labels, Slot(start, rows, rows[j]), rows[j].en) {
      var key := rows[j].key;
      if key !in start {
        LastLabelExact(rows, key);
        var k :| 0 <= k < |rows| && rows[k].key == key && rows[k].en == LastLabel(rows, key).value;
        assert Slot(start, rows, rows[k]) == key;
      }
      SlotStays(labels, start, rows, j);
      assert Cached(labels, Slot(labels, rows, rows[j]), rows[j].en);
    }
  }

  // ------------------------------------------------------------------------------------------------ when a build succeeds

  /** Rows of one key and label are of one family. */
  ghost predicate OneFamily(rows: seq<Row>) {
    forall j, k | 0 <= j < |rows| && 0 <= k < |rows| && rows[j].key == rows[k].key && rows[j].en == rows[k].en :: rows[j].family == rows[k].family
  }

  /** A text comes for the row, by rule or from the model. */
  predicate TextComes(rules: Rules, answer: Answers, row: Row) {
    var rule, text := rules.rule(row.family, row.en), answer(row.family, row.en);
    if rule.Some? then rule.value != "" else row.family in rules.model && text.Some? && text.value != ""
  }

  /** Every row is done already, with its family, or gets a text. */
  ghost predicate Supplied(rows: seq<Row>, start: Labels, rules: Rules, answer: Answers) {
    forall j | 0 <= j < |rows| ::
      if Cached(start, Slot(start, rows, rows[j]), rows[j].en) then start[Slot(start, rows, rows[j])].family == Some(rows[j].family)
      else TextComes(rules, answer, rows[j])
  }

  /** An entry that is not the one from before is a good one of a row of its slot. */
  ghost predicate GoodEntry(rows: seq<Row>, start: Labels, labels: Labels, slot: string)
    requires slot in labels
  {
    || (slot in start && labels[slot] == start[slot])
    || (labels[slot].text != "" && exists j :: 0 <= j < |rows| && Slot(start, rows, rows[j]) == slot && Holds(labels, slot, rows[j]))
  }

  ghost predicate GoodLabels(rows: seq<Row>, start: Labels, labels: Labels) {
    forall slot | slot in labels :: GoodEntry(rows, start, labels, slot)
  }

  /** The row's slot holds its label, its family and a text. */
  ghost predicate Settled(rows: seq<Row>, start: Labels, labels: Labels, j: nat)
    requires j < |rows|
  {
    Holds(labels, Slot(start, rows, rows[j]), rows[j]) && labels[Slot(start, rows, rows[j])].text != ""
  }

  lemma SameSlotSettles(rows: seq<Row>, start: Labels, labels: Labels, j: nat, k: nat)
    requires BarFree(rows) && OneFamily(rows) && j < |rows| && k < |rows|
    requires Slot(start, rows, rows[j]) == Slot(start, rows, rows[k]) && Settled(rows, start, labels, k)
    ensures Settled(rows, start, labels, j)
  {
    SlotTells(start, rows, rows[j], rows[k]);
  }

  /** Writing a good entry of row k settles row k and unsettles nobody. */
  lemma WriteSettles(rows: seq<Row>, start: Labels, labels: Labels, k: nat, entry: Entry)
    requires BarFree(rows) && OneFamily(rows) && k < |rows| && GoodLabels(rows, start, labels)
    requires entry.en == rows[k].en && entry.family == Some(rows[k].family) && entry.text != ""
    ensures var after := labels[Slot(start, rows, rows[k]) := entry];
      && GoodLabels(rows, start, after) && Settled(rows, start, after, k)
      && forall j | 0 <= j < |rows| && Settled(rows, start, labels, j) :: Settled(rows, start, after, j)
  {
    var slot := Slot(start, rows, rows[k]);
    var after := labels[slot := entry];
    forall other | other in after ensures GoodEntry(rows, start, after, other) {
      if other != slot {
        assert GoodEntry(rows, start, labels, other);
        if !(other in start && labels[other] == start[other]) {
          var j :| 0 <= j < |rows| && Slot(start, rows, rows[j]) == other && Holds(labels, other, rows[j]);
          assert Holds(after, other, rows[j]);
        }
      } else {
        assert Holds(after, slot, rows[k]);
      }
    }
    forall j | 0 <= j < |rows| && Settled(rows, start, labels, j) ensures Settled(rows, start, after, j) {
      if Slot(start, rows, rows[j]) == slot {
        SameSlotSettles(rows, start, after, j, k);
      }
    }
  }

  lemma DoneSettles(rows: seq<Row>, start: Labels, rules: Rules, answer: Answers, labels: Labels, k: nat)
    requires BarFree(rows) && OneFamily(rows) && Supplied(rows, start, rules, answer) && GoodLabels(rows, start, labels) && k < |rows|
    requires Done(start, labels, Slot(start, rows, rows[k]), rows[k].en)
    ensures Settled(rows, start, labels, k)
  {
    var slot := Slot(start, rows, rows[k]);
    assert GoodEntry(rows, start, labels, slot);
    if labels[slot] != start[slot] {
      var j :| 0 <= j < |rows| && Slot(start, rows, rows[j]) == slot && Holds(labels, slot, rows[j]);
      SlotTells(start, rows, rows[j], rows[k]);
    }
  }

  /** The first n rows are settled or wait. */
  ghost predicate SettledOrWaits(rows: seq<Row>, start: Labels, labels: Labels, items: seq<Item>, n: nat)
    requires n <= |rows|
  {
    forall j | 0 <= j < n :: Settled(rows, start, labels, j) || Waits(items, Slot(start, rows, rows[j]))
  }

  lemma RuleSettles(rows: seq<Row>, start: Labels, labels: Labels, items: seq<Item>, n: nat, entry: Entry)
    requires BarFree(rows) && OneFamily(rows) && GoodLabels(rows, start, labels) && 0 < n <= |rows|
    requires SettledOrWaits(rows, start, labels, items, n - 1)
    requires entry.en == rows[n - 1].en && entry.family == Some(rows[n - 1].family) && entry.text != ""
    ensures GoodLabels(rows, start, labels[Slot(start, rows, rows[n - 1]) := entry])
    ensures SettledOrWaits(rows, start, labels[Slot(start, rows, rows[n - 1]) := entry], items, n)
  {
    WriteSettles(rows, start, labels, n - 1, entry);
  }

  lemma ItemWaits(rows: seq<Row>, start: Labels, labels: Labels, items: seq<Item>, n: nat)
    requires 0 < n <= |rows| && SettledOrWaits(rows, start, labels, items, n - 1)
    ensures SettledOrWaits(rows, start, labels, AddItem(items, rows[n - 1].family, rows[n - 1].en, Slot(start, rows, rows[n - 1])), n)
  {
    WaitsMore(items, rows[n - 1].family, rows[n - 1].en, Slot(start, rows, rows[n - 1]));
  }

  /** Rows whose label and family are told apart by their slot, all supplied. */
  ghost predicate Ready(rows: seq<Row>, start: Labels, rules: Rules, answer: Answers) {
    BarFree(rows) && OneFamily(rows) && Supplied(rows, start, rules, answer)
  }

  ghost predicate Progressed(rows: seq<Row>, start: Labels, work: Work, n: nat)
    requires n <= |rows|
  {
    GoodLabels(rows, start, work.labels) && SettledOrWaits(rows, start, work.labels, work.items, n)
  }

  lemma SettleStep(rows: seq<Row>, start: Labels, rules: Rules, answer: Answers, work: Work, n: nat)
    requires 0 < n <= |rows|
    ensures Ready(rows, start, rules, answer) && InHand(rows, start, work, n - 1) && Progressed(rows, start, work, n - 1) ==>
      Progressed(rows, start, SortRow(start, rules, work, rows[n - 1], Slot(start, rows, rows[n - 1])), n)
  {
    if Ready(rows, start, rules, answer) && InHand(rows, start, work, n - 1) && Progressed(rows, start, work, n - 1) {
      var row := rows[n - 1];
      var slot, rule := Slot(start, rows, row), rules.rule(row.family, row.en);
      if Done(start, work.labels, slot, row.en) {
        DoneSettles(rows, start, rules, answer, work.labels, n - 1);
      } else {
        NotDone(rows, start, rules, answer, work.labels, n - 1);
        if rule.Some? {
          RuleSettles(rows, start, work.labels, work.items, n, Entry(row.en, rule.value, Some(row.family)));
        } else {
          ItemWaits(rows, start, work.labels, work.items, n);
        }
      }
    }
  }

  lemma NotDone(rows: seq<Row>, start: Labels, rules: Rules, answer: Answers, labels: Labels, k: nat)
    requires Ready(rows, start, rules, answer) && Kept(labels, start, rows) && k < |rows|
    requires !Done(start, labels, Slot(start, rows, rows[k]), rows[k].en)
    ensures TextComes(rules, answer, rows[k])
  {
    if Cached(start, Slot(start, rows, rows[k]), rows[k].en) {
      CachedIsDone(rows, start, labels, rows[k]);
    }
  }

  /** Work in hand whose done rows are settled. */
  ghost predicate Sound(rows: seq<Row>, start: Labels, work: Work, n: nat)
    requires n <= |rows|
  {
    InHand(rows, start, work, n) && Progressed(rows, start, work, n)
  }

  lemma SoundStart(rows: seq<Row>, start: Labels)
    ensures Sound(rows, start, Work(start, []), 0)
  {
  }

  lemma SoundStep(rows: seq<Row>, start: Labels, rules: Rules, answer: Answers, work: Work, n: nat, next: Work)
    requires 0 < n <= |rows| && next == SortRow(start, rules, work, rows[n - 1], Slot(start, rows, rows[n - 1]))
    ensures Ready(rows, start, rules, answer) && Sound(rows, start, work, n - 1) ==> Sound(rows, start, next, n)
  {
    if Ready(rows, start, rules, answer) && Sound(rows, start, work, n - 1) {
      InHandStep(rows, start, rules, work, n, next);
      SettleStep(rows, start, rules, answer, work, n);
    }
  }

  lemma {:induction false} SortedSound(rows: seq<Row>, start: Labels, rules: Rules, answer: Answers, n: nat, work: Work)
    requires n <= |rows| && work == Sorted(rows, start, rules, n)
    ensures Ready(rows, start, rules, answer) ==> Sound(rows, start, work, n)
    decreases n
  {
    if n == 0 {
      SoundStart(rows, start);
    } else {
      var before := Sorted(rows, start, rules, n - 1);
      SortedSound(rows, start, rules, answer, n - 1, before);
      SoundStep(rows, start, rules, answer, before, n, work);
    }
  }
  /** Good entries, and the rows settled before still are. */
  ghost predicate Settles(rows: seq<Row>, start: Labels, before: Labels, after: Labels) {
    GoodLabels(rows, start, after) && forall j | 0 <= j < |rows| && Settled(rows, start, before, j) :: Settled(rows, start, after, j)
  }

  ghost predicate SlotsSettled(rows: seq<Row>, start: Labels, labels: Labels, slots: seq<string>) {
    forall j | 0 <= j < |rows| && Slot(start, rows, rows[j]) in slots :: Settled(rows, start, labels, j)
  }

  ghost predicate AllWanted(start: Labels, rows: seq<Row>, item: Item, slots: seq<string>) {
    forall slot | slot in slots :: Wanted(start, rows, item, slot)
  }

  /** The first n slots are written, and nobody is unsettled. */
  ghost predicate Written(rows: seq<Row>, start: Labels, labels: Labels, after: Labels, slots: seq<string>) {
    Settles(rows, start, labels, after) && SlotsSettled(rows, start, after, slots)
  }

  /** All slots of an item can be written with its entry. */
  ghost predicate Writable(rows: seq<Row>, start: Labels, labels: Labels, item: Item, slots: seq<string>, entry: Entry) {
    && BarFree(rows) && OneFamily(rows) && GoodLabels(rows, start, labels) && AllWanted(start, rows, item, slots)
    && entry.en == item.en && entry.family == Some(item.family) && entry.text != ""
  }

  lemma WritableFront(rows: seq<Row>, start: Labels, labels: Labels, item: Item, slots: seq<string>, entry: Entry)
    requires slots != []
    ensures Writable(rows, start, labels, item, slots, entry) ==>
      Writable(rows, start, labels, item, slots[..|slots| - 1], entry) && Wanted(start, rows, item, slots[|slots| - 1])
  {
    if Writable(rows, start, labels, item, slots, entry) {
      forall slot | slot in slots[..|slots| - 1] ensures Wanted(start, rows, item, slot) {
        assert slot in slots;
      }
      assert slots[|slots| - 1] in slots;
    }
  }

  lemma {:induction false} WriteAllSettles(rows: seq<Row>, start: Labels, labels: Labels, item: Item, slots: seq<string>, entry: Entry)
    ensures Writable(rows, start, labels, item, slots, entry) ==> Written(rows, start, labels, WriteAll(labels, slots, entry), slots)
    decreases |slots|
  {
    if slots == [] {
      assert WriteAll(labels, slots, entry) == labels;
    } else {
      var front, slot := slots[..|slots| - 1], slots[|slots| - 1];
      assert slots == front + [slot];
      WritableFront(rows, start, labels, item, slots, entry);
      WriteAllSettles(rows, start, labels, item, front, entry);
      assert WriteAll(labels, slots, entry) == WriteAll(labels, front, entry)[slot := entry];
      WrittenStep(rows, start, labels, WriteAll(labels, front, entry), item, front, slot, entry);
    }
  }

  lemma WrittenStep(rows: seq<Row>, start: Labels, labels: Labels, before: Labels, item: Item, front: seq<string>, slot: string, entry: Entry)
    ensures Writable(rows, start, labels, item, front, entry) && Wanted(start, rows, item, slot) && Written(rows, start, labels, before, front) ==>
      Written(rows, start, labels, before[slot := entry], front + [slot])
  {
    if Writable(rows, start, labels, item, front, entry) && Wanted(start, rows, item, slot) && Written(rows, start, labels, before, front) {
      OneSlotSettles(rows, start, before, item, front, slot, entry);
    }
  }

  lemma OneSlotSettles(rows: seq<Row>, start: Labels, before: Labels, item: Item, front: seq<string>, slot: string, entry: Entry)
    requires BarFree(rows) && OneFamily(rows) && GoodLabels(rows, start, before) && SlotsSettled(rows, start, before, front)
    requires Wanted(start, rows, item, slot) && entry.en == item.en && entry.family == Some(item.family) && entry.text != ""
    ensures Settles(rows, start, before, before[slot := entry])
    ensures SlotsSettled(rows, start, before[slot := entry], front + [slot])
  {
    var k :| 0 <= k < |rows| && Slot(start, rows, rows[k]) == slot && Asks(item, rows[k]) && !Cached(start, slot, rows[k].en);
    WriteSettles(rows, start, before, k, entry);
    forall j | 0 <= j < |rows| && Slot(start, rows, rows[j]) == slot ensures Settled(rows, start, before[slot := entry], j) {
      SameSlotSettles(rows, start, before[slot := entry], j, k);
    }
  }

  lemma WantedTextComes(rows: seq<Row>, start: Labels, rules: Rules, answer: Answers, item: Item, slot: string)
    requires Supplied(rows, start, rules, answer) && Wanted(start, rows, item, slot) && rules.rule(item.family, item.en).None?
    ensures answer(item.family, item.en).Some? && answer(item.family, item.en).value != ""
  {
    var j :| 0 <= j < |rows| && Slot(start, rows, rows[j]) == slot && Asks(item, rows[j]) && !Cached(start, slot, rows[j].en);
    assert TextComes(rules, answer, rows[j]);
  }

  /** No item is for a label with a rule. */
  predicate Ruleless(rules: Rules, items: seq<Item>) {
    forall item | item in items :: rules.rule(item.family, item.en).None?
  }

  lemma {:induction false} RulelessMore(rules: Rules, items: seq<Item>, family: Family, en: string, slot: string)
    requires Ruleless(rules, items) && rules.rule(family, en).None?
    ensures Ruleless(rules, AddItem(items, family, en, slot))
  {
    if items != [] && !(items[0].family == family && items[0].en == en) {
      RulelessMore(rules, items[1..], family, en, slot);
    }
  }

  /** Items are only made where there is no rule. */
  lemma {:induction false} ItemsHaveNoRule(rows: seq<Row>, start: Labels, rules: Rules, n: nat)
    requires n <= |rows|
    ensures Ruleless(rules, Sorted(rows, start, rules, n).items)
    decreases n
  {
    if n > 0 {
      ItemsHaveNoRule(rows, start, rules, n - 1);
      var work, row := Sorted(rows, start, rules, n - 1), rows[n - 1];
      if rules.rule(row.family, row.en).None? {
        RulelessMore(rules, work.items, row.family, row.en, Slot(start, rows, row));
      }
    }
  }

  lemma {:induction false} AnsweredSettles(rows: seq<Row>, start: Labels, rules: Rules, answer: Answers, work: Work, n: nat)
    requires Ready(rows, start, rules, answer) && n <= |work.items|
    requires ItemsWanted(start, rows, work.items) && GoodLabels(rows, start, work.labels)
    requires Ruleless(rules, work.items)
    ensures Settles(rows, start, work.labels, WithAnswers(work.labels, work.items, answer, n))
    ensures forall q | 0 <= q < n :: SlotsSettled(rows, start, WithAnswers(work.labels, work.items, answer, n), work.items[q].slots)
    decreases n
  {
    if n > 0 {
      AnsweredSettles(rows, start, rules, answer, work, n - 1);
      var item := work.items[n - 1];
      assert item in work.items;
      var before := WithAnswers(work.labels, work.items, answer, n - 1);
      AnswerSettles(rows, start, rules, answer, before, item);
      var after := WithAnswers(work.labels, work.items, answer, n);
      forall q | 0 <= q < n ensures SlotsSettled(rows, start, after, work.items[q].slots) {
        if q < n - 1 {
          assert SlotsSettled(rows, start, before, work.items[q].slots);
        }
      }
    }
  }

  lemma AnswerSettles(rows: seq<Row>, start: Labels, rules: Rules, answer: Answers, before: Labels, item: Item)
    requires Ready(rows, start, rules, answer) && GoodLabels(rows, start, before)
    requires (forall slot | slot in item.slots :: Wanted(start, rows, item, slot)) && rules.rule(item.family, item.en).None?
    ensures Settles(rows, start, before, OneAnswer(before, item, answer))
    ensures SlotsSettled(rows, start, OneAnswer(before, item, answer), item.slots)
  {
    var text := answer(item.family, item.en);
    if text.Some? && text.value != "" {
      WriteAllSettles(rows, start, before, item, item.slots, Entry(item.en, text.value, Some(item.family)));
    } else {
      forall slot | slot in item.slots ensures false {
        WantedTextComes(rows, start, rules, answer, item, slot);
      }
    }
  }

  lemma SuppliedIsSortable(rows: seq<Row>, start: Labels, rules: Rules, answer: Answers)
    requires BarFree(rows) && Supplied(rows, start, rules, answer)
    ensures Sortable(rows, start, rules)
  {
    forall j | 0 <= j < |rows| ensures RowFine(start, rules, Sorted(rows, start, rules, j).labels, rows[j], Slot(start, rows, rows[j]))
    {
      if Cached(start, Slot(start, rows, rows[j]), rows[j].en) {
        SortedInHand(rows, start, rules, j);
        CachedIsDone(rows, start, Sorted(rows, start, rules, j).labels, rows[j]);
      } else {
        assert TextComes(rules, answer, rows[j]);
      }
    }
  }

  /**
   * When every text comes and the rows of a label agree on its family, all that can stop a build is the form of the texts:
   * it goes through exactly when every entry is of a valid form and no label has two translations.
   */
  lemma SuppliedBuilds(rows: seq<Row>, start: Labels, rules: Rules, answer: Answers, valid: (string, Entry) -> bool)
    requires BarFree(rows) && OneFamily(rows) && Supplied(rows, start, rules, answer)
    ensures Builds(rows, start, rules, answer, valid) <==> AllValid(Built(rows, start, rules, answer), valid)
  {
    var work, built := Sorted(rows, start, rules, |rows|), Built(rows, start, rules, answer);
    SuppliedIsSortable(rows, start, rules, answer);
    SortedInHand(rows, start, rules, |rows|);
    SortedSound(rows, start, rules, answer, |rows|, work);
    ItemsHaveNoRule(rows, start, rules, |rows|);
    AnsweredSettles(rows, start, rules, answer, work, |work.items|);
    AnsweredKept(rows, start, work, answer, |work.items|);
    EverybodySettled(rows, start, work, built);
    AllSettledChecks(rows, start, built);
    OpenSettled(rows, start, work, built);
  }

  lemma EverybodySettled(rows: seq<Row>, start: Labels, work: Work, built: Labels)
    requires SettledOrWaits(rows, start, work.labels, work.items, |rows|) && Settles(rows, start, work.labels, built)
    requires forall q | 0 <= q < |work.items| :: SlotsSettled(rows, start, built, work.items[q].slots)
    ensures forall j | 0 <= j < |rows| :: Settled(rows, start, built, j)
  {
    forall j | 0 <= j < |rows| ensures Settled(rows, start, built, j) {
      if !Settled(rows, start, work.labels, j) {
        var q :| 0 <= q < |work.items| && Slot(start, rows, rows[j]) in work.items[q].slots;
        assert SlotsSettled(rows, start, built, work.items[q].slots);
      }
    }
  }

  lemma OpenSettled(rows: seq<Row>, start: Labels, work: Work, built: Labels)
    requires ItemsWanted(start, rows, work.items) && forall j | 0 <= j < |rows| :: Settled(rows, start, built, j)
    ensures NothingOpen(built, work.items)
  {
    forall item, slot | item in work.items && slot in item.slots ensures slot in built && built[slot].text != "" {
      var q :| 0 <= q < |work.items| && work.items[q] == item;
      assert Wanted(start, rows, work.items[q], slot);
      var j :| 0 <= j < |rows| && Slot(start, rows, rows[j]) == slot && Asks(item, rows[j]) && !Cached(start, slot, rows[j].en);
      assert Settled(rows, start, built, j);
    }
  }

  /** When every row is settled, the slots assigned anew are the same and hold the right things. */
  lemma AllSettledChecks(rows: seq<Row>, start: Labels, labels: Labels)
    requires BarFree(rows) && Kept(labels, start, rows) && forall j | 0 <= j < |rows| :: Settled(rows, start, labels, j)
    ensures forall j | 0 <= j < |rows| :: InOrder(rows, labels, j)
  {
    forall j | 0 <= j < |rows| ensures InOrder(rows, labels, j) {
      var key := rows[j].key;
      if key !in start {
        LastLabelExact(rows, key);
        var k :| 0 <= k < |rows| && rows[k].key == key && rows[k].en == LastLabel(rows, key).value;
        assert Slot(start, rows, rows[k]) == key && Settled(rows, start, labels, k);
      }
      SlotStays(labels, start, rows, j);
      assert Settled(rows, start, labels, j);
    }
  }

  // ------------------------------------------------------------------------------------------------ apply

  datatype Update = Update(id: nat, en: string, text: string)

  function TextOf(labels: Labels, slot: string): string {
    if slot in labels then labels[slot].text else ""
  }

  lemma KeyThere(rows: seq<Row>, labels: Labels, key: string)
    requires (forall j | 0 <= j < |rows| :: InOrder(rows, labels, j)) && exists j :: 0 <= j < |rows| && rows[j].key == key
    ensures key in labels
  {
    LastLabelExact(rows, key);
    var k :| 0 <= k < |rows| && rows[k].key == key && rows[k].en == LastLabel(rows, key).value;
    assert InOrder(rows, labels, k);
  }

  /** A fixture that passes its check resolves every row: apply's own counters of missing and stale rows stay at zero. */
  lemma CheckedResolves(rows: seq<Row>, labels: Labels, valid: (string, Entry) -> bool, j: nat)
    requires BarFree(rows) && Checks(rows, labels, valid) && j < |rows|
    ensures FixtureSlot(labels, rows[j]) in labels && labels[FixtureSlot(labels, rows[j])].en == rows[j].en
  {
    LastLabelExact(rows, rows[j].key);
    assert InOrder(rows, labels, j);
    KeyThere(rows, labels, rows[j].key);
  }

  /** The rows still without a label in the database, with their fixture text; refused exactly when the fixture fails its check. */
  method Apply(rows: seq<Row>, labels: Labels, current: map<nat, string>, valid: (string, Entry) -> bool) returns (r: Result<seq<Update>>)
    requires BarFree(rows)
    ensures r.Ok? <==> Checks(rows, labels, valid)
    ensures r.Ok? ==> forall u :: u in r.value <==>
      exists j :: 0 <= j < |rows| && rows[j].id !in current && u == Update(rows[j].id, rows[j].en, TextOf(labels, Slot(labels, rows, rows[j])))
  {
    var ok := CheckFixture(rows, labels, valid);
    if !ok {
      return Err("fixture fails its check");
    }
    var updates: seq<Update> := [];
    var missing, stale := 0, 0;
    for i := 0 to |rows|
      invariant missing == stale == 0
      invariant forall u :: u in updates <==>
        exists j :: 0 <= j < i && rows[j].id !in current && u == Update(rows[j].id, rows[j].en, TextOf(labels, Slot(labels, rows, rows[j])))
    {
      CheckedResolves(rows, labels, valid, i);
      var slot := FixtureSlot(labels, rows[i]);
      if slot !in labels {
        missing := missing + 1;
      } else if labels[slot].en != rows[i].en {
        stale := stale + 1;
      } else if rows[i].id !in current {
        updates := updates + [Update(rows[i].id, rows[i].en, labels[slot].text)];
      }
    }
    r := if missing > 0 || stale > 0 then Err("fixture incomplete") else Ok(updates);
  }
}
