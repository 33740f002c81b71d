/** The translation importer: plan against what is stored, apply in one transaction, roll back from the backup. */
module LocaleImport {
  import opened Wrappers
  import opened LocaleTree

  datatype Cell = Cell(table: nat, column: nat, row: nat)

  type CardId = nat

  /** A clue card; `of` is the card that its review notes say it translates. */
  datatype Card = Card(turkish: bool, family: Option<nat>, of: Option<CardId>, clues: seq<string>)

  /** A NULL column is Null. */
  datatype State = State(json: map<Cell, Jsonb>, scalar: map<Cell, Jsonb>, cards: map<CardId, Card>)

  /** The plan's items, grouped by the cell they write. */
  datatype JsonGroup = JsonGroup(cell: Cell, items: seq<Item>)
  datatype ScalarGroup = ScalarGroup(cell: Cell, source: Cell, parallel: bool, first: Item, more: seq<Item>)
  datatype CardGroup = CardGroup(row: CardId, clues: seq<string>)
  datatype Work = Work(json: seq<JsonGroup>, scalar: seq<ScalarGroup>, cards: seq<CardGroup>)

  /** A planned write: what the cell held, what the script read there and backs up, and what it writes. */
  datatype Change = Change(cell: Cell, seen: Jsonb, original: Jsonb, value: Jsonb)
  datatype Insert = Insert(id: CardId, card: Card)
  datatype Plan = Plan(json: seq<Change>, scalar: seq<Change>, inserts: seq<Insert>)

  /** What the script does to texts and to numbers it reads. */
  datatype Script = Script(normal: Normal, reading: Reading)

  // ------------------------------------------------------------------------------------------------ planning

  function JsonChange(js: Script, json: map<Cell, Jsonb>, group: JsonGroup, overwrite: bool): Option<Change> {
    if group.cell !in json then None
    else
      var original := Read(js.reading, json[group.cell]);
      var (next, outcomes) := ApplyAll(js.normal, original, Unique(group.items), overwrite);
      if Changed in outcomes then Some(Change(group.cell, json[group.cell], original, next)) else None
  }

  function NormalOf(normal: Normal, value: Option<Jsonb>): string {
    if value.Some? && value.value.Str? then normal(value.value.s) else ""
  }

  /** Every item must find its source at its path. */
  function Translated(normal: Normal, tree: Jsonb, items: seq<Item>): Option<Jsonb>
    decreases |items|
  {
    if items == [] then Some(tree)
    else if NormalOf(normal, GetAt(tree, items[0].path)) != normal(items[0].source) then None
    else match SetAt(tree, items[0].path, Str(items[0].translated))
         case None => None
         case Some(next) => Translated(normal, next, items[1..])
  }

  function ScalarValue(normal: Normal, source: Jsonb, group: ScalarGroup): Option<Jsonb> {
    if group.parallel then Translated(normal, source, [group.first] + group.more)
    else if NormalOf(normal, Some(source)) != normal(group.first.source) then None
    else Some(Str(group.first.translated))
  }

  function SourceOf(js: Script, scalar: map<Cell, Jsonb>, group: ScalarGroup): Jsonb {
    if group.source in scalar then Read(js.reading, scalar[group.source]) else Null
  }

  function ScalarChange(js: Script, scalar: map<Cell, Jsonb>, group: ScalarGroup, overwrite: bool): Option<Change> {
    if group.cell !in scalar || (scalar[group.cell] != Null && !overwrite) then None
    else match ScalarValue(js.normal, SourceOf(js, scalar, group), group)
         case None => None
         case Some(value) => Some(Change(group.cell, scalar[group.cell], Read(js.reading, scalar[group.cell]), value))
  }

  /** A Turkish card of the family, or one made from this very card. */
  predicate HasTurkish(cards: map<CardId, Card>, row: CardId, family: Option<nat>) {
    exists id | id in cards :: cards[id].turkish && ((family.Some? && cards[id].family == family) || cards[id].of == Some(row))
  }

  function CardInsert(cards: map<CardId, Card>, group: CardGroup, id: CardId): Option<Insert> {
    if group.row !in cards || |group.clues| != 3 || "" in group.clues then None
    else if HasTurkish(cards, group.row, cards[group.row].family) then None
    else Some(Insert(id, Card(true, cards[group.row].family, Some(group.row), group.clues)))
  }

  function JsonChanges(js: Script, json: map<Cell, Jsonb>, groups: seq<JsonGroup>, overwrite: bool): seq<Change> {
    if groups == [] then []
    else
      var n := |groups| - 1;
      var change := JsonChange(js, json, groups[n], overwrite);
      JsonChanges(js, json, groups[..n], overwrite) + if change.Some? then [change.value] else []
  }

  function ScalarChanges(js: Script, scalar: map<Cell, Jsonb>, groups: seq<ScalarGroup>, overwrite: bool): seq<Change> {
    if groups == [] then []
    else
      var n := |groups| - 1;
      var change := ScalarChange(js, scalar, groups[n], overwrite);
      ScalarChanges(js, scalar, groups[..n], overwrite) + if change.Some? then [change.value] else []
  }

  function CardInserts(cards: map<CardId, Card>, groups: seq<CardGroup>, ids: CardId -> CardId): seq<Insert> {
    if groups == [] then []
    else
      var n := |groups| - 1;
      var one := CardInsert(cards, groups[n], ids(groups[n].row));
      CardInserts(cards, groups[..n], ids) + if one.Some? then [one.value] else []
  }

  function PlanOf(js: Script, s: State, work: Work, overwrite: bool, ids: CardId -> CardId): Plan {
    Plan(JsonChanges(js, s.json, work.json, overwrite), ScalarChanges(js, s.scalar, work.scalar, overwrite),
         CardInserts(s.cards, work.cards, ids))
  }

  /** The groups are of different cells and rows. */
  ghost predicate Grouped(work: Work) {
    && (forall i, j | 0 <= i < j < |work.json| :: work.json[i].cell != work.json[j].cell)
    && (forall i, j | 0 <= i < j < |work.scalar| :: work.scalar[i].cell != work.scalar[j].cell)
    && (forall i, j | 0 <= i < j < |work.cards| :: work.cards[i].row != work.cards[j].row)
  }

  /** The new ids: one per row, none in use or asked for. */
  ghost predicate FreshIds(cards: map<CardId, Card>, groups: seq<CardGroup>, ids: CardId -> CardId) {
    && (forall a, b | a != b :: ids(a) != ids(b))
    && (forall a :: ids(a) !in cards && forall k | 0 <= k < |groups| :: ids(a) != groups[k].row)
  }

  // ------------------------------------------------------------------------------------------------ writing

  /** UPDATE of cells that exist: to the planned values, or back to the originals. */
  function Write(cells: map<Cell, Jsonb>, changes: seq<Change>, back: bool): map<Cell, Jsonb> {
    if changes == [] then cells
    else
      var n := |changes| - 1;
      var before := Write(cells, changes[..n], back);
      var change := changes[n];
      if change.cell in before then before[change.cell := if back then change.original else change.value] else before
  }

  ghost predicate DistinctCells(changes: seq<Change>) {
    forall i, j | 0 <= i < j < |changes| :: changes[i].cell != changes[j].cell
  }

  ghost predicate DistinctIds(inserts: seq<Insert>) {
    forall i, j | 0 <= i < j < |inserts| :: inserts[i].id != inserts[j].id
  }

  ghost predicate DistinctPlan(p: Plan) {
    DistinctCells(p.json) && DistinctCells(p.scalar) && DistinctIds(p.inserts)
  }

  function Inserted(cards: map<CardId, Card>, inserts: seq<Insert>): map<CardId, Card> {
    if inserts == [] then cards
    else Inserted(cards, inserts[..|inserts| - 1])[inserts[|inserts| - 1].id := inserts[|inserts| - 1].card]
  }

  function Ids(inserts: seq<Insert>): set<CardId> {
    set k | 0 <= k < |inserts| :: inserts[k].id
  }

  /** No JSON cell changed since planning, and no new id is taken. */
  predicate Accepts(s: State, p: Plan) {
    && (forall k | 0 <= k < |p.json| :: p.json[k].cell in s.json && s.json[p.json[k].cell] == p.json[k].seen)
    && (forall k | 0 <= k < |p.inserts| :: p.inserts[k].id !in s.cards)
  }

  function Applied(s: State, p: Plan): State {
    State(Write(s.json, p.json, false), Write(s.scalar, p.scalar, false), Inserted(s.cards, p.inserts))
  }

  function RolledBack(s: State, p: Plan): State {
    State(Write(s.json, p.json, true), Write(s.scalar, p.scalar, true), s.cards - Ids(p.inserts))
  }

  lemma {:induction false} WriteExact(cells: map<Cell, Jsonb>, changes: seq<Change>, back: bool, cell: Cell)
    requires DistinctCells(changes)
    ensures cell in Write(cells, changes, back) <==> cell in cells
    ensures (forall k | 0 <= k < |changes| :: changes[k].cell != cell) && cell in cells ==> Write(cells, changes, back)[cell] == cells[cell]
    ensures forall k | 0 <= k < |changes| && changes[k].cell == cell && cell in cells ::
      Write(cells, changes, back)[cell] == if back then changes[k].original else changes[k].value
  {
    if changes != [] {
      var n := |changes| - 1;
      assert forall k | 0 <= k < n :: changes[..n][k] == changes[k];
      WriteExact(cells, changes[..n], back, cell);
      WriteExact(cells, changes[..n], back, changes[n].cell);
    }
  }

  lemma {:induction false} InsertedExact(cards: map<CardId, Card>, inserts: seq<Insert>, id: CardId)
    requires DistinctIds(inserts)
    ensures id in Inserted(cards, inserts) <==> id in cards || id in Ids(inserts)
    ensures id in cards && id !in Ids(inserts) ==> Inserted(cards, inserts)[id] == cards[id]
    ensures forall k | 0 <= k < |inserts| && inserts[k].id == id :: id in Inserted(cards, inserts) && Inserted(cards, inserts)[id] == inserts[k].card
  {
    if inserts != [] {
      var n := |inserts| - 1;
      assert forall k | 0 <= k < n :: inserts[..n][k] == inserts[k];
      InsertedExact(cards, inserts[..n], id);
      assert Ids(inserts) == Ids(inserts[..n]) + {inserts[n].id};
    }
  }

  /** Every touched cell got its value, and every other one stayed as it was. */
  ghost predicate Wrote(before: map<Cell, Jsonb>, after: map<Cell, Jsonb>, changes: seq<Change>, back: bool) {
    && after.Keys == before.Keys
    && (forall k | 0 <= k < |changes| && changes[k].cell in before ::
          after[changes[k].cell] == if back then changes[k].original else changes[k].value)
    && forall cell | cell in before && forall k | 0 <= k < |changes| :: changes[k].cell != cell :: after[cell] == before[cell]
  }

  lemma WriteWrote(cells: map<Cell, Jsonb>, changes: seq<Change>, back: bool)
    requires DistinctCells(changes)
    ensures Wrote(cells, Write(cells, changes, back), changes, back)
  {
    forall cell ensures cell in Write(cells, changes, back) <==> cell in cells
                ensures (forall k | 0 <= k < |changes| :: changes[k].cell != cell) && cell in cells ==>
                          Write(cells, changes, back)[cell] == cells[cell] {
      WriteExact(cells, changes, back, cell);
    }
    forall k | 0 <= k < |changes| && changes[k].cell in cells
      ensures Write(cells, changes, back)[changes[k].cell] == if back then changes[k].original else changes[k].value
    {
      WriteExact(cells, changes, back, changes[k].cell);
    }
  }

  /** The new cards are there, and every other one stayed as it was. */
  ghost predicate Added(before: map<CardId, Card>, after: map<CardId, Card>, inserts: seq<Insert>) {
    && (forall id :: id in after <==> id in before || exists k :: 0 <= k < |inserts| && inserts[k].id == id)
    && (forall id | id in before && id in after && forall k | 0 <= k < |inserts| :: inserts[k].id != id :: after[id] == before[id])
    && (forall k | 0 <= k < |inserts| && inserts[k].id in after :: after[inserts[k].id] == inserts[k].card)
  }

  lemma InsertedAdded(cards: map<CardId, Card>, inserts: seq<Insert>)
    requires DistinctIds(inserts)
    ensures Added(cards, Inserted(cards, inserts), inserts)
  {
    forall id ensures id in Inserted(cards, inserts) <==> id in cards || exists k :: 0 <= k < |inserts| && inserts[k].id == id {
      InsertedExact(cards, inserts, id);
    }
    forall id | id in cards && forall k | 0 <= k < |inserts| :: inserts[k].id != id ensures Inserted(cards, inserts)[id] == cards[id] {
      InsertedExact(cards, inserts, id);
    }
    forall k | 0 <= k < |inserts| ensures Inserted(cards, inserts)[inserts[k].id] == inserts[k].card {
      InsertedExact(cards, inserts, inserts[k].id);
    }
  }

  class Database {
    var json: map<Cell, Jsonb>
    var scalar: map<Cell, Jsonb>
    var cards: map<CardId, Card>

    ghost function Contents(): State
      reads this
    {
      State(json, scalar, cards)
    }

    /** Reads only; the statistics count every item of a present row once. */
    method PlanJsonb(js: Script, groups: seq<JsonGroup>, overwrite: bool)
      returns (changes: seq<Change>, changed: nat, existing: nat, conflicts: nat, missingRows: nat)
      ensures changes == JsonChanges(js, json, groups, overwrite)
      ensures Counted(js, json, groups, overwrite, changed, existing, conflicts, missingRows)
      ensures changed == 0 <==> changes == []
    {
      changes, changed, existing, conflicts, missingRows := [], 0, 0, 0, 0;
      for i := 0 to |groups|
        invariant changes == JsonChanges(js, json, groups[..i], overwrite)
        invariant Counted(js, json, groups[..i], overwrite, changed, existing, conflicts, missingRows)
        invariant changed == 0 <==> changes == []
      {
        JsonChangesMore(js, json, groups, i, overwrite);
        if groups[i].cell !in json {
          CountedMissing(js, json, groups, i, overwrite, changed, existing, conflicts, missingRows);
          missingRows := missingRows + 1;
          continue;
        }
        var planned, c, e, x := PlanGroup(js, groups[i], overwrite);
        CountedMore(js, json, groups, i, overwrite, changed, existing, conflicts, missingRows, c, e, x);
        changed, existing, conflicts := changed + c, existing + e, conflicts + x;
        changes := changes + planned;
      }
      assert groups[..|groups|] == groups;
    }

    /** One row: a change if some item changes its cell. */
    method PlanGroup(js: Script, group: JsonGroup, overwrite: bool)
      returns (planned: seq<Change>, changed: nat, existing: nat, conflicts: nat)
      requires group.cell in json
      ensures var change := JsonChange(js, json, group, overwrite); planned == if change.Some? then [change.value] else []
      ensures changed == 0 <==> planned == []
      ensures CountsAre(ApplyAll(js.normal, Read(js.reading, json[group.cell]), Unique(group.items), overwrite).1,
                        changed, existing, conflicts)
    {
      var original := Read(js.reading, json[group.cell]);
      var next;
      next, changed, existing, conflicts := PlanCell(js.normal, original, Unique(group.items), overwrite);
      planned := if changed > 0 then [Change(group.cell, json[group.cell], original, next)] else [];
    }

    /** All or nothing, as one transaction. */
    method ApplyChanges(p: Plan) returns (ok: bool)
      requires DistinctPlan(p)
      modifies this
      ensures ok <==>
        && (forall k | 0 <= k < |p.json| :: p.json[k].cell in old(json) && old(json)[p.json[k].cell] == p.json[k].seen)
        && (forall k | 0 <= k < |p.inserts| :: p.inserts[k].id !in old(cards))
      ensures ok ==> Wrote(old(json), json, p.json, false) && Wrote(old(scalar), scalar, p.scalar, false)
      ensures ok ==> Added(old(cards), cards, p.inserts)
      ensures Contents() == if ok then Applied(old(Contents()), p) else old(Contents())
    {
      var json0, scalar0 := json, scalar;
      var current := WriteJson(p.json);
      if !current {
        json := json0;
        return false;
      }
      WriteScalars(p.scalar, false);
      if exists k | 0 <= k < |p.inserts| :: p.inserts[k].id in cards {
        json, scalar := json0, scalar0;
        return false;
      }
      InsertCards(p.inserts);
      WriteWrote(json0, p.json, false);
      WriteWrote(scalar0, p.scalar, false);
      InsertedAdded(old(cards), p.inserts);
      ok := true;
    }

    /** The guarded update: only a cell that still holds what was planned against. */
    method WriteJson(changes: seq<Change>) returns (ok: bool)
      requires DistinctCells(changes)
      modifies this`json
      ensures ok <==> forall k | 0 <= k < |changes| :: changes[k].cell in old(json) && old(json)[changes[k].cell] == changes[k].seen
      ensures ok ==> json == Write(old(json), changes, false)
    {
      for i := 0 to |changes|
        invariant json == Write(old(json), changes[..i], false)
        invariant forall k | 0 <= k < i :: changes[k].cell in old(json) && old(json)[changes[k].cell] == changes[k].seen
      {
        assert changes[..i + 1][..i] == changes[..i];
        assert forall k | 0 <= k < i :: changes[..i][k] == changes[k];
        var change := changes[i];
        WriteExact(old(json), changes[..i], false, change.cell);
        if change.cell !in json || json[change.cell] != change.seen {
          return false;
        }
        json := json[change.cell := change.value];
      }
      assert changes[..|changes|] == changes;
      ok := true;
    }

    /** Scalar cells are not compared with what was planned against. */
    method WriteScalars(changes: seq<Change>, back: bool)
      modifies this`scalar
      ensures scalar == Write(old(scalar), changes, back)
    {
      for i := 0 to |changes|
        invariant scalar == Write(old(scalar), changes[..i], back)
      {
        assert changes[..i + 1][..i] == changes[..i];
        var change := changes[i];
        if change.cell in scalar {
          scalar := scalar[change.cell := if back then change.original else change.value];
        }
      }
      assert changes[..|changes|] == changes;
    }

    method InsertCards(inserts: seq<Insert>)
      modifies this`cards
      ensures cards == Inserted(old(cards), inserts)
    {
      for i := 0 to |inserts|
        invariant cards == Inserted(old(cards), inserts[..i])
      {
        assert inserts[..i + 1][..i] == inserts[..i];
        cards := cards[inserts[i].id := inserts[i].card];
      }
      assert inserts[..|inserts|] == inserts;
    }

    /** From the backup: the originals of all touched cells, and the ids of the inserted cards. */
    method Rollback(p: Plan)
      modifies this
      ensures Contents() == RolledBack(old(Contents()), p)
      ensures DistinctPlan(p) ==> Wrote(old(json), json, p.json, true) && Wrote(old(scalar), scalar, p.scalar, true)
      ensures forall id :: id in cards <==> id in old(cards) && forall k | 0 <= k < |p.inserts| :: p.inserts[k].id != id
      ensures forall id | id in cards :: cards[id] == old(cards)[id]
    {
      for i := 0 to |p.json|
        invariant json == Write(old(json), p.json[..i], true) && scalar == old(scalar) && cards == old(cards)
      {
        assert p.json[..i + 1][..i] == p.json[..i];
        var change := p.json[i];
        if change.cell in json {
          json := json[change.cell := change.original];
        }
      }
      assert p.json[..|p.json|] == p.json;
      WriteScalars(p.scalar, true);
      cards := cards - Ids(p.inserts);
      if DistinctPlan(p) {
        WriteWrote(old(json), p.json, true);
        WriteWrote(old(scalar), p.scalar, true);
      }
    }
  }

  function UniqueItems(json: map<Cell, Jsonb>, groups: seq<JsonGroup>): nat {
    if groups == [] then 0
    else
      var n := |groups| - 1;
      UniqueItems(json, groups[..n]) + if groups[n].cell in json then |Unique(groups[n].items)| else 0
  }

  /** The groups whose row is not there. */
  function MissingRows(json: map<Cell, Jsonb>, groups: seq<JsonGroup>): set<nat> {
    set k | 0 <= k < |groups| && groups[k].cell !in json
  }

  lemma MissingMore(json: map<Cell, Jsonb>, groups: seq<JsonGroup>, i: nat)
    requires i < |groups|
    ensures |MissingRows(json, groups[..i + 1])| == |MissingRows(json, groups[..i])| + if groups[i].cell in json then 0 else 1
  {
    assert MissingRows(json, groups[..i + 1]) == MissingRows(json, groups[..i]) + if groups[i].cell in json then {} else {i};
  }

  /** How many items of present rows come out that way. */
  function Tally(js: Script, json: map<Cell, Jsonb>, groups: seq<JsonGroup>, overwrite: bool, outcome: Outcome): nat {
    if groups == [] then 0
    else
      var n := |groups| - 1;
      Tally(js, json, groups[..n], overwrite, outcome) +
        if groups[n].cell !in json then 0
        else multiset(ApplyAll(js.normal, Read(js.reading, json[groups[n].cell]), Unique(groups[n].items), overwrite).1)[outcome]
  }

  ghost predicate Counted(js: Script, json: map<Cell, Jsonb>, groups: seq<JsonGroup>, overwrite: bool,
                          changed: nat, existing: nat, conflicts: nat, missingRows: nat) {
    && changed == Tally(js, json, groups, overwrite, Changed) && existing == Tally(js, json, groups, overwrite, Existing)
    && conflicts == Tally(js, json, groups, overwrite, Conflict)
    && changed + existing + conflicts == UniqueItems(json, groups)
    && missingRows == |MissingRows(json, groups)|
  }

  lemma JsonChangesMore(js: Script, json: map<Cell, Jsonb>, groups: seq<JsonGroup>, i: nat, overwrite: bool)
    requires i < |groups|
    ensures var change := JsonChange(js, json, groups[i], overwrite);
      JsonChanges(js, json, groups[..i + 1], overwrite)
        == JsonChanges(js, json, groups[..i], overwrite) + if change.Some? then [change.value] else []
  {
    assert groups[..i + 1][..i] == groups[..i];
  }

  lemma CountedMissing(js: Script, json: map<Cell, Jsonb>, groups: seq<JsonGroup>, i: nat, overwrite: bool,
                       changed: nat, existing: nat, conflicts: nat, missingRows: nat)
    requires i < |groups| && groups[i].cell !in json
    requires Counted(js, json, groups[..i], overwrite, changed, existing, conflicts, missingRows)
    ensures Counted(js, json, groups[..i + 1], overwrite, changed, existing, conflicts, missingRows + 1)
  {
    assert groups[..i + 1][..i] == groups[..i];
    MissingMore(json, groups, i);
  }

  lemma CountedMore(js: Script, json: map<Cell, Jsonb>, groups: seq<JsonGroup>, i: nat, overwrite: bool,
                    changed: nat, existing: nat, conflicts: nat, missingRows: nat, c: nat, e: nat, x: nat)
    requires i < |groups| && groups[i].cell in json
    requires Counted(js, json, groups[..i], overwrite, changed, existing, conflicts, missingRows)
    requires CountsAre(ApplyAll(js.normal, Read(js.reading, json[groups[i].cell]), Unique(groups[i].items), overwrite).1, c, e, x)
    ensures Counted(js, json, groups[..i + 1], overwrite, changed + c, existing + e, conflicts + x, missingRows)
  {
    assert groups[..i + 1][..i] == groups[..i];
    MissingMore(json, groups, i);
    EveryOutcome(ApplyAll(js.normal, Read(js.reading, json[groups[i].cell]), Unique(groups[i].items), overwrite).1);
  }

  lemma {:induction false} EveryOutcome(outcomes: seq<Outcome>)
    ensures multiset(outcomes)[Changed] + multiset(outcomes)[Existing] + multiset(outcomes)[Conflict] == |outcomes|
  {
    if outcomes != [] {
      var n := |outcomes| - 1;
      EveryOutcome(outcomes[..n]);
      assert outcomes == outcomes[..n] + [outcomes[n]];
      OneMore(outcomes[..n], outcomes[n], Changed);
      OneMore(outcomes[..n], outcomes[n], Existing);
      OneMore(outcomes[..n], outcomes[n], Conflict);
    }
  }

  lemma OneMore(outcomes: seq<Outcome>, outcome: Outcome, other: Outcome)
    ensures multiset(outcomes + [outcome])[other] == multiset(outcomes)[other] + if other == outcome then 1 else 0
  {
    assert multiset(outcomes + [outcome]) == multiset(outcomes) + multiset{outcome};
  }

  ghost predicate CountsAre(outcomes: seq<Outcome>, changed: nat, existing: nat, conflicts: nat) {
    var all := multiset(outcomes);
    changed == all[Changed] && existing == all[Existing] && conflicts == all[Conflict]
  }

  lemma CountsMore(outcomes: seq<Outcome>, outcome: Outcome, changed: nat, existing: nat, conflicts: nat)
    requires CountsAre(outcomes, changed, existing, conflicts)
    ensures CountsAre(outcomes + [outcome], if outcome == Changed then changed + 1 else changed,
              if outcome == Existing then existing + 1 else existing, if outcome == Conflict then conflicts + 1 else conflicts)
  {
    OneMore(outcomes, outcome, Changed);
    OneMore(outcomes, outcome, Existing);
    OneMore(outcomes, outcome, Conflict);
  }

  lemma ApplyAllStep(normal: Normal, value: Jsonb, items: seq<Item>, i: nat, overwrite: bool)
    requires i < |items|
    ensures var (before, outcomes) := ApplyAll(normal, value, items[..i], overwrite);
      var (next, outcome) := Apply(normal, before, items[i], overwrite);
      ApplyAll(normal, value, items[..i + 1], overwrite) == (next, outcomes + [outcome])
  {
    assert items[..i + 1][..i] == items[..i];
  }

  /** The items of one cell, one after the other on a clone of its value. */
  method PlanCell(normal: Normal, value: Jsonb, items: seq<Item>, overwrite: bool)
    returns (next: Jsonb, changed: nat, existing: nat, conflicts: nat)
    ensures next == ApplyAll(normal, value, items, overwrite).0
    ensures changed > 0 <==> Changed in ApplyAll(normal, value, items, overwrite).1
    ensures CountsAre(ApplyAll(normal, value, items, overwrite).1, changed, existing, conflicts)
    ensures changed + existing + conflicts == |items|
  {
    next, changed, existing, conflicts := value, 0, 0, 0;
    ghost var outcomes: seq<Outcome> := [];
    for i := 0 to |items|
      invariant (next, outcomes) == ApplyAll(normal, value, items[..i], overwrite)
      invariant CountsAre(outcomes, changed, existing, conflicts)
    {
      ApplyAllStep(normal, value, items, i, overwrite);
      var outcome;
      next, outcome := ApplyLocaleValue(normal, next, items[i], overwrite);
      changed, existing, conflicts := CountOne(outcomes, outcome, changed, existing, conflicts);
      outcomes := outcomes + [outcome];
    }
    assert items[..|items|] == items;
    EveryOutcome(outcomes);
  }

  method CountOne(ghost outcomes: seq<Outcome>, outcome: Outcome, changed: nat, existing: nat, conflicts: nat)
    returns (c: nat, e: nat, x: nat)
    requires CountsAre(outcomes, changed, existing, conflicts)
    ensures CountsAre(outcomes + [outcome], c, e, x)
  {
    CountsMore(outcomes, outcome, changed, existing, conflicts);
    c, e, x := changed, existing, conflicts;
    match outcome
    case Changed => c := c + 1;
    case Existing => e := e + 1;
    case Conflict => x := x + 1;
  }

  // ------------------------------------------------------------------------------------------------ plans are distinct

  lemma {:induction false} JsonChangesCells(js: Script, json: map<Cell, Jsonb>, groups: seq<JsonGroup>, overwrite: bool)
    requires forall i, j | 0 <= i < j < |groups| :: groups[i].cell != groups[j].cell
    ensures DistinctCells(JsonChanges(js, json, groups, overwrite))
    ensures forall change :: change in JsonChanges(js, json, groups, overwrite) <==>
      exists k :: 0 <= k < |groups| && JsonChange(js, json, groups[k], overwrite) == Some(change)
  {
    if groups != [] {
      var n := |groups| - 1;
      assert forall k | 0 <= k < n :: groups[..n][k] == groups[k];
      JsonChangesCells(js, json, groups[..n], overwrite);
      var before := JsonChanges(js, json, groups[..n], overwrite);
      forall i | 0 <= i < |before| ensures before[i].cell != groups[n].cell {
        assert before[i] in before;
      }
    }
  }

  lemma {:induction false} ScalarChangesCells(js: Script, scalar: map<Cell, Jsonb>, groups: seq<ScalarGroup>, overwrite: bool)
    requires forall i, j | 0 <= i < j < |groups| :: groups[i].cell != groups[j].cell
    ensures DistinctCells(ScalarChanges(js, scalar, groups, overwrite))
    ensures forall change :: change in ScalarChanges(js, scalar, groups, overwrite) <==>
      exists k :: 0 <= k < |groups| && ScalarChange(js, scalar, groups[k], overwrite) == Some(change)
  {
    if groups != [] {
      var n := |groups| - 1;
      assert forall k | 0 <= k < n :: groups[..n][k] == groups[k];
      ScalarChangesCells(js, scalar, groups[..n], overwrite);
      var before := ScalarChanges(js, scalar, groups[..n], overwrite);
      forall i | 0 <= i < |before| ensures before[i].cell != groups[n].cell {
        assert before[i] in before;
      }
    }
  }

  lemma {:induction false} CardInsertsIds(cards: map<CardId, Card>, groups: seq<CardGroup>, ids: CardId -> CardId)
    requires (forall i, j | 0 <= i < j < |groups| :: groups[i].row != groups[j].row) && FreshIds(cards, groups, ids)
    ensures DistinctIds(CardInserts(cards, groups, ids))
    ensures forall one :: one in CardInserts(cards, groups, ids) <==>
      exists k :: 0 <= k < |groups| && CardInsert(cards, groups[k], ids(groups[k].row)) == Some(one)
  {
    if groups != [] {
      var n := |groups| - 1;
      assert forall k | 0 <= k < n :: groups[..n][k] == groups[k];
      CardInsertsIds(cards, groups[..n], ids);
      var before := CardInserts(cards, groups[..n], ids);
      forall i | 0 <= i < |before| ensures before[i].id != ids(groups[n].row) {
        assert before[i] in before;
      }
    }
  }

  // ------------------------------------------------------------------------------------------------ what is planned

  /** Some item of the cell finds its English text there, and no translation it may not overwrite. */
  ghost predicate SomeChange(js: Script, value: Jsonb, items: seq<Item>, overwrite: bool) {
    exists k :: 0 <= k < |items| && ItemChanges(js.normal, GetAt(Read(js.reading, value), items[k].path), items[k], overwrite)
  }

  ghost predicate ItemChanges(normal: Normal, current: Option<Jsonb>, item: Item, overwrite: bool) {
    Translates(normal, current, item, overwrite) || Replaces(normal, current, item)
  }

  /** The planned value: translated where an item changes something, as it was read everywhere else. */
  ghost predicate PlannedValue(normal: Normal, original: Jsonb, items: seq<Item>, overwrite: bool, next: Jsonb) {
    && (forall k | 0 <= k < |items| ::
          var current := GetAt(original, items[k].path);
          if ItemChanges(normal, current, items[k], overwrite) then IsTranslated(current, items[k], GetAt(next, items[k].path))
          else GetAt(next, items[k].path) == current)
    && forall other: Path | (forall k | 0 <= k < |items| :: Apart(items[k].path, other)) :: GetAt(next, other) == GetAt(original, other)
  }

  /** A cell is planned if and only if it is there and some item changes it, with what it holds and the translated value. */
  lemma JsonPlanned(js: Script, json: map<Cell, Jsonb>, group: JsonGroup, overwrite: bool)
    requires AllApart(Unique(group.items))
    ensures var change := JsonChange(js, json, group, overwrite);
      && (change.Some? <==> group.cell in json && SomeChange(js, json[group.cell], Unique(group.items), overwrite))
      && (change.Some? ==>
            && change.value.cell == group.cell && change.value.seen == json[group.cell]
            && change.value.original == Read(js.reading, json[group.cell])
            && PlannedValue(js.normal, change.value.original, Unique(group.items), overwrite, change.value.value))
  {
    if group.cell in json {
      var items, original := Unique(group.items), Read(js.reading, json[group.cell]);
      var (next, outcomes) := ApplyAll(js.normal, original, items, overwrite);
      forall k | 0 <= k < |items| ensures ItemDone(js.normal, original, items[k], overwrite, next, outcomes[k]) {
        ApplyAllAt(js.normal, original, items, overwrite, k);
      }
      assert Changed in outcomes <==> exists k :: 0 <= k < |items| && outcomes[k] == Changed;
      forall other: Path | forall k | 0 <= k < |items| :: Apart(items[k].path, other) ensures GetAt(next, other) == GetAt(original, other) {
        ApplyAllOther(js.normal, original, items, overwrite, other);
      }
    }
  }

  /** A card is planned if and only if its row is there, its three clues are, and no Turkish card is of its family or made of it. */
  lemma CardPlanned(cards: map<CardId, Card>, group: CardGroup, id: CardId)
    ensures CardInsert(cards, group, id) ==
      if && group.row in cards && |group.clues| == 3 && (forall k | 0 <= k < 3 :: group.clues[k] != "")
         && forall other | other in cards && cards[other].turkish ::
              cards[other].of != Some(group.row) && (cards[other].family.Some? ==> cards[other].family != cards[group.row].family)
      then Some(Insert(id, Card(true, cards[group.row].family, Some(group.row), group.clues)))
      else None
  {
  }

  /** A text column is planned if and only if it is there, empty unless it may be overwritten, and the source column holds the
      English text, blanks aside. */
  lemma ScalarPlanned(js: Script, scalar: map<Cell, Jsonb>, group: ScalarGroup, overwrite: bool)
    requires !group.parallel
    ensures var source := if group.source in scalar && scalar[group.source].Str? then js.normal(scalar[group.source].s) else "";
      ScalarChange(js, scalar, group, overwrite) ==
        if group.cell in scalar && (scalar[group.cell] == Null || overwrite) && source == js.normal(group.first.source)
        then Some(Change(group.cell, scalar[group.cell], Read(js.reading, scalar[group.cell]), Str(group.first.translated)))
        else None
  {
  }

  /** Every item finds its text in the tree. */
  ghost predicate AllFound(normal: Normal, tree: Jsonb, items: seq<Item>) {
    forall k | 0 <= k < |items| ::
      var current := GetAt(tree, items[k].path);
      items[k].path != [] && current.Some? && current.value.Str? && normal(current.value.s) == normal(items[k].source)
  }

  /** A parallel column is the source tree with every text translated, if every text is found, and is not planned otherwise. */
  lemma {:induction false} TreePlanned(normal: Normal, tree: Jsonb, items: seq<Item>)
    requires AllApart(items) && forall k | 0 <= k < |items| :: normal(items[k].source) != ""
    ensures Translated(normal, tree, items).Some? <==> AllFound(normal, tree, items)
    ensures Translated(normal, tree, items).Some? ==>
      && (forall k | 0 <= k < |items| :: GetAt(Translated(normal, tree, items).value, items[k].path) == Some(Str(items[k].translated)))
      && forall other: Path | (forall k | 0 <= k < |items| :: Apart(items[k].path, other)) ::
           GetAt(Translated(normal, tree, items).value, other) == GetAt(tree, other)
    decreases |items|
  {
    if items != [] {
      var first, rest := items[0], items[1..];
      var current := GetAt(tree, first.path);
      if current.Some? && current.value.Str? && normal(current.value.s) == normal(first.source) && first.path != [] {
        SetThenGet(tree, first.path, Str(first.translated));
        var next := SetAt(tree, first.path, Str(first.translated)).value;
        forall other: Path | Apart(first.path, other) ensures GetAt(next, other) == GetAt(tree, other) {
          SetKeepsOthers(tree, first.path, Str(first.translated), other);
        }
        assert forall k | 0 <= k < |rest| :: rest[k] == items[k + 1] && Apart(first.path, rest[k].path) && Apart(rest[k].path, first.path);
        TreePlanned(normal, next, rest);
      }
    }
  }

  /** A plan may be applied to the state it was made of. */
  lemma PlanFits(js: Script, s: State, work: Work, overwrite: bool, ids: CardId -> CardId)
    requires Grouped(work) && FreshIds(s.cards, work.cards, ids)
    ensures var p := PlanOf(js, s, work, overwrite, ids); DistinctPlan(p) && Accepts(s, p)
  {
    var p := PlanOf(js, s, work, overwrite, ids);
    JsonChangesCells(js, s.json, work.json, overwrite);
    ScalarChangesCells(js, s.scalar, work.scalar, overwrite);
    CardInsertsIds(s.cards, work.cards, ids);
    forall k | 0 <= k < |p.json| ensures p.json[k].cell in s.json && s.json[p.json[k].cell] == p.json[k].seen {
      assert p.json[k] in p.json;
    }
    forall k | 0 <= k < |p.inserts| ensures p.inserts[k].id !in s.cards {
      assert p.inserts[k] in p.inserts;
    }
  }

  // ------------------------------------------------------------------------------------------------ rolling back

  /** Whatever happened since: touched cells get what the script had read there, all others and all other cards stay. */
  lemma RollbackTouches(s: State, p: Plan, id: CardId)
    requires DistinctPlan(p)
    ensures var back := RolledBack(s, p);
      && Wrote(s.json, back.json, p.json, true) && Wrote(s.scalar, back.scalar, p.scalar, true)
      && (id in back.cards <==> id in s.cards && forall k | 0 <= k < |p.inserts| :: p.inserts[k].id != id)
      && (id in back.cards ==> back.cards[id] == s.cards[id])
  {
    WriteWrote(s.json, p.json, true);
    WriteWrote(s.scalar, p.scalar, true);
  }

  lemma ThereAndBack(cells: map<Cell, Jsonb>, changes: seq<Change>, cell: Cell)
    requires DistinctCells(changes) && cell in cells
    ensures cell in Write(Write(cells, changes, false), changes, true)
    ensures Write(Write(cells, changes, false), changes, true)[cell] == cells[cell] <==>
      forall k | 0 <= k < |changes| && changes[k].cell == cell :: cells[cell] == changes[k].original
  {
    WriteExact(cells, changes, false, cell);
    WriteExact(Write(cells, changes, false), changes, true, cell);
  }

  lemma AllBack(cells: map<Cell, Jsonb>, changes: seq<Change>)
    requires DistinctCells(changes)
    ensures Write(Write(cells, changes, false), changes, true) == cells <==>
      forall k | 0 <= k < |changes| && changes[k].cell in cells :: cells[changes[k].cell] == changes[k].original
  {
    var back := Write(Write(cells, changes, false), changes, true);
    forall cell ensures cell in back <==> cell in cells {
      WriteExact(cells, changes, false, cell);
      WriteExact(Write(cells, changes, false), changes, true, cell);
    }
    forall cell | cell in cells
      ensures back[cell] == cells[cell] <==> forall k | 0 <= k < |changes| && changes[k].cell == cell :: cells[cell] == changes[k].original
    {
      ThereAndBack(cells, changes, cell);
    }
  }

  lemma CardsBack(cards: map<CardId, Card>, inserts: seq<Insert>)
    requires DistinctIds(inserts) && forall k | 0 <= k < |inserts| :: inserts[k].id !in cards
    ensures Inserted(cards, inserts) - Ids(inserts) == cards
  {
    forall id ensures id in Inserted(cards, inserts) - Ids(inserts) <==> id in cards
              ensures id in cards ==> Inserted(cards, inserts)[id] == cards[id] {
      InsertedExact(cards, inserts, id);
    }
  }

  /** The backup holds what the cells hold: of JSON cells, which are compared before they are written, that what was read
      is what was there; of scalar cells, which are not, that they hold it still. */
  ghost predicate BackupTrue(s: State, p: Plan) {
    && (forall k | 0 <= k < |p.json| :: p.json[k].original == p.json[k].seen)
    && (forall k | 0 <= k < |p.scalar| && p.scalar[k].cell in s.scalar :: s.scalar[p.scalar[k].cell] == p.scalar[k].original)
  }

  lemma BackIsIdentity(s: State, p: Plan)
    requires DistinctPlan(p) && Accepts(s, p)
    ensures RolledBack(Applied(s, p), p) == s <==> BackupTrue(s, p)
  {
    AllBack(s.json, p.json);
    AllBack(s.scalar, p.scalar);
    CardsBack(s.cards, p.inserts);
  }

  /** The plan writes cells whose numbers all survive being read, and no scalar cell it writes was edited since planning. */
  ghost predicate RollsBack(js: Script, planned: State, s: State, p: Plan) {
    && (forall k | 0 <= k < |p.json| :: Survives(js.reading, p.json[k].seen))
    && (forall k | 0 <= k < |p.scalar| && p.scalar[k].cell in s.scalar ::
          p.scalar[k].cell in planned.scalar && s.scalar[p.scalar[k].cell] == Read(js.reading, planned.scalar[p.scalar[k].cell]))
  }

  /**
   * Applying a plan and rolling it back is the identity exactly when every number of the planned JSON cells survives being
   * read, and every planned scalar cell still holds what was read when planning.
   */
  lemma RollbackExact(js: Script, planned: State, work: Work, overwrite: bool, ids: CardId -> CardId, s: State)
    requires Grouped(work) && FreshIds(planned.cards, work.cards, ids)
    requires var p := PlanOf(js, planned, work, overwrite, ids); DistinctPlan(p) && Accepts(s, p)
    ensures var p := PlanOf(js, planned, work, overwrite, ids);
      RolledBack(Applied(s, p), p) == s <==> RollsBack(js, planned, s, p)
  {
    var p := PlanOf(js, planned, work, overwrite, ids);
    BackIsIdentity(s, p);
    JsonChangesCells(js, planned.json, work.json, overwrite);
    ScalarChangesCells(js, planned.scalar, work.scalar, overwrite);
    forall k | 0 <= k < |p.json| ensures p.json[k].original == p.json[k].seen <==> Survives(js.reading, p.json[k].seen) {
      assert p.json[k] in p.json;
      ReadExact(js.reading, p.json[k].seen);
    }
    forall k | 0 <= k < |p.scalar|
      ensures p.scalar[k].cell in planned.scalar && p.scalar[k].original == Read(js.reading, planned.scalar[p.scalar[k].cell])
    {
      assert p.scalar[k] in p.scalar;
    }
  }

  /** Applied at once: exactly when every number of every planned cell survives. */
  lemma RollbackAtOnce(js: Script, s: State, work: Work, overwrite: bool, ids: CardId -> CardId)
    requires Grouped(work) && FreshIds(s.cards, work.cards, ids)
    ensures var p := PlanOf(js, s, work, overwrite, ids);
      RolledBack(Applied(s, p), p) == s <==>
        && (forall k | 0 <= k < |p.json| :: Survives(js.reading, p.json[k].seen))
        && (forall k | 0 <= k < |p.scalar| :: Survives(js.reading, p.scalar[k].seen))
  {
    var p := PlanOf(js, s, work, overwrite, ids);
    PlanFits(js, s, work, overwrite, ids);
    RollbackExact(js, s, work, overwrite, ids, s);
    ScalarChangesCells(js, s.scalar, work.scalar, overwrite);
    forall k | 0 <= k < |p.scalar|
      ensures p.scalar[k].cell in s.scalar
      ensures s.scalar[p.scalar[k].cell] == Read(js.reading, s.scalar[p.scalar[k].cell]) <==> Survives(js.reading, p.scalar[k].seen)
    {
      assert p.scalar[k] in p.scalar;
      ReadExact(js.reading, p.scalar[k].seen);
    }
  }

  /** A cell with a number beside an English text, and with the text translated. */
  function Beside(digits: string, text: Jsonb): Jsonb {
    Obj(map["n" := Num(digits), "name" := text])
  }

  lemma BesideRead(js: Script, digits: string)
    ensures Read(js.reading, Beside(digits, Str("X"))) == Beside(js.reading(digits), Str("X"))
  {
    var fields := Beside(digits, Str("X")).fields;
    var read := Read(js.reading, Obj(fields)).fields;
    assert Read(js.reading, fields["n"]) == Num(js.reading(digits)) && Read(js.reading, fields["name"]) == Str("X");
    assert read.Keys == {"n", "name"} && read["n"] == Read(js.reading, fields["n"]) && read["name"] == Read(js.reading, fields["name"]);
    assert read == map["n" := Num(js.reading(digits)), "name" := Str("X")];
  }

  lemma BesideTranslated(js: Script, digits: string)
    ensures Unique([Item([Name("name")], "X", "T")]) == [Item([Name("name")], "X", "T")]
    ensures ApplyAll(js.normal, Beside(digits, Str("X")), [Item([Name("name")], "X", "T")], false)
         == (Beside(digits, Obj(map["en" := Str("X"), "tr" := Str("T")])), [Changed])
  {
    var root, item := Beside(digits, Str("X")), Item([Name("name")], "X", "T");
    var field := Obj(map["en" := Str("X"), "tr" := Str("T")]);
    assert item.path[1..] == [] && [item][..0] == [] && Unique([]) == [];
    assert GetAt(root, item.path) == Some(Str("X"));
    assert root.fields["name" := field] == Beside(digits, field).fields;
    assert Apply(js.normal, root, item, false) == (Beside(digits, field), Changed);
    assert ApplyAll(js.normal, root, [], false) == (root, []);
    var outcomes: seq<Outcome> := [];
    assert outcomes + [Changed] == [Changed];
    assert ApplyAll(js.normal, root, [item], false) == (Beside(digits, field), outcomes + [Changed]);
  }

  /** A number that does not survive being read is lost beside a translated text, with no scalar in sight: by applying, and
      by rolling back. An integer above 2^53 is one. */
  lemma LargeNumberLost(js: Script, cell: Cell, digits: string)
    requires js.reading(digits) != digits
    ensures
      var s := State(map[cell := Beside(digits, Str("X"))], map[], map[]);
      var work := Work([JsonGroup(cell, [Item([Name("name")], "X", "T")])], [], []);
      var p := PlanOf(js, s, work, false, id => id);
      && Accepts(s, p) && p.scalar == []
      && Applied(s, p).json == map[cell := Beside(js.reading(digits), Obj(map["en" := Str("X"), "tr" := Str("T")]))]
      && RolledBack(Applied(s, p), p).json == map[cell := Beside(js.reading(digits), Str("X"))]
      && RolledBack(Applied(s, p), p) != s
  {
    var stored, original := Beside(digits, Str("X")), Beside(js.reading(digits), Str("X"));
    var next := Beside(js.reading(digits), Obj(map["en" := Str("X"), "tr" := Str("T")]));
    BesidePlan(js, cell, digits);
    OneChange(Change(cell, stored, original, next));
    assert stored.fields["n"] != original.fields["n"];
  }

  lemma BesidePlan(js: Script, cell: Cell, digits: string)
    ensures
      var s := State(map[cell := Beside(digits, Str("X"))], map[], map[]);
      var next := Beside(js.reading(digits), Obj(map["en" := Str("X"), "tr" := Str("T")]));
      PlanOf(js, s, Work([JsonGroup(cell, [Item([Name("name")], "X", "T")])], [], []), false, id => id)
        == Plan([Change(cell, Beside(digits, Str("X")), Beside(js.reading(digits), Str("X")), next)], [], [])
  {
    var group := JsonGroup(cell, [Item([Name("name")], "X", "T")]);
    var s := State(map[cell := Beside(digits, Str("X"))], map[], map[]);
    BesideRead(js, digits);
    BesideTranslated(js, js.reading(digits));
    var next := Beside(js.reading(digits), Obj(map["en" := Str("X"), "tr" := Str("T")]));
    var change := Change(cell, Beside(digits, Str("X")), Beside(js.reading(digits), Str("X")), next);
    assert JsonChange(js, s.json, group, false) == Some(change);
    assert [group][..0] == [] && JsonChanges(js, s.json, [], false) == [];
    assert JsonChanges(js, s.json, [group], false) == [] + [change] == [change];
  }

  lemma OneChange(change: Change)
    ensures Write(map[change.cell := change.seen], [change], false) == map[change.cell := change.value]
    ensures Write(map[change.cell := change.value], [change], true) == map[change.cell := change.original]
  {
    assert [change][..0] == [];
  }

  // ------------------------------------------------------------------------------------------------ planning again

  /** Within a cell no path is inside another and no translation is blank. */
  ghost predicate Clear(normal: Normal, items: seq<Item>) {
    AllApart(Unique(items)) && forall k | 0 <= k < |Unique(items)| :: normal(Unique(items)[k].translated) != ""
  }

  lemma SomeMember<T>(list: seq<T>)
    ensures list == [] || list[0] in list
  {
  }

  lemma JsonAgain(js: Script, json: map<Cell, Jsonb>, group: JsonGroup, overwrite: bool)
    requires group.cell in json && Clear(js.normal, group.items) && ReadsOnce(js.reading)
    ensures var change := JsonChange(js, json, group, overwrite);
      forall after: map<Cell, Jsonb> | group.cell in after
        && after[group.cell] == (if change.Some? then change.value.value else json[group.cell]) :: JsonChange(js, after, group, false) == None
  {
    var items := Unique(group.items);
    var original := Read(js.reading, json[group.cell]);
    var (next, first) := ApplyAll(js.normal, original, items, overwrite);
    if Changed !in first {
      UnchangedWhole(js.normal, original, items, overwrite);
    }
    ReadSurvives(js.reading, json[group.cell]);
    ApplyAllSurvives(js.reading, js.normal, original, items, overwrite);
    ReadExact(js.reading, next);
    ReplanExact(js.normal, original, items, overwrite);
    var again := ApplyAll(js.normal, next, items, false).1;
    forall k | 0 <= k < |items| ensures again[k] != Changed {
      assert js.normal(items[k].translated) != "";
    }
  }

  lemma JsonGroupAgain(js: Script, json: map<Cell, Jsonb>, groups: seq<JsonGroup>, overwrite: bool, k: nat)
    requires forall i, j | 0 <= i < j < |groups| :: groups[i].cell != groups[j].cell
    requires k < |groups| && Clear(js.normal, groups[k].items) && ReadsOnce(js.reading)
    ensures JsonChange(js, Write(json, JsonChanges(js, json, groups, overwrite), false), groups[k], false) == None
  {
    var changes := JsonChanges(js, json, groups, overwrite);
    var cell := groups[k].cell;
    JsonChangesCells(js, json, groups, overwrite);
    WriteExact(json, changes, false, cell);
    if cell in json {
      JsonAgain(js, json, groups[k], overwrite);
      var change := JsonChange(js, json, groups[k], overwrite);
      if change.Some? {
        assert change.value in changes;
        var i :| 0 <= i < |changes| && changes[i] == change.value;
        assert changes[i].cell == cell;
      } else {
        forall i | 0 <= i < |changes| ensures changes[i].cell != cell {
          assert changes[i] in changes;
        }
      }
    }
  }

  lemma JsonPlanAgain(js: Script, json: map<Cell, Jsonb>, groups: seq<JsonGroup>, overwrite: bool)
    requires forall i, j | 0 <= i < j < |groups| :: groups[i].cell != groups[j].cell
    requires ReadsOnce(js.reading) && forall k | 0 <= k < |groups| :: Clear(js.normal, groups[k].items)
    ensures JsonChanges(js, Write(json, JsonChanges(js, json, groups, overwrite), false), groups, false) == []
  {
    var after := Write(json, JsonChanges(js, json, groups, overwrite), false);
    JsonChangesCells(js, after, groups, false);
    forall k | 0 <= k < |groups| ensures JsonChange(js, after, groups[k], false) == None {
      JsonGroupAgain(js, json, groups, overwrite, k);
    }
    SomeMember(JsonChanges(js, after, groups, false));
  }

  lemma {:induction false} TranslatedIsTree(normal: Normal, tree: Jsonb, items: seq<Item>)
    requires items != [] && Translated(normal, tree, items).Some?
    ensures Container(Translated(normal, tree, items).value)
    decreases |items|
  {
    var next := SetAt(tree, items[0].path, Str(items[0].translated)).value;
    assert Container(next);
    if |items| > 1 {
      TranslatedIsTree(normal, next, items[1..]);
    } else {
      assert items[1..] == [];
    }
  }

  lemma ScalarWritesValue(normal: Normal, source: Jsonb, group: ScalarGroup)
    ensures ScalarValue(normal, source, group).Some? ==> ScalarValue(normal, source, group).value != Null
  {
    if group.parallel && ScalarValue(normal, source, group).Some? {
      TranslatedIsTree(normal, source, [group.first] + group.more);
    }
  }

  lemma ScalarGroupAgain(js: Script, scalar: map<Cell, Jsonb>, groups: seq<ScalarGroup>, overwrite: bool, k: nat)
    requires forall i, j | 0 <= i < j < |groups| :: groups[i].cell != groups[j].cell
    requires forall i, j | 0 <= i < |groups| && 0 <= j < |groups| :: groups[i].source != groups[j].cell
    requires k < |groups|
    ensures ScalarChange(js, Write(scalar, ScalarChanges(js, scalar, groups, overwrite), false), groups[k], false) == None
  {
    var changes := ScalarChanges(js, scalar, groups, overwrite);
    var group := groups[k];
    ScalarChangesCells(js, scalar, groups, overwrite);
    forall i | 0 <= i < |changes| ensures changes[i].cell != group.source {
      assert changes[i] in changes;
    }
    WriteExact(scalar, changes, false, group.cell);
    WriteExact(scalar, changes, false, group.source);
    var change := ScalarChange(js, scalar, group, overwrite);
    if change.Some? {
      assert change.value in changes;
      var i :| 0 <= i < |changes| && changes[i] == change.value;
      assert changes[i].cell == group.cell;
      ScalarWritesValue(js.normal, SourceOf(js, scalar, group), group);
    } else {
      forall i | 0 <= i < |changes| ensures changes[i].cell != group.cell {
        assert changes[i] in changes;
      }
    }
  }

  lemma ScalarPlanAgain(js: Script, scalar: map<Cell, Jsonb>, groups: seq<ScalarGroup>, overwrite: bool)
    requires forall i, j | 0 <= i < j < |groups| :: groups[i].cell != groups[j].cell
    requires forall i, j | 0 <= i < |groups| && 0 <= j < |groups| :: groups[i].source != groups[j].cell
    ensures ScalarChanges(js, Write(scalar, ScalarChanges(js, scalar, groups, overwrite), false), groups, false) == []
  {
    var after := Write(scalar, ScalarChanges(js, scalar, groups, overwrite), false);
    ScalarChangesCells(js, after, groups, false);
    forall k | 0 <= k < |groups| ensures ScalarChange(js, after, groups[k], false) == None {
      ScalarGroupAgain(js, scalar, groups, overwrite, k);
    }
    SomeMember(ScalarChanges(js, after, groups, false));
  }

  lemma CardPlanAgain(cards: map<CardId, Card>, groups: seq<CardGroup>, ids: CardId -> CardId, later: CardId -> CardId)
    requires (forall i, j | 0 <= i < j < |groups| :: groups[i].row != groups[j].row)
    requires FreshIds(cards, groups, ids) && FreshIds(Inserted(cards, CardInserts(cards, groups, ids)), groups, later)
    ensures CardInserts(Inserted(cards, CardInserts(cards, groups, ids)), groups, later) == []
  {
    var inserts := CardInserts(cards, groups, ids);
    var after := Inserted(cards, inserts);
    CardInsertsIds(cards, groups, ids);
    CardInsertsIds(after, groups, later);
    forall k | 0 <= k < |groups| ensures CardInsert(after, groups[k], later(groups[k].row)) == None {
      var row := groups[k].row;
      assert row !in Ids(inserts) by {
        forall i | 0 <= i < |inserts| ensures inserts[i].id != row {
          assert inserts[i] in inserts;
        }
      }
      InsertedExact(cards, inserts, row);
      var one := CardInsert(cards, groups[k], ids(row));
      if one.Some? {
        assert one.value in inserts;
        var i :| 0 <= i < |inserts| && inserts[i] == one.value;
        InsertedExact(cards, inserts, inserts[i].id);
        assert after[inserts[i].id].turkish && after[inserts[i].id].of == Some(row);
      } else if row in cards && HasTurkish(cards, row, cards[row].family) {
        var id :| id in cards && cards[id].turkish && ((cards[row].family.Some? && cards[id].family == cards[row].family) || cards[id].of == Some(row));
        assert id !in Ids(inserts) by {
          forall i | 0 <= i < |inserts| ensures inserts[i].id != id {
            assert inserts[i] in inserts;
          }
        }
        InsertedExact(cards, inserts, id);
        assert after[id] == cards[id];
      }
    }
    var again := CardInserts(after, groups, later);
    SomeMember(again);
  }

  /** Planning again over what was applied, without overwriting, plans nothing at all. */
  lemma ReplanNothing(js: Script, s: State, work: Work, overwrite: bool, ids: CardId -> CardId, later: CardId -> CardId)
    requires Grouped(work) && FreshIds(s.cards, work.cards, ids)
    requires ReadsOnce(js.reading) && forall k | 0 <= k < |work.json| :: Clear(js.normal, work.json[k].items)
    requires forall i, j | 0 <= i < |work.scalar| && 0 <= j < |work.scalar| :: work.scalar[i].source != work.scalar[j].cell
    requires FreshIds(Applied(s, PlanOf(js, s, work, overwrite, ids)).cards, work.cards, later)
    ensures PlanOf(js, Applied(s, PlanOf(js, s, work, overwrite, ids)), work, false, later) == Plan([], [], [])
  {
    JsonPlanAgain(js, s.json, work.json, overwrite);
    ScalarPlanAgain(js, s.scalar, work.scalar, overwrite);
    CardPlanAgain(s.cards, work.cards, ids, later);
  }
}
