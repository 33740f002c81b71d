/** A translation written into a JSON tree at a path, and what planning the same translations again finds. */
module LocaleTree {
  import opened Wrappers

  /** A path goes through objects by name and through arrays by index. */
  datatype Part = Name(name: string) | Index(i: nat)

  type Path = seq<Part>

  /** A number is its digits, as the database keeps them. */
  datatype Jsonb = Null | Bool(b: bool) | Num(digits: string) | Str(s: string) | Arr(items: seq<Jsonb>) | Obj(fields: map<string, Jsonb>)

  /** `normalized`: blanks trimmed and collapsed. */
  type Normal = string -> string

  /** What JavaScript makes of a number: the digits it prints after reading these. */
  type Reading = string -> string

  datatype Item = Item(path: Path, source: string, translated: string)

  datatype Outcome = Changed | Existing | Conflict

  // ------------------------------------------------------------------------------------------------ paths

  predicate Container(node: Jsonb) {
    node.Arr? || node.Obj?
  }

  function Child(node: Jsonb, part: Part): Option<Jsonb> {
    match (node, part)
    case (Obj(fields), Name(name)) => if name in fields then Some(fields[name]) else None
    case (Arr(items), Index(i)) => if i < |items| then Some(items[i]) else None
    case _ => None
  }

  /** An assignment past the end of an array leaves holes, stored as null; a named property of an array is not stored. */
  function Put(node: Jsonb, part: Part, value: Jsonb): Jsonb
    requires Container(node)
  {
    match (node, part)
    case (Obj(fields), Name(name)) => Obj(fields[name := value])
    case (Arr(items), Index(i)) => if i < |items| then Arr(items[i := value]) else Arr(items + seq(i - |items|, _ => Null) + [value])
    case _ => node
  }

  function GetAt(node: Jsonb, path: Path): Option<Jsonb> {
    if path == [] then Some(node)
    else match Child(node, path[0])
         case None => None
         case Some(child) => GetAt(child, path[1..])
  }

  /** The tree with the value written, None when the path does not lead to a container. */
  function SetAt(node: Jsonb, path: Path, value: Jsonb): Option<Jsonb> {
    if path == [] || !Container(node) then None
    else if |path| == 1 then Some(Put(node, path[0], value))
    else match Child(node, path[0])
         case None => None
         case Some(child) =>
           match SetAt(child, path[1..], value)
           case None => None
           case Some(next) => Some(Put(node, path[0], next))
  }

  ghost predicate Apart(p: Path, q: Path) {
    !(p <= q) && !(q <= p)
  }

  lemma PutLaws(node: Jsonb, part: Part, value: Jsonb, other: Part)
    requires Child(node, part).Some?
    ensures Child(Put(node, part, value), other) == if other == part then Some(value) else Child(node, other)
  {
  }

  /** What was written is what is found, where something was before. */
  lemma {:induction false} SetThenGet(node: Jsonb, path: Path, value: Jsonb)
    requires path != [] && GetAt(node, path).Some?
    ensures SetAt(node, path, value).Some? && GetAt(SetAt(node, path, value).value, path) == Some(value)
  {
    if |path| > 1 {
      SetThenGet(Child(node, path[0]).value, path[1..], value);
    }
  }

  /** A write is seen only by paths that share it. */
  lemma {:induction false} SetKeepsOthers(node: Jsonb, path: Path, value: Jsonb, other: Path)
    requires path != [] && GetAt(node, path).Some? && Apart(path, other)
    ensures SetAt(node, path, value).Some? && GetAt(SetAt(node, path, value).value, other) == GetAt(node, other)
  {
    var child := Child(node, path[0]).value;
    if |path| == 1 {
      PutLaws(node, path[0], value, other[0]);
    } else if path[0] == other[0] {
      assert path == [path[0]] + path[1..] && other == [other[0]] + other[1..];
      assert Apart(path[1..], other[1..]);
      SetKeepsOthers(child, path[1..], value, other[1..]);
    } else {
      SetThenGet(child, path[1..], value);
      PutLaws(node, path[0], SetAt(child, path[1..], value).value, other[0]);
    }
  }

  method GetAtPath(root: Jsonb, path: Path) returns (found: Option<Jsonb>)
    ensures found == GetAt(root, path)
  {
    var current := root;
    for k := 0 to |path|
      invariant GetAt(root, path) == GetAt(current, path[k..])
    {
      assert path[k..][1..] == path[k + 1..];
      var child := Child(current, path[k]);
      if child.None? {
        return None;
      }
      current := child.value;
    }
    found := Some(current);
  }

  // ------------------------------------------------------------------------------------------------ reading

  /** A stored value as the script holds it: every number has been read. */
  function Read(reading: Reading, value: Jsonb): Jsonb {
    match value
    case Num(digits) => Num(reading(digits))
    case Arr(items) => Arr(seq(|items|, i requires 0 <= i < |items| => Read(reading, items[i])))
    case Obj(fields) => Obj(map name | name in fields :: Read(reading, fields[name]))
    case _ => value
  }

  /** Every number in the value survives the reading. */
  ghost predicate Survives(reading: Reading, value: Jsonb) {
    match value
    case Num(digits) => reading(digits) == digits
    case Arr(items) => forall i | 0 <= i < |items| :: Survives(reading, items[i])
    case Obj(fields) => forall name | name in fields :: Survives(reading, fields[name])
    case _ => true
  }

  /** Reading a printed reading changes nothing more. */
  ghost predicate ReadsOnce(reading: Reading) {
    forall digits :: reading(reading(digits)) == reading(digits)
  }

  /** A value is read as it is exactly when all its numbers survive. */
  lemma {:induction false} ReadExact(reading: Reading, value: Jsonb)
    ensures Read(reading, value) == value <==> Survives(reading, value)
  {
    match value {
      case Arr(items) =>
        forall i | 0 <= i < |items| ensures Read(reading, items[i]) == items[i] <==> Survives(reading, items[i]) {
          ReadExact(reading, items[i]);
        }
        var read := Read(reading, value).items;
        assert forall i | 0 <= i < |items| :: read[i] == Read(reading, items[i]);
      case Obj(fields) =>
        forall name | name in fields ensures Read(reading, fields[name]) == fields[name] <==> Survives(reading, fields[name]) {
          ReadExact(reading, fields[name]);
        }
        var read := Read(reading, value).fields;
        assert read.Keys == fields.Keys && forall name | name in fields :: read[name] == Read(reading, fields[name]);
      case _ =>
    }
  }

  /** What is found in a value as it is read: numbers as they are read, everything else as it is stored. */
  ghost predicate ReadAs(reading: Reading, stored: Option<Jsonb>, read: Option<Jsonb>) {
    match (stored, read)
    case (None, None) => true
    case (Some(Num(d)), Some(Num(e))) => e == reading(d)
    case (Some(Arr(items)), Some(Arr(others))) => |items| == |others|
    case (Some(Obj(fields)), Some(Obj(others))) => fields.Keys == others.Keys
    case (Some(v), Some(w)) => v == w && (v.Null? || v.Bool? || v.Str?)
    case _ => false
  }

  lemma {:induction false} ReadAt(reading: Reading, value: Jsonb, path: Path)
    ensures ReadAs(reading, GetAt(value, path), GetAt(Read(reading, value), path))
    decreases |path|
  {
    if path != [] {
      var child := Child(value, path[0]);
      assert Child(Read(reading, value), path[0]) == if child.Some? then Some(Read(reading, child.value)) else None;
      if child.Some? {
        ReadAt(reading, child.value, path[1..]);
      }
    }
  }

  lemma {:induction false} ReadSurvives(reading: Reading, value: Jsonb)
    requires ReadsOnce(reading)
    ensures Survives(reading, Read(reading, value))
  {
    match value {
      case Arr(items) =>
        forall i | 0 <= i < |items| ensures Survives(reading, Read(reading, items[i])) {
          ReadSurvives(reading, items[i]);
        }
      case Obj(fields) =>
        forall name | name in fields ensures Survives(reading, Read(reading, fields[name])) {
          ReadSurvives(reading, fields[name]);
        }
      case _ =>
    }
  }

  lemma {:induction false} GetSurvives(reading: Reading, node: Jsonb, path: Path)
    requires Survives(reading, node) && GetAt(node, path).Some?
    ensures Survives(reading, GetAt(node, path).value)
  {
    if path != [] {
      GetSurvives(reading, Child(node, path[0]).value, path[1..]);
    }
  }

  lemma {:induction false} SetSurvives(reading: Reading, node: Jsonb, path: Path, value: Jsonb)
    requires Survives(reading, node) && Survives(reading, value) && SetAt(node, path, value).Some?
    ensures Survives(reading, SetAt(node, path, value).value)
  {
    if |path| > 1 {
      SetSurvives(reading, Child(node, path[0]).value, path[1..], value);
    }
  }

  // ------------------------------------------------------------------------------------------------ one translation

  /** `normalized` of anything that is not a string is the empty string. */
  function NormalAt(normal: Normal, fields: map<string, Jsonb>, name: string): string {
    if name in fields && fields[name].Str? then normal(fields[name].s) else ""
  }

  /** The decision, from the value at the item's path; with Changed comes the new value. */
  function Local(normal: Normal, current: Option<Jsonb>, item: Item, overwrite: bool): (Outcome, Jsonb) {
    match current
    case Some(Obj(fields)) =>
      if NormalAt(normal, fields, "en") != normal(item.source) then (Conflict, Null)
      else if NormalAt(normal, fields, "tr") != "" && !overwrite then
        (if NormalAt(normal, fields, "tr") == normal(item.translated) then Existing else Conflict, Null)
      else (Changed, Obj(fields["tr" := Str(item.translated)]))
    case Some(Str(text)) =>
      if normal(text) == normal(item.source) && item.path != [] then
        (Changed, Obj(map["en" := Str(text), "tr" := Str(item.translated)]))
      else (Conflict, Null)
    case _ => (Conflict, Null)
  }

  /** The object's text of a language is `text`, blanks aside; no text counts as a blank one. */
  ghost predicate Says(normal: Normal, fields: map<string, Jsonb>, name: string, text: string) {
    if name in fields && fields[name].Str? then normal(fields[name].s) == text else text == ""
  }

  /** An object with the item's English text, and without a Turkish one unless that is to be overwritten. */
  ghost predicate Translates(normal: Normal, current: Option<Jsonb>, item: Item, overwrite: bool) {
    && current.Some? && current.value.Obj? && Says(normal, current.value.fields, "en", normal(item.source))
    && (overwrite || Says(normal, current.value.fields, "tr", ""))
  }

  /** The English text itself, below the root. */
  ghost predicate Replaces(normal: Normal, current: Option<Jsonb>, item: Item) {
    current.Some? && current.value.Str? && normal(current.value.s) == normal(item.source) && item.path != []
  }

  /** The translation is there already. */
  ghost predicate Stands(normal: Normal, current: Option<Jsonb>, item: Item) {
    && current.Some? && current.value.Obj? && Says(normal, current.value.fields, "en", normal(item.source))
    && !Says(normal, current.value.fields, "tr", "") && Says(normal, current.value.fields, "tr", normal(item.translated))
  }

  ghost predicate Decides(normal: Normal, current: Option<Jsonb>, item: Item, overwrite: bool, outcome: Outcome) {
    && (outcome == Changed <==> Translates(normal, current, item, overwrite) || Replaces(normal, current, item))
    && (outcome == Existing <==> !overwrite && Stands(normal, current, item))
  }

  /** The translation beside the English text, which stays as it was. */
  ghost predicate IsTranslated(current: Option<Jsonb>, item: Item, next: Option<Jsonb>) {
    && (current.Some? && current.value.Obj? ==> next == Some(Obj(current.value.fields["tr" := Str(item.translated)])))
    && (current.Some? && current.value.Str? ==>
          next == Some(Obj(map["en" := Str(current.value.s), "tr" := Str(item.translated)])))
  }

  lemma LocalDecides(normal: Normal, current: Option<Jsonb>, item: Item, overwrite: bool)
    ensures var (outcome, value) := Local(normal, current, item, overwrite);
      Decides(normal, current, item, overwrite, outcome) && (outcome == Changed ==> IsTranslated(current, item, Some(value)))
  {
  }

  /** What becomes of an item: the decision on the value found at its path, the translation there, or the value as it was. */
  ghost predicate ItemDone(normal: Normal, root: Jsonb, item: Item, overwrite: bool, next: Jsonb, outcome: Outcome) {
    && Decides(normal, GetAt(root, item.path), item, overwrite, outcome)
    && (if outcome == Changed then IsTranslated(GetAt(root, item.path), item, GetAt(next, item.path))
        else GetAt(next, item.path) == GetAt(root, item.path))
  }

  /** Paths that are neither inside nor around this one find what they found before. */
  ghost predicate KeepsApart(root: Jsonb, path: Path, next: Jsonb) {
    forall other | Apart(path, other) :: GetAt(next, other) == GetAt(root, other)
  }

  method ApplyLocaleValue(normal: Normal, root: Jsonb, item: Item, overwrite: bool) returns (next: Jsonb, outcome: Outcome)
    ensures ItemDone(normal, root, item, overwrite, next, outcome) && KeepsApart(root, item.path, next)
    ensures outcome != Changed ==> next == root
    ensures (next, outcome) == Apply(normal, root, item, overwrite)
  {
    ApplyLaws(normal, root, item, overwrite);
    LocalDecides(normal, GetAt(root, item.path), item, overwrite);
    var current := GetAtPath(root, item.path);
    var (o, value) := Local(normal, current, item, overwrite);
    next, outcome := root, o;
    if outcome == Changed {
      if item.path == [] {
        next := value;
      } else {
        var written := SetAt(root, item.path, value);
        next := written.value;
      }
    }
  }

  function Apply(normal: Normal, root: Jsonb, item: Item, overwrite: bool): (Jsonb, Outcome) {
    var (outcome, value) := Local(normal, GetAt(root, item.path), item, overwrite);
    if outcome != Changed then (root, outcome)
    else if item.path == [] then (value, Changed)
    else match SetAt(root, item.path, value)
         case Some(next) => (next, Changed)
         case None => (root, Conflict)
  }

  /** Decided by the value at the path, seen only there; the write never fails. */
  lemma ApplyLaws(normal: Normal, root: Jsonb, item: Item, overwrite: bool)
    ensures var (next, outcome) := Apply(normal, root, item, overwrite);
      var (decided, value) := Local(normal, GetAt(root, item.path), item, overwrite);
      && outcome == decided
      && GetAt(next, item.path) == (if decided == Changed then Some(value) else GetAt(root, item.path))
      && (item.path != [] && decided == Changed ==> SetAt(root, item.path, value).Some?)
      && forall other | Apart(item.path, other) :: GetAt(next, other) == GetAt(root, other)
  {
    var (decided, value) := Local(normal, GetAt(root, item.path), item, overwrite);
    if decided == Changed && item.path != [] {
      SetThenGet(root, item.path, value);
      forall other | Apart(item.path, other) ensures GetAt(Apply(normal, root, item, overwrite).0, other) == GetAt(root, other) {
        SetKeepsOthers(root, item.path, value, other);
      }
    }
  }

  /** A translation brings in no number. */
  lemma ApplySurvives(reading: Reading, normal: Normal, root: Jsonb, item: Item, overwrite: bool)
    requires Survives(reading, root)
    ensures Survives(reading, Apply(normal, root, item, overwrite).0)
  {
    var current := GetAt(root, item.path);
    var (decided, value) := Local(normal, current, item, overwrite);
    if current.Some? {
      GetSurvives(reading, root, item.path);
    }
    if decided == Changed {
      assert Survives(reading, value);
      if item.path != [] && SetAt(root, item.path, value).Some? {
        SetSurvives(reading, root, item.path, value);
      }
    }
  }

  // ------------------------------------------------------------------------------------------------ all of a cell

  function ApplyAll(normal: Normal, root: Jsonb, items: seq<Item>, overwrite: bool): (r: (Jsonb, seq<Outcome>))
    ensures |r.1| == |items|
  {
    if items == [] then (root, [])
    else
      var n := |items| - 1;
      var (before, outcomes) := ApplyAll(normal, root, items[..n], overwrite);
      var (next, outcome) := Apply(normal, before, items[n], overwrite);
      (next, outcomes + [outcome])
  }

  /** No path is a prefix of another. */
  ghost predicate AllApart(items: seq<Item>) {
    forall i, j | 0 <= i < j < |items| :: Apart(items[i].path, items[j].path)
  }

  lemma {:induction false} ApplyAllOther(normal: Normal, root: Jsonb, items: seq<Item>, overwrite: bool, other: Path)
    requires forall k | 0 <= k < |items| :: Apart(items[k].path, other)
    ensures GetAt(ApplyAll(normal, root, items, overwrite).0, other) == GetAt(root, other)
  {
    if items != [] {
      var n := |items| - 1;
      assert forall k | 0 <= k < n :: items[..n][k] == items[k];
      ApplyAllOther(normal, root, items[..n], overwrite, other);
      ApplyLaws(normal, ApplyAll(normal, root, items[..n], overwrite).0, items[n], overwrite);
    }
  }

  /** Every item decides on the value the cell had at its path before any of them, and its value stays. */
  lemma {:induction false} ApplyAllAt(normal: Normal, root: Jsonb, items: seq<Item>, overwrite: bool, k: nat)
    requires AllApart(items) && k < |items|
    ensures var (next, outcomes) := ApplyAll(normal, root, items, overwrite);
      var (decided, value) := Local(normal, GetAt(root, items[k].path), items[k], overwrite);
      outcomes[k] == decided && GetAt(next, items[k].path) == if decided == Changed then Some(value) else GetAt(root, items[k].path)
    ensures ItemDone(normal, root, items[k], overwrite, ApplyAll(normal, root, items, overwrite).0, ApplyAll(normal, root, items, overwrite).1[k])
  {
    LocalDecides(normal, GetAt(root, items[k].path), items[k], overwrite);
    var n := |items| - 1;
    assert forall j | 0 <= j < n :: items[..n][j] == items[j];
    ApplyLaws(normal, ApplyAll(normal, root, items[..n], overwrite).0, items[n], overwrite);
    if k < n {
      ApplyAllAt(normal, root, items[..n], overwrite, k);
      assert Apart(items[k].path, items[n].path) && Apart(items[n].path, items[k].path);
    } else {
      ApplyAllOther(normal, root, items[..n], overwrite, items[n].path);
    }
  }

  lemma {:induction false} ApplyAllSurvives(reading: Reading, normal: Normal, root: Jsonb, items: seq<Item>, overwrite: bool)
    requires Survives(reading, root)
    ensures Survives(reading, ApplyAll(normal, root, items, overwrite).0)
  {
    if items != [] {
      var n := |items| - 1;
      ApplyAllSurvives(reading, normal, root, items[..n], overwrite);
      ApplySurvives(reading, normal, ApplyAll(normal, root, items[..n], overwrite).0, items[n], overwrite);
    }
  }

  lemma {:induction false} UnchangedWhole(normal: Normal, root: Jsonb, items: seq<Item>, overwrite: bool)
    requires forall k | 0 <= k < |items| :: ApplyAll(normal, root, items, overwrite).1[k] != Changed
    ensures ApplyAll(normal, root, items, overwrite).0 == root
  {
    if items != [] {
      var n := |items| - 1;
      var (before, outcomes) := ApplyAll(normal, root, items[..n], overwrite);
      var all := ApplyAll(normal, root, items, overwrite).1;
      assert all[n] != Changed;
      forall k | 0 <= k < n ensures outcomes[k] != Changed {
        assert all[k] == outcomes[k];
      }
      UnchangedWhole(normal, root, items[..n], overwrite);
    }
  }

  /** The same decision over its own result. */
  lemma LocalAgain(normal: Normal, current: Option<Jsonb>, item: Item, overwrite: bool)
    ensures var (decided, value) := Local(normal, current, item, overwrite);
      (decided == Changed ==> Local(normal, Some(value), item, false).0 == if normal(item.translated) == "" then Changed else Existing)
      && (decided != Changed ==> Local(normal, current, item, false).0 == decided)
  {
  }

  /**
   * Planning again over the result, without overwriting: an item changes something again exactly when it did the first
   * time and its translation is blank; every other one is now there already, or the conflict it was.
   */
  lemma ReplanExact(normal: Normal, root: Jsonb, items: seq<Item>, overwrite: bool)
    requires AllApart(items)
    ensures var (next, first) := ApplyAll(normal, root, items, overwrite);
      var again := ApplyAll(normal, next, items, false).1;
      forall k | 0 <= k < |items| :: again[k] ==
        if first[k] != Changed then first[k] else if normal(items[k].translated) == "" then Changed else Existing
  {
    var (next, first) := ApplyAll(normal, root, items, overwrite);
    var again := ApplyAll(normal, next, items, false).1;
    forall k | 0 <= k < |items|
      ensures again[k] == if first[k] != Changed then first[k] else if normal(items[k].translated) == "" then Changed else Existing
    {
      ApplyAllAt(normal, root, items, overwrite, k);
      ApplyAllAt(normal, next, items, false, k);
      LocalAgain(normal, GetAt(root, items[k].path), items[k], overwrite);
    }
  }

  /** With one path inside another, planning again can change something: the inner path exists only after the first time. */
  lemma PrefixMatters(normal: Normal)
    ensures var inner, outer := Item([Name("a"), Name("en")], "X", "T"), Item([Name("a")], "X", "T");
      var (next, first) := ApplyAll(normal, Obj(map["a" := Str("X")]), [inner, outer], false);
      first == [Conflict, Changed] && ApplyAll(normal, next, [inner, outer], false).1[0] == Changed
  {
    var root := Obj(map["a" := Str("X")]);
    var inner, outer := Item([Name("a"), Name("en")], "X", "T"), Item([Name("a")], "X", "T");
    var field := Obj(map["en" := Str("X"), "tr" := Str("T")]);
    assert [inner, outer][..1] == [inner] && [inner][..0] == [];
    assert inner.path[1..] == [Name("en")] && inner.path[1..][1..] == [] && outer.path[1..] == [];
    assert GetAt(Str("X"), inner.path[1..]) == None;
    assert GetAt(root, inner.path) == None;
    assert Apply(normal, root, inner, false) == (root, Conflict);
    assert ApplyAll(normal, root, [], false) == (root, []);
    assert ApplyAll(normal, root, [inner], false) == (root, [] + [Conflict]);
    assert GetAt(root, outer.path) == Some(Str("X"));
    assert map["a" := Str("X")]["a" := field] == map["a" := field];
    assert Apply(normal, root, outer, false) == (Obj(map["a" := field]), Changed);
    var next := Obj(map["a" := field]);
    assert GetAt(field, inner.path[1..]) == Some(Str("X"));
    assert GetAt(next, inner.path) == Some(Str("X"));
    ApplyLaws(normal, next, inner, false);
    assert ApplyAll(normal, next, [], false) == (next, []);
    assert ApplyAll(normal, next, [inner], false).1 == [Changed];
  }

  /** A map set: an item replaces the one of its path, or comes last. */
  function Upsert(list: seq<Item>, item: Item): seq<Item> {
    if list == [] then [item]
    else if list[0].path == item.path then [item] + list[1..]
    else [list[0]] + Upsert(list[1..], item)
  }

  /** One item per path: the last one listed, at the place of the first. */
  function Unique(items: seq<Item>): seq<Item> {
    if items == [] then [] else Upsert(Unique(items[..|items| - 1]), items[|items| - 1])
  }

  function Paths(items: seq<Item>): set<Path> {
    set item | item in items :: item.path
  }

  function LastOf(items: seq<Item>, path: Path): Option<Item> {
    if items == [] then None
    else if items[|items| - 1].path == path then Some(items[|items| - 1])
    else LastOf(items[..|items| - 1], path)
  }

  ghost predicate DistinctPaths(items: seq<Item>) {
    forall i, j | 0 <= i < j < |items| :: items[i].path != items[j].path
  }

  lemma {:induction false} UpsertMembers(list: seq<Item>, item: Item, u: Item)
    requires DistinctPaths(list)
    ensures u in Upsert(list, item) <==> u == item || (u in list && u.path != item.path)
  {
    if list != [] {
      assert list == [list[0]] + list[1..];
      assert DistinctPaths(list[1..]);
      if list[0].path == item.path {
        if u in list[1..] {
          var k :| 0 <= k < |list[1..]| && list[1..][k] == u;
          assert list[k + 1].path != list[0].path;
        }
      } else {
        UpsertMembers(list[1..], item, u);
      }
    }
  }

  lemma {:induction false} UpsertDistinct(list: seq<Item>, item: Item)
    requires DistinctPaths(list)
    ensures DistinctPaths(Upsert(list, item))
  {
    if list != [] && list[0].path != item.path {
      var rest := Upsert(list[1..], item);
      assert DistinctPaths(list[1..]);
      UpsertDistinct(list[1..], item);
      forall k | 0 <= k < |rest| ensures rest[k].path != list[0].path {
        UpsertMembers(list[1..], item, rest[k]);
        if rest[k] in list[1..] {
          var j :| 0 <= j < |list[1..]| && list[1..][j] == rest[k];
          assert list[j + 1] == rest[k];
        }
      }
    }
  }

  lemma UpsertPaths(list: seq<Item>, item: Item)
    requires DistinctPaths(list)
    ensures Paths(Upsert(list, item)) == Paths(list) + {item.path}
    ensures forall u | u in Upsert(list, item) :: u == item || (u in list && u.path != item.path)
  {
    forall u ensures u in Upsert(list, item) <==> u == item || (u in list && u.path != item.path) {
      UpsertMembers(list, item, u);
    }
    assert item in Upsert(list, item);
  }

  lemma {:induction false} UpsertPlaces(list: seq<Item>, item: Item)
    ensures var after := Upsert(list, item);
      && |list| <= |after| <= |list| + 1 && (forall k | 0 <= k < |list| :: after[k].path == list[k].path)
      && (|after| == |list| + 1 ==> after[|list|] == item && forall k | 0 <= k < |list| :: list[k].path != item.path)
  {
    if list != [] && list[0].path != item.path {
      UpsertPlaces(list[1..], item);
    }
  }

  /** The first path is listed before the second one is for the first time. */
  ghost predicate ListedBefore(items: seq<Item>, p: Path, q: Path) {
    exists i :: 0 <= i < |items| && items[i].path == p && forall j | 0 <= j <= i :: items[j].path != q
  }

  lemma ListedBeforeStays(items: seq<Item>, n: nat, p: Path, q: Path)
    requires n <= |items| && ListedBefore(items[..n], p, q)
    ensures ListedBefore(items, p, q)
  {
    var i :| 0 <= i < n && items[..n][i].path == p && forall j | 0 <= j <= i :: items[..n][j].path != q;
    assert items[i].path == p && forall j | 0 <= j <= i :: items[j] == items[..n][j];
  }

  /** Paths come in the order in which they are first listed. */
  lemma {:induction false} UniqueOrder(items: seq<Item>, a: nat, b: nat)
    requires a < b < |Unique(items)|
    ensures ListedBefore(items, Unique(items)[a].path, Unique(items)[b].path)
  {
    var n := |items| - 1;
    var before := Unique(items[..n]);
    UpsertPlaces(before, items[n]);
    var p, q := Unique(items)[a].path, Unique(items)[b].path;
    if b < |before| {
      UniqueOrder(items[..n], a, b);
      ListedBeforeStays(items, n, p, q);
    } else {
      UniqueExact(items[..n]);
      assert before[a] in before;
      ListedLast(items, n, p, q);
    }
  }

  lemma ListedLast(items: seq<Item>, n: nat, p: Path, q: Path)
    requires n <= |items| && p in Paths(items[..n]) && q !in Paths(items[..n])
    ensures ListedBefore(items, p, q)
  {
    var item :| item in items[..n] && item.path == p;
    var i :| 0 <= i < n && items[..n][i] == item;
    forall j | 0 <= j <= i ensures items[j].path != q {
      assert items[..n][j] in items[..n];
    }
  }

  /** What a cell's items come down to: each path once, with the item listed last. */
  lemma {:induction false} UniqueExact(items: seq<Item>)
    ensures DistinctPaths(Unique(items)) && Paths(Unique(items)) == Paths(items)
    ensures forall u | u in Unique(items) :: LastOf(items, u.path) == Some(u)
  {
    if items != [] {
      var n := |items| - 1;
      UniqueExact(items[..n]);
      UpsertPaths(Unique(items[..n]), items[n]);
      UpsertDistinct(Unique(items[..n]), items[n]);
      assert items == items[..n] + [items[n]];
    }
  }
}
