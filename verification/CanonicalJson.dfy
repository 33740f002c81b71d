/**
 * The canonical printer behind every manifest and evidence checksum: an object's fields are printed in collation order,
 * everything else as JSON.stringify prints it. Strings are sequences of UTF-16 code units.
 */
module CanonicalJson {
  type Unit = u: int | 0 <= u < 0x1_0000
  type Text = seq<Unit>

  /** A checksum of texts. */
  type Hash = Text -> nat

  /** The checksum does not collide on these two texts. */
  predicate Apart(hash: Hash, a: Text, b: Text) {
    hash(a) == hash(b) ==> a == b
  }

  /** Numbers are kept as the text JSON.stringify gives them. */
  datatype Json =
    | Null
    | Bool(b: bool)
    | Num(lexeme: Text)
    | Str(text: Text)
    | Arr(items: Items)
    | Obj(fields: Fields)

  datatype Items = NoItems | Item(head: Json, tail: Items)

  /** Fields in insertion order. */
  datatype Fields = NoFields | Field(key: Text, value: Json, rest: Fields)

  /** What a JSON text says: an object is a map from its keys. */
  datatype Meaning =
    | MNull
    | MBool(b: bool)
    | MNum(lexeme: Text)
    | MStr(text: Text)
    | MArr(items: seq<Meaning>)
    | MObj(fields: map<Text, Meaning>)

  /** a.localeCompare(b) <= 0 */
  type Collation = (Text, Text) -> bool

  const QUOTE: Unit := 0x22
  const BACKSLASH: Unit := 0x5C
  const COMMA: Unit := 0x2C
  const COLON: Unit := 0x3A
  const OPEN_BRACKET: Unit := 0x5B
  const CLOSE_BRACKET: Unit := 0x5D
  const OPEN_BRACE: Unit := 0x7B
  const CLOSE_BRACE: Unit := 0x7D
  const LETTER_U: Unit := 0x75
  const NULL_TEXT: Text := [0x6E, 0x75, 0x6C, 0x6C]
  const TRUE_TEXT: Text := [0x74, 0x72, 0x75, 0x65]
  const FALSE_TEXT: Text := [0x66, 0x61, 0x6C, 0x73, 0x65]

  // ------------------------------------------------------------------------------------------------ meaning

  function Denote(v: Json): Meaning {
    match v
    case Null => MNull
    case Bool(b) => MBool(b)
    case Num(lexeme) => MNum(lexeme)
    case Str(text) => MStr(text)
    case Arr(items) => MArr(DenoteItems(items))
    case Obj(fields) => MObj(DenoteFields(fields))
  }

  function DenoteItems(items: Items): seq<Meaning> {
    if items.NoItems? then [] else [Denote(items.head)] + DenoteItems(items.tail)
  }

  function DenoteFields(fields: Fields): map<Text, Meaning> {
    if fields.NoFields? then map[] else DenoteFields(fields.rest)[fields.key := Denote(fields.value)]
  }

  function Keys(fields: Fields): (keys: set<Text>)
    ensures keys == DenoteFields(fields).Keys
  {
    if fields.NoFields? then {} else {fields.key} + Keys(fields.rest)
  }

  predicate NumberUnit(u: Unit) {
    0x30 <= u <= 0x39 || u == 0x2D || u == 0x2B || u == 0x2E || u == 0x65 || u == 0x45
  }

  predicate Digits(s: Text) {
    s != [] && forall u | u in s :: 0x30 <= u <= 0x39
  }

  predicate Minus(s: Text) { s == [] || s == [0x2D] }

  predicate Whole(s: Text) { Digits(s) && (s[0] == 0x30 ==> |s| == 1) }

  predicate Fraction(s: Text) { s == [] || (s[0] == 0x2E && Digits(s[1..])) }

  predicate Exponent(s: Text) {
    || s == []
    || (|s| >= 2 && (s[0] == 0x65 || s[0] == 0x45) && (Digits(s[1..]) || ((s[1] == 0x2B || s[1] == 0x2D) && Digits(s[2..]))))
  }

  /** A number's text, as section 6 of RFC 8259 has it. */
  ghost predicate ValidNumber(lexeme: Text) {
    exists m, w, f, e :: Minus(m) && Whole(w) && Fraction(f) && Exponent(e) && lexeme == m + w + f + e
  }

  /** It starts with a digit or a minus sign, and has number units only. */
  lemma NumberText(lexeme: Text)
    requires ValidNumber(lexeme)
    ensures lexeme != [] && (0x30 <= lexeme[0] <= 0x39 || lexeme[0] == 0x2D) && forall u | u in lexeme :: NumberUnit(u)
  {
    var m, w, f, e :| Minus(m) && Whole(w) && Fraction(f) && Exponent(e) && lexeme == m + w + f + e;
    assert w[0] in w && lexeme[0] == if m == [] then w[0] else m[0];
    if f != [] {
      PartUnits(f, 1);
    }
    if e != [] {
      PartUnits(e, if Digits(e[1..]) then 1 else 2);
    }
    forall u | u in lexeme ensures NumberUnit(u) {
      assert u in m || u in w || u in f || u in e;
    }
  }

  lemma PartUnits(s: Text, k: nat)
    requires k <= |s| && Digits(s[k..]) && forall i | 0 <= i < k :: NumberUnit(s[i])
    ensures forall u | u in s :: NumberUnit(u)
  {
    assert s == s[..k] + s[k..];
    forall u | u in s ensures NumberUnit(u) {
      assert u in s[..k] || u in s[k..];
    }
  }

  /** A JSON value: valid numbers, no key twice in one object. */
  ghost predicate Valid(v: Json) {
    match v
    case Null => true
    case Bool(_) => true
    case Num(lexeme) => ValidNumber(lexeme)
    case Str(_) => true
    case Arr(items) => ValidItems(items)
    case Obj(fields) => ValidFields(fields)
  }

  ghost predicate ValidItems(items: Items) {
    items.Item? ==> Valid(items.head) && ValidItems(items.tail)
  }

  ghost predicate ValidFields(fields: Fields) {
    fields.Field? ==> fields.key !in Keys(fields.rest) && Valid(fields.value) && ValidFields(fields.rest)
  }

  // ------------------------------------------------------------------------------------------------ strings

  predicate HighSurrogate(u: Unit) { 0xD800 <= u < 0xDC00 }

  predicate LowSurrogate(u: Unit) { 0xDC00 <= u < 0xE000 }

  predicate StartsPair(s: Text) {
    |s| >= 2 && HighSurrogate(s[0]) && LowSurrogate(s[1])
  }

  function Used(s: Text): (n: nat)
    requires s != []
    ensures 1 <= n <= |s|
  {
    if StartsPair(s) then 2 else 1
  }

  /** The letter of a two-character escape, 0 if there is none. */
  function ShortEscape(u: Unit): Unit {
    if u == QUOTE then QUOTE
    else if u == BACKSLASH then BACKSLASH
    else if u == 8 then 0x62
    else if u == 9 then 0x74
    else if u == 10 then 0x6E
    else if u == 12 then 0x66
    else if u == 13 then 0x72
    else 0
  }

  function HexDigit(n: nat): Unit
    requires n < 16
  {
    if n < 10 then 0x30 + n else 0x61 + (n - 10)
  }

  function HexDigits(u: Unit): Text {
    [HexDigit(u / 4096), HexDigit(u / 256 % 16), HexDigit(u / 16 % 16), HexDigit(u % 16)]
  }

  /** How JSON.stringify writes the first code unit of a string, or its first surrogate pair. */
  function Token(s: Text): Text
    requires s != []
  {
    if StartsPair(s) then [s[0], s[1]]
    else if ShortEscape(s[0]) != 0 then [BACKSLASH, ShortEscape(s[0])]
    else if s[0] < 0x20 || HighSurrogate(s[0]) || LowSurrogate(s[0]) then [BACKSLASH, LETTER_U] + HexDigits(s[0])
    else [s[0]]
  }

  function Escape(s: Text): Text
    decreases |s|
  {
    if s == [] then [] else Token(s) + Escape(s[Used(s)..])
  }

  function Quote(s: Text): Text {
    [QUOTE] + Escape(s) + [QUOTE]
  }

  // ------------------------------------------------------------------------------------------------ the printer

  function Print(v: Json): Text {
    match v
    case Null => NULL_TEXT
    case Bool(b) => if b then TRUE_TEXT else FALSE_TEXT
    case Num(lexeme) => lexeme
    case Str(text) => Quote(text)
    case Arr(items) => [OPEN_BRACKET] + PrintItems(items) + [CLOSE_BRACKET]
    case Obj(fields) => [OPEN_BRACE] + PrintFields(fields) + [CLOSE_BRACE]
  }

  function PrintItems(items: Items): Text {
    match items
    case NoItems => []
    case Item(head, NoItems) => Print(head)
    case Item(head, tail) => Print(head) + [COMMA] + PrintItems(tail)
  }

  function PrintFields(fields: Fields): Text {
    match fields
    case NoFields => []
    case Field(key, value, NoFields) => Quote(key) + [COLON] + Print(value)
    case Field(key, value, rest) => Quote(key) + [COLON] + Print(value) + [COMMA] + PrintFields(rest)
  }

  /** A stable insertion sort by collation order, as Array.prototype.sort with localeCompare. */
  function InsertField(le: Collation, key: Text, value: Json, sorted: Fields): Fields {
    if sorted.NoFields? || le(key, sorted.key) then Field(key, value, sorted)
    else Field(sorted.key, sorted.value, InsertField(le, key, value, sorted.rest))
  }

  function SortFields(le: Collation, fields: Fields): Fields {
    if fields.NoFields? then NoFields else InsertField(le, fields.key, fields.value, SortFields(le, fields.rest))
  }

  function Canon(le: Collation, v: Json): Json {
    match v
    case Arr(items) => Arr(CanonItems(le, items))
    case Obj(fields) => Obj(SortFields(le, CanonFields(le, fields)))
    case _ => v
  }

  function CanonItems(le: Collation, items: Items): Items {
    if items.NoItems? then NoItems else Item(Canon(le, items.head), CanonItems(le, items.tail))
  }

  function CanonFields(le: Collation, fields: Fields): Fields {
    if fields.NoFields? then NoFields
    else Field(fields.key, Canon(le, fields.value), CanonFields(le, fields.rest))
  }

  function Stable(le: Collation, v: Json): Text {
    Print(Canon(le, v))
  }

  // ------------------------------------------------------------------------------------------------ reading back

  predicate Delimited(x: Text) {
    x == [] || x[0] == COMMA || x[0] == CLOSE_BRACKET || x[0] == CLOSE_BRACE
  }

  function HexValue(d: Unit): int {
    if d < 0x40 then d - 0x30 else d - 0x61 + 10
  }

  lemma HexReads(u: Unit)
    ensures var d := HexDigits(u);
      u == HexValue(d[0]) * 4096 + HexValue(d[1]) * 256 + HexValue(d[2]) * 16 + HexValue(d[3])
  {
    var q := u / 16;
    var r := q / 16;
    assert u / 256 == r && u / 4096 == r / 16;
  }

  lemma HexInjective(u: Unit, v: Unit)
    requires HexDigits(u) == HexDigits(v)
    ensures u == v
  {
    HexReads(u);
    HexReads(v);
  }

  lemma TokenUnique(s: Text, t: Text, x: Text, y: Text)
    requires s != [] && t != [] && Token(s) + x == Token(t) + y
    ensures Used(s) == Used(t) && s[..Used(s)] == t[..Used(t)] && x == y
  {
    var whole := Token(s) + x;
    assert whole[0] == Token(s)[0] == Token(t)[0];
    assert |Token(s)| >= 2 ==> whole[1] == Token(s)[1];
    assert |Token(t)| >= 2 ==> whole[1] == Token(t)[1];
    assert |Token(s)| == |Token(t)|;
    assert Token(s) == whole[..|Token(s)|] == Token(t);
    assert x == whole[|Token(s)|..] == y;
    if |Token(s)| == 6 {
      assert HexDigits(s[0]) == Token(s)[2..] == Token(t)[2..] == HexDigits(t[0]);
      HexInjective(s[0], t[0]);
    }
  }

  lemma EscapeEnds(s: Text, x: Text)
    ensures (Escape(s) + [QUOTE] + x)[0] == QUOTE <==> s == []
  {
    if s != [] {
      assert Token(s)[0] != QUOTE;
      assert (Escape(s) + [QUOTE] + x)[0] == Token(s)[0];
    }
  }

  lemma EscapeStep(s: Text, x: Text)
    requires s != []
    ensures Escape(s) + [QUOTE] + x == Token(s) + (Escape(s[Used(s)..]) + [QUOTE] + x)
  {
  }

  lemma {:induction false} EscapeUnique(s: Text, t: Text, x: Text, y: Text)
    requires Escape(s) + [QUOTE] + x == Escape(t) + [QUOTE] + y
    ensures s == t && x == y
    decreases |s|
  {
    EscapeEnds(s, x);
    EscapeEnds(t, y);
    if s == [] {
      assert Escape(s) + [QUOTE] + x == [QUOTE] + x && Escape(t) + [QUOTE] + y == [QUOTE] + y;
      CutPrefix([QUOTE], x, y);
    } else {
      var s', t' := s[Used(s)..], t[Used(t)..];
      EscapeStep(s, x);
      EscapeStep(t, y);
      TokenUnique(s, t, Escape(s') + [QUOTE] + x, Escape(t') + [QUOTE] + y);
      EscapeUnique(s', t', x, y);
      assert s == s[..Used(s)] + s' && t == t[..Used(t)] + t';
    }
  }

  lemma QuoteOpens(s: Text, x: Text)
    ensures Quote(s) + x == [QUOTE] + (Escape(s) + [QUOTE] + x)
  {
  }

  lemma QuoteUnique(s: Text, t: Text, x: Text, y: Text)
    requires Quote(s) + x == Quote(t) + y
    ensures s == t && x == y
  {
    QuoteOpens(s, x);
    QuoteOpens(t, y);
    CutPrefix([QUOTE], Escape(s) + [QUOTE] + x, Escape(t) + [QUOTE] + y);
    EscapeUnique(s, t, x, y);
  }

  /** How many number units a text starts with. */
  function NumberRun(s: Text): nat {
    if s == [] || !NumberUnit(s[0]) then 0 else 1 + NumberRun(s[1..])
  }

  lemma {:induction false} NumberRunStops(l: Text, x: Text)
    requires (forall u | u in l :: NumberUnit(u)) && Delimited(x)
    ensures NumberRun(l + x) == |l|
  {
    if l == [] {
      assert l + x == x;
    } else {
      assert l[0] in l && (l + x)[1..] == l[1..] + x;
      NumberRunStops(l[1..], x);
    }
  }

  lemma NumberUnique(l: Text, m: Text, x: Text, y: Text)
    requires ValidNumber(l) && ValidNumber(m) && Delimited(x) && Delimited(y) && l + x == m + y
    ensures l == m && x == y
  {
    NumberText(l);
    NumberText(m);
    NumberRunStops(l, x);
    NumberRunStops(m, y);
    assert l == (l + x)[..|l|] == (m + y)[..|m|] == m;
    CutPrefix(l, x, y);
  }

  /** The first code unit of a printed value tells what kind of value it is. */
  function Kind(v: Json): int {
    match v
    case Null => 0
    case Bool(b) => if b then 1 else 2
    case Num(_) => 3
    case Str(_) => 4
    case Arr(_) => 5
    case Obj(_) => 6
  }

  function KindOf(u: Unit): int {
    if u == 0x6E then 0 else if u == 0x74 then 1 else if u == 0x66 then 2 else if u == QUOTE then 4
    else if u == OPEN_BRACKET then 5 else if u == OPEN_BRACE then 6
    else if 0x30 <= u <= 0x39 || u == 0x2D then 3 else 7
  }

  lemma FirstUnit(v: Json)
    requires Valid(v)
    ensures Print(v) != [] && KindOf(Print(v)[0]) == Kind(v)
  {
    if v.Num? {
      NumberText(v.lexeme);
    }
  }

  lemma OpenArray(items: Items, x: Text)
    ensures Print(Arr(items)) + x == [OPEN_BRACKET] + (PrintItems(items) + [CLOSE_BRACKET] + x)
  {
    assert Print(Arr(items)) == [OPEN_BRACKET] + PrintItems(items) + [CLOSE_BRACKET];
  }

  lemma OpenObject(fields: Fields, x: Text)
    ensures Print(Obj(fields)) + x == [OPEN_BRACE] + (PrintFields(fields) + [CLOSE_BRACE] + x)
  {
    assert Print(Obj(fields)) == [OPEN_BRACE] + PrintFields(fields) + [CLOSE_BRACE];
  }

  /** A printed value can be read off the front of any text in one way only. */
  lemma {:induction false} PrintUnique(v: Json, w: Json, x: Text, y: Text)
    requires Valid(v) && Valid(w) && Delimited(x) && Delimited(y) && Print(v) + x == Print(w) + y
    ensures v == w && x == y
    decreases v
  {
    FirstUnit(v);
    FirstUnit(w);
    assert (Print(v) + x)[0] == Print(v)[0] && (Print(w) + y)[0] == Print(w)[0];
    assert Kind(v) == Kind(w);
    match v {
      case Null => CutPrefix(NULL_TEXT, x, y);
      case Bool(b) => CutPrefix(Print(v), x, y);
      case Num(lexeme) => NumberUnique(lexeme, w.lexeme, x, y);
      case Str(text) => QuoteUnique(text, w.text, x, y);
      case Arr(items) =>
        OpenArray(items, x);
        OpenArray(w.items, y);
        CutPrefix([OPEN_BRACKET], PrintItems(items) + [CLOSE_BRACKET] + x, PrintItems(w.items) + [CLOSE_BRACKET] + y);
        ItemsUnique(items, w.items, x, y);
      case Obj(fields) =>
        OpenObject(fields, x);
        OpenObject(w.fields, y);
        CutPrefix([OPEN_BRACE], PrintFields(fields) + [CLOSE_BRACE] + x, PrintFields(w.fields) + [CLOSE_BRACE] + y);
        FieldsUnique(fields, w.fields, x, y);
    }
  }

  lemma CutPrefix(p: Text, x: Text, y: Text)
    requires p + x == p + y
    ensures x == y
  {
    assert x == (p + x)[|p|..] == (p + y)[|p|..] == y;
  }

  lemma {:induction false} ItemsUnique(a: Items, b: Items, x: Text, y: Text)
    requires ValidItems(a) && ValidItems(b)
    requires PrintItems(a) + [CLOSE_BRACKET] + x == PrintItems(b) + [CLOSE_BRACKET] + y
    ensures a == b && x == y
    decreases a
  {
    ItemsStart(a, x);
    ItemsStart(b, y);
    if a.NoItems? {
      assert PrintItems(a) + [CLOSE_BRACKET] + x == [CLOSE_BRACKET] + x && PrintItems(b) + [CLOSE_BRACKET] + y == [CLOSE_BRACKET] + y;
      CutPrefix([CLOSE_BRACKET], x, y);
    } else {
      var p := AfterItem(a, x);
      var q := AfterItem(b, y);
      PrintUnique(a.head, b.head, p, q);
      if a.tail.Item? {
        CutPrefix([COMMA], PrintItems(a.tail) + [CLOSE_BRACKET] + x, PrintItems(b.tail) + [CLOSE_BRACKET] + y);
        ItemsUnique(a.tail, b.tail, x, y);
      } else {
        CutPrefix([CLOSE_BRACKET], x, y);
      }
    }
  }

  lemma ItemsStart(a: Items, x: Text)
    requires ValidItems(a)
    ensures KindOf((PrintItems(a) + [CLOSE_BRACKET] + x)[0]) == if a.Item? then Kind(a.head) else 7
  {
    if a.Item? {
      FirstUnit(a.head);
      assert (PrintItems(a) + [CLOSE_BRACKET] + x)[0] == Print(a.head)[0];
    }
  }

  lemma AfterItem(a: Items, x: Text) returns (p: Text)
    requires a.Item?
    ensures PrintItems(a) + [CLOSE_BRACKET] + x == Print(a.head) + p
    ensures p == if a.tail.Item? then [COMMA] + (PrintItems(a.tail) + [CLOSE_BRACKET] + x) else [CLOSE_BRACKET] + x
  {
    p := if a.tail.Item? then [COMMA] + (PrintItems(a.tail) + [CLOSE_BRACKET] + x) else [CLOSE_BRACKET] + x;
    assert PrintItems(a) + [CLOSE_BRACKET] + x == Print(a.head) + p;
  }

  lemma {:induction false} FieldsUnique(a: Fields, b: Fields, x: Text, y: Text)
    requires ValidFields(a) && ValidFields(b)
    requires PrintFields(a) + [CLOSE_BRACE] + x == PrintFields(b) + [CLOSE_BRACE] + y
    ensures a == b && x == y
    decreases a
  {
    assert (PrintFields(a) + [CLOSE_BRACE] + x)[0] == if a.Field? then QUOTE else CLOSE_BRACE;
    assert (PrintFields(b) + [CLOSE_BRACE] + y)[0] == if b.Field? then QUOTE else CLOSE_BRACE;
    if a.NoFields? {
      assert PrintFields(a) + [CLOSE_BRACE] + x == [CLOSE_BRACE] + x && PrintFields(b) + [CLOSE_BRACE] + y == [CLOSE_BRACE] + y;
      CutPrefix([CLOSE_BRACE], x, y);
    } else {
      var p := AfterField(a, x);
      var q := AfterField(b, y);
      QuoteUnique(a.key, b.key, [COLON] + (Print(a.value) + p), [COLON] + (Print(b.value) + q));
      CutPrefix([COLON], Print(a.value) + p, Print(b.value) + q);
      PrintUnique(a.value, b.value, p, q);
      if a.rest.Field? {
        CutPrefix([COMMA], PrintFields(a.rest) + [CLOSE_BRACE] + x, PrintFields(b.rest) + [CLOSE_BRACE] + y);
        FieldsUnique(a.rest, b.rest, x, y);
      } else {
        CutPrefix([CLOSE_BRACE], x, y);
      }
    }
  }

  lemma AfterField(a: Fields, x: Text) returns (p: Text)
    requires a.Field?
    ensures PrintFields(a) + [CLOSE_BRACE] + x == Quote(a.key) + ([COLON] + (Print(a.value) + p))
    ensures p == if a.rest.Field? then [COMMA] + (PrintFields(a.rest) + [CLOSE_BRACE] + x) else [CLOSE_BRACE] + x
  {
    p := if a.rest.Field? then [COMMA] + (PrintFields(a.rest) + [CLOSE_BRACE] + x) else [CLOSE_BRACE] + x;
    assert PrintFields(a) + [CLOSE_BRACE] + x == Quote(a.key) + ([COLON] + (Print(a.value) + p));
  }

  // ------------------------------------------------------------------------------------------------ sorting keeps meaning

  lemma {:induction false} InsertMeans(le: Collation, key: Text, value: Json, sorted: Fields)
    requires key !in Keys(sorted)
    ensures DenoteFields(InsertField(le, key, value, sorted)) == DenoteFields(sorted)[key := Denote(value)]
    ensures ValidFields(sorted) && Valid(value) ==> ValidFields(InsertField(le, key, value, sorted))
  {
    if sorted.Field? && !le(key, sorted.key) {
      InsertMeans(le, key, value, sorted.rest);
    }
  }

  lemma {:induction false} SortMeans(le: Collation, fields: Fields)
    requires ValidFields(fields)
    ensures DenoteFields(SortFields(le, fields)) == DenoteFields(fields) && ValidFields(SortFields(le, fields))
  {
    if fields.Field? {
      SortMeans(le, fields.rest);
      InsertMeans(le, fields.key, fields.value, SortFields(le, fields.rest));
    }
  }

  lemma {:induction false} CanonMeans(le: Collation, v: Json)
    requires Valid(v)
    ensures Denote(Canon(le, v)) == Denote(v) && Valid(Canon(le, v))
    decreases v
  {
    match v {
      case Arr(items) => CanonItemsMean(le, items);
      case Obj(fields) =>
        CanonFieldsMean(le, fields);
        SortMeans(le, CanonFields(le, fields));
      case _ =>
    }
  }

  lemma {:induction false} CanonItemsMean(le: Collation, items: Items)
    requires ValidItems(items)
    ensures DenoteItems(CanonItems(le, items)) == DenoteItems(items) && ValidItems(CanonItems(le, items))
    decreases items
  {
    if items.Item? {
      CanonMeans(le, items.head);
      CanonItemsMean(le, items.tail);
    }
  }

  lemma {:induction false} CanonFieldsMean(le: Collation, fields: Fields)
    requires ValidFields(fields)
    ensures DenoteFields(CanonFields(le, fields)) == DenoteFields(fields) && ValidFields(CanonFields(le, fields))
    decreases fields
  {
    if fields.Field? {
      CanonMeans(le, fields.value);
      CanonFieldsMean(le, fields.rest);
      assert Keys(CanonFields(le, fields.rest)) == Keys(fields.rest);
    }
  }

  /** Two values with one printed form say the same, whatever the collation. */
  lemma StableInjective(le: Collation, v: Json, w: Json)
    requires Valid(v) && Valid(w) && Stable(le, v) == Stable(le, w)
    ensures Denote(v) == Denote(w)
  {
    CanonMeans(le, v);
    CanonMeans(le, w);
    assert Stable(le, v) + [] == Stable(le, w) + [];
    PrintUnique(Canon(le, v), Canon(le, w), [], []);
  }

  // ------------------------------------------------------------------------------------------------ one meaning, one form

  ghost predicate TotalPreorder(le: Collation) {
    && (forall a, b :: le(a, b) || le(b, a))
    && (forall a, b, c :: le(a, b) && le(b, c) ==> le(a, c))
  }

  ghost predicate Tie(le: Collation, a: Text, b: Text) {
    a != b && le(a, b) && le(b, a)
  }

  /** No object of the value has two keys the collation cannot tell apart. */
  ghost predicate NoTies(le: Collation, m: Meaning) {
    match m
    case MArr(items) => forall i | 0 <= i < |items| :: NoTies(le, items[i])
    case MObj(fields) =>
      && (forall a, b | a in fields && b in fields :: !Tie(le, a, b))
      && (forall a | a in fields :: NoTies(le, fields[a]))
    case _ => true
  }

  /** Fields in strictly ascending order, on every level. */
  ghost predicate Canonical(le: Collation, v: Json) {
    match v
    case Arr(items) => CanonicalItems(le, items)
    case Obj(fields) => CanonicalFields(le, fields)
    case _ => true
  }

  ghost predicate CanonicalItems(le: Collation, items: Items) {
    items.Item? ==> Canonical(le, items.head) && CanonicalItems(le, items.tail)
  }

  ghost predicate CanonicalFields(le: Collation, fields: Fields) {
    fields.Field? ==>
      && Canonical(le, fields.value) && CanonicalFields(le, fields.rest)
      && forall k | k in Keys(fields.rest) :: le(fields.key, k) && !le(k, fields.key)
  }

  lemma {:induction false} InsertCanonical(le: Collation, key: Text, value: Json, sorted: Fields)
    requires TotalPreorder(le) && CanonicalFields(le, sorted) && Canonical(le, value)
    requires key !in Keys(sorted) && forall k | k in Keys(sorted) :: !Tie(le, key, k)
    ensures CanonicalFields(le, InsertField(le, key, value, sorted))
    ensures Keys(InsertField(le, key, value, sorted)) == Keys(sorted) + {key}
  {
    if sorted.Field? {
      assert !Tie(le, key, sorted.key);
      if le(key, sorted.key) {
        forall k | k in Keys(sorted) ensures le(key, k) && !le(k, key) {
          assert !Tie(le, key, k);
        }
      } else {
        InsertCanonical(le, key, value, sorted.rest);
      }
    }
  }

  lemma {:induction false} SortCanonical(le: Collation, fields: Fields)
    requires TotalPreorder(le) && ValidFields(fields)
    requires forall a, b | a in Keys(fields) && b in Keys(fields) :: !Tie(le, a, b)
    requires CanonicalValues(le, fields)
    ensures CanonicalFields(le, SortFields(le, fields)) && Keys(SortFields(le, fields)) == Keys(fields)
  {
    if fields.Field? {
      SortCanonical(le, fields.rest);
      InsertCanonical(le, fields.key, fields.value, SortFields(le, fields.rest));
    }
  }

  ghost predicate CanonicalValues(le: Collation, fields: Fields) {
    fields.Field? ==> Canonical(le, fields.value) && CanonicalValues(le, fields.rest)
  }

  lemma {:induction false} CanonIsCanonical(le: Collation, v: Json)
    requires TotalPreorder(le) && Valid(v) && NoTies(le, Denote(v))
    ensures Canonical(le, Canon(le, v))
    decreases v
  {
    match v {
      case Arr(items) => CanonItemsCanonical(le, items);
      case Obj(fields) =>
        CanonFieldsCanonical(le, fields);
        CanonFieldsMean(le, fields);
        SortCanonical(le, CanonFields(le, fields));
      case _ =>
    }
  }

  lemma {:induction false} CanonItemsCanonical(le: Collation, items: Items)
    requires TotalPreorder(le) && ValidItems(items)
    requires forall i | 0 <= i < |DenoteItems(items)| :: NoTies(le, DenoteItems(items)[i])
    ensures CanonicalItems(le, CanonItems(le, items))
    decreases items
  {
    if items.Item? {
      assert DenoteItems(items)[0] == Denote(items.head);
      CanonIsCanonical(le, items.head);
      forall i | 0 <= i < |DenoteItems(items.tail)| ensures NoTies(le, DenoteItems(items.tail)[i]) {
        assert DenoteItems(items.tail)[i] == DenoteItems(items)[i + 1];
      }
      CanonItemsCanonical(le, items.tail);
    }
  }

  lemma {:induction false} CanonFieldsCanonical(le: Collation, fields: Fields)
    requires TotalPreorder(le) && ValidFields(fields)
    requires forall a | a in DenoteFields(fields) :: NoTies(le, DenoteFields(fields)[a])
    ensures CanonicalValues(le, CanonFields(le, fields))
    decreases fields
  {
    if fields.Field? {
      assert DenoteFields(fields)[fields.key] == Denote(fields.value);
      CanonIsCanonical(le, fields.value);
      forall a | a in DenoteFields(fields.rest) ensures NoTies(le, DenoteFields(fields.rest)[a]) {
        assert DenoteFields(fields)[a] == DenoteFields(fields.rest)[a];
      }
      CanonFieldsCanonical(le, fields.rest);
    }
  }

  lemma {:induction false} CanonicalUnique(le: Collation, v: Json, w: Json)
    requires Canonical(le, v) && Canonical(le, w) && Denote(v) == Denote(w)
    ensures v == w
    decreases v
  {
    match v {
      case Arr(items) => CanonicalItemsUnique(le, items, w.items);
      case Obj(fields) => CanonicalFieldsUnique(le, fields, w.fields);
      case _ =>
    }
  }

  lemma {:induction false} CanonicalItemsUnique(le: Collation, a: Items, b: Items)
    requires CanonicalItems(le, a) && CanonicalItems(le, b) && DenoteItems(a) == DenoteItems(b)
    ensures a == b
    decreases a
  {
    if a.Item? {
      assert DenoteItems(a)[0] == Denote(a.head) && DenoteItems(b)[0] == Denote(b.head);
      assert DenoteItems(a)[1..] == DenoteItems(a.tail) && DenoteItems(b)[1..] == DenoteItems(b.tail);
      CanonicalUnique(le, a.head, b.head);
      CanonicalItemsUnique(le, a.tail, b.tail);
    }
  }

  lemma {:induction false} CanonicalFieldsUnique(le: Collation, a: Fields, b: Fields)
    requires CanonicalFields(le, a) && CanonicalFields(le, b) && DenoteFields(a) == DenoteFields(b)
    ensures a == b
    decreases a
  {
    assert Keys(a) == Keys(b);
    if a.Field? {
      assert a.key in Keys(b) && b.key in Keys(a);
      assert a.key == b.key;
      assert DenoteFields(a)[a.key] == Denote(a.value) && DenoteFields(b)[b.key] == Denote(b.value);
      CanonicalUnique(le, a.value, b.value);
      assert a.key !in Keys(a.rest) && a.key !in Keys(b.rest);
      assert DenoteFields(a.rest) == DenoteFields(a) - {a.key};
      assert DenoteFields(b.rest) == DenoteFields(b) - {a.key};
      CanonicalFieldsUnique(le, a.rest, b.rest);
    }
  }

  /** The printed forms are equal exactly when the values are equal up to the order of object keys. */
  lemma StableExact(le: Collation, v: Json, w: Json)
    requires TotalPreorder(le) && Valid(v) && Valid(w) && NoTies(le, Denote(v))
    ensures Stable(le, v) == Stable(le, w) <==> Denote(v) == Denote(w)
  {
    if Stable(le, v) == Stable(le, w) {
      StableInjective(le, v, w);
    }
    if Denote(v) == Denote(w) {
      CanonMeans(le, v);
      CanonMeans(le, w);
      CanonIsCanonical(le, v);
      CanonIsCanonical(le, w);
      CanonicalUnique(le, Canon(le, v), Canon(le, w));
    }
  }

  lemma TwoFields(a: Text, b: Text, v: Json, w: Json)
    requires a != b
    ensures DenoteFields(Field(a, v, Field(b, w, NoFields))) == map[a := Denote(v), b := Denote(w)]
    ensures Valid(v) && Valid(w) ==> ValidFields(Field(a, v, Field(b, w, NoFields)))
  {
    var last := Field(b, w, NoFields);
    assert DenoteFields(last) == map[b := Denote(w)] by {
      assert DenoteFields(NoFields) == map[];
    }
    assert Keys(last) == {b};
    assert ValidFields(last) == Valid(w) by {
      assert Keys(NoFields) == {} && ValidFields(NoFields);
    }
  }

  lemma FirstStays(le: Collation, a: Text, b: Text, v: Json, w: Json)
    requires le(a, b)
    ensures var sorted := SortFields(le, CanonFields(le, Field(a, v, Field(b, w, NoFields))));
      sorted.Field? && sorted.key == a
  {
    var last := Field(b, w, NoFields);
    assert CanonFields(le, last) == Field(b, Canon(le, w), NoFields) by {
      assert CanonFields(le, NoFields) == NoFields;
    }
    assert SortFields(le, CanonFields(le, last)) == CanonFields(le, last) by {
      assert SortFields(le, NoFields) == NoFields;
    }
  }

  /** Keys the collation cannot tell apart keep their insertion order: two equal objects then print differently. */
  lemma TieMatters(le: Collation, a: Text, b: Text, v: Json, w: Json)
    requires Tie(le, a, b) && Valid(v) && Valid(w)
    ensures
      var one := Obj(Field(a, v, Field(b, w, NoFields)));
      var other := Obj(Field(b, w, Field(a, v, NoFields)));
      Valid(one) && Valid(other) && Denote(one) == Denote(other) && Stable(le, one) != Stable(le, other)
  {
    var one := Obj(Field(a, v, Field(b, w, NoFields)));
    var other := Obj(Field(b, w, Field(a, v, NoFields)));
    TwoFields(a, b, v, w);
    TwoFields(b, a, w, v);
    if Stable(le, one) == Stable(le, other) {
      CanonMeans(le, one);
      CanonMeans(le, other);
      assert Stable(le, one) + [] == Stable(le, other) + [];
      PrintUnique(Canon(le, one), Canon(le, other), [], []);
      FirstStays(le, a, b, v, w);
      FirstStays(le, b, a, w, v);
    }
  }
}
