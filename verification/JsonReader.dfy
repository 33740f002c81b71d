/**
 * A reader of JSON texts as RFC 8259 defines them: white space (section 2), literal names (section 3), objects (section 4),
 * arrays (section 5), numbers (section 6) and strings (section 7), on UTF-16 code units. It shares no constant with the
 * printer, and what the printer writes is read back here.
 */
module JsonReader {
  import opened Wrappers
  import opened CanonicalJson

  /** What is read off the front of a text, and the rest of it. */
  datatype Reading<T> = Fails | Reads(value: T, rest: Text)

  // ------------------------------------------------------------------------------------------------ white space and numbers

  predicate Blank(u: Unit) {
    u == 0x20 || u == 0x09 || u == 0x0A || u == 0x0D
  }

  function Skip(s: Text): (r: Text)
    ensures |r| <= |s|
  {
    if s != [] && Blank(s[0]) then Skip(s[1..]) else s
  }

  /** How many digits a text starts with. */
  function DigitRun(s: Text): (n: nat)
    ensures n <= |s|
  {
    if s == [] || !(0x30 <= s[0] <= 0x39) then 0 else 1 + DigitRun(s[1..])
  }

  /** No leading zeros. */
  function WholeLength(s: Text): (n: nat)
    ensures n <= |s|
  {
    if s != [] && s[0] == 0x30 then 1 else DigitRun(s)
  }

  function FractionLength(s: Text): (n: nat)
    ensures n <= |s|
  {
    if s == [] || s[0] != 0x2E || DigitRun(s[1..]) == 0 then 0 else 1 + DigitRun(s[1..])
  }

  function ExponentLength(s: Text): (n: nat)
    ensures n <= |s|
  {
    if s == [] || (s[0] != 0x65 && s[0] != 0x45) then 0
    else
      var sign := if |s| >= 2 && (s[1] == 0x2B || s[1] == 0x2D) then 1 else 0;
      var digits := DigitRun(s[1 + sign..]);
      if digits == 0 then 0 else 1 + sign + digits
  }

  function UnsignedLength(s: Text): (n: nat)
    ensures n <= |s|
  {
    var whole := WholeLength(s);
    var fraction := FractionLength(s[whole..]);
    if whole == 0 then 0 else whole + fraction + ExponentLength(s[whole..][fraction..])
  }

  /** How long the number is that a text starts with, 0 if it starts with none. */
  function NumberLength(s: Text): (n: nat)
    ensures n <= |s|
  {
    if s == [] || s[0] != 0x2D then UnsignedLength(s)
    else if UnsignedLength(s[1..]) == 0 then 0
    else 1 + UnsignedLength(s[1..])
  }

  // ------------------------------------------------------------------------------------------------ strings

  /** The value of a hexadecimal digit in either case, -1 if it is none. */
  function Hex(u: Unit): (n: int)
    ensures -1 <= n < 16
  {
    if 0x30 <= u <= 0x39 then u - 0x30
    else if 0x61 <= u <= 0x66 then u - 0x61 + 10
    else if 0x41 <= u <= 0x46 then u - 0x41 + 10
    else -1
  }

  function ReadHex(s: Text): Reading<Text> {
    if |s| < 4 || Hex(s[0]) < 0 || Hex(s[1]) < 0 || Hex(s[2]) < 0 || Hex(s[3]) < 0 then Fails
    else Reads([Hex(s[0]) * 4096 + Hex(s[1]) * 256 + Hex(s[2]) * 16 + Hex(s[3])], s[4..])
  }

  /** What follows a backslash. */
  function ReadEscape(s: Text): Reading<Text> {
    if s == [] then Fails
    else if s[0] == 0x22 || s[0] == 0x5C || s[0] == 0x2F then Reads([s[0]], s[1..])
    else if s[0] == 0x62 then Reads([0x08], s[1..])
    else if s[0] == 0x66 then Reads([0x0C], s[1..])
    else if s[0] == 0x6E then Reads([0x0A], s[1..])
    else if s[0] == 0x72 then Reads([0x0D], s[1..])
    else if s[0] == 0x74 then Reads([0x09], s[1..])
    else if s[0] == 0x75 then ReadHex(s[1..])
    else Fails
  }

  /** One character of a string: control characters and lone surrogates have to be escaped. */
  function ReadCharacter(s: Text): (r: Reading<Text>)
    requires s != []
    ensures r.Reads? ==> |r.rest| < |s|
  {
    if s[0] == 0x5C then ReadEscape(s[1..])
    else if s[0] < 0x20 then Fails
    else if s[0] < 0xD800 || s[0] > 0xDFFF then Reads([s[0]], s[1..])
    else if s[0] <= 0xDBFF && |s| >= 2 && 0xDC00 <= s[1] <= 0xDFFF then Reads([s[0], s[1]], s[2..])
    else Fails
  }

  /** The rest of a string after its opening quotation mark. */
  function ReadString(s: Text): (r: Reading<Text>)
    ensures r.Reads? ==> |r.rest| < |s|
    decreases |s|
  {
    if s == [] then Fails
    else if s[0] == 0x22 then Reads([], s[1..])
    else
      match ReadCharacter(s)
      case Fails => Fails
      case Reads(c, after) =>
        match ReadString(after)
        case Fails => Fails
        case Reads(text, rest) => Reads(c + text, rest)
  }

  // ------------------------------------------------------------------------------------------------ values

  /** A literal name or a number. */
  function ReadScalar(s: Text): (r: Reading<Json>)
    ensures r.Reads? ==> |r.rest| < |s|
  {
    if [0x6E, 0x75, 0x6C, 0x6C] <= s then Reads(Null, s[4..])
    else if [0x74, 0x72, 0x75, 0x65] <= s then Reads(Bool(true), s[4..])
    else if [0x66, 0x61, 0x6C, 0x73, 0x65] <= s then Reads(Bool(false), s[5..])
    else if NumberLength(s) > 0 then Reads(Num(s[..NumberLength(s)]), s[NumberLength(s)..])
    else Fails
  }

  function ReadValue(s: Text): (r: Reading<Json>)
    ensures r.Reads? ==> |r.rest| < |s|
    decreases |s|, 0
  {
    var t := Skip(s);
    if t == [] then Fails
    else if t[0] == 0x22 then
      match ReadString(t[1..])
      case Fails => Fails
      case Reads(text, rest) => Reads(Str(text), rest)
    else if t[0] == 0x5B then
      var u := Skip(t[1..]);
      if u != [] && u[0] == 0x5D then Reads(Arr(NoItems), u[1..])
      else
        match ReadItems(u)
        case Fails => Fails
        case Reads(items, rest) => Reads(Arr(items), rest)
    else if t[0] == 0x7B then
      var u := Skip(t[1..]);
      if u != [] && u[0] == 0x7D then Reads(Obj(NoFields), u[1..])
      else
        match ReadFields(u)
        case Fails => Fails
        case Reads(fields, rest) => Reads(Obj(fields), rest)
    else ReadScalar(t)
  }

  /** The entries of an array that has some, with its closing bracket. */
  function ReadItems(s: Text): (r: Reading<Items>)
    ensures r.Reads? ==> |r.rest| < |s|
    decreases |s|, 1
  {
    match ReadValue(s)
    case Fails => Fails
    case Reads(v, after) =>
      var t := Skip(after);
      if t == [] then Fails
      else if t[0] == 0x5D then Reads(Item(v, NoItems), t[1..])
      else if t[0] != 0x2C then Fails
      else
        match ReadItems(t[1..])
        case Fails => Fails
        case Reads(items, rest) => Reads(Item(v, items), rest)
  }

  /** The members of an object that has some, with its closing brace. */
  function ReadFields(s: Text): (r: Reading<Fields>)
    ensures r.Reads? ==> |r.rest| < |s|
    decreases |s|, 1
  {
    var name := ReadName(s);
    if name.Fails? then Fails
    else
      match ReadValue(name.rest)
      case Fails => Fails
      case Reads(v, after) =>
        var t := Skip(after);
        if t == [] then Fails
        else if t[0] == 0x7D then Reads(Field(name.value, v, NoFields), t[1..])
        else if t[0] != 0x2C then Fails
        else
          match ReadFields(t[1..])
          case Fails => Fails
          case Reads(fields, rest) => Reads(Field(name.value, v, fields), rest)
  }

  /** The name of a member, with its colon. */
  function ReadName(s: Text): (r: Reading<Text>)
    ensures r.Reads? ==> |r.rest| < |s|
  {
    var t := Skip(s);
    if t == [] || t[0] != 0x22 then Fails
    else
      match ReadString(t[1..])
      case Fails => Fails
      case Reads(name, after) =>
        var u := Skip(after);
        if u == [] || u[0] != 0x3A then Fails else Reads(name, u[1..])
  }

  /** The value a whole text stands for. */
  function Read(s: Text): Option<Json> {
    match ReadValue(s)
    case Fails => None
    case Reads(v, rest) => if Skip(rest) == [] then Some(v) else None
  }

  // ------------------------------------------------------------------------------------------------ printed strings

  lemma HexIsRead(u: Unit, x: Text)
    ensures ReadHex(HexDigits(u) + x) == Reads([u], x)
  {
    HexReads(u);
    var s := HexDigits(u) + x;
    assert s[0] == HexDigits(u)[0] && s[1] == HexDigits(u)[1] && s[2] == HexDigits(u)[2] && s[3] == HexDigits(u)[3];
    assert s[4..] == x;
  }

  lemma TokenIsRead(s: Text, x: Text)
    requires s != []
    ensures ReadCharacter(Token(s) + x) == Reads(s[..Used(s)], x) && Token(s)[0] != 0x22
  {
    var t := Token(s) + x;
    assert t[0] == Token(s)[0];
    if |Token(s)| == 1 {
      assert t[1..] == x && s[..1] == [s[0]];
    } else if StartsPair(s) {
      assert t[1] == s[1] && t[2..] == x && s[..2] == [s[0], s[1]];
    } else if |Token(s)| == 2 {
      assert t[1..] == [ShortEscape(s[0])] + x;
      assert t[1..][1..] == x && s[..1] == [s[0]];
    } else {
      assert t[1..] == [0x75] + (HexDigits(s[0]) + x);
      assert t[1..][1..] == HexDigits(s[0]) + x;
      HexIsRead(s[0], x);
      assert s[..1] == [s[0]];
    }
  }

  lemma {:induction false} EscapeIsRead(s: Text, x: Text)
    ensures ReadString(Escape(s) + [0x22] + x) == Reads(s, x)
    decreases |s|
  {
    if s == [] {
      assert Escape(s) + [0x22] + x == [0x22] + x;
    } else {
      var rest := Escape(s[Used(s)..]) + [0x22] + x;
      assert Escape(s) + [0x22] + x == Token(s) + rest;
      TokenIsRead(s, rest);
      assert (Token(s) + rest)[0] == Token(s)[0];
      EscapeIsRead(s[Used(s)..], x);
      assert s[..Used(s)] + s[Used(s)..] == s;
    }
  }

  lemma QuoteIsRead(s: Text, x: Text)
    ensures (Quote(s) + x)[0] == 0x22 && ReadString((Quote(s) + x)[1..]) == Reads(s, x)
  {
    EscapeIsRead(s, x);
    QuoteStarts(s, x);
  }

  lemma QuoteStarts(s: Text, x: Text)
    ensures (Quote(s) + x)[0] == 0x22 && (Quote(s) + x)[1..] == Escape(s) + [0x22] + x
  {
  }

  // ------------------------------------------------------------------------------------------------ printed numbers

  /** A text that ends here, or goes on after a value. */
  predicate Ends(x: Text) {
    x == [] || x[0] == 0x2C || x[0] == 0x5D || x[0] == 0x7D
  }

  lemma {:induction false} DigitsRun(d: Text, x: Text)
    requires (forall u | u in d :: 0x30 <= u <= 0x39) && (x == [] || !(0x30 <= x[0] <= 0x39))
    ensures DigitRun(d + x) == |d|
  {
    if d == [] {
      assert d + x == x;
    } else {
      assert d[0] in d && (d + x)[1..] == d[1..] + x;
      assert forall u | u in d[1..] :: u in d;
      DigitsRun(d[1..], x);
    }
  }

  lemma ExponentIsRead(e: Text, x: Text)
    requires Exponent(e) && Ends(x)
    ensures ExponentLength(e + x) == |e|
  {
    if e == [] {
      assert e + x == x;
    } else {
      var sign := if Digits(e[1..]) then 1 else 2;
      DigitsRun(e[sign..], x);
      assert (e + x)[sign..] == e[sign..] + x && e[1] in e[1..];
    }
  }

  lemma FractionIsRead(f: Text, e: Text, x: Text)
    requires Fraction(f) && Exponent(e) && Ends(x)
    ensures FractionLength(f + (e + x)) == |f|
  {
    if f == [] {
      assert f + (e + x) == e + x;
      assert e == [] ==> e + x == x;
    } else {
      assert (f + (e + x))[1..] == f[1..] + (e + x);
      assert e == [] ==> e + x == x;
      DigitsRun(f[1..], e + x);
    }
  }

  lemma WholeIsRead(w: Text, x: Text)
    requires Whole(w) && (x == [] || !(0x30 <= x[0] <= 0x39))
    ensures WholeLength(w + x) == |w|
  {
    assert (w + x)[0] == w[0];
    DigitsRun(w, x);
  }

  lemma NumberIsRead(l: Text, x: Text)
    requires ValidNumber(l) && Ends(x)
    ensures NumberLength(l + x) == |l| > 0
  {
    var m, w, f, e :| Minus(m) && Whole(w) && Fraction(f) && Exponent(e) && l == m + w + f + e;
    assert l + x == m + (w + (f + (e + x)));
    PartsAreRead(m, w, f, e, x);
  }

  lemma PartsAreRead(m: Text, w: Text, f: Text, e: Text, x: Text)
    requires Minus(m) && Whole(w) && Fraction(f) && Exponent(e) && Ends(x)
    ensures NumberLength(m + (w + (f + (e + x)))) == |m| + |w| + |f| + |e|
  {
    UnsignedIsRead(w, f, e, x);
    var s := w + (f + (e + x));
    assert w[0] in w && s[0] == w[0];
    assert m + s == if m == [] then s else [0x2D] + s;
    Drops(m, s);
  }

  lemma UnsignedIsRead(w: Text, f: Text, e: Text, x: Text)
    requires Whole(w) && Fraction(f) && Exponent(e) && Ends(x)
    ensures UnsignedLength(w + (f + (e + x))) == |w| + |f| + |e|
  {
    AfterWhole(f, e, x);
    WholeIsRead(w, f + (e + x));
    FractionIsRead(f, e, x);
    ExponentIsRead(e, x);
    Drops(w, f + (e + x));
    Drops(f, e + x);
  }

  lemma Drops(a: Text, b: Text)
    ensures (a + b)[|a|..] == b
  {
  }

  lemma AfterWhole(f: Text, e: Text, x: Text)
    requires Fraction(f) && Exponent(e) && Ends(x)
    ensures f + (e + x) == [] || !(0x30 <= (f + (e + x))[0] <= 0x39)
  {
    assert e == [] ==> e + x == x;
    assert f == [] ==> f + (e + x) == e + x;
  }

  // ------------------------------------------------------------------------------------------------ printed values

  lemma {:induction false} ReadsBack(v: Json, x: Text)
    requires Valid(v) && Ends(x)
    ensures ReadValue(Print(v) + x) == Reads(v, x)
    decreases v
  {
    match v {
      case Null => WordReadsBack(v, x);
      case Bool(_) => WordReadsBack(v, x);
      case Num(lexeme) => NumberReadsBack(lexeme, x);
      case Str(text) => QuoteIsRead(text, x);
      case Arr(items) => ArrayReadsBack(items, x);
      case Obj(fields) => ObjectReadsBack(fields, x);
    }
  }

  lemma WordReadsBack(v: Json, x: Text)
    requires v.Null? || v.Bool?
    ensures ReadValue(Print(v) + x) == Reads(v, x)
  {
    var s := Print(v) + x;
    assert s[0] == Print(v)[0];
    Drops(Print(v), x);
    ScalarStarts(s);
  }

  lemma NumberReadsBack(l: Text, x: Text)
    requires ValidNumber(l) && Ends(x)
    ensures ReadValue(Print(Num(l)) + x) == Reads(Num(l), x)
  {
    var s := l + x;
    NumberStarts(l, x);
    ScalarNumber(s);
    ScalarStarts(s);
  }

  lemma NumberStarts(l: Text, x: Text)
    requires ValidNumber(l) && Ends(x)
    ensures var s := l + x;
      && NumberLength(s) == |l| > 0 && s[..|l|] == l && s[|l|..] == x
      && (0x30 <= s[0] <= 0x39 || s[0] == 0x2D)
  {
    NumberIsRead(l, x);
    NumberText(l);
    assert (l + x)[0] == l[0];
  }

  lemma ScalarNumber(s: Text)
    requires NumberLength(s) > 0 && (0x30 <= s[0] <= 0x39 || s[0] == 0x2D)
    ensures ReadScalar(s) == Reads(Num(s[..NumberLength(s)]), s[NumberLength(s)..])
  {
  }

  lemma ScalarStarts(s: Text)
    requires s != [] && !Blank(s[0]) && s[0] != 0x22 && s[0] != 0x5B && s[0] != 0x7B
    ensures ReadValue(s) == ReadScalar(s)
  {
  }

  lemma {:induction false} ArrayReadsBack(items: Items, x: Text)
    requires ValidItems(items)
    ensures ReadValue(Print(Arr(items)) + x) == Reads(Arr(items), x)
    decreases items, 1
  {
    var u := PrintItems(items) + [0x5D] + x;
    OpenArray(items, x);
    ItemsStart(items, x);
    ArrayStarts(u);
    if items.NoItems? {
      assert u == [0x5D] + x;
    } else {
      ItemsReadBack(items, x);
    }
  }

  lemma ArrayStarts(u: Text)
    requires u != [] && !Blank(u[0])
    ensures u[0] == 0x5D ==> ReadValue([0x5B] + u) == Reads(Arr(NoItems), u[1..])
    ensures u[0] != 0x5D && ReadItems(u).Reads? ==> ReadValue([0x5B] + u) == Reads(Arr(ReadItems(u).value), ReadItems(u).rest)
  {
    Drops([0x5B], u);
  }

  lemma {:induction false} ItemsReadBack(items: Items, x: Text)
    requires ValidItems(items) && items.Item?
    ensures ReadItems(PrintItems(items) + [0x5D] + x) == Reads(items, x)
    decreases items, 0
  {
    var p := AfterItem(items, x);
    ReadsBack(items.head, p);
    if items.tail.Item? {
      ItemsReadBack(items.tail, x);
    }
  }

  lemma NameIsRead(fields: Fields, x: Text) returns (p: Text)
    requires fields.Field?
    ensures (PrintFields(fields) + [0x7D] + x)[0] == 0x22
    ensures ReadName(PrintFields(fields) + [0x7D] + x) == Reads(fields.key, Print(fields.value) + p)
    ensures p == if fields.rest.Field? then [0x2C] + (PrintFields(fields.rest) + [0x7D] + x) else [0x7D] + x
  {
    p := AfterField(fields, x);
    QuoteIsRead(fields.key, [0x3A] + (Print(fields.value) + p));
    Drops([0x3A], Print(fields.value) + p);
  }

  lemma {:induction false} ObjectReadsBack(fields: Fields, x: Text)
    requires ValidFields(fields)
    ensures ReadValue(Print(Obj(fields)) + x) == Reads(Obj(fields), x)
    decreases fields, 1
  {
    var u := PrintFields(fields) + [0x7D] + x;
    OpenObject(fields, x);
    if fields.NoFields? {
      assert u == [0x7D] + x;
      ObjectStarts(u);
    } else {
      var p := NameIsRead(fields, x);
      ObjectStarts(u);
      FieldsReadBack(fields, x);
    }
  }

  lemma ObjectStarts(u: Text)
    requires u != [] && !Blank(u[0])
    ensures u[0] == 0x7D ==> ReadValue([0x7B] + u) == Reads(Obj(NoFields), u[1..])
    ensures u[0] != 0x7D && ReadFields(u).Reads? ==> ReadValue([0x7B] + u) == Reads(Obj(ReadFields(u).value), ReadFields(u).rest)
  {
    Drops([0x7B], u);
  }

  lemma {:induction false} FieldsReadBack(fields: Fields, x: Text)
    requires ValidFields(fields) && fields.Field?
    ensures ReadFields(PrintFields(fields) + [0x7D] + x) == Reads(fields, x)
    decreases fields, 0
  {
    var p := NameIsRead(fields, x);
    ReadsBack(fields.value, p);
    if fields.rest.Field? {
      FieldsReadBack(fields.rest, x);
    }
  }

  /**
   * What is printed is a JSON text. It stands for the value with its keys sorted, and so for what the value says.
   */
  lemma StableIsJson(le: Collation, v: Json)
    requires Valid(v)
    ensures Read(Stable(le, v)) == Some(Canon(le, v))
    ensures Denote(Read(Stable(le, v)).value) == Denote(v)
  {
    CanonMeans(le, v);
    ReadsBack(Canon(le, v), []);
    assert Stable(le, v) + [] == Stable(le, v);
  }

  // ------------------------------------------------------------------------------------------------ no shorter text

  lemma CharacterCost(s: Text)
    requires s != [] && s[0] != 0x22 && ReadCharacter(s).Reads?
    ensures var c := ReadCharacter(s);
      c.value != [] && Used(c.value) == |c.value| && |Token(c.value)| + |c.rest| <= |s|
  {
  }

  lemma EscapeJoins(c: Text, s: Text)
    requires c != [] && Used(c) == |c|
    ensures |Escape(c + s)| <= |Token(c)| + |Escape(s)|
  {
    var t := c + s;
    if Used(t) == |c| {
      assert t[|c|..] == s;
      assert t[0] == c[0] && (|c| == 2 ==> t[1] == c[1]);
    } else {
      assert t[1] == s[0] && t[2..] == s[1..] && !StartsPair(s);
    }
  }

  lemma {:induction false} StringCost(s: Text)
    requires ReadString(s).Reads?
    ensures |Escape(ReadString(s).value)| + 1 + |ReadString(s).rest| <= |s|
    decreases |s|
  {
    if s[0] != 0x22 {
      var c := ReadCharacter(s);
      CharacterCost(s);
      StringCost(c.rest);
      EscapeJoins(c.value, ReadString(c.rest).value);
    }
  }

  lemma {:induction false} ValueCost(s: Text)
    requires ReadValue(s).Reads?
    ensures |Print(ReadValue(s).value)| + |ReadValue(s).rest| <= |s|
    decreases |s|, 0
  {
    var t := Skip(s);
    match ReadValue(s).value {
      case Str(_) => StringCost(t[1..]);
      case Arr(items) =>
        if items.Item? {
          ItemsCost(Skip(t[1..]));
        }
      case Obj(fields) =>
        if fields.Field? {
          FieldsCost(Skip(t[1..]));
        }
      case _ =>
    }
  }

  lemma {:induction false} ItemsCost(s: Text)
    requires ReadItems(s).Reads?
    ensures ReadItems(s).value.Item? && |PrintItems(ReadItems(s).value)| + 1 + |ReadItems(s).rest| <= |s|
    decreases |s|, 1
  {
    ValueCost(s);
    var t := Skip(ReadValue(s).rest);
    if t[0] != 0x5D {
      ItemsCost(t[1..]);
    }
  }

  lemma {:induction false} FieldsCost(s: Text)
    requires ReadFields(s).Reads?
    ensures ReadFields(s).value.Field? && |PrintFields(ReadFields(s).value)| + 1 + |ReadFields(s).rest| <= |s|
    decreases |s|, 1
  {
    var name := ReadName(s);
    StringCost(Skip(s)[1..]);
    ValueCost(name.rest);
    var t := Skip(ReadValue(name.rest).rest);
    if t[0] != 0x7D {
      FieldsCost(t[1..]);
    }
  }

  /** No text that stands for the same value is shorter: no white space, and nothing escaped that need not be. */
  lemma StableIsShortest(le: Collation, v: Json, s: Text)
    requires Read(s) == Some(Canon(le, v))
    ensures |Stable(le, v)| <= |s|
  {
    ValueCost(s);
  }

  predicate CapitalHex(u: Unit) {
    0x41 <= u <= 0x46
  }

  lemma SmallToken(s: Text)
    requires s != [] && forall u | u in s :: !CapitalHex(u)
    ensures forall u | u in Token(s) :: !CapitalHex(u)
  {
    assert s[0] in s && (StartsPair(s) ==> s[1] in s);
    forall i | 0 <= i < |Token(s)| ensures !CapitalHex(Token(s)[i]) {
    }
  }

  lemma {:induction false} SmallEscape(s: Text)
    requires forall u | u in s :: !CapitalHex(u)
    ensures forall u | u in Escape(s) :: !CapitalHex(u)
    decreases |s|
  {
    if s != [] {
      SmallToken(s);
      assert forall u | u in s[Used(s)..] :: u in s;
      SmallEscape(s[Used(s)..]);
    }
  }

  /** Escapes are written with small letters. */
  lemma SmallLetters(s: Text)
    requires forall u | u in s :: !CapitalHex(u)
    ensures forall u | u in Print(Str(s)) :: !CapitalHex(u)
  {
    SmallEscape(s);
    assert forall u | u in Print(Str(s)) :: u == QUOTE || u in Escape(s);
  }
}
