/**
 * Evidence rows: what publish stores of an evidence object, and how export recovers the object.
 *
 * The database keeps a date or NULL (an omitted date and an explicit null look the same) and a timestamp whose
 * trailing zeros are gone. The checksum of the original object is stored beside them.
 */
module EvidenceExport {
  import opened Wrappers
  import opened CanonicalJson
  import JsonReader
  import opened ManifestMatch

  const DOT: Unit := 0x2E
  const LETTER_Z: Unit := 0x5A
  const ZERO: Unit := 0x30
  const PRECISIONS: seq<nat> := [0, 3, 6, 1, 2, 4, 5]
  const SECONDS_LENGTH := 19

  datatype Date = Omitted | ExplicitNull | On(day: Text)

  /** reviewedAt: the text up to the seconds, and the fractional digits. */
  datatype Stamp = Stamp(seconds: Text, digits: Text)

  datatype Evidence = Evidence(
    sourceKey: Text, sourceLocator: Text, capturedFact: Text, effectiveFrom: Date, effectiveTo: Date,
    rightsClass: Text, reviewedBy: Text, reviewedAt: Stamp)

  datatype Row = Row(
    sourceKey: Text, sourceLocator: Text, capturedFact: Text, effectiveFrom: Option<Text>, effectiveTo: Option<Text>,
    rightsClass: Text, reviewedBy: Text, seconds: Text, fraction: Text, checksum: nat)

  predicate Digit(u: Unit) { 0x30 <= u <= 0x39 }

  predicate ValidStamp(s: Stamp) {
    |s.seconds| == SECONDS_LENGTH && |s.digits| <= 6 && forall u | u in s.digits :: Digit(u)
  }

  predicate ValidEvidence(e: Evidence) {
    ValidStamp(e.reviewedAt)
  }

  // ------------------------------------------------------------------------------------------------ as JSON

  /** The eight field names of an evidence object. */
  datatype Names = Names(
    sourceKey: Text, sourceLocator: Text, capturedFact: Text, effectiveFrom: Text, effectiveTo: Text,
    rightsClass: Text, reviewedBy: Text, reviewedAt: Text)
  {
    function All(): set<Text> {
      {sourceKey, sourceLocator, capturedFact, effectiveFrom, effectiveTo, rightsClass, reviewedBy, reviewedAt}
    }

    ghost predicate Distinct() {
      && sourceKey !in {sourceLocator, capturedFact, effectiveFrom, effectiveTo, rightsClass, reviewedBy, reviewedAt}
      && sourceLocator !in {capturedFact, effectiveFrom, effectiveTo, rightsClass, reviewedBy, reviewedAt}
      && capturedFact !in {effectiveFrom, effectiveTo, rightsClass, reviewedBy, reviewedAt}
      && effectiveFrom !in {effectiveTo, rightsClass, reviewedBy, reviewedAt}
      && effectiveTo !in {rightsClass, reviewedBy, reviewedAt}
      && rightsClass !in {reviewedBy, reviewedAt}
      && reviewedBy != reviewedAt
    }
  }

  function Ascii(s: string): Text
    requires forall i | 0 <= i < |s| :: s[i] < '\U{7F}'
  {
    seq(|s|, i requires 0 <= i < |s| => s[i] as int)
  }

  const NAMES := Names(
    Ascii("sourceKey"), Ascii("sourceLocator"), Ascii("capturedFact"), Ascii("effectiveFrom"), Ascii("effectiveTo"),
    Ascii("rightsClass"), Ascii("reviewedBy"), Ascii("reviewedAt"))

  function StampText(s: Stamp): Text {
    s.seconds + (if s.digits == [] then [] else [DOT] + s.digits) + [LETTER_Z]
  }

  function WithDate(key: Text, date: Date, rest: Fields): Fields {
    match date
    case Omitted => rest
    case ExplicitNull => Field(key, Null, rest)
    case On(day) => Field(key, Str(day), rest)
  }

  /** The object as the manifest holds it. */
  function ManifestJson(k: Names, e: Evidence): Json {
    Obj(Field(k.sourceKey, Str(e.sourceKey), Field(k.sourceLocator, Str(e.sourceLocator),
        Field(k.capturedFact, Str(e.capturedFact),
        WithDate(k.effectiveFrom, e.effectiveFrom, WithDate(k.effectiveTo, e.effectiveTo,
        Field(k.rightsClass, Str(e.rightsClass), Field(k.reviewedBy, Str(e.reviewedBy),
        Field(k.reviewedAt, Str(StampText(e.reviewedAt)), NoFields)))))))))
  }

  /** The object as export assembles it: the same fields in another order. */
  function ProjectedJson(k: Names, e: Evidence): Json {
    Obj(Field(k.sourceKey, Str(e.sourceKey), Field(k.sourceLocator, Str(e.sourceLocator),
        Field(k.capturedFact, Str(e.capturedFact), Field(k.rightsClass, Str(e.rightsClass),
        Field(k.reviewedBy, Str(e.reviewedBy), Field(k.reviewedAt, Str(StampText(e.reviewedAt)),
        WithDate(k.effectiveFrom, e.effectiveFrom, WithDate(k.effectiveTo, e.effectiveTo, NoFields)))))))))
  }

  function DateMeaning(key: Text, date: Date): map<Text, Meaning> {
    match date
    case Omitted => map[]
    case ExplicitNull => map[key := MNull]
    case On(day) => map[key := MStr(day)]
  }

  /** The last three texts, the first three texts. */
  function ReviewMeanings(k: Names, e: Evidence, m: map<Text, Meaning>): map<Text, Meaning> {
    m[k.reviewedAt := MStr(StampText(e.reviewedAt))][k.reviewedBy := MStr(e.reviewedBy)]
     [k.rightsClass := MStr(e.rightsClass)]
  }

  function SourceMeanings(k: Names, e: Evidence, m: map<Text, Meaning>): map<Text, Meaning> {
    m[k.capturedFact := MStr(e.capturedFact)][k.sourceLocator := MStr(e.sourceLocator)]
     [k.sourceKey := MStr(e.sourceKey)]
  }

  function WithDates(k: Names, e: Evidence, m: map<Text, Meaning>): map<Text, Meaning> {
    m + DateMeaning(k.effectiveTo, e.effectiveTo) + DateMeaning(k.effectiveFrom, e.effectiveFrom)
  }

  function EvidenceMeaning(k: Names, e: Evidence): map<Text, Meaning> {
    SourceMeanings(k, e, WithDates(k, e, ReviewMeanings(k, e, map[])))
  }

  lemma DatesCommute(k: Names, e: Evidence)
    requires k.Distinct()
    ensures ReviewMeanings(k, e, WithDates(k, e, map[])) == WithDates(k, e, ReviewMeanings(k, e, map[]))
  {
  }

  lemma AddText(key: Text, value: Text, rest: Fields, before: map<Text, Meaning>) returns (fields: Fields)
    requires ValidFields(rest) && DenoteFields(rest) == before && key !in before
    ensures fields == Field(key, Str(value), rest)
    ensures ValidFields(fields) && DenoteFields(fields) == before[key := MStr(value)]
  {
    fields := Field(key, Str(value), rest);
  }

  lemma AddDate(key: Text, date: Date, rest: Fields, before: map<Text, Meaning>) returns (fields: Fields)
    requires ValidFields(rest) && DenoteFields(rest) == before && key !in before
    ensures fields == WithDate(key, date, rest)
    ensures ValidFields(fields) && DenoteFields(fields) == before + DateMeaning(key, date)
  {
    fields := WithDate(key, date, rest);
  }

  lemma AddReview(k: Names, e: Evidence, rest: Fields) returns (f: Fields)
    requires k.Distinct() && ValidFields(rest) && Keys(rest) <= {k.effectiveFrom, k.effectiveTo}
    ensures f == Field(k.rightsClass, Str(e.rightsClass), Field(k.reviewedBy, Str(e.reviewedBy),
                   Field(k.reviewedAt, Str(StampText(e.reviewedAt)), rest)))
    ensures ValidFields(f) && DenoteFields(f) == ReviewMeanings(k, e, DenoteFields(rest))
  {
    f := AddText(k.reviewedAt, StampText(e.reviewedAt), rest, DenoteFields(rest));
    f := AddText(k.reviewedBy, e.reviewedBy, f, DenoteFields(f));
    f := AddText(k.rightsClass, e.rightsClass, f, DenoteFields(f));
  }

  lemma AddSource(k: Names, e: Evidence, rest: Fields) returns (f: Fields)
    requires k.Distinct() && ValidFields(rest)
    requires Keys(rest) !! {k.sourceKey, k.sourceLocator, k.capturedFact}
    ensures f == Field(k.sourceKey, Str(e.sourceKey), Field(k.sourceLocator, Str(e.sourceLocator),
                   Field(k.capturedFact, Str(e.capturedFact), rest)))
    ensures ValidFields(f) && DenoteFields(f) == SourceMeanings(k, e, DenoteFields(rest))
  {
    f := AddText(k.capturedFact, e.capturedFact, rest, DenoteFields(rest));
    f := AddText(k.sourceLocator, e.sourceLocator, f, DenoteFields(f));
    f := AddText(k.sourceKey, e.sourceKey, f, DenoteFields(f));
  }

  lemma AddDates(k: Names, e: Evidence, rest: Fields) returns (f: Fields)
    requires k.Distinct() && ValidFields(rest) && Keys(rest) !! {k.effectiveFrom, k.effectiveTo}
    ensures f == WithDate(k.effectiveFrom, e.effectiveFrom, WithDate(k.effectiveTo, e.effectiveTo, rest))
    ensures ValidFields(f) && DenoteFields(f) == WithDates(k, e, DenoteFields(rest))
    ensures Keys(f) <= Keys(rest) + {k.effectiveFrom, k.effectiveTo}
  {
    f := AddDate(k.effectiveTo, e.effectiveTo, rest, DenoteFields(rest));
    f := AddDate(k.effectiveFrom, e.effectiveFrom, f, DenoteFields(f));
  }

  lemma ManifestJsonMeans(k: Names, e: Evidence)
    requires k.Distinct()
    ensures Valid(ManifestJson(k, e)) && Denote(ManifestJson(k, e)) == MObj(EvidenceMeaning(k, e))
  {
    var f := AddReview(k, e, NoFields);
    assert Keys(f) == {k.reviewedAt, k.reviewedBy, k.rightsClass};
    f := AddDates(k, e, f);
    f := AddSource(k, e, f);
    assert ManifestJson(k, e) == Obj(f);
  }

  lemma ProjectedJsonMeans(k: Names, e: Evidence)
    requires k.Distinct()
    ensures Valid(ProjectedJson(k, e)) && Denote(ProjectedJson(k, e)) == MObj(EvidenceMeaning(k, e))
  {
    var f := AddDates(k, e, NoFields);
    f := AddReview(k, e, f);
    assert Keys(f) <= {k.reviewedAt, k.reviewedBy, k.rightsClass, k.effectiveFrom, k.effectiveTo};
    f := AddSource(k, e, f);
    DatesCommute(k, e);
    assert ProjectedJson(k, e) == Obj(f);
  }

  lemma StampInjective(s: Stamp, t: Stamp)
    requires ValidStamp(s) && ValidStamp(t) && StampText(s) == StampText(t)
    ensures s == t
  {
    assert s.seconds == StampText(s)[..SECONDS_LENGTH] == StampText(t)[..SECONDS_LENGTH] == t.seconds;
    assert |s.digits| == |t.digits|;
    if s.digits != [] {
      assert s.digits == StampText(s)[SECONDS_LENGTH + 1..|StampText(s)| - 1];
      assert t.digits == StampText(t)[SECONDS_LENGTH + 1..|StampText(t)| - 1];
    }
  }

  lemma MeaningReads(k: Names, e: Evidence)
    requires k.Distinct()
    ensures var m := EvidenceMeaning(k, e);
      && m.Keys >= {k.sourceKey, k.sourceLocator, k.capturedFact, k.rightsClass, k.reviewedBy, k.reviewedAt}
      && m[k.sourceKey] == MStr(e.sourceKey) && m[k.sourceLocator] == MStr(e.sourceLocator)
      && m[k.capturedFact] == MStr(e.capturedFact) && m[k.rightsClass] == MStr(e.rightsClass)
      && m[k.reviewedBy] == MStr(e.reviewedBy) && m[k.reviewedAt] == MStr(StampText(e.reviewedAt))
    ensures ReadDate(k.effectiveFrom, EvidenceMeaning(k, e)) == e.effectiveFrom
    ensures ReadDate(k.effectiveTo, EvidenceMeaning(k, e)) == e.effectiveTo
  {
  }

  function ReadDate(key: Text, m: map<Text, Meaning>): Date {
    if key !in m then Omitted else if m[key].MStr? then On(m[key].text) else ExplicitNull
  }

  lemma MeaningInjective(k: Names, e: Evidence, f: Evidence)
    requires k.Distinct() && ValidEvidence(e) && ValidEvidence(f) && EvidenceMeaning(k, e) == EvidenceMeaning(k, f)
    ensures e == f
  {
    MeaningReads(k, e);
    MeaningReads(k, f);
    StampInjective(e.reviewedAt, f.reviewedAt);
  }

  /** The collation is consistent and tells the field names apart. */
  ghost predicate EvidenceCollation(le: Collation, k: Names) {
    k.Distinct() && TotalPreorder(le) && forall a, b | a in k.All() && b in k.All() :: !Tie(le, a, b)
  }

  lemma EvidenceNoTies(le: Collation, k: Names, e: Evidence)
    requires EvidenceCollation(le, k)
    ensures NoTies(le, MObj(EvidenceMeaning(k, e)))
  {
    forall a | a in EvidenceMeaning(k, e) ensures a in k.All() && NoTies(le, EvidenceMeaning(k, e)[a]) {
    }
  }

  /** The names the schema uses are distinct. */
  lemma NamesDistinct()
    ensures NAMES.Distinct()
  {
    assert |NAMES.sourceKey| == 9 && |NAMES.sourceLocator| == 13 && |NAMES.capturedFact| == 12;
    assert |NAMES.effectiveFrom| == 13 && |NAMES.effectiveTo| == 11 && |NAMES.rightsClass| == 11;
    assert |NAMES.reviewedBy| == 10 && |NAMES.reviewedAt| == 10;
    assert NAMES.sourceLocator[0] == 's' as int && NAMES.effectiveFrom[0] == 'e' as int;
    assert NAMES.effectiveTo[0] == 'e' as int && NAMES.rightsClass[0] == 'r' as int;
    assert NAMES.reviewedBy[8] == 'B' as int && NAMES.reviewedAt[8] == 'A' as int;
  }

  // ------------------------------------------------------------------------------------------------ storing

  function Trim(digits: Text): (t: Text)
    ensures |t| <= |digits| && t == digits[..|t|]
    ensures t != [] ==> t[|t| - 1] != ZERO
    ensures forall i | |t| <= i < |digits| :: digits[i] == ZERO
  {
    if digits == [] || digits[|digits| - 1] != ZERO then digits else Trim(digits[..|digits| - 1])
  }

  function StoredDate(date: Date): Option<Text> {
    match date
    case On(day) => Some(day)
    case _ => None
  }

  function Checksum(le: Collation, hash: Hash, e: Evidence): nat {
    hash(Stable(le, ManifestJson(NAMES, e)))
  }

  function Store(le: Collation, hash: Hash, e: Evidence): Row {
    Row(e.sourceKey, e.sourceLocator, e.capturedFact, StoredDate(e.effectiveFrom), StoredDate(e.effectiveTo),
        e.rightsClass, e.reviewedBy, e.reviewedAt.seconds, Trim(e.reviewedAt.digits), Checksum(le, hash, e))
  }

  /** As PostgreSQL prints a timestamp: no trailing zeros, at most six digits. */
  predicate Printed(row: Row) {
    && |row.seconds| == SECONDS_LENGTH && |row.fraction| <= 6
    && (row.fraction != [] ==> row.fraction[|row.fraction| - 1] != ZERO)
    && forall u | u in row.fraction :: Digit(u)
  }

  // ------------------------------------------------------------------------------------------------ projecting

  function Zeros(n: nat): Text {
    seq(n, _ => ZERO)
  }

  /** fraction.padEnd(precision, '0') */
  function Pad(fraction: Text, precision: nat): Text
    requires |fraction| <= precision
  {
    fraction + Zeros(precision - |fraction|)
  }

  function Dates(stored: Option<Text>): seq<Date> {
    match stored
    case None => [ExplicitNull, Omitted]
    case Some(day) => [On(day)]
  }

  function Candidate(row: Row, precision: nat, from: Date, to: Date): Evidence
    requires |row.fraction| <= precision
  {
    Evidence(row.sourceKey, row.sourceLocator, row.capturedFact, from, to, row.rightsClass, row.reviewedBy,
             Stamp(row.seconds, Pad(row.fraction, precision)))
  }

  lemma {:induction false} TrimPad(fraction: Text, precision: nat)
    requires |fraction| <= precision && (fraction != [] ==> fraction[|fraction| - 1] != ZERO)
    ensures Trim(Pad(fraction, precision)) == fraction
    decreases precision
  {
    if precision == |fraction| {
      assert Pad(fraction, precision) == fraction;
    } else {
      assert Pad(fraction, precision)[..precision - 1] == Pad(fraction, precision - 1);
      TrimPad(fraction, precision - 1);
    }
  }

  /** Every candidate denotes the stored values: storing it again gives the same row up to the checksum. */
  lemma CandidateDenotes(le: Collation, hash: Hash, row: Row, precision: nat, from: Date, to: Date)
    requires EvidenceCollation(le, NAMES) && Printed(row) && |row.fraction| <= precision <= 6
    requires from in Dates(row.effectiveFrom) && to in Dates(row.effectiveTo)
    ensures ValidEvidence(Candidate(row, precision, from, to))
    ensures var e := Candidate(row, precision, from, to);
      && Store(le, hash, e) == row.(checksum := Checksum(le, hash, e))
      && Checksum(le, hash, e) == hash(Stable(le, ProjectedJson(NAMES, e)))
  {
    CandidateFits(row, precision, from, to);
    SameChecksum(le, NAMES, Candidate(row, precision, from, to));
  }

  lemma CandidateFits(row: Row, precision: nat, from: Date, to: Date)
    requires Printed(row) && |row.fraction| <= precision <= 6
    requires from in Dates(row.effectiveFrom) && to in Dates(row.effectiveTo)
    ensures var e := Candidate(row, precision, from, to);
      && ValidEvidence(e) && Trim(e.reviewedAt.digits) == row.fraction
      && StoredDate(from) == row.effectiveFrom && StoredDate(to) == row.effectiveTo
  {
    TrimPad(row.fraction, precision);
  }

  /** The order in which export puts the fields does not matter to the printer. */
  lemma SameChecksum(le: Collation, k: Names, e: Evidence)
    requires EvidenceCollation(le, k)
    ensures Stable(le, ManifestJson(k, e)) == Stable(le, ProjectedJson(k, e))
  {
    ManifestJsonMeans(k, e);
    ProjectedJsonMeans(k, e);
    EvidenceNoTies(le, k, e);
    StableExact(le, ManifestJson(k, e), ProjectedJson(k, e));
  }

  /** Every object that could have been stored as this row is among the candidates. */
  lemma CandidatesComplete(le: Collation, hash: Hash, e: Evidence)
    requires ValidEvidence(e)
    ensures var row := Store(le, hash, e);
      && Printed(row) && |row.fraction| <= |e.reviewedAt.digits|
      && e == Candidate(row, |e.reviewedAt.digits|, e.effectiveFrom, e.effectiveTo)
      && e.effectiveFrom in Dates(row.effectiveFrom) && e.effectiveTo in Dates(row.effectiveTo)
  {
    var digits := e.reviewedAt.digits;
    assert Pad(Trim(digits), |digits|) == digits;
  }

  lemma SameStableSameEvidence(le: Collation, k: Names, e: Evidence, f: Evidence)
    requires k.Distinct() && ValidEvidence(e) && ValidEvidence(f)
    requires Stable(le, ManifestJson(k, e)) == Stable(le, ManifestJson(k, f))
    ensures e == f
  {
    ManifestJsonMeans(k, e);
    ManifestJsonMeans(k, f);
    StableInjective(le, ManifestJson(k, e), ManifestJson(k, f));
    MeaningInjective(k, e, f);
  }

  /** The text an evidence object is checksummed as. */
  function EvidenceText(le: Collation, e: Evidence): Text {
    Stable(le, ManifestJson(NAMES, e))
  }

  /** No two evidence objects are stored alike unless the checksum collides on these two, although dates and precision
      are lost. */
  lemma StoreInjective(le: Collation, hash: Hash, e: Evidence, f: Evidence)
    requires ValidEvidence(e) && ValidEvidence(f) && Apart(hash, EvidenceText(le, e), EvidenceText(le, f))
    requires Store(le, hash, e) == Store(le, hash, f)
    ensures e == f
  {
    NamesDistinct();
    SameStableSameEvidence(le, NAMES, e, f);
  }

  /** A field that is left out, null, or a text. */
  ghost predicate SaysDate(m: map<Text, Meaning>, key: Text, date: Date) {
    match date
    case Omitted => key !in m
    case ExplicitNull => key in m && m[key] == MNull
    case On(day) => key in m && m[key] == MStr(day)
  }

  ghost predicate SaysText(m: map<Text, Meaning>, key: Text, text: Text) {
    key in m && m[key] == MStr(text)
  }

  /** The object says what the evidence does, and nothing else. */
  ghost predicate Says(m: map<Text, Meaning>, k: Names, e: Evidence) {
    && SaysText(m, k.sourceKey, e.sourceKey) && SaysText(m, k.sourceLocator, e.sourceLocator)
    && SaysText(m, k.capturedFact, e.capturedFact) && SaysText(m, k.rightsClass, e.rightsClass)
    && SaysText(m, k.reviewedBy, e.reviewedBy)
    && SaysText(m, k.reviewedAt, e.reviewedAt.seconds + (if e.reviewedAt.digits == [] then [] else [0x2E] + e.reviewedAt.digits) + [0x5A])
    && SaysDate(m, k.effectiveFrom, e.effectiveFrom) && SaysDate(m, k.effectiveTo, e.effectiveTo)
    && m.Keys <= k.All()
  }

  lemma MeaningSays(k: Names, e: Evidence)
    requires k.Distinct()
    ensures Says(EvidenceMeaning(k, e), k, e)
  {
    MeaningReads(k, e);
  }

  /** A JSON object that says what the evidence does. */
  ghost predicate SaysEvidence(text: Text, k: Names, e: Evidence) {
    var read := JsonReader.Read(text);
    read.Some? && Denote(read.value).MObj? && Says(Denote(read.value).fields, k, e)
  }

  lemma JsonSays(le: Collation, k: Names, e: Evidence)
    requires k.Distinct()
    ensures SaysEvidence(Stable(le, ManifestJson(k, e)), k, e)
  {
    ManifestJsonMeans(k, e);
    JsonReader.StableIsJson(le, ManifestJson(k, e));
    MeaningSays(k, e);
  }

  /** The text that is checksummed is a JSON object, under the eight names of the schema. */
  lemma EvidenceSays(le: Collation, e: Evidence, k: Names)
    requires k == Names(Ascii("sourceKey"), Ascii("sourceLocator"), Ascii("capturedFact"), Ascii("effectiveFrom"),
                        Ascii("effectiveTo"), Ascii("rightsClass"), Ascii("reviewedBy"), Ascii("reviewedAt"))
    ensures SaysEvidence(EvidenceText(le, e), k, e)
  {
    NamesDistinct();
    JsonSays(le, NAMES, e);
  }

  ghost predicate Refuted(le: Collation, hash: Hash, row: Row, precision: nat, froms: seq<Date>, tos: seq<Date>) {
    |row.fraction| <= precision ==> forall from, to | from in froms && to in tos ::
      Checksum(le, hash, Candidate(row, precision, from, to)) != row.checksum
  }

  /** The two inner loops of projectEvidence: one precision, every reading of the two dates. */
  method TryPrecision(le: Collation, hash: Hash, row: Row, precision: nat) returns (r: Option<Evidence>)
    requires EvidenceCollation(le, NAMES) && Printed(row) && |row.fraction| <= precision <= 6
    ensures r.Some? ==> ValidEvidence(r.value) && Store(le, hash, r.value) == row
    ensures r.None? ==> Refuted(le, hash, row, precision, Dates(row.effectiveFrom), Dates(row.effectiveTo))
  {
    var froms, tos := Dates(row.effectiveFrom), Dates(row.effectiveTo);
    for i := 0 to |froms|
      invariant Refuted(le, hash, row, precision, froms[..i], tos)
    {
      for j := 0 to |tos|
        invariant Refuted(le, hash, row, precision, [froms[i]], tos[..j])
      {
        var projected := Candidate(row, precision, froms[i], tos[j]);
        CandidateDenotes(le, hash, row, precision, froms[i], tos[j]);
        if hash(Stable(le, ProjectedJson(NAMES, projected))) == row.checksum {
          return Some(projected);
        }
        assert tos[..j + 1] == tos[..j] + [tos[j]];
      }
      assert tos[..|tos|] == tos && froms[..i + 1] == froms[..i] + [froms[i]];
    }
    assert froms[..|froms|] == froms;
    r := None;
  }

  lemma FoundTells(le: Collation, hash: Hash, row: Row, found: Evidence)
    requires ValidEvidence(found) && Store(le, hash, found) == row
    ensures forall e | ValidEvidence(e) && Store(le, hash, e) == row :: Apart(hash, EvidenceText(le, e), EvidenceText(le, found)) ==> found == e
  {
    forall e | ValidEvidence(e) && Store(le, hash, e) == row && Apart(hash, EvidenceText(le, e), EvidenceText(le, found)) ensures e == found {
      StoreInjective(le, hash, e, found);
    }
  }

  lemma NoneStored(le: Collation, hash: Hash, row: Row)
    requires forall k | 0 <= k < |PRECISIONS| :: Refuted(le, hash, row, PRECISIONS[k], Dates(row.effectiveFrom), Dates(row.effectiveTo))
    ensures forall e | ValidEvidence(e) :: Store(le, hash, e) != row
  {
    forall e | ValidEvidence(e) ensures Store(le, hash, e) != row {
      CandidatesComplete(le, hash, e);
      var n := |e.reviewedAt.digits|;
      assert PRECISIONS[0] == 0 && PRECISIONS[1] == 3 && PRECISIONS[2] == 6 && PRECISIONS[3] == 1 && PRECISIONS[4] == 2
        && PRECISIONS[5] == 4 && PRECISIONS[6] == 5;
      assert exists k | 0 <= k < |PRECISIONS| :: PRECISIONS[k] == n;
    }
  }

  /** Every field is its column's, a date may be missing where the column is empty, and the time may have more zeros. */
  ghost predicate ReadsColumns(row: Row, e: Evidence) {
    && e.sourceKey == row.sourceKey && e.sourceLocator == row.sourceLocator && e.capturedFact == row.capturedFact
    && e.rightsClass == row.rightsClass && e.reviewedBy == row.reviewedBy && e.reviewedAt.seconds == row.seconds
    && row.fraction <= e.reviewedAt.digits
    && (forall i | |row.fraction| <= i < |e.reviewedAt.digits| :: e.reviewedAt.digits[i] == 0x30)
    && (if row.effectiveFrom.Some? then e.effectiveFrom == On(row.effectiveFrom.value) else !e.effectiveFrom.On?)
    && (if row.effectiveTo.Some? then e.effectiveTo == On(row.effectiveTo.value) else !e.effectiveTo.On?)
  }

  /**
   * projectEvidence. It answers with an object that is stored as exactly this row, or with an error when there is
   * none; so the row of an evidence object gives back that very object, unless the checksum collides on the two.
   */
  method ProjectEvidence(le: Collation, hash: Hash, row: Row) returns (r: Result<Evidence>)
    requires EvidenceCollation(le, NAMES) && Printed(row)
    ensures r.Ok? ==> ValidEvidence(r.value) && Store(le, hash, r.value) == row && ReadsColumns(row, r.value)
    ensures r.Ok? ==> hash(EvidenceText(le, r.value)) == row.checksum
    ensures r.Err? ==> forall e | ValidEvidence(e) :: Store(le, hash, e) != row
    ensures forall e | ValidEvidence(e) && Store(le, hash, e) == row ::
      r.Ok? && (Apart(hash, EvidenceText(le, e), EvidenceText(le, r.value)) ==> r.value == e)
  {
    ghost var froms, tos := Dates(row.effectiveFrom), Dates(row.effectiveTo);
    for p := 0 to |PRECISIONS|
      invariant forall k | 0 <= k < p :: Refuted(le, hash, row, PRECISIONS[k], froms, tos)
    {
      if |row.fraction| <= PRECISIONS[p] {
        var found := TryPrecision(le, hash, row, PRECISIONS[p]);
        if found.Some? {
          FoundTells(le, hash, row, found.value);
          return Ok(found.value);
        }
      }
    }
    NoneStored(le, hash, row);
    r := Err("evidence does not reproduce its stored checksum");
  }
}
