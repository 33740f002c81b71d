/**
 * relabelManifestsMatch: two manifests match when the checksums agree after each alias row was replaced by its printed
 * form and the printed forms were sorted. SHA-256 is a parameter that does not collide on the two texts compared.
 */
module ManifestMatch {
  import opened CanonicalJson

  /** A manifest as JSON: its alias rows, and every other field. */
  datatype Manifest = Manifest(rest: Fields, aliases: Items)

  /** The key "aliases". */
  const ALIASES: Text := [0x61, 0x6C, 0x69, 0x61, 0x73, 0x65, 0x73]

  ghost predicate ValidManifest(m: Manifest) {
    ValidFields(m.rest) && ALIASES !in Keys(m.rest) && ValidItems(m.aliases)
  }

  /** The collation tells apart the keys of every object of the manifest. */
  ghost predicate Collated(le: Collation, m: Manifest) {
    && TotalPreorder(le)
    && NoTies(le, MObj(DenoteFields(m.rest)[ALIASES := MArr(DenoteItems(m.aliases))]))
  }

  /** Array.prototype.sort without a comparator: by code units. */
  predicate UnitsLe(a: Text, b: Text) {
    a == [] || (b != [] && (a[0] < b[0] || (a[0] == b[0] && UnitsLe(a[1..], b[1..]))))
  }

  function InsertText(t: Text, sorted: seq<Text>): seq<Text> {
    if sorted == [] || UnitsLe(t, sorted[0]) then [t] + sorted else [sorted[0]] + InsertText(t, sorted[1..])
  }

  function SortTexts(texts: seq<Text>): seq<Text> {
    if texts == [] then [] else InsertText(texts[0], SortTexts(texts[1..]))
  }

  function PrintedAliases(le: Collation, aliases: Items): seq<Text> {
    if aliases.NoItems? then [] else [Stable(le, aliases.head)] + PrintedAliases(le, aliases.tail)
  }

  function Strings(texts: seq<Text>): Items {
    if texts == [] then NoItems else Item(Str(texts[0]), Strings(texts[1..]))
  }

  function Comparison(le: Collation, m: Manifest): Json {
    Obj(Field(ALIASES, Arr(Strings(SortTexts(PrintedAliases(le, m.aliases)))), m.rest))
  }

  predicate RelabelManifestsMatch(le: Collation, hash: Hash, expected: Manifest, actual: Manifest) {
    hash(Stable(le, Comparison(le, expected))) == hash(Stable(le, Comparison(le, actual)))
  }

  // ------------------------------------------------------------------------------------------------ sorting texts

  lemma UnitsLeOrder(a: Text, b: Text)
    ensures UnitsLe(a, b) || UnitsLe(b, a)
    ensures UnitsLe(a, b) && UnitsLe(b, a) ==> a == b
  {
    if a != [] && b != [] {
      UnitsLeOrder(a[1..], b[1..]);
      assert a == [a[0]] + a[1..] && b == [b[0]] + b[1..];
    }
  }

  lemma {:induction false} UnitsLeTransitive(a: Text, b: Text, c: Text)
    requires UnitsLe(a, b) && UnitsLe(b, c)
    ensures UnitsLe(a, c)
  {
    if a != [] && a[0] == b[0] == c[0] {
      UnitsLeTransitive(a[1..], b[1..], c[1..]);
    }
  }

  ghost predicate SortedTexts(texts: seq<Text>) {
    forall i, j | 0 <= i < j < |texts| :: UnitsLe(texts[i], texts[j])
  }

  lemma {:induction false} InsertTextSorts(t: Text, sorted: seq<Text>)
    requires SortedTexts(sorted)
    ensures SortedTexts(InsertText(t, sorted)) && multiset(InsertText(t, sorted)) == multiset(sorted) + multiset{t}
  {
    if sorted == [] {
    } else if UnitsLe(t, sorted[0]) {
      forall j | 0 < j < |sorted| ensures UnitsLe(t, sorted[j]) {
        UnitsLeTransitive(t, sorted[0], sorted[j]);
      }
    } else {
      UnitsLeOrder(t, sorted[0]);
      InsertTextSorts(t, sorted[1..]);
      var tail := InsertText(t, sorted[1..]);
      assert sorted == [sorted[0]] + sorted[1..];
      forall j | 0 <= j < |tail| ensures UnitsLe(sorted[0], tail[j]) {
        assert tail[j] in multiset(tail);
        assert tail[j] == t || tail[j] in sorted[1..];
      }
    }
  }

  lemma {:induction false} SortTextsSorts(texts: seq<Text>)
    ensures SortedTexts(SortTexts(texts)) && multiset(SortTexts(texts)) == multiset(texts)
  {
    if texts != [] {
      SortTextsSorts(texts[1..]);
      InsertTextSorts(texts[0], SortTexts(texts[1..]));
      assert texts == [texts[0]] + texts[1..];
    }
  }

  lemma LeastFirst(a: seq<Text>, b: seq<Text>)
    requires SortedTexts(a) && a != [] && b != [] && multiset(a) == multiset(b)
    ensures UnitsLe(a[0], b[0])
  {
    UnitsLeOrder(a[0], a[0]);
    assert b[0] in multiset(a);
  }

  lemma BagCons(s: seq<Text>)
    requires s != []
    ensures s == [s[0]] + s[1..] && multiset(s[1..]) == multiset(s) - multiset{s[0]}
  {
    assert s == [s[0]] + s[1..];
  }

  lemma {:induction false} SortedUnique(a: seq<Text>, b: seq<Text>)
    requires SortedTexts(a) && SortedTexts(b) && multiset(a) == multiset(b)
    ensures a == b
  {
    assert |a| == |multiset(a)| == |multiset(b)| == |b|;
    if a != [] {
      LeastFirst(a, b);
      LeastFirst(b, a);
      UnitsLeOrder(a[0], b[0]);
      var x := a[0];
      BagCons(a);
      BagCons(b);
      assert multiset(a[1..]) == multiset(b[1..]);
      SortedUnique(a[1..], b[1..]);
    }
  }

  // ------------------------------------------------------------------------------------------------ two views of one list

  ghost predicate Linked<A(!new), B(!new)>(p: seq<A>, q: seq<B>, p': seq<A>, q': seq<B>) {
    && |p| == |q| && |p'| == |q'|
    && forall i, j | 0 <= i < |p| && 0 <= j < |p'| :: p[i] == p'[j] ==> q[i] == q'[j]
  }

  function Without<T>(s: seq<T>, i: nat): seq<T>
    requires i < |s|
  {
    s[..i] + s[i + 1..]
  }

  lemma BagWithout<T>(s: seq<T>, i: nat)
    requires i < |s|
    ensures multiset(Without(s, i)) == multiset(s) - multiset{s[i]}
  {
    assert s == s[..i] + [s[i]] + s[i + 1..];
  }

  lemma BagBack<T>(s: seq<T>, i: nat)
    requires i < |s|
    ensures multiset(s) == multiset(Without(s, i)) + multiset{s[i]}
  {
    BagWithout(s, i);
    assert s[i] in multiset(s);
  }

  lemma LinkedWithout<A(!new), B(!new)>(p: seq<A>, q: seq<B>, p': seq<A>, q': seq<B>, j: nat)
    requires Linked(p, q, p', q') && p != [] && j < |p'|
    ensures Linked(Without(p, 0), Without(q, 0), Without(p', j), Without(q', j))
  {
  }

  /** If equal entries in one view are equal in the other, a permutation in the first view is one in the second. */
  lemma {:induction false} BagsAgree<A(!new), B(!new)>(p: seq<A>, q: seq<B>, p': seq<A>, q': seq<B>)
    requires Linked(p, q, p', q') && multiset(p) == multiset(p')
    ensures multiset(q) == multiset(q')
    decreases |p|
  {
    assert |p| == |multiset(p)| == |multiset(p')| == |p'|;
    if p != [] {
      assert p[0] in multiset(p');
      var j :| 0 <= j < |p'| && p'[j] == p[0];
      BagWithout(p, 0);
      BagWithout(p', j);
      LinkedWithout(p, q, p', q', j);
      BagsAgree(Without(p, 0), Without(q, 0), Without(p', j), Without(q', j));
      BagBack(q, 0);
      BagBack(q', j);
    }
  }

  function Nth(items: Items, i: nat): Json
    requires i < |DenoteItems(items)|
  {
    if i == 0 then items.head else Nth(items.tail, i - 1)
  }

  lemma {:induction false} NthAlias(le: Collation, items: Items, i: nat)
    requires i < |DenoteItems(items)| && ValidItems(items)
    ensures |PrintedAliases(le, items)| == |DenoteItems(items)|
    ensures PrintedAliases(le, items)[i] == Stable(le, Nth(items, i))
    ensures DenoteItems(items)[i] == Denote(Nth(items, i)) && Valid(Nth(items, i))
  {
    PrintedLength(le, items);
    if i > 0 {
      NthAlias(le, items.tail, i - 1);
    }
  }

  lemma PrintedLength(le: Collation, items: Items)
    ensures |PrintedAliases(le, items)| == |DenoteItems(items)|
  {
  }

  lemma {:induction false} AliasBags(le: Collation, a: Items, b: Items)
    requires TotalPreorder(le) && ValidItems(a) && ValidItems(b)
    requires forall i | 0 <= i < |DenoteItems(a)| :: NoTies(le, DenoteItems(a)[i])
    ensures multiset(PrintedAliases(le, a)) == multiset(PrintedAliases(le, b))
       <==> multiset(DenoteItems(a)) == multiset(DenoteItems(b))
  {
    PrintedLength(le, a);
    PrintedLength(le, b);
    var p, q, p', q' := PrintedAliases(le, a), DenoteItems(a), PrintedAliases(le, b), DenoteItems(b);
    forall i, j | 0 <= i < |q| && 0 <= j < |q'| ensures p[i] == p'[j] <==> q[i] == q'[j] {
      NthAlias(le, a, i);
      NthAlias(le, b, j);
      StableExact(le, Nth(a, i), Nth(b, j));
    }
    if multiset(p) == multiset(p') {
      BagsAgree(p, q, p', q');
    }
    if multiset(q) == multiset(q') {
      BagsAgree(q, p, q', p');
    }
  }

  // ------------------------------------------------------------------------------------------------ the match, exactly

  function StringMeanings(texts: seq<Text>): seq<Meaning> {
    if texts == [] then [] else [MStr(texts[0])] + StringMeanings(texts[1..])
  }

  lemma {:induction false} StringsMean(le: Collation, texts: seq<Text>)
    ensures DenoteItems(Strings(texts)) == StringMeanings(texts) && ValidItems(Strings(texts))
    ensures forall i | 0 <= i < |StringMeanings(texts)| :: NoTies(le, StringMeanings(texts)[i])
  {
    if texts != [] {
      StringsMean(le, texts[1..]);
    }
  }

  lemma {:induction false} StringMeaningsInjective(a: seq<Text>, b: seq<Text>)
    requires StringMeanings(a) == StringMeanings(b)
    ensures a == b
  {
    if a != [] && b != [] {
      assert StringMeanings(a)[0] == MStr(a[0]) && StringMeanings(b)[0] == MStr(b[0]);
      assert StringMeanings(a)[1..] == StringMeanings(a[1..]) && StringMeanings(b)[1..] == StringMeanings(b[1..]);
      StringMeaningsInjective(a[1..], b[1..]);
    }
  }

  lemma ComparisonMeans(le: Collation, m: Manifest)
    requires ValidManifest(m) && Collated(le, m)
    ensures Valid(Comparison(le, m)) && NoTies(le, Denote(Comparison(le, m)))
    ensures Denote(Comparison(le, m))
         == MObj(DenoteFields(m.rest)[ALIASES := MArr(StringMeanings(SortTexts(PrintedAliases(le, m.aliases))))])
  {
    var texts := SortTexts(PrintedAliases(le, m.aliases));
    StringsMean(le, texts);
    var whole := DenoteFields(m.rest)[ALIASES := MArr(DenoteItems(m.aliases))];
    var fields := DenoteFields(m.rest)[ALIASES := MArr(StringMeanings(texts))];
    assert fields.Keys == whole.Keys;
    forall a | a in fields ensures NoTies(le, fields[a]) {
      assert a in whole && NoTies(le, whole[a]);
      assert a != ALIASES ==> fields[a] == whole[a];
    }
    forall a, b | a in fields && b in fields ensures !Tie(le, a, b) {
      assert a in whole && b in whole;
    }
  }

  lemma SortedFormsAgree(s: seq<Text>, t: seq<Text>)
    ensures StringMeanings(SortTexts(s)) == StringMeanings(SortTexts(t)) <==> multiset(s) == multiset(t)
  {
    SortTextsSorts(s);
    SortTextsSorts(t);
    if StringMeanings(SortTexts(s)) == StringMeanings(SortTexts(t)) {
      StringMeaningsInjective(SortTexts(s), SortTexts(t));
    }
    if multiset(s) == multiset(t) {
      SortedUnique(SortTexts(s), SortTexts(t));
    }
  }

  lemma FieldsAgree(f: map<Text, Meaning>, g: map<Text, Meaning>, x: Meaning, y: Meaning)
    requires ALIASES !in f && ALIASES !in g
    ensures f[ALIASES := x] == g[ALIASES := y] <==> f == g && x == y
  {
    assert f == f[ALIASES := x] - {ALIASES} && g == g[ALIASES := y] - {ALIASES};
    assert f[ALIASES := x][ALIASES] == x && g[ALIASES := y][ALIASES] == y;
  }

  lemma AliasesNoTies(le: Collation, m: Manifest)
    requires Collated(le, m)
    ensures forall i | 0 <= i < |DenoteItems(m.aliases)| :: NoTies(le, DenoteItems(m.aliases)[i])
  {
    var whole := DenoteFields(m.rest)[ALIASES := MArr(DenoteItems(m.aliases))];
    assert ALIASES in whole && NoTies(le, whole[ALIASES]);
  }

  /** The match holds exactly when everything but the aliases is equal and the alias lists are permutations. */
  lemma MatchExact(le: Collation, hash: Hash, m: Manifest, n: Manifest)
    requires ValidManifest(m) && ValidManifest(n) && Collated(le, m) && Collated(le, n)
    requires Apart(hash, Stable(le, Comparison(le, m)), Stable(le, Comparison(le, n)))
    ensures RelabelManifestsMatch(le, hash, m, n) <==>
      && DenoteFields(m.rest) == DenoteFields(n.rest)
      && multiset(DenoteItems(m.aliases)) == multiset(DenoteItems(n.aliases))
  {
    ComparisonMeans(le, m);
    ComparisonMeans(le, n);
    StableExact(le, Comparison(le, m), Comparison(le, n));
    var s, t := PrintedAliases(le, m.aliases), PrintedAliases(le, n.aliases);
    FieldsAgree(DenoteFields(m.rest), DenoteFields(n.rest),
                MArr(StringMeanings(SortTexts(s))), MArr(StringMeanings(SortTexts(t))));
    SortedFormsAgree(s, t);
    AliasesNoTies(le, m);
    AliasBags(le, m.aliases, n.aliases);
  }
}
