/** Printing with canonicalJson and reading back with parseStrictJson, and when equality of the
    printed texts is equality of the values. */
module JsonRoundTrip {
  import opened Wrappers
  import opened Lists
  import opened Sorting
  import opened JsonSyntax
  import opened JsonLanguage
  import opened JsonValues
  import opened StrictJson
  import opened CanonicalJson

  // ----- the tree of a value is well formed and decodes to the value

  lemma {:induction false} TreeOk(v: Json)
    requires WellFormed(v)
    ensures NodeOk(Tree(v)) && RfcSpaced(Tree(v))
    decreases v, 1
  {
    match v {
      case JString(t) => QuoteDecodes(t);
      case JArray(items) => if items != [] { TreeItemsOk(items); }
      case JObject(es) => if es != [] { TreeEntriesOk(es); }
      case _ =>
    }
  }

  lemma {:induction false} TreeItemsOk(items: seq<Json>)
    requires items != [] && forall i :: 0 <= i < |items| ==> WellFormed(items[i])
    ensures ElementsOk(TreeItems(items)) && RfcSpacedElements(TreeItems(items))
    decreases items, 0
  {
    TreeOk(items[0]);
    if |items| == 1 {
    } else {
      TreeItemsOk(items[1..]);
    }
  }

  lemma {:induction false} TreeEntriesOk(es: seq<Entry>)
    requires es != [] && forall i :: 0 <= i < |es| ==> WellFormed(es[i].value)
    ensures MembersOk(TreeEntries(es)) && RfcSpacedMembers(TreeEntries(es))
    decreases es, 0
  {
    TreeOk(es[0].value);
    QuoteDecodes(es[0].key);
    if |es| == 1 {
    } else {
      TreeEntriesOk(es[1..]);
    }
  }

  /** A tree of a value decodes to the value with its entries in property order. */
  lemma {:induction false} TreeDecodes(v: Json)
    requires WellFormed(v) && NodeOk(Tree(v))
    ensures DistinctKeys(Tree(v)) && Decode(Tree(v), true) == Arrange(PropertyLe, v)
    decreases v, 1
  {
    match v {
      case JString(t) => QuoteDecodes(t);
      case JArray(items) => if items != [] { TreeItemsDecode(v, items); }
      case JObject(es) =>
        if es != [] {
          TreeEntriesDecode(v, es);
          DecodedKeys(TreeEntries(es), true);
          var decoded := ArrangeEntries(PropertyLe, v, es);
          assert KeysOf(decoded) == KeysOf(es);
          PutAllDistinct(decoded, true);
          ArrangeSorted(PropertyLe, v, es);
        }
      case _ =>
    }
  }

  /** Arranging the values and then sorting by key, or the other way round. */
  lemma ArrangeSorted(le: (Text, Text) -> bool, parent: Json, es: seq<Entry>)
    requires forall i :: 0 <= i < |es| ==> es[i].value < parent
    ensures forall i :: 0 <= i < |es| ==> SortEntries(le, es)[i] in es
    ensures SortEntries(le, ArrangeEntries(le, parent, es)) == ArrangeEntries(le, parent, SortEntries(le, es))
  {
    var f := (e: Entry) => Entry(e.key, Arrange(le, e.value));
    var sorted := SortEntries(le, es);
    assert forall i :: 0 <= i < |sorted| ==> sorted[i] in es;
    SortEach(EntryOrder(le), f, es);
    EachAt(f, es);
    EachAt(f, sorted);
    assert ArrangeEntries(le, parent, es) == Each(f, es);
    assert ArrangeEntries(le, parent, sorted) == Each(f, sorted);
  }

  lemma {:induction false} TreeItemsDecode(parent: Json, items: seq<Json>)
    requires items != [] && forall i :: 0 <= i < |items| ==> WellFormed(items[i]) && items[i] < parent
    requires ElementsOk(TreeItems(items))
    ensures DistinctKeysElements(TreeItems(items))
    ensures DecodeElements(TreeItems(items), true) == ArrangeItems(PropertyLe, parent, items)
    decreases parent, 0, |items|
  {
    assert PaddedOk(TreeItems(items).p);
    TreeDecodes(items[0]);
    if |items| == 1 {
    } else {
      TreeItemsDecode(parent, items[1..]);
    }
  }

  lemma {:induction false} TreeEntriesDecode(parent: Json, es: seq<Entry>)
    requires es != [] && forall i :: 0 <= i < |es| ==> WellFormed(es[i].value) && es[i].value < parent
    requires MembersOk(TreeEntries(es))
    ensures DistinctKeysMembers(TreeEntries(es))
    ensures DecodeMembers(TreeEntries(es), true) == ArrangeEntries(PropertyLe, parent, es)
    decreases parent, 0, |es|
  {
    assert PaddedOk(TreeEntries(es).p);
    TreeDecodes(es[0].value);
    QuoteDecodes(es[0].key);
    if |es| == 1 {
    } else {
      TreeEntriesDecode(parent, es[1..]);
    }
  }

  // ----- sorting the entries changes neither well-formedness nor meaning

  lemma KeyOfEntry(es: seq<Entry>, e: Entry)
    requires e in es
    ensures e.key in KeysOf(es)
  {
    var i :| 0 <= i < |es| && es[i] == e;
    assert KeysOf(es)[i] == e.key;
  }

  /** Lists with the same entries have the same keys. */
  lemma SameEntriesSameKeys(a: seq<Entry>, b: seq<Entry>, k: Text)
    requires (forall e :: e in a ==> e in b) && k in KeysOf(a)
    ensures k in KeysOf(b)
  {
    var i :| 0 <= i < |a| && KeysOf(a)[i] == k;
    assert a[i] in a;
    KeyOfEntry(b, a[i]);
  }

  lemma DistinctEntryKeys(es: seq<Entry>, e: Entry, f: Entry)
    requires Distinct(KeysOf(es)) && e in es && f in es && e.key == f.key
    ensures e == f
  {
    var i :| 0 <= i < |es| && es[i] == e;
    var j :| 0 <= j < |es| && es[j] == f;
    assert KeysOf(es)[i] == KeysOf(es)[j];
  }

  lemma SortedEntryKeys(le: (Text, Text) -> bool, es: seq<Entry>)
    requires Distinct(KeysOf(es))
    ensures Distinct(KeysOf(SortEntries(le, es)))
    ensures forall k :: k in KeysOf(SortEntries(le, es)) <==> k in KeysOf(es)
  {
    var r := SortEntries(le, es);
    forall i, j | 0 <= i < j < |es| ensures es[i] != es[j] {
      assert KeysOf(es)[i] != KeysOf(es)[j];
    }
    PermutationKeepsDistinct(es, r);
    forall i, j | 0 <= i < j < |r| ensures KeysOf(r)[i] != KeysOf(r)[j] {
      assert r[i] in es && r[j] in es;
      if r[i].key == r[j].key { DistinctEntryKeys(es, r[i], r[j]); }
    }
    forall k ensures k in KeysOf(r) <==> k in KeysOf(es) {
      if k in KeysOf(es) { SameEntriesSameKeys(es, r, k); }
      if k in KeysOf(r) { SameEntriesSameKeys(r, es, k); }
    }
  }

  lemma {:induction false} ArrangeMeansSame(le: (Text, Text) -> bool, v: Json)
    requires WellFormed(v)
    ensures WellFormed(Arrange(le, v)) && MeaningOf(Arrange(le, v)) == MeaningOf(v)
    decreases v
  {
    match v {
      case JArray(items) =>
        var r := ArrangeItems(le, v, items);
        forall i | 0 <= i < |items| ensures WellFormed(r[i]) && MeaningOf(r[i]) == MeaningOf(items[i]) {
          ArrangeMeansSame(le, items[i]);
        }
      case JObject(es) => ArrangeObjectMeansSame(le, v);
      case _ =>
    }
  }

  lemma {:induction false} ArrangeObjectMeansSame(le: (Text, Text) -> bool, v: Json)
    requires v.JObject? && WellFormed(v)
    ensures WellFormed(Arrange(le, v)) && MeaningOf(Arrange(le, v)) == MeaningOf(v)
    decreases v, 0
  {
    var es := v.entries;
    var sorted := SortEntries(le, es);
    assert forall i :: 0 <= i < |sorted| ==> sorted[i] in es;
    var r := ArrangeEntries(le, v, sorted);
    SortedEntryKeys(le, es);
    assert KeysOf(r) == KeysOf(sorted);
    forall i | 0 <= i < |r|
      ensures WellFormed(r[i].value) && MeaningOf(r[i].value) == MeaningOf(sorted[i].value)
    {
      ArrangeMeansSame(le, sorted[i].value);
    }
    assert WellFormed(JObject(r));
    SameEntriesSameMeaning(es, sorted, r);
  }

  lemma SameEntriesSameMeaning(es: seq<Entry>, sorted: seq<Entry>, r: seq<Entry>)
    requires WellFormed(JObject(es)) && WellFormed(JObject(r))
    requires |sorted| == |r| && forall e :: e in sorted <==> e in es
    requires forall i :: 0 <= i < |r| ==>
      r[i].key == sorted[i].key && MeaningOf(r[i].value) == MeaningOf(sorted[i].value)
    ensures MeaningOf(JObject(r)) == MeaningOf(JObject(es))
  {
    var m, m' := MembersOf(es), MembersOf(r);
    KeysAreMembers(es);
    KeysAreMembers(r);
    forall k | k in m ensures k in m' && m'[k] == m[k] {
      var i :| 0 <= i < |es| && es[i].key == k;
      assert es[i] in sorted;
      var j :| 0 <= j < |sorted| && sorted[j] == es[i];
      MemberMeaning(es, i);
      MemberMeaning(r, j);
    }
    forall k | k in m' ensures k in m {
      var j :| 0 <= j < |r| && r[j].key == k;
      assert sorted[j] in es;
      var i :| 0 <= i < |es| && es[i] == sorted[j];
      MemberMeaning(es, i);
    }
    assert m.Keys == m'.Keys;
    assert m == m';
  }

  // ----- round trip

  /** What reading a printed value gives: its entries sorted by le and then put into an object. */
  function ReadBack(le: (Text, Text) -> bool, v: Json): Json { Arrange(PropertyLe, Arrange(le, v)) }

  lemma {:induction false} ArrangedInOrder(v: Json)
    ensures InPropertyOrder(Arrange(PropertyLe, v))
    decreases v
  {
    match v {
      case JArray(items) =>
        forall i | 0 <= i < |items| ensures InPropertyOrder(Arrange(PropertyLe, items[i])) {
          ArrangedInOrder(items[i]);
        }
      case JObject(es) =>
        var sorted := SortEntries(PropertyLe, es);
        assert forall i :: 0 <= i < |sorted| ==> sorted[i] in es;
        var r := ArrangeEntries(PropertyLe, v, sorted);
        forall i | 0 <= i < |r| ensures InPropertyOrder(r[i].value) { ArrangedInOrder(sorted[i].value); }
        PropertyLeTotal();
        SortedKeysAscend(PropertyLe, es);
        assert KeysOf(r) == KeysOf(sorted);
      case _ =>
    }
  }

  lemma PrintedTreeParses(text: Text, v: Json)
    requires WellFormed(v) && text == Spell(Tree(v))
    ensures ParseStrictJson(text) == Ok(Arrange(PropertyLe, v))
  {
    TreeOk(v);
    TreeDecodes(v);
    var p := Padded([], Tree(v), []);
    assert SpellPadded(p) == text;
    FirstAndLastWinsAgree(p.value);
    assert Derives(p, text) && RfcSpacedPadded(p);
    StrictParseExact(text, Arrange(PropertyLe, v));
  }

  /** canonicalJson prints JSON that parseStrictJson accepts, and reading it gives a value that means
      the same, with its properties in the order JavaScript keeps. It holds for every comparator. */
  lemma CanonicalRoundTrip(le: (Text, Text) -> bool, v: Json)
    requires WellFormed(v)
    ensures ParseStrictJson(Canonical(le, v)) == Ok(ReadBack(le, v))
    ensures WellFormed(ReadBack(le, v)) && InPropertyOrder(ReadBack(le, v))
    ensures MeaningOf(ReadBack(le, v)) == MeaningOf(v)
  {
    ArrangeMeansSame(le, v);
    ArrangeMeansSame(PropertyLe, Arrange(le, v));
    ArrangedInOrder(Arrange(le, v));
    CanonicalIsSpelling(le, v);
    PrintedTreeParses(Canonical(le, v), Arrange(le, v));
  }

  // ----- when text equality is value equality

  /** Every object key of v, at every depth, is one of keys. */
  ghost predicate KeysWithin(v: Json, keys: iset<Text>) {
    match v
    case JArray(items) => forall i :: 0 <= i < |items| ==> KeysWithin(items[i], keys)
    case JObject(es) => forall i :: 0 <= i < |es| ==> es[i].key in keys && KeysWithin(es[i].value, keys)
    case _ => true
  }

  /** No two different keys compare as equal, array indices apart. `localeCompare` can violate this:
      it returns 0 for canonically equivalent strings. */
  ghost predicate NoKeyTies(le: (Text, Text) -> bool, keys: iset<Text>) {
    forall x, y :: x in keys && y in keys && !IsIndex(x) && !IsIndex(y) && le(x, y) && le(y, x) ==> x == y
  }

  /** A value as JavaScript can hold it, with keys among keys. */
  ghost predicate Comparable(v: Json, keys: iset<Text>) {
    WellFormed(v) && InPropertyOrder(v) && KeysWithin(v, keys)
  }

  ghost predicate TextEqualityDecides(le: (Text, Text) -> bool, keys: iset<Text>) {
    forall a, b | Comparable(a, keys) && Comparable(b, keys) ::
      Canonical(le, a) == Canonical(le, b) <==> MeaningOf(a) == MeaningOf(b)
  }

  lemma EntryOrderTotal(le: (Text, Text) -> bool)
    requires TotalPreorder(le)
    ensures TotalPreorder(EntryOrder(le))
  {
    var order := EntryOrder(le);
    forall e, f ensures order(e, f) || order(f, e) {
      assert le(e.key, f.key) || le(f.key, e.key);
    }
    forall e, f, g | order(e, f) && order(f, g) ensures order(e, g) {
      assert le(e.key, f.key) && le(f.key, g.key);
    }
  }

  lemma SortedKeysAscend(le: (Text, Text) -> bool, es: seq<Entry>)
    requires TotalPreorder(le)
    ensures Ascending(le, KeysOf(SortEntries(le, es)))
  {
    EntryOrderTotal(le);
    SortAscends(EntryOrder(le), es);
    var r := SortEntries(le, es);
    forall i, j | 0 <= i < j < |r| ensures le(KeysOf(r)[i], KeysOf(r)[j]) {
      assert EntryOrder(le)(r[i], r[j]);
    }
  }

  /** The sort is stable, so keys that tie stay in property order. */
  lemma SortedKeysAscendFiner(le: (Text, Text) -> bool, es: seq<Entry>)
    requires TotalPreorder(le) && Ascending(PropertyLe, KeysOf(es))
    ensures Ascending(Refined(le, PropertyLe), KeysOf(SortEntries(le, es)))
  {
    var order, tie := EntryOrder(le), EntryOrder(PropertyLe);
    EntryOrderTotal(le);
    forall i, j | 0 <= i < j < |es| ensures tie(es[i], es[j]) {
      assert PropertyLe(KeysOf(es)[i], KeysOf(es)[j]);
    }
    SortStable(order, tie, es);
    var r := SortEntries(le, es);
    forall i, j | 0 <= i < j < |r| ensures Refined(le, PropertyLe)(KeysOf(r)[i], KeysOf(r)[j]) {
      assert Refined(order, tie)(r[i], r[j]);
    }
  }

  lemma FinerHasNoTies(le: (Text, Text) -> bool, keys: iset<Text>, s: seq<Text>)
    requires NoKeyTies(le, keys) && forall k :: k in s ==> k in keys
    ensures NoTies(Refined(le, PropertyLe), s)
  {
    forall x, y | x in s && y in s && Refined(le, PropertyLe)(x, y) && Refined(le, PropertyLe)(y, x) ensures x == y {
      PropertyTies(x, y);
    }
  }

  lemma SameKeysSortAlike(le: (Text, Text) -> bool, keys: iset<Text>, a: seq<Entry>, b: seq<Entry>)
    requires TotalPreorder(le) && NoKeyTies(le, keys)
    requires Distinct(KeysOf(a)) && Distinct(KeysOf(b))
    requires Ascending(PropertyLe, KeysOf(a)) && Ascending(PropertyLe, KeysOf(b))
    requires forall k :: k in KeysOf(a) ==> k in keys
    requires forall k :: k in KeysOf(a) <==> k in KeysOf(b)
    ensures KeysOf(SortEntries(le, a)) == KeysOf(SortEntries(le, b))
  {
    var ka, kb := KeysOf(SortEntries(le, a)), KeysOf(SortEntries(le, b));
    SortedEntryKeys(le, a);
    SortedEntryKeys(le, b);
    SortedKeysAscendFiner(le, a);
    SortedKeysAscendFiner(le, b);
    DistinctSameMembers(ka, kb);
    FinerHasNoTies(le, keys, ka);
    AscendingUnique(Refined(le, PropertyLe), ka, kb);
  }

  lemma {:induction false} SameMeaningArrangeAlike(le: (Text, Text) -> bool, keys: iset<Text>, a: Json, b: Json)
    requires TotalPreorder(le) && NoKeyTies(le, keys)
    requires Comparable(a, keys) && WellFormed(b) && InPropertyOrder(b)
    requires MeaningOf(a) == MeaningOf(b)
    ensures Arrange(le, a) == Arrange(le, b)
    decreases a, 2
  {
    match a {
      case JArray(items) =>
        var m := MeaningOf(a).items;
        assert b.JArray? && |b.items| == |m| == |items|;
        forall i | 0 <= i < |items| ensures Arrange(le, items[i]) == Arrange(le, b.items[i]) {
          assert m[i] == MeaningOf(items[i]) && m[i] == MeaningOf(b).items[i] == MeaningOf(b.items[i]);
          SameMeaningArrangeAlike(le, keys, items[i], b.items[i]);
        }
        assert ArrangeItems(le, a, items) == ArrangeItems(le, b, b.items);
      case JObject(_) => SameObjectsArrangeAlike(le, keys, a, b);
      case _ =>
    }
  }

  lemma SameKeySameMeaning(ea: seq<Entry>, eb: seq<Entry>, e: Entry, f: Entry)
    requires WellFormed(JObject(ea)) && WellFormed(JObject(eb)) && MembersOf(ea) == MembersOf(eb)
    requires e in ea && f in eb && e.key == f.key
    ensures WellFormed(e.value) && WellFormed(f.value) && MeaningOf(e.value) == MeaningOf(f.value)
  {
    var j :| 0 <= j < |ea| && ea[j] == e;
    var k :| 0 <= k < |eb| && eb[k] == f;
    MemberMeaning(ea, j);
    MemberMeaning(eb, k);
  }

  lemma {:induction false} SameEntriesArrangeAlike(
      le: (Text, Text) -> bool, keys: iset<Text>, a: Json, b: Json, sa: seq<Entry>, sb: seq<Entry>)
    requires TotalPreorder(le) && NoKeyTies(le, keys)
    requires a.JObject? && Comparable(a, keys) && b.JObject? && WellFormed(b) && InPropertyOrder(b)
    requires MembersOf(a.entries) == MembersOf(b.entries)
    requires KeysOf(sa) == KeysOf(sb)
    requires forall i :: 0 <= i < |sa| ==> sa[i] in a.entries
    requires forall i :: 0 <= i < |sb| ==> sb[i] in b.entries
    ensures ArrangeEntries(le, a, sa) == ArrangeEntries(le, b, sb)
    decreases a, 0
  {
    assert |sa| == |KeysOf(sa)| == |KeysOf(sb)| == |sb|;
    var ra, rb := ArrangeEntries(le, a, sa), ArrangeEntries(le, b, sb);
    forall i | 0 <= i < |sa| ensures ra[i] == rb[i] {
      assert sa[i].key == KeysOf(sa)[i] == KeysOf(sb)[i] == sb[i].key;
      SameKeySameMeaning(a.entries, b.entries, sa[i], sb[i]);
      SameMeaningArrangeAlike(le, keys, sa[i].value, sb[i].value);
    }
  }

  lemma SortedEntriesOfSameMeaning(le: (Text, Text) -> bool, keys: iset<Text>, ea: seq<Entry>, eb: seq<Entry>)
    requires TotalPreorder(le) && NoKeyTies(le, keys) && KeysWithin(JObject(ea), keys)
    requires Distinct(KeysOf(ea)) && Distinct(KeysOf(eb)) && MembersOf(ea) == MembersOf(eb)
    requires Ascending(PropertyLe, KeysOf(ea)) && Ascending(PropertyLe, KeysOf(eb))
    ensures KeysOf(SortEntries(le, ea)) == KeysOf(SortEntries(le, eb))
  {
    KeysAreMembers(ea);
    KeysAreMembers(eb);
    SameKeysSortAlike(le, keys, ea, eb);
  }

  lemma {:induction false} SameObjectsArrangeAlike(le: (Text, Text) -> bool, keys: iset<Text>, a: Json, b: Json)
    requires TotalPreorder(le) && NoKeyTies(le, keys)
    requires a.JObject? && Comparable(a, keys) && WellFormed(b) && InPropertyOrder(b)
    requires MeaningOf(a) == MeaningOf(b)
    ensures Arrange(le, a) == Arrange(le, b)
    decreases a, 1
  {
    assert MembersOf(a.entries) == MembersOf(b.entries);
    SortedEntriesOfSameMeaning(le, keys, a.entries, b.entries);
    var sa, sb := SortEntries(le, a.entries), SortEntries(le, b.entries);
    assert forall i :: 0 <= i < |sa| ==> sa[i] in a.entries;
    assert forall i :: 0 <= i < |sb| ==> sb[i] in b.entries;
    SameEntriesArrangeAlike(le, keys, a, b, sa, sb);
  }

  lemma TextEqualityImpliesMeaning(le: (Text, Text) -> bool, a: Json, b: Json)
    requires WellFormed(a) && WellFormed(b) && Canonical(le, a) == Canonical(le, b)
    ensures MeaningOf(a) == MeaningOf(b)
  {
    CanonicalRoundTrip(le, a);
    CanonicalRoundTrip(le, b);
  }

  /** Comparing canonical texts compares values exactly when the key comparator has no ties. */
  lemma TextEqualityDecidesIffNoTies(le: (Text, Text) -> bool, keys: iset<Text>)
    requires TotalPreorder(le)
    ensures TextEqualityDecides(le, keys) <==> NoKeyTies(le, keys)
  {
    if NoKeyTies(le, keys) {
      forall a, b | Comparable(a, keys) && Comparable(b, keys)
        ensures Canonical(le, a) == Canonical(le, b) <==> MeaningOf(a) == MeaningOf(b)
      {
        if Canonical(le, a) == Canonical(le, b) { TextEqualityImpliesMeaning(le, a, b); }
        if MeaningOf(a) == MeaningOf(b) {
          SameMeaningArrangeAlike(le, keys, a, b);
          CanonicalIsSpelling(le, a);
          CanonicalIsSpelling(le, b);
        }
      }
    }
    if TextEqualityDecides(le, keys) {
      forall x, y | x in keys && y in keys && !IsIndex(x) && !IsIndex(y) && le(x, y) && le(y, x) ensures x == y {
        if x != y { TiedKeysPrintDifferently(le, keys, x, y); }
      }
    }
  }

  lemma TwoTextsOneMeaning(le: (Text, Text) -> bool, keys: iset<Text>, a: Json, b: Json)
    requires Comparable(a, keys) && Comparable(b, keys)
    requires MeaningOf(a) == MeaningOf(b) && ReadBack(le, a) != ReadBack(le, b)
    ensures !TextEqualityDecides(le, keys)
  {
    CanonicalRoundTrip(le, a);
    CanonicalRoundTrip(le, b);
  }

  function Pair(x: Text, y: Text): Json { JObject([Entry(x, JNull), Entry(y, JNull)]) }

  lemma PairMeaning(x: Text, y: Text, keys: iset<Text>)
    requires x in keys && y in keys && x != y && !IsIndex(x) && !IsIndex(y)
    ensures Comparable(Pair(x, y), keys)
    ensures MeaningOf(Pair(x, y)) == MObject(map[x := MNull, y := MNull])
  {
    var e, f := Entry(x, JNull), Entry(y, JNull);
    assert KeysOf([e, f]) == [x, y];
    assert [e, f][..1] == [e] && [e][..0] == [];
    assert MembersOf([e]) == map[x := MNull];
    assert MembersOf([e, f]) == map[x := MNull, y := MNull];
  }

  lemma PairInOrder(le: (Text, Text) -> bool, x: Text, y: Text)
    requires le(x, y)
    ensures Arrange(le, Pair(x, y)) == Pair(x, y)
  {
    var e, f := Entry(x, JNull), Entry(y, JNull);
    var order := EntryOrder(le);
    assert [e, f][1..] == [f] && [f][1..] == [];
    assert Sort(order, [f]) == [f];
    assert Sort(order, [e, f]) == Insert(order, e, [f]) == [e, f];
    assert Arrange(le, Pair(x, y)).entries == [e, f];
  }

  lemma PairsMeanTheSame(x: Text, y: Text, keys: iset<Text>)
    requires x in keys && y in keys && x != y && !IsIndex(x) && !IsIndex(y)
    ensures MeaningOf(Pair(x, y)) == MeaningOf(Pair(y, x))
  {
    PairMeaning(x, y, keys);
    PairMeaning(y, x, keys);
    var m: map<Text, Meaning> := map[x := MNull, y := MNull];
    var m': map<Text, Meaning> := map[y := MNull, x := MNull];
    assert m == m';
  }

  lemma PairReadBack(le: (Text, Text) -> bool, x: Text, y: Text)
    requires le(x, y) && !IsIndex(x) && !IsIndex(y)
    ensures ReadBack(le, Pair(x, y)) == Pair(x, y)
  {
    PairInOrder(le, x, y);
    PairInOrder(PropertyLe, x, y);
  }

  /** Two tied keys that are no array indices are printed in the order in which they were put into the
      object: the same object printed two ways. */
  lemma TiedKeysPrintDifferently(le: (Text, Text) -> bool, keys: iset<Text>, x: Text, y: Text)
    requires x in keys && y in keys && !IsIndex(x) && !IsIndex(y) && x != y && le(x, y) && le(y, x)
    ensures !TextEqualityDecides(le, keys)
  {
    var a, b := Pair(x, y), Pair(y, x);
    assert Comparable(a, keys) by { PairMeaning(x, y, keys); }
    assert Comparable(b, keys) by { PairMeaning(y, x, keys); }
    assert MeaningOf(a) == MeaningOf(b) by { PairsMeanTheSame(x, y, keys); }
    assert ReadBack(le, a) == a by { PairReadBack(le, x, y); }
    assert ReadBack(le, b) == b by { PairReadBack(le, y, x); }
    assert a.entries[0].key != b.entries[0].key;
    TwoTextsOneMeaning(le, keys, a, b);
  }
}
