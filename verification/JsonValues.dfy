/** JSON values as JavaScript holds them, and what they mean. */
module JsonValues {
  import opened Sorting
  import opened JsonSyntax
  import Decimals

  /** A value as JavaScript holds it: the entries of an object are its own properties, in their order.
      A number is its numeral. */
  datatype Json =
    | JNull | JBool(b: bool) | JNumber(n: Numeral) | JString(t: Text)
    | JArray(items: seq<Json>) | JObject(entries: seq<Entry>)
  datatype Entry = Entry(key: Text, value: Json)

  function KeysOf(es: seq<Entry>): (r: seq<Text>)
    ensures |r| == |es| && forall i :: 0 <= i < |r| ==> r[i] == es[i].key
  {
    seq(|es|, i requires 0 <= i < |es| => es[i].key)
  }

  function EntryOrder(le: (Text, Text) -> bool): (Entry, Entry) -> bool {
    (x: Entry, y: Entry) => le(x.key, y.key)
  }

  /** The entries sorted by key, by a stable sort. */
  function SortEntries(le: (Text, Text) -> bool, es: seq<Entry>): (r: seq<Entry>)
    ensures |r| == |es| && forall e :: e in r <==> e in es
  {
    PermutationMembers(Sort(EntryOrder(le), es), es);
    Sort(EntryOrder(le), es)
  }

  // ----- the order in which JavaScript keeps properties: array indices ascending, then the others

  /** A text of digits, as characters. */
  function Digits(t: Text): (s: string)
    requires AllDigits(t)
    ensures |s| == |t| && Decimals.AllDigits(s) && forall i :: 0 <= i < |s| ==> s[i] as int == t[i]
  {
    seq(|t|, i requires 0 <= i < |t| => t[i] as char)
  }

  function IndexValue(t: Text): nat
    requires AllDigits(t)
  {
    Decimals.Number(Digits(t))
  }

  /** An array index of ECMAScript: a number below 2^32 - 1, as it is printed. */
  predicate IsIndex(t: Text) {
    AllDigits(t) && Decimals.Decimal(IndexValue(t)) == Digits(t) && IndexValue(t) < 0xFFFF_FFFF
  }

  predicate PropertyLe(x: Text, y: Text) {
    if IsIndex(x) then IsIndex(y) ==> IndexValue(x) <= IndexValue(y) else !IsIndex(y)
  }

  /** At every depth the properties are in the order in which JavaScript keeps them. */
  ghost predicate InPropertyOrder(v: Json) {
    match v
    case JArray(items) => forall i :: 0 <= i < |items| ==> InPropertyOrder(items[i])
    case JObject(es) =>
      && Ascending(PropertyLe, KeysOf(es))
      && forall i :: 0 <= i < |es| ==> InPropertyOrder(es[i].value)
    case _ => true
  }

  lemma PropertyLeTotal()
    ensures TotalPreorder(PropertyLe)
  {}

  lemma SameDigits(x: Text, y: Text)
    requires AllDigits(x) && AllDigits(y) && Digits(x) == Digits(y)
    ensures x == y
  {
    assert forall i :: 0 <= i < |x| ==> x[i] == Digits(x)[i] as int && y[i] == Digits(y)[i] as int;
  }

  /** Only keys that are no array indices can stand in either order. */
  lemma PropertyTies(x: Text, y: Text)
    requires PropertyLe(x, y) && PropertyLe(y, x)
    ensures x == y || (!IsIndex(x) && !IsIndex(y))
  {
    if IsIndex(x) { SameDigits(x, y); }
  }

  /** Numerals follow the grammar and no object repeats a key. */
  ghost predicate WellFormed(v: Json) {
    match v
    case JNumber(n) => NumeralOk(n)
    case JArray(items) => forall i :: 0 <= i < |items| ==> WellFormed(items[i])
    case JObject(es) =>
      && Distinct(KeysOf(es))
      && forall i :: 0 <= i < |es| ==> WellFormed(es[i].value)
    case _ => true
  }

  /** What a value means: an object is a map, its property order is forgotten. */
  datatype Meaning =
    | MNull | MBool(b: bool) | MNumber(n: Numeral) | MString(t: Text)
    | MArray(items: seq<Meaning>) | MObject(members: map<Text, Meaning>)

  ghost function MeaningOf(v: Json): Meaning
    decreases v
  {
    match v
    case JNull => MNull
    case JBool(b) => MBool(b)
    case JNumber(n) => MNumber(n)
    case JString(t) => MString(t)
    case JArray(items) => MArray(seq(|items|, i requires 0 <= i < |items| => MeaningOf(items[i])))
    case JObject(es) => MObject(MembersOf(es))
  }

  ghost function MembersOf(es: seq<Entry>): map<Text, Meaning>
    decreases es
  {
    if es == [] then map[]
    else
      var last := es[|es| - 1];
      MembersOf(es[..|es| - 1])[last.key := MeaningOf(last.value)]
  }

  lemma {:induction false} KeysAreMembers(es: seq<Entry>)
    ensures forall k :: k in KeysOf(es) <==> k in MembersOf(es)
  {
    if es == [] {
    } else {
      var front, last := es[..|es| - 1], es[|es| - 1];
      KeysAreMembers(front);
      assert KeysOf(es) == KeysOf(front) + [last.key];
    }
  }

  lemma {:induction false} MemberMeaning(es: seq<Entry>, i: nat)
    requires Distinct(KeysOf(es)) && i < |es|
    ensures es[i].key in MembersOf(es) && MembersOf(es)[es[i].key] == MeaningOf(es[i].value)
  {
    var front := es[..|es| - 1];
    assert KeysOf(front) == KeysOf(es)[..|es| - 1];
    if i == |front| {
    } else {
      MemberMeaning(front, i);
      assert KeysOf(es)[i] != KeysOf(es)[|es| - 1];
    }
  }
}
