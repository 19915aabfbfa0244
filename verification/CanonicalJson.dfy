/** canonicalJson (scripts/scanner-e2e-case-registry.ts), and the syntax tree that it prints. */
module CanonicalJson {
  import opened JsonSyntax
  import opened JsonValues

  // ----- JSON.stringify of a string: the items it prints

  predicate IsHigh(c: CodeUnit) { 0xD800 <= c <= 0xDBFF }
  predicate IsLow(c: CodeUnit) { 0xDC00 <= c <= 0xDFFF }

  function HexDigit(d: nat): CodeUnit
    requires d < 16
  {
    if d < 10 then 0x30 + d else 0x57 + d
  }

  function HexOf(c: CodeUnit): Text {
    [HexDigit(c / 4096), HexDigit(c / 256 % 16), HexDigit(c / 16 % 16), HexDigit(c % 16)]
  }

  function QuoteUnit(c: CodeUnit): Item {
    if c == QUOTE || c == BACKSLASH then Short(c)
    else if c == 0x08 then Short(0x62)
    else if c == 0x0C then Short(0x66)
    else if c == 0x0A then Short(0x6E)
    else if c == 0x0D then Short(0x72)
    else if c == 0x09 then Short(0x74)
    else if c < 0x20 || IsHigh(c) || IsLow(c) then Hex(HexOf(c))
    else Plain(c)
  }

  function QuoteItems(t: Text): seq<Item> {
    if t == [] then []
    else if |t| > 1 && IsHigh(t[0]) && IsLow(t[1]) then [Plain(t[0]), Plain(t[1])] + QuoteItems(t[2..])
    else [QuoteUnit(t[0])] + QuoteItems(t[1..])
  }

  lemma HexDigitDecodes(d: nat)
    requires d < 16
    ensures IsHex(HexDigit(d)) && HexValue(HexDigit(d)) == d
  {}

  lemma FourDigits(c: CodeUnit)
    ensures c / 4096 < 16
    ensures c == 4096 * (c / 4096) + 256 * (c / 256 % 16) + 16 * (c / 16 % 16) + c % 16
  {}

  lemma HexOfDecodes(c: CodeUnit)
    ensures ItemOk(Hex(HexOf(c))) && UnitOf(Hex(HexOf(c))) == c
  {
    FourDigits(c);
    HexDigitDecodes(c / 4096);
    HexDigitDecodes(c / 256 % 16);
    HexDigitDecodes(c / 16 % 16);
    HexDigitDecodes(c % 16);
  }

  lemma QuoteUnitDecodes(c: CodeUnit)
    ensures ItemOk(QuoteUnit(c)) && UnitOf(QuoteUnit(c)) == c
  {
    if QuoteUnit(c).Hex? { HexOfDecodes(c); }
  }

  lemma DecodeItemsAppend(a: seq<Item>, b: seq<Item>)
    requires ItemsOk(a) && ItemsOk(b)
    ensures ItemsOk(a + b) && DecodeItems(a + b) == DecodeItems(a) + DecodeItems(b)
  {}

  /** JSON.stringify and JSON.parse are inverse on strings, lone surrogates included. */
  lemma {:induction false} QuoteDecodes(t: Text)
    ensures ItemsOk(QuoteItems(t)) && DecodeItems(QuoteItems(t)) == t
  {
    if t == [] {
    } else {
      if |t| > 1 && IsHigh(t[0]) && IsLow(t[1]) {
        QuoteDecodes(t[2..]);
        DecodeItemsAppend([Plain(t[0]), Plain(t[1])], QuoteItems(t[2..]));
      } else {
        QuoteDecodes(t[1..]);
        QuoteUnitDecodes(t[0]);
        DecodeItemsAppend([QuoteUnit(t[0])], QuoteItems(t[1..]));
      }
    }
  }

  function Quote(t: Text): Text { SpellString(QuoteItems(t)) }

  // ----- canonicalJson: `entries.sort(([a], [b]) => a.localeCompare(b))` is SortEntries, where le(a, b)
  // is `a.localeCompare(b) <= 0`

  function Join(parts: seq<Text>): Text {
    if |parts| == 0 then [] else if |parts| == 1 then parts[0] else parts[0] + ([COMMA] + Join(parts[1..]))
  }

  function Canonical(le: (Text, Text) -> bool, v: Json): Text
    decreases v
  {
    match v
    case JNull => NULL_WORD
    case JBool(b) => if b then TRUE_WORD else FALSE_WORD
    case JNumber(n) => SpellNumeral(n)
    case JString(t) => Quote(t)
    case JArray(items) => [LBRACKET] + (Join(CanonicalItems(le, v, items)) + [RBRACKET])
    case JObject(es) =>
      var sorted := SortEntries(le, es);
      assert forall i :: 0 <= i < |sorted| ==> sorted[i] in es;
      [LBRACE] + (Join(CanonicalEntries(le, v, sorted)) + [RBRACE])
  }

  function CanonicalItems(le: (Text, Text) -> bool, ghost parent: Json, items: seq<Json>): seq<Text>
    requires forall i :: 0 <= i < |items| ==> items[i] < parent
    decreases parent, |items|
  {
    if items == [] then [] else [Canonical(le, items[0])] + CanonicalItems(le, parent, items[1..])
  }

  function CanonicalEntries(le: (Text, Text) -> bool, ghost parent: Json, es: seq<Entry>): seq<Text>
    requires forall i :: 0 <= i < |es| ==> es[i].value < parent
    decreases parent, |es|
  {
    if es == [] then []
    else
      [Quote(es[0].key) + ([COLON] + Canonical(le, es[0].value))] + CanonicalEntries(le, parent, es[1..])
  }

  /** v with the entries of every object in the order canonicalJson prints them. */
  function Arrange(le: (Text, Text) -> bool, v: Json): Json
    decreases v
  {
    match v
    case JArray(items) => JArray(ArrangeItems(le, v, items))
    case JObject(es) =>
      var sorted := SortEntries(le, es);
      assert forall i :: 0 <= i < |sorted| ==> sorted[i] in es;
      JObject(ArrangeEntries(le, v, sorted))
    case _ => v
  }

  function ArrangeItems(le: (Text, Text) -> bool, ghost parent: Json, items: seq<Json>): (r: seq<Json>)
    requires forall i :: 0 <= i < |items| ==> items[i] < parent
    ensures |r| == |items| && forall i :: 0 <= i < |r| ==> r[i] == Arrange(le, items[i])
    decreases parent, |items|
  {
    if items == [] then [] else [Arrange(le, items[0])] + ArrangeItems(le, parent, items[1..])
  }

  function ArrangeEntries(le: (Text, Text) -> bool, ghost parent: Json, es: seq<Entry>): (r: seq<Entry>)
    requires forall i :: 0 <= i < |es| ==> es[i].value < parent
    ensures |r| == |es|
    ensures forall i :: 0 <= i < |r| ==> r[i] == Entry(es[i].key, Arrange(le, es[i].value))
    decreases parent, |es|
  {
    if es == [] then []
    else [Entry(es[0].key, Arrange(le, es[0].value))] + ArrangeEntries(le, parent, es[1..])
  }

  // ----- the tree that a printed value spells: no white space, entries in the order given

  function Tree(v: Json): Node
    decreases v, 1
  {
    match v
    case JNull => Literal(Null)
    case JBool(b) => Literal(if b then True else False)
    case JNumber(n) => Number(n)
    case JString(t) => String(QuoteItems(t))
    case JArray(items) => if items == [] then EmptyArray([]) else Array(TreeItems(items))
    case JObject(es) => if es == [] then EmptyObject([]) else Object(TreeEntries(es))
  }

  function TreeItems(items: seq<Json>): Elements
    requires items != []
    decreases items, 0
  {
    var p := Padded([], Tree(items[0]), []);
    if |items| == 1 then Last(p) else More(p, TreeItems(items[1..]))
  }

  function TreeEntries(es: seq<Entry>): Members
    requires es != []
    decreases es, 0
  {
    var p := Padded([], Tree(es[0].value), []);
    if |es| == 1 then LastMember([], QuoteItems(es[0].key), [], p)
    else MoreMembers([], QuoteItems(es[0].key), [], p, TreeEntries(es[1..]))
  }

  lemma PlainMember(ms: Members)
    requires ms.before == [] && ms.mid == [] && ms.p.before == [] && ms.p.after == []
    ensures SpellMembers(ms) == SpellString(ms.key) + ([COLON] + (Spell(ms.p.value) + SpellClose(ms)))
  {
    assert [] + (Spell(ms.p.value) + []) == Spell(ms.p.value);
  }

  lemma PlainElement(es: Elements)
    requires es.p.before == [] && es.p.after == []
    ensures SpellElements(es) ==
            Spell(es.p.value) + (if es.Last? then [RBRACKET] else [COMMA] + SpellElements(es.rest))
  {
    assert [] + (Spell(es.p.value) + []) == Spell(es.p.value);
  }

  lemma {:induction false} CanonicalIsSpelling(le: (Text, Text) -> bool, v: Json)
    ensures Canonical(le, v) == Spell(Tree(Arrange(le, v)))
    decreases v, 3
  {
    match v {
      case JArray(items) =>
        if items != [] { CanonicalItemsSpelling(le, v, items); }
      case JObject(es) => CanonicalObjectSpelling(le, v);
      case _ =>
    }
  }

  lemma ObjectSpelling(es: seq<Entry>)
    ensures Spell(Tree(JObject(es))) ==
            [LBRACE] + (if es == [] then [RBRACE] else SpellMembers(TreeEntries(es)))
  {
    assert [] + [RBRACE] == [RBRACE];
  }

  lemma {:induction false} CanonicalObjectSpelling(le: (Text, Text) -> bool, v: Json)
    requires v.JObject?
    ensures Canonical(le, v) == Spell(Tree(Arrange(le, v)))
    decreases v, 2
  {
    var sorted := SortEntries(le, v.entries);
    assert forall i :: 0 <= i < |sorted| ==> sorted[i] in v.entries;
    var arranged := ArrangeEntries(le, v, sorted);
    assert Arrange(le, v) == JObject(arranged);
    ObjectSpelling(arranged);
    ClosedEntries(le, v, sorted);
  }

  lemma {:induction false} ClosedEntries(le: (Text, Text) -> bool, parent: Json, es: seq<Entry>)
    requires forall i :: 0 <= i < |es| ==> es[i].value < parent
    ensures var arranged := ArrangeEntries(le, parent, es);
            Join(CanonicalEntries(le, parent, es)) + [RBRACE] ==
            if arranged == [] then [RBRACE] else SpellMembers(TreeEntries(arranged))
    decreases parent, 1, |es|
  {
    if es == [] {
    } else {
      CanonicalEntriesSpelling(le, parent, es);
    }
  }

  lemma {:induction false} CanonicalItemsSpelling(le: (Text, Text) -> bool, parent: Json, items: seq<Json>)
    requires items != [] && forall i :: 0 <= i < |items| ==> items[i] < parent
    ensures Join(CanonicalItems(le, parent, items)) + [RBRACKET]
         == SpellElements(TreeItems(ArrangeItems(le, parent, items)))
    decreases parent, 1, |items|
  {
    CanonicalIsSpelling(le, items[0]);
    var parts := CanonicalItems(le, parent, items);
    PlainElement(TreeItems(ArrangeItems(le, parent, items)));
    if |items| == 1 {
    } else {
      CanonicalItemsSpelling(le, parent, items[1..]);
      JoinStep(parts);
      assert parts[1..] == CanonicalItems(le, parent, items[1..]);
      ItemConcat(parts[0], Join(parts[1..]));
      assert ArrangeItems(le, parent, items)[1..] == ArrangeItems(le, parent, items[1..]);
    }
  }

  lemma ItemConcat(value: Text, rest: Text)
    ensures (value + ([COMMA] + rest)) + [RBRACKET] == value + ([COMMA] + (rest + [RBRACKET]))
  {}

  lemma {:induction false} CanonicalEntriesSpelling(le: (Text, Text) -> bool, parent: Json, es: seq<Entry>)
    requires es != [] && forall i :: 0 <= i < |es| ==> es[i].value < parent
    ensures Join(CanonicalEntries(le, parent, es)) + [RBRACE]
         == SpellMembers(TreeEntries(ArrangeEntries(le, parent, es)))
    decreases parent, 0, |es|
  {
    CanonicalIsSpelling(le, es[0].value);
    var tree := TreeEntries(ArrangeEntries(le, parent, es));
    var parts := CanonicalEntries(le, parent, es);
    var key, value := Quote(es[0].key), Canonical(le, es[0].value);
    PlainMember(tree);
    if |es| > 1 {
      CanonicalEntriesSpelling(le, parent, es[1..]);
      JoinStep(parts);
      assert parts[1..] == CanonicalEntries(le, parent, es[1..]);
      EntryConcat(key, value, Join(parts[1..]));
      assert ArrangeEntries(le, parent, es)[1..] == ArrangeEntries(le, parent, es[1..]);
    } else {
      assert (key + ([COLON] + value)) + [RBRACE] == key + ([COLON] + (value + [RBRACE]));
    }
  }

  lemma JoinStep(parts: seq<Text>)
    requires |parts| > 1
    ensures Join(parts) == parts[0] + ([COMMA] + Join(parts[1..]))
  {}

  lemma EntryConcat(key: Text, value: Text, rest: Text)
    ensures ((key + ([COLON] + value)) + ([COMMA] + rest)) + [RBRACE]
         == key + ([COLON] + (value + ([COMMA] + (rest + [RBRACE]))))
  {}
}
