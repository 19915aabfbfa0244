/** The JSON grammar (RFC 8259, sections 2 to 7) as syntax trees and the text each tree spells.
    A text is in the language when some well-formed tree spells it; nothing here parses. */
module JsonSyntax {
  import opened Wrappers
  import CodePoints

  // JavaScript strings are sequences of UTF-16 code units.
  type CodeUnit = n: nat | n < 0x10000
  type Text = seq<CodeUnit>

  const QUOTE: CodeUnit := 0x22
  const PLUS: CodeUnit := 0x2B
  const COMMA: CodeUnit := 0x2C
  const MINUS: CodeUnit := 0x2D
  const DOT: CodeUnit := 0x2E
  const ZERO: CodeUnit := 0x30
  const COLON: CodeUnit := 0x3A
  const LBRACKET: CodeUnit := 0x5B
  const BACKSLASH: CodeUnit := 0x5C
  const RBRACKET: CodeUnit := 0x5D
  const LOWER_U: CodeUnit := 0x75
  const LBRACE: CodeUnit := 0x7B
  const RBRACE: CodeUnit := 0x7D

  const TRUE_WORD: Text := [0x74, 0x72, 0x75, 0x65]
  const FALSE_WORD: Text := [0x66, 0x61, 0x6C, 0x73, 0x65]
  const NULL_WORD: Text := [0x6E, 0x75, 0x6C, 0x6C]

  /** What `\s` matches. */
  predicate IsSpace(c: CodeUnit) { CodePoints.IsSpace(c) }

  /** The white space of section 2 of RFC 8259, the only kind JSON.parse skips. */
  predicate IsRfcSpace(c: CodeUnit) {
    c == 0x20 || c == 0x09 || c == 0x0A || c == 0x0D
  }

  predicate AllSpace(t: Text) { forall i :: 0 <= i < |t| ==> IsSpace(t[i]) }
  predicate AllRfcSpace(t: Text) { forall i :: 0 <= i < |t| ==> IsRfcSpace(t[i]) }

  predicate IsDigit(c: CodeUnit) { CodePoints.IsDigit(c) }
  predicate AllDigits(t: Text) { forall i :: 0 <= i < |t| ==> IsDigit(t[i]) }
  predicate IsHex(c: CodeUnit) { IsDigit(c) || 0x41 <= c <= 0x46 || 0x61 <= c <= 0x66 }

  // ----- strings (section 7)

  datatype Item =
    | Plain(c: CodeUnit)   // an unescaped character
    | Short(c: CodeUnit)   // a backslash and one letter
    | Hex(h: Text)         // backslash, u and four hexadecimal digits

  /** The letter after the backslash: one of " \ / b f n r t. */
  predicate IsShort(c: CodeUnit) {
    c in {0x22, 0x5C, 0x2F, 0x62, 0x66, 0x6E, 0x72, 0x74}
  }

  predicate ItemOk(it: Item) {
    match it
    case Plain(c) => c >= 0x20 && c != QUOTE && c != BACKSLASH
    case Short(c) => IsShort(c)
    case Hex(h) => |h| == 4 && IsHex(h[0]) && IsHex(h[1]) && IsHex(h[2]) && IsHex(h[3])
  }

  predicate ItemsOk(items: seq<Item>) { forall i :: 0 <= i < |items| ==> ItemOk(items[i]) }

  function SpellItem(it: Item): Text {
    match it
    case Plain(c) => [c]
    case Short(c) => [BACKSLASH, c]
    case Hex(h) => [BACKSLASH, LOWER_U] + h
  }

  function SpellItems(items: seq<Item>): Text {
    if items == [] then [] else SpellItem(items[0]) + SpellItems(items[1..])
  }

  function HexValue(c: CodeUnit): nat
    requires IsHex(c)
  {
    if c <= 0x39 then c - 0x30 else if c <= 0x46 then c - 0x37 else c - 0x57
  }

  /** The code unit an item stands for. */
  function UnitOf(it: Item): CodeUnit
    requires ItemOk(it)
  {
    match it
    case Plain(c) => c
    case Short(c) =>
      if c == 0x62 then 0x08 else if c == 0x66 then 0x0C else if c == 0x6E then 0x0A
      else if c == 0x72 then 0x0D else if c == 0x74 then 0x09 else c
    case Hex(h) =>
      4096 * HexValue(h[0]) + 256 * HexValue(h[1]) + 16 * HexValue(h[2]) + HexValue(h[3])
  }

  function DecodeItems(items: seq<Item>): (r: Text)
    requires ItemsOk(items)
    ensures |r| == |items| && forall i :: 0 <= i < |r| ==> r[i] == UnitOf(items[i])
  {
    if items == [] then [] else [UnitOf(items[0])] + DecodeItems(items[1..])
  }

  // ----- numbers (section 6)

  datatype Exponent = NoExponent | Exponent(letter: CodeUnit, sign: Text, digits: Text)
  datatype Numeral = Numeral(minus: bool, whole: Text, fraction: Option<Text>, exponent: Exponent)

  predicate ExponentOk(e: Exponent) {
    e.Exponent? ==>
      && (e.letter == 0x65 || e.letter == 0x45)
      && (e.sign == [] || e.sign == [PLUS] || e.sign == [MINUS])
      && e.digits != [] && AllDigits(e.digits)
  }

  predicate NumeralOk(n: Numeral) {
    && n.whole != [] && AllDigits(n.whole) && (n.whole[0] == ZERO ==> |n.whole| == 1)
    && (n.fraction.Some? ==> n.fraction.value != [] && AllDigits(n.fraction.value))
    && ExponentOk(n.exponent)
  }

  function SpellExponent(e: Exponent): Text {
    match e
    case NoExponent => []
    case Exponent(letter, sign, digits) => [letter] + (sign + digits)
  }

  function SpellFraction(f: Option<Text>): Text {
    match f
    case None => []
    case Some(digits) => [DOT] + digits
  }

  function SpellNumeral(n: Numeral): Text {
    (if n.minus then [MINUS] else []) + (n.whole + (SpellFraction(n.fraction) + SpellExponent(n.exponent)))
  }

  // ----- values, arrays and objects (sections 2 to 5)

  datatype Word = True | False | Null

  datatype Node =
    | Literal(word: Word)
    | Number(n: Numeral)
    | String(items: seq<Item>)
    | EmptyArray(space: Text)
    | Array(elements: Elements)
    | EmptyObject(space: Text)
    | Object(members: Members)

  /** A value with the white space around it; a whole document has this form. */
  datatype Padded = Padded(before: Text, value: Node, after: Text)
  datatype Elements = Last(p: Padded) | More(p: Padded, rest: Elements)
  datatype Members =
    | LastMember(before: Text, key: seq<Item>, mid: Text, p: Padded)
    | MoreMembers(before: Text, key: seq<Item>, mid: Text, p: Padded, rest: Members)

  function SpellWord(w: Word): Text {
    match w
    case True => TRUE_WORD
    case False => FALSE_WORD
    case Null => NULL_WORD
  }

  predicate NodeOk(v: Node) {
    match v
    case Literal(_) => true
    case Number(n) => NumeralOk(n)
    case String(items) => ItemsOk(items)
    case EmptyArray(space) => AllSpace(space)
    case Array(es) => ElementsOk(es)
    case EmptyObject(space) => AllSpace(space)
    case Object(ms) => MembersOk(ms)
  }

  predicate PaddedOk(p: Padded) {
    AllSpace(p.before) && NodeOk(p.value) && AllSpace(p.after)
  }

  predicate ElementsOk(es: Elements) {
    PaddedOk(es.p) && (es.More? ==> ElementsOk(es.rest))
  }

  predicate MembersOk(ms: Members) {
    && AllSpace(ms.before) && ItemsOk(ms.key) && AllSpace(ms.mid) && PaddedOk(ms.p)
    && (ms.MoreMembers? ==> MembersOk(ms.rest))
  }

  function SpellString(items: seq<Item>): Text { [QUOTE] + (SpellItems(items) + [QUOTE]) }

  function Spell(v: Node): Text {
    match v
    case Literal(w) => SpellWord(w)
    case Number(n) => SpellNumeral(n)
    case String(items) => SpellString(items)
    case EmptyArray(space) => [LBRACKET] + (space + [RBRACKET])
    case Array(es) => [LBRACKET] + SpellElements(es)
    case EmptyObject(space) => [LBRACE] + (space + [RBRACE])
    case Object(ms) => [LBRACE] + SpellMembers(ms)
  }

  function SpellPadded(p: Padded): Text { p.before + (Spell(p.value) + p.after) }

  function SpellElements(es: Elements): Text {
    match es
    case Last(p) => SpellPadded(p) + [RBRACKET]
    case More(p, rest) => SpellPadded(p) + ([COMMA] + SpellElements(rest))
  }

  function SpellMembers(ms: Members): Text
    decreases ms, 1
  {
    ms.before + (SpellString(ms.key) + (ms.mid + ([COLON] + (SpellPadded(ms.p) + SpellClose(ms)))))
  }

  /** What follows the value of the first member: the closing brace, or a comma and the rest. */
  function SpellClose(ms: Members): Text
    decreases ms, 0
  {
    if ms.LastMember? then [RBRACE] else [COMMA] + SpellMembers(ms.rest)
  }

  // ----- two conditions on trees that the grammar itself does not impose

  /** Every run of white space uses only the four characters of RFC 8259. */
  predicate RfcSpaced(v: Node) {
    match v
    case Literal(_) => true
    case Number(_) => true
    case String(_) => true
    case EmptyArray(space) => AllRfcSpace(space)
    case Array(es) => RfcSpacedElements(es)
    case EmptyObject(space) => AllRfcSpace(space)
    case Object(ms) => RfcSpacedMembers(ms)
  }

  predicate RfcSpacedPadded(p: Padded) {
    AllRfcSpace(p.before) && RfcSpaced(p.value) && AllRfcSpace(p.after)
  }

  predicate RfcSpacedElements(es: Elements) {
    RfcSpacedPadded(es.p) && (es.More? ==> RfcSpacedElements(es.rest))
  }

  predicate RfcSpacedMembers(ms: Members) {
    && AllRfcSpace(ms.before) && AllRfcSpace(ms.mid) && RfcSpacedPadded(ms.p)
    && (ms.MoreMembers? ==> RfcSpacedMembers(ms.rest))
  }

  /** The decoded keys of an object, in text order. */
  function Keys(ms: Members): (r: seq<Text>)
    requires MembersOk(ms)
    ensures |r| > 0 && r[0] == DecodeItems(ms.key)
  {
    [DecodeItems(ms.key)] + if ms.LastMember? then [] else Keys(ms.rest)
  }

  /** No object at any depth has two members with equal decoded keys. */
  ghost predicate DistinctKeys(v: Node)
    requires NodeOk(v)
  {
    match v
    case Array(es) => DistinctKeysElements(es)
    case Object(ms) =>
      && (forall i, j :: 0 <= i < j < |Keys(ms)| ==> Keys(ms)[i] != Keys(ms)[j])
      && DistinctKeysMembers(ms)
    case _ => true
  }

  ghost predicate DistinctKeysElements(es: Elements)
    requires ElementsOk(es)
  {
    assert PaddedOk(es.p);
    DistinctKeys(es.p.value) && (es.More? ==> DistinctKeysElements(es.rest))
  }

  ghost predicate DistinctKeysMembers(ms: Members)
    requires MembersOk(ms)
  {
    assert PaddedOk(ms.p);
    DistinctKeys(ms.p.value) && (ms.MoreMembers? ==> DistinctKeysMembers(ms.rest))
  }
}
