/** What DuplicateKeyJsonParser computes, as functions on the text that is still to be read, and
    the proof that they decide the grammar of JsonSyntax. Each function returns the tree it read
    and the text left over, or the error that the parser throws. */
module JsonRecognizer {
  import opened Wrappers
  import opened JsonSyntax

  datatype JsonError =
    | InvalidValue | InvalidObjectKey | DuplicateKey(key: Text) | InvalidObjectSeparator
    | InvalidObjectDelimiter | InvalidArrayDelimiter | InvalidString | ControlCharacter
    | UnterminatedString | InvalidNumber | TrailingContent

  type Parse<+T> = Result<(T, Text), JsonError>

  predicate StartsWith(s: Text, w: Text) { |w| <= |s| && s[..|w|] == w }

  predicate HeadIs(s: Text, c: CodeUnit) { s != [] && s[0] == c }

  function TakeSpace(s: Text): (r: (Text, Text))
    ensures |r.1| <= |s|
  {
    if s == [] || !IsSpace(s[0]) then ([], s)
    else var (w, rest) := TakeSpace(s[1..]); ([s[0]] + w, rest)
  }

  function TakeDigits(s: Text): (r: (Text, Text))
    ensures |r.1| <= |s|
  {
    if s == [] || !IsDigit(s[0]) then ([], s)
    else var (w, rest) := TakeDigits(s[1..]); ([s[0]] + w, rest)
  }

  lemma {:induction false} SpaceSound(s: Text)
    ensures var (w, rest) := TakeSpace(s);
            s == w + rest && AllSpace(w) && (rest == [] || !IsSpace(rest[0]))
  {
    if s == [] || !IsSpace(s[0]) {
    } else {
      SpaceSound(s[1..]);
    }
  }

  lemma {:induction false} DigitsSound(s: Text)
    ensures var (w, rest) := TakeDigits(s);
            s == w + rest && AllDigits(w) && (rest == [] || !IsDigit(rest[0]))
  {
    if s == [] || !IsDigit(s[0]) {
    } else {
      DigitsSound(s[1..]);
    }
  }

  // ----- numbers: the longest match of /^-?(?:0|[1-9]\d*)(?:\.\d+)?(?:[eE][+-]?\d+)?/

  function TakeFraction(s: Text): (Option<Text>, Text) {
    if HeadIs(s, DOT) && |s| > 1 && IsDigit(s[1]) then
      var (digits, rest) := TakeDigits(s[1..]); (Some(digits), rest)
    else (None, s)
  }

  function TakeExponent(s: Text): (Exponent, Text) {
    if HeadIs(s, 0x65) || HeadIs(s, 0x45) then
      var sign := if HeadIs(s[1..], PLUS) || HeadIs(s[1..], MINUS) then [s[1]] else [];
      var (digits, rest) := TakeDigits(s[1 + |sign|..]);
      if digits == [] then (NoExponent, s) else (Exponent(s[0], sign, digits), rest)
    else (NoExponent, s)
  }

  function ParseNumber(s: Text): (r: Parse<Numeral>) {
    var minus := HeadIs(s, MINUS);
    var s1 := if minus then s[1..] else s;
    if s1 == [] || !IsDigit(s1[0]) then Err(InvalidNumber)
    else
      var (whole, s2) := if s1[0] == ZERO then ([ZERO], s1[1..]) else TakeDigits(s1);
      var (fraction, s3) := TakeFraction(s2);
      var (exponent, rest) := TakeExponent(s3);
      Ok((Numeral(minus, whole, fraction, exponent), rest))
  }

  // ----- strings: find the closing quote, then decode the slice

  /** How many code units precede the closing quote. */
  function ScanString(t: Text): (r: Result<nat, JsonError>)
    ensures r.Ok? ==> r.value < |t| && t[r.value] == QUOTE
  {
    if t == [] then Err(UnterminatedString)
    else if t[0] == BACKSLASH then
      if |t| < 2 then Err(UnterminatedString) else var n :- ScanString(t[2..]); Ok(n + 2)
    else if t[0] == QUOTE then Ok(0)
    else if t[0] < 0x20 then Err(ControlCharacter)
    else var n :- ScanString(t[1..]); Ok(n + 1)
  }

  /** JSON.parse of the quoted slice: the items it consists of, if it is a JSON string. */
  function Unescape(body: Text): Option<seq<Item>> {
    if body == [] then Some([])
    else
      var item :=
        if body[0] != BACKSLASH then Plain(body[0])
        else if |body| >= 6 && body[1] == LOWER_U then Hex(body[2..6])
        else if |body| >= 2 then Short(body[1])
        else Hex([]);
      if !ItemOk(item) then None
      else
        match Unescape(body[|SpellItem(item)|..])
        case None => None
        case Some(items) => Some([item] + items)
  }

  function ParseString(s: Text): (r: Parse<seq<Item>>)
    requires HeadIs(s, QUOTE)
    ensures r.Ok? ==> |r.value.1| < |s|
  {
    var n :- ScanString(s[1..]);
    match Unescape(s[1..n + 1])
    case None => Err(InvalidString)
    case Some(items) => Ok((items, s[n + 2..]))
  }

  // ----- values

  function ParseNode(s: Text): (r: Parse<Node>)
    ensures r.Ok? ==> |r.value.1| < |s|
    decreases |s|, 0
  {
    if s == [] then Err(InvalidValue)
    else if s[0] == LBRACE then
      var (space, s1) := TakeSpace(s[1..]);
      if HeadIs(s1, RBRACE) then Ok((EmptyObject(space), s1[1..]))
      else var (ms, rest) :- ParseMembers(s[1..], {}); Ok((Object(ms), rest))
    else if s[0] == LBRACKET then
      var (space, s1) := TakeSpace(s[1..]);
      if HeadIs(s1, RBRACKET) then Ok((EmptyArray(space), s1[1..]))
      else var (es, rest) :- ParseElements(s[1..]); Ok((Array(es), rest))
    else if s[0] == QUOTE then
      var (items, rest) :- ParseString(s); Ok((String(items), rest))
    else if s[0] == MINUS || IsDigit(s[0]) then
      var (n, rest) :- ParseNumber(s);
      assert |rest| < |s| by { NumberSound(s); }
      Ok((Number(n), rest))
    else if StartsWith(s, TRUE_WORD) then Ok((Literal(True), s[4..]))
    else if StartsWith(s, FALSE_WORD) then Ok((Literal(False), s[5..]))
    else if StartsWith(s, NULL_WORD) then Ok((Literal(Null), s[4..]))
    else Err(InvalidValue)
  }

  function ParsePadded(s: Text): (r: Parse<Padded>)
    ensures r.Ok? ==> |r.value.1| < |s|
    decreases |s|, 1
  {
    var (before, s1) := TakeSpace(s);
    var (v, s2) :- ParseNode(s1);
    var (after, s3) := TakeSpace(s2);
    Ok((Padded(before, v, after), s3))
  }

  function ParseElements(s: Text): (r: Parse<Elements>)
    ensures r.Ok? ==> |r.value.1| < |s|
    decreases |s|, 2
  {
    var (p, s1) :- ParsePadded(s);
    if HeadIs(s1, RBRACKET) then Ok((Last(p), s1[1..]))
    else if !HeadIs(s1, COMMA) then Err(InvalidArrayDelimiter)
    else var (es, rest) :- ParseElements(s1[1..]); Ok((More(p, es), rest))
  }

  function ParseMembers(s: Text, seen: set<Text>): (r: Parse<Members>)
    ensures r.Ok? ==> |r.value.1| < |s|
    decreases |s|, 2
  {
    var (before, s1) := TakeSpace(s);
    if !HeadIs(s1, QUOTE) then Err(InvalidObjectKey)
    else
      var (items, s2) :- ParseString(s1);
      assert ItemsOk(items) by { StringSound(s1); }
      var key := DecodeItems(items);
      if key in seen then Err(DuplicateKey(key))
      else
        var (mid, s3) := TakeSpace(s2);
        if !HeadIs(s3, COLON) then Err(InvalidObjectSeparator)
        else ParseAfterColon(before, items, mid, s3[1..], seen + {key})
  }

  /** The value of a member, and the members that follow it. */
  function ParseAfterColon(before: Text, items: seq<Item>, mid: Text, s: Text, seen: set<Text>): (r: Parse<Members>)
    ensures r.Ok? ==> |r.value.1| < |s|
    decreases |s|, 2
  {
    var (p, s1) :- ParsePadded(s);
    if HeadIs(s1, RBRACE) then Ok((LastMember(before, items, mid, p), s1[1..]))
    else if !HeadIs(s1, COMMA) then Err(InvalidObjectDelimiter)
    else
      var (ms, rest) :- ParseMembers(s1[1..], seen);
      Ok((MoreMembers(before, items, mid, p, ms), rest))
  }

  function ParseDocument(s: Text): Result<Padded, JsonError> {
    var (p, rest) :- ParsePadded(s);
    if rest == [] then Ok(p) else Err(TrailingContent)
  }

  // ----- soundness: what is read is a well-formed tree and spells exactly the text consumed

  lemma FractionSound(s: Text)
    ensures var (f, rest) := TakeFraction(s);
            s == SpellFraction(f) + rest && (f.Some? ==> f.value != [] && AllDigits(f.value))
  {
    var (f, rest) := TakeFraction(s);
    if f.Some? {
      DigitsSound(s[1..]);
      assert s == [DOT] + s[1..];
      assert s[1..] == f.value + rest;
    }
  }

  lemma ExponentSound(s: Text)
    ensures var (e, rest) := TakeExponent(s);
            s == SpellExponent(e) + rest && ExponentOk(e)
  {
    var (e, rest) := TakeExponent(s);
    if e.Exponent? {
      DigitsSound(s[1 + |e.sign|..]);
      assert s == [s[0]] + s[1..];
      assert s[1..] == e.sign + s[1 + |e.sign|..];
      assert s[1 + |e.sign|..] == e.digits + rest;
    }
  }

  lemma Append3(a: Text, b: Text, c: Text, rest: Text)
    ensures a + (b + (c + rest)) == (a + (b + c)) + rest
  {}

  lemma Append4(a: Text, b: Text, c: Text, d: Text, rest: Text)
    ensures a + (b + (c + (d + rest))) == (a + (b + (c + d))) + rest
  {}

  /** The digits before the fraction: a single zero, or digits that do not begin with one. */
  lemma WholeSound(s: Text)
    requires s != [] && IsDigit(s[0])
    ensures var (whole, rest) := if s[0] == ZERO then ([ZERO], s[1..]) else TakeDigits(s);
            && s == whole + rest && whole != [] && AllDigits(whole)
            && (whole[0] == ZERO ==> |whole| == 1)
  {
    DigitsSound(s);
  }

  lemma NumberSound(s: Text)
    ensures match ParseNumber(s)
            case Ok((n, rest)) => NumeralOk(n) && s == SpellNumeral(n) + rest && |rest| < |s|
            case Err(_) => true
  {
    var minus := HeadIs(s, MINUS);
    var s1 := if minus then s[1..] else s;
    if s1 != [] && IsDigit(s1[0]) {
      var sign := if minus then [MINUS] else [];
      assert s == sign + s1;
      WholeSound(s1);
      var (whole, s2) := if s1[0] == ZERO then ([ZERO], s1[1..]) else TakeDigits(s1);
      FractionSound(s2);
      var (fraction, s3) := TakeFraction(s2);
      ExponentSound(s3);
      var (exponent, rest) := TakeExponent(s3);
      var n := Numeral(minus, whole, fraction, exponent);
      assert s == sign + (whole + (SpellFraction(fraction) + (SpellExponent(exponent) + rest)));
      Append4(sign, whole, SpellFraction(fraction), SpellExponent(exponent), rest);
      assert s == SpellNumeral(n) + rest;
      assert ParseNumber(s) == Ok((n, rest));
    }
  }

  lemma {:induction false} UnescapeSound(body: Text)
    ensures match Unescape(body)
            case Some(items) => ItemsOk(items) && body == SpellItems(items)
            case None => true
  {
    var r := Unescape(body);
    if body == [] || r.None? {
    } else {
      var item := r.value[0];
      var tail := body[|SpellItem(item)|..];
      UnescapeSound(tail);
      assert r.value == [item] + Unescape(tail).value;
      assert r.value[1..] == Unescape(tail).value;
      ItemPrefix(body);
    }
  }

  lemma ItemPrefix(body: Text)
    requires body != [] && Unescape(body).Some?
    ensures var item := Unescape(body).value[0];
            ItemOk(item) && body == SpellItem(item) + body[|SpellItem(item)|..]
  {
    var item := Unescape(body).value[0];
    if item.Hex? { assert body[..6] == [BACKSLASH, LOWER_U] + body[2..6]; }
  }

  lemma StringSound(s: Text)
    requires HeadIs(s, QUOTE)
    ensures match ParseString(s)
            case Ok((items, rest)) => ItemsOk(items) && s == SpellString(items) + rest
            case Err(_) => true
  {
    if ParseString(s).Ok? {
      var n := ScanString(s[1..]).value;
      UnescapeSound(s[1..n + 1]);
      assert s == [QUOTE] + (s[1..n + 1] + [s[n + 1]]) + s[n + 2..];
    }
  }

}
