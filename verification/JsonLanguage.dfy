/** The recogniser decides the language: a text is accepted exactly when a tree of the grammar
    with distinct keys spells it, and the derivation of an accepted text is unique. */
module JsonLanguage {
  import opened Wrappers
  import opened Lists
  import opened JsonSyntax
  import opened JsonRecognizer

  /** The key at which a left-to-right reader first meets a repetition. */
  function FirstDuplicate(v: Node): Option<Text>
    requires NodeOk(v)
  {
    match v
    case Array(es) => FirstDuplicateElements(es)
    case Object(ms) => FirstDuplicateMembers(ms, {})
    case _ => None
  }

  function FirstDuplicateElements(es: Elements): Option<Text>
    requires ElementsOk(es)
  {
    assert PaddedOk(es.p);
    match FirstDuplicate(es.p.value)
    case Some(k) => Some(k)
    case None => if es.Last? then None else FirstDuplicateElements(es.rest)
  }

  function FirstDuplicateMembers(ms: Members, seen: set<Text>): Option<Text>
    requires MembersOk(ms)
    decreases ms, 1
  {
    var key := DecodeItems(ms.key);
    if key in seen then Some(key) else FirstDuplicateAfterKey(ms, seen + {key})
  }

  /** The search continued after the first key of ms, which is already in seen. */
  function FirstDuplicateAfterKey(ms: Members, seen: set<Text>): Option<Text>
    requires MembersOk(ms)
    decreases ms, 0
  {
    assert PaddedOk(ms.p);
    match FirstDuplicate(ms.p.value)
    case Some(k) => Some(k)
    case None => if ms.LastMember? then None else FirstDuplicateMembers(ms.rest, seen)
  }

  // ----- FirstDuplicate finds a repetition exactly when there is one

  lemma {:induction false} NoDuplicateMeansDistinct(v: Node)
    requires NodeOk(v)
    ensures FirstDuplicate(v).None? <==> DistinctKeys(v)
    decreases v
  {
    match v {
      case Array(es) => NoDuplicateElements(es);
      case Object(ms) => NoDuplicateMembers(ms, {});
      case _ =>
    }
  }

  lemma {:induction false} NoDuplicateElements(es: Elements)
    requires ElementsOk(es)
    ensures FirstDuplicateElements(es).None? <==> DistinctKeysElements(es)
    decreases es
  {
    assert PaddedOk(es.p);
    NoDuplicateMeansDistinct(es.p.value);
    if es.Last? {
    } else {
      NoDuplicateElements(es.rest);
    }
  }

  ghost predicate KeysFresh(keys: seq<Text>, seen: set<Text>) {
    && (forall i, j :: 0 <= i < j < |keys| ==> keys[i] != keys[j])
    && (forall i :: 0 <= i < |keys| ==> keys[i] !in seen)
  }

  lemma KeysFreshStep(key: Text, keys: seq<Text>, seen: set<Text>)
    ensures KeysFresh([key] + keys, seen) <==> key !in seen && KeysFresh(keys, seen + {key})
  {
    var all := [key] + keys;
    if KeysFresh(all, seen) {
      assert all[0] == key;
      forall i | 0 <= i < |keys| ensures keys[i] !in seen + {key} { assert all[i + 1] == keys[i]; }
      forall i, j | 0 <= i < j < |keys| ensures keys[i] != keys[j] {
        assert all[i + 1] == keys[i] && all[j + 1] == keys[j];
      }
    }
  }

  lemma {:induction false} NoDuplicateMembers(ms: Members, seen: set<Text>)
    requires MembersOk(ms)
    ensures FirstDuplicateMembers(ms, seen).None?
       <==> KeysFresh(Keys(ms), seen) && DistinctKeysMembers(ms)
    decreases ms
  {
    assert PaddedOk(ms.p);
    var key := DecodeItems(ms.key);
    NoDuplicateMeansDistinct(ms.p.value);
    if ms.LastMember? {
      assert Keys(ms) == [key];
    } else {
      KeysFreshStep(key, Keys(ms.rest), seen);
      NoDuplicateMembers(ms.rest, seen + {key});
    }
  }

  // ----- soundness

  lemma HeadSplit(s: Text, c: CodeUnit)
    requires HeadIs(s, c)
    ensures s == [c] + s[1..]
  {}

  lemma Bracketed(open: CodeUnit, inner: Text, rest: Text)
    ensures ([open] + inner) + rest == [open] + (inner + rest)
    ensures (([open] + inner) + rest)[1..] == inner + rest
  {}

  lemma EmptySound(s: Text, close: CodeUnit)
    requires s != [] && HeadIs(TakeSpace(s[1..]).1, close)
    ensures var (space, s1) := TakeSpace(s[1..]);
            AllSpace(space) && s == ([s[0]] + (space + [close])) + s1[1..]
  {
    var (space, s1) := TakeSpace(s[1..]);
    SpaceSound(s[1..]);
    HeadSplit(s1, close);
    HeadSplit(s, s[0]);
    Concat3(space, [close], s1[1..]);
    Bracketed(s[0], space + [close], s1[1..]);
  }

  lemma {:induction false} NodeSound(s: Text)
    ensures match ParseNode(s)
            case Ok((v, rest)) => NodeOk(v) && s == Spell(v) + rest && FirstDuplicate(v).None?
            case Err(_) => true
    decreases |s|, 0
  {
    if ParseNode(s).Ok? {
      match ParseNode(s).value.0 {
        case Literal(w) => assert s[..|SpellWord(w)|] == SpellWord(w);
        case Number(n) => NumberSound(s);
        case String(items) => StringSound(s);
        case EmptyArray(space) => EmptySound(s, RBRACKET);
        case EmptyObject(space) => EmptySound(s, RBRACE);
        case Array(es) =>
          ElementsSound(s[1..]);
          HeadSplit(s, LBRACKET);
          Bracketed(LBRACKET, SpellElements(es), ParseNode(s).value.1);
        case Object(ms) =>
          MembersSound(s[1..], {});
          HeadSplit(s, LBRACE);
          Bracketed(LBRACE, SpellMembers(ms), ParseNode(s).value.1);
      }
    }
  }

  lemma {:induction false} PaddedSound(s: Text)
    ensures match ParsePadded(s)
            case Ok((p, rest)) => PaddedOk(p) && s == SpellPadded(p) + rest && FirstDuplicate(p.value).None?
            case Err(_) => true
    decreases |s|, 1
  {
    var (before, s1) := TakeSpace(s);
    SpaceSound(s);
    NodeSound(s1);
    if ParseNode(s1).Ok? {
      var (v, s2) := ParseNode(s1).value;
      SpaceSound(s2);
      var (after, s3) := TakeSpace(s2);
      Append3(before, Spell(v), after, s3);
    }
  }

  lemma {:induction false} ElementsSound(s: Text)
    ensures match ParseElements(s)
            case Ok((es, rest)) => ElementsOk(es) && s == SpellElements(es) + rest && FirstDuplicateElements(es).None?
            case Err(_) => true
    decreases |s|, 2
  {
    PaddedSound(s);
    if ParseElements(s).Ok? {
      var (p, s1) := ParsePadded(s).value;
      assert s1 == [s1[0]] + s1[1..];
      if HeadIs(s1, COMMA) {
        ElementsSound(s1[1..]);
        var (es, rest) := ParseElements(s1[1..]).value;
        Append3(SpellPadded(p), [COMMA], SpellElements(es), rest);
      } else {
        assert s == (SpellPadded(p) + [RBRACKET]) + s1[1..];
      }
    }
  }

  lemma Append6(a: Text, b: Text, c: Text, d: Text, e: Text, f: Text, rest: Text)
    ensures a + (b + (c + (d + (e + (f + rest))))) == (a + (b + (c + (d + (e + f))))) + rest
  {}

  /** How a member that parses is cut. */
  lemma KeyParsed(s: Text, seen: set<Text>)
    requires ParseMembers(s, seen).Ok?
    ensures var (before, s1) := TakeSpace(s);
            && HeadIs(s1, QUOTE) && ParseString(s1).Ok?
            && var (items, s2) := ParseString(s1).value;
            var (mid, s3) := TakeSpace(s2);
            && HeadIs(s3, COLON) && ItemsOk(items) && DecodeItems(items) !in seen
            && ParseMembers(s, seen) == ParseAfterColon(before, items, mid, s3[1..], seen + {DecodeItems(items)})
  {
    var (before, s1) := TakeSpace(s);
    StringSound(s1);
  }

  lemma KeySound(s: Text, seen: set<Text>)
    requires ParseMembers(s, seen).Ok?
    ensures var (before, s1) := TakeSpace(s);
            && HeadIs(s1, QUOTE) && ParseString(s1).Ok?
            && var (items, s2) := ParseString(s1).value;
            var (mid, s3) := TakeSpace(s2);
            && AllSpace(before) && AllSpace(mid) && ItemsOk(items) && DecodeItems(items) !in seen
            && s3 != [] && s == before + (SpellString(items) + (mid + ([COLON] + s3[1..])))
            && ParseMembers(s, seen) == ParseAfterColon(before, items, mid, s3[1..], seen + {DecodeItems(items)})
  {
    KeyParsed(s, seen);
    var (before, s1) := TakeSpace(s);
    SpaceSound(s);
    StringSound(s1);
    var (items, s2) := ParseString(s1).value;
    SpaceSound(s2);
    var (mid, s3) := TakeSpace(s2);
    HeadSplit(s3, COLON);
  }

  lemma {:induction false} MembersSound(s: Text, seen: set<Text>)
    ensures match ParseMembers(s, seen)
            case Ok((ms, rest)) =>
              MembersOk(ms) && s == SpellMembers(ms) + rest && FirstDuplicateMembers(ms, seen).None?
            case Err(_) => true
    decreases |s|, 2
  {
    if ParseMembers(s, seen).Ok? {
      KeySound(s, seen);
      var (before, s1) := TakeSpace(s);
      var (items, s2) := ParseString(s1).value;
      var (mid, s3) := TakeSpace(s2);
      AfterColonSound(before, items, mid, s3[1..], seen + {DecodeItems(items)});
      var (ms, rest) := ParseMembers(s, seen).value;
      Append6(before, SpellString(items), mid, [COLON], SpellPadded(ms.p), SpellClose(ms), rest);
    }
  }

  lemma {:induction false} AfterColonSound(before: Text, items: seq<Item>, mid: Text, s: Text, seen: set<Text>)
    requires AllSpace(before) && ItemsOk(items) && AllSpace(mid)
    ensures match ParseAfterColon(before, items, mid, s, seen)
            case Ok((ms, rest)) =>
              && MembersOk(ms) && ms.before == before && ms.key == items && ms.mid == mid
              && s == SpellPadded(ms.p) + (SpellClose(ms) + rest)
              && FirstDuplicateAfterKey(ms, seen).None?
            case Err(_) => true
    decreases |s|, 2
  {
    PaddedSound(s);
    if ParseAfterColon(before, items, mid, s, seen).Ok? {
      var (p, s1) := ParsePadded(s).value;
      assert s1 == [s1[0]] + s1[1..];
      if !HeadIs(s1, RBRACE) {
        MembersSound(s1[1..], seen);
        var (ms, rest) := ParseMembers(s1[1..], seen).value;
        assert s1 == ([COMMA] + SpellMembers(ms)) + rest;
      }
    }
  }

  // ----- completeness: every tree is read back from its spelling, in any context that can follow it

  lemma {:induction false} TakeSpaceExact(w: Text, rest: Text)
    requires AllSpace(w) && (rest == [] || !IsSpace(rest[0]))
    ensures TakeSpace(w + rest) == (w, rest)
  {
    if w == [] {
      assert w + rest == rest;
    } else {
      assert (w + rest)[1..] == w[1..] + rest;
      TakeSpaceExact(w[1..], rest);
      assert w == [w[0]] + w[1..];
    }
  }

  lemma {:induction false} TakeDigitsExact(w: Text, rest: Text)
    requires AllDigits(w) && (rest == [] || !IsDigit(rest[0]))
    ensures TakeDigits(w + rest) == (w, rest)
  {
    if w == [] {
      assert w + rest == rest;
    } else {
      assert (w + rest)[1..] == w[1..] + rest;
      TakeDigitsExact(w[1..], rest);
      assert w == [w[0]] + w[1..];
    }
  }

  /** What may follow a value: nothing, white space, a comma or a closing bracket. */
  predicate Follows(rest: Text) {
    rest == [] || IsSpace(rest[0]) || rest[0] == COMMA || rest[0] == RBRACKET || rest[0] == RBRACE
  }

  lemma FollowsNoNumeral(rest: Text)
    requires Follows(rest)
    ensures rest == [] || (!IsDigit(rest[0]) && rest[0] != DOT && rest[0] != 0x65 && rest[0] != 0x45)
  {}

  lemma ExponentPieces(letter: CodeUnit, sign: Text, tail: Text)
    requires sign == [] || sign == [PLUS] || sign == [MINUS]
    requires tail != [] && IsDigit(tail[0])
    ensures var s := [letter] + (sign + tail);
            && s[1 + |sign|..] == tail
            && sign == (if HeadIs(s[1..], PLUS) || HeadIs(s[1..], MINUS) then [s[1]] else [])
  {
    var s := [letter] + (sign + tail);
    assert s[1..] == sign + tail;
    if sign == [] { assert s[1] == tail[0]; } else { assert s[1] == sign[0]; }
  }

  lemma ExponentRead(letter: CodeUnit, sign: Text, digits: Text, rest: Text)
    requires ExponentOk(Exponent(letter, sign, digits)) && Follows(rest)
    ensures TakeExponent([letter] + (sign + (digits + rest))) == (Exponent(letter, sign, digits), rest)
  {
    FollowsNoNumeral(rest);
    assert (digits + rest)[0] == digits[0];
    ExponentPieces(letter, sign, digits + rest);
    TakeDigitsExact(digits, rest);
  }

  lemma ExponentComplete(e: Exponent, rest: Text)
    requires ExponentOk(e) && Follows(rest)
    ensures TakeExponent(SpellExponent(e) + rest) == (e, rest)
  {
    match e {
      case NoExponent =>
        FollowsNoNumeral(rest);
        assert SpellExponent(e) + rest == rest;
      case Exponent(letter, sign, digits) =>
        assert SpellExponent(e) + rest == [letter] + (sign + (digits + rest));
        ExponentRead(letter, sign, digits, rest);
    }
  }

  lemma FractionComplete(f: Option<Text>, rest: Text)
    requires f.Some? ==> f.value != [] && AllDigits(f.value)
    requires rest == [] || (!IsDigit(rest[0]) && rest[0] != DOT)
    ensures TakeFraction(SpellFraction(f) + rest) == (f, rest)
  {
    var s := SpellFraction(f) + rest;
    match f {
      case None => assert s == rest;
      case Some(digits) =>
        assert s[1..] == digits + rest;
        TakeDigitsExact(digits, rest);
    }
  }

  lemma WholeComplete(whole: Text, rest: Text)
    requires whole != [] && AllDigits(whole) && (whole[0] == ZERO ==> |whole| == 1)
    requires rest == [] || !IsDigit(rest[0])
    ensures var s := whole + rest;
            && s != [] && IsDigit(s[0]) && !HeadIs(s, MINUS)
            && (if s[0] == ZERO then ([ZERO], s[1..]) else TakeDigits(s)) == (whole, rest)
  {
    var s := whole + rest;
    assert s[0] == whole[0];
    if whole[0] == ZERO {
      assert whole == [ZERO] && s[1..] == rest;
    } else {
      TakeDigitsExact(whole, rest);
    }
  }

  /** Neither a fraction nor an exponent begins with a digit or, for an exponent, with a dot. */
  lemma TailHeads(n: Numeral, rest: Text)
    requires NumeralOk(n) && Follows(rest)
    ensures var s3 := SpellExponent(n.exponent) + rest;
            var s2 := SpellFraction(n.fraction) + s3;
            && (s3 == [] || (!IsDigit(s3[0]) && s3[0] != DOT))
            && (s2 == [] || !IsDigit(s2[0]))
  {
    FollowsNoNumeral(rest);
  }

  lemma NumberComplete(n: Numeral, rest: Text)
    requires NumeralOk(n) && Follows(rest)
    ensures ParseNumber(SpellNumeral(n) + rest) == Ok((n, rest))
    ensures IsDigit(SpellNumeral(n)[0]) || SpellNumeral(n)[0] == MINUS
  {
    var s := SpellNumeral(n) + rest;
    var sign := if n.minus then [MINUS] else [];
    var s3 := SpellExponent(n.exponent) + rest;
    var s2 := SpellFraction(n.fraction) + s3;
    var s1 := n.whole + s2;
    TailHeads(n, rest);
    Append4(sign, n.whole, SpellFraction(n.fraction), SpellExponent(n.exponent), rest);
    assert s == sign + s1;
    WholeComplete(n.whole, s2);
    assert HeadIs(s, MINUS) <==> n.minus;
    assert (if n.minus then s[1..] else s) == s1;
    FractionComplete(n.fraction, s3);
    ExponentComplete(n.exponent, rest);
  }

  lemma ScanHex(h: Text, more: Text)
    requires ItemOk(Hex(h)) && ScanString(more).Ok?
    ensures ScanString(h + more) == Ok(4 + ScanString(more).value)
  {
    var t := h + more;
    assert t[4..] == more;
    assert t[3..][1..] == t[4..] && t[2..][1..] == t[3..] && t[1..][1..] == t[2..];
    assert ScanString(t[3..]) == Ok(1 + ScanString(more).value);
    assert ScanString(t[2..]) == Ok(2 + ScanString(more).value);
    assert ScanString(t[1..]) == Ok(3 + ScanString(more).value);
  }

  lemma ScanEscape(c: CodeUnit, more: Text)
    requires ScanString(more).Ok?
    ensures ScanString([BACKSLASH, c] + more) == Ok(2 + ScanString(more).value)
  {
    var t := [BACKSLASH, c] + more;
    assert |t| >= 2 && t[0] == BACKSLASH && t[2..] == more;
  }

  lemma ScanPlain(c: CodeUnit, more: Text)
    requires ItemOk(Plain(c)) && ScanString(more).Ok?
    ensures ScanString([c] + more) == Ok(1 + ScanString(more).value)
  {
    assert ([c] + more)[1..] == more;
  }

  lemma ScanUnicode(h: Text, more: Text)
    requires ItemOk(Hex(h)) && ScanString(more).Ok?
    ensures ScanString(([BACKSLASH, LOWER_U] + h) + more) == Ok(6 + ScanString(more).value)
  {
    ScanHex(h, more);
    ScanEscape(LOWER_U, h + more);
    assert ([BACKSLASH, LOWER_U] + h) + more == [BACKSLASH, LOWER_U] + (h + more);
  }

  lemma ScanItem(it: Item, more: Text)
    requires ItemOk(it) && ScanString(more).Ok?
    ensures ScanString(SpellItem(it) + more) == Ok(|SpellItem(it)| + ScanString(more).value)
  {
    match it {
      case Plain(c) => ScanPlain(c, more);
      case Short(c) => ScanEscape(c, more);
      case Hex(h) => ScanUnicode(h, more);
    }
  }

  lemma {:induction false} ScanComplete(items: seq<Item>, rest: Text)
    requires ItemsOk(items)
    ensures ScanString(SpellItems(items) + ([QUOTE] + rest)) == Ok(|SpellItems(items)|)
  {
    var end := [QUOTE] + rest;
    var t := SpellItems(items) + end;
    if items == [] {
      assert t == end;
    } else {
      var more := SpellItems(items[1..]) + end;
      assert t == SpellItem(items[0]) + more;
      ScanComplete(items[1..], rest);
      ScanItem(items[0], more);
    }
  }

  lemma UnescapeItem(it: Item, tail: Text)
    requires ItemOk(it)
    ensures Unescape(SpellItem(it) + tail) ==
            match Unescape(tail) case None => None case Some(items) => Some([it] + items)
  {
    var body := SpellItem(it) + tail;
    assert body[|SpellItem(it)|..] == tail;
    if it.Hex? { assert body[2..6] == it.h; }
  }

  lemma {:induction false} UnescapeComplete(items: seq<Item>)
    requires ItemsOk(items)
    ensures Unescape(SpellItems(items)) == Some(items)
  {
    if items == [] {
    } else {
      UnescapeComplete(items[1..]);
      UnescapeItem(items[0], SpellItems(items[1..]));
      assert items == [items[0]] + items[1..];
    }
  }

  lemma StringComplete(items: seq<Item>, rest: Text)
    requires ItemsOk(items)
    ensures HeadIs(SpellString(items) + rest, QUOTE)
    ensures ParseString(SpellString(items) + rest) == Ok((items, rest))
  {
    var s := SpellString(items) + rest;
    var n := |SpellItems(items)|;
    assert s[1..] == SpellItems(items) + ([QUOTE] + rest);
    ScanComplete(items, rest);
    assert s[1..n + 1] == SpellItems(items) && s[n + 2..] == rest;
    UnescapeComplete(items);
  }

  /** The answer for a tree: the tree itself, or the first repeated key. */
  function Answer<T>(duplicate: Option<Text>, tree: T, rest: Text): Parse<T> {
    match duplicate
    case None => Ok((tree, rest))
    case Some(key) => Err(DuplicateKey(key))
  }

  /** The characters a value can begin with are none of those that can follow one. */
  lemma HeadOfValue(v: Node)
    requires NodeOk(v)
    ensures Spell(v) != [] && !Follows(Spell(v)[..1])
  {
    match v {
      case Number(n) => NumberComplete(n, []);
      case _ =>
    }
  }

  lemma LiteralComplete(w: Word, rest: Text)
    ensures ParseNode(SpellWord(w) + rest) == Ok((Literal(w), rest))
  {
    var s := SpellWord(w) + rest;
    assert s[..|SpellWord(w)|] == SpellWord(w) && s[|SpellWord(w)|..] == rest;
    assert s[0] == SpellWord(w)[0];
  }

  lemma EmptyComplete(open: CodeUnit, space: Text, close: CodeUnit, rest: Text)
    requires AllSpace(space) && !IsSpace(close)
    ensures ([open] + (space + [close]) + rest)[1..] == space + ([close] + rest)
    ensures TakeSpace(space + ([close] + rest)) == (space, [close] + rest)
    ensures ([close] + rest)[1..] == rest
  {
    Bracketed(open, space + [close], rest);
    Concat3(space, [close], rest);
    assert ([close] + rest)[0] == close;
    TakeSpaceExact(space, [close] + rest);
  }

  lemma {:induction false} NodeComplete(v: Node, rest: Text)
    requires NodeOk(v) && Follows(rest)
    ensures ParseNode(Spell(v) + rest) == Answer(FirstDuplicate(v), v, rest)
    decreases v
  {
    var s := Spell(v) + rest;
    match v {
      case Literal(w) => LiteralComplete(w, rest);
      case Number(n) => NumberComplete(n, rest);
      case String(items) => StringComplete(items, rest);
      case EmptyArray(space) => EmptyComplete(LBRACKET, space, RBRACKET, rest);
      case EmptyObject(space) => EmptyComplete(LBRACE, space, RBRACE, rest);
      case Array(es) => ArrayComplete(es, rest);
      case Object(ms) => ObjectComplete(ms, rest);
    }
  }

  lemma {:induction false} ArrayComplete(es: Elements, rest: Text)
    requires ElementsOk(es)
    ensures ParseNode(Spell(Array(es)) + rest) == Answer(FirstDuplicateElements(es), Array(es), rest)
    decreases es, 1
  {
    var s := Spell(Array(es)) + rest;
    assert s[1..] == SpellElements(es) + rest;
    HeadOfElements(es, rest);
    ElementsComplete(es, rest);
  }

  lemma {:induction false} ObjectComplete(ms: Members, rest: Text)
    requires MembersOk(ms)
    ensures ParseNode(Spell(Object(ms)) + rest) == Answer(FirstDuplicateMembers(ms, {}), Object(ms), rest)
    decreases ms, 2
  {
    var s := Spell(Object(ms)) + rest;
    assert s[1..] == SpellMembers(ms) + rest;
    HeadOfMembers(ms, rest);
    MembersComplete(ms, {}, rest);
  }

  lemma HeadAfterSpace(before: Text, v: Node, tail: Text)
    requires AllSpace(before) && NodeOk(v)
    ensures !HeadIs(TakeSpace(before + (Spell(v) + tail)).1, RBRACKET)
  {
    HeadOfValue(v);
    assert (Spell(v) + tail)[0] == Spell(v)[..1][0];
    TakeSpaceExact(before, Spell(v) + tail);
  }

  lemma PaddedThen(p: Padded, more: Text)
    ensures SpellPadded(p) + more == p.before + (Spell(p.value) + (p.after + more))
  {}

  lemma HeadOfElements(es: Elements, rest: Text)
    requires ElementsOk(es)
    ensures !HeadIs(TakeSpace(SpellElements(es) + rest).1, RBRACKET)
  {
    var close := if es.Last? then [RBRACKET] else [COMMA] + SpellElements(es.rest);
    assert SpellElements(es) + rest == SpellPadded(es.p) + (close + rest);
    PaddedThen(es.p, close + rest);
    HeadAfterSpace(es.p.before, es.p.value, es.p.after + (close + rest));
  }

  lemma HeadOfMembers(ms: Members, rest: Text)
    requires MembersOk(ms)
    ensures !HeadIs(TakeSpace(SpellMembers(ms) + rest).1, RBRACE)
  {
    var tail := SpellMembers(ms)[|ms.before|..] + rest;
    assert SpellMembers(ms) + rest == ms.before + tail;
    assert tail[0] == QUOTE;
    TakeSpaceExact(ms.before, tail);
  }

  lemma {:induction false} PaddedComplete(p: Padded, rest: Text)
    requires PaddedOk(p) && Follows(rest) && (rest == [] || !IsSpace(rest[0]))
    ensures ParsePadded(SpellPadded(p) + rest) == Answer(FirstDuplicate(p.value), p, rest)
    decreases p
  {
    var tail := p.after + rest;
    HeadOfValue(p.value);
    assert SpellPadded(p) + rest == p.before + (Spell(p.value) + tail);
    assert (Spell(p.value) + tail)[..1] == Spell(p.value)[..1];
    TakeSpaceExact(p.before, Spell(p.value) + tail);
    NodeComplete(p.value, tail);
    TakeSpaceExact(p.after, rest);
  }

  lemma {:induction false} ElementsComplete(es: Elements, rest: Text)
    requires ElementsOk(es)
    ensures ParseElements(SpellElements(es) + rest) == Answer(FirstDuplicateElements(es), es, rest)
    decreases es, 0
  {
    assert PaddedOk(es.p);
    match es {
      case Last(p) =>
        assert SpellElements(es) + rest == SpellPadded(p) + ([RBRACKET] + rest);
        PaddedComplete(p, [RBRACKET] + rest);
      case More(p, es') =>
        var tail := SpellElements(es') + rest;
        assert SpellElements(es) + rest == SpellPadded(p) + ([COMMA] + tail);
        PaddedComplete(p, [COMMA] + tail);
        assert ([COMMA] + tail)[1..] == tail;
        ElementsComplete(es', rest);
    }
  }

  /** What the recogniser finds before the value of a member. */
  lemma MemberKeyComplete(before: Text, key: seq<Item>, mid: Text, s3: Text)
    requires AllSpace(before) && ItemsOk(key) && AllSpace(mid) && HeadIs(s3, COLON)
    ensures var s1 := SpellString(key) + (mid + s3);
            && TakeSpace(before + s1) == (before, s1)
            && HeadIs(s1, QUOTE) && ParseString(s1) == Ok((key, mid + s3))
            && TakeSpace(mid + s3) == (mid, s3)
  {
    StringComplete(key, mid + s3);
    TakeSpaceExact(before, SpellString(key) + (mid + s3));
    TakeSpaceExact(mid, s3);
  }

  lemma {:induction false} MembersComplete(ms: Members, seen: set<Text>, rest: Text)
    requires MembersOk(ms)
    ensures ParseMembers(SpellMembers(ms) + rest, seen) == Answer(FirstDuplicateMembers(ms, seen), ms, rest)
    decreases ms, 1
  {
    var tail := SpellPadded(ms.p) + (SpellClose(ms) + rest);
    var s3 := [COLON] + tail;
    assert SpellMembers(ms) + rest == ms.before + (SpellString(ms.key) + (ms.mid + s3)) by {
      Append6(ms.before, SpellString(ms.key), ms.mid, [COLON], SpellPadded(ms.p), SpellClose(ms), rest);
    }
    MemberKeyComplete(ms.before, ms.key, ms.mid, s3);
    assert s3[1..] == tail;
    var key := DecodeItems(ms.key);
    if key !in seen {
      AfterColonComplete(ms, seen + {key}, rest);
      assert ParseMembers(SpellMembers(ms) + rest, seen)
          == ParseAfterColon(ms.before, ms.key, ms.mid, tail, seen + {key});
    }
  }

  lemma {:induction false} AfterColonComplete(ms: Members, seen: set<Text>, rest: Text)
    requires MembersOk(ms)
    ensures ParseAfterColon(ms.before, ms.key, ms.mid, SpellPadded(ms.p) + (SpellClose(ms) + rest), seen)
         == Answer(FirstDuplicateAfterKey(ms, seen), ms, rest)
    decreases ms, 0
  {
    assert PaddedOk(ms.p);
    PaddedComplete(ms.p, SpellClose(ms) + rest);
    if ms.MoreMembers? {
      assert (SpellClose(ms) + rest)[1..] == SpellMembers(ms.rest) + rest;
      MembersComplete(ms.rest, seen, rest);
    } else {
      assert (SpellClose(ms) + rest)[1..] == rest;
    }
  }

  // ----- main results

  ghost predicate Derives(p: Padded, text: Text) {
    PaddedOk(p) && SpellPadded(p) == text
  }

  /** The answer on every grammatical text: its tree, or the key that a reader first meets twice. */
  lemma GrammaticalTextAnswer(p: Padded, text: Text)
    requires Derives(p, text)
    ensures ParseDocument(text) ==
            match FirstDuplicate(p.value) case None => Ok(p) case Some(k) => Err(DuplicateKey(k))
  {
    assert text + [] == text;
    PaddedComplete(p, []);
  }

  /** The parser accepts exactly the JSON texts in which no object repeats a decoded key. */
  lemma AcceptsExactlyTheLanguage(text: Text)
    ensures ParseDocument(text).Ok? <==> exists p :: Derives(p, text) && DistinctKeys(p.value)
  {
    PaddedSound(text);
    if ParseDocument(text).Ok? {
      var p := ParseDocument(text).value;
      NoDuplicateMeansDistinct(p.value);
      assert text == SpellPadded(p) + [];
      assert Derives(p, text);
    }
    if p :| Derives(p, text) && DistinctKeys(p.value) {
      NoDuplicateMeansDistinct(p.value);
      GrammaticalTextAnswer(p, text);
    }
  }

  /** An accepted text has one derivation, with or without repeated keys allowed. */
  lemma DerivationUnique(text: Text, p: Padded)
    requires Derives(p, text) && ParseDocument(text).Ok?
    ensures ParseDocument(text) == Ok(p) && DistinctKeys(p.value)
  {
    GrammaticalTextAnswer(p, text);
    NoDuplicateMeansDistinct(p.value);
  }
}
