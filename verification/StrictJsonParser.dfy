/** The parser of scripts/project-intelligence-value-pilot-validation.ts, with its mutable index.
    A thrown error is the Fail outcome; the index means nothing after one. */
module StrictJsonParser {
  import opened Wrappers
  import opened JsonSyntax
  import opened JsonRecognizer

  datatype Outcome = Pass | Fail(error: JsonError)

  /** A parse without its tree: the text left over, or the error. */
  function Remainder<T>(r: Parse<T>): Result<Text, JsonError> {
    match r
    case Ok(pair) => Ok(pair.1)
    case Err(e) => Err(e)
  }

  lemma {:induction false} SpaceTakenOnce(s: Text)
    ensures TakeSpace(TakeSpace(s).1) == ([], TakeSpace(s).1)
  {
    SpaceSound(s);
  }

  // ----- the recogniser one step at a time, without the trees

  /** An optional leading run of white space, a value: what value() reads. */
  ghost function AfterValue(s: Text): Result<Text, JsonError> { Remainder(ParseNode(TakeSpace(s).1)) }

  ghost function AfterElements(s: Text): Result<Text, JsonError> { Remainder(ParseElements(s)) }

  ghost function AfterMembers(s: Text, seen: set<Text>): Result<Text, JsonError> {
    Remainder(ParseMembers(s, seen))
  }

  lemma PaddedStep(s: Text)
    ensures Remainder(ParsePadded(s)) ==
            match AfterValue(s) case Ok(t) => Ok(TakeSpace(t).1) case Err(e) => Err(e)
  {}

  lemma ElementsStep(s: Text)
    ensures AfterElements(s) ==
            match AfterValue(s)
            case Err(e) => Err(e)
            case Ok(t) =>
              var s1 := TakeSpace(t).1;
              if HeadIs(s1, RBRACKET) then Ok(s1[1..])
              else if !HeadIs(s1, COMMA) then Err(InvalidArrayDelimiter)
              else AfterElements(s1[1..])
  {
    PaddedStep(s);
  }

  lemma AfterColonStep(before: Text, items: seq<Item>, mid: Text, s: Text, seen: set<Text>)
    ensures Remainder(ParseAfterColon(before, items, mid, s, seen)) ==
            match AfterValue(s)
            case Err(e) => Err(e)
            case Ok(t) =>
              var s1 := TakeSpace(t).1;
              if HeadIs(s1, RBRACE) then Ok(s1[1..])
              else if !HeadIs(s1, COMMA) then Err(InvalidObjectDelimiter)
              else AfterMembers(s1[1..], seen)
  {
    PaddedStep(s);
  }

  /** The value of the member being read, and what follows it. */
  ghost function AfterMemberColon(s: Text, seen: set<Text>): Result<Text, JsonError> {
    Remainder(ParseAfterColon([], [], [], s, seen))
  }

  lemma MembersStep(s: Text, seen: set<Text>)
    ensures var s1 := TakeSpace(s).1;
            AfterMembers(s, seen) ==
            if !HeadIs(s1, QUOTE) then Err(InvalidObjectKey)
            else match ParseString(s1)
                 case Err(e) => Err(e)
                 case Ok(pair) =>
                   if !ItemsOk(pair.0) then Err(InvalidString)
                   else if DecodeItems(pair.0) in seen then Err(DuplicateKey(DecodeItems(pair.0)))
                   else if !HeadIs(TakeSpace(pair.1).1, COLON) then Err(InvalidObjectSeparator)
                   else AfterMemberColon(TakeSpace(pair.1).1[1..], seen + {DecodeItems(pair.0)})
  {
    var (before, s1) := TakeSpace(s);
    if HeadIs(s1, QUOTE) && ParseString(s1).Ok? {
      StringSound(s1);
      var (items, s2) := ParseString(s1).value;
      var (mid, s3) := TakeSpace(s2);
      if HeadIs(s3, COLON) {
        var seen' := seen + {DecodeItems(items)};
        AfterColonStep(before, items, mid, s3[1..], seen');
        AfterColonStep([], [], [], s3[1..], seen');
      }
    }
  }

  ghost function AfterArray(s: Text): Result<Text, JsonError>
    requires HeadIs(s, LBRACKET)
  {
    var s1 := TakeSpace(s[1..]).1;
    if HeadIs(s1, RBRACKET) then Ok(s1[1..]) else AfterElements(s1)
  }

  ghost function AfterObject(s: Text): Result<Text, JsonError>
    requires HeadIs(s, LBRACE)
  {
    var s1 := TakeSpace(s[1..]).1;
    if HeadIs(s1, RBRACE) then Ok(s1[1..]) else AfterMembers(s1, {})
  }

  lemma ArrayStep(s: Text)
    requires HeadIs(s, LBRACKET)
    ensures Remainder(ParseNode(s)) == AfterArray(s)
  {
    SpaceTakenOnce(s[1..]);
    ElementsStep(s[1..]);
    ElementsStep(TakeSpace(s[1..]).1);
  }

  lemma ObjectStep(s: Text)
    requires HeadIs(s, LBRACE)
    ensures Remainder(ParseNode(s)) == AfterObject(s)
  {
    SpaceTakenOnce(s[1..]);
    MembersStep(s[1..], {});
    MembersStep(TakeSpace(s[1..]).1, {});
  }

  /** ScanString by position: where the closing quote is. */
  function ScanFrom(source: Text, i: nat): Result<nat, JsonError>
    decreases |source| - i
  {
    if i >= |source| then Err(UnterminatedString)
    else if source[i] == BACKSLASH then ScanFrom(source, i + 2)
    else if source[i] == QUOTE then Ok(i)
    else if source[i] < 0x20 then Err(ControlCharacter)
    else ScanFrom(source, i + 1)
  }

  lemma {:induction false} ScanFromSuffix(source: Text, i: nat)
    requires i <= |source|
    ensures ScanString(source[i..]) ==
            match ScanFrom(source, i) case Ok(end) => if end >= i then Ok(end - i) else Ok(0) case Err(e) => Err(e)
    ensures ScanFrom(source, i).Ok? ==> i <= ScanFrom(source, i).value < |source|
    decreases |source| - i
  {
    if i == |source| {
    } else {
      assert source[i..][1..] == source[i + 1..];
      if source[i] == BACKSLASH {
        if i + 2 <= |source| {
          assert source[i..][2..] == source[i + 2..];
          ScanFromSuffix(source, i + 2);
        }
      } else if source[i] != QUOTE && source[i] >= 0x20 {
        ScanFromSuffix(source, i + 1);
      }
    }
  }

  /** String() by position: an error of the scan is the outcome. */
  lemma StringFails(source: Text, start: nat)
    requires start < |source| && source[start] == QUOTE && ScanFrom(source, start + 1).Err?
    ensures ParseString(source[start..]) == Err(ScanFrom(source, start + 1).error)
  {
    assert source[start..][1..] == source[start + 1..];
    ScanFromSuffix(source, start + 1);
  }

  lemma SuffixSlices(source: Text, start: nat, end: nat)
    requires start < end < |source|
    ensures var (s, n) := (source[start..], end - start - 1);
            s[1..] == source[start + 1..] && s[1..n + 1] == source[start + 1..end] && s[n + 2..] == source[end + 1..]
  {}

  /** String() by position: the slice between the quotes, decoded. */
  lemma StringEnds(source: Text, start: nat, end: nat)
    requires start < |source| && source[start] == QUOTE && ScanFrom(source, start + 1) == Ok(end)
    ensures start < end < |source|
    ensures ParseString(source[start..]) ==
            match Unescape(source[start + 1..end])
            case None => Err(InvalidString)
            case Some(items) => Ok((items, source[end + 1..]))
  {
    ScanFromSuffix(source, start + 1);
    SuffixSlices(source, start, end);
  }

  class DuplicateKeyJsonParser {
    const source: Text
    var index: nat

    constructor (source: Text)
      ensures this.source == source && index == 0
    {
      this.source := source;
      index := 0;
    }

    /** The text still to be read. */
    ghost function Rest(): Text
      reads this
    {
      if index <= |source| then source[index..] else []
    }

    /** The outcome and the new index are those of the recogniser's result r. */
    ghost predicate Agrees(outcome: Outcome, r: Result<Text, JsonError>)
      reads this
    {
      match r
      case Ok(rest) => outcome.Pass? && index <= |source| && Rest() == rest
      case Err(e) => outcome == Fail(e)
    }

    /** `this.source[this.index] === c` */
    predicate At(c: CodeUnit)
      reads this
      ensures At(c) <==> HeadIs(Rest(), c)
    {
      index < |source| && source[index] == c
    }

    method AssertDocument() returns (outcome: Outcome)
      requires index == 0
      modifies this
      ensures match ParseDocument(source)
              case Ok(_) => outcome.Pass?
              case Err(e) => outcome == Fail(e)
    {
      assert Rest() == source;
      SkipWhitespace();
      SpaceTakenOnce(source);
      outcome := Value();
      if outcome.Fail? { return; }
      SkipWhitespace();
      if index != |source| {
        outcome := Fail(TrailingContent);
      }
    }

    method Value() returns (outcome: Outcome)
      requires index <= |source|
      modifies this
      ensures Agrees(outcome, AfterValue(old(Rest())))
      ensures outcome.Pass? ==> old(index) < index
      decreases |source| - index, 1
    {
      SkipWhitespace();
      ghost var s := Rest();
      if At(LBRACE) {
        ObjectStep(s);
        outcome := Object();
      } else if At(LBRACKET) {
        ArrayStep(s);
        outcome := Array();
      } else if At(QUOTE) {
        var key := String();
        outcome := if key.Ok? then Pass else Fail(key.error);
      } else if At(MINUS) || (index < |source| && IsDigit(source[index])) {
        outcome := Number();
      } else if StartsWith(source[index..], TRUE_WORD) {
        index := index + 4;
        outcome := Pass;
      } else if StartsWith(source[index..], FALSE_WORD) {
        index := index + 5;
        outcome := Pass;
      } else if StartsWith(source[index..], NULL_WORD) {
        index := index + 4;
        outcome := Pass;
      } else {
        outcome := Fail(InvalidValue);
      }
    }

    method Object() returns (outcome: Outcome)
      requires At(LBRACE)
      modifies this
      ensures Agrees(outcome, AfterObject(old(Rest())))
      ensures outcome.Pass? ==> old(index) < index
      decreases |source| - index, 0
    {
      ghost var s := Rest();
      Advance();
      SkipWhitespace();
      var keys: set<Text> := {};
      if At(RBRACE) {
        Advance();
        return Pass;
      }
      while true
        invariant old(index) < index <= |source|
        invariant AfterMembers(Rest(), keys) == AfterObject(s)
        decreases |source| - index
      {
        MembersStep(Rest(), keys);
        SkipWhitespace();
        if !At(QUOTE) {
          return Fail(InvalidObjectKey);
        }
        StringSound(Rest());
        var key := String();
        if key.Err? {
          return Fail(key.error);
        }
        if key.value in keys {
          return Fail(DuplicateKey(key.value));
        }
        keys := keys + {key.value};
        SkipWhitespace();
        if !At(COLON) {
          return Fail(InvalidObjectSeparator);
        }
        Advance();
        AfterColonStep([], [], [], Rest(), keys);
        outcome := Value();
        if outcome.Fail? { return; }
        SkipWhitespace();
        if At(RBRACE) {
          Advance();
          return;
        }
        if !At(COMMA) {
          return Fail(InvalidObjectDelimiter);
        }
        Advance();
      }
    }

    method Array() returns (outcome: Outcome)
      requires At(LBRACKET)
      modifies this
      ensures Agrees(outcome, AfterArray(old(Rest())))
      ensures outcome.Pass? ==> old(index) < index
      decreases |source| - index, 0
    {
      ghost var s := Rest();
      Advance();
      SkipWhitespace();
      if At(RBRACKET) {
        Advance();
        return Pass;
      }
      while true
        invariant old(index) < index <= |source|
        invariant AfterElements(Rest()) == AfterArray(s)
        decreases |source| - index
      {
        ElementsStep(Rest());
        outcome := Value();
        if outcome.Fail? { return; }
        SkipWhitespace();
        if At(RBRACKET) {
          Advance();
          return;
        }
        if !At(COMMA) {
          return Fail(InvalidArrayDelimiter);
        }
        Advance();
      }
    }

    /** The loop of string(): where the closing quote is, or why there is none. */
    method ScanToQuote(ghost start: nat) returns (end: Result<nat, JsonError>)
      requires start < |source| && index == start + 1
      modifies this
      ensures end == ScanFrom(source, start + 1)
      ensures end.Ok? ==> start < end.value < |source| && index == end.value + 1
    {
      while index < |source|
        invariant start < index
        invariant ScanFrom(source, start + 1) == ScanFrom(source, index)
        decreases |source| - index
      {
        var current := source[index];
        if current == BACKSLASH {
          index := index + 2;
          continue;
        }
        if current == QUOTE {
          index := index + 1;
          return Ok(index - 1);
        }
        if current < 0x20 {
          return Err(ControlCharacter);
        }
        index := index + 1;
      }
      return Err(UnterminatedString);
    }

    /** The decoded string. JSON.parse of the slice is Unescape of what is between the quotes. */
    method String() returns (key: Result<Text, JsonError>)
      requires At(QUOTE)
      modifies this
      ensures var r := ParseString(old(Rest()));
              && (r.Err? ==> key == Err(r.error))
              && (r.Ok? ==> ItemsOk(r.value.0) && key == Ok(DecodeItems(r.value.0)) && Rest() == r.value.1)
      ensures key.Ok? ==> old(index) < index <= |source|
    {
      var start := index;
      Advance();
      var end := ScanToQuote(start);
      if end.Err? {
        StringFails(source, start);
        return Err(end.error);
      }
      StringEnds(source, start, end.value);
      UnescapeSound(source[start + 1..end.value]);
      var items := Unescape(source[start + 1..end.value]);
      return if items.Some? then Ok(DecodeItems(items.value)) else Err(InvalidString);
    }

    method Number() returns (outcome: Outcome)
      requires index <= |source|
      modifies this
      ensures Agrees(outcome, Remainder(ParseNumber(old(Rest()))))
      ensures outcome.Pass? ==> old(index) < index
    {
      NumberSound(Rest());
      var numeral := ParseNumber(source[index..]);
      if numeral.Err? {
        return Fail(numeral.error);
      }
      index := |source| - |numeral.value.1|;
      return Pass;
    }

    /** `this.index += 1`, past a character that has just been looked at. */
    method Advance()
      requires index < |source|
      modifies this
      ensures index == old(index) + 1
      ensures Rest() == old(Rest())[1..]
    {
      index := index + 1;
    }

    method SkipWhitespace()
      requires index <= |source|
      modifies this
      ensures old(index) <= index <= |source|
      ensures Rest() == TakeSpace(old(Rest())).1
    {
      while index < |source| && IsSpace(source[index])
        invariant old(index) <= index <= |source|
        invariant TakeSpace(Rest()).1 == TakeSpace(old(Rest())).1
      {
        index := index + 1;
      }
    }
  }
}
