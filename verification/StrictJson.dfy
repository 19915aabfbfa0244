/** parseStrictJson (scripts/project-intelligence-value-pilot-contract.ts): the duplicate check,
    then JSON.parse on the same text. JSON.parse is described by the grammar: RFC 8259 white space,
    and of two members with equal keys the last one wins. */
module StrictJson {
  import opened Wrappers
  import opened Sorting
  import opened JsonSyntax
  import opened JsonRecognizer
  import opened JsonLanguage
  import opened StrictJsonParser
  import opened JsonValues

  datatype StrictError = Rejected(error: JsonError) | SyntaxError

  /** Defining a member whose key may already be there. */
  function Put(es: seq<Entry>, e: Entry, lastWins: bool): seq<Entry> {
    if exists i :: 0 <= i < |es| && es[i].key == e.key then
      if lastWins then seq(|es|, i requires 0 <= i < |es| => if es[i].key == e.key then e else es[i]) else es
    else es + [e]
  }

  function PutAll(es: seq<Entry>, lastWins: bool): seq<Entry> {
    if es == [] then [] else Put(PutAll(es[..|es| - 1], lastWins), es[|es| - 1], lastWins)
  }

  /** The value of a tree; JavaScript keeps the members put into an object in property order. */
  function Decode(v: Node, lastWins: bool): Json
    requires NodeOk(v)
    decreases v
  {
    match v
    case Literal(w) => (match w case True => JBool(true) case False => JBool(false) case Null => JNull)
    case Number(n) => JNumber(n)
    case String(items) => JString(DecodeItems(items))
    case EmptyArray(_) => JArray([])
    case Array(es) => JArray(DecodeElements(es, lastWins))
    case EmptyObject(_) => JObject([])
    case Object(ms) => JObject(SortEntries(PropertyLe, PutAll(DecodeMembers(ms, lastWins), lastWins)))
  }

  function DecodeElements(es: Elements, lastWins: bool): seq<Json>
    requires ElementsOk(es)
    decreases es
  {
    assert PaddedOk(es.p);
    [Decode(es.p.value, lastWins)] + if es.Last? then [] else DecodeElements(es.rest, lastWins)
  }

  /** All the members in text order, repetitions included. */
  function DecodeMembers(ms: Members, lastWins: bool): seq<Entry>
    requires MembersOk(ms)
    decreases ms
  {
    assert PaddedOk(ms.p);
    [Entry(DecodeItems(ms.key), Decode(ms.p.value, lastWins))]
    + if ms.LastMember? then [] else DecodeMembers(ms.rest, lastWins)
  }

  lemma {:induction false} PutAllDistinct(es: seq<Entry>, lastWins: bool)
    requires Distinct(KeysOf(es))
    ensures PutAll(es, lastWins) == es
  {
    if es == [] {
    } else {
      var front := es[..|es| - 1];
      assert KeysOf(front) == KeysOf(es)[..|es| - 1];
      PutAllDistinct(front, lastWins);
      forall i | 0 <= i < |front| ensures front[i].key != es[|es| - 1].key {
        assert KeysOf(es)[i] != KeysOf(es)[|es| - 1];
      }
    }
  }

  lemma {:induction false} DecodedKeys(ms: Members, lastWins: bool)
    requires MembersOk(ms)
    ensures KeysOf(DecodeMembers(ms, lastWins)) == Keys(ms)
    decreases ms
  {
    assert PaddedOk(ms.p);
    if ms.LastMember? {
    } else {
      DecodedKeys(ms.rest, lastWins);
    }
  }

  /** Without repeated keys it makes no difference which member would win: nothing is dropped. */
  lemma {:induction false} FirstAndLastWinsAgree(v: Node)
    requires NodeOk(v) && DistinctKeys(v)
    ensures Decode(v, true) == Decode(v, false)
    ensures v.Object? ==> Decode(v, true) == JObject(SortEntries(PropertyLe, DecodeMembers(v.members, true)))
    decreases v
  {
    match v {
      case Array(es) => ElementsAgree(es);
      case Object(ms) =>
        MembersAgree(ms);
        DecodedKeys(ms, true);
        PutAllDistinct(DecodeMembers(ms, true), true);
        PutAllDistinct(DecodeMembers(ms, true), false);
      case _ =>
    }
  }

  lemma {:induction false} ElementsAgree(es: Elements)
    requires ElementsOk(es) && DistinctKeysElements(es)
    ensures DecodeElements(es, true) == DecodeElements(es, false)
    decreases es
  {
    assert PaddedOk(es.p);
    FirstAndLastWinsAgree(es.p.value);
    if es.Last? {
    } else {
      ElementsAgree(es.rest);
    }
  }

  lemma {:induction false} MembersAgree(ms: Members)
    requires MembersOk(ms) && DistinctKeysMembers(ms)
    ensures DecodeMembers(ms, true) == DecodeMembers(ms, false)
    decreases ms
  {
    assert PaddedOk(ms.p);
    FirstAndLastWinsAgree(ms.p.value);
    if ms.LastMember? {
    } else {
      MembersAgree(ms.rest);
    }
  }

  // ----- parseStrictJson

  /** JSON.parse(text) returns v. */
  ghost predicate JsonParseGives(text: Text, v: Json) {
    exists p :: Derives(p, text) && RfcSpacedPadded(p) && Decode(p.value, true) == v
  }

  function ParseStrictJson(text: Text): Result<Json, StrictError> {
    match ParseDocument(text)
    case Err(e) => Err(Rejected(e))
    case Ok(p) =>
      assert PaddedOk(p) by { PaddedSound(text); }
      if RfcSpacedPadded(p) then Ok(Decode(p.value, true)) else Err(SyntaxError)
  }

  /** What is known of JSON.parse: on this text it gives a value that the grammar allows, and it
      throws only when there is none. */
  ghost predicate Describes(result: Option<Json>, text: Text) {
    match result
    case Some(v) => JsonParseGives(text, v)
    case None => forall v :: !JsonParseGives(text, v)
  }

  /** The two statements of parseStrictJson. JSON.parse is a parameter. */
  method RunParseStrictJson(text: Text, jsonParse: Text -> Option<Json>) returns (r: Result<Json, StrictError>)
    requires Describes(jsonParse(text), text)
    ensures r == ParseStrictJson(text)
    ensures forall v :: r == Ok(v) <==> ParseDocument(text).Ok? && JsonParseGives(text, v)
    ensures r == Err(SyntaxError) <==> ParseDocument(text).Ok? && forall v :: !JsonParseGives(text, v)
    ensures ParseDocument(text).Err? ==> r == Err(Rejected(ParseDocument(text).error))
  {
    var parser := new DuplicateKeyJsonParser(text);
    var outcome := parser.AssertDocument();
    if outcome.Fail? {
      return Err(Rejected(outcome.error));
    }
    PassedText(text);
    var value := jsonParse(text);
    return if value.Some? then Ok(value.value) else Err(SyntaxError);
  }

  /** On a text that passes the check the grammar leaves JSON.parse at most one value. */
  lemma PassedText(text: Text)
    requires ParseDocument(text).Ok?
    ensures forall v :: JsonParseGives(text, v) <==> ParseStrictJson(text) == Ok(v)
    ensures ParseStrictJson(text).Err? ==> ParseStrictJson(text) == Err(SyntaxError)
  {
    var p := ParseDocument(text).value;
    PaddedSound(text);
    assert text == SpellPadded(p) + [];
    assert Derives(p, text);
    forall v ensures JsonParseGives(text, v) <==> ParseStrictJson(text) == Ok(v) {
      if q :| Derives(q, text) && RfcSpacedPadded(q) && Decode(q.value, true) == v {
        DerivationUnique(text, q);
      }
    }
  }

  /** A strictly parsed value is what JSON.parse gives, the text derives from RFC 8259 with distinct
      keys, and no member of it is lost; every other text is refused. */
  lemma StrictParseExact(text: Text, v: Json)
    ensures ParseStrictJson(text) == Ok(v) <==>
            exists p :: && Derives(p, text) && RfcSpacedPadded(p) && DistinctKeys(p.value)
                        && Decode(p.value, true) == Decode(p.value, false) == v
  {
    PaddedSound(text);
    if ParseStrictJson(text) == Ok(v) {
      var p := ParseDocument(text).value;
      assert text == SpellPadded(p) + [];
      assert Derives(p, text);
      DerivationUnique(text, p);
      FirstAndLastWinsAgree(p.value);
    }
    if p :| Derives(p, text) && RfcSpacedPadded(p) && DistinctKeys(p.value)
            && Decode(p.value, true) == Decode(p.value, false) == v {
      NoDuplicateMeansDistinct(p.value);
      GrammaticalTextAnswer(p, text);
    }
  }

  /** The check only ever narrows JSON.parse: when both accept they agree, and JSON.parse accepts
      whatever passes. */
  lemma StrictParseAgreesWithJsonParse(text: Text)
    requires ParseStrictJson(text).Ok?
    ensures forall v :: JsonParseGives(text, v) <==> v == ParseStrictJson(text).value
  {
    StrictParseExact(text, ParseStrictJson(text).value);
    forall v | JsonParseGives(text, v) ensures v == ParseStrictJson(text).value {
      var p :| Derives(p, text) && RfcSpacedPadded(p) && Decode(p.value, true) == v;
      DerivationUnique(text, p);
    }
  }
}
