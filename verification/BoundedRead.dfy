/** readBoundedDiagnostic of scripts/process-diagnostics.ts: read a stream chunk by chunk, keep at
    most maxBytes bytes, stop early once more have come. The text decoder is a parameter. */
module BoundedRead {
  import opened Wrappers
  import opened Lists

  type Byte = b: nat | b < 256
  type Bytes = seq<Byte>

  datatype BoundedDiagnostic = BoundedDiagnostic(text: string, bytesRead: nat, truncated: bool)

  /** The first n elements, or all of them, or none when n is negative. */
  function Take<T>(s: seq<T>, n: int): seq<T> {
    if n <= 0 then [] else if n < |s| then s[..n] else s
  }

  function Flatten(chunks: seq<Bytes>): Bytes {
    if chunks == [] then [] else chunks[0] + Flatten(chunks[1..])
  }

  /** A read may come without a value. */
  function Value(result: Option<Bytes>): Bytes {
    match result case None => [] case Some(value) => value
  }

  /** All bytes of a stream. */
  function Content(results: seq<Option<Bytes>>): Bytes {
    if results == [] then []
    else Value(results[0]) + Content(results[1..])
  }

  /** None of the first k reads takes the count past the limit. */
  ghost predicate Within(results: seq<Option<Bytes>>, maxBytes: int, k: nat) {
    && k <= |results|
    && forall j :: 0 < j <= k && results[j - 1].Some? ==> |Content(results[..j])| <= maxBytes
  }

  /** The reader stops after k results: the first one that takes the count past the limit, or the last. */
  ghost predicate StopsAfter(results: seq<Option<Bytes>>, maxBytes: int, k: nat) {
    && k <= |results|
    && (k < |results| ==> k > 0 && results[k - 1].Some? && |Content(results[..k])| > maxBytes)
    && (k > 0 ==> Within(results, maxBytes, k - 1))
  }

  lemma {:induction false} FlattenAppend(a: seq<Bytes>, b: seq<Bytes>)
    ensures Flatten(a + b) == Flatten(a) + Flatten(b)
  {
    if a == [] {
      assert a + b == b && [] + Flatten(b) == Flatten(b);
    } else {
      FlattenAppend(a[1..], b);
      assert (a + b)[1..] == a[1..] + b;
      Concat3(a[0], Flatten(a[1..]), Flatten(b));
    }
  }

  lemma FlattenOne(chunk: Bytes)
    ensures Flatten([chunk]) == chunk
  {
    assert [chunk][1..] == [] && chunk + [] == chunk;
  }

  lemma {:induction false} ContentAppend(a: seq<Option<Bytes>>, b: seq<Option<Bytes>>)
    ensures Content(a + b) == Content(a) + Content(b)
  {
    if a == [] {
      assert a + b == b && [] + Content(b) == Content(b);
    } else {
      ContentAppend(a[1..], b);
      assert (a + b)[1..] == a[1..] + b;
      Concat3(Value(a[0]), Content(a[1..]), Content(b));
    }
  }

  lemma ContentOne(result: Option<Bytes>)
    ensures Content([result]) == Value(result)
  {
    var rest: seq<Option<Bytes>> := [result][1..];
    assert rest == [] && Value(result) + [] == Value(result);
  }

  lemma ContentNext(results: seq<Option<Bytes>>, i: nat)
    requires i < |results|
    ensures Content(results[..i + 1]) == Content(results[..i]) + Value(results[i])
  {
    assert results[..i + 1] == results[..i] + [results[i]];
    ContentAppend(results[..i], [results[i]]);
    ContentOne(results[i]);
  }

  /** Once more than n elements are there, the first n no longer change. */
  lemma TakeSettled<T>(a: seq<T>, b: seq<T>, n: int)
    requires |a| > n
    ensures Take(a + b, n) == Take(a, n)
  {
    if n > 0 { assert (a + b)[..n] == a[..n]; }
  }

  /** Keeping what still fits of the next chunk. */
  lemma TakeNext<T>(a: seq<T>, b: seq<T>, n: int)
    ensures Take(a + b, n) == Take(a, n) + Take(b, n - |Take(a, n)|)
  {
    if n <= 0 || n < |a| {
      if n > 0 { assert (a + b)[..n] == a[..n]; }
    } else if n < |a + b| {
      assert (a + b)[..n] == a + b[..n - |a|];
    } else {
      assert Take(b, n - |a|) == b;
    }
  }

  /** What was read by the time the reader stops decides both as the whole stream does. */
  lemma StoppingLosesNothing(results: seq<Option<Bytes>>, maxBytes: int, k: nat)
    requires StopsAfter(results, maxBytes, k)
    ensures Take(Content(results[..k]), maxBytes) == Take(Content(results), maxBytes)
    ensures |Content(results[..k])| > maxBytes <==> |Content(results)| > maxBytes
  {
    assert results == results[..k] + results[k..];
    ContentAppend(results[..k], results[k..]);
    if k < |results| {
      TakeSettled(Content(results[..k]), Content(results[k..]), maxBytes);
    }
  }

  lemma AppendChunk(chunks: seq<Bytes>, chunk: Bytes)
    ensures Flatten(chunks + [chunk]) == Flatten(chunks) + chunk
  {
    FlattenAppend(chunks, [chunk]);
    FlattenOne(chunk);
  }

  /** As much of a chunk as still fits. */
  function Fit(value: Bytes, remaining: int): Bytes
    requires remaining > 0
  {
    if |value| <= remaining then value else value[..remaining]
  }

  lemma KeepNext(chunks: seq<Bytes>, content: Bytes, value: Bytes, maxBytes: int)
    requires Flatten(chunks) == Take(content, maxBytes)
    ensures var remaining := maxBytes - |Flatten(chunks)|;
            Take(content + value, maxBytes) ==
            if remaining > 0 then Flatten(chunks + [Fit(value, remaining)]) else Flatten(chunks)
  {
    var remaining := maxBytes - |Flatten(chunks)|;
    TakeNext(content, value, maxBytes);
    if remaining > 0 {
      AppendChunk(chunks, Fit(value, remaining));
    } else {
      assert Flatten(chunks) + [] == Flatten(chunks);
    }
  }

  method ReadBoundedDiagnostic(stream: Option<seq<Option<Bytes>>>, maxBytes: int, decode: Bytes -> string)
    returns (r: BoundedDiagnostic)
    ensures stream.None? ==> r == BoundedDiagnostic("", 0, false)
    ensures stream.Some? ==> r.text == decode(Take(Content(stream.value), maxBytes))
    ensures stream.Some? ==> r.truncated == (|Content(stream.value)| > maxBytes)
    ensures stream.Some? ==>
              exists k: nat :: StopsAfter(stream.value, maxBytes, k) && r.bytesRead == |Content(stream.value[..k])|
  {
    if stream.None? { return BoundedDiagnostic("", 0, false); }
    var results := stream.value;
    var chunks: seq<Bytes> := [];
    var retained, bytesRead := 0, 0;
    var i := 0;
    assert results[..0] == [];
    while i < |results|
      invariant i <= |results|
      invariant bytesRead == |Content(results[..i])|
      invariant Flatten(chunks) == Take(Content(results[..i]), maxBytes) && retained == |Flatten(chunks)|
      invariant Within(results, maxBytes, i)
    {
      var read := results[i];
      ContentNext(results, i);
      i := i + 1;
      if read.None? {
        assert Content(results[..i - 1]) + [] == Content(results[..i - 1]);
        continue;
      }
      var value := read.value;
      bytesRead := bytesRead + |value|;
      var remaining := maxBytes - retained;
      KeepNext(chunks, Content(results[..i - 1]), value, maxBytes);
      if remaining > 0 {
        var chunk := Fit(value, remaining);
        AppendChunk(chunks, chunk);
        chunks := chunks + [chunk];
        retained := retained + |chunk|;
      }
      assert Flatten(chunks) == Take(Content(results[..i]), maxBytes);
      if bytesRead > maxBytes { break; }
    }
    StoppingLosesNothing(results, maxBytes, i);
    var combined := Combine(chunks, retained);
    r := BoundedDiagnostic(decode(combined[..]), bytesRead, bytesRead > maxBytes);
    assert StopsAfter(stream.value, maxBytes, i) && r.bytesRead == |Content(stream.value[..i])|;
  }

  /** The copy loop: chunk after chunk into one buffer of the right size. */
  method Combine(chunks: seq<Bytes>, retained: nat) returns (combined: array<Byte>)
    requires retained == |Flatten(chunks)|
    ensures combined[..] == Flatten(chunks)
  {
    combined := new Byte[retained](_ => 0);
    var offset := 0;
    assert chunks[..0] == [];
    for c := 0 to |chunks|
      invariant offset == |Flatten(chunks[..c])|
      invariant offset <= retained && combined[..offset] == Flatten(chunks[..c])
    {
      var chunk := chunks[c];
      assert chunks[..c + 1] == chunks[..c] + [chunk] && chunks == chunks[..c + 1] + chunks[c + 1..];
      AppendChunk(chunks[..c], chunk);
      FlattenAppend(chunks[..c + 1], chunks[c + 1..]);
      ghost var done := combined[..offset];
      forall j | 0 <= j < |chunk| { combined[offset + j] := chunk[j]; }
      assert combined[..offset + |chunk|] == done + chunk;
      offset := offset + |chunk|;
    }
    assert chunks[..|chunks|] == chunks;
  }

  /** How the bytes were cut into reads shows in neither the text nor the flag. */
  lemma ChunkingIrrelevant(a: seq<Option<Bytes>>, b: seq<Option<Bytes>>, maxBytes: int, i: nat, j: nat)
    requires Content(a) == Content(b)
    requires StopsAfter(a, maxBytes, i) && StopsAfter(b, maxBytes, j)
    ensures Take(Content(a[..i]), maxBytes) == Take(Content(b[..j]), maxBytes)
    ensures |Content(a[..i])| > maxBytes <==> |Content(b[..j])| > maxBytes
  {
    StoppingLosesNothing(a, maxBytes, i);
    StoppingLosesNothing(b, maxBytes, j);
  }

  /** At most one read is taken past the limit. */
  lemma ReadsAtMostOneChunkTooMany(results: seq<Option<Bytes>>, maxBytes: int, k: nat)
    requires StopsAfter(results, maxBytes, k) && k > 0 && maxBytes >= 0
    ensures |Content(results[..k - 1])| <= maxBytes
  {
    LastValue(results, maxBytes, k, k - 1);
  }

  lemma {:induction false} LastValue(results: seq<Option<Bytes>>, maxBytes: int, k: nat, j: nat)
    requires StopsAfter(results, maxBytes, k) && j < k && maxBytes >= 0
    ensures |Content(results[..j])| <= maxBytes
  {
    if j > 0 {
      LastValue(results, maxBytes, k, j - 1);
      ContentNext(results, j - 1);
      if results[j - 1].None? {
        assert Content(results[..j - 1]) + [] == Content(results[..j - 1]);
      }
    } else {
      assert results[..0] == [];
    }
  }
}
