/** `split` and `join` on one separator character. */
module Segments {

  function Split(s: string, sep: char): (r: seq<string>)
    ensures |r| > 0
  {
    if s == "" then [""]
    else
      var rest := Split(s[1..], sep);
      if s[0] == sep then [""] + rest else [[s[0]] + rest[0]] + rest[1..]
  }

  function Join(parts: seq<string>, sep: char): string
    requires |parts| > 0
  {
    if |parts| == 1 then parts[0] else parts[0] + ([sep] + Join(parts[1..], sep))
  }

  predicate Free(s: string, sep: char) { sep !in s }

  lemma {:induction false} SplitFree(s: string, sep: char)
    requires Free(s, sep)
    ensures Split(s, sep) == [s]
  {
    if s == "" {
    } else {
      SplitFree(s[1..], sep);
      assert [s[0]] + s[1..] == s;
    }
  }

  lemma Prefixed(x: char, ra: seq<string>, rb: seq<string>)
    requires |ra| > 0
    ensures [[x] + (ra + rb)[0]] + (ra + rb)[1..] == ([[x] + ra[0]] + ra[1..]) + rb
  {
    assert (ra + rb)[1..] == ra[1..] + rb;
  }

  /** A separator separates: what is before it and what is after it are split on their own. */
  lemma {:induction false} SplitAppend(a: string, b: string, sep: char)
    ensures Split(a + ([sep] + b), sep) == Split(a, sep) + Split(b, sep)
  {
    var s := a + ([sep] + b);
    if a == "" {
      assert s == [sep] + b && s[1..] == b;
    } else {
      assert s[1..] == a[1..] + ([sep] + b) && s[0] == a[0];
      SplitAppend(a[1..], b, sep);
      var ra, rb := Split(a[1..], sep), Split(b, sep);
      if a[0] == sep {
        assert [""] + (ra + rb) == ([""] + ra) + rb;
      } else {
        Prefixed(a[0], ra, rb);
      }
    }
  }

  lemma {:induction false} JoinSplit(s: string, sep: char)
    ensures Join(Split(s, sep), sep) == s
  {
    if s == "" {
    } else {
      JoinSplit(s[1..], sep);
      var rest := Split(s[1..], sep);
      if s[0] == sep {
        assert ([""] + rest)[1..] == rest;
        assert "" + ([sep] + s[1..]) == s;
      } else {
        var r := [[s[0]] + rest[0]] + rest[1..];
        assert r[1..] == rest[1..];
        if |rest| > 1 {
          var more := [sep] + Join(rest[1..], sep);
          assert ([s[0]] + rest[0]) + more == [s[0]] + (rest[0] + more);
        }
        assert Join(r, sep) == [s[0]] + Join(rest, sep);
      }
    }
  }

  lemma {:induction false} JoinAppend(a: seq<string>, b: seq<string>, sep: char)
    requires |a| > 0 && |b| > 0
    ensures Join(a + b, sep) == Join(a, sep) + ([sep] + Join(b, sep))
  {
    assert (a + b)[1..] == a[1..] + b;
    if |a| > 1 {
      JoinAppend(a[1..], b, sep);
      assert a[0] + ([sep] + (Join(a[1..], sep) + ([sep] + Join(b, sep))))
          == (a[0] + ([sep] + Join(a[1..], sep))) + ([sep] + Join(b, sep));
    } else {
      assert a[1..] + b == b;
    }
  }

  lemma Regroup(a: string, sep: char, b: string)
    ensures a + ([sep] + b) == (a + [sep]) + b && a + [sep] <= a + ([sep] + b)
  {}

  lemma SegmentsContinue(p: string, c: string, sep: char)
    requires Split(p, sep) <= Split(c, sep)
    ensures c == p || p + [sep] <= c
  {
    var sp, sc := Split(p, sep), Split(c, sep);
    var more := sc[|sp|..];
    assert sc == sp + more;
    JoinSplit(p, sep);
    JoinSplit(c, sep);
    if more == [] {
      assert sc == sp;
    } else {
      JoinAppend(sp, more, sep);
      Regroup(p, sep, Join(more, sep));
    }
  }

  /** The segments of p are the first segments of c exactly when c is p or continues it after a
      separator. */
  lemma SegmentPrefix(p: string, c: string, sep: char)
    ensures Split(p, sep) <= Split(c, sep) <==> c == p || p + [sep] <= c
  {
    if Split(p, sep) <= Split(c, sep) { SegmentsContinue(p, c, sep); }
    if p + [sep] <= c {
      var rest := c[|p| + 1..];
      assert c == (p + [sep]) + rest;
      Regroup(p, sep, rest);
      SplitAppend(p, rest, sep);
    }
  }

  /** Every field followed by the separator. */
  function Terminated(fields: seq<string>, sep: char): string {
    if fields == [] then "" else fields[0] + ([sep] + Terminated(fields[1..], sep))
  }

  lemma {:induction false} SplitTerminated(fields: seq<string>, sep: char)
    requires forall i :: 0 <= i < |fields| ==> Free(fields[i], sep)
    ensures Split(Terminated(fields, sep), sep) == fields + [""]
  {
    if fields == [] {
    } else {
      SplitAppend(fields[0], Terminated(fields[1..], sep), sep);
      SplitFree(fields[0], sep);
      SplitTerminated(fields[1..], sep);
      assert [fields[0]] + (fields[1..] + [""]) == fields + [""];
    }
  }

  lemma {:induction false} SegmentsFree(s: string, sep: char)
    ensures forall i :: 0 <= i < |Split(s, sep)| ==> Free(Split(s, sep)[i], sep)
    ensures forall i, c :: 0 <= i < |Split(s, sep)| && c in Split(s, sep)[i] ==> c in s
  {
    if s == "" {
    } else {
      SegmentsFree(s[1..], sep);
      var rest := Split(s[1..], sep);
      assert forall c :: c in s[1..] ==> c in s;
    }
  }
}
