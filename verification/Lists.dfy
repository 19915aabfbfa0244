/** `filter` and `map` on lists, and what they do to a rearranged list. */
module Lists {
  import opened Wrappers

  function Where<T>(p: T -> bool, s: seq<T>): (r: seq<T>)
    ensures |r| <= |s|
  {
    if s == [] then [] else (if p(s[0]) then [s[0]] else []) + Where(p, s[1..])
  }

  lemma {:induction false} WhereMembers<T(!new)>(p: T -> bool, s: seq<T>)
    ensures forall x :: x in Where(p, s) <==> x in s && p(x)
  {
    if s == [] {
    } else {
      WhereMembers(p, s[1..]);
      assert s == [s[0]] + s[1..];
    }
  }

  function Each<T, U>(f: T -> U, s: seq<T>): (r: seq<U>)
    ensures |r| == |s|
  {
    if s == [] then [] else [f(s[0])] + Each(f, s[1..])
  }

  lemma WhereOne<T>(p: T -> bool, x: T)
    ensures Where(p, [x]) == if p(x) then [x] else []
  {
    assert [x][1..] == [];
  }

  lemma EachOne<T, U>(f: T -> U, x: T)
    ensures Each(f, [x]) == [f(x)] && Each(f, []) == []
  {
    assert [x][1..] == [];
  }

  lemma {:induction false} EachAt<T, U>(f: T -> U, s: seq<T>)
    ensures forall k :: 0 <= k < |s| ==> Each(f, s)[k] == f(s[k])
  {
    if s == [] {
    } else {
      EachAt(f, s[1..]);
    }
  }

  lemma {:induction false} WhereCounts<T(!new)>(p: T -> bool, s: seq<T>, x: T)
    ensures multiset(Where(p, s))[x] == if p(x) then multiset(s)[x] else 0
  {
    if s == [] {
    } else {
      assert s == [s[0]] + s[1..];
      assert multiset(s) == multiset{s[0]} + multiset(s[1..]);
      WhereCounts(p, s[1..], x);
      if p(s[0]) {
        assert multiset(Where(p, s)) == multiset{s[0]} + multiset(Where(p, s[1..]));
      }
    }
  }

  lemma WherePermutes<T(!new)>(p: T -> bool, a: seq<T>, b: seq<T>)
    requires multiset(a) == multiset(b)
    ensures multiset(Where(p, a)) == multiset(Where(p, b))
    ensures |Where(p, a)| == |Where(p, b)|
  {
    forall x: T ensures multiset(Where(p, a))[x] == multiset(Where(p, b))[x] {
      WhereCounts(p, a, x);
      WhereCounts(p, b, x);
    }
    assert multiset(Where(p, a)) == multiset(Where(p, b));
    assert |multiset(Where(p, a))| == |Where(p, a)|;
  }

  lemma {:induction false} EachAppend<T, U>(f: T -> U, a: seq<T>, b: seq<T>)
    ensures Each(f, a + b) == Each(f, a) + Each(f, b)
  {
    if a == [] {
      assert a + b == b;
    } else {
      assert (a + b)[1..] == a[1..] + b;
      EachAppend(f, a[1..], b);
    }
  }

  lemma HeadCounts<T>(a: seq<T>)
    requires a != []
    ensures multiset(a) == multiset{a[0]} + multiset(a[1..]) && a[0] in multiset(a)
  {
    assert a == [a[0]] + a[1..];
  }

  /** Taking the first of a out of b. */
  lemma FirstIn<T>(a: seq<T>, b: seq<T>) returns (p: seq<T>, q: seq<T>)
    requires a != [] && multiset(a) == multiset(b)
    ensures b == p + ([a[0]] + q) && multiset(a[1..]) == multiset(p + q)
  {
    HeadCounts(a);
    assert a[0] in b;
    var j :| 0 <= j < |b| && b[j] == a[0];
    p, q := b[..j], b[j + 1..];
    assert b == p + ([a[0]] + q);
    MiddleOut(p, a[0], q);
    SameRest(multiset(a[1..]), multiset(p + q), multiset{a[0]});
  }

  lemma SameRest<T>(m: multiset<T>, n: multiset<T>, x: multiset<T>)
    requires x + m == x + n
    ensures m == n
  {
    assert m == (x + m) - x;
    assert n == (x + n) - x;
  }

  lemma {:induction false} EachPermutes<T, U>(f: T -> U, a: seq<T>, b: seq<T>)
    requires multiset(a) == multiset(b)
    ensures multiset(Each(f, a)) == multiset(Each(f, b))
  {
    if a == [] {
      assert |multiset(b)| == 0;
    } else {
      var p, q := FirstIn(a, b);
      EachPermutes(f, a[1..], p + q);
      EachAppend(f, p, [a[0]] + q);
      EachAppend(f, [a[0]], q);
      EachAppend(f, p, q);
      MiddleOut(Each(f, p), f(a[0]), Each(f, q));
      assert Each(f, [a[0]]) == [f(a[0])];
      assert multiset(Each(f, a)) == multiset{f(a[0])} + multiset(Each(f, a[1..]));
    }
  }

  lemma MiddleOut<U>(a: seq<U>, x: U, b: seq<U>)
    ensures multiset(a + ([x] + b)) == multiset{x} + multiset(a + b)
  {}

  lemma Concat3<T>(a: seq<T>, b: seq<T>, c: seq<T>)
    ensures a + (b + c) == (a + b) + c
  {}

  /** Moving the first of s to the end of what precedes it. */
  lemma ShiftFirst<T>(before: seq<T>, s: seq<T>)
    requires s != []
    ensures (before + [s[0]]) + s[1..] == before + s
  {}

  lemma {:induction false} WhereAppend<T>(p: T -> bool, a: seq<T>, b: seq<T>)
    ensures Where(p, a + b) == Where(p, a) + Where(p, b)
  {
    if a == [] {
      assert a + b == b && [] + Where(p, b) == Where(p, b);
    } else {
      WhereAppend(p, a[1..], b);
      assert (a + b)[1..] == a[1..] + b;
      Concat3(if p(a[0]) then [a[0]] else [], Where(p, a[1..]), Where(p, b));
    }
  }

  /** What a loop has collected, before the outcome for the rest of its input. */
  function Prepend<T, E>(before: seq<T>, r: Result<seq<T>, E>): Result<seq<T>, E> {
    match r case Ok(values) => Ok(before + values) case Err(e) => Err(e)
  }

  lemma PrependNothing<T, E>(r: Result<seq<T>, E>)
    ensures Prepend([], r) == r
  {
    if r.Ok? { assert [] + r.value == r.value; }
  }

  lemma PrependTwice<T, E>(a: seq<T>, b: seq<T>, r: Result<seq<T>, E>)
    ensures Prepend(a, Prepend(b, r)) == Prepend(a + b, r)
  {
    if r.Ok? { Concat3(a, b, r.value); }
  }
}
