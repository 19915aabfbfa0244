/** The stable sort behind every `[...values].sort(compare)` of the scripts.
    `le(x, y)` stands for `compare(x, y) <= 0`. For a comparator that is a total preorder the
    language standard leaves exactly one result, the stable one, and that is what Sort computes. */
module Sorting {
  import opened Lists

  ghost predicate TotalPreorder<T(!new)>(le: (T, T) -> bool) {
    && (forall x, y :: le(x, y) || le(y, x))
    && (forall x, y, z :: le(x, y) && le(y, z) ==> le(x, z))
  }

  ghost predicate Ascending<T>(le: (T, T) -> bool, s: seq<T>) {
    forall i, j :: 0 <= i < j < |s| ==> le(s[i], s[j])
  }

  /** No two different members of s compare as equal. */
  ghost predicate NoTies<T>(le: (T, T) -> bool, s: seq<T>) {
    forall x, y :: x in s && y in s && le(x, y) && le(y, x) ==> x == y
  }

  ghost predicate Distinct<T>(s: seq<T>) {
    forall i, j :: 0 <= i < j < |s| ==> s[i] != s[j]
  }

  function Insert<T>(le: (T, T) -> bool, x: T, s: seq<T>): (r: seq<T>)
    ensures multiset(r) == multiset(s) + multiset{x}
  {
    if s == [] || le(x, s[0]) then [x] + s
    else
      assert s == [s[0]] + s[1..];
      [s[0]] + Insert(le, x, s[1..])
  }

  function Sort<T>(le: (T, T) -> bool, s: seq<T>): (r: seq<T>)
    ensures multiset(r) == multiset(s)
  {
    if s == [] then []
    else
      assert s == [s[0]] + s[1..];
      Insert(le, s[0], Sort(le, s[1..]))
  }

  lemma PermutationMembers<T>(a: seq<T>, b: seq<T>)
    requires multiset(a) == multiset(b)
    ensures |a| == |b|
    ensures forall x :: x in a <==> x in b
  {
    assert |multiset(a)| == |multiset(b)|;
    forall x ensures x in a <==> x in b {
      assert x in a <==> x in multiset(a);
      assert x in b <==> x in multiset(b);
    }
  }

  lemma {:induction false} InsertAscends<T(!new)>(le: (T, T) -> bool, x: T, s: seq<T>)
    requires TotalPreorder(le) && Ascending(le, s)
    ensures Ascending(le, Insert(le, x, s))
  {
    if s == [] || le(x, s[0]) {
    } else {
      InsertAscends(le, x, s[1..]);
      var rest := Insert(le, x, s[1..]);
      forall y | y in rest ensures le(s[0], y) {
        assert y in multiset(rest);
        assert y in multiset(s[1..]) + multiset{x};
        assert y == x || y in s[1..];
      }
    }
  }

  lemma {:induction false} SortAscends<T(!new)>(le: (T, T) -> bool, s: seq<T>)
    requires TotalPreorder(le)
    ensures Ascending(le, Sort(le, s))
  {
    if s == [] {
    } else {
      SortAscends(le, s[1..]);
      InsertAscends(le, s[0], Sort(le, s[1..]));
    }
  }

  /** le, with ties settled by tie. */
  function Refined<T>(le: (T, T) -> bool, tie: (T, T) -> bool): (T, T) -> bool {
    (x: T, y: T) => le(x, y) && (le(y, x) ==> tie(x, y))
  }

  lemma {:induction false} InsertStable<T(!new)>(le: (T, T) -> bool, tie: (T, T) -> bool, x: T, s: seq<T>)
    requires TotalPreorder(le) && Ascending(Refined(le, tie), s) && forall y :: y in s ==> tie(x, y)
    ensures Ascending(Refined(le, tie), Insert(le, x, s))
  {
    var finer := Refined(le, tie);
    if s == [] {
    } else if le(x, s[0]) {
      forall j | 0 <= j < |s| ensures finer(x, s[j]) {
        assert j == 0 || finer(s[0], s[j]);
        assert s[j] in s;
      }
    } else {
      InsertStable(le, tie, x, s[1..]);
      var rest := Insert(le, x, s[1..]);
      PermutationMembers(rest, s[1..] + [x]);
      forall y | y in rest ensures finer(s[0], y) {
        assert y in s[1..] + [x];
        if y != x {
          var j :| 0 <= j < |s[1..]| && s[1..][j] == y;
          assert finer(s[0], s[j + 1]);
        }
      }
    }
  }

  /** Sorting is stable: values that tie stay in the order they had. */
  lemma {:induction false} SortStable<T(!new)>(le: (T, T) -> bool, tie: (T, T) -> bool, s: seq<T>)
    requires TotalPreorder(le) && Ascending(tie, s)
    ensures Ascending(Refined(le, tie), Sort(le, s))
  {
    if s == [] {
    } else {
      SortStable(le, tie, s[1..]);
      PermutationMembers(Sort(le, s[1..]), s[1..]);
      forall y | y in Sort(le, s[1..]) ensures tie(s[0], y) {
        var j :| 0 <= j < |s[1..]| && s[1..][j] == y;
        assert tie(s[0], s[j + 1]);
      }
      InsertStable(le, tie, s[0], Sort(le, s[1..]));
    }
  }

  lemma {:induction false} InsertEach<T(!new)>(le: (T, T) -> bool, f: T -> T, x: T, s: seq<T>)
    requires forall x, y :: le(f(x), f(y)) == le(x, y)
    ensures Insert(le, f(x), Each(f, s)) == Each(f, Insert(le, x, s))
  {
    if s == [] {
      EachOne(f, x);
    } else if le(x, s[0]) {
      assert ([x] + s)[1..] == s;
    } else {
      InsertEach(le, f, x, s[1..]);
      assert ([s[0]] + Insert(le, x, s[1..]))[1..] == Insert(le, x, s[1..]);
      assert Each(f, s)[1..] == Each(f, s[1..]);
    }
  }

  /** Sorting and then changing what the order does not look at, or the other way round. */
  lemma {:induction false} SortEach<T(!new)>(le: (T, T) -> bool, f: T -> T, s: seq<T>)
    requires forall x, y :: le(f(x), f(y)) == le(x, y)
    ensures Sort(le, Each(f, s)) == Each(f, Sort(le, s))
  {
    if s == [] {
    } else {
      SortEach(le, f, s[1..]);
      assert Each(f, s)[1..] == Each(f, s[1..]);
      InsertEach(le, f, s[0], Sort(le, s[1..]));
    }
  }

  lemma SameFirst<T>(le: (T, T) -> bool, a: seq<T>, b: seq<T>)
    requires Ascending(le, a) && Ascending(le, b) && NoTies(le, a)
    requires |a| == |b| > 0 && forall x :: x in a <==> x in b
    ensures a[0] == b[0]
  {
    assert a[0] in b && b[0] in a && a[0] in a;
    var i :| 0 <= i < |b| && b[i] == a[0];
    var j :| 0 <= j < |a| && a[j] == b[0];
    if i != 0 && j != 0 {
      assert le(b[0], b[i]) && le(a[0], a[j]);
    }
  }

  lemma TailMultiset<T>(a: seq<T>)
    requires a != []
    ensures multiset(a[1..]) == multiset(a) - multiset{a[0]}
  {
    assert a == [a[0]] + a[1..];
  }

  lemma TailKeepsOrder<T>(le: (T, T) -> bool, a: seq<T>)
    requires a != [] && Ascending(le, a) && NoTies(le, a)
    ensures Ascending(le, a[1..]) && NoTies(le, a[1..])
  {
    assert forall x :: x in a[1..] ==> x in a;
  }

  /** Two ascending arrangements of the same values are the same sequence when nothing ties. */
  lemma {:induction false} AscendingUnique<T>(le: (T, T) -> bool, a: seq<T>, b: seq<T>)
    requires Ascending(le, a) && Ascending(le, b)
    requires multiset(a) == multiset(b)
    requires NoTies(le, a)
    ensures a == b
  {
    PermutationMembers(a, b);
    if a == [] {
    } else {
      SameFirst(le, a, b);
      TailMultiset(a);
      TailMultiset(b);
      TailKeepsOrder(le, a);
      assert Ascending(le, b[1..]);
      AscendingUnique(le, a[1..], b[1..]);
      assert a == [a[0]] + a[1..] && b == [b[0]] + b[1..];
    }
  }

  /** Sorting forgets the order of its input when nothing ties. */
  lemma SortDependsOnMembersOnly<T(!new)>(le: (T, T) -> bool, a: seq<T>, b: seq<T>)
    requires TotalPreorder(le) && multiset(a) == multiset(b) && NoTies(le, a)
    ensures Sort(le, a) == Sort(le, b)
  {
    SortAscends(le, a);
    SortAscends(le, b);
    PermutationMembers(a, Sort(le, a));
    AscendingUnique(le, Sort(le, a), Sort(le, b));
  }

  /** A sequence that already ascends is left alone. */
  lemma {:induction false} SortFixesAscending<T>(le: (T, T) -> bool, s: seq<T>)
    requires Ascending(le, s)
    ensures Sort(le, s) == s
  {
    if s == [] {
    } else {
      assert Ascending(le, s[1..]);
      SortFixesAscending(le, s[1..]);
      if |s| > 1 { assert le(s[0], s[1]); }
    }
  }

  /** `[...new Set(values)]`: the first occurrence of each value, in order. */
  function Unique<T(==, !new)>(s: seq<T>): (r: seq<T>)
    ensures Distinct(r)
    ensures forall x :: x in r <==> x in s
  {
    if s == [] then []
    else
      var front := Unique(s[..|s| - 1]);
      var x := s[|s| - 1];
      assert s == s[..|s| - 1] + [x];
      if x in front then front else front + [x]
  }

  lemma {:induction false} DistinctCount<T>(s: seq<T>, x: T)
    requires Distinct(s)
    ensures multiset(s)[x] == if x in s then 1 else 0
  {
    if s == [] {
    } else {
      assert s == [s[0]] + s[1..];
      assert multiset(s) == multiset{s[0]} + multiset(s[1..]);
      DistinctCount(s[1..], x);
      assert s[0] !in s[1..];
    }
  }

  lemma DistinctSameMembers<T>(a: seq<T>, b: seq<T>)
    requires Distinct(a) && Distinct(b)
    requires forall x :: x in a <==> x in b
    ensures multiset(a) == multiset(b)
  {
    forall x: T ensures multiset(a)[x] == multiset(b)[x] {
      DistinctCount(a, x);
      DistinctCount(b, x);
    }
  }

  lemma CountTwice<T>(s: seq<T>, i: nat, j: nat)
    requires i < j < |s|
    ensures s[i] == s[j] ==> multiset(s)[s[i]] >= 2
  {
    assert s == s[..j] + [s[j]] + s[j + 1..];
    assert s[i] in s[..j];
    assert multiset(s[..j])[s[i]] >= 1;
  }

  lemma PermutationKeepsDistinct<T>(a: seq<T>, b: seq<T>)
    requires multiset(a) == multiset(b) && Distinct(a)
    ensures Distinct(b)
  {
    forall i, j | 0 <= i < j < |b| ensures b[i] != b[j] {
      DistinctCount(a, b[i]);
      CountTwice(b, i, j);
    }
  }

  /** The order of `.sort()` without a comparator: code unit by code unit, a prefix first. */
  predicate LeText(a: string, b: string) {
    a == [] || (b != [] && (a[0] < b[0] || (a[0] == b[0] && LeText(a[1..], b[1..]))))
  }

  lemma {:induction false} LeTextTotal(a: string, b: string)
    ensures LeText(a, b) || LeText(b, a)
  {
    if a == [] || b == [] || a[0] != b[0] {
    } else {
      LeTextTotal(a[1..], b[1..]);
    }
  }

  lemma {:induction false} LeTextTransitive(a: string, b: string, c: string)
    requires LeText(a, b) && LeText(b, c)
    ensures LeText(a, c)
  {
    if a == [] || a[0] != b[0] || b[0] != c[0] {
    } else {
      LeTextTransitive(a[1..], b[1..], c[1..]);
    }
  }

  lemma {:induction false} LeTextAntisymmetric(a: string, b: string)
    requires LeText(a, b) && LeText(b, a)
    ensures a == b
  {
    if a == [] {
    } else {
      LeTextAntisymmetric(a[1..], b[1..]);
    }
  }

  lemma LeTextOrder()
    ensures TotalPreorder(LeText)
  {
    forall a, b ensures LeText(a, b) || LeText(b, a) { LeTextTotal(a, b); }
    forall a, b, c | LeText(a, b) && LeText(b, c) ensures LeText(a, c) { LeTextTransitive(a, b, c); }
  }

  lemma LeTextNoTies(s: seq<string>)
    ensures NoTies(LeText, s)
  {
    forall a, b | LeText(a, b) && LeText(b, a) ensures a == b { LeTextAntisymmetric(a, b); }
  }

  /** `[...new Set(values)].sort()` over strings. */
  function SortedSet(s: seq<string>): (r: seq<string>) {
    Sort(LeText, Unique(s))
  }

  lemma SortedSetSorts(s: seq<string>)
    ensures Ascending(LeText, SortedSet(s)) && Distinct(SortedSet(s))
    ensures forall x :: x in SortedSet(s) <==> x in s
  {
    LeTextOrder();
    var u := Unique(s);
    SortAscends(LeText, u);
    PermutationMembers(u, Sort(LeText, u));
    PermutationKeepsDistinct(u, Sort(LeText, u));
  }

  /** SortedSet is the one duplicate-free ascending list of the members of s. */
  lemma SortedSetCharacterized(s: seq<string>, r: seq<string>)
    ensures r == SortedSet(s) <==>
            Ascending(LeText, r) && Distinct(r) && forall x :: x in r <==> x in s
  {
    SortedSetSorts(s);
    if Ascending(LeText, r) && Distinct(r) && forall x :: x in r <==> x in s {
      var t := SortedSet(s);
      DistinctSameMembers(r, t);
      LeTextNoTies(r);
      AscendingUnique(LeText, r, t);
    }
  }
}
