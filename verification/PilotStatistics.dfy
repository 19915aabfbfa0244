/** `median` and `reduction` of scripts/project-intelligence-value-pilot-validation.ts, over the
    reals: rounding is not modelled. */
module PilotStatistics {
  import opened Wrappers
  import opened Sorting
  import opened Lists

  predicate LeReal(x: real, y: real) { x <= y }

  /** The middle value, or the mean of the two middle ones. */
  function Middle(sorted: seq<real>): real
    requires sorted != []
  {
    var middle := |sorted| / 2;
    if |sorted| % 2 == 0 then (sorted[middle - 1] + sorted[middle]) / 2.0 else sorted[middle]
  }

  function Median(values: seq<real>): Option<real> {
    if values == [] then None
    else
      assert |Sort(LeReal, values)| == |values| by { PermutationMembers(Sort(LeReal, values), values); }
      Some(Middle(Sort(LeReal, values)))
  }

  function Reduction(baseline: Option<real>, catalog: Option<real>): Option<real> {
    if baseline.None? || catalog.None? || baseline.value == 0.0 then None
    else Some((baseline.value - catalog.value) / baseline.value)
  }

  lemma RealOrder(s: seq<real>)
    ensures TotalPreorder(LeReal) && NoTies(LeReal, s)
  {}

  lemma SortPermutes(a: seq<real>, b: seq<real>)
    requires multiset(a) == multiset(b)
    ensures |a| == |b| && Sort(LeReal, a) == Sort(LeReal, b)
  {
    RealOrder(a);
    PermutationMembers(a, b);
    SortDependsOnMembersOnly(LeReal, a, b);
  }

  lemma MedianPermutes(a: seq<real>, b: seq<real>)
    requires multiset(a) == multiset(b)
    ensures Median(a) == Median(b)
  {
    SortPermutes(a, b);
  }

  /** How many values are at most x, and how many are at least x. */
  function AtMost(x: real, s: seq<real>): nat { |Where((y: real) => y <= x, s)| }
  function AtLeast(x: real, s: seq<real>): nat { |Where((y: real) => y >= x, s)| }

  lemma {:induction false} WhereAllOf(p: real -> bool, s: seq<real>, from: nat, to: nat)
    requires from <= to <= |s| && forall i :: from <= i < to ==> p(s[i])
    ensures |Where(p, s)| >= to - from
    decreases |s|
  {
    if s == [] {
    } else {
      if from == 0 {
        if to > 0 { WhereAllOf(p, s[1..], 0, to - 1); }
      } else {
        WhereAllOf(p, s[1..], from - 1, to - 1);
      }
    }
  }

  /** At least half of the values lie on each side of the median. */
  lemma MedianSplitsInHalf(values: seq<real>)
    requires values != []
    ensures Median(values).Some?
    ensures 2 * AtMost(Median(values).value, values) >= |values|
    ensures 2 * AtLeast(Median(values).value, values) >= |values|
  {
    var s := Sort(LeReal, values);
    RealOrder(values);
    SortAscends(LeReal, values);
    PermutationMembers(s, values);
    var m := Middle(s);
    MiddleSplits(s);
    WherePermutes((y: real) => y <= m, values, s);
    WherePermutes((y: real) => y >= m, values, s);
  }

  lemma MiddleSplits(s: seq<real>)
    requires s != [] && Ascending(LeReal, s)
    ensures 2 * AtMost(Middle(s), s) >= |s| && 2 * AtLeast(Middle(s), s) >= |s|
  {
    var m := Middle(s);
    MiddleBounds(s);
    WhereAllOf((y: real) => y <= m, s, 0, (|s| + 1) / 2);
    WhereAllOf((y: real) => y >= m, s, |s| / 2, |s|);
  }

  lemma MiddleBounds(s: seq<real>)
    requires s != [] && Ascending(LeReal, s)
    ensures forall i :: 0 <= i < (|s| + 1) / 2 ==> s[i] <= Middle(s)
    ensures forall i :: |s| / 2 <= i < |s| ==> s[i] >= Middle(s)
  {
    var m := Middle(s);
    var middle := |s| / 2;
    forall i | 0 <= i < (|s| + 1) / 2 ensures s[i] <= m {
      if |s| % 2 == 0 {
        assert i <= middle - 1 && LeReal(s[middle - 1], s[middle]);
        assert i == middle - 1 || LeReal(s[i], s[middle - 1]);
      } else {
        assert i == middle || LeReal(s[i], s[middle]);
      }
    }
    forall i | middle <= i < |s| ensures s[i] >= m {
      if |s| % 2 == 0 { assert LeReal(s[middle - 1], s[middle]); }
      assert i == middle || LeReal(s[middle], s[i]);
    }
  }

  /** The gate `reduction >= threshold` compares the two medians without dividing. */
  lemma ReductionReaches(baseline: Option<real>, catalog: Option<real>, threshold: real)
    requires baseline.Some? ==> baseline.value >= 0.0
    ensures var r := Reduction(baseline, catalog);
            r.Some? && r.value >= threshold <==>
            baseline.Some? && catalog.Some? && baseline.value > 0.0
              && catalog.value <= (1.0 - threshold) * baseline.value
  {
    if baseline.Some? && catalog.Some? && baseline.value > 0.0 {
      var b, c := baseline.value, catalog.value;
      var r := (b - c) / b;
      assert r * b == b - c;
      if r >= threshold { assert r * b >= threshold * b; }
      if c <= (1.0 - threshold) * b { assert r * b >= threshold * b; }
    }
  }
}
