/** ensureHeadingIds of scripts/generate-pages-plan-archive.ts: every heading of an article gets an
    id of its own. The `id` attributes are an array changed in place. */
module HeadingIds {
  import opened Wrappers
  import CodePoints
  import opened Decimals

  // ----- String.prototype.trim

  predicate IsSpace(c: char) { CodePoints.IsSpace(c as int) }

  function TrimStart(s: string): string {
    if s != "" && IsSpace(s[0]) then TrimStart(s[1..]) else s
  }

  function TrimEnd(s: string): string {
    if s != "" && IsSpace(s[|s| - 1]) then TrimEnd(s[..|s| - 1]) else s
  }

  function Trim(s: string): string { TrimEnd(TrimStart(s)) }

  /** `heading.attr("id")?.trim() ?? ""` */
  function IdOf(attribute: Option<string>): string {
    match attribute case None => "" case Some(id) => Trim(id)
  }

  const PREFIX: string := "archive-section-"

  function Generated(n: nat): string { PREFIX + Decimal(n) }

  lemma GeneratedId(n: nat)
    ensures IdOf(Some(Generated(n))) == Generated(n) != ""
  {
    var s := Generated(n);
    DecimalDigits(n);
    assert s[0] == 'a';
    assert s[|s| - 1] == Decimal(n)[|Decimal(n)| - 1];
    assert IsDigit(Decimal(n)[|Decimal(n)| - 1]);
  }

  lemma GeneratedInjective(m: nat, n: nat)
    requires Generated(m) == Generated(n)
    ensures m == n
  {
    assert Generated(m)[|PREFIX|..] == Decimal(m) && Generated(n)[|PREFIX|..] == Decimal(n);
    DecimalInjective(m, n);
  }

  // ----- which id each heading must end with

  /** The `id` attributes of the headings, in document order. */
  type Headings = seq<Option<string>>

  ghost function Used(attributes: Headings): set<string>
    decreases |attributes|
  {
    if attributes == [] then {}
    else
      var n := |attributes| - 1;
      Used(attributes[..n]) + {IdOf(attributes[n])}
  }

  lemma {:induction false} UsedMembers(attributes: Headings)
    ensures forall id :: id in Used(attributes) <==> exists j :: 0 <= j < |attributes| && id == IdOf(attributes[j])
    decreases |attributes|
  {
    if attributes == [] {
    } else {
      var n := |attributes| - 1;
      UsedMembers(attributes[..n]);
      forall id | exists j :: 0 <= j < |attributes| && id == IdOf(attributes[j])
        ensures id in Used(attributes)
      {
        var j :| 0 <= j < |attributes| && id == IdOf(attributes[j]);
        assert j < n ==> attributes[..n][j] == attributes[j];
      }
    }
  }

  ghost predicate TakenBelow(n: nat, used: set<string>) {
    forall k :: 1 <= k < n ==> Generated(k) in used
  }

  /** n is the least number from 1 on whose generated id is not taken. */
  ghost predicate LeastFree(n: nat, used: set<string>) {
    n >= 1 && Generated(n) !in used && TakenBelow(n, used)
  }

  /** The generated id the do-while arrives at. */
  ghost predicate NextGenerated(id: string, used: set<string>) {
    exists n: nat :: LeastFree(n, used) && id == Generated(n)
  }

  lemma TakenMore(n: nat, used: set<string>, id: string)
    requires TakenBelow(n, used)
    ensures TakenBelow(n, used + {id})
    ensures id == Generated(n) ==> TakenBelow(n + 1, used + {id})
  {}

  /** An id that is there and new is kept, as it was written; every other heading gets the least
      generated id not used before it. */
  ghost predicate AssignedAt(before: Option<string>, after: Option<string>, used: set<string>) {
    if IdOf(before) != "" && IdOf(before) !in used then after == before
    else after.Some? && NextGenerated(after.value, used)
  }

  ghost predicate Assigned(before: Headings, after: Headings)
    decreases |after|
  {
    && |before| == |after|
    && (after == []
        || var n := |after| - 1;
           Assigned(before[..n], after[..n]) && AssignedAt(before[n], after[n], Used(after[..n])))
  }

  lemma {:induction false} AssignedHere(before: Headings, after: Headings, i: nat)
    requires Assigned(before, after) && i < |after|
    ensures AssignedAt(before[i], after[i], Used(after[..i]))
    decreases |after|
  {
    var n := |after| - 1;
    if i == n {
    } else {
      AssignedHere(before[..n], after[..n], i);
      assert after[..n][..i] == after[..i];
    }
  }

  // ----- at most as many numbers are tried as there are headings

  ghost function FirstGenerated(n: nat): (names: set<string>)
    ensures forall k :: 1 <= k <= n ==> Generated(k) in names
    ensures forall x :: x in names ==> exists k :: 1 <= k <= n && x == Generated(k)
  {
    if n == 0 then {} else FirstGenerated(n - 1) + {Generated(n)}
  }

  lemma {:induction false} FirstGeneratedSize(n: nat)
    ensures |FirstGenerated(n)| == n
  {
    if n == 0 {
    } else {
      FirstGeneratedSize(n - 1);
      if Generated(n) in FirstGenerated(n - 1) {
        var k :| 1 <= k <= n - 1 && Generated(n) == Generated(k);
        GeneratedInjective(n, k);
      }
    }
  }

  lemma SubsetSize<T>(a: set<T>, b: set<T>)
    requires a <= b
    ensures |a| <= |b|
  {
    assert b == a + (b - a);
  }

  /** When the first n generated ids are all used, at least n ids are. */
  lemma TakenNumbersBounded(n: nat, used: set<string>)
    requires TakenBelow(n + 1, used)
    ensures n <= |used|
  {
    FirstGeneratedSize(n);
    SubsetSize(FirstGenerated(n), used);
  }

  lemma AssignedSnoc(before: Headings, after: Headings, x: Option<string>, y: Option<string>)
    requires Assigned(before, after) && AssignedAt(x, y, Used(after))
    ensures Assigned(before + [x], after + [y])
    ensures Used(after + [y]) == Used(after) + {IdOf(y)}
  {
    assert (after + [y])[..|after|] == after && (before + [x])[..|before|] == before;
  }

  lemma UpdateMiddle<T>(done: seq<T>, before: seq<T>, x: T)
    requires |done| < |before|
    ensures (done + before[|done|..])[|done| := x] == (done + [x]) + before[|done| + 1..]
    ensures before[..|done| + 1] == before[..|done|] + [before[|done|]]
  {}

  /** The attributes once those in done are settled: done, then what was there before. */
  ghost predicate Settled(before: Headings, done: Headings, current: Headings) {
    |done| <= |before| && current == done + before[|done|..] && Assigned(before[..|done|], done)
  }

  lemma SettleNext(before: Headings, done: Headings, current: Headings, x: Option<string>)
    requires Settled(before, done, current) && |done| < |before|
    requires AssignedAt(current[|done|], x, Used(done))
    ensures Settled(before, done + [x], current[|done| := x])
    ensures Used(done + [x]) == Used(done) + {IdOf(x)}
  {
    assert current[|done|] == before[|done|];
    AssignedSnoc(before[..|done|], done, before[|done|], x);
    UpdateMiddle(done, before, x);
  }

  lemma NothingRemains<T>(done: seq<T>, before: seq<T>)
    requires |done| == |before|
    ensures done + before[|done|..] == done && before[..|done|] == before
  {}

  // ----- the operation

  /** The do-while: the next number whose id is free, given that all smaller ones are taken. */
  method NextFree(used: set<string>, start: nat) returns (id: string, generated: nat)
    requires start >= 1 && TakenBelow(start, used)
    ensures NextGenerated(id, used) && IdOf(Some(id)) == id
    ensures 1 <= generated <= |used| + 2 && TakenBelow(generated, used + {id})
  {
    id := Generated(start);
    generated := start + 1;
    while id in used
      invariant generated >= 2 && id == Generated(generated - 1)
      invariant TakenBelow(generated - 1, used)
      decreases |used| + 2 - generated
    {
      TakenNumbersBounded(generated - 1, used);
      id := Generated(generated);
      generated := generated + 1;
    }
    TakenNumbersBounded(generated - 2, used);
    GeneratedId(generated - 1);
    TakenMore(generated - 1, used, id);
  }

  /** The callback run on each heading, with the set and the counter it shares. */
  method EnsureId(heading: Option<string>, used: set<string>, generated: nat)
    returns (attribute: Option<string>, used': set<string>, generated': nat)
    requires generated >= 1 && TakenBelow(generated, used)
    ensures AssignedAt(heading, attribute, used) && used' == used + {IdOf(attribute)}
    ensures 1 <= generated' && (generated' <= generated || generated' <= |used| + 2) && TakenBelow(generated', used')
  {
    attribute, generated' := heading, generated;
    var id := IdOf(heading);
    if id == "" || id in used {
      id, generated' := NextFree(used, generated);
      attribute := Some(id);
    } else {
      TakenMore(generated, used, id);
    }
    used' := used + {id};
  }

  method EnsureHeadingIds(headings: array<Option<string>>) returns (generated: nat)
    modifies headings
    ensures Assigned(old(headings[..]), headings[..])
    ensures 1 <= generated <= headings.Length + 1
  {
    var used: set<string> := {};
    generated := 1;
    ghost var before, done := headings[..], [];
    for i := 0 to headings.Length
      invariant |done| == i && Settled(before, done, headings[..])
      invariant used == Used(done) && |used| <= i
      invariant 1 <= generated <= i + 1 && TakenBelow(generated, used)
    {
      ghost var current := headings[..];
      var attribute, used', generated' := EnsureId(headings[i], used, generated);
      SettleNext(before, done, current, attribute);
      headings[i] := attribute;
      used, generated, done := used', generated', done + [attribute];
    }
    NothingRemains(done, before);
  }

  // ----- what the assignment guarantees

  /** Every heading ends with an id, and no two with the same one, even after trimming. */
  lemma AssignedDistinct(before: Headings, after: Headings, i: nat, j: nat)
    requires Assigned(before, after) && i < j < |after|
    ensures IdOf(after[i]) != "" && IdOf(after[j]) != "" && IdOf(after[i]) != IdOf(after[j])
  {
    AssignedIsNew(before, after, i);
    AssignedIsNew(before, after, j);
    UsedMembers(after[..j]);
    assert after[..j][i] == after[i];
  }

  lemma AssignedIsNew(before: Headings, after: Headings, i: nat)
    requires Assigned(before, after) && i < |after|
    ensures IdOf(after[i]) != "" && IdOf(after[i]) !in Used(after[..i])
  {
    var used := Used(after[..i]);
    AssignedHere(before, after, i);
    if !(IdOf(before[i]) != "" && IdOf(before[i]) !in used) {
      var n: nat :| LeastFree(n, used) && after[i].value == Generated(n);
      GeneratedId(n);
    }
  }

  lemma FreeNotBelow(k: nat, m: nat, used: set<string>)
    requires LeastFree(k, used) && TakenBelow(m, used)
    ensures k >= m
  {}

  lemma LeastFreeUnique(k: nat, m: nat, used: set<string>)
    requires LeastFree(k, used) && LeastFree(m, used)
    ensures k == m
  {
    FreeNotBelow(k, m, used);
    FreeNotBelow(m, k, used);
  }

  lemma AssignedAtUnique(before: Option<string>, a: Option<string>, b: Option<string>, used: set<string>)
    requires AssignedAt(before, a, used) && AssignedAt(before, b, used)
    ensures a == b
  {
    if !(IdOf(before) != "" && IdOf(before) !in used) {
      var k: nat :| LeastFree(k, used) && a.value == Generated(k);
      var m: nat :| LeastFree(m, used) && b.value == Generated(m);
      LeastFreeUnique(k, m, used);
    }
  }

  lemma LastOut<T>(s: seq<T>)
    requires s != []
    ensures s == s[..|s| - 1] + [s[|s| - 1]]
  {}

  /** The headings before decide the outcome. */
  lemma {:induction false} AssignedUnique(before: Headings, a: Headings, b: Headings)
    requires Assigned(before, a) && Assigned(before, b)
    ensures a == b
    decreases |before|
  {
    if before == [] {
    } else {
      var n := |before| - 1;
      AssignedUnique(before[..n], a[..n], b[..n]);
      AssignedAtUnique(before[n], a[n], b[n], Used(a[..n]));
      LastOut(a);
      LastOut(b);
    }
  }

  lemma {:induction false} NewIdsStay(ids: Headings)
    requires forall i :: 0 <= i < |ids| ==> IdOf(ids[i]) != "" && IdOf(ids[i]) !in Used(ids[..i])
    ensures Assigned(ids, ids)
    decreases |ids|
  {
    if ids == [] {
    } else {
      var n := |ids| - 1;
      forall i | 0 <= i < n ensures IdOf(ids[..n][i]) != "" && IdOf(ids[..n][i]) !in Used(ids[..n][..i]) {
        assert ids[..n][..i] == ids[..i];
      }
      NewIdsStay(ids[..n]);
    }
  }

  /** A second run changes nothing. */
  lemma {:induction false} AssignedAgain(before: Headings, after: Headings, again: Headings)
    requires Assigned(before, after) && Assigned(after, again)
    ensures again == after
  {
    forall i | 0 <= i < |after| ensures IdOf(after[i]) != "" && IdOf(after[i]) !in Used(after[..i]) {
      AssignedIsNew(before, after, i);
    }
    NewIdsStay(after);
    AssignedUnique(after, after, again);
  }

  /** An id that looks generated can be lost although no other heading asked for it. */
  lemma GeneratedLookalikeLost(after: Headings)
    requires Assigned([None, Some(Generated(1))], after)
    ensures after == [Some(Generated(1)), Some(Generated(2))]
  {
    var before := [None, Some(Generated(1))];
    assert after[..0] == [] && after[..1] == [after[0]];
    AssignedHere(before, after, 0);
    var n: nat :| LeastFree(n, Used(after[..0])) && after[0].value == Generated(n);
    assert n == 1;
    GeneratedId(1);
    var used := Used(after[..1]);
    assert used == {Generated(1)} by { assert after[..1][..0] == []; }
    AssignedHere(before, after, 1);
    var m: nat :| LeastFree(m, used) && after[1].value == Generated(m);
    assert Generated(2) !in used by { if Generated(2) == Generated(1) { GeneratedInjective(2, 1); } }
    assert m == 2;
  }
}
