/** Which headings keep their own id when ensureHeadingIds (scripts/generate-pages-plan-archive.ts)
    has run, as a condition on the headings before it runs. */
module HeadingSurvival {
  import opened Naturals
  import opened Wrappers
  import opened HeadingIds

  predicate FirstOfItsKind(before: Headings, i: nat)
    requires i < |before|
  {
    forall j :: 0 <= j < i ==> IdOf(before[j]) != IdOf(before[i])
  }

  predicate GeneratedBelow(id: string, n: nat) {
    exists m :: 1 <= m < n && id == Generated(m)
  }

  /** Heading j takes one of the first n generated ids, if one is left: it has no id, its id was
      there before, or its id is one of the first n - 1. */
  predicate Claims(before: Headings, j: nat, n: nat)
    requires j < |before|
  {
    IdOf(before[j]) == "" || !FirstOfItsKind(before, j) || GeneratedBelow(IdOf(before[j]), n)
  }

  function Claimed(before: Headings, i: nat, n: nat): (r: nat)
    requires i <= |before|
    ensures r <= i
  {
    if i == 0 then 0 else Claimed(before, i - 1, n) + if Claims(before, i - 1, n) then 1 else 0
  }

  /** id is the n-th generated id for some n such that n headings before heading i take the first n. */
  predicate ClaimedUp(before: Headings, i: nat, id: string)
    requires i <= |before|
  {
    exists n :: 1 <= n <= i && id == Generated(n) && Claimed(before, i, n) >= n
  }

  /** Heading i has an id that no heading before it has, and that those do not use up. */
  predicate Survives(before: Headings, i: nat)
    requires i < |before|
  {
    IdOf(before[i]) != "" && FirstOfItsKind(before, i) && !ClaimedUp(before, i, IdOf(before[i]))
  }

  // ----- where used ids come from

  type Usage = seq<set<string>>

  /** u[j] holds the ids used before heading j; a heading keeps a new id or gets the next generated. */
  ghost predicate History(before: Headings, after: Headings, u: Usage) {
    && |before| == |after| && |u| == |after| + 1 && u[0] == {}
    && forall j :: 0 <= j < |after| ==> u[j + 1] == u[j] + {IdOf(after[j])} && StepOk(before[j], after[j], u[j])
  }

  ghost predicate StepOk(before: Option<string>, after: Option<string>, used: set<string>) {
    if IdOf(before) != "" && IdOf(before) !in used then after == before
    else after != before && NextGenerated(IdOf(after), used)
  }

  lemma StepAt(before: Headings, after: Headings, j: nat)
    requires Assigned(before, after) && j < |after|
    ensures StepOk(before[j], after[j], Used(after[..j]))
  {
    var used := Used(after[..j]);
    AssignedIsNew(before, after, j);
    AssignedHere(before, after, j);
    if !(IdOf(before[j]) != "" && IdOf(before[j]) !in used) {
      var n: nat :| LeastFree(n, used) && after[j].value == Generated(n);
      GeneratedId(n);
    }
  }

  lemma UsedNext(after: Headings, i: nat)
    requires i < |after|
    ensures Used(after[..i + 1]) == Used(after[..i]) + {IdOf(after[i])}
  {
    assert after[..i + 1][..i] == after[..i];
  }

  ghost function Usages(after: Headings): Usage {
    seq(|after| + 1, j requires 0 <= j <= |after| => Used(after[..j]))
  }

  lemma HistoryOf(before: Headings, after: Headings)
    requires Assigned(before, after)
    ensures History(before, after, Usages(after))
  {
    var u := Usages(after);
    assert after[..0] == [];
    forall j | 0 <= j < |after| ensures u[j + 1] == u[j] + {IdOf(after[j])} && StepOk(before[j], after[j], u[j]) {
      UsedNext(after, j);
      StepAt(before, after, j);
    }
  }

  lemma {:induction false} UsedStays(before: Headings, after: Headings, u: Usage, j: nat, i: nat)
    requires History(before, after, u) && j <= i <= |after|
    ensures u[j] <= u[i]
    decreases i - j
  {
    if j == i {
    } else {
      UsedStays(before, after, u, j + 1, i);
      assert u[j + 1] == u[j] + {IdOf(after[j])};
    }
  }

  /** An id that was there is used from then on, by its heading or by an earlier one. */
  lemma SeenIsUsed(before: Headings, after: Headings, u: Usage, i: nat, j: nat)
    requires History(before, after, u) && j < i <= |after| && IdOf(before[j]) != ""
    ensures IdOf(before[j]) in u[i]
  {
    assert u[j + 1] == u[j] + {IdOf(after[j])} && StepOk(before[j], after[j], u[j]);
    UsedStays(before, after, u, j + 1, i);
  }

  ghost predicate AskedFor(before: Headings, i: nat, id: string)
    requires i <= |before|
  {
    exists j :: 0 <= j < i && IdOf(before[j]) == id
  }

  ghost predicate IsGenerated(id: string) { exists n :: n >= 1 && id == Generated(n) }

  lemma {:induction false} Origin(before: Headings, after: Headings, u: Usage, i: nat, id: string)
    requires History(before, after, u) && i <= |after|
    ensures id in u[i] ==> AskedFor(before, i, id) || IsGenerated(id)
  {
    if i == 0 {
    } else {
      Origin(before, after, u, i - 1, id);
      assert u[i] == u[i - 1] + {IdOf(after[i - 1])} && StepOk(before[i - 1], after[i - 1], u[i - 1]);
    }
  }

  lemma TakenUpTo(n: nat, used: set<string>, id: string)
    requires n >= 1 && NextGenerated(id, used) && id == Generated(n)
    ensures TakenBelow(n + 1, used + {id})
  {
    var k: nat :| LeastFree(k, used) && id == Generated(k);
    GeneratedInjective(k, n);
    TakenMore(n, used, id);
  }

  /** A generated id that no heading asked for is used only when all smaller ones are. */
  lemma {:induction false} CountedInOrder(before: Headings, after: Headings, u: Usage, i: nat, n: nat)
    requires History(before, after, u) && i <= |after| && n >= 1 && !AskedFor(before, i, Generated(n))
    ensures Generated(n) in u[i] ==> TakenBelow(n + 1, u[i])
  {
    if i == 0 {
    } else {
      var used, id := u[i - 1], IdOf(after[i - 1]);
      CountedInOrder(before, after, u, i - 1, n);
      assert u[i] == used + {id} && StepOk(before[i - 1], after[i - 1], used);
      assert IdOf(before[i - 1]) != Generated(n);
      if Generated(n) in used {
        TakenMore(n + 1, used, id);
      } else if id == Generated(n) {
        TakenUpTo(n, used, id);
      }
    }
  }

  // ----- how many of the first n generated ids are used

  ghost function Taken(n: nat, used: set<string>): nat { |FirstGenerated(n) * used| }

  lemma TakenAtMost(n: nat, used: set<string>)
    ensures Taken(n, used) <= n
    ensures Taken(n, used) == n <==> TakenBelow(n + 1, used)
  {
    var g := FirstGenerated(n);
    FirstGeneratedSize(n);
    SubsetSize(g * used, g);
    if Taken(n, used) == n { SameSize(g * used, g); }
    if TakenBelow(n + 1, used) { assert g * used == g; }
  }

  lemma SameSize<T>(a: set<T>, b: set<T>)
    requires a <= b && |a| == |b|
    ensures a == b
  {
    assert b == a + (b - a) && |b - a| == 0;
  }

  lemma TakenGrows(n: nat, used: set<string>, id: string)
    requires id in FirstGenerated(n) && id !in used
    ensures Taken(n, used + {id}) == Taken(n, used) + 1 <= n
  {
    assert FirstGenerated(n) * (used + {id}) == FirstGenerated(n) * used + {id};
    TakenAtMost(n, used + {id});
  }

  lemma TakenStays(n: nat, used: set<string>, id: string)
    requires id !in FirstGenerated(n) || TakenBelow(n + 1, used)
    ensures Taken(n, used + {id}) == Taken(n, used)
  {
    if id !in FirstGenerated(n) {
      assert FirstGenerated(n) * (used + {id}) == FirstGenerated(n) * used;
    } else {
      TakenAtMost(n, used);
      TakenMore(n + 1, used, id);
      TakenAtMost(n, used + {id});
    }
  }

  /** The next generated id is among the first n unless all of those are used. */
  lemma NextTaken(n: nat, used: set<string>, id: string)
    requires NextGenerated(id, used)
    ensures Taken(n, used + {id}) == Min(Taken(n, used) + 1, n)
  {
    var k: nat :| LeastFree(k, used) && id == Generated(k);
    if k <= n {
      TakenGrows(n, used, id);
    } else {
      TakenAtMost(n, used);
      TakenStays(n, used, id);
    }
  }

  /** A heading that gets a generated id takes one of the first n, unless none of them is left. */
  lemma LostTaken(n: nat, used: set<string>, id: string, claims: bool)
    requires NextGenerated(id, used) && (claims || TakenBelow(n + 1, used))
    ensures Taken(n, used + {id}) == Min(Taken(n, used) + (if claims then 1 else 0), n)
  {
    if claims {
      NextTaken(n, used, id);
    } else {
      TakenAtMost(n, used);
      TakenStays(n, used, id);
    }
  }

  /** A heading that keeps its id takes one of the first n when its id is one of them. */
  lemma KeptTaken(n: nat, used: set<string>, id: string)
    requires id !in used && id != Generated(n)
    ensures Taken(n, used + {id}) == Taken(n, used) + (if GeneratedBelow(id, n) then 1 else 0) <= n
  {
    if GeneratedBelow(id, n) {
      TakenGrows(n, used, id);
    } else {
      TakenStays(n, used, id);
      TakenAtMost(n, used);
    }
  }

  // ----- one heading, then all

  lemma KeptClaims(before: Headings, after: Headings, u: Usage, j: nat, n: nat)
    requires History(before, after, u) && j < |after| && IdOf(before[j]) != "" && IdOf(before[j]) !in u[j]
    ensures Claims(before, j, n) <==> GeneratedBelow(IdOf(before[j]), n)
  {
    if k :| 0 <= k < j && IdOf(before[k]) == IdOf(before[j]) { SeenIsUsed(before, after, u, j, k); }
  }

  /** A heading whose id is used although it claims none comes after all of the first n are used. */
  lemma UnclaimedIsLate(before: Headings, after: Headings, u: Usage, j: nat, n: nat)
    requires History(before, after, u) && j < |after| && IdOf(before[j]) != Generated(n)
    requires !Claims(before, j, n) && IdOf(before[j]) in u[j]
    ensures TakenBelow(n + 1, u[j])
  {
    Origin(before, after, u, j, IdOf(before[j]));
    var k :| k >= 1 && IdOf(before[j]) == Generated(k);
    assert k > n;
    CountedInOrder(before, after, u, j, k);
  }

  lemma HeadingClaims(before: Headings, after: Headings, u: Usage, j: nat, n: nat)
    requires History(before, after, u) && j < |after| && IdOf(before[j]) != Generated(n)
    ensures Taken(n, u[j + 1]) == Min(Taken(n, u[j]) + (if Claims(before, j, n) then 1 else 0), n)
  {
    var id := IdOf(before[j]);
    assert u[j + 1] == u[j] + {IdOf(after[j])} && StepOk(before[j], after[j], u[j]);
    if id != "" && id !in u[j] {
      KeptClaims(before, after, u, j, n);
      KeptTaken(n, u[j], id);
    } else {
      if !Claims(before, j, n) { UnclaimedIsLate(before, after, u, j, n); }
      LostTaken(n, u[j], IdOf(after[j]), Claims(before, j, n));
    }
  }

  /** As long as no heading asks for the n-th generated id, as many of the first n are used as were
      claimed, until there are none left. */
  lemma {:induction false} TakenIsClaimed(before: Headings, after: Headings, u: Usage, i: nat, n: nat)
    requires History(before, after, u) && i <= |after| && !AskedFor(before, i, Generated(n))
    ensures Taken(n, u[i]) == Min(Claimed(before, i, n), n)
  {
    if i == 0 {
      assert FirstGenerated(n) * {} == {};
    } else {
      TakenIsClaimed(before, after, u, i - 1, n);
      HeadingClaims(before, after, u, i - 1, n);
    }
  }

  lemma GeneratedUsedExactly(before: Headings, after: Headings, u: Usage, i: nat, n: nat)
    requires History(before, after, u) && i <= |after| && n >= 1 && !AskedFor(before, i, Generated(n))
    ensures Generated(n) in u[i] <==> Claimed(before, i, n) >= n
  {
    TakenIsClaimed(before, after, u, i, n);
    TakenAtMost(n, u[i]);
    CountedInOrder(before, after, u, i, n);
  }

  /** The first heading with an id finds it used exactly when it is the n-th generated id and n
      headings before it take the first n. */
  lemma FirstUsedExactly(before: Headings, after: Headings, u: Usage, i: nat)
    requires History(before, after, u) && i < |after| && FirstOfItsKind(before, i)
    ensures IdOf(before[i]) in u[i] <==> ClaimedUp(before, i, IdOf(before[i]))
  {
    var id := IdOf(before[i]);
    forall n | n >= 1 && id == Generated(n) ensures id in u[i] <==> Claimed(before, i, n) >= n {
      GeneratedUsedExactly(before, after, u, i, n);
    }
    Origin(before, after, u, i, id);
  }

  /** The headings that keep their own attribute, told from the headings alone. */
  lemma KeptExactly(before: Headings, after: Headings, i: nat)
    requires Assigned(before, after) && i < |after|
    ensures after[i] == before[i] <==> Survives(before, i)
  {
    var u := Usages(after);
    HistoryOf(before, after);
    assert StepOk(before[i], after[i], u[i]);
    if IdOf(before[i]) != "" {
      if FirstOfItsKind(before, i) {
        FirstUsedExactly(before, after, u, i);
      } else {
        var j :| 0 <= j < i && IdOf(before[j]) == IdOf(before[i]);
        SeenIsUsed(before, after, u, i, j);
      }
    }
  }

  /** So the first heading with an id keeps it, unless it is the n-th generated id and n headings
      before it take the first n. */
  lemma FirstOfItsKindKept(before: Headings, after: Headings, i: nat)
    requires Assigned(before, after) && i < |after|
    requires IdOf(before[i]) != "" && FirstOfItsKind(before, i)
    ensures after[i] != before[i] <==> ClaimedUp(before, i, IdOf(before[i]))
  {
    HistoryOf(before, after);
    FirstUsedExactly(before, after, Usages(after), i);
    assert StepOk(before[i], after[i], Usages(after)[i]);
  }
}
