/** The scope check of scripts/check-scanner-hardening-closeout-scope.ts: patterns, the
    classification of changes, and what a report that is ok guarantees. */
module ScopeCheck {
  import opened Sorting
  import opened Lists
  import opened Segments
  import opened Decimals
  import opened GitChanges

  datatype Classification = ScannerHardening | SeparateUi | Generated | Unknown

  datatype InventoryEntry = InventoryEntry(change: GitChange, classification: Classification)

  datatype Contract = Contract(
    baselineInventory: seq<InventoryEntry>,
    allowedResidualPatterns: seq<string>,
    excludedResidualPatterns: seq<string>,
    generatedPaths: seq<string>,
    requiredResidualPaths: seq<string>)

  // ----- patterns

  predicate EndsWith(s: string, suffix: string) { |suffix| <= |s| && s[|s| - |suffix|..] == suffix }

  function Prefix(pattern: string): string
    requires EndsWith(pattern, "/**")
  {
    pattern[..|pattern| - 3]
  }

  predicate MatchesScopePattern(pattern: string, candidate: string) {
    if !EndsWith(pattern, "/**") then pattern == candidate
    else candidate == Prefix(pattern) || Prefix(pattern) + "/" <= candidate
  }

  // A pattern with the wildcard ending matches exactly the paths whose segments begin with those of
  // its prefix; any other pattern matches only itself. It holds for all texts, normalized or not.
  lemma PatternMatchesSegments(pattern: string, candidate: string)
    ensures MatchesScopePattern(pattern, candidate) <==>
            if EndsWith(pattern, "/**") then Split(Prefix(pattern), '/') <= Split(candidate, '/')
            else candidate == pattern
  {
    if EndsWith(pattern, "/**") { SegmentPrefix(Prefix(pattern), candidate, '/'); }
  }

  // ----- changes

  function PathsOf(c: GitChange): (r: seq<string>)
    ensures |r| > 0
  {
    match c case Changed(_, path) => [path] case Renamed(previous, path, _) => [previous, path]
  }

  function StatusName(s: Status): string {
    match s case Added => "added" case Modified => "modified" case Deleted => "deleted"
  }

  function KeyOf(c: GitChange): string {
    match c
    case Changed(status, path) => StatusName(status) + ":" + path
    case Renamed(previous, path, n) => "renamed:" + previous + ":" + path + ":" + Decimal(n)
  }

  predicate AllGenerated(contract: Contract, c: GitChange) {
    forall i :: 0 <= i < |PathsOf(c)| ==> PathsOf(c)[i] in contract.generatedPaths
  }

  predicate AnyMatch(patterns: seq<string>, path: string) {
    exists k :: 0 <= k < |patterns| && MatchesScopePattern(patterns[k], path)
  }

  predicate SomeExcluded(contract: Contract, c: GitChange) {
    exists i :: 0 <= i < |PathsOf(c)| && AnyMatch(contract.excludedResidualPatterns, PathsOf(c)[i])
  }

  predicate AllAllowed(contract: Contract, c: GitChange) {
    forall i :: 0 <= i < |PathsOf(c)| ==> AnyMatch(contract.allowedResidualPatterns, PathsOf(c)[i])
  }

  function ClassifyResidualChange(contract: Contract, c: GitChange): Classification {
    if AllGenerated(contract, c) then Generated
    else if SomeExcluded(contract, c) then Unknown
    else if AllAllowed(contract, c) then ScannerHardening
    else Unknown
  }

  // ----- the report

  function KeysOf(changes: seq<GitChange>): seq<string> { Each(KeyOf, changes) }

  /** The keys of the registered inventory; inventoryKey is inventoryEntryKey, whatever it computes. */
  function InventoryKeys(contract: Contract, inventoryKey: InventoryEntry -> string): seq<string> {
    Each(inventoryKey, contract.baselineInventory)
  }

  /** compareBaselineInventory: missing, then unexpected. */
  function CompareBaselineInventory(contract: Contract, inventoryKey: InventoryEntry -> string, actual: seq<GitChange>)
      : (seq<string>, seq<string>)
  {
    var expectedKeys, actualKeys := InventoryKeys(contract, inventoryKey), KeysOf(actual);
    (SortedSet(Where((k: string) => k !in actualKeys, expectedKeys)),
     SortedSet(Where((k: string) => k !in expectedKeys, actualKeys)))
  }

  function UnknownPaths(contract: Contract, residual: seq<GitChange>): seq<string> {
    if residual == [] then []
    else
      (if ClassifyResidualChange(contract, residual[0]).Unknown? then PathsOf(residual[0]) else [])
      + UnknownPaths(contract, residual[1..])
  }

  /** All the paths of the changes that keep says. */
  function PathsWhere(keep: GitChange -> bool, changes: seq<GitChange>): seq<string> {
    if changes == [] then []
    else (if keep(changes[0]) then PathsOf(changes[0]) else []) + PathsWhere(keep, changes[1..])
  }

  function InventoryPaths(inventory: seq<InventoryEntry>, classification: Classification): seq<string> {
    if inventory == [] then []
    else
      (if inventory[0].classification == classification then PathsOf(inventory[0].change) else [])
      + InventoryPaths(inventory[1..], classification)
  }

  /** scopePaths: the paths whose patch is digested under one classification. */
  function ScopePaths(contract: Contract, residual: seq<GitChange>, classification: Classification): seq<string> {
    SortedSet(InventoryPaths(contract.baselineInventory, classification)
              + PathsWhere((c: GitChange) => ClassifyResidualChange(contract, c) == classification, residual))
  }

  datatype Report = Report(
    missingBaseline: seq<string>, unexpectedBaseline: seq<string>, unknownPaths: seq<string>,
    missingRequiredPaths: seq<string>, scannerPaths: seq<string>, separatePaths: seq<string>,
    generatedPaths: seq<string>, ok: bool)

  /** checkScannerHardeningCloseoutScope, given what git reported: the baseline and residual changes,
      which paths the candidate commit contains, and whether the checkout is clean. */
  function Check(contract: Contract, inventoryKey: InventoryEntry -> string,
                 baseline: seq<GitChange>, residual: seq<GitChange>,
                 contains: string -> bool, cleanCheckout: bool, allowDirty: bool): Report
  {
    var (missing, unexpected) := CompareBaselineInventory(contract, inventoryKey, baseline);
    var unknown := SortedSet(UnknownPaths(contract, residual));
    var missingRequired := Where((p: string) => !contains(p), contract.requiredResidualPaths);
    Report(missing, unexpected, unknown, Sort(LeText, missingRequired),
           ScopePaths(contract, residual, ScannerHardening),
           ScopePaths(contract, residual, SeparateUi),
           ScopePaths(contract, residual, Generated),
           missing == [] && unexpected == [] && unknown == [] && missingRequired == [] && (cleanCheckout || allowDirty))
  }

  // ----- lemmas

  lemma SortedSetEmpty(s: seq<string>)
    ensures SortedSet(s) == [] <==> s == []
  {
    SortedSetSorts(s);
    if s != [] { assert s[0] in SortedSet(s); }
    if SortedSet(s) != [] { assert SortedSet(s)[0] in s; }
  }

  lemma WhereEmpty(p: string -> bool, s: seq<string>)
    ensures Where(p, s) == [] <==> forall x :: x in s ==> !p(x)
  {
    WhereMembers(p, s);
    if Where(p, s) != [] { assert Where(p, s)[0] in Where(p, s); }
    if x :| x in s && p(x) { assert x in Where(p, s); }
  }

  lemma {:induction false} UnknownPathsEmpty(contract: Contract, residual: seq<GitChange>)
    ensures UnknownPaths(contract, residual) == [] <==>
            forall i :: 0 <= i < |residual| ==> !ClassifyResidualChange(contract, residual[i]).Unknown?
  {
    if residual == [] {
    } else {
      UnknownPathsEmpty(contract, residual[1..]);
      assert forall i :: 0 <= i < |residual[1..]| ==> residual[1..][i] == residual[i + 1];
      if forall i :: 0 <= i < |residual[1..]| ==> !ClassifyResidualChange(contract, residual[1..][i]).Unknown? {
        forall i | 1 <= i < |residual| ensures !ClassifyResidualChange(contract, residual[i]).Unknown? {
          assert residual[i] == residual[1..][i - 1];
        }
      }
    }
  }

  /** The report is ok exactly when the baseline has the registered keys, every residual change is
      classified, every required path is there, and the checkout is clean or need not be. */
  lemma OkExactly(contract: Contract, inventoryKey: InventoryEntry -> string,
                  baseline: seq<GitChange>, residual: seq<GitChange>,
                  contains: string -> bool, cleanCheckout: bool, allowDirty: bool)
    ensures Check(contract, inventoryKey, baseline, residual, contains, cleanCheckout, allowDirty).ok <==>
            && (forall k :: k in InventoryKeys(contract, inventoryKey) <==> k in KeysOf(baseline))
            && (forall i :: 0 <= i < |residual| ==>
                  AllGenerated(contract, residual[i])
                  || (!SomeExcluded(contract, residual[i]) && AllAllowed(contract, residual[i])))
            && (forall p :: p in contract.requiredResidualPaths ==> contains(p))
            && (cleanCheckout || allowDirty)
  {
    var expectedKeys, actualKeys := InventoryKeys(contract, inventoryKey), KeysOf(baseline);
    var gone, extra := (k: string) => k !in actualKeys, (k: string) => k !in expectedKeys;
    WhereEmpty(gone, expectedKeys);
    WhereEmpty(extra, actualKeys);
    SortedSetEmpty(Where(gone, expectedKeys));
    SortedSetEmpty(Where(extra, actualKeys));
    UnknownPathsEmpty(contract, residual);
    SortedSetEmpty(UnknownPaths(contract, residual));
    WhereEmpty((p: string) => !contains(p), contract.requiredResidualPaths);
  }

  lemma {:induction false} PathsWhereMembers(keep: GitChange -> bool, changes: seq<GitChange>, i: nat, p: string)
    requires i < |changes| && keep(changes[i]) && p in PathsOf(changes[i])
    ensures p in PathsWhere(keep, changes)
  {
    if i == 0 {
    } else {
      PathsWhereMembers(keep, changes[1..], i - 1, p);
    }
  }

  /** Nothing escapes the digests: every path of every residual change of an ok report is in the path
      list of its classification. */
  lemma ResidualPathsDigested(contract: Contract, inventoryKey: InventoryEntry -> string,
                              baseline: seq<GitChange>, residual: seq<GitChange>,
                              contains: string -> bool, cleanCheckout: bool, allowDirty: bool, i: nat, p: string)
    requires Check(contract, inventoryKey, baseline, residual, contains, cleanCheckout, allowDirty).ok
    requires i < |residual| && p in PathsOf(residual[i])
    ensures var r := Check(contract, inventoryKey, baseline, residual, contains, cleanCheckout, allowDirty);
            if AllGenerated(contract, residual[i]) then p in r.generatedPaths else p in r.scannerPaths
  {
    OkExactly(contract, inventoryKey, baseline, residual, contains, cleanCheckout, allowDirty);
    var classification := ClassifyResidualChange(contract, residual[i]);
    PathsWhereMembers((c: GitChange) => ClassifyResidualChange(contract, c) == classification, residual, i, p);
    SortedSetSorts(InventoryPaths(contract.baselineInventory, classification)
                   + PathsWhere((c: GitChange) => ClassifyResidualChange(contract, c) == classification, residual));
  }

  lemma {:induction false} NothingKept(keep: GitChange -> bool, changes: seq<GitChange>)
    requires forall i :: 0 <= i < |changes| ==> !keep(changes[i])
    ensures PathsWhere(keep, changes) == []
  {
    if changes == [] {
    } else {
      NothingKept(keep, changes[1..]);
    }
  }

  /** Residual changes never count as separate UI work: that list is the baseline's alone. */
  lemma SeparatePathsFromBaseline(contract: Contract, residual: seq<GitChange>)
    ensures ScopePaths(contract, residual, SeparateUi) ==
            SortedSet(InventoryPaths(contract.baselineInventory, SeparateUi))
  {
    NothingKept((c: GitChange) => ClassifyResidualChange(contract, c) == SeparateUi, residual);
    var inventory := InventoryPaths(contract.baselineInventory, SeparateUi);
    assert inventory + [] == inventory;
  }

  // ----- the keys of compareBaselineInventory

  /** The two paths of a rename as its key shows them. */
  function Joined(c: GitChange): string
    requires c.Renamed?
  {
    c.previousPath + (":" + c.path)
  }

  lemma KeySegments(c: GitChange)
    ensures Split(KeyOf(c), ':') ==
            match c
            case Changed(status, path) => [StatusName(status)] + Split(path, ':')
            case Renamed(_, _, n) => ["renamed"] + (Split(Joined(c), ':') + [Decimal(n)])
  {
    match c {
      case Changed(status, path) =>
        assert KeyOf(c) == StatusName(status) + (":" + path);
        SplitFree(StatusName(status), ':');
        SplitAppend(StatusName(status), path, ':');
      case Renamed(previous, path, n) =>
        assert KeyOf(c) == "renamed" + (":" + (Joined(c) + (":" + Decimal(n))));
        SplitFree("renamed", ':');
        SplitAppend("renamed", Joined(c) + (":" + Decimal(n)), ':');
        SplitAppend(Joined(c), Decimal(n), ':');
        DecimalDigits(n);
        SplitFree(Decimal(n), ':');
    }
  }

  /** Two changes share a key when they are the same or are renames that join to the same text. */
  predicate SameShown(a: GitChange, b: GitChange) {
    a == b || (a.Renamed? && b.Renamed? && Joined(a) == Joined(b) && a.similarity == b.similarity)
  }

  lemma SameSplitSame(a: string, b: string, sep: char)
    requires Split(a, sep) == Split(b, sep)
    ensures a == b
  {
    JoinSplit(a, sep);
    JoinSplit(b, sep);
  }

  lemma LastApart<T>(a: seq<T>, x: T, b: seq<T>, y: T)
    requires a + [x] == b + [y]
    ensures a == b && x == y
  {
    assert (a + [x])[..|a|] == a && (b + [y])[..|b|] == b;
    assert (a + [x])[|a|] == x && (b + [y])[|b|] == y;
  }

  lemma KeyEqualityExactly(a: GitChange, b: GitChange)
    ensures KeyOf(a) == KeyOf(b) <==> SameShown(a, b)
  {
    if KeyOf(a) == KeyOf(b) {
      KeySegments(a);
      KeySegments(b);
      var sa, sb := Split(KeyOf(a), ':'), Split(KeyOf(b), ':');
      assert sa[0] == sb[0] && sa[1..] == sb[1..];
      if a.Changed? {
        assert b.Changed? && a.status == b.status && sa[1..] == Split(a.path, ':') && sb[1..] == Split(b.path, ':');
        SameSplitSame(a.path, b.path, ':');
      } else {
        assert b.Renamed?;
        var ja, jb := Split(Joined(a), ':'), Split(Joined(b), ':');
        assert sa[1..] == ja + [Decimal(a.similarity)] && sb[1..] == jb + [Decimal(b.similarity)];
        LastApart(ja, Decimal(a.similarity), jb, Decimal(b.similarity));
        SameSplitSame(Joined(a), Joined(b), ':');
        DecimalInjective(a.similarity, b.similarity);
      }
    }
    if a.Renamed? && b.Renamed? {
      KeyText(a);
      KeyText(b);
    }
  }

  lemma KeyText(c: GitChange)
    requires c.Renamed?
    ensures KeyOf(c) == "renamed:" + (Joined(c) + (":" + Decimal(c.similarity)))
  {}

  predicate NoColon(c: GitChange) {
    c.Renamed? ==> Free(c.previousPath, ':') && Free(c.path, ':')
  }

  /** The rename that the joined paths show when they are cut at the colon at k. */
  function Recut(c: GitChange, k: nat): GitChange
    requires c.Renamed? && k < |Joined(c)| && Joined(c)[k] == ':'
  {
    Renamed(Joined(c)[..k], Joined(c)[k + 1..], c.similarity)
  }

  lemma RecutSameKey(c: GitChange, k: nat)
    requires c.Renamed? && k < |Joined(c)| && Joined(c)[k] == ':'
    ensures KeyOf(Recut(c, k)) == KeyOf(c)
    ensures Recut(c, k) == c <==> k == |c.previousPath|
  {
    var j := Joined(c);
    assert j[..k] + (":" + j[k + 1..]) == j;
    KeyEqualityExactly(Recut(c, k), c);
    if k == |c.previousPath| { assert j[..k] == c.previousPath && j[k + 1..] == c.path; }
  }

  /** Renames with the same key are cut from the same text, each at one of its colons. */
  lemma SameKeyIsRecut(a: GitChange, b: GitChange)
    requires a.Renamed? && KeyOf(a) == KeyOf(b)
    ensures b.Renamed? && |b.previousPath| < |Joined(a)| && Joined(a)[|b.previousPath|] == ':'
    ensures b == Recut(a, |b.previousPath|)
  {
    KeyEqualityExactly(a, b);
    assert Joined(a) == Joined(b);
    RecutSameKey(b, |b.previousPath|);
  }

  /** A key identifies its change exactly when the change is no rename with a colon in a path. */
  lemma KeyIdentifiesExactly(a: GitChange)
    ensures (forall b :: KeyOf(b) == KeyOf(a) ==> b == a) <==> NoColon(a)
  {
    if a.Renamed? && !NoColon(a) {
      var k := OtherColon(a);
      RecutSameKey(a, k);
    } else if NoColon(a) {
      forall b | KeyOf(b) == KeyOf(a) ensures b == a {
        KeyEqualityExactly(b, a);
        if a.Renamed? { OnlyColon(a, b); }
      }
    }
  }

  lemma OtherColon(a: GitChange) returns (k: nat)
    requires a.Renamed? && !NoColon(a)
    ensures k < |Joined(a)| && Joined(a)[k] == ':' && k != |a.previousPath|
  {
    if !Free(a.previousPath, ':') {
      k :| 0 <= k < |a.previousPath| && a.previousPath[k] == ':';
    } else {
      var m :| 0 <= m < |a.path| && a.path[m] == ':';
      k := |a.previousPath| + 1 + m;
    }
  }

  lemma ColonOf(a: GitChange, k: nat)
    requires a.Renamed? && k < |Joined(a)| && Joined(a)[k] == ':'
    ensures || k == |a.previousPath|
            || (k < |a.previousPath| && a.previousPath[k] == ':')
            || (k > |a.previousPath| && a.path[k - |a.previousPath| - 1] == ':')
  {}

  lemma OnlyColon(a: GitChange, b: GitChange)
    requires a.Renamed? && NoColon(a) && KeyOf(b) == KeyOf(a)
    ensures b == a
  {
    SameKeyIsRecut(a, b);
    ColonOf(a, |b.previousPath|);
    RecutSameKey(a, |b.previousPath|);
  }

  /** Another colon of the joined paths leaves clean paths on both its sides. */
  predicate AmbiguousCut(c: GitChange)
    requires c.Renamed?
  {
    exists k :: 0 <= k < |Joined(c)| && CutsClean(c, k)
  }

  predicate CutsClean(c: GitChange, k: nat)
    requires c.Renamed? && k < |Joined(c)|
  {
    && k != |c.previousPath| && Joined(c)[k] == ':'
    && CleanPath(Joined(c)[..k]) && CleanPath(Joined(c)[k + 1..])
  }

  /** Among the changes that the parser can return, a key identifies its change exactly when the
      paths cannot be cut elsewhere into clean ones. */
  lemma CleanKeyIdentifiesExactly(a: GitChange)
    requires CleanChange(a)
    ensures (forall b :: CleanChange(b) && KeyOf(b) == KeyOf(a) ==> b == a) <==> a.Changed? || !AmbiguousCut(a)
  {
    if a.Changed? {
      forall b | KeyOf(b) == KeyOf(a) ensures b == a { KeyEqualityExactly(b, a); }
    } else if AmbiguousCut(a) {
      var k :| 0 <= k < |Joined(a)| && CutsClean(a, k);
      RecutSameKey(a, k);
      assert CleanChange(Recut(a, k));
    } else {
      forall b | CleanChange(b) && KeyOf(b) == KeyOf(a) ensures b == a {
        SameKeyIsRecut(a, b);
        RecutSameKey(a, |b.previousPath|);
        assert !CutsClean(a, |b.previousPath|);
      }
    }
  }

  /** With colons two different renames can share a key, so equal keys do not identify changes. */
  lemma RenameKeysCanCollide()
    ensures var a, b := Renamed("a:b", "c", 100), Renamed("a", "b:c", 100);
            a != b && CleanChange(a) && CleanChange(b) && KeyOf(a) == KeyOf(b)
  {
    var a, b := Renamed("a:b", "c", 100), Renamed("a", "b:c", 100);
    assert KeyOf(a) == "renamed:a:b:c:" + Decimal(100) == KeyOf(b);
    OneSegment("a:b");
    OneSegment("c");
    OneSegment("a");
    OneSegment("b:c");
  }

  lemma OneSegment(p: string)
    requires p != "" && p != ".." && Free(p, '/') && Free(p, '\\') && Free(p, NUL)
    ensures CleanPath(p)
  {
    SplitFree(p, '/');
  }
}
