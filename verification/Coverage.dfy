/** Line coverage records of scripts/repository-coverage-measurement.ts: reading lcov records,
    merging them by maximum, and the totals of the report. */
module Coverage {
  import opened Naturals
  import opened Wrappers
  import opened Lists

  datatype LineCoverage = LineCoverage(hit: nat, total: nat)
  type CoverageMap = map<string, LineCoverage>

  function MaxLine(a: LineCoverage, b: LineCoverage): LineCoverage {
    LineCoverage(Max(a.hit, b.hit), Max(a.total, b.total))
  }

  function Get(m: CoverageMap, f: string): LineCoverage {
    if f in m then m[f] else LineCoverage(0, 0)
  }

  /** The pointwise maximum. */
  function Merge(a: CoverageMap, b: CoverageMap): CoverageMap {
    map f | f in a.Keys + b.Keys :: MaxLine(Get(a, f), Get(b, f))
  }

  /** The merge loops of collectBunCoverage and of the final report. */
  method MergeInto(coverage: CoverageMap, fileCoverage: CoverageMap) returns (r: CoverageMap)
    ensures r == Merge(coverage, fileCoverage)
  {
    r := coverage;
    var left := fileCoverage.Keys;
    while left != {}
      invariant left <= fileCoverage.Keys
      invariant r.Keys == coverage.Keys + (fileCoverage.Keys - left)
      invariant forall f :: f in r ==>
        r[f] == if f in left then Get(coverage, f) else MaxLine(Get(coverage, f), Get(fileCoverage, f))
      decreases left
    {
      var file :| file in left;
      var measurement := fileCoverage[file];
      var previous := Get(r, file);
      r := r[file := LineCoverage(Max(previous.hit, measurement.hit), Max(previous.total, measurement.total))];
      left := left - {file};
    }
  }

  /** One lcov record: its SF line, if it has one, and the counts of its DA lines. */
  datatype Record = Record(source: Option<string>, counts: seq<nat>)

  function Hits(counts: seq<nat>): (n: nat)
    ensures n <= |counts|
  {
    if counts == [] then 0 else Hits(counts[..|counts| - 1]) + if counts[|counts| - 1] > 0 then 1 else 0
  }

  /** The record is counted: it has a source and at least one line. */
  predicate Counted(record: Record) {
    record.source.Some? && record.source.value != [] && record.counts != []
  }

  /** The record's path as a repository path. */
  function FileOf(relative: string -> string, record: Record): string
    requires Counted(record)
  {
    relative(record.source.value)
  }

  /** What one record contributes. */
  function Measured(relative: string -> string, record: Record): CoverageMap {
    if Counted(record) then map[FileOf(relative, record) := LineCoverage(Hits(record.counts), |record.counts|)]
    else map[]
  }

  // ----- merging many maps

  function MergedAll(maps: seq<CoverageMap>): CoverageMap {
    if maps == [] then map[] else Merge(MergedAll(maps[..|maps| - 1]), maps[|maps| - 1])
  }

  ghost predicate Bounds(m: CoverageMap, r: CoverageMap) {
    forall f :: f in r ==> f in m && r[f].hit <= m[f].hit && r[f].total <= m[f].total
  }

  ghost predicate GivesHits(maps: seq<CoverageMap>, f: string, n: nat) {
    exists k :: 0 <= k < |maps| && f in maps[k] && maps[k][f].hit == n
  }

  ghost predicate GivesLines(maps: seq<CoverageMap>, f: string, n: nat) {
    exists k :: 0 <= k < |maps| && f in maps[k] && maps[k][f].total == n
  }

  ghost predicate Attained(maps: seq<CoverageMap>, f: string, c: LineCoverage) {
    GivesHits(maps, f, c.hit) && GivesLines(maps, f, c.total)
  }

  /** m has the files of the maps, each with the largest counts that one of the maps has for it. */
  ghost predicate IsMaximum(maps: seq<CoverageMap>, m: CoverageMap) {
    && (forall k :: 0 <= k < |maps| ==> Bounds(m, maps[k]))
    && (forall f :: f in m ==> Attained(maps, f, m[f]))
  }

  lemma {:induction false} MergedAllIsMaximum(maps: seq<CoverageMap>)
    ensures IsMaximum(maps, MergedAll(maps))
  {
    if maps == [] {
    } else {
      var front, last := maps[..|maps| - 1], maps[|maps| - 1];
      assert maps == front + [last];
      MergedAllIsMaximum(front);
      MaximumSnoc(front, last, MergedAll(front));
    }
  }

  lemma MergeBounds(m: CoverageMap, last: CoverageMap)
    ensures Bounds(Merge(m, last), m) && Bounds(Merge(m, last), last)
  {}

  lemma BoundsTransitive(a: CoverageMap, b: CoverageMap, c: CoverageMap)
    requires Bounds(a, b) && Bounds(b, c)
    ensures Bounds(a, c)
  {}

  lemma GivesMore(front: seq<CoverageMap>, last: CoverageMap, f: string, c: LineCoverage)
    ensures GivesHits(front, f, c.hit) ==> GivesHits(front + [last], f, c.hit)
    ensures GivesLines(front, f, c.total) ==> GivesLines(front + [last], f, c.total)
    ensures f in last ==> Attained(front + [last], f, last[f])
  {
    var maps := front + [last];
    assert maps[|front|] == last;
    if GivesHits(front, f, c.hit) {
      var k :| 0 <= k < |front| && f in front[k] && front[k][f].hit == c.hit;
      assert maps[k] == front[k];
    }
    if GivesLines(front, f, c.total) {
      var k :| 0 <= k < |front| && f in front[k] && front[k][f].total == c.total;
      assert maps[k] == front[k];
    }
  }

  lemma MaximumSnoc(front: seq<CoverageMap>, last: CoverageMap, m: CoverageMap)
    requires IsMaximum(front, m)
    ensures IsMaximum(front + [last], Merge(m, last))
  {
    var maps, m' := front + [last], Merge(m, last);
    MergeBounds(m, last);
    forall k | 0 <= k < |maps| ensures Bounds(m', maps[k]) {
      if k < |front| { BoundsTransitive(m', m, front[k]); }
    }
    forall f | f in m' ensures Attained(maps, f, m'[f]) {
      if f in m {
        assert Attained(front, f, m[f]);
        GivesMore(front, last, f, m[f]);
      } else {
        GivesMore(front, last, f, last[f]);
      }
    }
  }

  lemma MaximumBelow(a: seq<CoverageMap>, b: seq<CoverageMap>, m: CoverageMap, m': CoverageMap)
    requires IsMaximum(a, m) && IsMaximum(b, m') && forall r :: r in a ==> r in b
    ensures Bounds(m', m)
  {
    forall f | f in m ensures f in m' && m[f].hit <= m'[f].hit && m[f].total <= m'[f].total {
      assert Attained(a, f, m[f]);
      var k :| 0 <= k < |a| && f in a[k] && a[k][f].hit == m[f].hit;
      BoundsMember(b, m', a[k]);
      var l :| 0 <= l < |a| && f in a[l] && a[l][f].total == m[f].total;
      BoundsMember(b, m', a[l]);
    }
  }

  lemma BoundsMember(maps: seq<CoverageMap>, m: CoverageMap, r: CoverageMap)
    requires IsMaximum(maps, m) && r in maps
    ensures Bounds(m, r)
  {
    var k :| 0 <= k < |maps| && maps[k] == r;
  }

  lemma BoundsAntisymmetric(m: CoverageMap, m': CoverageMap)
    requires Bounds(m, m') && Bounds(m', m)
    ensures m == m'
  {
    assert m.Keys == m'.Keys;
  }

  /** Maps with the same members have one maximum, whatever their order and repetitions. */
  lemma MaximumUnique(a: seq<CoverageMap>, b: seq<CoverageMap>, m: CoverageMap, m': CoverageMap)
    requires IsMaximum(a, m) && IsMaximum(b, m') && forall r :: r in a <==> r in b
    ensures m == m'
  {
    MaximumBelow(a, b, m, m');
    MaximumBelow(b, a, m', m);
    BoundsAntisymmetric(m, m');
  }

  // ----- parseLcov

  function LcovOf(relative: string -> string, records: seq<Record>): CoverageMap {
    MergedAll(Each((record: Record) => Measured(relative, record), records))
  }

  lemma LcovNext(relative: string -> string, records: seq<Record>, k: nat)
    requires k < |records|
    ensures LcovOf(relative, records[..k + 1]) == Merge(LcovOf(relative, records[..k]), Measured(relative, records[k]))
  {
    var f := (record: Record) => Measured(relative, record);
    assert records[..k + 1] == records[..k] + [records[k]];
    EachAppend(f, records[..k], [records[k]]);
    EachOne(f, records[k]);
    MergedSnoc(Each(f, records[..k]), f(records[k]));
  }

  lemma MergedSnoc(maps: seq<CoverageMap>, last: CoverageMap)
    ensures MergedAll(maps + [last]) == Merge(MergedAll(maps), last)
  {
    assert (maps + [last])[..|maps|] == maps;
  }

  lemma MergeNothing(a: CoverageMap)
    ensures Merge(a, map[]) == a && Merge(map[], a) == a
  {
    assert Merge(a, map[]).Keys == a.Keys && Merge(map[], a).Keys == a.Keys;
  }

  lemma MergeOne(a: CoverageMap, f: string, c: LineCoverage)
    ensures a[f := MaxLine(Get(a, f), c)] == Merge(a, map[f := c])
  {
    assert a[f := MaxLine(Get(a, f), c)].Keys == Merge(a, map[f := c]).Keys;
  }

  // ----- no file has more hits than lines, and neither do the totals

  ghost predicate HitsWithinTotals(m: CoverageMap) {
    forall f :: f in m ==> m[f].hit <= m[f].total
  }

  lemma MergeWithinTotals(a: CoverageMap, b: CoverageMap)
    requires HitsWithinTotals(a) && HitsWithinTotals(b)
    ensures HitsWithinTotals(Merge(a, b))
  {}

  lemma {:induction false} MergedWithinTotals(maps: seq<CoverageMap>)
    requires forall k :: 0 <= k < |maps| ==> HitsWithinTotals(maps[k])
    ensures HitsWithinTotals(MergedAll(maps))
  {
    if maps == [] {
    } else {
      MergedWithinTotals(maps[..|maps| - 1]);
      MergeWithinTotals(MergedAll(maps[..|maps| - 1]), maps[|maps| - 1]);
    }
  }

  lemma LcovWithinTotals(relative: string -> string, records: seq<Record>)
    ensures HitsWithinTotals(LcovOf(relative, records))
  {
    var f := (record: Record) => Measured(relative, record);
    EachAt(f, records);
    MergedWithinTotals(Each(f, records));
  }

  predicate Counts(relative: string -> string, record: Record, f: string) {
    Counted(record) && FileOf(relative, record) == f
  }

  ghost predicate HasHits(relative: string -> string, records: seq<Record>, f: string, n: nat) {
    exists k :: 0 <= k < |records| && Counts(relative, records[k], f) && Hits(records[k].counts) == n
  }

  ghost predicate HasLines(relative: string -> string, records: seq<Record>, f: string, n: nat) {
    exists k :: 0 <= k < |records| && Counts(relative, records[k], f) && |records[k].counts| == n
  }

  ghost predicate CountsRecord(relative: string -> string, record: Record, m: CoverageMap)
    requires Counted(record)
  {
    var f := FileOf(relative, record);
    f in m && Hits(record.counts) <= m[f].hit && |record.counts| <= m[f].total
  }

  /** m has exactly the files of the counted records, each with the largest number of hit lines and
      the largest number of lines that one of its records has. */
  ghost predicate IsLcovMaximum(relative: string -> string, records: seq<Record>, m: CoverageMap) {
    && (forall k :: 0 <= k < |records| && Counted(records[k]) ==> CountsRecord(relative, records[k], m))
    && (forall f :: f in m ==> HasHits(relative, records, f, m[f].hit) && HasLines(relative, records, f, m[f].total))
  }

  /** What parseLcov returns, told without its loop. */
  lemma LcovIsMaximum(relative: string -> string, records: seq<Record>)
    ensures IsLcovMaximum(relative, records, LcovOf(relative, records))
  {
    var measured := (record: Record) => Measured(relative, record);
    var maps: seq<CoverageMap>, m := Each(measured, records), LcovOf(relative, records);
    EachAt(measured, records);
    MergedAllIsMaximum(maps);
    forall k | 0 <= k < |records| && Counted(records[k]) ensures CountsRecord(relative, records[k], m) {
      assert Bounds(m, maps[k]) && FileOf(relative, records[k]) in maps[k];
    }
    forall f | f in m ensures HasHits(relative, records, f, m[f].hit) && HasLines(relative, records, f, m[f].total) {
      assert Attained(maps, f, m[f]);
      var k :| 0 <= k < |maps| && f in maps[k] && maps[k][f].hit == m[f].hit;
      assert maps[k] == Measured(relative, records[k]) && Counted(records[k]);
      var l :| 0 <= l < |maps| && f in maps[l] && maps[l][f].total == m[f].total;
      assert maps[l] == Measured(relative, records[l]) && Counted(records[l]);
    }
  }

  /** The observed totals over the production files that were measured. */
  function Totals(files: seq<string>, m: CoverageMap): LineCoverage {
    if files == [] then LineCoverage(0, 0)
    else
      var front := Totals(files[..|files| - 1], m);
      var last := Get(m, files[|files| - 1]);
      LineCoverage(front.hit + last.hit, front.total + last.total)
  }

  function Percent(t: LineCoverage): real {
    if t.total == 0 then 0.0 else (t.hit as real / t.total as real) * 100.0
  }

  lemma {:induction false} TotalsWithin(files: seq<string>, m: CoverageMap)
    requires HitsWithinTotals(m)
    ensures Totals(files, m).hit <= Totals(files, m).total
  {
    if files == [] {
    } else {
      TotalsWithin(files[..|files| - 1], m);
    }
  }

  lemma RatioWithinOne(hit: nat, total: nat)
    requires hit <= total && total > 0
    ensures 0.0 <= hit as real / total as real <= 1.0
  {}

  /** No file has more hits than lines, and the reported percentage lies between 0 and 100. */
  ghost predicate PercentOk(files: seq<string>, m: CoverageMap) {
    HitsWithinTotals(m) && 0.0 <= Percent(Totals(files, m)) <= 100.0
  }

  lemma PercentInRange(files: seq<string>, m: CoverageMap)
    requires HitsWithinTotals(m)
    ensures PercentOk(files, m)
  {
    TotalsWithin(files, m);
    var t := Totals(files, m);
    if t.total > 0 { RatioWithinOne(t.hit, t.total); }
  }
}
