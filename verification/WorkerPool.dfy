/** The pool of collectBunCoverage (scripts/repository-coverage-measurement.ts), and of
    scripts/run-api-test-shards.ts, which is the same without coverage records. Between two awaits a
    worker runs alone, so a schedule is a sequence of workers, each taking one step. */
module WorkerPool {
  import opened Wrappers
  import opened Lists
  import opened Coverage

  /** The test files and, for each, how its process ends and what its lcov file measures. */
  datatype Config = Config(files: seq<string>, exits: seq<int>, records: seq<CoverageMap>, workers: nat) {
    ghost predicate Valid() {
      |files| == |exits| == |records| && workers <= |files| && (files != [] ==> workers > 0)
    }
  }

  datatype Worker = Ready | Running(index: nat) | Merging(index: nat) | Returned

  datatype State = State(
    nextIndex: nat,
    workers: seq<Worker>,
    failures: seq<(string, int)>,
    coverage: CoverageMap,
    started: seq<nat>,    // history: indices of the tests run, in order of their start
    finished: seq<nat>)   // history: the same, in order of their end

  function Start(cfg: Config): State {
    State(0, seq(cfg.workers, _ => Ready), [], map[], [], [])
  }

  predicate CanStep(cfg: Config, st: State, w: nat) {
    w < |st.workers| && !st.workers[w].Returned? && Bounded(cfg, st.workers[w])
  }

  /** One worker, from one await to the next. */
  function Step(cfg: Config, st: State, w: nat): State
    requires cfg.Valid() && CanStep(cfg, st, w)
  {
    match st.workers[w]
    case Ready =>
      var index := st.nextIndex;
      var st1 := st.(nextIndex := index + 1);
      if index >= |cfg.files| || cfg.files[index] == "" then st1.(workers := st.workers[w := Returned])
      else st1.(workers := st.workers[w := Running(index)], started := st.started + [index])
    case Running(i) =>
      if cfg.exits[i] != 0 then
        st.(workers := st.workers[w := Ready], failures := st.failures + [(cfg.files[i], cfg.exits[i])],
            finished := st.finished + [i])
      else st.(workers := st.workers[w := Merging(i)])
    case Merging(i) =>
      st.(workers := st.workers[w := Ready], coverage := Merge(st.coverage, cfg.records[i]),
          finished := st.finished + [i])
  }

  predicate Bounded(cfg: Config, wk: Worker) {
    match wk
    case Running(i) => i < |cfg.files| && cfg.files[i] != ""
    case Merging(i) => i < |cfg.files| && i < |cfg.exits| && cfg.files[i] != "" && cfg.exits[i] == 0
    case _ => true
  }

  // ----- what the outcome should be, without any schedule

  /** How many of the first r files have an empty name; claiming one ends its worker. */
  function EmptyNames(files: seq<string>, r: nat): nat
    requires r <= |files|
  {
    if r == 0 then 0 else EmptyNames(files, r - 1) + if files[r - 1] == "" then 1 else 0
  }

  /** Where claiming stops: all the workers are used up by empty names, or the files run out. */
  function Reach(files: seq<string>, workers: nat, from: nat): (r: nat)
    requires from <= |files|
    ensures from <= r <= |files|
    decreases |files| - from
  {
    if from == |files| || EmptyNames(files, from) >= workers then from else Reach(files, workers, from + 1)
  }

  /** The indices below r of the files with a name, in order. */
  function Named(files: seq<string>, r: nat): seq<nat>
    requires r <= |files|
  {
    if r == 0 then [] else Named(files, r - 1) + if files[r - 1] == "" then [] else [r - 1]
  }

  predicate Within(cfg: Config, indices: seq<nat>) {
    forall k :: 0 <= k < |indices| ==> indices[k] < |cfg.files|
  }

  predicate Failing(exits: seq<int>, i: nat) { i < |exits| && exits[i] != 0 }

  function Failure(files: seq<string>, exits: seq<int>, i: nat): (string, int) {
    if i < |files| && i < |exits| then (files[i], exits[i]) else ("", 0)
  }

  /** The entries of the failing tests, in the order of the indices. */
  function FailuresAt(files: seq<string>, exits: seq<int>, indices: seq<nat>): seq<(string, int)> {
    Each((i: nat) => Failure(files, exits, i), Where((i: nat) => Failing(exits, i), indices))
  }

  function FailuresOf(cfg: Config, indices: seq<nat>): seq<(string, int)> {
    FailuresAt(cfg.files, cfg.exits, indices)
  }

  lemma FailuresSnoc(cfg: Config, indices: seq<nat>, i: nat)
    requires cfg.Valid() && i < |cfg.files|
    ensures FailuresOf(cfg, indices + [i]) ==
            FailuresOf(cfg, indices) + if cfg.exits[i] != 0 then [(cfg.files[i], cfg.exits[i])] else []
  {
    var p, f := (j: nat) => Failing(cfg.exits, j), (j: nat) => Failure(cfg.files, cfg.exits, j);
    WhereAppend(p, indices, [i]);
    EachAppend(f, Where(p, indices), Where(p, [i]));
    WhereOne(p, i);
    EachOne(f, i);
  }

  predicate Passing(exits: seq<int>, i: nat) { i < |exits| && exits[i] == 0 }

  function RecordAt(records: seq<CoverageMap>, i: nat): CoverageMap {
    if i < |records| then records[i] else map[]
  }

  /** What the passing tests measured, in the order of the indices. */
  function Measurements(cfg: Config, indices: seq<nat>): seq<CoverageMap> {
    MeasurementsAt(cfg.exits, cfg.records, indices)
  }

  function MeasurementsAt(exits: seq<int>, records: seq<CoverageMap>, indices: seq<nat>): seq<CoverageMap> {
    Each((i: nat) => RecordAt(records, i), Where((i: nat) => Passing(exits, i), indices))
  }

  function MergedOf(cfg: Config, indices: seq<nat>): CoverageMap { MergedAll(Measurements(cfg, indices)) }

  lemma MergedNext(cfg: Config, indices: seq<nat>, i: nat)
    requires cfg.Valid() && i < |cfg.files|
    ensures MergedOf(cfg, indices + [i]) ==
            if cfg.exits[i] == 0 then Merge(MergedOf(cfg, indices), cfg.records[i]) else MergedOf(cfg, indices)
  {
    var p, f := (j: nat) => Passing(cfg.exits, j), (j: nat) => RecordAt(cfg.records, j);
    WhereAppend(p, indices, [i]);
    EachAppend(f, Where(p, indices), Where(p, [i]));
    WhereOne(p, i);
    EachOne(f, i);
    if Passing(cfg.exits, i) {
      MergedSnoc(Measurements(cfg, indices), cfg.records[i]);
    } else {
      assert Measurements(cfg, indices) + [] == Measurements(cfg, indices);
    }
  }

  // ----- invariant

  /** How many workers have test x in progress. */
  function ActiveCount(ws: seq<Worker>, x: nat): nat {
    if ws == [] then 0 else ActiveCount(ws[..|ws| - 1], x) + Has(ws[|ws| - 1], x)
  }

  function Has(wk: Worker, x: nat): nat {
    match wk
    case Running(i) => if i == x then 1 else 0
    case Merging(i) => if i == x then 1 else 0
    case _ => 0
  }

  function Count(s: seq<nat>, x: nat): nat {
    if s == [] then 0 else Count(s[..|s| - 1], x) + if s[|s| - 1] == x then 1 else 0
  }

  lemma CountAppend(s: seq<nat>, i: nat, x: nat)
    ensures Count(s + [i], x) == Count(s, x) + if i == x then 1 else 0
  {
    assert (s + [i])[..|s|] == s;
  }

  lemma {:induction false} CountIsMultiplicity(s: seq<nat>, x: nat)
    ensures Count(s, x) == multiset(s)[x]
  {
    if s == [] {
    } else {
      var front := s[..|s| - 1];
      assert s == front + [s[|s| - 1]];
      assert multiset(s) == multiset(front) + multiset{s[|s| - 1]};
      CountIsMultiplicity(front, x);
    }
  }

  lemma SameCountsSameMultiset(a: seq<nat>, b: seq<nat>)
    requires forall x: nat :: Count(a, x) == Count(b, x)
    ensures multiset(a) == multiset(b)
  {
    forall x: nat ensures multiset(a)[x] == multiset(b)[x] {
      CountIsMultiplicity(a, x);
      CountIsMultiplicity(b, x);
    }
  }

  function ReturnedCount(ws: seq<Worker>): (n: nat)
    ensures n <= |ws|
    ensures n == |ws| <==> forall k :: 0 <= k < |ws| ==> ws[k].Returned?
  {
    if ws == [] then 0
    else ReturnedCount(ws[..|ws| - 1]) + if ws[|ws| - 1].Returned? then 1 else 0
  }

  function Cursor(cfg: Config, st: State): nat {
    if st.nextIndex <= |cfg.files| then st.nextIndex else |cfg.files|
  }

  ghost predicate Kept(cfg: Config, st: State) {
    var r := Cursor(cfg, st);
    && cfg.Valid() && |st.workers| == cfg.workers
    && (forall w :: 0 <= w < |st.workers| ==> Bounded(cfg, st.workers[w]))
    && st.started == Named(cfg.files, r)
    && (forall x: nat :: Count(st.started, x) == Count(st.finished, x) + ActiveCount(st.workers, x))
    && Within(cfg, st.finished)
    && st.failures == FailuresOf(cfg, st.finished)
    && st.coverage == MergedOf(cfg, st.finished)
    && ReturnedCount(st.workers) == EmptyNames(cfg.files, r) + (st.nextIndex - r)
    && r <= Reach(cfg.files, cfg.workers, 0)
  }

  lemma {:induction false} ActiveUpdate(ws: seq<Worker>, w: nat, wk: Worker, x: nat)
    requires w < |ws|
    ensures ActiveCount(ws[w := wk], x) + Has(ws[w], x) == ActiveCount(ws, x) + Has(wk, x)
  {
    var n := |ws| - 1;
    if w < n {
      ActiveUpdate(ws[..n], w, wk, x);
      assert ws[w := wk][..n] == ws[..n][w := wk];
    } else {
      assert ws[w := wk][..n] == ws[..n];
    }
  }

  lemma {:induction false} ReturnedUpdate(ws: seq<Worker>, w: nat, wk: Worker)
    requires w < |ws| && !ws[w].Returned?
    ensures ReturnedCount(ws[w := wk]) == ReturnedCount(ws) + if wk.Returned? then 1 else 0
  {
    var n := |ws| - 1;
    if w < n {
      ReturnedUpdate(ws[..n], w, wk);
      assert ws[w := wk][..n] == ws[..n][w := wk];
    } else {
      assert ws[w := wk][..n] == ws[..n];
    }
  }

  lemma {:induction false} ReachAhead(files: seq<string>, workers: nat, from: nat, r: nat)
    requires from <= r < |files| && r <= Reach(files, workers, from) && EmptyNames(files, r) < workers
    ensures r < Reach(files, workers, from)
    decreases r - from
  {
    if from == r || EmptyNames(files, from) >= workers {
    } else {
      ReachAhead(files, workers, from + 1, r);
    }
  }

  lemma {:induction false} ReachNotBeyond(files: seq<string>, workers: nat, from: nat, r: nat)
    requires from <= r <= |files| && (r == |files| || EmptyNames(files, r) >= workers)
    ensures Reach(files, workers, from) <= r
    decreases r - from
  {
    if from == r || EmptyNames(files, from) >= workers {
    } else {
      ReachNotBeyond(files, workers, from + 1, r);
    }
  }

  lemma StartKept(cfg: Config)
    requires cfg.Valid()
    ensures Kept(cfg, Start(cfg))
  {
    forall x ensures ActiveCount(Start(cfg).workers, x) == 0 { NobodyActive(cfg.workers, x); }
    NobodyActive(cfg.workers, 0);
  }

  lemma {:induction false} NobodyActive(n: nat, x: nat)
    ensures ActiveCount(seq(n, _ => Ready), x) == 0 && ReturnedCount(seq(n, _ => Ready)) == 0
  {
    if n == 0 {
    } else {
      assert seq<Worker>(n, _ => Ready)[..n - 1] == seq<Worker>(n - 1, _ => Ready);
      NobodyActive(n - 1, x);
    }
  }

  /** A worker taking the next index: the cursor, the history and the number of returned workers. */
  lemma CursorKept(cfg: Config, st: State, w: nat)
    requires Kept(cfg, st) && CanStep(cfg, st, w) && st.workers[w].Ready?
    ensures var st' := Step(cfg, st, w);
            var r := Cursor(cfg, st');
            && st'.started == Named(cfg.files, r) && r <= Reach(cfg.files, cfg.workers, 0)
            && ReturnedCount(st'.workers) == EmptyNames(cfg.files, r) + (st'.nextIndex - r)
  {
    var r := Cursor(cfg, st);
    ReturnedUpdate(st.workers, w, Step(cfg, st, w).workers[w]);
    if st.nextIndex < |cfg.files| {
      assert ReturnedCount(st.workers) < cfg.workers;
      ReachAhead(cfg.files, cfg.workers, 0, r);
    }
  }

  lemma ClaimCounts(cfg: Config, st: State, w: nat, x: nat)
    requires Kept(cfg, st) && CanStep(cfg, st, w) && st.workers[w].Ready?
    ensures var st' := Step(cfg, st, w);
            Count(st'.started, x) == Count(st'.finished, x) + ActiveCount(st'.workers, x)
  {
    ActiveUpdate(st.workers, w, Step(cfg, st, w).workers[w], x);
    CountAppend(st.started, st.nextIndex, x);
  }

  lemma ClaimKept(cfg: Config, st: State, w: nat)
    requires Kept(cfg, st) && CanStep(cfg, st, w) && st.workers[w].Ready?
    ensures Kept(cfg, Step(cfg, st, w))
  {
    var st' := Step(cfg, st, w);
    CursorKept(cfg, st, w);
    forall x: nat ensures Count(st'.started, x) == Count(st'.finished, x) + ActiveCount(st'.workers, x) {
      ClaimCounts(cfg, st, w, x);
    }
    assert st'.finished == st.finished && st'.failures == st.failures && st'.coverage == st.coverage;
    assert |st'.workers| == |st.workers| && Bounded(cfg, st'.workers[w]);
    assert forall v :: 0 <= v < |st.workers| && v != w ==> st'.workers[v] == st.workers[v];
  }

  /** A step of a worker with test i in hand: the counts of tests begun and ended. */
  lemma FinishCounts(cfg: Config, st: State, w: nat, x: nat)
    requires Kept(cfg, st) && CanStep(cfg, st, w) && !st.workers[w].Ready?
    ensures var st' := Step(cfg, st, w);
            Count(st'.started, x) == Count(st'.finished, x) + ActiveCount(st'.workers, x)
  {
    var st' := Step(cfg, st, w);
    ActiveUpdate(st.workers, w, st'.workers[w], x);
    CountAppend(st.finished, st.workers[w].index, x);
  }

  /** The failures and the merged map follow the tests that have ended. */
  lemma FinishRecords(cfg: Config, st: State, w: nat)
    requires Kept(cfg, st) && CanStep(cfg, st, w) && !st.workers[w].Ready?
    ensures var st' := Step(cfg, st, w);
            && Within(cfg, st'.finished)
            && st'.failures == FailuresOf(cfg, st'.finished) && st'.coverage == MergedOf(cfg, st'.finished)
  {
    var i := st.workers[w].index;
    assert (st.finished + [i])[..|st.finished|] == st.finished;
    FailuresSnoc(cfg, st.finished, i);
    MergedNext(cfg, st.finished, i);
  }

  lemma FinishKept(cfg: Config, st: State, w: nat)
    requires Kept(cfg, st) && CanStep(cfg, st, w) && !st.workers[w].Ready?
    ensures Kept(cfg, Step(cfg, st, w))
  {
    var st' := Step(cfg, st, w);
    ReturnedUpdate(st.workers, w, st'.workers[w]);
    FinishRecords(cfg, st, w);
    forall x: nat ensures Count(st'.started, x) == Count(st'.finished, x) + ActiveCount(st'.workers, x) {
      FinishCounts(cfg, st, w, x);
    }
    assert st'.nextIndex == st.nextIndex && st'.started == st.started && |st'.workers| == |st.workers|;
    assert ReturnedCount(st'.workers) == ReturnedCount(st.workers);
    assert forall v :: 0 <= v < |st.workers| && v != w ==> st'.workers[v] == st.workers[v];
    assert Bounded(cfg, st'.workers[w]);
  }

  lemma StepKept(cfg: Config, st: State, w: nat)
    requires Kept(cfg, st) && CanStep(cfg, st, w)
    ensures Kept(cfg, Step(cfg, st, w))
  {
    if st.workers[w].Ready? { ClaimKept(cfg, st, w); } else { FinishKept(cfg, st, w); }
  }

  // ----- the merged map is the pointwise maximum, whatever the order of the finished tests

  /** m has the files of the passing tests among the indices, each with the largest counts that one
      of those tests gives. */
  ghost predicate IsPointwiseMax(cfg: Config, indices: seq<nat>, m: CoverageMap) {
    IsMaximum(Measurements(cfg, indices), m)
  }

  lemma MeasurementsMembers(cfg: Config, indices: seq<nat>, r: CoverageMap)
    requires cfg.Valid() && Within(cfg, indices)
    ensures r in Measurements(cfg, indices) <==>
            exists i: nat :: i in indices && cfg.exits[i] == 0 && cfg.records[i] == r
  {
    var p, f := (j: nat) => Passing(cfg.exits, j), (j: nat) => RecordAt(cfg.records, j);
    WhereMembers(p, indices);
    EachAt(f, Where(p, indices));
    if i: nat :| i in indices && cfg.exits[i] == 0 && cfg.records[i] == r {
      assert i in Where(p, indices);
      var k :| 0 <= k < |Where(p, indices)| && Where(p, indices)[k] == i;
      assert Measurements(cfg, indices)[k] == r;
    }
    if r in Measurements(cfg, indices) {
      var k :| 0 <= k < |Measurements(cfg, indices)| && Measurements(cfg, indices)[k] == r;
      assert Where(p, indices)[k] in Where(p, indices);
    }
  }

  lemma MergedIsPointwiseMax(cfg: Config, indices: seq<nat>)
    ensures IsPointwiseMax(cfg, indices, MergedOf(cfg, indices))
  {
    MergedAllIsMaximum(Measurements(cfg, indices));
  }

  lemma MergedPermutes(cfg: Config, a: seq<nat>, b: seq<nat>)
    requires multiset(a) == multiset(b)
    ensures MergedOf(cfg, a) == MergedOf(cfg, b)
  {
    var p, f := (i: nat) => Passing(cfg.exits, i), (i: nat) => RecordAt(cfg.records, i);
    WherePermutes(p, a, b);
    EachPermutes(f, Where(p, a), Where(p, b));
    var ma, mb := Measurements(cfg, a), Measurements(cfg, b);
    MergedAllIsMaximum(ma);
    MergedAllIsMaximum(mb);
    assert forall r :: r in ma <==> r in multiset(ma);
    assert forall r :: r in mb <==> r in multiset(mb);
    MaximumUnique(ma, mb, MergedAll(ma), MergedAll(mb));
  }

  // ----- the failures are the failing files, whatever the order

  lemma FailuresPermute(cfg: Config, a: seq<nat>, b: seq<nat>)
    requires multiset(a) == multiset(b)
    ensures multiset(FailuresOf(cfg, a)) == multiset(FailuresOf(cfg, b))
  {
    var p := (i: nat) => Failing(cfg.exits, i);
    WherePermutes(p, a, b);
    EachPermutes((i: nat) => Failure(cfg.files, cfg.exits, i), Where(p, a), Where(p, b));
  }

  // ----- main results

  /** The state after a schedule, if every worker named in it could take its step. */
  function Run(cfg: Config, schedule: seq<nat>): Option<State>
    requires cfg.Valid()
  {
    if schedule == [] then Some(Start(cfg))
    else
      match Run(cfg, schedule[..|schedule| - 1])
      case None => None
      case Some(st) =>
        var w := schedule[|schedule| - 1];
        if CanStep(cfg, st, w) then Some(Step(cfg, st, w)) else None
  }

  lemma {:induction false} RunKept(cfg: Config, schedule: seq<nat>)
    requires cfg.Valid()
    ensures Run(cfg, schedule).Some? ==> Kept(cfg, Run(cfg, schedule).value)
  {
    if schedule == [] {
      StartKept(cfg);
    } else {
      var front, w := schedule[..|schedule| - 1], schedule[|schedule| - 1];
      RunKept(cfg, front);
      if Run(cfg, front).Some? && CanStep(cfg, Run(cfg, front).value, w) { StepKept(cfg, Run(cfg, front).value, w); }
    }
  }

  ghost predicate AllReturned(st: State) {
    forall w :: 0 <= w < |st.workers| ==> st.workers[w].Returned?
  }

  /** The tests that the pool runs, in file order. */
  function Planned(cfg: Config): seq<nat> { Named(cfg.files, Reach(cfg.files, cfg.workers, 0)) }

  ghost predicate Increasing(s: seq<nat>) { forall k, l :: 0 <= k < l < |s| ==> s[k] < s[l] }

  lemma IncreasingSnoc(s: seq<nat>, x: nat)
    requires Increasing(s) && forall k :: 0 <= k < |s| ==> s[k] < x
    ensures Increasing(s + [x])
  {}

  lemma {:induction false} NamedInOrder(files: seq<string>, r: nat)
    requires r <= |files|
    ensures Increasing(Named(files, r))
    ensures forall i: nat :: i in Named(files, r) <==> i < r && files[i] != ""
  {
    if r == 0 {
    } else {
      NamedInOrder(files, r - 1);
      var front := Named(files, r - 1);
      forall k | 0 <= k < |front| ensures front[k] < r - 1 { assert front[k] in front; }
      if files[r - 1] == "" {
        assert front + [] == front;
      } else {
        IncreasingSnoc(front, r - 1);
      }
    }
  }

  /** At every moment of every schedule, each test was started at most once, in file order, and is
      either finished or in progress in exactly one worker. */
  lemma EachTestClaimedOnce(cfg: Config, schedule: seq<nat>)
    requires cfg.Valid() && Run(cfg, schedule).Some?
    ensures var st := Run(cfg, schedule).value;
            && Increasing(st.started)
            && (forall i: nat :: i in st.started ==> i < |cfg.files| && cfg.files[i] != "")
            && (forall x: nat :: Count(st.started, x) == Count(st.finished, x) + ActiveCount(st.workers, x))
  {
    RunKept(cfg, schedule);
    NamedInOrder(cfg.files, Cursor(cfg, Run(cfg, schedule).value));
  }

  lemma {:induction false} NobodyActiveAtEnd(ws: seq<Worker>, x: nat)
    requires forall w :: 0 <= w < |ws| ==> ws[w].Returned?
    ensures ActiveCount(ws, x) == 0
  {
    if ws == [] {
    } else {
      NobodyActiveAtEnd(ws[..|ws| - 1], x);
    }
  }

  lemma CursorAtReach(cfg: Config, st: State)
    requires Kept(cfg, st) && AllReturned(st)
    ensures Cursor(cfg, st) == Reach(cfg.files, cfg.workers, 0)
  {
    assert ReturnedCount(st.workers) == cfg.workers;
    ReachNotBeyond(cfg.files, cfg.workers, 0, Cursor(cfg, st));
  }

  lemma EndsAtReach(cfg: Config, st: State)
    requires Kept(cfg, st) && AllReturned(st)
    ensures st.started == Planned(cfg) && multiset(st.finished) == multiset(Planned(cfg))
  {
    CursorAtReach(cfg, st);
    forall x: nat ensures Count(st.finished, x) == Count(st.started, x) { NobodyActiveAtEnd(st.workers, x); }
    SameCountsSameMultiset(st.finished, st.started);
  }

  lemma PlannedWithin(cfg: Config)
    requires cfg.Valid()
    ensures Within(cfg, Planned(cfg))
  {
    NamedInOrder(cfg.files, Reach(cfg.files, cfg.workers, 0));
    assert forall k :: 0 <= k < |Planned(cfg)| ==> Planned(cfg)[k] in Planned(cfg);
  }

  /** Whatever the schedule, a pool whose workers have all returned has run every planned test once,
      its failure list is a permutation of the failing files, and its coverage is the pointwise
      maximum over the tests that passed: the same map for every schedule. */
  lemma PoolOutcome(cfg: Config, schedule: seq<nat>)
    requires cfg.Valid() && Run(cfg, schedule).Some? && AllReturned(Run(cfg, schedule).value)
    ensures Within(cfg, Planned(cfg))
    ensures var st := Run(cfg, schedule).value;
            && multiset(st.finished) == multiset(Planned(cfg))
            && multiset(st.failures) == multiset(FailuresOf(cfg, Planned(cfg)))
            && st.coverage == MergedOf(cfg, Planned(cfg))
            && IsPointwiseMax(cfg, Planned(cfg), st.coverage)
  {
    RunKept(cfg, schedule);
    OutcomeOfKept(cfg, Run(cfg, schedule).value);
  }

  lemma OutcomeOfKept(cfg: Config, st: State)
    requires Kept(cfg, st) && AllReturned(st)
    ensures Within(cfg, Planned(cfg))
    ensures multiset(st.finished) == multiset(Planned(cfg))
    ensures multiset(st.failures) == multiset(FailuresOf(cfg, Planned(cfg)))
    ensures st.coverage == MergedOf(cfg, Planned(cfg)) && IsPointwiseMax(cfg, Planned(cfg), st.coverage)
  {
    EndsAtReach(cfg, st);
    PlannedWithin(cfg);
    FailuresPermute(cfg, st.finished, Planned(cfg));
    MergedPermutes(cfg, st.finished, Planned(cfg));
    MergedIsPointwiseMax(cfg, Planned(cfg));
  }

  function Indices(n: nat): seq<nat> { seq(n, i => i) }

  /** Every file has a name, as those that discoverTestFiles finds do: they end in `.test.ts(x)`. */
  ghost predicate AllNamed(cfg: Config) {
    forall i :: 0 <= i < |cfg.files| ==> cfg.files[i] != ""
  }

  /** When all workers have returned every file has been run exactly once, the failure list is a
      permutation of the failing files, and the map is the pointwise maximum over the others. */
  lemma EveryFileRunsOnce(cfg: Config, schedule: seq<nat>)
    requires cfg.Valid() && AllNamed(cfg)
    requires Run(cfg, schedule).Some? && AllReturned(Run(cfg, schedule).value)
    ensures var (st, all) := (Run(cfg, schedule).value, Indices(|cfg.files|));
            && multiset(st.finished) == multiset(all)
            && multiset(st.failures) == multiset(FailuresOf(cfg, all))
            && Within(cfg, all) && IsPointwiseMax(cfg, all, st.coverage)
  {
    PoolOutcome(cfg, schedule);
    NoEmptyNames(cfg.files, |cfg.files|);
    NoEmptyNames(cfg.files, 0);
    EveryNamedFilePlanned(cfg);
    NamedIsAll(cfg.files, |cfg.files|);
  }

  lemma {:induction false} NoEmptyNames(files: seq<string>, r: nat)
    requires r <= |files| && forall i :: 0 <= i < |files| ==> files[i] != ""
    ensures EmptyNames(files, r) == 0
  {
    if r == 0 {
    } else {
      NoEmptyNames(files, r - 1);
    }
  }

  lemma {:induction false} NamedIsAll(files: seq<string>, r: nat)
    requires r <= |files| && forall i :: 0 <= i < |files| ==> files[i] != ""
    ensures Named(files, r) == Indices(r)
  {
    if r == 0 {
    } else {
      NamedIsAll(files, r - 1);
      assert Indices(r) == Indices(r - 1) + [r - 1];
    }
  }

  /** With empty names, which the search for test files never gives: every named file is run exactly
      when fewer empty names than workers stand before each of them. */
  lemma EveryNamedFilePlanned(cfg: Config)
    requires cfg.Valid()
    ensures (forall i: nat :: i < |cfg.files| && cfg.files[i] != "" ==> i in Planned(cfg)) <==>
            (forall i: nat :: i < |cfg.files| && cfg.files[i] != "" ==> EmptyNames(cfg.files, i) < cfg.workers)
    ensures EmptyNames(cfg.files, |cfg.files|) < cfg.workers || cfg.files == [] ==>
            Reach(cfg.files, cfg.workers, 0) == |cfg.files|
  {
    NamedInOrder(cfg.files, Reach(cfg.files, cfg.workers, 0));
    forall i: nat | i < |cfg.files|
      ensures i < Reach(cfg.files, cfg.workers, 0) <==> EmptyNames(cfg.files, i) < cfg.workers
    {
      WithinReach(cfg.files, cfg.workers, 0, i);
    }
    if EmptyNames(cfg.files, |cfg.files|) < cfg.workers { FewEmptyNames(cfg.files, cfg.workers, 0); }
  }

  lemma {:induction false} WithinReach(files: seq<string>, workers: nat, from: nat, i: nat)
    requires from <= i < |files|
    ensures i < Reach(files, workers, from) <==> EmptyNames(files, i) < workers
    decreases |files| - from
  {
    EmptyNamesGrow(files, from, i);
    if from == i || EmptyNames(files, from) >= workers {
    } else {
      WithinReach(files, workers, from + 1, i);
    }
  }

  /** With fewer empty names than workers, the number of workers makes no difference either. */
  lemma WorkerCountIrrelevant(cfg: Config, workers: nat, schedule: seq<nat>, schedule': seq<nat>)
    requires cfg.Valid() && cfg.(workers := workers).Valid()
    requires EmptyNames(cfg.files, |cfg.files|) < cfg.workers && EmptyNames(cfg.files, |cfg.files|) < workers
    requires Run(cfg, schedule).Some? && AllReturned(Run(cfg, schedule).value)
    requires Run(cfg.(workers := workers), schedule').Some?
    requires AllReturned(Run(cfg.(workers := workers), schedule').value)
    ensures var st, st' := Run(cfg, schedule).value, Run(cfg.(workers := workers), schedule').value;
            st.coverage == st'.coverage && multiset(st.failures) == multiset(st'.failures)
  {
    var cfg' := cfg.(workers := workers);
    PoolOutcome(cfg, schedule);
    PoolOutcome(cfg', schedule');
    EveryNamedFilePlanned(cfg);
    EveryNamedFilePlanned(cfg');
    assert Planned(cfg) == Planned(cfg');
  }

  lemma {:induction false} EmptyNamesGrow(files: seq<string>, r: nat, t: nat)
    requires r <= t <= |files|
    ensures EmptyNames(files, r) <= EmptyNames(files, t)
    decreases t
  {
    if r == t {
    } else {
      EmptyNamesGrow(files, r, t - 1);
    }
  }

  lemma {:induction false} FewEmptyNames(files: seq<string>, workers: nat, from: nat)
    requires from <= |files| && EmptyNames(files, |files|) < workers
    ensures Reach(files, workers, from) == |files|
    decreases |files| - from
  {
    EmptyNamesGrow(files, from, |files|);
    if from == |files| {
    } else {
      FewEmptyNames(files, workers, from + 1);
    }
  }

  /** The percentage of the report, whatever the schedule, when the records come from ParseLcov. */
  lemma ReportedPercentInRange(cfg: Config, schedule: seq<nat>, relative: string -> string,
                               lcov: seq<seq<Record>>, vitest: seq<Record>, productionFiles: seq<string>)
    requires cfg.Valid() && Run(cfg, schedule).Some?
    requires |lcov| == |cfg.records| && forall i :: 0 <= i < |lcov| ==> cfg.records[i] == LcovOf(relative, lcov[i])
    ensures PercentOk(productionFiles, Merge(Run(cfg, schedule).value.coverage, LcovOf(relative, vitest)))
  {
    RunKept(cfg, schedule);
    forall i | 0 <= i < |cfg.records| ensures HitsWithinTotals(cfg.records[i]) { LcovWithinTotals(relative, lcov[i]); }
    LcovWithinTotals(relative, vitest);
    var finished := Run(cfg, schedule).value.finished;
    forall k | 0 <= k < |Measurements(cfg, finished)| ensures HitsWithinTotals(Measurements(cfg, finished)[k]) {
      MeasurementsMembers(cfg, finished, Measurements(cfg, finished)[k]);
    }
    MergedWithinTotals(Measurements(cfg, finished));
    MergeWithinTotals(Run(cfg, schedule).value.coverage, LcovOf(relative, vitest));
    PercentInRange(productionFiles, Merge(Run(cfg, schedule).value.coverage, LcovOf(relative, vitest)));
  }

  // ----- termination, as the loop that the pool is

  /** What is still to be done: four units for each unclaimed index, up to three in each worker. */
  function Remaining(cfg: Config, st: State): nat {
    4 * (|cfg.files| - Cursor(cfg, st)) + Load(st.workers)
  }

  function Load(ws: seq<Worker>): nat {
    if ws == [] then 0 else Load(ws[..|ws| - 1]) + LoadOf(ws[|ws| - 1])
  }

  function LoadOf(wk: Worker): nat {
    match wk case Returned => 0 case Ready => 1 case Merging(_) => 2 case Running(_) => 3
  }

  lemma {:induction false} LoadUpdate(ws: seq<Worker>, w: nat, wk: Worker)
    requires w < |ws|
    ensures Load(ws[w := wk]) + LoadOf(ws[w]) == Load(ws) + LoadOf(wk)
  {
    var n := |ws| - 1;
    if w < n {
      LoadUpdate(ws[..n], w, wk);
      assert ws[w := wk][..n] == ws[..n][w := wk];
    } else {
      assert ws[w := wk][..n] == ws[..n];
    }
  }

  lemma StepDecreases(cfg: Config, st: State, w: nat)
    requires cfg.Valid() && CanStep(cfg, st, w)
    ensures Remaining(cfg, Step(cfg, st, w)) < Remaining(cfg, st)
  {
    LoadUpdate(st.workers, w, Step(cfg, st, w).workers[w]);
  }

  /** The pool under an arbitrary scheduler: it ends, and with the one outcome. */
  method RunPool(cfg: Config) returns (failures: seq<(string, int)>, coverage: CoverageMap)
    requires cfg.Valid()
    ensures Within(cfg, Planned(cfg))
    ensures multiset(failures) == multiset(FailuresOf(cfg, Planned(cfg)))
    ensures coverage == MergedOf(cfg, Planned(cfg))
  {
    var st := Start(cfg);
    StartKept(cfg);
    while exists w :: 0 <= w < |st.workers| && !st.workers[w].Returned?
      invariant Kept(cfg, st)
      decreases Remaining(cfg, st)
    {
      var w: nat :| w < |st.workers| && !st.workers[w].Returned?;
      StepKept(cfg, st, w);
      StepDecreases(cfg, st, w);
      st := Step(cfg, st, w);
    }
    OutcomeOfKept(cfg, st);
    return st.failures, st.coverage;
  }
}
