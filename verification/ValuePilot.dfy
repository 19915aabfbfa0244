/** The value-pilot decision of scripts/project-intelligence-value-pilot-contract.ts:
    aggregateAttempts, decideValuePilot and the recheck of a raw report's reason codes. */
module ValuePilot {
  import opened Wrappers
  import opened Sorting
  import opened Lists
  import opened PilotStatistics

  datatype Classification =
    | Valid | SafetyFailure | CatalogReliabilityFailure
    | SharedInfrastructureFailure | TaskOutcomeFailure | ProtocolFailure

  datatype Evaluation = Evaluation(passed: bool, verificationPassed: bool, evaluatorMutatedWorktree: bool)

  /** The fields of a sanitized measurement that the aggregation reads. */
  datatype Measurement = Measurement(
    catalogCallCount: nat, catalogCalledBeforeBroadExploration: bool, catalogFailureCount: nat,
    listDirCalls: nat, searchCalls: nat, readFileCalls: nat,
    preMutationTokens: Option<nat>, usageMode: string, taskCompleted: bool, replanCount: nat)

  datatype Arm = Arm(measurement: Measurement, evaluation: Option<Evaluation>)

  datatype PairControls = PairControls(
    sameBaseRef: bool, sameTaskPrompt: bool, sameRoute: bool, independentWorktrees: bool)

  datatype Attempt = Attempt(classification: Classification, controls: PairControls, baseline: Arm, catalog: Arm)

  datatype Controls = Controls(
    cleanSources: bool, dedicatedDatabase: bool, dedicatedProducerDatabase: bool,
    featureFlagRestoredToOff: bool, mcpDisconnected: bool, activePilotRunCount: nat)

  datatype Gate = Gate(name: string, passed: bool)
  datatype Decision = GO | NO_GO | INSUFFICIENT_EVIDENCE
  datatype Verdict = Verdict(decision: Decision, reasonCodes: seq<string>)
  datatype DecisionInput = DecisionInput(
    safetyFailures: nat, catalogReliabilityFailures: nat, evidenceComplete: bool,
    hardGates: seq<Gate>, valueGates: seq<Gate>)

  const SAFETY_INCIDENT := "safety_incident"
  const CATALOG_FAILURE := "catalog_reliability_failure"

  // ----- decideValuePilot

  function FailedNames(gates: seq<Gate>): seq<string> {
    Each((g: Gate) => g.name, Where((g: Gate) => !g.passed, gates))
  }

  function FailedGateCodes(gates: seq<Gate>): seq<string> { Sort(LeText, FailedNames(gates)) }

  function Decide(input: DecisionInput): Verdict {
    if input.safetyFailures > 0 || input.catalogReliabilityFailures > 0 then
      Verdict(NO_GO, (if input.safetyFailures > 0 then [SAFETY_INCIDENT] else [])
                     + (if input.catalogReliabilityFailures > 0 then [CATALOG_FAILURE] else []))
    else if !input.evidenceComplete then
      Verdict(INSUFFICIENT_EVIDENCE, FailedGateCodes(input.hardGates))
    else
      var failed := FailedGateCodes(input.hardGates) + FailedGateCodes(input.valueGates);
      if failed == [] then Verdict(GO, []) else Verdict(NO_GO, failed)
  }

  // ----- aggregateAttempts

  predicate Comparable(a: Attempt) { a.classification.Valid? || a.classification.TaskOutcomeFailure? }

  predicate Every<T(!new)>(p: T -> bool, s: seq<T>) { forall i :: 0 <= i < |s| ==> p(s[i]) }

  predicate EvaluationOk(arm: Arm) {
    arm.evaluation.Some? && !arm.evaluation.value.evaluatorMutatedWorktree
  }
  predicate Completed(arm: Arm) { arm.evaluation.Some? && arm.evaluation.value.passed }
  predicate Verified(arm: Arm) { arm.evaluation.Some? && arm.evaluation.value.verificationPassed }

  function BaselineExploration(a: Attempt): real {
    var m := a.baseline.measurement;
    (m.listDirCalls + m.searchCalls + m.readFileCalls) as real
  }

  function CatalogExploration(a: Attempt): real {
    var m := a.catalog.measurement;
    (m.listDirCalls + m.searchCalls + m.readFileCalls + m.catalogCallCount) as real
  }

  /** A missing token count sorts, and is averaged, as zero. */
  function Tokens(arm: Arm): real {
    match arm.measurement.preMutationTokens case Some(n) => n as real case None => 0.0
  }

  function Count<T>(p: T -> bool, s: seq<T>): nat { |Where(p, s)| }

  function ValidAttempts(attempts: seq<Attempt>): seq<Attempt> { Where(Comparable, attempts) }

  function SafetyFailures(attempts: seq<Attempt>): nat {
    Count((a: Attempt) => a.classification.SafetyFailure?, attempts)
  }

  function CatalogFailures(attempts: seq<Attempt>): nat {
    Count((a: Attempt) => a.classification.CatalogReliabilityFailure?, attempts)
  }

  predicate TelemetryOk(a: Attempt) {
    && a.baseline.measurement.usageMode == "measured" && a.catalog.measurement.usageMode == "measured"
    && a.baseline.measurement.preMutationTokens.Some? && a.catalog.measurement.preMutationTokens.Some?
  }

  predicate ControlsOk(a: Attempt) {
    a.controls.sameBaseRef && a.controls.sameTaskPrompt && a.controls.sameRoute && a.controls.independentWorktrees
  }

  predicate CatalogOnce(a: Attempt) {
    a.catalog.measurement.catalogCallCount == 1 && a.catalog.measurement.catalogCalledBeforeBroadExploration
  }

  predicate FailureContained(a: Attempt) {
    a.catalog.measurement.catalogFailureCount == 0 || a.catalog.measurement.taskCompleted
  }

  predicate BothEvaluated(a: Attempt) { EvaluationOk(a.baseline) && EvaluationOk(a.catalog) }

  /** The fourteen gates that make the evidence complete, in the order of their declaration. */
  function EvidenceGates(attempts: seq<Attempt>, c: Controls): seq<Gate> {
    var valid := ValidAttempts(attempts);
    [ Gate("minimumTenPairs", |valid| == 10),
      Gate("attemptRetention", |attempts| >= |valid|),
      Gate("pairedControls", Every(ControlsOk, valid)),
      Gate("consumerSourceClean", c.cleanSources),
      Gate("producerSourceClean", c.cleanSources),
      Gate("databaseIsolation", c.dedicatedDatabase),
      Gate("producerDatabaseIsolation", c.dedicatedProducerDatabase),
      Gate("featureFlagRestoredToOff", c.featureFlagRestoredToOff),
      Gate("mcpDisconnected", c.mcpDisconnected),
      Gate("activePilotRunsDrained", c.activePilotRunCount == 0),
      Gate("catalogExactlyOnceBeforeExploration", Every(CatalogOnce, valid)),
      Gate("zeroCatalogFailurePropagation", Every(FailureContained, valid)),
      Gate("independentEvaluationComplete", Every(BothEvaluated, valid)),
      Gate("measuredUsageComplete", Every(TelemetryOk, valid)) ]
  }

  function IncidentGates(attempts: seq<Attempt>): seq<Gate> {
    [ Gate("zeroCatalogReliabilityFailures", CatalogFailures(attempts) == 0),
      Gate("zeroUnsafeIncidents", SafetyFailures(attempts) == 0) ]
  }

  /** The sixteen hard gates; the two about incidents stand between the eleventh and the twelfth. */
  function HardGates(attempts: seq<Attempt>, c: Controls): seq<Gate> {
    var g := EvidenceGates(attempts, c);
    g[..11] + (IncidentGates(attempts) + g[11..])
  }

  predicate ReachesReduction(baseline: Option<real>, catalog: Option<real>, threshold: real) {
    var r := Reduction(baseline, catalog);
    r.Some? && r.value >= threshold
  }

  predicate CompletionRegressed(a: Attempt) { Completed(a.baseline) && !Completed(a.catalog) }
  predicate VerificationRegressed(a: Attempt) { Verified(a.baseline) && !Verified(a.catalog) }
  predicate BaselineCompleted(a: Attempt) { Completed(a.baseline) }
  predicate CatalogCompleted(a: Attempt) { Completed(a.catalog) }
  predicate BaselineVerified(a: Attempt) { Verified(a.baseline) }
  predicate CatalogVerified(a: Attempt) { Verified(a.catalog) }
  function BaselineTokens(a: Attempt): real { Tokens(a.baseline) }
  function CatalogTokens(a: Attempt): real { Tokens(a.catalog) }
  function BaselineReplans(a: Attempt): real { a.baseline.measurement.replanCount as real }
  function CatalogReplans(a: Attempt): real { a.catalog.measurement.replanCount as real }

  function MedianOf(f: Attempt -> real, valid: seq<Attempt>): Option<real> { Median(Each(f, valid)) }

  predicate NoMoreReplans(valid: seq<Attempt>) {
    var c, b := MedianOf(CatalogReplans, valid), MedianOf(BaselineReplans, valid);
    c.Some? && b.Some? && c.value <= b.value
  }

  function ValueGates(attempts: seq<Attempt>): seq<Gate> {
    var valid := ValidAttempts(attempts);
    [ Gate("explorationReduction",
           ReachesReduction(MedianOf(BaselineExploration, valid), MedianOf(CatalogExploration, valid), 0.2)),
      Gate("preMutationNonCachedInputTokenReduction",
           ReachesReduction(MedianOf(BaselineTokens, valid), MedianOf(CatalogTokens, valid), 0.15)),
      Gate("completionNonRegression",
           Count(CatalogCompleted, valid) >= Count(BaselineCompleted, valid) && Count(CompletionRegressed, valid) == 0),
      Gate("verificationNonRegression",
           Count(CatalogVerified, valid) >= Count(BaselineVerified, valid) && Count(VerificationRegressed, valid) == 0),
      Gate("noReplanIncrease", NoMoreReplans(valid)) ]
  }

  function Aggregate(attempts: seq<Attempt>, c: Controls): DecisionInput {
    DecisionInput(SafetyFailures(attempts), CatalogFailures(attempts),
                  AllPassed(EvidenceGates(attempts, c)), HardGates(attempts, c), ValueGates(attempts))
  }

  predicate AllPassed(gates: seq<Gate>) { forall i :: 0 <= i < |gates| ==> gates[i].passed }

  function PilotVerdict(attempts: seq<Attempt>, c: Controls): Verdict { Decide(Aggregate(attempts, c)) }

  // ----- failed gates and their codes

  lemma FailedNamesStep(gates: seq<Gate>)
    requires gates != []
    ensures FailedNames(gates) == (if gates[0].passed then [] else [gates[0].name]) + FailedNames(gates[1..])
  {
    var p := (g: Gate) => !g.passed;
    if gates[0].passed {
      assert Where(p, gates) == Where(p, gates[1..]);
    } else {
      assert Where(p, gates) == [gates[0]] + Where(p, gates[1..]);
      assert Where(p, gates)[1..] == Where(p, gates[1..]);
    }
  }

  lemma {:induction false} FailedNamesEmpty(gates: seq<Gate>)
    ensures FailedNames(gates) == [] <==> AllPassed(gates)
  {
    if gates == [] {
    } else {
      FailedNamesStep(gates);
      FailedNamesEmpty(gates[1..]);
      assert gates == [gates[0]] + gates[1..];
    }
  }

  lemma CodesEmpty(gates: seq<Gate>)
    ensures FailedGateCodes(gates) == [] <==> AllPassed(gates)
  {
    FailedNamesEmpty(gates);
    PermutationMembers(FailedGateCodes(gates), FailedNames(gates));
  }

  /** Some gate of this name failed. */
  ghost predicate FailedGate(gates: seq<Gate>, code: string) {
    exists i :: 0 <= i < |gates| && !gates[i].passed && gates[i].name == code
  }

  lemma {:induction false} FailedNamesMembers(gates: seq<Gate>, code: string)
    ensures code in FailedNames(gates) <==> FailedGate(gates, code)
  {
    if gates == [] {
    } else {
      var rest := gates[1..];
      FailedNamesStep(gates);
      FailedNamesMembers(rest, code);
      if i :| 0 <= i < |rest| && !rest[i].passed && rest[i].name == code {
        assert !gates[i + 1].passed && gates[i + 1].name == code;
      }
      if i :| 0 <= i < |gates| && !gates[i].passed && gates[i].name == code {
        assert i == 0 || (!rest[i - 1].passed && rest[i - 1].name == code);
      }
    }
  }

  lemma CodesMembers(gates: seq<Gate>)
    ensures forall code :: code in FailedGateCodes(gates) <==> FailedGate(gates, code)
  {
    forall code ensures code in FailedGateCodes(gates) <==> FailedGate(gates, code) {
      FailedNamesMembers(gates, code);
      PermutationMembers(FailedGateCodes(gates), FailedNames(gates));
    }
  }

  lemma CodesSorted(gates: seq<Gate>)
    ensures Ascending(LeText, FailedGateCodes(gates))
  {
    LeTextOrder();
    SortAscends(LeText, FailedNames(gates));
  }

  // ----- what an aggregate guarantees, and what the decision makes of it

  predicate Incident(input: DecisionInput) { input.safetyFailures > 0 || input.catalogReliabilityFailures > 0 }

  /** The sixteen hard gates are the evidence gates and the absence of incidents. */
  ghost predicate Coherent(input: DecisionInput) {
    AllPassed(input.hardGates) <==> input.evidenceComplete && !Incident(input)
  }

  lemma IncidentGatesPassed(attempts: seq<Attempt>)
    ensures AllPassed(IncidentGates(attempts)) <==> CatalogFailures(attempts) == 0 && SafetyFailures(attempts) == 0
  {
    var n := IncidentGates(attempts);
    assert n[0].passed <==> CatalogFailures(attempts) == 0;
    assert n[1].passed <==> SafetyFailures(attempts) == 0;
  }

  lemma GateCounts(attempts: seq<Attempt>, c: Controls)
    ensures |EvidenceGates(attempts, c)| == 14
    ensures |HardGates(attempts, c)| == 16 && |ValueGates(attempts)| == 5
  {}

  lemma AggregateCoherent(attempts: seq<Attempt>, c: Controls)
    ensures Coherent(Aggregate(attempts, c)) && |HardGates(attempts, c)| == 16 && |ValueGates(attempts)| == 5
  {
    GateCounts(attempts, c);
    IncidentGatesPassed(attempts);
    SplicePassed(EvidenceGates(attempts, c), IncidentGates(attempts), 11);
  }

  lemma SplicePassed(e: seq<Gate>, n: seq<Gate>, k: nat)
    requires k <= |e|
    ensures AllPassed(e[..k] + (n + e[k..])) <==> AllPassed(e) && AllPassed(n)
  {
    var h := e[..k] + (n + e[k..]);
    assert forall i :: 0 <= i < k ==> h[i] == e[i];
    assert forall i :: 0 <= i < |n| ==> h[k + i] == n[i];
    assert forall i :: k <= i < |e| ==> h[i + |n|] == e[i];
  }

  /** GO means: no incident and every one of the sixteen hard and five value gates passed. */
  lemma GoExactly(attempts: seq<Attempt>, c: Controls)
    ensures PilotVerdict(attempts, c).decision == GO <==>
            && SafetyFailures(attempts) == 0 && CatalogFailures(attempts) == 0
            && AllPassed(HardGates(attempts, c)) && AllPassed(ValueGates(attempts))
    ensures PilotVerdict(attempts, c).decision == GO <==> PilotVerdict(attempts, c).reasonCodes == []
  {
    AggregateCoherent(attempts, c);
    DecideGo(Aggregate(attempts, c));
  }

  lemma DecideGo(input: DecisionInput)
    requires Coherent(input)
    ensures Decide(input).decision == GO <==> AllPassed(input.hardGates) && AllPassed(input.valueGates)
    ensures Decide(input).decision == GO <==> Decide(input).reasonCodes == []
  {
    CodesEmpty(input.hardGates);
    CodesEmpty(input.valueGates);
  }

  /** Missing evidence is decided by the hard gates alone and always names one that failed. */
  lemma InsufficientNamesAHardGate(attempts: seq<Attempt>, c: Controls)
    requires PilotVerdict(attempts, c).decision == INSUFFICIENT_EVIDENCE
    ensures PilotVerdict(attempts, c).reasonCodes != []
    ensures forall code :: code in PilotVerdict(attempts, c).reasonCodes <==> FailedGate(HardGates(attempts, c), code)
    ensures forall other: seq<Gate> ::
              Decide(Aggregate(attempts, c).(valueGates := other)) == PilotVerdict(attempts, c)
  {
    AggregateCoherent(attempts, c);
    DecideInsufficient(Aggregate(attempts, c));
  }

  lemma DecideInsufficient(input: DecisionInput)
    requires Coherent(input) && Decide(input).decision == INSUFFICIENT_EVIDENCE
    ensures Decide(input).reasonCodes != []
    ensures forall code :: code in Decide(input).reasonCodes <==> FailedGate(input.hardGates, code)
    ensures forall other: seq<Gate> :: Decide(input.(valueGates := other)) == Decide(input)
  {
    CodesEmpty(input.hardGates);
    CodesMembers(input.hardGates);
  }

  /** A NO-GO is either an incident, named as such, or complete evidence with its failed value gates. */
  lemma NoGoNamesItsCause(attempts: seq<Attempt>, c: Controls)
    requires PilotVerdict(attempts, c).decision == NO_GO
    ensures PilotVerdict(attempts, c).reasonCodes != []
    ensures Incident(Aggregate(attempts, c)) ==>
              forall code :: code in PilotVerdict(attempts, c).reasonCodes <==>
                (code == SAFETY_INCIDENT && SafetyFailures(attempts) > 0)
                || (code == CATALOG_FAILURE && CatalogFailures(attempts) > 0)
    ensures !Incident(Aggregate(attempts, c)) ==>
              && AllPassed(HardGates(attempts, c)) && !AllPassed(ValueGates(attempts))
              && forall code ::
                   code in PilotVerdict(attempts, c).reasonCodes <==> FailedGate(ValueGates(attempts), code)
  {
    AggregateCoherent(attempts, c);
    DecideNoGo(Aggregate(attempts, c));
  }

  lemma DecideNoGo(input: DecisionInput)
    requires Coherent(input) && Decide(input).decision == NO_GO
    ensures Decide(input).reasonCodes != []
    ensures Incident(input) ==>
              forall code :: code in Decide(input).reasonCodes <==>
                (code == SAFETY_INCIDENT && input.safetyFailures > 0)
                || (code == CATALOG_FAILURE && input.catalogReliabilityFailures > 0)
    ensures !Incident(input) ==>
              && AllPassed(input.hardGates) && !AllPassed(input.valueGates)
              && Decide(input).reasonCodes == FailedGateCodes(input.valueGates)
              && forall code :: code in Decide(input).reasonCodes <==> FailedGate(input.valueGates, code)
  {
    CodesEmpty(input.hardGates);
    CodesEmpty(input.valueGates);
    CodesMembers(input.valueGates);
    assert [] + FailedGateCodes(input.valueGates) == FailedGateCodes(input.valueGates);
  }

  // ----- counting

  /** When r holds where p does and q does not, and never holds, q holds at least as often as p. */
  lemma {:induction false} NoLossNoDecrease(p: Attempt -> bool, q: Attempt -> bool, r: Attempt -> bool, s: seq<Attempt>)
    requires forall a :: r(a) == (p(a) && !q(a))
    requires Count(r, s) == 0
    ensures Count(q, s) >= Count(p, s)
  {
    if s == [] {
    } else {
      NoLossNoDecrease(p, q, r, s[1..]);
    }
  }

  lemma CompletionLoss(valid: seq<Attempt>)
    ensures Count(CompletionRegressed, valid) == 0 ==> Count(CatalogCompleted, valid) >= Count(BaselineCompleted, valid)
  {
    if Count(CompletionRegressed, valid) == 0 {
      NoLossNoDecrease(BaselineCompleted, CatalogCompleted, CompletionRegressed, valid);
    }
  }

  lemma VerificationLoss(valid: seq<Attempt>)
    ensures Count(VerificationRegressed, valid) == 0 ==> Count(CatalogVerified, valid) >= Count(BaselineVerified, valid)
  {
    if Count(VerificationRegressed, valid) == 0 {
      NoLossNoDecrease(BaselineVerified, CatalogVerified, VerificationRegressed, valid);
    }
  }

  /** The first half of the completion gate follows from the second, and likewise for verification. */
  lemma ZeroRegressionsSuffice(attempts: seq<Attempt>)
    ensures var valid := ValidAttempts(attempts);
            && (ValueGates(attempts)[2].passed <==> Count(CompletionRegressed, valid) == 0)
            && (ValueGates(attempts)[3].passed <==> Count(VerificationRegressed, valid) == 0)
  {
    CompletionLoss(ValidAttempts(attempts));
    VerificationLoss(ValidAttempts(attempts));
  }

  // ----- the order of the attempts does not matter

  lemma EveryPermutes(p: Attempt -> bool, a: seq<Attempt>, b: seq<Attempt>)
    requires multiset(a) == multiset(b)
    ensures Every(p, a) == Every(p, b)
  {
    PermutationMembers(a, b);
    assert Every(p, a) <==> forall x :: x in a ==> p(x);
    assert Every(p, b) <==> forall x :: x in b ==> p(x);
  }

  lemma MedianOfPermutes(f: Attempt -> real, a: seq<Attempt>, b: seq<Attempt>)
    requires multiset(a) == multiset(b)
    ensures MedianOf(f, a) == MedianOf(f, b)
  {
    EachPermutes(f, a, b);
    MedianPermutes(Each(f, a), Each(f, b));
  }

  lemma EvidenceGatesPermute(a: seq<Attempt>, b: seq<Attempt>, c: Controls)
    requires multiset(a) == multiset(b)
    ensures EvidenceGates(a, c) == EvidenceGates(b, c)
  {
    var va, vb := ValidAttempts(a), ValidAttempts(b);
    PermutationMembers(a, b);
    WherePermutes(Comparable, a, b);
    EveryPermutes(ControlsOk, va, vb);
    EveryPermutes(CatalogOnce, va, vb);
    EveryPermutes(FailureContained, va, vb);
    EveryPermutes(BothEvaluated, va, vb);
    EveryPermutes(TelemetryOk, va, vb);
  }

  lemma MediansPermute(va: seq<Attempt>, vb: seq<Attempt>)
    requires multiset(va) == multiset(vb)
    ensures MedianOf(BaselineExploration, va) == MedianOf(BaselineExploration, vb)
    ensures MedianOf(CatalogExploration, va) == MedianOf(CatalogExploration, vb)
    ensures MedianOf(BaselineTokens, va) == MedianOf(BaselineTokens, vb)
    ensures MedianOf(CatalogTokens, va) == MedianOf(CatalogTokens, vb)
    ensures MedianOf(BaselineReplans, va) == MedianOf(BaselineReplans, vb)
    ensures MedianOf(CatalogReplans, va) == MedianOf(CatalogReplans, vb)
  {
    MedianOfPermutes(BaselineExploration, va, vb);
    MedianOfPermutes(CatalogExploration, va, vb);
    MedianOfPermutes(BaselineTokens, va, vb);
    MedianOfPermutes(CatalogTokens, va, vb);
    MedianOfPermutes(BaselineReplans, va, vb);
    MedianOfPermutes(CatalogReplans, va, vb);
  }

  lemma CountsPermute(va: seq<Attempt>, vb: seq<Attempt>)
    requires multiset(va) == multiset(vb)
    ensures Count(CatalogCompleted, va) == Count(CatalogCompleted, vb)
    ensures Count(BaselineCompleted, va) == Count(BaselineCompleted, vb)
    ensures Count(CompletionRegressed, va) == Count(CompletionRegressed, vb)
    ensures Count(CatalogVerified, va) == Count(CatalogVerified, vb)
    ensures Count(BaselineVerified, va) == Count(BaselineVerified, vb)
    ensures Count(VerificationRegressed, va) == Count(VerificationRegressed, vb)
  {
    WherePermutes(CatalogCompleted, va, vb);
    WherePermutes(BaselineCompleted, va, vb);
    WherePermutes(CompletionRegressed, va, vb);
    WherePermutes(CatalogVerified, va, vb);
    WherePermutes(BaselineVerified, va, vb);
    WherePermutes(VerificationRegressed, va, vb);
  }

  lemma ValueGatesPermute(a: seq<Attempt>, b: seq<Attempt>)
    requires multiset(a) == multiset(b)
    ensures ValueGates(a) == ValueGates(b)
  {
    WherePermutes(Comparable, a, b);
    MediansPermute(ValidAttempts(a), ValidAttempts(b));
    CountsPermute(ValidAttempts(a), ValidAttempts(b));
  }

  /** Decision and reason codes are the same for every order of the attempts. */
  lemma VerdictPermutes(a: seq<Attempt>, b: seq<Attempt>, c: Controls)
    requires multiset(a) == multiset(b)
    ensures PilotVerdict(a, c) == PilotVerdict(b, c)
  {
    EvidenceGatesPermute(a, b, c);
    ValueGatesPermute(a, b);
    WherePermutes((x: Attempt) => x.classification.SafetyFailure?, a, b);
    WherePermutes((x: Attempt) => x.classification.CatalogReliabilityFailure?, a, b);
  }

  /** One safety failure anywhere decides NO-GO, whatever the other attempts are. */
  lemma SafetyFailureForcesNoGo(before: seq<Attempt>, incident: Attempt, after: seq<Attempt>, c: Controls)
    requires incident.classification.SafetyFailure?
    ensures PilotVerdict(before + [incident] + after, c).decision == NO_GO
    ensures SAFETY_INCIDENT in PilotVerdict(before + [incident] + after, c).reasonCodes
  {
    var p := (a: Attempt) => a.classification.SafetyFailure?;
    WhereAppend(p, before + [incident], after);
    WhereAppend(p, before, [incident]);
  }

  // ----- the recheck of a raw report

  /** `/^[a-zA-Z0-9_.-]+$/` */
  predicate SafeCode(s: string) {
    s != [] && forall i :: 0 <= i < |s| ==>
      'a' <= s[i] <= 'z' || 'A' <= s[i] <= 'Z' || '0' <= s[i] <= '9'
      || s[i] == '_' || s[i] == '.' || s[i] == '-'
  }

  /** The raw codes are checked and sorted, then compared with the recomputed ones by position. */
  predicate RecheckPasses(raw: seq<string>, recomputed: seq<string>) {
    Every(SafeCode, raw) && Sort(LeText, raw) == recomputed
  }

  lemma IncidentPairUnsorted()
    ensures !LeText(SAFETY_INCIDENT, CATALOG_FAILURE)
  {
    assert SAFETY_INCIDENT[0] == 's' && CATALOG_FAILURE[0] == 'c';
  }

  lemma CodesAscend(input: DecisionInput)
    requires Coherent(input)
    ensures Ascending(LeText, Decide(input).reasonCodes) <==>
            !(input.safetyFailures > 0 && input.catalogReliabilityFailures > 0)
  {
    CodesSorted(input.hardGates);
    CodesSorted(input.valueGates);
    CodesEmpty(input.hardGates);
    var codes := Decide(input).reasonCodes;
    if input.safetyFailures > 0 && input.catalogReliabilityFailures > 0 {
      IncidentPairUnsorted();
      assert codes[0] == SAFETY_INCIDENT && codes[1] == CATALOG_FAILURE;
    } else if !Incident(input) && input.evidenceComplete {
      assert codes == FailedGateCodes(input.valueGates);
    }
  }

  lemma SortedTo(raw: seq<string>, codes: seq<string>)
    ensures Sort(LeText, raw) == codes <==> multiset(raw) == multiset(codes) && Ascending(LeText, codes)
  {
    LeTextOrder();
    SortAscends(LeText, raw);
    if multiset(raw) == multiset(codes) && Ascending(LeText, codes) {
      LeTextNoTies(codes);
      AscendingUnique(LeText, codes, Sort(LeText, raw));
    }
  }

  lemma PairNames()
    ensures SafeCode("minimumTenPairs") && SafeCode("attemptRetention") && SafeCode("pairedControls")
  {}

  lemma SourceNames()
    ensures SafeCode("consumerSourceClean") && SafeCode("producerSourceClean") && SafeCode("databaseIsolation")
  {}

  lemma IsolationNames()
    ensures SafeCode("producerDatabaseIsolation") && SafeCode("featureFlagRestoredToOff")
  {}

  lemma DrainNames()
    ensures SafeCode("mcpDisconnected") && SafeCode("activePilotRunsDrained")
  {}

  lemma CatalogNames()
    ensures SafeCode("catalogExactlyOnceBeforeExploration") && SafeCode("zeroCatalogFailurePropagation")
  {}

  lemma EvidenceNames()
    ensures SafeCode("independentEvaluationComplete") && SafeCode("measuredUsageComplete")
  {}

  lemma IncidentNames()
    ensures SafeCode("zeroCatalogReliabilityFailures") && SafeCode("zeroUnsafeIncidents")
  {}

  lemma ReductionNames()
    ensures SafeCode("explorationReduction") && SafeCode("preMutationNonCachedInputTokenReduction")
  {}

  lemma RegressionNames()
    ensures SafeCode("completionNonRegression") && SafeCode("verificationNonRegression") && SafeCode("noReplanIncrease")
  {}

  lemma IncidentCodes()
    ensures SafeCode(SAFETY_INCIDENT) && SafeCode(CATALOG_FAILURE)
  {}

  lemma EvidenceNamesSafe(attempts: seq<Attempt>, c: Controls)
    ensures forall i :: 0 <= i < 14 ==> SafeCode(EvidenceGates(attempts, c)[i].name)
  {
    PairNames();
    SourceNames();
    IsolationNames();
    DrainNames();
    CatalogNames();
    EvidenceNames();
  }

  lemma IncidentNamesSafe(attempts: seq<Attempt>)
    ensures forall i :: 0 <= i < 2 ==> SafeCode(IncidentGates(attempts)[i].name)
  {
    IncidentNames();
  }

  lemma ValueNamesSafe(attempts: seq<Attempt>)
    ensures forall i :: 0 <= i < 5 ==> SafeCode(ValueGates(attempts)[i].name)
  {
    ReductionNames();
    RegressionNames();
  }

  lemma HardNamesSafe(attempts: seq<Attempt>, c: Controls)
    ensures forall i :: 0 <= i < |HardGates(attempts, c)| ==> SafeCode(HardGates(attempts, c)[i].name)
  {
    EvidenceNamesSafe(attempts, c);
    IncidentNamesSafe(attempts);
    var e, n, h := EvidenceGates(attempts, c), IncidentGates(attempts), HardGates(attempts, c);
    assert |e| == 14 && |n| == 2 && h == e[..11] + (n + e[11..]);
    forall i | 0 <= i < |h| ensures SafeCode(h[i].name) {
      if i < 11 { assert h[i] == e[i]; } else if i < 13 { assert h[i] == n[i - 11]; } else { assert h[i] == e[i - 2]; }
    }
  }

  /** Every code that a verdict can carry passes the check on codes. */
  lemma VerdictCodesSafe(attempts: seq<Attempt>, c: Controls)
    ensures Every(SafeCode, PilotVerdict(attempts, c).reasonCodes)
  {
    HardNamesSafe(attempts, c);
    ValueNamesSafe(attempts);
    IncidentCodes();
    AggregateCoherent(attempts, c);
    DecidedCodesSafe(Aggregate(attempts, c));
  }

  lemma DecidedCodesSafe(input: DecisionInput)
    requires Coherent(input) && SafeCode(SAFETY_INCIDENT) && SafeCode(CATALOG_FAILURE)
    requires forall i :: 0 <= i < |input.hardGates| ==> SafeCode(input.hardGates[i].name)
    requires forall i :: 0 <= i < |input.valueGates| ==> SafeCode(input.valueGates[i].name)
    ensures Every(SafeCode, Decide(input).reasonCodes)
  {
    CodesMembers(input.hardGates);
    CodesMembers(input.valueGates);
    var codes := Decide(input).reasonCodes;
    forall i | 0 <= i < |codes| ensures SafeCode(codes[i]) {
      assert codes[i] in codes;
      if !Incident(input) {
        assert codes[i] in FailedGateCodes(input.hardGates) || codes[i] in FailedGateCodes(input.valueGates);
      }
    }
  }

  lemma EveryInRearranged(p: string -> bool, a: seq<string>, b: seq<string>)
    requires multiset(a) == multiset(b) && Every(p, b)
    ensures Every(p, a)
  {
    PermutationMembers(a, b);
    forall i | 0 <= i < |a| ensures p(a[i]) {
      assert a[i] in a;
      var j :| 0 <= j < |b| && b[j] == a[i];
    }
  }

  /** A report passes the recheck exactly when it lists the recomputed codes, in any order, and not
      both kinds of incident occurred; with both, no list of codes at all passes. */
  lemma RecheckExactly(attempts: seq<Attempt>, c: Controls, raw: seq<string>)
    ensures var codes := PilotVerdict(attempts, c).reasonCodes;
            RecheckPasses(raw, codes) <==>
            multiset(raw) == multiset(codes) && !(SafetyFailures(attempts) > 0 && CatalogFailures(attempts) > 0)
  {
    var codes := PilotVerdict(attempts, c).reasonCodes;
    AggregateCoherent(attempts, c);
    CodesAscend(Aggregate(attempts, c));
    SortedTo(raw, codes);
    if multiset(raw) == multiset(codes) {
      VerdictCodesSafe(attempts, c);
      EveryInRearranged(SafeCode, raw, codes);
    }
  }

  const NOTHING_DONE := Measurement(0, false, 0, 0, 0, 0, None, "unavailable", false, 0)

  function IncidentAttempt(classification: Classification): Attempt {
    Attempt(classification, PairControls(true, true, true, true), Arm(NOTHING_DONE, None), Arm(NOTHING_DONE, None))
  }

  lemma BothKindsVerdict(attempts: seq<Attempt>, c: Controls)
    requires SafetyFailures(attempts) > 0 && CatalogFailures(attempts) > 0
    ensures PilotVerdict(attempts, c) == Verdict(NO_GO, [SAFETY_INCIDENT, CATALOG_FAILURE])
  {}

  lemma BothKindsRefused(attempts: seq<Attempt>, c: Controls)
    requires SafetyFailures(attempts) > 0 && CatalogFailures(attempts) > 0
    ensures forall raw :: !RecheckPasses(raw, PilotVerdict(attempts, c).reasonCodes)
  {
    forall raw ensures !RecheckPasses(raw, PilotVerdict(attempts, c).reasonCodes) {
      RecheckExactly(attempts, c, raw);
    }
  }

  lemma BothKindsCounted(safety: Attempt, catalog: Attempt)
    requires safety.classification.SafetyFailure? && catalog.classification.CatalogReliabilityFailure?
    ensures SafetyFailures([safety, catalog]) == 1 && CatalogFailures([safety, catalog]) == 1
  {
    assert [safety, catalog] == [safety] + [catalog];
    var p := (a: Attempt) => a.classification.SafetyFailure?;
    var q := (a: Attempt) => a.classification.CatalogReliabilityFailure?;
    WhereAppend(p, [safety], [catalog]);
    WhereOne(p, safety);
    WhereOne(p, catalog);
    WhereAppend(q, [safety], [catalog]);
    WhereOne(q, safety);
    WhereOne(q, catalog);
  }

  /** Two such attempts: the codes are the two incidents, and every report of them is refused. */
  lemma BothIncidentsRefuseEveryReport(c: Controls)
    ensures var attempts := [IncidentAttempt(SafetyFailure), IncidentAttempt(CatalogReliabilityFailure)];
            && PilotVerdict(attempts, c) == Verdict(NO_GO, [SAFETY_INCIDENT, CATALOG_FAILURE])
            && forall raw :: !RecheckPasses(raw, PilotVerdict(attempts, c).reasonCodes)
  {
    var attempts := [IncidentAttempt(SafetyFailure), IncidentAttempt(CatalogReliabilityFailure)];
    BothKindsCounted(attempts[0], attempts[1]);
    BothKindsVerdict(attempts, c);
    BothKindsRefused(attempts, c);
  }
}
