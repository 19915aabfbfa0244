/** The whole receipt: what runScannerHardeningCloseout writes after a run without failure, and the
    promotion logic of verifyScannerHardeningCloseout. Digests, evidence files and the CI receipt are
    checked by code outside this model; evidenceOk says that those checks passed. */
module CloseoutReceipt {
  import opened Wrappers
  import opened Lists
  import opened Sorting
  import opened Closeout

  datatype Command = Command(id: string, argv: seq<string>, exitCode: int)
  datatype CiPromotion = CiPromotion(status: string, branchProtectionConfirmed: bool)
  datatype Cleanup = Cleanup(
    activeOwnedProcessCount: nat, activeOwnedContainerCount: nat, activeOwnedListenerCount: nat,
    targetHeadUnchanged: bool, targetStatusUnchanged: bool,
    productionDatabaseUnchanged: bool, productionArtifactRootUnchanged: bool)
  datatype ReceiptVerdict = VerdictPassed | VerdictBlocked | VerdictFailed

  datatype Receipt = Receipt(
    commands: seq<Command>, dod: seq<Entry>, parentCloseout: seq<Entry>, remediation: seq<Entry>,
    remediationCases: seq<Entry>, ciPromotion: CiPromotion, cleanup: Cleanup, verdict: ReceiptVerdict)

  datatype Contracts = Contracts(
    parentDod: seq<Contract>, parentCloseout: seq<Contract>,
    remediationDod: seq<Contract>, remediationCases: seq<Contract>)

  const COMMAND_IDS := ["scope", "scanner-e2e", "failure", "failure-verify", "verify-strict",
                        "evidence-verify", "baseline-verify", "dod-verify"]

  datatype ReceiptError =
    | CommandSetMismatch | CommandArgvMismatch | CommandFailed | EvidenceInvalid | ResultsInvalid(error: ResultError)
    | CleanupFailed | FalsePass | FailedReceipt | NotPromotable

  predicate CleanupPassed(c: Cleanup) {
    && c.activeOwnedProcessCount == 0 && c.activeOwnedContainerCount == 0 && c.activeOwnedListenerCount == 0
    && c.targetHeadUnchanged && c.targetStatusUnchanged
    && c.productionDatabaseUnchanged && c.productionArtifactRootUnchanged
  }

  function CommandIds(commands: seq<Command>): (r: seq<string>)
    ensures |r| == |commands| && forall i :: 0 <= i < |r| ==> r[i] == commands[i].id
  {
    var id := (c: Command) => c.id;
    EachAt(id, commands);
    Each(id, commands)
  }

  function CommandsError(commands: seq<Command>, expected: seq<string>, argvOf: string -> seq<string>)
      : Option<ReceiptError>
  {
    if !ExactIds(CommandIds(commands), expected) then Some(CommandSetMismatch)
    else if exists i :: 0 <= i < |commands| && commands[i].argv != argvOf(commands[i].id) then Some(CommandArgvMismatch)
    else if exists i :: 0 <= i < |commands| && commands[i].exitCode != 0 then Some(CommandFailed)
    else None
  }

  /** The four result lists, in the order they are checked. */
  function ResultsError(r: Receipt, contracts: Contracts): Option<ResultError> {
    var ci := r.ciPromotion.status;
    match AssertResults(r.dod, contracts.parentDod, ci, false)
    case Some(e) => Some(e)
    case None =>
      match AssertResults(r.parentCloseout, contracts.parentCloseout, ci, false)
      case Some(e) => Some(e)
      case None =>
        match AssertResults(r.remediation, contracts.remediationDod, ci, false)
        case Some(e) => Some(e)
        case None => AssertResults(r.remediationCases, contracts.remediationCases, ci, true)
  }

  function AllEntries(r: Receipt): seq<Entry> {
    r.dod + r.parentCloseout + r.remediation + r.remediationCases
  }

  predicate HasFailed(r: Receipt) {
    exists i :: 0 <= i < |AllEntries(r)| && AllEntries(r)[i].status.Failed?
  }

  predicate Promotable(r: Receipt) {
    !HasFailed(r) && r.ciPromotion.status == "passed" && r.ciPromotion.branchProtectionConfirmed
    && r.verdict.VerdictPassed?
  }

  /** verifyScannerHardeningCloseout: promotable, or the error thrown. argvOf is closeoutReceiptArgv
      for the receipt's commit. */
  function Verify(r: Receipt, contracts: Contracts, argvOf: string -> seq<string>, evidenceOk: bool, allowBlocked: bool)
      : Result<bool, ReceiptError>
  {
    match CommandsError(r.commands, COMMAND_IDS, argvOf)
    case Some(e) => Err(e)
    case None =>
      if !evidenceOk then Err(EvidenceInvalid)
      else
        match ResultsError(r, contracts)
        case Some(e) => Err(ResultsInvalid(e))
        case None => Judge(r, allowBlocked)
  }

  function Judge(r: Receipt, allowBlocked: bool): Result<bool, ReceiptError> {
    if !CleanupPassed(r.cleanup) then Err(CleanupFailed)
    else if r.verdict.VerdictPassed? && !Promotable(r) then Err(FalsePass)
    else if r.verdict.VerdictFailed? then Err(FailedReceipt)
    else if !Promotable(r) && !allowBlocked then Err(NotPromotable)
    else Ok(Promotable(r))
  }

  // ----- the producer, once every command has succeeded and nothing leaked or changed

  function CommandsOf(ids: seq<string>, argvOf: string -> seq<string>): (r: seq<Command>)
    ensures |r| == |ids| && forall i :: 0 <= i < |r| ==> r[i] == Command(ids[i], argvOf(ids[i]), 0)
  {
    var command := (id: string) => Command(id, argvOf(id), 0);
    EachAt(command, ids);
    Each(command, ids)
  }

  function Produce(contracts: Contracts, argvOf: string -> seq<string>, ciReceipt: bool): Receipt {
    var ci := if ciReceipt then CiPromotion("passed", true) else CiPromotion("blocked", false);
    Receipt(CommandsOf(COMMAND_IDS, argvOf),
            ResultEntries(contracts.parentDod, ci.status), ResultEntries(contracts.parentCloseout, ci.status),
            ResultEntries(contracts.remediationDod, ci.status), ResultEntries(contracts.remediationCases, ci.status),
            ci, Cleanup(0, 0, 0, true, true, true, true),
            if ci.status == "passed" then VerdictPassed else VerdictBlocked)
  }

  // ----- main results

  ghost predicate NoneSuperseded(contracts: seq<Contract>) {
    forall i :: 0 <= i < |contracts| ==> !IsSuperseded(contracts[i])
  }

  /** Contracts under which producer and verifier agree. */
  ghost predicate Consistent(c: Contracts) {
    && Checkable(c.parentDod) && Checkable(c.parentCloseout)
    && Checkable(c.remediationDod) && Checkable(c.remediationCases)
    && NoneSuperseded(c.parentDod) && NoneSuperseded(c.parentCloseout) && NoneSuperseded(c.remediationDod)
  }

  lemma AcceptedStatuses(actual: seq<Entry>, contracts: seq<Contract>, ciStatus: string, allowSuperseded: bool)
    requires AssertResults(actual, contracts, ciStatus, allowSuperseded).None?
    ensures forall i :: 0 <= i < |actual| ==>
              && !actual[i].status.Failed?
              && (actual[i].status.Blocked? ==> ciStatus != "passed")
              && (actual[i].status.Superseded? ==> allowSuperseded)
  {
    AcceptedResults(actual, contracts, ciStatus, allowSuperseded);
  }

  /** Once the result lists are accepted no entry can be failed, so the check for failed entries
      never decides anything. */
  lemma AcceptedReceiptHasNoFailure(r: Receipt, contracts: Contracts)
    requires ResultsError(r, contracts).None?
    ensures !HasFailed(r)
    ensures r.ciPromotion.status == "passed" ==>
              forall e :: e in AllEntries(r) ==> e.status.Passed? || e.status.Superseded?
  {
    var ci := r.ciPromotion.status;
    AcceptedStatuses(r.dod, contracts.parentDod, ci, false);
    AcceptedStatuses(r.parentCloseout, contracts.parentCloseout, ci, false);
    AcceptedStatuses(r.remediation, contracts.remediationDod, ci, false);
    AcceptedStatuses(r.remediationCases, contracts.remediationCases, ci, true);
    var all := AllEntries(r);
    forall i | 0 <= i < |all|
      ensures !all[i].status.Failed? && (all[i].status.Blocked? ==> ci != "passed")
    {
      assert all[i] in r.dod || all[i] in r.parentCloseout || all[i] in r.remediation || all[i] in r.remediationCases;
    }
  }

  lemma AcceptedMandatoryPass(r: Receipt, contracts: Contracts)
    requires ResultsError(r, contracts).None? && r.ciPromotion.status == "passed"
    ensures forall e :: e in r.dod + r.parentCloseout + r.remediation ==> e.status.Passed?
  {
    AcceptedStatuses(r.dod, contracts.parentDod, "passed", false);
    AcceptedStatuses(r.parentCloseout, contracts.parentCloseout, "passed", false);
    AcceptedStatuses(r.remediation, contracts.remediationDod, "passed", false);
  }

  lemma AcceptedCommands(commands: seq<Command>, expected: seq<string>, argvOf: string -> seq<string>)
    ensures CommandsError(commands, expected, argvOf).None? <==>
            && CommandIds(commands) == expected && Distinct(expected)
            && forall i :: 0 <= i < |commands| ==>
                 commands[i].argv == argvOf(commands[i].id) && commands[i].exitCode == 0
  {
    ExactIdsExactly(CommandIds(commands), expected);
  }

  lemma CommandIdsDistinct()
    ensures Distinct(COMMAND_IDS)
  {}

  /** A receipt verified as promotable contains no blocked and no failed entry, and supersedes only
      remediation cases; its commands all succeeded and its CI run was protected. */
  lemma PromotableReceiptIsClean(r: Receipt, contracts: Contracts, argvOf: string -> seq<string>,
                                 evidenceOk: bool, allowBlocked: bool)
    requires Verify(r, contracts, argvOf, evidenceOk, allowBlocked) == Ok(true)
    ensures forall e :: e in AllEntries(r) ==> e.status.Passed? || e.status.Superseded?
    ensures forall e :: e in r.dod + r.parentCloseout + r.remediation ==> e.status.Passed?
    ensures CommandIds(r.commands) == COMMAND_IDS && forall i :: 0 <= i < |r.commands| ==> r.commands[i].exitCode == 0
    ensures r.ciPromotion == CiPromotion("passed", true) && r.verdict.VerdictPassed? && CleanupPassed(r.cleanup)
  {
    AcceptedCommands(r.commands, COMMAND_IDS, argvOf);
    AcceptedReceiptHasNoFailure(r, contracts);
    AcceptedMandatoryPass(r, contracts);
  }

  /** A receipt that is accepted without being promotable says itself that it is blocked. */
  lemma BlockedReceiptIsAllowed(r: Receipt, contracts: Contracts, argvOf: string -> seq<string>,
                                evidenceOk: bool, allowBlocked: bool)
    requires Verify(r, contracts, argvOf, evidenceOk, allowBlocked) == Ok(false)
    ensures allowBlocked && r.verdict.VerdictBlocked? && !HasFailed(r)
  {
    AcceptedReceiptHasNoFailure(r, contracts);
  }

  lemma ProducedCommandsAccepted(ids: seq<string>, argvOf: string -> seq<string>)
    requires Distinct(ids)
    ensures CommandsError(CommandsOf(ids, argvOf), ids, argvOf).None?
  {
    AcceptedCommands(CommandsOf(ids, argvOf), ids, argvOf);
  }

  /** One produced list is accepted exactly when its contracts are checkable and supersede only where
      that is allowed. */
  lemma ProducedListAccepted(contracts: seq<Contract>, ci: string, allowSuperseded: bool)
    ensures AssertResults(ResultEntries(contracts, ci), contracts, ci, allowSuperseded).None? <==>
            Checkable(contracts) && (allowSuperseded || NoneSuperseded(contracts))
  {
    var produced := ResultEntries(contracts, ci);
    AcceptedResults(produced, contracts, ci, allowSuperseded);
    if Checkable(contracts) {
      forall i | 0 <= i < |contracts|
        ensures produced[i] == WantedEntry(contracts[i], ci, allowSuperseded) <==>
                allowSuperseded || !IsSuperseded(contracts[i])
      {}
    }
  }

  lemma ProducedResultsAccepted(contracts: Contracts, argvOf: string -> seq<string>, ciReceipt: bool)
    ensures ResultsError(Produce(contracts, argvOf, ciReceipt), contracts).None? <==> Consistent(contracts)
  {
    var ci := Produce(contracts, argvOf, ciReceipt).ciPromotion.status;
    ProducedListAccepted(contracts.parentDod, ci, false);
    ProducedListAccepted(contracts.parentCloseout, ci, false);
    ProducedListAccepted(contracts.remediationDod, ci, false);
    ProducedListAccepted(contracts.remediationCases, ci, true);
  }

  lemma VerifyAfterCommands(r: Receipt, contracts: Contracts, argvOf: string -> seq<string>,
                            evidenceOk: bool, allowBlocked: bool)
    requires CommandsError(r.commands, COMMAND_IDS, argvOf).None?
    ensures Verify(r, contracts, argvOf, evidenceOk, allowBlocked) ==
            if !evidenceOk then Err(EvidenceInvalid)
            else match ResultsError(r, contracts)
                 case Some(e) => Err(ResultsInvalid(e))
                 case None => Judge(r, allowBlocked)
  {}

  lemma JudgeProduced(contracts: Contracts, argvOf: string -> seq<string>, ciReceipt: bool, allowBlocked: bool)
    requires !HasFailed(Produce(contracts, argvOf, ciReceipt))
    ensures Judge(Produce(contracts, argvOf, ciReceipt), allowBlocked) ==
            if ciReceipt then Ok(true) else if allowBlocked then Ok(false) else Err(NotPromotable)
  {
    assert Promotable(Produce(contracts, argvOf, ciReceipt)) == ciReceipt;
  }

  /** What the producer writes is verified exactly when the evidence files are in order, the contracts
      are consistent, and there was a CI receipt or blocked receipts are allowed; it is promotable with
      a CI receipt. */
  lemma ProducedReceiptVerifies(contracts: Contracts, argvOf: string -> seq<string>, ciReceipt: bool,
                                evidenceOk: bool, allowBlocked: bool)
    ensures var outcome := Verify(Produce(contracts, argvOf, ciReceipt), contracts, argvOf, evidenceOk, allowBlocked);
            && (outcome.Ok? <==> evidenceOk && Consistent(contracts) && (ciReceipt || allowBlocked))
            && (outcome.Ok? ==> outcome.value == ciReceipt)
            && (outcome == Err(EvidenceInvalid) <==> !evidenceOk)
            && (outcome == Err(NotPromotable) <==> evidenceOk && Consistent(contracts) && !ciReceipt && !allowBlocked)
  {
    var r := Produce(contracts, argvOf, ciReceipt);
    CommandIdsDistinct();
    ProducedCommandsAccepted(COMMAND_IDS, argvOf);
    VerifyAfterCommands(r, contracts, argvOf, evidenceOk, allowBlocked);
    ProducedResultsAccepted(contracts, argvOf, ciReceipt);
    if Consistent(contracts) {
      AcceptedReceiptHasNoFailure(r, contracts);
      JudgeProduced(contracts, argvOf, ciReceipt, allowBlocked);
    }
  }
}
