/** The closeout receipt: resultEntries (scripts/scanner-hardening-closeout.ts) writes the results,
    assertResults (scripts/verify-scanner-hardening-closeout.ts) checks them independently. */
module Closeout {
  import opened Wrappers
  import opened Lists
  import opened Sorting

  datatype Contract = Contract(id: string, requiredProviderIds: seq<string>, disposition: Option<string>)
  datatype Status = Passed | Blocked | Failed | Superseded
  datatype Entry = Entry(id: string, status: Status, evidenceProviderIds: seq<string>,
                         supersededReason: Option<string>, successorContract: Option<string>)

  const CI_RECEIPT := "ci-receipt"
  const SUPERSEDED_REASON := "real_scan_target_fixed_to_todolist"
  const SUCCESSOR := "spec/security-capability/todolist-scan-target.v1.json"

  predicate IsSuperseded(c: Contract) { c.disposition == Some("superseded") }

  // ----- the producer

  function ResultEntry(c: Contract, ciStatus: string): Entry {
    var superseded := IsSuperseded(c);
    Entry(c.id,
          if superseded then Superseded
          else if CI_RECEIPT in c.requiredProviderIds && ciStatus != "passed" then Blocked
          else Passed,
          c.requiredProviderIds,
          if superseded then Some(SUPERSEDED_REASON) else None,
          if superseded then Some(SUCCESSOR) else None)
  }

  function ResultEntries(contracts: seq<Contract>, ciStatus: string): (r: seq<Entry>)
    ensures |r| == |contracts| && forall i :: 0 <= i < |r| ==> r[i] == ResultEntry(contracts[i], ciStatus)
  {
    var entry := (c: Contract) => ResultEntry(c, ciStatus);
    EachAt(entry, contracts);
    Each(entry, contracts)
  }

  // ----- the verifier

  datatype ResultError =
    | ResultSetMismatch | ResultMissing(id: string) | ProviderMismatch(id: string)
    | StatusInvalid(id: string) | SupersessionInvalid(id: string) | UnexpectedSupersession(id: string)

  /** `assertExactIds`: equal lengths, as many different ids as expected, and equal by position. */
  predicate ExactIds(actual: seq<string>, expected: seq<string>) {
    && |actual| == |expected|
    && |Unique(actual)| == |expected|
    && forall i :: 0 <= i < |expected| ==> actual[i] == expected[i]
  }

  function IdsOf(entries: seq<Entry>): (r: seq<string>)
    ensures |r| == |entries| && forall i :: 0 <= i < |r| ==> r[i] == entries[i].id
  {
    var id := (e: Entry) => e.id;
    EachAt(id, entries);
    Each(id, entries)
  }

  function ContractIds(contracts: seq<Contract>): (r: seq<string>)
    ensures |r| == |contracts| && forall i :: 0 <= i < |r| ==> r[i] == contracts[i].id
  {
    var id := (c: Contract) => c.id;
    EachAt(id, contracts);
    Each(id, contracts)
  }

  /** `actual.find((entry) => entry.id === id)` */
  function Find(actual: seq<Entry>, id: string): Option<Entry> {
    if actual == [] then None else if actual[0].id == id then Some(actual[0]) else Find(actual[1..], id)
  }

  function ExpectedStatus(c: Contract, ciStatus: string, allowSuperseded: bool): Status {
    if allowSuperseded && IsSuperseded(c) then Superseded
    else if CI_RECEIPT in c.requiredProviderIds && ciStatus != "passed" then Blocked
    else Passed
  }

  /** The body of the loop of assertResults, for one contract. */
  function CheckOne(actual: seq<Entry>, c: Contract, ciStatus: string, allowSuperseded: bool): Option<ResultError> {
    match Find(actual, c.id)
    case None => Some(ResultMissing(c.id))
    case Some(result) =>
      var expected := ExpectedStatus(c, ciStatus, allowSuperseded);
      if !ExactIds(result.evidenceProviderIds, c.requiredProviderIds) then Some(ProviderMismatch(c.id))
      else if result.status != expected then Some(StatusInvalid(c.id))
      else if expected.Superseded? then
        if result.supersededReason != Some(SUPERSEDED_REASON) || result.successorContract != Some(SUCCESSOR)
        then Some(SupersessionInvalid(c.id)) else None
      else if result.supersededReason.Some? || result.successorContract.Some? then Some(UnexpectedSupersession(c.id))
      else None
  }

  function CheckAll(actual: seq<Entry>, contracts: seq<Contract>, ciStatus: string, allowSuperseded: bool)
      : Option<ResultError>
  {
    if contracts == [] then None
    else match CheckOne(actual, contracts[0], ciStatus, allowSuperseded)
         case Some(e) => Some(e)
         case None => CheckAll(actual, contracts[1..], ciStatus, allowSuperseded)
  }

  /** `assertResults`: the error thrown, if any. */
  function AssertResults(actual: seq<Entry>, expected: seq<Contract>, ciStatus: string, allowSuperseded: bool)
      : Option<ResultError>
  {
    if !ExactIds(IdsOf(actual), ContractIds(expected)) then Some(ResultSetMismatch)
    else CheckAll(actual, expected, ciStatus, allowSuperseded)
  }

  // ----- ExactIds is equality with a duplicate-free list

  lemma {:induction false} UniqueShortens(s: seq<string>)
    ensures |Unique(s)| <= |s|
    ensures |Unique(s)| == |s| <==> Distinct(s)
  {
    if s == [] {
    } else {
      var front, x := s[..|s| - 1], s[|s| - 1];
      UniqueShortens(front);
      assert s == front + [x];
      if Distinct(s) {
        assert forall i :: 0 <= i < |front| ==> front[i] == s[i];
        assert x !in front;
      } else if Distinct(front) {
        assert x in front;
      }
    }
  }

  lemma ExactIdsExactly(actual: seq<string>, expected: seq<string>)
    ensures ExactIds(actual, expected) <==> actual == expected && Distinct(expected)
  {
    UniqueShortens(actual);
  }

  // ----- the two agree

  /** Contracts that a verifier can be satisfied on: ids differ, providers differ within each. */
  ghost predicate Checkable(contracts: seq<Contract>) {
    && Distinct(ContractIds(contracts))
    && forall i :: 0 <= i < |contracts| ==> Distinct(contracts[i].requiredProviderIds)
  }

  /** What assertResults wants to see: the producer's entry, but supersession only if allowed. */
  function WantedEntry(c: Contract, ciStatus: string, allowSuperseded: bool): Entry {
    ResultEntry(if allowSuperseded then c else c.(disposition := None), ciStatus)
  }

  lemma {:induction false} FindAt(actual: seq<Entry>, i: nat)
    requires i < |actual| && Distinct(IdsOf(actual))
    ensures Find(actual, actual[i].id) == Some(actual[i])
  {
    if i == 0 {
    } else {
      var ids := IdsOf(actual);
      assert ids[0] != ids[i];
      assert IdsOf(actual[1..]) == ids[1..];
      FindAt(actual[1..], i - 1);
    }
  }

  lemma CheckOneExactly(actual: seq<Entry>, c: Contract, ciStatus: string, allowSuperseded: bool, e: Entry)
    requires Find(actual, c.id) == Some(e) && e.id == c.id
    ensures CheckOne(actual, c, ciStatus, allowSuperseded).None? <==>
            e == WantedEntry(c, ciStatus, allowSuperseded) && Distinct(c.requiredProviderIds)
  {
    ExactIdsExactly(e.evidenceProviderIds, c.requiredProviderIds);
  }

  lemma {:induction false} CheckAllExactly(actual: seq<Entry>, contracts: seq<Contract>, ciStatus: string,
                                           allowSuperseded: bool)
    ensures CheckAll(actual, contracts, ciStatus, allowSuperseded).None? <==>
            forall i :: 0 <= i < |contracts| ==> CheckOne(actual, contracts[i], ciStatus, allowSuperseded).None?
  {
    if contracts == [] {
    } else {
      CheckAllExactly(actual, contracts[1..], ciStatus, allowSuperseded);
      assert forall i :: 1 <= i < |contracts| ==> contracts[i] == contracts[1..][i - 1];
      if forall i :: 0 <= i < |contracts| ==> CheckOne(actual, contracts[i], ciStatus, allowSuperseded).None? {
        forall i | 0 <= i < |contracts[1..]|
          ensures CheckOne(actual, contracts[1..][i], ciStatus, allowSuperseded).None?
        {
          assert contracts[1..][i] == contracts[i + 1];
        }
      }
    }
  }

  /** The result lists that assertResults accepts: exactly one for checkable contracts, none for
      others. */
  lemma AcceptedResults(actual: seq<Entry>, contracts: seq<Contract>, ciStatus: string, allowSuperseded: bool)
    ensures AssertResults(actual, contracts, ciStatus, allowSuperseded).None? <==>
            && Checkable(contracts) && |actual| == |contracts|
            && forall i :: 0 <= i < |actual| ==> actual[i] == WantedEntry(contracts[i], ciStatus, allowSuperseded)
  {
    var ids, wanted := IdsOf(actual), ContractIds(contracts);
    ExactIdsExactly(ids, wanted);
    CheckAllExactly(actual, contracts, ciStatus, allowSuperseded);
    if ids == wanted && Distinct(wanted) {
      forall i | 0 <= i < |actual|
        ensures CheckOne(actual, contracts[i], ciStatus, allowSuperseded).None? <==>
                && actual[i] == WantedEntry(contracts[i], ciStatus, allowSuperseded)
                && Distinct(contracts[i].requiredProviderIds)
      {
        assert actual[i].id == ids[i] == wanted[i] == contracts[i].id;
        FindAt(actual, i);
        CheckOneExactly(actual, contracts[i], ciStatus, allowSuperseded, actual[i]);
      }
    } else if && |actual| == |contracts|
              && forall i :: 0 <= i < |actual| ==> actual[i] == WantedEntry(contracts[i], ciStatus, allowSuperseded) {
      assert ids == wanted;
    }
  }

  /** The verifier accepts what the producer writes, and nothing else, exactly when the contracts
      are checkable and supersede only where that is allowed. */
  lemma VerifierAcceptsProducer(contracts: seq<Contract>, ciStatus: string, allowSuperseded: bool)
    ensures (forall actual :: AssertResults(actual, contracts, ciStatus, allowSuperseded).None? <==>
                              actual == ResultEntries(contracts, ciStatus))
       <==> && Checkable(contracts)
            && (allowSuperseded || forall i :: 0 <= i < |contracts| ==> !IsSuperseded(contracts[i]))
  {
    var produced := ResultEntries(contracts, ciStatus);
    AcceptedResults(produced, contracts, ciStatus, allowSuperseded);
    if Checkable(contracts) && (allowSuperseded || forall i :: 0 <= i < |contracts| ==> !IsSuperseded(contracts[i])) {
      forall i | 0 <= i < |contracts|
        ensures WantedEntry(contracts[i], ciStatus, allowSuperseded) == ResultEntry(contracts[i], ciStatus) {}
      forall actual ensures AssertResults(actual, contracts, ciStatus, allowSuperseded).None? <==> actual == produced {
        AcceptedResults(actual, contracts, ciStatus, allowSuperseded);
      }
    } else if Checkable(contracts) {
      var i :| 0 <= i < |contracts| && IsSuperseded(contracts[i]);
      assert produced[i].status.Superseded?;
      assert !WantedEntry(contracts[i], ciStatus, allowSuperseded).status.Superseded?;
    }
  }
}
