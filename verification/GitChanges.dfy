/** parseGitNameStatusZ and normalizeRepositoryPath of scripts/check-scanner-hardening-closeout-scope.ts:
    the NUL-delimited output of `git diff --name-status -z`. */
module GitChanges {
  import opened Wrappers
  import opened Lists
  import opened Segments
  import opened Decimals

  datatype Status = Added | Modified | Deleted
  datatype GitChange =
    | Changed(status: Status, path: string)
    | Renamed(previousPath: string, path: string, similarity: nat)

  datatype GitError = StatusMissing | PathMissing | RenamePathMissing | StatusUnsupported(raw: string) | PathInvalid

  const NUL: char := '\0'

  // ----- paths

  function Slashes(s: string): (r: string)
    ensures |r| == |s| && forall i :: 0 <= i < |r| ==> r[i] == if s[i] == '\\' then '/' else s[i]
  {
    if s == "" then "" else [if s[0] == '\\' then '/' else s[0]] + Slashes(s[1..])
  }

  predicate SegmentsOk(segments: seq<string>) {
    forall i :: 0 <= i < |segments| ==> segments[i] != "" && segments[i] != ".."
  }

  function NormalizePath(value: string): Result<string, GitError> {
    var normalized := Slashes(value);
    if "/" <= normalized || !SegmentsOk(Split(normalized, '/')) then Err(PathInvalid) else Ok(normalized)
  }

  /** A repository path: no backslash, no NUL, and no empty or parent segment. */
  predicate CleanPath(p: string) {
    Free(p, '\\') && Free(p, NUL) && SegmentsOk(Split(p, '/'))
  }

  lemma LeadingSlash(p: string)
    ensures p == "" || "/" <= p ==> !SegmentsOk(Split(p, '/'))
  {
    if p == "" || "/" <= p { assert Split(p, '/')[0] == ""; }
  }

  lemma NormalizeClean(p: string)
    ensures p != "" && NormalizePath(p) == Ok(p) && Free(p, NUL) <==> CleanPath(p)
  {
    LeadingSlash(p);
    if Free(p, '\\') { assert Slashes(p) == p; }
    if NormalizePath(p) == Ok(p) {
      forall i | 0 <= i < |p| ensures p[i] != '\\' { assert Slashes(p)[i] == p[i]; }
    }
  }

  lemma NormalizedIsClean(value: string)
    requires Free(value, NUL) && NormalizePath(value).Ok?
    ensures CleanPath(NormalizePath(value).value)
  {
    var p := NormalizePath(value).value;
    forall i | 0 <= i < |p| ensures p[i] != '\\' && p[i] != NUL {
      assert p[i] == if value[i] == '\\' then '/' else value[i];
    }
  }

  // ----- status fields

  function StatusOf(raw: string): Option<Status> {
    if raw == "A" then Some(Added)
    else if raw == "M" then Some(Modified)
    else if raw == "D" then Some(Deleted)
    else None
  }

  function Letter(s: Status): string {
    match s case Added => "A" case Modified => "M" case Deleted => "D"
  }

  /** `/^R(\d{1,3})$/`: the similarity of a rename status. */
  function RenameOf(raw: string): Option<nat> {
    if 2 <= |raw| <= 4 && raw[0] == 'R' && AllDigits(raw[1..]) then Some(Number(raw[1..]))
    else None
  }

  /** The status git prints for a rename: R and three digits. */
  function RenameStatus(n: nat): (r: string)
    requires n < 1000
    ensures RenameOf(r) == Some(n) && StatusOf(r).None? && Free(r, NUL)
  {
    var d := [Digit(n / 100), Digit(n / 10 % 10), Digit(n % 10)];
    assert d[..2] == [d[0], d[1]] && d[..2][..1] == [d[0]] && d[..1][..0] == "";
    assert Number(d[..1]) == n / 100 && Number(d[..2]) == n / 10;
    assert (['R'] + d)[1..] == d;
    ['R'] + d
  }

  // ----- parsing

  type Changes = Result<seq<GitChange>, GitError>

  /** The change that the first fields describe, and how many fields it takes. */
  function FirstChange(fields: seq<string>): Result<(GitChange, nat), GitError>
    requires fields != []
    ensures FirstChange(fields).Ok? ==> 2 <= FirstChange(fields).value.1 <= |fields|
  {
    var raw := fields[0];
    if raw == "" then Err(StatusMissing)
    else if StatusOf(raw).Some? then
      if |fields| < 2 || fields[1] == "" then Err(PathMissing)
      else
        var path :- NormalizePath(fields[1]);
        Ok((Changed(StatusOf(raw).value, path), 2))
    else if RenameOf(raw).Some? then
      if |fields| < 3 || fields[1] == "" || fields[2] == "" then Err(RenamePathMissing)
      else
        var previous :- NormalizePath(fields[1]);
        var path :- NormalizePath(fields[2]);
        Ok((Renamed(previous, path, RenameOf(raw).value), 3))
    else Err(StatusUnsupported(raw))
  }

  function ParseFields(fields: seq<string>): Changes {
    if fields == [] then Ok([])
    else
      var (change, n) :- FirstChange(fields);
      Prepend([change], ParseFields(fields[n..]))
  }

  function WithoutLastEmpty(fields: seq<string>): seq<string> {
    if fields != [] && fields[|fields| - 1] == "" then fields[..|fields| - 1] else fields
  }

  function Parse(output: string): Changes { ParseFields(WithoutLastEmpty(Split(output, NUL))) }

  /** parseGitNameStatusZ, with its index and its growing list. */
  method ParseGitNameStatusZ(output: string) returns (r: Changes)
    ensures r == Parse(output)
  {
    var fields := WithoutLastEmpty(Split(output, NUL));
    var changes: seq<GitChange> := [];
    var index := 0;
    PrependNothing(ParseFields(fields));
    assert fields[0..] == fields;
    while index < |fields|
      invariant index <= |fields|
      invariant Prepend(changes, ParseFields(fields[index..])) == ParseFields(fields)
    {
      ghost var rest := fields[index..];
      assert forall k :: 0 <= k < |rest| ==> rest[k] == fields[index + k];
      ghost var done := changes;
      var rawStatus := fields[index];
      index := index + 1;
      if rawStatus == "" {
        return Err(StatusMissing);
      }
      var status := StatusOf(rawStatus);
      if status.Some? {
        if index >= |fields| || fields[index] == "" {
          return Err(PathMissing);
        }
        var path := NormalizePath(fields[index]);
        index := index + 1;
        if path.Err? {
          return Err(path.error);
        }
        changes := changes + [Changed(status.value, path.value)];
        assert rest[2..] == fields[index..];
        PrependTwice(done, [Changed(status.value, path.value)], ParseFields(fields[index..]));
        continue;
      }
      var similarity := RenameOf(rawStatus);
      if similarity.Some? {
        if index + 1 >= |fields| || fields[index] == "" || fields[index + 1] == "" {
          return Err(RenamePathMissing);
        }
        var previous, path := NormalizePath(fields[index]), NormalizePath(fields[index + 1]);
        index := index + 2;
        if previous.Err? {
          return Err(previous.error);
        }
        if path.Err? {
          return Err(path.error);
        }
        changes := changes + [Renamed(previous.value, path.value, similarity.value)];
        assert rest[3..] == fields[index..];
        PrependTwice(done, [Renamed(previous.value, path.value, similarity.value)], ParseFields(fields[index..]));
        continue;
      }
      return Err(StatusUnsupported(rawStatus));
    }
    assert fields[index..] == [] && changes + [] == changes;
    return Ok(changes);
  }

  // ----- printing, as git does

  predicate CleanChange(c: GitChange) {
    match c
    case Changed(_, path) => CleanPath(path)
    case Renamed(previous, path, n) => CleanPath(previous) && CleanPath(path) && n < 1000
  }

  predicate CleanChanges(cs: seq<GitChange>) { forall i :: 0 <= i < |cs| ==> CleanChange(cs[i]) }

  function FieldsOf(c: GitChange): seq<string>
    requires CleanChange(c)
  {
    match c
    case Changed(status, path) => [Letter(status), path]
    case Renamed(previous, path, n) => [RenameStatus(n), previous, path]
  }

  function AllFields(cs: seq<GitChange>): seq<string>
    requires CleanChanges(cs)
  {
    if cs == [] then [] else FieldsOf(cs[0]) + AllFields(cs[1..])
  }

  function Print(cs: seq<GitChange>): string
    requires CleanChanges(cs)
  {
    Terminated(AllFields(cs), NUL)
  }

  lemma {:induction false} AllFieldsFree(cs: seq<GitChange>)
    requires CleanChanges(cs)
    ensures forall i :: 0 <= i < |AllFields(cs)| ==> Free(AllFields(cs)[i], NUL)
  {
    if cs == [] {
    } else {
      AllFieldsFree(cs[1..]);
    }
  }

  lemma FirstPrinted(c: GitChange, more: seq<string>)
    requires CleanChange(c)
    ensures FieldsOf(c) + more != []
    ensures FirstChange(FieldsOf(c) + more) == Ok((c, |FieldsOf(c)|))
  {
    match c {
      case Changed(_, path) => NormalizeClean(path);
      case Renamed(previous, path, n) => NormalizeClean(previous); NormalizeClean(path);
    }
  }

  lemma {:induction false} ParsePrintedFields(cs: seq<GitChange>)
    requires CleanChanges(cs)
    ensures ParseFields(AllFields(cs)) == Ok(cs)
  {
    if cs == [] {
    } else {
      var more := AllFields(cs[1..]);
      FirstPrinted(cs[0], more);
      assert (FieldsOf(cs[0]) + more)[|FieldsOf(cs[0])|..] == more;
      ParsePrintedFields(cs[1..]);
      assert [cs[0]] + cs[1..] == cs;
    }
  }

  /** Printing then parsing gives back every list of clean changes. */
  lemma PrintThenParse(cs: seq<GitChange>)
    requires CleanChanges(cs)
    ensures Parse(Print(cs)) == Ok(cs)
  {
    var fields := AllFields(cs);
    AllFieldsFree(cs);
    SplitTerminated(fields, NUL);
    assert WithoutLastEmpty(fields + [""]) == fields;
    ParsePrintedFields(cs);
  }

  lemma {:induction false} NumberBound(digits: string)
    requires AllDigits(digits)
    requires |digits| <= 3
    ensures Number(digits) <
            if |digits| == 0 then 1 else if |digits| == 1 then 10 else if |digits| == 2 then 100 else 1000
  {
    if digits == "" {
    } else {
      NumberBound(digits[..|digits| - 1]);
    }
  }

  lemma {:induction false} ParsedFieldsClean(fields: seq<string>)
    requires forall i :: 0 <= i < |fields| ==> Free(fields[i], NUL)
    ensures ParseFields(fields).Ok? ==> CleanChanges(ParseFields(fields).value)
  {
    if fields == [] || ParseFields(fields).Err? {
    } else {
      var (change, n) := FirstChange(fields).value;
      NormalizedIsClean(fields[1]);
      if change.Renamed? {
        NormalizedIsClean(fields[2]);
        NumberBound(fields[0][1..]);
      }
      ParsedFieldsClean(fields[n..]);
    }
  }

  /** Whatever the output, what is parsed from it is clean, and printing it loses nothing. */
  lemma ParsedChangesAreClean(output: string)
    requires Parse(output).Ok?
    ensures CleanChanges(Parse(output).value)
    ensures Parse(Print(Parse(output).value)) == Parse(output)
  {
    SegmentsFree(output, NUL);
    var fields := WithoutLastEmpty(Split(output, NUL));
    ParsedFieldsClean(fields);
    PrintThenParse(Parse(output).value);
  }
}
