/** parseLcov of scripts/repository-coverage-measurement.ts on the text of an lcov file: how the two
    regular expressions and the separator cut it into records, and that a printed file is read back. */
module LcovText {
  import opened Naturals
  import opened Wrappers
  import opened Lists
  import opened Segments
  import opened Decimals
  import opened Coverage

  const END: string := "end_of_record"

  // ----- `input.split(separator)`

  /** Where sep occurs first. */
  function FirstAt(s: string, sep: string): (r: Option<nat>)
    ensures r.Some? ==> r.value + |sep| <= |s|
  {
    if sep <= s then Some(0)
    else if s == "" then None
    else match FirstAt(s[1..], sep) case None => None case Some(k) => Some(k + 1)
  }

  function SplitOn(s: string, sep: string): seq<string>
    requires sep != ""
    decreases |s|
  {
    match FirstAt(s, sep)
    case None => [s]
    case Some(k) => [s[..k]] + SplitOn(s[k + |sep|..], sep)
  }

  // ----- the regular expressions, line by line: with the flag m, ^ and $ match at line terminators

  predicate Terminator(c: char) { c == '\n' || c == '\r' || c == '\U{2028}' || c == '\U{2029}' }

  function Lines(s: string): (r: seq<string>)
    ensures |r| > 0
  {
    if s == "" then [""]
    else
      var rest := Lines(s[1..]);
      if Terminator(s[0]) then [""] + rest else [[s[0]] + rest[0]] + rest[1..]
  }

  /** `/^SF:(.+)$/m`: what follows the mark in the first line that has it and goes on. */
  function SourceOf(lines: seq<string>): Option<string> {
    if lines == [] then None
    else if "SF:" <= lines[0] && |lines[0]| > 3 then Some(lines[0][3..])
    else SourceOf(lines[1..])
  }

  function Digits(s: string): (n: nat)
    ensures n <= |s| && AllDigits(s[..n]) && (n < |s| ==> !IsDigit(s[n]))
  {
    if s == "" || !IsDigit(s[0]) then 0
    else
      assert s[..Digits(s[1..]) + 1] == [s[0]] + s[1..][..Digits(s[1..])];
      Digits(s[1..]) + 1
  }

  /** `/^DA:\d+,(\d+)/gm` matches a line at most once. */
  function CountOf(line: string): Option<nat> {
    if !("DA:" <= line) then None
    else
      var n := Digits(line[3..]);
      if n == 0 || 3 + n >= |line| || line[3 + n] != ',' then None
      else
        var count := line[4 + n..];
        if Digits(count) == 0 then None else Some(Number(count[..Digits(count)]))
  }

  function CountsOf(lines: seq<string>): seq<nat> {
    if lines == [] then []
    else (match CountOf(lines[0]) case None => [] case Some(n) => [n]) + CountsOf(lines[1..])
  }

  function RecordOf(text: string): Record { Record(SourceOf(Lines(text)), CountsOf(Lines(text))) }

  function Records(input: string): seq<Record> { Each(RecordOf, SplitOn(input, END)) }

  method ParseLcov(relative: string -> string, input: string) returns (result: CoverageMap)
    ensures result == LcovOf(relative, Records(input))
  {
    result := map[];
    var texts := SplitOn(input, END);
    ghost var records := Records(input);
    EachAt(RecordOf, texts);
    for k := 0 to |texts|
      invariant result == LcovOf(relative, records[..k])
    {
      LcovNext(relative, records, k);
      MergeNothing(result);
      ghost var before := result;
      var source := SourceOf(Lines(texts[k]));
      if source.None? || source.value == "" { continue; }
      var lines := CountsOf(Lines(texts[k]));
      if lines == [] { continue; }
      var hits := HitLines(lines);
      var file := relative(source.value);
      var previous := Get(result, file);
      result := result[file := LineCoverage(Max(previous.hit, hits), Max(previous.total, |lines|))];
      MergeOne(before, file, LineCoverage(hits, |lines|));
    }
    assert records[..|records|] == records;
  }

  /** `lines.filter((count) => count > 0).length` */
  method HitLines(lines: seq<nat>) returns (hits: nat)
    ensures hits == Hits(lines)
  {
    hits := 0;
    for j := 0 to |lines|
      invariant hits == Hits(lines[..j])
    {
      assert lines[..j + 1][..j] == lines[..j];
      if lines[j] > 0 { hits := hits + 1; }
    }
    assert lines[..|lines|] == lines;
  }

  // ----- a printed file

  datatype Line = Data(number: nat, count: nat) | Other(text: string)
  datatype Item = Item(path: string, lines: seq<Line>)

  predicate Contains(s: string, sep: string) { exists k :: 0 <= k <= |s| && sep <= s[k..] }

  /** One line of a file: without line terminators and without the separator. */
  predicate OneLine(s: string) {
    (forall i :: 0 <= i < |s| ==> !Terminator(s[i])) && !Contains(s, END)
  }

  predicate LineOk(l: Line) { l.Other? ==> OneLine(l.text) && CountOf(l.text).None? }

  predicate ItemOk(item: Item) {
    && item.path != "" && OneLine("SF:" + item.path)
    && forall i :: 0 <= i < |item.lines| ==> LineOk(item.lines[i])
  }

  function Show(l: Line): string {
    match l
    case Data(number, count) => "DA:" + (Decimal(number) + ("," + Decimal(count)))
    case Other(text) => text
  }

  function ItemLines(item: Item): seq<string> { ["SF:" + item.path] + Each(Show, item.lines) }

  /** `SF:` and the path, the other lines, and the end mark, each on a line of its own. */
  function Print(items: seq<Item>): string {
    if items == [] then ""
    else Terminated(ItemLines(items[0]), '\n') + (END + ("\n" + Print(items[1..])))
  }

  function CountIn(l: Line): Option<nat> {
    match l case Data(_, count) => Some(count) case Other(_) => None
  }

  function CountsIn(lines: seq<Line>): seq<nat> {
    if lines == [] then []
    else (match CountIn(lines[0]) case None => [] case Some(n) => [n]) + CountsIn(lines[1..])
  }

  function ItemRecord(item: Item): Record { Record(Some(item.path), CountsIn(item.lines)) }

  // ----- finding the end marks

  lemma PrefixCases(sep: string, line: string, t: string)
    requires sep <= line + ("\n" + t)
    ensures sep <= line || (|line| < |sep| && sep[|line|] == '\n')
  {
    var s := line + ("\n" + t);
    if |line| < |sep| {
      assert sep[|line|] == s[|line|];
    } else {
      assert s[..|sep|] == line[..|sep|];
    }
  }

  /** No occurrence of the end mark begins in a line that does not contain it. */
  lemma NotAcross(line: string, t: string)
    requires OneLine(line)
    ensures !(END <= line + ("\n" + t))
  {
    assert line[0..] == line;
    if END <= line + ("\n" + t) { PrefixCases(END, line, t); }
  }

  lemma OneLineRest(line: string)
    requires OneLine(line) && line != ""
    ensures OneLine(line[1..])
  {
    forall k | 0 <= k <= |line[1..]| ensures line[1..][k..] == line[k + 1..] {}
  }

  lemma {:induction false} SkipLine(line: string, t: string)
    requires OneLine(line)
    ensures FirstAt(line + ("\n" + t), END) ==
            match FirstAt(t, END) case None => None case Some(k) => Some(k + |line| + 1)
    decreases |line|
  {
    var s := line + ("\n" + t);
    NotAcross(line, t);
    if line == "" {
      assert s[1..] == t;
    } else {
      assert s[1..] == line[1..] + ("\n" + t);
      OneLineRest(line);
      SkipLine(line[1..], t);
    }
  }

  lemma {:induction false} EndAfterLines(lines: seq<string>, rest: string)
    requires forall i :: 0 <= i < |lines| ==> OneLine(lines[i])
    ensures FirstAt(Terminated(lines, '\n') + (END + rest), END) == Some(|Terminated(lines, '\n')|)
  {
    if lines == [] {
      assert "" + (END + rest) == END + rest;
    } else {
      var more := Terminated(lines[1..], '\n') + (END + rest);
      assert Terminated(lines, '\n') + (END + rest) == lines[0] + ("\n" + more);
      EndAfterLines(lines[1..], rest);
      SkipLine(lines[0], more);
    }
  }

  // ----- reading the lines back

  predicate NoTerminator(s: string) { forall i :: 0 <= i < |s| ==> !Terminator(s[i]) }

  lemma {:induction false} LinesOfOne(line: string, t: string)
    requires NoTerminator(line)
    ensures Lines(line + ("\n" + t)) == [line] + Lines(t)
  {
    var s := line + ("\n" + t);
    if line == "" {
      assert s[1..] == t;
    } else {
      assert s[0] == line[0] && s[1..] == line[1..] + ("\n" + t);
      LinesOfOne(line[1..], t);
      assert [line[0]] + line[1..] == line;
      assert ([line[1..]] + Lines(t))[1..] == Lines(t);
    }
  }

  lemma {:induction false} LinesOfTerminated(lines: seq<string>)
    requires forall i :: 0 <= i < |lines| ==> NoTerminator(lines[i])
    ensures Lines(Terminated(lines, '\n')) == lines + [""]
  {
    if lines == [] {
    } else {
      LinesOfTerminated(lines[1..]);
      LinesOfOne(lines[0], Terminated(lines[1..], '\n'));
      assert [lines[0]] + (lines[1..] + [""]) == lines + [""];
    }
  }

  lemma {:induction false} DigitsOf(digits: string, rest: string)
    requires AllDigits(digits) && (rest == "" || !IsDigit(rest[0]))
    ensures Digits(digits + rest) == |digits|
  {
    var s := digits + rest;
    if digits == "" {
      assert s == rest;
    } else {
      assert s[0] == digits[0] && IsDigit(digits[0]) && s[1..] == digits[1..] + rest;
      assert forall i :: 0 <= i < |digits[1..]| ==> digits[1..][i] == digits[i + 1];
      DigitsOf(digits[1..], rest);
    }
  }

  lemma DataParts(d: string, c: string)
    ensures var line := "DA:" + (d + ("," + c));
            && "DA:" <= line && line[3..] == d + ("," + c)
            && |line| == 4 + |d| + |c| && line[3 + |d|] == ',' && line[4 + |d|..] == c
  {}

  lemma DigitsOfAll(digits: string)
    requires AllDigits(digits)
    ensures Digits(digits) == |digits| && digits[..|digits|] == digits
  {
    assert digits + "" == digits;
    DigitsOf(digits, "");
  }

  lemma CountOfData(number: nat, count: nat)
    ensures CountOf(Show(Data(number, count))) == Some(count)
  {
    var d, c := Decimal(number), Decimal(count);
    DecimalDigits(number);
    DecimalDigits(count);
    DataParts(d, c);
    DigitsOf(d, "," + c);
    DigitsOfAll(c);
  }

  lemma CountOfShown(l: Line)
    requires LineOk(l)
    ensures CountOf(Show(l)) == CountIn(l)
  {
    if l.Data? { CountOfData(l.number, l.count); }
  }

  lemma CountsOfFirst(line: string, lines: seq<string>)
    ensures CountsOf([line] + lines) == (match CountOf(line) case None => [] case Some(n) => [n]) + CountsOf(lines)
  {
    assert ([line] + lines)[1..] == lines;
  }

  lemma {:induction false} CountsPrinted(lines: seq<Line>)
    requires forall i :: 0 <= i < |lines| ==> LineOk(lines[i])
    ensures CountsOf(Each(Show, lines) + [""]) == CountsIn(lines)
  {
    if lines == [] {
      assert [] + [""] == [""] && [""][1..] == [];
    } else {
      var more := Each(Show, lines[1..]) + [""];
      CountsPrinted(lines[1..]);
      CountOfShown(lines[0]);
      CountsOfFirst(Show(lines[0]), more);
      assert Each(Show, lines) + [""] == [Show(lines[0])] + more;
    }
  }

  lemma ShownOneLine(l: Line)
    requires LineOk(l)
    ensures OneLine(Show(l))
  {
    if l.Data? {
      var s := Show(l);
      DecimalDigits(l.number);
      DecimalDigits(l.count);
      forall i | 0 <= i < |s| ensures s[i] != 'e' && !Terminator(s[i]) {
        DataChar(l, i);
      }
      forall k | 0 <= k <= |s| ensures !(END <= s[k..]) {
        NoEndWithoutE(s[k..]);
        assert k < |s| ==> s[k..][0] == s[k];
      }
    }
  }

  lemma NoEndWithoutE(s: string)
    requires s == "" || s[0] != 'e'
    ensures !(END <= s)
  {
    assert END[0] == 'e';
  }

  lemma DataChar(l: Line, i: nat)
    requires l.Data? && i < |Show(l)|
    ensures Show(l)[i] in "DA:," || IsDigit(Show(l)[i])
  {
    var d, c := Decimal(l.number), Decimal(l.count);
    DecimalDigits(l.number);
    DecimalDigits(l.count);
    var s := Show(l);
    if 3 <= i < 3 + |d| {
      assert s[i] == d[i - 3];
    } else if i > 3 + |d| {
      assert s[i] == c[i - 4 - |d|];
    }
  }

  // ----- the round trip

  /** The lines of one record; after an end mark the record begins with the rest of that line. */
  function RecordLines(lead: bool, item: Item): seq<string> {
    (if lead then [""] else []) + ItemLines(item)
  }

  lemma RecordLinesOk(lead: bool, item: Item)
    requires ItemOk(item)
    ensures forall i :: 0 <= i < |RecordLines(lead, item)| ==> OneLine(RecordLines(lead, item)[i])
  {
    var lines := RecordLines(lead, item);
    EachAt(Show, item.lines);
    forall i | 0 <= i < |item.lines| ensures OneLine(Each(Show, item.lines)[i]) { ShownOneLine(item.lines[i]); }
    NoEndWithoutE("");
    assert OneLine("");
  }

  lemma ReadRecord(lead: bool, item: Item)
    requires ItemOk(item)
    ensures RecordOf(Terminated(RecordLines(lead, item), '\n')) == ItemRecord(item)
  {
    var lines := RecordLines(lead, item);
    RecordLinesOk(lead, item);
    LinesOfTerminated(lines);
    ReadItem(item);
    if lead {
      ReadBlank(ItemLines(item) + [""]);
      assert lines + [""] == [""] + (ItemLines(item) + [""]);
    } else {
      assert lines == ItemLines(item);
    }
  }

  lemma ReadBlank(lines: seq<string>)
    ensures SourceOf([""] + lines) == SourceOf(lines) && CountsOf([""] + lines) == CountsOf(lines)
  {
    assert ([""] + lines)[1..] == lines;
    assert [] + CountsOf(lines) == CountsOf(lines);
  }

  lemma ReadItem(item: Item)
    requires ItemOk(item)
    ensures SourceOf(ItemLines(item) + [""]) == Some(item.path)
    ensures CountsOf(ItemLines(item) + [""]) == CountsIn(item.lines)
  {
    var all := ItemLines(item) + [""];
    assert all[0][3..] == item.path && all[1..] == Each(Show, item.lines) + [""];
    CountsPrinted(item.lines);
    assert all[0][0] == 'S';
  }

  lemma NoEndLeft(lead: bool)
    ensures var s := if lead then "\n" else ""; SplitOn(s, END) == [s] && RecordOf(s) == Record(None, [])
  {
    var s := if lead then "\n" else "";
    NoEndWithoutE(s);
    NoEndWithoutE("");
    if lead {
      assert s[1..] == "";
      assert Lines(s) == ["", ""];
      assert ["", ""][1..] == [""] && [""][1..] == [];
    } else {
      assert Lines(s) == [""] && [""][1..] == [];
    }
  }

  lemma SplitFirst(lead: bool, item: Item, rest: string)
    requires ItemOk(item)
    ensures var body := Terminated(RecordLines(lead, item), '\n');
            SplitOn(body + (END + rest), END) == [body] + SplitOn(rest, END)
  {
    var body := Terminated(RecordLines(lead, item), '\n');
    RecordLinesOk(lead, item);
    EndAfterLines(RecordLines(lead, item), rest);
    SplitAround(body, END, rest);
  }

  lemma SplitAround(a: string, sep: string, b: string)
    requires sep != "" && FirstAt(a + (sep + b), sep) == Some(|a|)
    ensures SplitOn(a + (sep + b), sep) == [a] + SplitOn(b, sep)
  {
    var s := a + (sep + b);
    assert s[..|a|] == a && s[|a| + |sep|..] == b;
  }

  lemma LeadText(lead: bool, item: Item, more: string)
    ensures (if lead then "\n" else "") + (Terminated(ItemLines(item), '\n') + more)
         == Terminated(RecordLines(lead, item), '\n') + more
  {
    if lead {
      assert RecordLines(lead, item)[1..] == ItemLines(item);
    } else {
      assert RecordLines(lead, item) == ItemLines(item);
    }
  }

  lemma {:induction false} RecordsPrinted(lead: bool, items: seq<Item>)
    requires forall i :: 0 <= i < |items| ==> ItemOk(items[i])
    ensures Records((if lead then "\n" else "") + Print(items)) == Each(ItemRecord, items) + [Record(None, [])]
    decreases |items|
  {
    var before := if lead then "\n" else "";
    if items == [] {
      assert before + Print(items) == before;
      NoEndLeft(lead);
      EachOne(RecordOf, before);
    } else {
      var body, rest := Terminated(RecordLines(lead, items[0]), '\n'), "\n" + Print(items[1..]);
      LeadText(lead, items[0], END + rest);
      SplitFirst(lead, items[0], rest);
      RecordsPrinted(true, items[1..]);
      EachAppend(RecordOf, [body], SplitOn(rest, END));
      EachOne(RecordOf, body);
      ReadRecord(lead, items[0]);
      assert Each(ItemRecord, items) == [ItemRecord(items[0])] + Each(ItemRecord, items[1..]);
      Concat3([ItemRecord(items[0])], Each(ItemRecord, items[1..]), [Record(None, [])]);
    }
  }

  /** What is read from a printed file is what its records measure: nothing is lost, added or
      assigned to another file. */
  lemma PrintThenParse(relative: string -> string, items: seq<Item>)
    requires forall i :: 0 <= i < |items| ==> ItemOk(items[i])
    ensures LcovOf(relative, Records(Print(items))) == LcovOf(relative, Each(ItemRecord, items))
  {
    RecordsPrinted(false, items);
    assert "" + Print(items) == Print(items);
    UncountedRecord(relative, Each(ItemRecord, items), Record(None, []));
  }

  lemma UncountedRecord(relative: string -> string, records: seq<Record>, r: Record)
    requires !Counted(r)
    ensures LcovOf(relative, records + [r]) == LcovOf(relative, records)
  {
    var all, n := records + [r], |records|;
    LcovNext(relative, all, n);
    assert all[..n] == records && all[..n + 1] == all;
    MergeNothing(LcovOf(relative, records));
  }
}
