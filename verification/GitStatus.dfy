/** parseGitStatusPorcelain of scripts/phase-54-baseline-lib.ts: the paths named by the NUL-delimited
    output of `git status --porcelain=v1 -z`. */
module GitStatus {
  import opened Wrappers
  import opened Sorting
  import opened Lists
  import opened Segments

  datatype StatusError = MissingTerminator | EntryInvalid | RenameSourceMissing | UnsafePath

  const NUL: char := '\0'

  predicate IsLetter(c: char) { 'a' <= c <= 'z' || 'A' <= c <= 'Z' }

  /** A path that normalizeRepositoryPath of this file lets through, unchanged. */
  predicate SafePath(p: string) {
    && Free(p, '\\') && Free(p, NUL) && !("/" <= p)
    && !(|p| >= 3 && IsLetter(p[0]) && p[1] == ':' && p[2] == '/')
    && forall i :: 0 <= i < |Split(p, '/')| ==> Split(p, '/')[i] !in ["", ".", ".."]
  }

  predicate StatusChar(c: char) { c in " MTADRCU?!" }

  predicate EntryOk(entry: string) {
    |entry| >= 4 && entry[2] == ' ' && StatusChar(entry[0]) && StatusChar(entry[1])
  }

  predicate NamesSource(entry: string)
    requires |entry| >= 2
  {
    entry[0] == 'R' || entry[1] == 'R' || entry[0] == 'C' || entry[1] == 'C'
  }

  type Paths = Result<seq<string>, StatusError>

  /** The paths in the order of the entries. */
  function PathsOf(entries: seq<string>): Paths {
    if entries == [] then Ok([])
    else if !EntryOk(entries[0]) then Err(EntryInvalid)
    else if !SafePath(entries[0][3..]) then Err(UnsafePath)
    else if !NamesSource(entries[0]) then Prepend([entries[0][3..]], PathsOf(entries[1..]))
    else if |entries| < 2 then Err(RenameSourceMissing)
    else if !SafePath(entries[1]) then Err(UnsafePath)
    else Prepend([entries[0][3..], entries[1]], PathsOf(entries[2..]))
  }

  predicate NonEmpty(s: string) { s != "" }

  function Parse(output: string): Paths {
    if output != "" && output[|output| - 1] != NUL then Err(MissingTerminator)
    else match PathsOf(Where(NonEmpty, Split(output, NUL)))
         case Err(e) => Err(e)
         case Ok(paths) => Ok(SortedSet(paths))
  }

  /** parseGitStatusPorcelain, with its index loop. */
  method ParseGitStatusPorcelain(output: string) returns (r: Paths)
    ensures r == Parse(output)
  {
    if output != "" && output[|output| - 1] != NUL {
      return Err(MissingTerminator);
    }
    var entries := Where(NonEmpty, Split(output, NUL));
    var paths: seq<string> := [];
    var index := 0;
    PrependNothing(PathsOf(entries));
    assert entries[0..] == entries;
    while index < |entries|
      invariant index <= |entries|
      invariant Prepend(paths, PathsOf(entries[index..])) == PathsOf(entries)
    {
      var entry := entries[index];
      ghost var rest, done := entries[index..], paths;
      assert rest[1..] == entries[index + 1..] && rest[0] == entry;
      if !EntryOk(entry) {
        return Err(EntryInvalid);
      }
      var targetPath := entry[3..];
      if !SafePath(targetPath) {
        return Err(UnsafePath);
      }
      paths := paths + [targetPath];
      if NamesSource(entry) {
        if index + 1 >= |entries| {
          return Err(RenameSourceMissing);
        }
        var sourcePath := entries[index + 1];
        if !SafePath(sourcePath) {
          return Err(UnsafePath);
        }
        assert rest[1] == sourcePath && rest[2..] == entries[index + 2..];
        paths := paths + [sourcePath];
        index := index + 1;
        assert paths == done + [targetPath, sourcePath];
        PrependTwice(done, [targetPath, sourcePath], PathsOf(rest[2..]));
      } else {
        PrependTwice(done, [targetPath], PathsOf(rest[1..]));
      }
      index := index + 1;
    }
    assert entries[index..] == [] && paths + [] == paths;
    return Ok(SortedSet(paths));
  }

  // ----- printing, as git does

  datatype Item = Item(x: char, y: char, target: string, source: Option<string>)

  function Head(it: Item): string { [it.x, it.y, ' '] + it.target }

  predicate ItemOk(it: Item) {
    && StatusChar(it.x) && StatusChar(it.y) && it.target != "" && SafePath(it.target)
    && (it.source.Some? <==> NamesSource(Head(it)))
    && (it.source.Some? ==> it.source.value != "" && SafePath(it.source.value))
  }

  predicate ItemsOk(items: seq<Item>) { forall i :: 0 <= i < |items| ==> ItemOk(items[i]) }

  function EntriesOf(items: seq<Item>): seq<string> {
    if items == [] then []
    else
      (if items[0].source.Some? then [Head(items[0]), items[0].source.value] else [Head(items[0])])
      + EntriesOf(items[1..])
  }

  function Print(items: seq<Item>): string { Terminated(EntriesOf(items), NUL) }

  /** Every target and every source path, in order. */
  function Named(items: seq<Item>): seq<string> {
    if items == [] then []
    else
      (if items[0].source.Some? then [items[0].target, items[0].source.value] else [items[0].target])
      + Named(items[1..])
  }

  lemma {:induction false} EntriesPrinted(items: seq<Item>)
    requires ItemsOk(items)
    ensures forall i :: 0 <= i < |EntriesOf(items)| ==> Free(EntriesOf(items)[i], NUL) && NonEmpty(EntriesOf(items)[i])
  {
    if items == [] {
    } else {
      EntriesPrinted(items[1..]);
    }
  }

  lemma {:induction false} PathsOfPrinted(items: seq<Item>)
    requires ItemsOk(items)
    ensures PathsOf(EntriesOf(items)) == Ok(Named(items))
  {
    if items == [] {
    } else {
      var it := items[0];
      var entries, more := EntriesOf(items), EntriesOf(items[1..]);
      PathsOfPrinted(items[1..]);
      assert Head(it)[3..] == it.target;
      if it.source.Some? {
        assert entries[0] == Head(it) && entries[1] == it.source.value && entries[2..] == more;
      } else {
        assert entries[0] == Head(it) && entries[1..] == more;
      }
    }
  }

  lemma {:induction false} WhereAll(s: seq<string>)
    requires forall i :: 0 <= i < |s| ==> NonEmpty(s[i])
    ensures Where(NonEmpty, s) == s
  {
    if s == [] {
    } else {
      WhereAll(s[1..]);
    }
  }

  lemma {:induction false} TerminatedEnds(fields: seq<string>)
    ensures var t := Terminated(fields, NUL); t != "" ==> t[|t| - 1] == NUL
  {
    if fields == [] {
    } else {
      TerminatedEnds(fields[1..]);
    }
  }

  /** For everything git can print, the parser returns the one duplicate-free ascending list of all
      target and source paths. */
  lemma PrintThenParse(items: seq<Item>, paths: seq<string>)
    requires ItemsOk(items)
    ensures Parse(Print(items)) == Ok(paths) <==>
            Ascending(LeText, paths) && Distinct(paths) && forall p :: p in paths <==> p in Named(items)
  {
    var entries := EntriesOf(items);
    EntriesPrinted(items);
    SplitTerminated(entries, NUL);
    TerminatedEnds(entries);
    WhereAppend(NonEmpty, entries, [""]);
    WhereAll(entries);
    assert Where(NonEmpty, [""]) == [] && entries + [] == entries;
    PathsOfPrinted(items);
    SortedSetCharacterized(Named(items), paths);
  }

  lemma {:induction false} ParsedPathsSafe(entries: seq<string>)
    ensures PathsOf(entries).Ok? ==>
              forall i :: 0 <= i < |PathsOf(entries).value| ==> SafePath(PathsOf(entries).value[i])
    decreases |entries|
  {
    if entries == [] || PathsOf(entries).Err? {
    } else {
      ParsedPathsSafe(entries[if NamesSource(entries[0]) then 2 else 1..]);
    }
  }

  /** No output makes the parser return an unsafe path. */
  lemma ParsedStatusIsSafe(output: string)
    requires Parse(output).Ok?
    ensures forall p :: p in Parse(output).value ==> SafePath(p)
  {
    var entries := Where(NonEmpty, Split(output, NUL));
    ParsedPathsSafe(entries);
    SortedSetSorts(PathsOf(entries).value);
  }
}
