/** formatCommandTokens (shared/format-command.ts) against the word splitting of the POSIX shell
    (IEEE Std 1003.1-2017, Shell Command Language, sections 2.2.2, 2.2.3 and 2.3). */
module ShellQuoting {
  import Lists

  // ----- the printer

  predicate Plain(c: char) {
    || 'A' <= c <= 'Z' || 'a' <= c <= 'z' || '0' <= c <= '9'
    || c in "_./:@%+=,-"
  }

  predicate AllPlain(s: string) { forall i :: 0 <= i < |s| ==> Plain(s[i]) }

  /** `token.replaceAll("'", ...)`: each quote becomes close, quoted quote, reopen. */
  function ReplaceQuotes(s: string): string {
    if s == "" then "" else (if s[0] == '\'' then "'\"'\"'" else [s[0]]) + ReplaceQuotes(s[1..])
  }

  function ShellQuote(token: string): string {
    if token != "" && AllPlain(token) then token else "'" + (ReplaceQuotes(token) + "'")
  }

  function FormatCommandTokens(tokens: seq<string>): string {
    if tokens == [] then ""
    else if |tokens| == 1 then ShellQuote(tokens[0])
    else ShellQuote(tokens[0]) + (" " + FormatCommandTokens(tokens[1..]))
  }

  // ----- the shell

  /** Between words; in a word, unquoted; in single quotes; in double quotes. */
  datatype Mode = Between | Bare | Single | Double

  datatype Shell = Shell(mode: Mode, word: string, words: seq<string>) | Unsupported

  predicate IsBlank(c: char) { c == ' ' || c == '\t' }

  /** Characters that, unquoted, do something other than join the word: operators, expansions,
      escapes, globs, comments, history of the section 2.2 list, and the newline. */
  predicate IsSpecial(c: char) { c in "|&;<>()$`\\*?[]#~!{}\n\r" }

  /** Inside double quotes these keep a meaning; the words are then not the plain text. */
  predicate IsSpecialInDouble(c: char) { c in "$`\\!" }

  function Read(st: Shell, c: char): Shell {
    match st
    case Unsupported => Unsupported
    case Shell(Single, word, words) =>
      if c == '\'' then Shell(Bare, word, words) else Shell(Single, word + [c], words)
    case Shell(Double, word, words) =>
      if c == '"' then Shell(Bare, word, words)
      else if IsSpecialInDouble(c) then Unsupported
      else Shell(Double, word + [c], words)
    case Shell(mode, word, words) =>
      if IsBlank(c) then (if mode == Bare then Shell(Between, "", words + [word]) else st)
      else if c == '\'' then Shell(Single, word, words)
      else if c == '"' then Shell(Double, word, words)
      else if IsSpecial(c) then Unsupported
      else Shell(Bare, word + [c], words)
  }

  function ReadAll(st: Shell, s: string): Shell
    decreases |s|
  {
    if s == "" then st else ReadAll(Read(st, s[0]), s[1..])
  }

  datatype Words = Words(words: seq<string>) | NotPlainWords

  /** The words of a command line that consists of nothing but words. */
  function Split(line: string): Words {
    match ReadAll(Shell(Between, "", []), line)
    case Unsupported => NotPlainWords
    case Shell(Between, _, words) => Words(words)
    case Shell(Bare, word, words) => Words(words + [word])
    case Shell(_, _, _) => NotPlainWords
  }

  // ----- splitting undoes formatting

  lemma {:induction false} ReadAppend(st: Shell, a: string, b: string)
    ensures ReadAll(st, a + b) == ReadAll(ReadAll(st, a), b)
    decreases |a|
  {
    if a == "" {
      assert a + b == b;
    } else {
      assert (a + b)[1..] == a[1..] + b && (a + b)[0] == a[0];
      ReadAppend(Read(st, a[0]), a[1..], b);
    }
  }

  lemma PlainNotSpecial(c: char)
    requires Plain(c)
    ensures !IsBlank(c) && c != '\'' && c != '"' && !IsSpecial(c)
  {}

  lemma ReadPlainChar(c: char, mode: Mode, word: string, words: seq<string>)
    requires Plain(c) && (mode == Between || mode == Bare)
    ensures Read(Shell(mode, word, words), c) == Shell(Bare, word + [c], words)
  {
    PlainNotSpecial(c);
  }

  lemma AllPlainRest(s: string)
    requires s != "" && AllPlain(s)
    ensures Plain(s[0]) && AllPlain(s[1..])
  {
    forall i | 0 <= i < |s[1..]| ensures Plain(s[1..][i]) {
      assert Plain(s[i + 1]);
    }
  }

  lemma {:induction false} ReadPlain(s: string, mode: Mode, word: string, words: seq<string>)
    requires s != "" && AllPlain(s) && (mode == Between || mode == Bare)
    ensures ReadAll(Shell(mode, word, words), s) == Shell(Bare, word + s, words)
    decreases |s|
  {
    AllPlainRest(s);
    ReadPlainChar(s[0], mode, word, words);
    Lists.ShiftFirst(word, s);
    if |s| > 1 {
      ReadPlain(s[1..], Bare, word + [s[0]], words);
    } else {
      assert s[1..] == "";
    }
  }

  lemma ReadQuotedQuote(word: string, words: seq<string>)
    ensures ReadAll(Shell(Single, word, words), "'\"'\"'") == Shell(Single, word + "'", words)
  {
    var s := "'\"'\"'";
    assert s[1..] == "\"'\"'" && s[1..][1..] == "'\"'" && s[1..][1..][1..] == "\"'" && s[1..][1..][1..][1..] == "'";
    assert ReadAll(Shell(Bare, word + "'", words), "'") == Shell(Single, word + "'", words);
    assert ReadAll(Shell(Double, word + "'", words), "\"'") == ReadAll(Shell(Bare, word + "'", words), "'");
    assert ReadAll(Shell(Double, word, words), "'\"'") == ReadAll(Shell(Double, word + "'", words), "\"'");
    assert ReadAll(Shell(Bare, word, words), "\"'\"'") == ReadAll(Shell(Double, word, words), "'\"'");
  }

  /** Inside single quotes, the replaced text reads as the token itself. */
  lemma {:induction false} ReadReplaced(token: string, word: string, words: seq<string>)
    ensures ReadAll(Shell(Single, word, words), ReplaceQuotes(token)) == Shell(Single, word + token, words)
  {
    if token == "" {
      assert word + token == word;
    } else {
      var first := if token[0] == '\'' then "'\"'\"'" else [token[0]];
      ReadAppend(Shell(Single, word, words), first, ReplaceQuotes(token[1..]));
      ReadReplaced(token[1..], word + [token[0]], words);
      assert (word + [token[0]]) + token[1..] == word + token;
      if token[0] == '\'' {
        ReadQuotedQuote(word, words);
      } else {
        assert [token[0]][1..] == "";
      }
    }
  }

  /** From between two words, a quoted token reads as one word, the token. */
  lemma ReadQuoted(token: string, words: seq<string>)
    ensures ReadAll(Shell(Between, "", words), ShellQuote(token)) == Shell(Bare, token, words)
  {
    if token != "" && AllPlain(token) {
      ReadPlain(token, Between, "", words);
      assert "" + token == token;
    } else {
      var tail := ReplaceQuotes(token) + "'";
      var s := "'" + tail;
      assert s[1..] == tail;
      ReadAppend(Shell(Single, "", words), ReplaceQuotes(token), "'");
      ReadReplaced(token, "", words);
      assert "" + token == token && "'"[1..] == "";
    }
  }

  /** A quoted token and a blank complete one word. */
  lemma ReadQuotedThenBlank(token: string, rest: string, words: seq<string>)
    ensures ReadAll(Shell(Between, "", words), ShellQuote(token) + (" " + rest)) ==
            ReadAll(Shell(Between, "", words + [token]), rest)
  {
    ReadQuoted(token, words);
    ReadAppend(Shell(Between, "", words), ShellQuote(token), " " + rest);
    assert (" " + rest)[1..] == rest;
  }

  lemma {:induction false} ReadFormatted(tokens: seq<string>, words: seq<string>)
    requires tokens != []
    ensures ReadAll(Shell(Between, "", words), FormatCommandTokens(tokens)) ==
            Shell(Bare, tokens[|tokens| - 1], words + tokens[..|tokens| - 1])
    decreases |tokens|
  {
    if |tokens| == 1 {
      ReadQuoted(tokens[0], words);
      assert words + tokens[..0] == words;
    } else {
      var rest := tokens[1..];
      ReadQuotedThenBlank(tokens[0], FormatCommandTokens(rest), words);
      ReadFormatted(rest, words + [tokens[0]]);
      assert tokens[..|tokens| - 1][1..] == rest[..|rest| - 1];
      Lists.ShiftFirst(words, tokens[..|tokens| - 1]);
    }
  }

  /** Splitting a formatted command line gives back exactly its tokens, empty ones and ones with
      quotes or newlines included. */
  lemma FormatThenSplit(tokens: seq<string>)
    ensures Split(FormatCommandTokens(tokens)) == Words(tokens)
  {
    if tokens != [] {
      ReadFormatted(tokens, []);
      var init := tokens[..|tokens| - 1];
      assert [] + init == init && init + [tokens[|tokens| - 1]] == tokens;
    }
  }

  /** So different token lists are never shown as the same command line. */
  lemma FormatInjective(a: seq<string>, b: seq<string>)
    requires FormatCommandTokens(a) == FormatCommandTokens(b)
    ensures a == b
  {
    FormatThenSplit(a);
    FormatThenSplit(b);
  }
}
