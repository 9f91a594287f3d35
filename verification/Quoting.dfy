// Quoting for CommandLineToArgvW (base/command_line.cc) against the parsing rules it is meant for.

module Quoting {

  predicate IsBlank(c: char) { c == ' ' || c == '\t' }

  function Backslashes(n: nat): string {
    seq(n, _ => '\\')
  }

  // Number of backslashes that s starts with.
  function Run(s: string): (n: nat)
    ensures n <= |s|
    ensures s[..n] == Backslashes(n)
    ensures n < |s| ==> s[n] != '\\'
  {
    if s == "" || s[0] != '\\' then 0
    else
      var n := Run(s[1..]) + 1;
      assert s[..n] == ['\\'] + s[1..][..n - 1];
      n
  }

  // ---------- The documented parser ----------

  // The rest s of a command line, split into arguments. word is what the current argument holds so
  // far, if one is started; quoted tells whether blanks are literal.
  //  - 2n backslashes and a quote: n backslashes, and the quote toggles quoting;
  //  - 2n+1 backslashes and a quote: n backslashes and a literal quote;
  //  - other backslashes are literal; a blank outside quotes ends the argument.
  function Parse(s: string, word: string, started: bool, quoted: bool): seq<string>
    decreases |s|
  {
    if s == "" then
      if started then [word] else []
    else if s[0] == '\\' then
      var n := Run(s);
      if n < |s| && s[n] == '"' then
        if n % 2 == 0 then Parse(s[n + 1..], word + Backslashes(n / 2), true, !quoted)
        else Parse(s[n + 1..], word + Backslashes(n / 2) + "\"", true, quoted)
      else
        Parse(s[n..], word + Backslashes(n), true, quoted)
    else if s[0] == '"' then
      Parse(s[1..], word, true, !quoted)
    else if IsBlank(s[0]) && !quoted then
      if started then [word] + Parse(s[1..], "", false, false) else Parse(s[1..], "", false, false)
    else
      Parse(s[1..], word + [s[0]], true, quoted)
  }

  function ArgvOf(commandLine: string): seq<string> {
    Parse(commandLine, "", false, false)
  }

  // ---------- The quoter ----------

  predicate NeedsQuotes(arg: string) {
    exists i :: 0 <= i < |arg| && (arg[i] == ' ' || arg[i] == '\\' || arg[i] == '"')
  }

  // What goes between the quotes: backslashes are doubled before a quote and at the end.
  function QuoteBody(arg: string): string
    decreases |arg|
  {
    if arg == "" then ""
    else if arg[0] == '\\' then
      var n := Run(arg);
      Backslashes(if n == |arg| || arg[n] == '"' then 2 * n else n) + QuoteBody(arg[n..])
    else if arg[0] == '"' then "\\\"" + QuoteBody(arg[1..])
    else [arg[0]] + QuoteBody(arg[1..])
  }

  function Quote(arg: string): string {
    if NeedsQuotes(arg) then "\"" + QuoteBody(arg) + "\"" else arg
  }

  lemma RunIs(s: string, n: nat)
    requires n <= |s| && (forall k :: 0 <= k < n ==> s[k] == '\\') && (n < |s| ==> s[n] != '\\')
    ensures Run(s) == n
  {
    assert forall k :: 0 <= k < Run(s) ==> s[k] == s[..Run(s)][k];
  }

  // How the body goes on for a run of backslashes that reaches from i to end.
  lemma QuoteBodyOfRun(arg: string, i: nat, end: nat)
    requires i < end <= |arg| && (forall k :: i <= k < end ==> arg[k] == '\\')
    requires end < |arg| ==> arg[end] != '\\'
    ensures var n := end - i;
      QuoteBody(arg[i..]) ==
        Backslashes(if end == |arg| || arg[end] == '"' then 2 * n else n) + QuoteBody(arg[end..])
  {
    RunIs(arg[i..], end - i);
    assert arg[i..][end - i..] == arg[end..];
  }

  lemma QuoteBodyOfChar(arg: string, i: nat)
    requires i < |arg| && arg[i] != '\\'
    ensures QuoteBody(arg[i..]) == (if arg[i] == '"' then ['\\', '"'] else [arg[i]]) + QuoteBody(arg[i + 1..])
  {
    assert arg[i..][1..] == arg[i + 1..];
  }

  // The run of backslashes at i, doubled if a quote or the end of the argument follows.
  method AppendRun(arg: string, i: nat, out: string) returns (out': string, end: nat)
    requires i < |arg| && arg[i] == '\\'
    ensures i < end <= |arg|
    ensures out' + QuoteBody(arg[end..]) == out + QuoteBody(arg[i..])
  {
    hide QuoteBody;
    end := i + 1;
    while end < |arg| && arg[end] == '\\'
      invariant i < end <= |arg|
      invariant forall k :: i <= k < end ==> arg[k] == '\\'
    {
      end := end + 1;
    }
    var backslashCount := end - i;
    if end == |arg| || arg[end] == '"' {
      backslashCount := backslashCount * 2;
    }
    QuoteBodyOfRun(arg, i, end);
    out' := out;
    for j := 0 to backslashCount
      invariant out' == out + Backslashes(j)
    {
      out' := out' + ['\\'];
    }
  }

  method QuoteForCommandLineToArgvW(arg: string) returns (out: string)
    ensures out == Quote(arg)
  {
    if !NeedsQuotes(arg) {
      return arg;
    }
    out := "\"";
    var i := 0;
    ghost var whole := "\"" + QuoteBody(arg);
    assert QuoteBody("") == "" && arg[0..] == arg;
    assert Quote(arg) == whole + "\"";
    hide QuoteBody, Quote, NeedsQuotes;
    while i < |arg|
      invariant 0 <= i <= |arg|
      invariant out + QuoteBody(arg[i..]) == whole
    {
      if arg[i] == '\\' {
        var end;
        out, end := AppendRun(arg, i, out);
        i := end - 1;
      } else if arg[i] == '"' {
        QuoteBodyOfChar(arg, i);
        assert out + (['\\', '"'] + QuoteBody(arg[i + 1..])) == out + ['\\'] + ['"'] + QuoteBody(arg[i + 1..]);
        out := out + ['\\'];
        out := out + ['"'];
      } else {
        QuoteBodyOfChar(arg, i);
        assert out + ([arg[i]] + QuoteBody(arg[i + 1..])) == out + [arg[i]] + QuoteBody(arg[i + 1..]);
        out := out + [arg[i]];
      }
      i := i + 1;
    }
    assert arg[i..] == "";
    out := out + ['"'];
  }

  // ---------- The parser undoes the quoter ----------

  lemma BackslashesAdd(m: nat, n: nat)
    ensures Backslashes(m) + Backslashes(n) == Backslashes(m + n)
  {
  }

  // A run of backslashes as the parser meets it.
  lemma ParseRun(n: nat, rest: string, word: string, started: bool, quoted: bool)
    requires n > 0 && (rest != "" ==> rest[0] != '\\')
    ensures Parse(Backslashes(n) + rest, word, started, quoted) ==
      if rest == "" || rest[0] != '"' then Parse(rest, word + Backslashes(n), true, quoted)
      else if n % 2 == 0 then Parse(rest[1..], word + Backslashes(n / 2), true, !quoted)
      else Parse(rest[1..], word + Backslashes(n / 2) + "\"", true, quoted)
  {
    var s := Backslashes(n) + rest;
    RunIs(s, n);
    assert s[n..] == rest;
    if rest != "" {
      assert s[n + 1..] == rest[1..];
    }
  }

  lemma ParseChar(c: char, rest: string, word: string, started: bool)
    requires c != '\\' && c != '"'
    ensures Parse([c] + rest, word, started, true) == Parse(rest, word + [c], true, true)
  {
    assert ([c] + rest)[1..] == rest;
  }

  lemma ParseQuote(rest: string, word: string, started: bool, quoted: bool)
    ensures Parse("\"" + rest, word, started, quoted) == Parse(rest, word, true, !quoted)
  {
    assert ("\"" + rest)[1..] == rest;
  }

  // Inside quotes: the body and the closing quote read back as the argument itself.
  lemma {:induction false} ParseBody(arg: string, rest: string, word: string)
    ensures Parse(QuoteBody(arg) + ("\"" + rest), word, true, true) == Parse(rest, word + arg, true, false)
    decreases |arg|
  {
    QuoteBodyCons(arg);
    hide Parse, Backslashes, Run, QuoteBody;
    if arg == "" {
      assert QuoteBody(arg) + ("\"" + rest) == "\"" + rest && word + arg == word;
      ParseQuote(rest, word, true, true);
    } else if arg[0] == '\\' {
      ParseBodyRun(arg, rest, word);
    } else if arg[0] == '"' {
      var more := QuoteBody(arg[1..]) + ("\"" + rest);
      OddRun(0, more, word);
      assert QuoteBody(arg) + ("\"" + rest) == "\\" + ("\"" + more);
      ParseBody(arg[1..], rest, word + "\"");
      assert word + "\"" + arg[1..] == word + arg;
    } else {
      var more := QuoteBody(arg[1..]) + ("\"" + rest);
      assert QuoteBody(arg) + ("\"" + rest) == [arg[0]] + more;
      ParseChar(arg[0], more, word, true);
      ParseBody(arg[1..], rest, word + [arg[0]]);
      assert word + [arg[0]] + arg[1..] == word + arg;
    }
  }

  lemma QuoteBodyCons(arg: string)
    ensures arg == "" ==> QuoteBody(arg) == ""
    ensures arg != "" && arg[0] == '"' ==> QuoteBody(arg) == "\\\"" + QuoteBody(arg[1..])
    ensures arg != "" && arg[0] != '"' && arg[0] != '\\' ==> QuoteBody(arg) == [arg[0]] + QuoteBody(arg[1..])
  {
  }

  // 2n+1 backslashes before a quote.
  lemma OddRun(n: nat, more: string, word: string)
    ensures Backslashes(2 * n) + "\\" + ("\"" + more) == Backslashes(2 * n) + ("\\\"" + more)
    ensures n == 0 ==> "\\" + ("\"" + more) == Backslashes(2 * n) + ("\\\"" + more)
    ensures Parse(Backslashes(2 * n) + ("\\\"" + more), word, true, true) ==
            Parse(more, word + Backslashes(n) + "\"", true, true)
    ensures n == 0 ==> word + Backslashes(n) + "\"" == word + "\""
  {
    hide Parse;
    BackslashesAdd(2 * n, 1);
    assert Backslashes(2 * n) + ("\\\"" + more) == Backslashes(2 * n + 1) + ("\"" + more);
    assert ("\"" + more)[1..] == more;
    ParseRun(2 * n + 1, "\"" + more, word, true, true);
  }

  lemma QuoteBodyRun(arg: string) returns (n: nat, after: string)
    requires arg != "" && arg[0] == '\\'
    ensures n > 0 && arg == Backslashes(n) + after && |after| < |arg| && (after != "" ==> after[0] != '\\')
    ensures QuoteBody(arg) == Backslashes(if after == "" || after[0] == '"' then 2 * n else n) + QuoteBody(after)
  {
    n := Run(arg);
    after := arg[n..];
  }

  lemma ParseBodyRun(arg: string, rest: string, word: string)
    requires arg != "" && arg[0] == '\\'
    ensures Parse(QuoteBody(arg) + ("\"" + rest), word, true, true) == Parse(rest, word + arg, true, false)
    decreases |arg|, 0
  {
    hide Parse, Run, Backslashes, QuoteBody;
    var n, after := QuoteBodyRun(arg);
    var tail := "\"" + rest;
    QuoteBodyCons(after);
    if after == "" {
      assert QuoteBody(arg) + tail == Backslashes(2 * n) + tail && arg == Backslashes(n);
      assert tail[1..] == rest;
      ParseRun(2 * n, tail, word, true, true);
    } else if after[0] == '"' {
      // The doubled run and the escape of the quote make one odd run.
      var more := QuoteBody(after[1..]) + tail;
      assert QuoteBody(arg) + tail == Backslashes(2 * n) + ("\\\"" + more);
      OddRun(n, more, word);
      ParseBody(after[1..], rest, word + Backslashes(n) + "\"");
      assert word + Backslashes(n) + "\"" + after[1..] == word + arg;
    } else {
      var more := QuoteBody(after) + tail;
      QuoteBodyStart(after);
      assert QuoteBody(arg) + tail == Backslashes(n) + more;
      ParseRun(n, more, word, true, true);
      ParseBody(after, rest, word + Backslashes(n));
      assert word + Backslashes(n) + after == word + arg;
    }
  }

  lemma QuoteBodyStart(arg: string)
    requires arg != "" && arg[0] != '\\' && arg[0] != '"'
    ensures QuoteBody(arg) != "" && QuoteBody(arg)[0] == arg[0]
  {
  }

  // ---------- Lists of arguments ----------

  // A string the parser reads outside quotes character by character.
  predicate Plain(s: string) {
    forall i :: 0 <= i < |s| ==> s[i] != ' ' && s[i] != '"'
  }

  predicate TabFree(s: string) {
    forall i :: 0 <= i < |s| ==> s[i] != '\t'
  }

  // What may follow an argument: nothing, or the blank before the next one.
  predicate Follows(rest: string) {
    rest == "" || rest[0] == ' '
  }

  // Does rest leave the backslashes at the end of s alone?
  predicate Harmless(s: string, rest: string) {
    s != "" && s[|s| - 1] == '\\' && rest != "" ==> rest[0] != '\\' && rest[0] != '"'
  }

  // Outside quotes, a plain string without tabs is added to the current argument, provided what
  // follows does not turn its last backslashes into escapes.
  lemma {:induction false} ParsePlain(s: string, rest: string, word: string, started: bool)
    requires Plain(s) && TabFree(s)
    requires Harmless(s, rest)
    ensures Parse(s + rest, word, started, false) == Parse(rest, word + s, started || s != "", false)
    decreases |s|
  {
    hide Parse;
    if s == "" {
      assert s + rest == rest && word + s == word;
    } else if s[0] == '\\' {
      var n := Run(s);
      var after := s[n..];
      hide Run, Backslashes;
      assert s + rest == Backslashes(n) + (after + rest);
      assert after != "" ==> after[0] != '"' && after[0] == s[n] && (after + rest)[0] == after[0];
      ParseRun(n, after + rest, word, started, false);
      ParsePlain(after, rest, word + Backslashes(n), true);
      assert word + Backslashes(n) + after == word + s;
    } else {
      ParsePlainChar(s[0], s[1..] + rest, word, started);
      assert s + rest == [s[0]] + (s[1..] + rest);
      ParsePlain(s[1..], rest, word + [s[0]], true);
      assert word + [s[0]] + s[1..] == word + s;
    }
  }

  lemma ParsePlainChar(c: char, rest: string, word: string, started: bool)
    requires c != '\\' && c != '"' && !IsBlank(c)
    ensures Parse([c] + rest, word, started, false) == Parse(rest, word + [c], true, false)
  {
    assert ([c] + rest)[1..] == rest;
  }

  // An argument that survives quoting.
  predicate Faithful(arg: string) {
    arg != "" && (NeedsQuotes(arg) || TabFree(arg))
  }

  // Opening quotes in the middle of an argument, as after "--name=".
  lemma ParseQuoted(arg: string, rest: string, word: string, started: bool)
    requires Faithful(arg) && Follows(rest)
    ensures Parse(Quote(arg) + rest, word, started, false) == Parse(rest, word + arg, true, false)
  {
    if NeedsQuotes(arg) {
      assert Quote(arg) + rest == "\"" + (QuoteBody(arg) + ("\"" + rest));
      ParseQuote(QuoteBody(arg) + ("\"" + rest), word, started, false);
      ParseBody(arg, rest, word);
    } else {
      ParsePlain(arg, rest, word, started);
    }
  }

  // The end of an argument.
  function Next(rest: string): seq<string> {
    if rest == "" then [] else ArgvOf(rest[1..])
  }

  lemma ParseEnd(rest: string, word: string)
    requires Follows(rest)
    ensures Parse(rest, word, true, false) == [word] + Next(rest)
    ensures ArgvOf(rest) == Next(rest)
  {
  }

  // Arguments joined by single spaces, each quoted.
  function QuoteAll(args: seq<string>): string {
    if args == [] then ""
    else if |args| == 1 then Quote(args[0])
    else Quote(args[0]) + " " + QuoteAll(args[1..])
  }

  // What one argument becomes once it has been quoted and parsed.
  function Reading(arg: string): seq<string> {
    if NeedsQuotes(arg) then [arg] else ArgvOf(arg)
  }

  function Readings(args: seq<string>): seq<string> {
    if args == [] then [] else Reading(args[0]) + Readings(args[1..])
  }

  // Without quotes, backslashes and spaces, the parser only splits at tabs.
  lemma {:induction false} ParseTabs(s: string, rest: string, word: string, started: bool)
    requires !NeedsQuotes(s) && Follows(rest)
    ensures Parse(s + rest, word, started, false) == Parse(s, word, started, false) + Next(rest)
    decreases |s|
  {
    if s == "" {
      assert s + rest == rest;
      ParseEnd(rest, word);
      if !started && rest != "" {
        assert Parse(rest, word, started, false) == Next(rest);
      }
    } else {
      assert s[0] != '\\' && s[0] != '"' && s[0] != ' ';
      assert !NeedsQuotes(s[1..]) by {
        assert forall i :: 0 <= i < |s[1..]| ==> s[1..][i] == s[i + 1];
      }
      assert (s + rest)[1..] == s[1..] + rest && (s + rest)[0] == s[0];
      if s[0] == '\t' {
        ParseTabs(s[1..], rest, "", false);
      } else {
        ParseTabs(s[1..], rest, word + [s[0]], true);
      }
    }
  }

  lemma {:induction false} TabsLeaveWords(s: string, word: string, started: bool)
    requires !NeedsQuotes(s) && TabFree(word) && (started ==> word != "")
    ensures forall a :: a in Parse(s, word, started, false) ==> a != "" && TabFree(a)
    decreases |s|
  {
    if s != "" {
      assert s[0] != '\\' && s[0] != '"' && s[0] != ' ';
      assert !NeedsQuotes(s[1..]) by {
        assert forall i :: 0 <= i < |s[1..]| ==> s[1..][i] == s[i + 1];
      }
      if s[0] == '\t' {
        TabsLeaveWords(s[1..], "", false);
      } else {
        TabsLeaveWords(s[1..], word + [s[0]], true);
      }
    }
  }

  lemma ReadingOf(arg: string, rest: string)
    requires Follows(rest)
    ensures ArgvOf(Quote(arg) + rest) == Reading(arg) + Next(rest)
  {
    if NeedsQuotes(arg) {
      ParseQuoted(arg, rest, "", false);
      ParseEnd(rest, arg);
      assert "" + arg == arg;
    } else {
      ParseTabs(arg, rest, "", false);
    }
  }

  // Parsing a quoted list reads the arguments one by one.
  lemma {:induction false} ParseQuoteAll(args: seq<string>)
    ensures ArgvOf(QuoteAll(args)) == Readings(args)
    decreases |args|
  {
    hide Parse, Quote, Reading;
    if |args| == 1 {
      ReadingOf(args[0], "");
      assert Quote(args[0]) + "" == Quote(args[0]);
    } else if |args| > 1 {
      var rest := " " + QuoteAll(args[1..]);
      ReadingOf(args[0], rest);
      assert QuoteAll(args) == Quote(args[0]) + rest && rest[1..] == QuoteAll(args[1..]);
      ParseQuoteAll(args[1..]);
    } else {
      assert ArgvOf("") == [] by { ParseEnd("", ""); }
    }
  }

  lemma {:induction false} ReadingsFaithful(args: seq<string>)
    requires forall a :: a in args ==> Faithful(a)
    ensures Readings(args) == args
  {
    if args != [] {
      FaithfulReading(args[0]);
      ReadingsFaithful(args[1..]);
    }
  }

  lemma FaithfulReading(arg: string)
    requires Faithful(arg)
    ensures Reading(arg) == [arg]
  {
    if !NeedsQuotes(arg) {
      ParsePlain(arg, "", "", false);
      assert arg + "" == arg && "" + arg == arg;
    }
  }

  lemma {:induction false} ReadingsAreFaithful(args: seq<string>)
    ensures forall a :: a in Readings(args) ==> Faithful(a)
  {
    if args != [] {
      ReadingsAreFaithful(args[1..]);
      if NeedsQuotes(args[0]) {
        assert args[0] != "";
      } else {
        TabsLeaveWords(args[0], "", false);
      }
    }
  }

  // Only spaces, backslashes and quotes make the quoter act; around what is quoted go two quotes.
  lemma QuotesAround(arg: string)
    ensures NeedsQuotes(arg) <==> ' ' in arg || '\\' in arg || '"' in arg
    ensures Faithful(arg) <==> arg != "" && ('\t' in arg ==> ' ' in arg || '\\' in arg || '"' in arg)
    ensures '\\' !in arg && '"' !in arg ==> Quote(arg) == if ' ' in arg then "\"" + arg + "\"" else arg
  {
    hide QuoteBody;
    if '\\' !in arg && '"' !in arg {
      PlainBody(arg);
    }
  }

  lemma {:induction false} PlainBody(arg: string)
    requires '\\' !in arg && '"' !in arg
    ensures QuoteBody(arg) == arg
  {
    if arg != "" {
      PlainBody(arg[1..]);
    }
  }

  // Quoting round trip: it holds for a list of arguments exactly when none is empty and none holds a
  // tab without also holding a space, backslash or quote. The quoter tests for those three only.
  lemma QuoteRoundTrip(args: seq<string>)
    ensures ArgvOf(QuoteAll(args)) == args <==> forall a :: a in args ==> Faithful(a)
    ensures ArgvOf(QuoteAll(args)) == args <==>
      forall a :: a in args ==> a != "" && ('\t' in a ==> ' ' in a || '\\' in a || '"' in a)
  {
    hide ArgvOf, QuoteAll, Quote, Faithful, NeedsQuotes;
    forall a ensures Faithful(a) <==> a != "" && ('\t' in a ==> ' ' in a || '\\' in a || '"' in a) {
      QuotesAround(a);
    }
    ParseQuoteAll(args);
    if forall a :: a in args ==> Faithful(a) {
      ReadingsFaithful(args);
    } else {
      ReadingsAreFaithful(args);
    }
  }

  // Two arguments that do not survive: the empty one vanishes, a tab splits.
  lemma QuoteLosesArguments()
    ensures ArgvOf(QuoteAll([""])) == []
    ensures ArgvOf(QuoteAll(["a\tb"])) == ["a", "b"]
  {
    ParseQuoteAll([""]);
    ParseQuoteAll(["a\tb"]);
    assert Readings([""]) == Reading("") + Readings([]);
    assert Readings(["a\tb"]) == Reading("a\tb") + Readings([]);
    assert !NeedsQuotes("a\tb");
    var s, t := "a\tb", "\tb";
    assert s[1..] == t && t[1..] == "b" && "b"[1..] == "" && "" + "a" == "a" && "" + "b" == "b";
    assert Parse("b", "", false, false) == Parse("", "b", true, false) == ["b"];
    assert Parse(t, "a", true, false) == ["a"] + Parse("b", "", false, false);
  }
}
