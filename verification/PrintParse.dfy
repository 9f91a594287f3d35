// Printing a command line and parsing it again on Windows (base/command_line.cc, GetCommandLineString
// against FromString): what each entry is read back as, and when argv, divider and switches survive.

module PrintParse {
  import opened Quoting
  import opened Switches
  import opened CommandLines

  // ---------- What can be printed ----------

  // A program name needs no quotes: such a name is read the same way under the special rule that
  // CommandLineToArgvW has for it.
  predicate PlainProgram(program: string) {
    program != "" && !NeedsQuotes(program) && TabFree(program)
  }

  // Only the value of a switch is quoted, so the name must need no quoting.
  predicate PlainName(token: string) {
    SpaceFree(Windows, SwitchString(token)) && '"' !in SwitchString(token)
  }

  predicate PlainNames(args: seq<string>) {
    && args != [] && PlainProgram(Trim(Windows, args[0]))
    && forall t :: t in SwitchTokens(Windows, Tokens(Windows, args)) ==> PlainName(t)
  }

  // Does the value of a switch, if it has one, survive quoting?
  predicate SoundValue(token: string) {
    SwitchValue(token) == "" || Faithful(SwitchValue(token))
  }

  // Every value and every argument survives quoting, and no switch is printed as the terminator.
  predicate Quotable(args: seq<string>) {
    var ts := Tokens(Windows, args);
    && (forall t :: t in SwitchTokens(Windows, ts) ==> t != "--=" && SoundValue(t))
    && (forall t :: t in ArgTokens(Windows, ts) ==> Faithful(t))
  }

  // ---------- One entry ----------

  // A switch with a plain name, as it stands in argv.
  predicate NamedEntry(e: string) {
    && IsSwitch(Windows, e) && TokenEntry(Windows, e) == e && PlainName(e)
    && e == SwitchString(e) + (if SwitchValue(e) != "" then "=" + SwitchValue(e) else "")
  }

  predicate Named(e: string, parseSwitches: bool) {
    AsSwitch(Windows, e, parseSwitches) ==> NamedEntry(e)
  }

  predicate Sound(e: string, parseSwitches: bool) {
    if AsSwitch(Windows, e, parseSwitches) then SoundValue(e) else Faithful(e)
  }

  // What a printed entry is read back as: itself where it is quoted, else what is left between tabs.
  function EntryWords(e: string, parseSwitches: bool): seq<string> {
    if AsSwitch(Windows, e, parseSwitches) then
      if SwitchValue(e) == "" || NeedsQuotes(SwitchValue(e)) then [e]
      else Parse(SwitchValue(e), SwitchString(e) + "=", true, false)
    else Reading(e)
  }

  // The parser reads an entry, in front of any other, as these words.
  lemma PrintedReads(e: string, parseSwitches: bool, rest: string)
    requires Named(e, parseSwitches) && Follows(rest)
    ensures ArgvOf(Printed(Windows, e, parseSwitches) + rest) == EntryWords(e, parseSwitches) + Next(rest)
  {
    hide Parse, Quote, Next, SwitchString, SwitchValue, TokenEntry, IsSwitch, Reading, Follows;
    if AsSwitch(Windows, e, parseSwitches) {
      SwitchReads(e, rest);
    } else {
      ReadingOf(e, rest);
    }
  }

  lemma SwitchReads(e: string, rest: string)
    requires AsSwitch(Windows, e, true) && NamedEntry(e) && Follows(rest)
    ensures ArgvOf(Printed(Windows, e, true) + rest) == EntryWords(e, true) + Next(rest)
  {
    hide Parse, Quote, Next, SwitchString, SwitchValue, TokenEntry, NeedsQuotes, TabFree;
    var name, value := SwitchString(e), SwitchValue(e);
    DarkIsPlain(name);
    ParseEnd(rest, e);
    if value == "" {
      assert name == e && e != "" && "" + e == e;
      ParsePlain(name, rest, "", false);
    } else {
      hide IsSwitch;
      var head := name + "=";
      DarkIsPlain(head);
      assert Printed(Windows, e, true) + rest == head + (Quote(value) + rest);
      assert "" + head == head && head + value == e;
      ParsePlain(head, Quote(value) + rest, "", false);
      if NeedsQuotes(value) {
        ParseQuoted(value, rest, head, true);
      } else {
        ParseTabs(value, rest, head, true);
        assert Quote(value) == value by { Unquoted(value); }
      }
    }
  }

  lemma Unquoted(s: string)
    requires !NeedsQuotes(s)
    ensures Quote(s) == s
  {
  }

  lemma DarkIsPlain(s: string)
    requires SpaceFree(Windows, s) && '"' !in s
    ensures Plain(s) && TabFree(s)
  {
  }

  // A sound entry is read back as itself.
  lemma SoundWords(e: string, parseSwitches: bool)
    requires Named(e, parseSwitches) && Sound(e, parseSwitches)
    ensures EntryWords(e, parseSwitches) == [e]
  {
    hide Parse, SwitchString, SwitchValue, TokenEntry, IsSwitch, Reading, NeedsQuotes, TabFree, PlainName;
    if !AsSwitch(Windows, e, parseSwitches) {
      FaithfulReading(e);
    } else if SwitchValue(e) != "" && !NeedsQuotes(SwitchValue(e)) {
      var head, value := SwitchString(e) + "=", SwitchValue(e);
      UnquotedIsPlain(value);
      ParsePlain(value, "", head, true);
      assert value + "" == value && head + value == e;
      ParseEnd("", e);
      assert [e] + Next("") == [e];
    }
  }

  lemma UnquotedIsPlain(s: string)
    requires !NeedsQuotes(s)
    ensures Plain(s) && Harmless(s, "")
  {
  }

  predicate EndsDark(s: string) {
    s != "" && !IsSpace(Windows, s[|s| - 1])
  }

  lemma QuoteEndsDark(s: string)
    requires EndsDark(s)
    ensures EndsDark(Quote(s))
  {
  }

  // A printed entry does not end in whitespace; only the empty argument is printed as nothing.
  lemma PrintedEndsDark(e: string, parseSwitches: bool)
    requires Named(e, parseSwitches) && Trimmed(Windows, e)
    ensures e != "" ==> EndsDark(Printed(Windows, e, parseSwitches))
    ensures e == "" ==> Printed(Windows, e, parseSwitches) == "" && EntryWords(e, parseSwitches) == []
  {
    hide Quote, SwitchString, SwitchValue, TokenEntry, IsSpace, PlainName, IsSwitch, Parse;
    if e == "" {
      EmptyEntry();
    } else if AsSwitch(Windows, e, parseSwitches) {
      var value := SwitchValue(e);
      if value != "" {
        assert e[|e| - 1] == value[|value| - 1];
        QuoteEndsDark(value);
      }
    } else {
      QuoteEndsDark(e);
    }
  }

  lemma EmptyEntry()
    ensures !IsSwitch(Windows, "") && Quote("") == "" && Reading("") == []
  {
  }

  // ---------- The whole line ----------

  predicate NamedRest(es: seq<string>, parseSwitches: bool) {
    es == [] || (Named(es[0], parseSwitches) && NamedRest(es[1..], parseSwitches && es[0] != TERMINATOR))
  }

  function Words(es: seq<string>, parseSwitches: bool): seq<string> {
    if es == [] then []
    else EntryWords(es[0], parseSwitches) + Words(es[1..], parseSwitches && es[0] != TERMINATOR)
  }

  // The printed entries, without the whitespace that empty arguments leave at the end, are read as
  // their words.
  lemma {:induction false} PrintRestReads(es: seq<string>, parseSwitches: bool) returns (core: string, after: string)
    requires NamedRest(es, parseSwitches) && forall e :: e in es ==> Trimmed(Windows, e)
    ensures PrintRest(Windows, es, parseSwitches) == core + after && AllSpace(Windows, after)
    ensures Follows(core) && (core == "" || EndsDark(core)) && Next(core) == Words(es, parseSwitches)
    ensures "" !in es ==> after == ""
  {
    hide Printed, ArgvOf, EntryWords, Named, Trimmed, EndsDark, AllSpace, Next, Follows;
    NothingPrinted();
    if es == [] {
      core, after := "", "";
    } else {
      var parse := parseSwitches && es[0] != TERMINATOR;
      assert es == [es[0]] + es[1..];
      var more, end := PrintRestReads(es[1..], parse);
      var entry := Printed(Windows, es[0], parseSwitches);
      PrintedReads(es[0], parseSwitches, more);
      PrintedEndsDark(es[0], parseSwitches);
      core, after := Joined(entry, more, end);
      assert PrintRest(Windows, es, parseSwitches) == " " + entry + (more + end);
      assert [] + Words(es[1..], parse) == Words(es[1..], parse);
    }
  }

  // One entry in front of the others, and the whitespace at the end.
  lemma Joined(entry: string, more: string, end: string) returns (core: string, after: string)
    requires Follows(more) && (more == "" || EndsDark(more)) && (entry == "" || EndsDark(entry)) && AllSpace(Windows, end)
    ensures " " + entry + (more + end) == core + after && AllSpace(Windows, after)
    ensures Follows(core) && (core == "" || EndsDark(core))
    ensures if more == "" && entry == "" then core == "" else after == end && Next(core) == ArgvOf(entry + more)
  {
    hide Parse, IsSpace, EndsDark, AllSpace;
    if more == "" && entry == "" {
      core, after := "", " " + end;
      SpaceMore(end);
      assert " " + entry + (more + end) == core + after;
    } else {
      core, after := " " + entry + more, end;
      assert core[1..] == entry + more;
      assert " " + entry + (more + end) == core + after;
      if more != "" {
        DarkEnd(" " + entry, more);
      } else {
        DarkEnd(" ", entry);
        assert core == " " + entry;
      }
    }
  }

  lemma DarkEnd(a: string, b: string)
    requires EndsDark(b)
    ensures EndsDark(a + b)
  {
    hide IsSpace;
  }

  lemma SpaceMore(s: string)
    requires AllSpace(Windows, s)
    ensures AllSpace(Windows, " " + s)
  {
    SpaceIsSpace();
    hide IsSpace;
  }

  lemma NothingPrinted()
    ensures Next("") == [] && AllSpace(Windows, "") && Follows("") && !EndsDark("")
  {
  }

  lemma SpaceIsSpace()
    ensures IsSpace(Windows, ' ')
  {
  }

  // What the parser makes of the printed line.
  lemma PrintLineReads(argv: seq<string>)
    requires argv != [] && PlainProgram(argv[0]) && NamedRest(argv[1..], true)
    requires forall e :: e in argv ==> Trimmed(Windows, e)
    ensures var line := PrintLine(Windows, argv);
      && Trim(Windows, line) != "" && ArgvOf(Trim(Windows, line)) == [argv[0]] + Words(argv[1..], true)
      && ("" !in argv[1..] ==> Trim(Windows, line) == line)
  {
    hide Parse, PrintRest, Next, NamedRest, IsSpace, NeedsQuotes, TabFree, Words, Trim;
    var program := argv[0];
    assert argv == [program] + argv[1..];
    var core, after := PrintRestReads(argv[1..], true);
    assert PrintLine(Windows, argv) == "" + (program + core) + after by {
      ProgramUnquoted(program);
    }
    var body := program + core;
    assert body[0] == program[0] && body[|body| - 1] == if core != "" then core[|core| - 1] else program[|program| - 1];
    assert program in argv && Trimmed(Windows, body);
    TrimIs(Windows, "", body, after);
    assert after == "" ==> "" + body + after == body;
    ProgramUnquoted(program);
    ParseQuoted(program, core, "", false);
    assert "" + program == program;
    ParseEnd(core, program);
  }

  lemma ProgramUnquoted(program: string)
    requires PlainProgram(program)
    ensures Quote(program) == program && Faithful(program)
  {
  }

  // ---------- The parts of a built command line ----------

  lemma SwitchStart(s: string)
    ensures IsSwitch(Windows, s) <==> s != "" && (s[0] == '-' || s[0] == '/')
  {
    assert |s| >= 2 ==> s[..2][0] == s[0];
  }

  lemma SwitchNameIsSwitch(t: string)
    requires IsSwitch(Windows, t)
    ensures var name := SwitchString(t);
      IsSwitch(Windows, name) && EntryHead(Windows, name) == LowerOnWindows(Windows, name)
    ensures t != "" && (SwitchValue(t) != "" ==> t[|t| - 1] == SwitchValue(t)[|SwitchValue(t)| - 1])
    ensures SwitchString(t) == TERMINATOR && SwitchValue(t) == "" ==> t == TERMINATOR || t == "--="
  {
    hide FindEquals, PrefixLength, LowerOnWindows, IsSwitch;
    SwitchStart(t);
    var name, e := SwitchString(t), FindEquals(t);
    assert e > 0 && name[0] == t[0];
    SwitchStart(name);
    HeadOfSwitch(name);
    assert e < |t| ==> t == name + "=" + SwitchValue(t);
  }

  lemma HeadOfSwitch(name: string)
    requires IsSwitch(Windows, name)
    ensures EntryHead(Windows, name) == LowerOnWindows(Windows, name) != ""
  {
    hide LowerOnWindows;
    LowerKeeps(Windows, name);
  }

  lemma LowerDark(s: string)
    requires SpaceFree(Windows, s) && '"' !in s
    ensures var r := LowerOnWindows(Windows, s);
      SpaceFree(Windows, r) && '"' !in r && (r == TERMINATOR ==> s == TERMINATOR)
  {
    LowerKeeps(Windows, s);
    hide IsSpace, LowerOnWindows;
    var r := LowerOnWindows(Windows, s);
    assert forall i :: 0 <= i < |s| ==> SameRole(Windows, s[i], r[i]);
    assert |s| == 2 && s[0] == '-' && s[1] == '-' ==> s == TERMINATOR;
  }

  // The entry made of a switch token with a plain name.
  lemma EntryNamed(t: string)
    requires IsSwitch(Windows, t) && t != TERMINATOR && PlainName(t) && Trimmed(Windows, t)
    ensures var e := TokenEntry(Windows, t);
      && NamedEntry(e) && Trimmed(Windows, e) && SwitchValue(e) == SwitchValue(t)
      && (e == TERMINATOR <==> t == "--=")
  {
    hide LowerOnWindows, TokenEntry, SwitchString, SwitchValue, IsSwitch, PlainName, Trimmed;
    EntryShape(t);
    EntryDark(t);
    if t == "--=" {
      BareEntry();
    } else {
      NotBare(t);
    }
  }

  lemma EntryShape(t: string)
    requires IsSwitch(Windows, t)
    ensures var name, value, e := SwitchString(t), SwitchValue(t), TokenEntry(Windows, t);
      && SwitchString(e) == LowerOnWindows(Windows, name) && SwitchValue(e) == value
      && e == LowerOnWindows(Windows, name) + (if value != "" then "=" + value else "")
      && IsSwitch(Windows, e) && TokenEntry(Windows, e) == e
  {
    hide LowerOnWindows, PrefixLength, FindEquals, SwitchString, SwitchValue, SwitchEntry, EntryHead, IsSwitch;
    SwitchNameIsSwitch(t);
    TokenName(Windows, t);
    EntryReadsBack(Windows, SwitchString(t), SwitchValue(t));
    EntryParts(Windows, SwitchString(t), SwitchValue(t));
  }

  lemma EntryDark(t: string)
    requires IsSwitch(Windows, t) && PlainName(t) && Trimmed(Windows, t)
    ensures var e := TokenEntry(Windows, t);
      PlainName(e) && Trimmed(Windows, e)
  {
    hide LowerOnWindows, IsSpace, PrefixLength, FindEquals, SwitchString, SwitchValue, SwitchEntry, EntryHead, IsSwitch;
    EntryShape(t);
    var name, value, e := SwitchString(t), SwitchValue(t), TokenEntry(Windows, t);
    SwitchNameIsSwitch(t);
    LowerDark(name);
    HeadOfSwitch(name);
    var lower := LowerOnWindows(Windows, name);
    assert e[0] == lower[0];
    assert e[|e| - 1] == if value != "" then t[|t| - 1] else lower[|lower| - 1];
  }

  lemma NotBare(t: string)
    requires IsSwitch(Windows, t) && t != "--=" && t != TERMINATOR && PlainName(t)
    ensures TokenEntry(Windows, t) != TERMINATOR
  {
    hide LowerOnWindows, PrefixLength, FindEquals, SwitchString, SwitchValue, SwitchEntry, EntryHead, IsSwitch;
    EntryShape(t);
    SwitchNameIsSwitch(t);
    LowerDark(SwitchString(t));
    var value, lower := SwitchValue(t), LowerOnWindows(Windows, SwitchString(t));
    assert value != "" ==> (lower + ("=" + value))[|lower|] == '=';
  }

  lemma BareEntry()
    ensures TokenEntry(Windows, "--=") == TERMINATOR
  {
    var a := "--=";
    FindEqualsIs(a, 2);
    assert SwitchString(a) == "--" && SwitchValue(a) == "" && a[..2] == "--";
    assert LowerOnWindows(Windows, "--") == "--";
  }

  lemma EntryParts(b: Build, name: string, value: string)
    ensures SwitchEntry(b, name, value) == EntryHead(b, name) + (if value != "" then "=" + value else "")
  {
    hide LowerOnWindows, PrefixLength;
  }

  lemma {:induction false} TokensSort(ts: seq<string>)
    ensures forall t :: t in SwitchTokens(Windows, ts) ==> t in ts && IsSwitch(Windows, t) && t != TERMINATOR
    ensures forall t :: t in ArgTokens(Windows, ts) ==> t in ts
    ensures SwitchTokens(Windows, ArgTokens(Windows, ts)) == []
    ensures ArgTokens(Windows, ArgTokens(Windows, ts)) == ArgTokens(Windows, ts)
  {
    hide IsSwitch;
    if ts != [] {
      TokensSort(ts[1..]);
      var more := ArgTokens(Windows, ts[1..]);
      assert ([ts[0]] + more)[1..] == more && [] + more == more;
    }
  }

  // Past the terminator nothing is taken for a switch.
  lemma {:induction false} PastTerminator(es: seq<string>)
    ensures NamedRest(es, false)
    ensures Words(es, false) == Readings(es)
  {
    hide Faithful, Reading, NamedEntry;
    if es != [] {
      PastTerminator(es[1..]);
      assert es == [es[0]] + es[1..];
    }
  }

  // The arguments: none of them is taken for a switch.
  lemma {:induction false} ArgsRead(ts: seq<string>)
    ensures var rest := ArgTokens(Windows, ts);
      NamedRest(rest, true) && Words(rest, true) == Readings(rest)
  {
    hide Faithful, Reading, NamedEntry, IsSwitch;
    if ts != [] {
      if ts[0] == TERMINATOR {
        PastTerminator(ts[1..]);
        assert ts == [ts[0]] + ts[1..];
      } else {
        ArgsRead(ts[1..]);
        var more := ArgTokens(Windows, ts[1..]);
        assert ([ts[0]] + more)[1..] == more && [] + more == more;
      }
    }
  }

  // Switch entries in front.
  lemma {:induction false} EntriesNamed(es: seq<string>, rest: seq<string>)
    requires (forall e :: e in es ==> NamedEntry(e)) && NamedRest(rest, true)
    ensures NamedRest(es + rest, true)
  {
    hide NamedEntry, IsSwitch;
    if es == [] {
      assert es + rest == rest;
    } else {
      EntriesNamed(es[1..], rest);
      assert (es + rest)[1..] == es[1..] + rest && (es + rest)[0] == es[0];
      PastTerminator(es[1..] + rest);
    }
  }

  // Switch entries that are sound and no terminators.
  ghost predicate GoodEntries(es: seq<string>) {
    forall e :: e in es ==> NamedEntry(e) && e != TERMINATOR && SoundValue(e)
  }

  lemma {:induction false} EntriesInFront(es: seq<string>, rest: seq<string>)
    requires GoodEntries(es)
    ensures Words(es + rest, true) == es + Words(rest, true)
    ensures SwitchTokens(Windows, es + rest) == es + SwitchTokens(Windows, rest)
    ensures ArgTokens(Windows, es + rest) == ArgTokens(Windows, rest)
  {
    hide NamedEntry, GoodEntries, SoundValue, Words, SwitchTokens, ArgTokens;
    if es == [] {
      assert es + rest == rest && [] + Words(rest, true) == Words(rest, true);
      assert [] + SwitchTokens(Windows, rest) == SwitchTokens(Windows, rest);
    } else {
      GoodFirst(es);
      EntriesInFront(es[1..], rest);
      var all := es + rest;
      assert all[1..] == es[1..] + rest && all[0] == es[0];
      EntryInFront(all);
      assert [es[0]] + (es[1..] + Words(rest, true)) == es + Words(rest, true);
      assert [es[0]] + (es[1..] + SwitchTokens(Windows, rest)) == es + SwitchTokens(Windows, rest);
    }
  }

  lemma GoodFirst(es: seq<string>)
    requires GoodEntries(es) && es != []
    ensures GoodEntries(es[1..]) && NamedEntry(es[0]) && es[0] != TERMINATOR && SoundValue(es[0])
  {
    hide NamedEntry, SoundValue;
    assert es[0] in es;
  }

  lemma EntryInFront(all: seq<string>)
    requires all != [] && NamedEntry(all[0]) && all[0] != TERMINATOR && SoundValue(all[0])
    ensures Words(all, true) == [all[0]] + Words(all[1..], true)
    ensures SwitchTokens(Windows, all) == [all[0]] + SwitchTokens(Windows, all[1..])
    ensures ArgTokens(Windows, all) == ArgTokens(Windows, all[1..])
  {
    hide SoundValue, TokenEntry, PlainName, EntryWords, IsSwitch;
    SoundWords(all[0], true);
    var more := ArgTokens(Windows, all[1..]);
    assert [] + more == more;
  }

  lemma EntriesFixed(es: seq<string>)
    requires forall e :: e in es ==> NamedEntry(e)
    ensures Entries(Windows, es) == es
  {
    hide TokenEntry, SwitchString, SwitchValue, IsSwitch;
    assert forall i :: 0 <= i < |es| ==> NamedEntry(es[i]);
  }

  lemma TrimAllFixed(ts: seq<string>)
    requires forall t :: t in ts ==> Trimmed(Windows, t)
    ensures TrimAll(Windows, ts) == ts
  {
    hide Trimmed;
  }

  // The parts of a built command line with plain names, and what it is for them to be quotable.
  lemma BuiltParts(args: seq<string>)
    requires PlainNames(args)
    ensures var ts := Tokens(Windows, args);
      var es, rest := Entries(Windows, SwitchTokens(Windows, ts)), ArgTokens(Windows, ts);
      && Rebuilt(Windows, args) == [Trim(Windows, args[0])] + es + rest
      && PlainProgram(Trim(Windows, args[0]))
      && (forall e :: e in es ==> NamedEntry(e) && Trimmed(Windows, e))
      && (forall e :: e in rest ==> Trimmed(Windows, e))
      && SwitchTokens(Windows, rest) == [] && ArgTokens(Windows, rest) == rest
      && (Quotable(args) <==> GoodEntries(es) && forall e :: e in rest ==> Faithful(e))
  {
    hide Faithful, NamedEntry, PlainName, Trim, Trimmed, TokenEntry, IsSwitch, SwitchTokens, ArgTokens, PlainProgram, SwitchValue;
    var ts := Tokens(Windows, args);
    var switches := SwitchTokens(Windows, ts);
    var es := Entries(Windows, switches);
    TokensSort(ts);
    assert forall t :: t in ts ==> Trimmed(Windows, t);
    forall i | 0 <= i < |es|
      ensures NamedEntry(es[i]) && Trimmed(Windows, es[i])
      ensures (es[i] == TERMINATOR <==> switches[i] == "--=") && (SoundValue(es[i]) <==> SoundValue(switches[i]))
    {
      assert switches[i] in switches;
      EntryNamed(switches[i]);
    }
    assert forall i :: 0 <= i < |es| ==> es[i] in es && switches[i] in switches;
  }

  // ---------- The round trip ----------

  // Printing, parsing and building again gives the same argv, divider and switches.
  ghost predicate SurvivesPrinting(args: seq<string>) {
    var argv := Rebuilt(Windows, args);
    var parsed := ArgvOf(Trim(Windows, PrintLine(Windows, argv)));
    var before, after := SwitchTokens(Windows, Tokens(Windows, args)), SwitchTokens(Windows, Tokens(Windows, parsed));
    && Rebuilt(Windows, parsed) == argv
    && |after| == |before|
    && File(Windows, map[], Entries(Windows, after)) == File(Windows, map[], Entries(Windows, before))
  }

  // What is parsed: the program and the words of all entries.
  lemma ParsedWords(args: seq<string>)
    requires PlainNames(args)
    ensures var ts := Tokens(Windows, args);
      var argv, es, rest := Rebuilt(Windows, args), Entries(Windows, SwitchTokens(Windows, ts)), ArgTokens(Windows, ts);
      && Trim(Windows, PrintLine(Windows, argv)) != ""
      && ArgvOf(Trim(Windows, PrintLine(Windows, argv))) == [Trim(Windows, args[0])] + Words(es + rest, true)
      && ("" !in rest ==> Trim(Windows, PrintLine(Windows, argv)) == PrintLine(Windows, argv))
  {
    hide Tokens, Entries, NamedEntry, PlainNames, PlainProgram, NamedRest, SwitchTokens, ArgTokens, Words;
    hide PrintLine, ArgvOf, Trim, Trimmed, Quotable, GoodEntries;
    BuiltParts(args);
    var ts := Tokens(Windows, args);
    var argv, es, rest := Rebuilt(Windows, args), Entries(Windows, SwitchTokens(Windows, ts)), ArgTokens(Windows, ts);
    ArgsRead(ts);
    EntriesNamed(es, rest);
    assert argv[1..] == es + rest && argv == [argv[0]] + argv[1..];
    NamedNotEmpty(es);
    PrintLineReads(argv);
  }

  lemma NamedNotEmpty(es: seq<string>)
    requires forall e :: e in es ==> NamedEntry(e)
    ensures "" !in es
  {
    hide TokenEntry, SwitchString, SwitchValue, PlainName;
    EmptyEntry();
    hide IsSwitch;
  }

  // Under the condition, the parser reads exactly argv and trimming the line changes nothing.
  lemma QuotableSurvives(args: seq<string>)
    requires PlainNames(args) && Quotable(args)
    ensures var argv := Rebuilt(Windows, args);
      var line := PrintLine(Windows, argv);
      Trim(Windows, line) == line && line != "" && ArgvOf(line) == argv
    ensures SurvivesPrinting(args)
  {
    hide Tokens, Entries, NamedEntry, PlainNames, PlainProgram, SwitchTokens, ArgTokens, Words, PrintLine, ArgvOf, Trim;
    hide Trimmed, File, Quotable, GoodEntries, Readings, Faithful;
    BuiltParts(args);
    ParsedWords(args);
    var argv, ts := Rebuilt(Windows, args), Tokens(Windows, args);
    var es, rest := Entries(Windows, SwitchTokens(Windows, ts)), ArgTokens(Windows, ts);
    EntriesInFront(es, rest);
    ArgsRead(ts);
    ReadingsFaithful(rest);
    FaithfulNotEmpty(rest);
    ProgramTrimmed(args);
    assert es + [] == es;
    assert [Trim(Windows, args[0])] + (es + rest) == argv && argv[1..] == es + rest;
    EntriesFixed(es);
    TokensOfBuilt(argv, es, rest);
  }

  lemma FaithfulNotEmpty(es: seq<string>)
    requires forall e :: e in es ==> Faithful(e)
    ensures "" !in es
  {
  }

  lemma ProgramTrimmed(args: seq<string>)
    requires PlainNames(args)
    ensures args != [] && Trim(Windows, Trim(Windows, args[0])) == Trim(Windows, args[0])
  {
    hide TrimStart, TrimEnd, PlainProgram;
  }

  lemma TokensOfBuilt(argv: seq<string>, es: seq<string>, rest: seq<string>)
    requires argv != [] && argv[1..] == es + rest
    requires forall e :: e in es + rest ==> Trimmed(Windows, e)
    ensures Tokens(Windows, argv) == es + rest
  {
    hide Trimmed, Trim;
    TrimAllFixed(argv[1..]);
  }

  // ---------- What does not survive ----------

  lemma TrimAllAppend(a: seq<string>, b: seq<string>)
    ensures TrimAll(Windows, a + b) == TrimAll(Windows, a) + TrimAll(Windows, b)
  {
    hide Trim;
  }

  // What is rebuilt from the words.
  lemma RebuiltFrom(program: string, words: seq<string>)
    ensures var parsed, tokens := [program] + words, TrimAll(Windows, words);
      && Tokens(Windows, parsed) == tokens
      && Rebuilt(Windows, parsed) ==
         [Trim(Windows, program)] + Entries(Windows, SwitchTokens(Windows, tokens)) + ArgTokens(Windows, tokens)
  {
    hide Trim, SwitchTokens, ArgTokens, Entries;
    assert ([program] + words)[1..] == words;
  }

  // So surviving means: the words sort into the same entries and the same arguments.
  lemma SurvivesAsWords(args: seq<string>)
    requires PlainNames(args) && SurvivesPrinting(args)
    ensures var ts := Tokens(Windows, args);
      var es, rest := Entries(Windows, SwitchTokens(Windows, ts)), ArgTokens(Windows, ts);
      var tokens := TrimAll(Windows, Words(es + rest, true));
      Entries(Windows, SwitchTokens(Windows, tokens)) == es && ArgTokens(Windows, tokens) == rest
  {
    hide Tokens, PlainNames, SwitchTokens, ArgTokens, Words, PrintLine, ArgvOf, Trim, File, Quotable, GoodEntries;
    hide NamedEntry, Trimmed, PlainProgram, Faithful, TrimAll;
    BuiltParts(args);
    ParsedWords(args);
    var argv, ts := Rebuilt(Windows, args), Tokens(Windows, args);
    var es, rest := Entries(Windows, SwitchTokens(Windows, ts)), ArgTokens(Windows, ts);
    var words := Words(es + rest, true);
    var tokens := TrimAll(Windows, words);
    ProgramTrimmed(args);
    RebuiltFrom(Trim(Windows, args[0]), words);
    var es', rest' := Entries(Windows, SwitchTokens(Windows, tokens)), ArgTokens(Windows, tokens);
    var p, q := [Trim(Windows, args[0])], [Trim(Windows, Trim(Windows, args[0]))];
    assert q + es' + rest' == p + es + rest && |es'| == |es|;
    assert (q + es' + rest')[1..|es| + 1] == es' && (p + es + rest)[1..|es| + 1] == es;
    assert (q + es' + rest')[|es| + 1..] == rest' && (p + es + rest)[|es| + 1..] == rest;
  }

  // The first bad switch entry i. As the terminator it ends the switches too early.
  lemma TerminatorCutsOff(es: seq<string>, i: nat, rest: seq<string>)
    requires i < |es| && GoodEntries(es[..i]) && es[i] == TERMINATOR
    requires forall e :: e in es ==> Trimmed(Windows, e)
    ensures |SwitchTokens(Windows, TrimAll(Windows, Words(es + rest, true)))| == i
  {
    hide Trimmed, Trim, TrimAll, GoodEntries, Words, SwitchTokens, ArgTokens, EntryWords;
    var good, left := es[..i], es[i..] + rest;
    assert es + rest == good + left && left[0] == TERMINATOR;
    EntriesInFront(good, left);
    TerminatorWords(left);
    var more := Words(left[1..], false);
    TrimAllAppend(good, [TERMINATOR] + more);
    TrimAllAppend([TERMINATOR], more);
    TrimAllFixed(good);
    assert es[i] in es;
    TrimAllFixed([TERMINATOR]);
    var tail := [TERMINATOR] + TrimAll(Windows, more);
    EntriesInFront(good, tail);
    NoSwitchesFrom(tail);
    assert good + [] == good;
  }

  lemma TerminatorWords(es: seq<string>)
    requires es != [] && es[0] == TERMINATOR
    ensures Words(es, true) == [TERMINATOR] + Words(es[1..], false)
  {
    hide Parse, NeedsQuotes, IsSwitch;
    assert !NeedsQuotes(TERMINATOR) && TabFree(TERMINATOR) by { PlainDashes(); }
    FaithfulReading(TERMINATOR);
  }

  lemma PlainDashes()
    ensures !NeedsQuotes(TERMINATOR) && TabFree(TERMINATOR)
  {
  }

  lemma NoSwitchesFrom(ts: seq<string>)
    requires ts != [] && ts[0] == TERMINATOR
    ensures SwitchTokens(Windows, ts) == []
  {
  }

  // With a value that tabs split, it comes back with its value cut off.
  lemma TabCutsOff(es: seq<string>, i: nat, rest: seq<string>)
    requires i < |es| && GoodEntries(es[..i]) && es[i] != TERMINATOR && NamedEntry(es[i]) && !SoundValue(es[i])
    requires forall e :: e in es ==> Trimmed(Windows, e)
    ensures Entries(Windows, SwitchTokens(Windows, TrimAll(Windows, Words(es + rest, true)))) != es
  {
    hide Trimmed, Trim, TrimAll, GoodEntries, Words, SwitchTokens, ArgTokens, EntryWords, NamedEntry, TokenEntry, SoundValue;
    var good, left := es[..i], es[i..] + rest;
    assert es + rest == good + left && left[0] == es[i];
    EntriesInFront(good, left);
    var first, more := CutValue(left);
    TrimAllAppend(good, [first] + more);
    TrimAllAppend([first], more);
    TrimAllFixed(good);
    OneTrimmed(first);
    var t := Trim(Windows, first);
    var tail := [t] + TrimAll(Windows, more);
    EntriesInFront(good, tail);
    SwitchFrom(tail);
    var switches := good + ([t] + SwitchTokens(Windows, tail[1..]));
    assert switches[i] == t;
  }

  lemma OneTrimmed(s: string)
    ensures TrimAll(Windows, [s]) == [Trim(Windows, s)]
  {
    hide Trim;
  }

  lemma SwitchFrom(ts: seq<string>)
    requires ts != [] && ts[0] != TERMINATOR && IsSwitch(Windows, ts[0])
    ensures SwitchTokens(Windows, ts) == [ts[0]] + SwitchTokens(Windows, ts[1..])
  {
    hide IsSwitch;
  }

  // The first word of a switch whose value tabs split is a switch too, but not the same.
  lemma CutValue(es: seq<string>) returns (first: string, more: seq<string>)
    requires es != [] && es[0] != TERMINATOR && NamedEntry(es[0]) && !SoundValue(es[0])
    ensures Words(es, true) == [first] + more
    ensures var t := Trim(Windows, first);
      t != TERMINATOR && IsSwitch(Windows, t) && TokenEntry(Windows, t) != es[0]
  {
    hide Parse, NeedsQuotes, SwitchString, SwitchValue, TokenEntry, PlainName, IsSwitch, Trim;
    var e := es[0];
    var head, value := SwitchString(e) + "=", SwitchValue(e);
    HeadIsTabFree(e);
    FirstWord(value, head);
    var ws := Parse(value, head, true, false);
    TabsLeaveWords(value, head, true);
    first, more := ws[0], ws[1..] + Words(es[1..], true);
    assert ws[0] in ws;
    assert ws + Words(es[1..], true) == [first] + more;
    HeadTrimmed(e);
    TrimKeepsHead(first, head);
    var t := Trim(Windows, first);
    HeadMakesSwitch(e, t, head);
    TokenName(Windows, t);
    ValueTabFree(t);
  }

  lemma HeadIsTabFree(e: string)
    requires NamedEntry(e)
    ensures TabFree(SwitchString(e) + "=")
  {
    hide SwitchString, SwitchValue, TokenEntry;
    DarkIsPlain(SwitchString(e));
  }

  lemma ValueTabFree(t: string)
    requires TabFree(t)
    ensures TabFree(SwitchValue(t))
  {
  }

  // Outside quotes the word that has begun is the beginning of the first word.
  lemma {:induction false} FirstWord(s: string, word: string)
    requires !NeedsQuotes(s)
    ensures var ws := Parse(s, word, true, false); ws != [] && word <= ws[0]
    decreases |s|
  {
    if s != "" {
      assert s[0] != '\\' && s[0] != '"' && s[0] != ' ';
      assert !NeedsQuotes(s[1..]) by {
        assert forall i :: 0 <= i < |s[1..]| ==> s[1..][i] == s[i + 1];
      }
      if s[0] != '\t' {
        FirstWord(s[1..], word + [s[0]]);
      }
    }
  }

  // Trimming takes nothing of a beginning that is trimmed.
  lemma TrimKeepsHead(s: string, head: string)
    requires head <= s && head != "" && Trimmed(Windows, head) && TabFree(s)
    ensures head <= Trim(Windows, s) && TabFree(Trim(Windows, s))
  {
    hide IsSpace, TrimStart, TrimEnd;
    assert s[0] == head[0];
    TrimStartIs(Windows, "", s);
    assert "" + s == s;
    TrimEndKeeps(s, head);
  }

  lemma {:induction false} TrimEndKeeps(s: string, head: string)
    requires head <= s && head != "" && !IsSpace(Windows, head[|head| - 1])
    ensures head <= TrimEnd(Windows, s) <= s
  {
    hide IsSpace;
    if IsSpace(Windows, s[|s| - 1]) {
      assert |s| == |head| ==> s == head;
      TrimEndKeeps(s[..|s| - 1], head);
    }
  }

  lemma HeadTrimmed(e: string)
    requires NamedEntry(e)
    ensures Trimmed(Windows, SwitchString(e) + "=")
  {
    hide TokenEntry, SwitchValue, FindEquals;
    SwitchNameIsSwitch(e);
    SwitchStart(SwitchString(e));
    assert !IsSpace(Windows, '=');
    hide IsSpace, IsSwitch;
  }

  lemma HeadMakesSwitch(e: string, t: string, head: string)
    requires NamedEntry(e) && head == SwitchString(e) + "=" && head <= t
    ensures t != TERMINATOR && IsSwitch(Windows, t)
  {
    hide TokenEntry, SwitchValue, SwitchString, IsSwitch;
    SwitchNameIsSwitch(e);
    SwitchStart(SwitchString(e));
    SwitchStart(t);
    assert t[0] == head[0] && t[|head| - 1] == '=';
  }

  // The first entry that is bad.
  lemma FirstBad(es: seq<string>) returns (i: nat)
    requires (forall e :: e in es ==> NamedEntry(e)) && !GoodEntries(es)
    ensures i < |es| && GoodEntries(es[..i]) && !(es[i] != TERMINATOR && SoundValue(es[i]))
  {
    hide NamedEntry, SoundValue;
    i := 0;
    assert es[..0] == [];
    while i < |es| && es[i] != TERMINATOR && SoundValue(es[i])
      invariant i <= |es| && GoodEntries(es[..i])
    {
      assert es[..i + 1] == es[..i] + [es[i]];
      i := i + 1;
    }
    assert es[..|es|] == es;
  }

  // Words that were not quoted hold no tab.
  lemma {:induction false} ReadingsShape(es: seq<string>)
    ensures forall w :: w in Readings(es) ==> TabFree(w) || (w in es && NeedsQuotes(w))
  {
    hide Parse, NeedsQuotes, TabFree;
    if es != [] {
      ReadingsShape(es[1..]);
      assert es == [es[0]] + es[1..];
      if !NeedsQuotes(es[0]) {
        NothingHasNoTab();
        TabsLeaveWords(es[0], "", false);
      }
    }
  }

  lemma NothingHasNoTab()
    ensures TabFree("")
  {
  }

  lemma {:induction false} EmptyOnesVanish(es: seq<string>)
    requires forall e :: e in es ==> Faithful(e) || e == ""
    ensures |Readings(es)| <= |es| && (|Readings(es)| == |es| ==> "" !in es)
  {
    hide Faithful, Reading;
    if es != [] {
      EmptyOnesVanish(es[1..]);
      assert es == [es[0]] + es[1..];
      if es[0] == "" {
        EmptyEntry();
      } else {
        FaithfulReading(es[0]);
      }
    }
  }

  // Arguments that come back from their readings are faithful.
  lemma ArgumentsComeBack(rest: seq<string>)
    requires TrimAll(Windows, Readings(rest)) == rest && forall e :: e in rest ==> Trimmed(Windows, e)
    ensures forall e :: e in rest ==> Faithful(e)
  {
    hide Trim, Trimmed, NeedsQuotes, TabFree, Readings;
    var words := Readings(rest);
    ReadingsShape(rest);
    forall j | 0 <= j < |rest| ensures Faithful(rest[j]) || rest[j] == "" {
      assert words[j] in words && rest[j] == Trim(Windows, words[j]);
      TrimTabFree(words[j]);
    }
    forall e | e in rest ensures Faithful(e) || e == "" {
      var j :| 0 <= j < |rest| && rest[j] == e;
    }
    EmptyOnesVanish(rest);
  }

  lemma TrimTabFree(s: string)
    ensures TabFree(s) ==> TabFree(Trim(Windows, s))
    ensures Trimmed(Windows, s) ==> Trim(Windows, s) == s
  {
    hide IsSpace, TrimStart, TrimEnd, TabFree, Trimmed;
    var t := TrimStart(Windows, s);
    assert s[|s| - |t|..|s|] == t;
    PartTabFree(s, |s| - |t|, |s|);
    PartTabFree(t, 0, |TrimEnd(Windows, t)|);
    assert t[0..|TrimEnd(Windows, t)|] == TrimEnd(Windows, t);
  }

  lemma PartTabFree(s: string, i: nat, j: nat)
    requires i <= j <= |s|
    ensures TabFree(s) ==> TabFree(s[i..j])
  {
  }

  lemma {:induction false} AllAreArgs(ts: seq<string>)
    requires SwitchTokens(Windows, ts) == []
    ensures ArgTokens(Windows, ts) == ts
  {
    hide IsSwitch;
    if ts != [] && ts[0] != TERMINATOR {
      AllAreArgs(ts[1..]);
    }
  }

  lemma SurvivorsAreQuotable(args: seq<string>)
    requires PlainNames(args) && SurvivesPrinting(args)
    ensures Quotable(args)
  {
    hide Tokens, PlainNames, SwitchTokens, ArgTokens, Words, Quotable, GoodEntries, SurvivesPrinting, NamedRest;
    hide NamedEntry, Trimmed, PlainProgram, Faithful, TrimAll, SoundValue, Readings;
    BuiltParts(args);
    SurvivesAsWords(args);
    var ts := Tokens(Windows, args);
    var es, rest := Entries(Windows, SwitchTokens(Windows, ts)), ArgTokens(Windows, ts);
    if !GoodEntries(es) {
      var i := FirstBad(es);
      if es[i] == TERMINATOR {
        TerminatorCutsOff(es, i, rest);
      } else {
        assert es[i] in es;
        TabCutsOff(es, i, rest);
      }
    } else {
      ArgsRead(ts);
      EntriesInFront(es, rest);
      var back := TrimAll(Windows, Readings(rest));
      TrimAllAppend(es, Readings(rest));
      TrimAllFixed(es);
      EntriesInFront(es, back);
      AllAreArgs(back);
      ArgumentsComeBack(rest);
    }
  }

  // Print/parse round trip: for every argv whose program and switch names need no quotes, the command
  // line built from it survives printing and parsing if and only if every value and every argument
  // survives quoting and no switch token is "--=".
  lemma PrintParseRoundTrip(args: seq<string>)
    requires PlainNames(args)
    ensures SurvivesPrinting(args) <==> Quotable(args)
  {
    hide SurvivesPrinting, Quotable;
    if Quotable(args) {
      QuotableSurvives(args);
    }
    if SurvivesPrinting(args) {
      SurvivorsAreQuotable(args);
    }
  }

  // A token "--=" becomes the entry "--", which is printed as it is and then read as the terminator:
  // the divider and the switches are lost.
  lemma BareTerminatorIsLost()
    ensures var args := ["p", "--=", "-x"];
      var argv := Rebuilt(Windows, args);
      && argv == ["p", "--", "-x"] && |SwitchTokens(Windows, Tokens(Windows, args))| == 2
      && ArgvOf(PrintLine(Windows, argv)) == argv
      && SwitchTokens(Windows, Tokens(Windows, argv)) == []
  {
    hide Trim, Tokens, ArgvOf, PrintLine, Entries, SwitchTokens, ArgTokens, TrimAll;
    var argv := ["p", "--", "-x"];
    assert ["p", "--=", "-x"][1..] == ["--=", "-x"] && argv[1..] == ["--", "-x"];
    DarkEnds();
    TokensOfBuilt(["p", "--=", "-x"], ["--=", "-x"], []);
    TokensOfBuilt(argv, ["--", "-x"], []);
    SortBare();
    LineOfBare();
  }

  lemma DarkEnds()
    ensures Trimmed(Windows, "--=") && Trimmed(Windows, "-x") && Trimmed(Windows, "--")
    ensures Trim(Windows, "p") == "p"
    ensures SwitchTokens(Windows, ["--", "-x"]) == []
  {
    hide Trim, IsSwitch;
    assert !IsSpace(Windows, '-') && !IsSpace(Windows, '=') && !IsSpace(Windows, 'x') && !IsSpace(Windows, 'p');
    hide IsSpace;
  }

  lemma SortBare()
    ensures SwitchTokens(Windows, ["--=", "-x"]) == ["--=", "-x"] && ArgTokens(Windows, ["--=", "-x"]) == []
    ensures Entries(Windows, ["--=", "-x"]) == ["--", "-x"]
  {
    var a, x := "--=", "-x";
    assert ["--=", "-x"][1..] == ["-x"] && ["-x"][1..] == [];
    assert a[..2] == "--" && x[..2] == "-x";
    FindEqualsIs(a, 2);
    FindEqualsIs(x, 2);
    assert SwitchString(a) == "--" && SwitchValue(a) == "";
    assert SwitchString(x) == "-x" && SwitchValue(x) == "";
    assert TokenEntry(Windows, a) == "--" by {
      assert LowerOnWindows(Windows, "--") == "--";
    }
    assert TokenEntry(Windows, x) == "-x" by {
      assert LowerOnWindows(Windows, "-x") == "-x";
    }
  }

  lemma BareIsPlain()
    ensures PlainProgram("p") && Faithful("-x")
    ensures forall e :: e in ["p", "--", "-x"] ==> Trimmed(Windows, e)
  {
  }

  lemma LineOfBare()
    ensures ArgvOf(PrintLine(Windows, ["p", "--", "-x"])) == ["p", "--", "-x"]
  {
    hide Trimmed, ArgvOf, PlainProgram, Faithful, NamedEntry, IsSwitch, Trim, PrintLine, Words, Readings;
    var argv, es := ["p", "--", "-x"], ["--", "-x"];
    assert argv[1..] == es && es[1..] == ["-x"] && ["-x"][1..] == [];
    BareIsPlain();
    PastTerminator(["-x"]);
    PrintLineReads(argv);
    TerminatorWords(es);
    ReadingsFaithful(["-x"]);
  }
}
