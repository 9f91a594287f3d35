// What base/command_line.cc does in characters, for both builds: which tokens are switches, what they
// are called, what GetArgs returns, what looking up a switch finds, and what is printed on POSIX.

module CommandLineLaws {
  import opened Options
  import opened Quoting
  import opened Switches
  import opened CommandLines

  // ---------- Tokens ----------

  // The ASCII whitespace, on both builds; beyond it, Windows has more and POSIX has none.
  lemma SpacesAre(b: Build, c: char)
    ensures c as int < 0x80 ==> (IsSpace(b, c) <==> c == ' ' || '\t' <= c <= '\r')
    ensures c as int >= 0x80 ==> !IsSpace(Posix, c)
    ensures IsSpace(Windows, '\U{A0}') && IsSpace(Windows, '\U{3000}') && IsSpace(Windows, '\U{2028}')
  {
  }

  // A switch begins with "-", on Windows also with "/"; POSIX paths are no switches.
  lemma SwitchesBegin(b: Build, s: string)
    ensures IsSwitch(b, s) <==> s != "" && (s[0] == '-' || (b == Windows && s[0] == '/'))
    ensures PrefixLength(b, s) == 2 <==> |s| >= 2 && s[0] == '-' && s[1] == '-'
    ensures PrefixLength(b, s) <= 2
  {
    assert |s| >= 2 ==> (s[..2] == "--" <==> s[..2][0] == '-' && s[..2][1] == '-');
  }

  // Only Windows lowers switch names, and only ASCII letters.
  lemma LoweredOnWindows(b: Build, s: string, i: nat)
    requires i < |s|
    ensures LowerOnWindows(Posix, s) == s && |LowerOnWindows(b, s)| == |s|
    ensures b == Windows && 'A' <= s[i] <= 'Z' ==>
      LowerOnWindows(b, s)[i] as int == s[i] as int + ('a' as int - 'A' as int)
    ensures b == Posix || s[i] < 'A' || s[i] > 'Z' ==> LowerOnWindows(b, s)[i] == s[i]
  {
  }

  // Name and value stand before and after the first "=".
  lemma SplitAtEquals(name: string, value: string)
    requires '=' !in name
    ensures SwitchString(name + "=" + value) == name && SwitchValue(name + "=" + value) == value
    ensures SwitchString(name) == name && SwitchValue(name) == ""
  {
    hide FindEquals;
    var s := name + "=" + value;
    FindEqualsIs(s, |name|);
    FindEqualsIs(name, |name|);
    assert s[..|name|] == name && s[|name| + 1..] == value;
  }

  // A name is filed without its prefix, and goes to argv with "--" if it has none.
  lemma NamesAndEntries(b: Build, name: string, value: string)
    requires !IsSwitch(b, name)
    ensures var low, tail := LowerOnWindows(b, name), if value == "" then "" else "=" + value;
      && SwitchKey(b, name) == low == SwitchKey(b, "--" + name) == SwitchKey(b, "-" + name)
      && SwitchEntry(b, name, value) == "--" + low + tail == SwitchEntry(b, "--" + name, value)
      && SwitchEntry(b, "-" + name, value) == "-" + low + tail
      && (b == Windows ==> SwitchKey(b, "/" + name) == low && SwitchEntry(b, "/" + name, value) == "/" + low + tail)
  {
    hide LowerOnWindows, PrefixLength;
    var low := LowerOnWindows(b, name);
    LowerKeeps(b, name);
    assert low[0..] == low;
    LowerBehind(b, "--", name);
    LowerBehind(b, "-", name);
    LowerBehind(b, "/", name);
    SwitchesBegin(b, name);
    PrefixIs(b, low);
    assert ("--" + low)[2..] == low && ("-" + low)[1..] == low && ("/" + low)[1..] == low;
  }

  lemma LowerBehind(b: Build, prefix: string, name: string)
    requires prefix == "--" || prefix == "-" || prefix == "/"
    ensures LowerOnWindows(b, prefix + name) == prefix + LowerOnWindows(b, name)
  {
    hide IsSpace;
    LowerKeeps(b, name);
    LowerKeeps(b, prefix + name);
  }

  lemma PrefixIs(b: Build, low: string)
    requires PrefixLength(b, low) == 0
    ensures PrefixLength(b, "--" + low) == 2 && PrefixLength(b, "-" + low) == 1
    ensures PrefixLength(b, "/" + low) == if b == Windows then 1 else 0
  {
    SwitchesBegin(b, low);
    SwitchesBegin(b, "--" + low);
    SwitchesBegin(b, "-" + low);
    SwitchesBegin(b, "/" + low);
    assert low != "" ==> ("-" + low)[1] == low[0];
  }

  // ---------- GetArgs ----------

  // The tokens that do not begin with "-" (nor with "/" on Windows) up to the first "--"; all after it.
  function Operands(b: Build, ts: seq<string>): seq<string> {
    if ts == [] then []
    else if ts[0] == "--" then ts[1..]
    else if ts[0] != "" && (ts[0][0] == '-' || (b == Windows && ts[0][0] == '/')) then Operands(b, ts[1..])
    else [ts[0]] + Operands(b, ts[1..])
  }

  // These are what GetArgs returns for a command line built from argv.
  lemma ArgsAreOperands(b: Build, argv: seq<string>)
    ensures var ts := Tokens(b, argv);
      && 1 + |SwitchTokens(b, ts)| <= |Rebuilt(b, argv)|
      && RemoveFirst(Rebuilt(b, argv)[1 + |SwitchTokens(b, ts)|..], "--") == Operands(b, ts)
  {
    hide Tokens, Rebuilt, RemoveFirst, SwitchTokens, Filter, FirstTerminator;
    var ts := Tokens(b, argv);
    ArgsOfBuilt(b, argv);
    OperandsAre(b, ts);
  }

  lemma {:induction false} OperandsAre(b: Build, ts: seq<string>)
    ensures var k := FirstTerminator(ts);
      Operands(b, ts) == Filter(b, ts[..k], false) + (if k < |ts| then ts[k + 1..] else [])
  {
    hide Filter, FirstTerminator, IsSwitch;
    PartitionStart(b, ts);
    if ts != [] && ts[0] != "--" {
      OperandsAre(b, ts[1..]);
      PartitionStep(b, ts, FirstTerminator(ts[1..]));
      SwitchesBegin(b, ts[0]);
    }
  }

  lemma AbsolutePathIsArgument()
    ensures Operands(Posix, ["/tmp/x", "-v", "a", "--", "-b"]) == ["/tmp/x", "a", "-b"]
    ensures Operands(Windows, ["/tmp/x", "-v", "a", "--", "-b"]) == ["a", "-b"]
  {
    var ts := ["/tmp/x", "-v", "a", "--", "-b"];
    assert ts[1..] == ["-v", "a", "--", "-b"] && ts[1..][1..] == ["a", "--", "-b"];
    assert ts[1..][1..][1..] == ["--", "-b"] && ts[1..][1..][1..][1..] == ["-b"];
  }

  // ---------- Looking up a switch ----------

  // The name of a switch token, as it is filed: no prefix, no value, lowered on Windows.
  function NameOf(b: Build, t: string): string
    requires IsSwitch(b, t)
  {
    SwitchKey(b, SwitchString(t))
  }

  // The value that the last token with the name gives, before the first "--".
  function Asked(b: Build, ts: seq<string>, key: string): Option<string> {
    if ts == [] || ts[0] == "--" then None
    else
      var later := Asked(b, ts[1..], key);
      if later.Some? then later
      else if IsSwitch(b, ts[0]) && NameOf(b, ts[0]) == key then Some(SwitchValue(ts[0]))
      else None
  }

  // That is what looking up finds after the tokens have been added to switches.
  lemma {:induction false} FiledIsAsked(b: Build, switches: map<string, string>, ts: seq<string>, key: string)
    ensures var filed, asked := File(b, switches, Entries(b, SwitchTokens(b, ts))), Asked(b, ts, key);
      && (key in filed <==> asked.Some? || key in switches)
      && (key in filed ==> filed[key] == if asked.Some? then asked.value else switches[key])
    decreases |ts|
  {
    hide File, Entries, TokenEntry, SwitchValue, IsSwitch, EntryKey, SwitchKey, SwitchString;
    EntriesCons(b, "", []);
    FileNothing(b, switches);
    if ts != [] && ts[0] != "--" {
      if IsSwitch(b, ts[0]) {
        var t, more := ts[0], SwitchTokens(b, ts[1..]);
        var e := TokenEntry(b, t);
        EntriesCons(b, t, more);
        TokenName(b, t);
        FileCons(b, switches, e, Entries(b, more));
        FiledIsAsked(b, switches[EntryKey(b, e) := SwitchValue(e)], ts[1..], key);
        assert SwitchTokens(b, ts) == [t] + more;
      } else {
        FiledIsAsked(b, switches, ts[1..], key);
        assert SwitchTokens(b, ts) == SwitchTokens(b, ts[1..]);
      }
    }
  }

  lemma FileNothing(b: Build, switches: map<string, string>)
    ensures File(b, switches, []) == switches
  {
  }

  lemma {:induction false} FileCons(b: Build, switches: map<string, string>, e: string, es: seq<string>)
    ensures File(b, switches, [e] + es) == File(b, switches[EntryKey(b, e) := SwitchValue(e)], es)
  {
    hide EntryKey, SwitchValue;
    if es == [] {
      assert [e] + es == [] + [e];
      FileAppend(b, switches, [], e);
    } else {
      var init, last := es[..|es| - 1], es[|es| - 1];
      assert [e] + es == ([e] + init) + [last] && es == init + [last];
      FileCons(b, switches, e, init);
      FileAppend(b, switches, [e] + init, last);
      FileAppend(b, switches[EntryKey(b, e) := SwitchValue(e)], init, last);
    }
  }

  // Between the program and the divider stand tokens that begin like switches, and they are what the map
  // is made of.
  lemma EntriesBeforeDivider(b: Build, argv: seq<string>, switches: map<string, string>, begin: int, i: nat)
    requires Agree(b, argv, switches, begin) && 1 <= i < begin
    ensures argv[i] != "" && (argv[i][0] == '-' || (b == Windows && argv[i][0] == '/'))
    ensures EntryKey(b, argv[i]) in switches
  {
    hide EntryKey, LastIndex, IsSwitch, SwitchValue;
    var entries, key := argv[1..begin], EntryKey(b, argv[i]);
    SwitchesBegin(b, argv[i]);
    FiledValues(b, entries, key);
    assert EntryKeys(b, entries)[i - 1] == key;
  }

  // ---------- Copying switches ----------

  // The key is one of the names given, and the source has a switch of that name.
  predicate Chosen(b: Build, source: map<string, string>, names: seq<string>, key: string) {
    key in source && exists n :: n in names && LowerOnWindows(b, n) == key
  }

  // For names given without a prefix, copying adds exactly those switches, with their values.
  lemma {:induction false} CopiedAre(b: Build, switches: map<string, string>, source: map<string, string>,
                                     names: seq<string>, key: string)
    requires forall n :: n in names ==> !IsSwitch(b, n)
    ensures var copied, chosen := CopyInto(b, switches, source, names), Chosen(b, source, names, key);
      && (key in copied <==> chosen || key in switches)
      && (key in copied ==> copied[key] == if chosen then source[key] else switches[key])
  {
    hide LowerOnWindows, IsSwitch, Chosen, SwitchKey, CopyInto, CopyEntries, SwitchEntry;
    CopyStart(b, switches, source, names);
    assert names[..0] == [];
    if names == [] {
      NoneChosen(b, source, key);
    } else {
      var init, last := names[..|names| - 1], names[|names| - 1];
      CopiedAre(b, switches, source, init, key);
      NamesAndEntries(b, last, "");
      CopyStep(b, switches, source, names, |init|);
      assert names == init + [last] && names[..|init| + 1] == names;
      MoreChosen(b, source, init, last, key);
    }
  }

  lemma NoneChosen(b: Build, source: map<string, string>, key: string)
    ensures !Chosen(b, source, [], key)
  {
  }

  lemma MoreChosen(b: Build, source: map<string, string>, init: seq<string>, last: string, key: string)
    ensures Chosen(b, source, init + [last], key) <==>
      Chosen(b, source, init, key) || (key in source && LowerOnWindows(b, last) == key)
  {
    hide LowerOnWindows;
    assert last in init + [last];
    assert forall n :: n in init ==> n in init + [last];
  }

  // ---------- Printing on POSIX ----------

  // The entries with single spaces between them.
  function Joined(es: seq<string>): string {
    if es == [] then "" else if |es| == 1 then es[0] else es[0] + " " + Joined(es[1..])
  }

  // On POSIX nothing is quoted; only a switch that ends in its "=" is printed without it.
  lemma PrintedOnPosix(e: string, parseSwitches: bool)
    ensures Printed(Posix, e, parseSwitches) ==
      if parseSwitches && e != "" && e[0] == '-' && FindEquals(e) == |e| - 1 then e[..|e| - 1] else e
  {
    hide FindEquals, IsSwitch, Quote;
    SwitchesBegin(Posix, e);
    Terminator();
    EqualsParts(e);
  }

  lemma EqualsParts(e: string)
    ensures e == if FindEquals(e) < |e| then SwitchString(e) + "=" + SwitchValue(e) else SwitchString(e)
    ensures SwitchValue(e) == "" <==> FindEquals(e) >= |e| - 1
  {
    hide FindEquals;
    CutAt(e, FindEquals(e));
  }

  lemma CutAt(e: string, at: nat)
    requires at <= |e| && (at < |e| ==> e[at] == '=')
    ensures e == if at < |e| then e[..at] + "=" + e[at + 1..] else e[..at]
  {
    if at < |e| {
      assert e[at..] == ['='] + e[at + 1..];
      assert e == e[..at] + e[at..];
    }
  }

  lemma Terminator()
    ensures FindEquals("--") == 2
  {
    FindEqualsIs("--", 2);
  }

  // Does an entry hold nothing after its first "="?
  predicate BareEquals(e: string) {
    e != "" && e[0] == '-' && FindEquals(e) == |e| - 1
  }

  lemma {:induction false} JoinedOnPosix(es: seq<string>, parseSwitches: bool)
    requires parseSwitches ==> forall i :: 0 <= i < FirstTerminator(es) ==> !BareEquals(es[i])
    ensures PrintRest(Posix, es, parseSwitches) == if es == [] then "" else " " + Joined(es)
    decreases |es|
  {
    hide FindEquals, Printed;
    if es != [] {
      PrintedOnPosix(es[0], parseSwitches && es[0] != TERMINATOR);
      JoinedOnPosix(es[1..], parseSwitches && es[0] != TERMINATOR);
      DashesAreIntact(es[0], parseSwitches);
    }
  }

  lemma DashesAreIntact(e: string, parseSwitches: bool)
    ensures e == TERMINATOR ==> Printed(Posix, e, parseSwitches) == e
  {
  }

  lemma EntryIsIntact(t: string)
    ensures !BareEquals(TokenEntry(Posix, t))
  {
    hide LowerOnWindows, PrefixLength;
    TokenName(Posix, t);
    EntryReadsBack(Posix, SwitchString(t), SwitchValue(t));
    hide SwitchEntry, EntryHead;
    EntryParts(Posix, SwitchString(t), SwitchValue(t));
  }

  lemma EntryParts(b: Build, name: string, value: string)
    ensures SwitchEntry(b, name, value) == EntryHead(b, name) + if value != "" then "=" + value else ""
  {
  }

  lemma ArgIsIntact(ts: seq<string>, i: nat)
    requires i < FirstTerminator(ArgTokens(Posix, ts))
    ensures !BareEquals(ArgTokens(Posix, ts)[i])
  {
    hide IsSwitch, ArgTokens, Filter, FindEquals, FirstTerminator;
    var k := FirstTerminator(ts);
    var plain := Filter(Posix, ts[..k], false);
    StablePartition(Posix, ts);
    FilterKeeps(Posix, ts[..k], false);
    assert k < |ts| ==> ArgTokens(Posix, ts)[|plain|] == TERMINATOR;
    assert i < |plain| && plain[i] in plain;
    SwitchesBegin(Posix, plain[i]);
  }

  // A command line built on POSIX is printed as its entries with single spaces between them; a space
  // inside an entry is printed alike.
  lemma BuiltOnPosix(args: seq<string>)
    ensures PrintLine(Posix, Rebuilt(Posix, args)) == Joined(Rebuilt(Posix, args))
    ensures PrintLine(Posix, ["p", "a b"]) == "p a b" == PrintLine(Posix, ["p", "a", "b"])
  {
    hide Entries, ArgTokens, SwitchTokens, Tokens, BareEquals, FirstTerminator, Printed, PrintRest, Joined, Trim;
    var ts := Tokens(Posix, args);
    var entries, rest := Entries(Posix, SwitchTokens(Posix, ts)), ArgTokens(Posix, ts);
    var es := entries + rest;
    forall i | 0 <= i < FirstTerminator(es) ensures !BareEquals(es[i]) {
      if i < |entries| {
        EntryAt(SwitchTokens(Posix, ts), i);
      } else {
        var j := i - |entries|;
        var k := FirstTerminator(rest);
        assert k < |rest| ==> es[|entries| + k] == TERMINATOR;
        ArgIsIntact(ts, j);
      }
    }
    JoinedOnPosix(es, true);
    var argv := Rebuilt(Posix, args);
    assert argv[1..] == es;
    JoinedCons(argv);
    PrintedAlike();
  }

  lemma EntryAt(ts: seq<string>, i: nat)
    requires i < |ts|
    ensures !BareEquals(Entries(Posix, ts)[i])
  {
    hide TokenEntry, BareEquals;
    EntryIsIntact(ts[i]);
  }

  lemma JoinedCons(es: seq<string>)
    requires es != []
    ensures Joined(es) == es[0] + if es[1..] == [] then "" else " " + Joined(es[1..])
  {
  }

  lemma PrintedAlike()
    ensures PrintLine(Posix, ["p", "a b"]) == "p a b" == PrintLine(Posix, ["p", "a", "b"])
  {
    hide Printed;
    PrintedOnPosix("a b", true);
    PrintedOnPosix("a", true);
    PrintedOnPosix("b", true);
    assert ["p", "a b"][1..] == ["a b"] && ["p", "a", "b"][1..] == ["a", "b"] && ["a", "b"][1..] == ["b"];
    assert ["a b"][1..] == [] && ["b"][1..] == [];
    assert PrintRest(Posix, ["a b"], true) == " a b" && PrintRest(Posix, ["b"], true) == " b";
  }
}
