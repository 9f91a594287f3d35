// The CommandLine class of base/command_line.cc: argv_ with switches before arguments, the divider
// begin_args_, and the map switches_ that must agree with the switch part of argv_.

module CommandLines {
  import opened Quoting
  import opened Switches

  // ---------- Sorting tokens into switches and arguments ----------

  function TrimAll(b: Build, argv: seq<string>): (r: seq<string>)
    ensures |r| == |argv| && forall i :: 0 <= i < |r| ==> r[i] == Trim(b, argv[i])
  {
    seq(|argv|, i requires 0 <= i < |argv| => Trim(b, argv[i]))
  }

  // The tokens of an argv: all but the program, trimmed.
  function Tokens(b: Build, argv: seq<string>): seq<string> {
    if argv == [] then [] else TrimAll(b, argv[1..])
  }

  // The tokens from index i of argv on.
  function TokensFrom(b: Build, argv: seq<string>, i: nat): seq<string> {
    if i < |argv| then TrimAll(b, argv[i..]) else []
  }

  lemma TokensFromNext(b: Build, argv: seq<string>, i: nat)
    requires i < |argv|
    ensures var ts := TokensFrom(b, argv, i);
      ts != [] && ts[0] == Trim(b, argv[i]) && ts[1..] == TokensFrom(b, argv, i + 1)
  {
    hide Trim;
  }

  lemma TokensFromEnd(b: Build, argv: seq<string>, i: nat)
    requires i >= |argv|
    ensures TokensFrom(b, argv, i) == []
  {
  }

  // Switches up to the first terminator.
  function SwitchTokens(b: Build, ts: seq<string>): seq<string> {
    if ts == [] || ts[0] == TERMINATOR then []
    else (if IsSwitch(b, ts[0]) then [ts[0]] else []) + SwitchTokens(b, ts[1..])
  }

  // The other tokens, and everything from the first terminator on.
  function ArgTokens(b: Build, ts: seq<string>): seq<string> {
    if ts == [] || ts[0] == TERMINATOR then ts
    else (if IsSwitch(b, ts[0]) then [] else [ts[0]]) + ArgTokens(b, ts[1..])
  }

  function TokenEntry(b: Build, t: string): string {
    SwitchEntry(b, SwitchString(t), SwitchValue(t))
  }

  function Entries(b: Build, ts: seq<string>): (r: seq<string>)
    ensures |r| == |ts|
  {
    seq(|ts|, i requires 0 <= i < |ts| => TokenEntry(b, ts[i]))
  }

  // The argv that a command line built from argv holds.
  function Rebuilt(b: Build, argv: seq<string>): seq<string> {
    var ts := Tokens(b, argv);
    [if argv == [] then "" else Trim(b, argv[0])] + Entries(b, SwitchTokens(b, ts)) + ArgTokens(b, ts)
  }

  // Index of the first terminator, or the length.
  function FirstTerminator(ts: seq<string>): (k: nat)
    ensures k <= |ts| && (k < |ts| ==> ts[k] == TERMINATOR)
    ensures forall i :: 0 <= i < k ==> ts[i] != TERMINATOR
  {
    if ts == [] || ts[0] == TERMINATOR then 0 else FirstTerminator(ts[1..]) + 1
  }

  // The tokens that are switches, or those that are not, in order.
  function Filter(b: Build, ts: seq<string>, switches: bool): seq<string> {
    if ts == [] then [] else (if IsSwitch(b, ts[0]) == switches then [ts[0]] else []) + Filter(b, ts[1..], switches)
  }

  // Sorting is a stable partition of the tokens before the first terminator.
  lemma {:induction false} StablePartition(b: Build, ts: seq<string>)
    ensures var k := FirstTerminator(ts);
      && SwitchTokens(b, ts) == Filter(b, ts[..k], true)
      && ArgTokens(b, ts) == Filter(b, ts[..k], false) + ts[k..]
  {
    hide IsSwitch, Filter, FirstTerminator;
    PartitionStart(b, ts);
    if ts != [] && ts[0] != TERMINATOR {
      StablePartition(b, ts[1..]);
      PartitionStep(b, ts, FirstTerminator(ts[1..]));
    }
  }

  lemma PartitionStart(b: Build, ts: seq<string>)
    ensures if ts != [] && ts[0] != TERMINATOR then FirstTerminator(ts) == FirstTerminator(ts[1..]) + 1
            else FirstTerminator(ts) == 0
    ensures forall switches :: Filter(b, ts[..0], switches) == []
    ensures ts[0..] == ts
  {
  }

  lemma PartitionStep(b: Build, ts: seq<string>, k: nat)
    requires k < |ts|
    ensures forall switches :: Filter(b, ts[..k + 1], switches) ==
              (if IsSwitch(b, ts[0]) == switches then [ts[0]] else []) + Filter(b, ts[1..][..k], switches)
    ensures ts[k + 1..] == ts[1..][k..]
  {
    hide IsSwitch;
    assert ts[..k + 1][1..] == ts[1..][..k] && ts[..k + 1][0] == ts[0];
  }

  lemma {:induction false} FilterKeeps(b: Build, ts: seq<string>, switches: bool)
    ensures forall t :: t in Filter(b, ts, switches) <==> t in ts && IsSwitch(b, t) == switches
  {
    hide IsSwitch;
    if ts != [] {
      FilterKeeps(b, ts[1..], switches);
      assert ts == [ts[0]] + ts[1..];
    }
  }

  function RemoveFirst(args: seq<string>, t: string): seq<string> {
    if args == [] then [] else if args[0] == t then args[1..] else [args[0]] + RemoveFirst(args[1..], t)
  }

  lemma {:induction false} RemoveFirstAt(before: seq<string>, after: seq<string>, t: string)
    requires t !in before
    ensures RemoveFirst(before + [t] + after, t) == before + after
    ensures RemoveFirst(before, t) == before
  {
    var all := before + [t] + after;
    if before == [] {
      assert all == [t] + after && all[1..] == after;
    } else {
      var more := before[1..];
      assert before == [before[0]] + more && t !in more;
      RemoveFirstAt(more, after, t);
      assert all == [before[0]] + (more + [t] + after);
      assert all[1..] == more + [t] + after;
    }
  }

  // GetArgs of a command line built from argv: the non-switch tokens before the first terminator,
  // then everything after it.
  lemma ArgsOfBuilt(b: Build, argv: seq<string>)
    ensures var ts := Tokens(b, argv);
      var k := FirstTerminator(ts);
      && 1 + |SwitchTokens(b, ts)| <= |Rebuilt(b, argv)|
      && RemoveFirst(Rebuilt(b, argv)[1 + |SwitchTokens(b, ts)|..], TERMINATOR) ==
         Filter(b, ts[..k], false) + (if k < |ts| then ts[k + 1..] else [])
  {
    hide RemoveFirst, Filter, ArgTokens, SwitchTokens, Tokens, FirstTerminator, Trim;
    var ts := Tokens(b, argv);
    assert Rebuilt(b, argv)[1 + |SwitchTokens(b, ts)|..] == ArgTokens(b, ts);
    ArgsWithoutTerminator(b, ts);
  }

  lemma ArgsWithoutTerminator(b: Build, ts: seq<string>)
    ensures var k := FirstTerminator(ts);
      RemoveFirst(ArgTokens(b, ts), TERMINATOR) ==
      Filter(b, ts[..k], false) + (if k < |ts| then ts[k + 1..] else [])
  {
    hide RemoveFirst, Filter, IsSwitch, ArgTokens, SwitchTokens;
    var k := FirstTerminator(ts);
    var plain := Filter(b, ts[..k], false);
    StablePartition(b, ts);
    FilterKeeps(b, ts[..k], false);
    hide FirstTerminator;
    var after := if k < |ts| then ts[k + 1..] else [];
    RemoveFirstAt(plain, after, TERMINATOR);
    if k < |ts| {
      assert plain + ts[k..] == plain + [TERMINATOR] + after;
    } else {
      assert plain + ts[k..] == plain && plain + after == plain;
    }
  }

  // ---------- Agreement of argv and switches ----------

  // Filing one more switch keeps map and entries in agreement exactly when its name has no '='.
  lemma IndexAgreementStep(b: Build, entries: seq<string>, name: string, value: string)
    ensures IsSwitch(b, SwitchEntry(b, name, value))
    ensures '=' !in name <==>
            File(b, map[], entries)[SwitchKey(b, name) := value] == File(b, map[], entries + [SwitchEntry(b, name, value)])
  {
    var e := SwitchEntry(b, name, value);
    FileAppend(b, map[], entries, e);
    EntryIsSwitch(b, name, value);
    if '=' !in name {
      EntryReadsBack(b, name, value);
      hide File, EntryKey, SwitchKey, SwitchEntry, SwitchValue, IsSwitch;
    } else {
      KeyKeepsEquals(b, name);
      hide File, EntryKey, SwitchKey, SwitchEntry, SwitchValue, IsSwitch;
      KeysHaveNoEquals(b, entries + [e], SwitchKey(b, name));
      assert SwitchKey(b, name) in File(b, map[], entries)[SwitchKey(b, name) := value];
    }
  }

  lemma EntryIsSwitch(b: Build, name: string, value: string)
    ensures IsSwitch(b, SwitchEntry(b, name, value))
  {
    hide LowerOnWindows;
    var combined := LowerOnWindows(b, name);
    var head := EntryHead(b, name);
    var e := SwitchEntry(b, name, value);
    assert head <= e && head != "" && IsSwitch(b, head);
    assert e[0] == head[0];
    if |e| >= 2 && e[..2] == "--" { } else { assert e[0] == '-' || (b == Windows && e[0] == '/'); }
  }

  lemma KeyKeepsEquals(b: Build, name: string)
    requires '=' in name
    ensures '=' in SwitchKey(b, name)
  {
    LowerKeeps(b, name);
    var lower := LowerOnWindows(b, name);
    var i :| 0 <= i < |name| && name[i] == '=';
    assert SameRole(b, name[i], lower[i]);
    var n := PrefixLength(b, lower);
    assert i >= n by {
      assert n == 2 ==> lower[0] == lower[..2][0] && lower[1] == lower[..2][1];
    }
    assert SwitchKey(b, name)[i - n] == '=';
  }

  lemma KeysHaveNoEquals(b: Build, entries: seq<string>, key: string)
    requires '=' in key
    ensures key !in File(b, map[], entries)
  {
    FiledValues(b, entries, key);
    forall i | 0 <= i < |entries| ensures EntryKeys(b, entries)[i] != key {
      assert '=' !in SwitchString(entries[i]);
      assert '=' !in EntryKey(b, entries[i]);
    }
  }

  // The entries that CopySwitchesFrom adds, given the switches of its source.
  function CopyEntries(b: Build, source: map<string, string>, names: seq<string>): seq<string> {
    if names == [] then []
    else
      var last := names[|names| - 1];
      var key := LowerOnWindows(b, last);
      CopyEntries(b, source, names[..|names| - 1]) + if key in source then [SwitchEntry(b, last, source[key])] else []
  }

  function CopyInto(b: Build, switches: map<string, string>, source: map<string, string>, names: seq<string>)
    : map<string, string>
  {
    if names == [] then switches
    else
      var last := names[|names| - 1];
      var key := LowerOnWindows(b, last);
      var before := CopyInto(b, switches, source, names[..|names| - 1]);
      if key in source then before[SwitchKey(b, last) := source[key]] else before
  }

  // ---------- Printing ----------

  function QuoteOnWindows(b: Build, s: string): string {
    if b == Windows then Quote(s) else s
  }

  // One entry as GetCommandLineString prints it: of a switch, only the value is quoted.
  function Printed(b: Build, e: string, parseSwitches: bool): string {
    if parseSwitches && e != TERMINATOR && IsSwitch(b, e) then
      SwitchString(e) + (if SwitchValue(e) != "" then "=" + QuoteOnWindows(b, SwitchValue(e)) else "")
    else QuoteOnWindows(b, e)
  }

  function PrintRest(b: Build, es: seq<string>, parseSwitches: bool): string {
    if es == [] then ""
    else " " + Printed(b, es[0], parseSwitches) + PrintRest(b, es[1..], parseSwitches && es[0] != TERMINATOR)
  }

  function PrintLine(b: Build, argv: seq<string>): string
    requires argv != []
  {
    QuoteOnWindows(b, argv[0]) + PrintRest(b, argv[1..], true)
  }

  // ---------- What the methods do to the parts of argv ----------

  // argv, the map and the divider agree: the switch part holds switches only, and the map files them.
  ghost predicate Agree(b: Build, argv: seq<string>, switches: map<string, string>, begin: int) {
    && 1 <= begin <= |argv|
    && (forall i :: 1 <= i < begin ==> IsSwitch(b, argv[i]))
    && switches == File(b, map[], argv[1..begin])
  }

  lemma AgreeInsert(b: Build, argv: seq<string>, switches: map<string, string>, begin: int, name: string, value: string)
    requires Agree(b, argv, switches, begin)
    ensures '=' !in name <==>
      Agree(b, argv[..begin] + [SwitchEntry(b, name, value)] + argv[begin..], switches[SwitchKey(b, name) := value], begin + 1)
  {
    var entries, e := argv[1..begin], SwitchEntry(b, name, value);
    var argv' := argv[..begin] + [e] + argv[begin..];
    IndexAgreementStep(b, entries, name, value);
    hide SwitchEntry, SwitchKey, IsSwitch, File;
    assert argv'[1..begin + 1] == entries + [e];
    assert forall i :: 1 <= i < begin ==> argv'[i] == argv[i];
    assert argv'[begin] == e;
  }

  // Neither the program nor the arguments matter to it.
  lemma AgreeElsewhere(b: Build, argv: seq<string>, argv': seq<string>, switches: map<string, string>, begin: int)
    requires Agree(b, argv, switches, begin) && begin <= |argv'| && argv'[1..begin] == argv[1..begin]
    ensures Agree(b, argv', switches, begin)
  {
    hide IsSwitch, File;
    assert forall i :: 1 <= i < begin ==> argv'[i] == argv'[1..begin][i - 1] && argv[i] == argv[1..begin][i - 1];
  }

  function Lay(head: seq<string>, es: seq<string>, tail: seq<string>, rest: seq<string>): seq<string> {
    head + es + tail + rest
  }

  lemma LayMore(head: seq<string>, es: seq<string>, tail: seq<string>, rest: seq<string>, e: string)
    ensures var argv, n := Lay(head, es, tail, rest), |head| + |es|;
      && n <= |argv| && argv[..n] + [e] + argv[n..] == Lay(head, es + [e], tail, rest)
      && argv + [e] == Lay(head, es, tail, rest + [e])
  {
    var argv, n := Lay(head, es, tail, rest), |head| + |es|;
    assert argv[..n] == head + es && argv[n..] == tail + rest;
  }

  // Switches and arguments still to come while the tokens ts are left.
  function SwitchesLeft(b: Build, ts: seq<string>, parseSwitches: bool): seq<string> {
    if parseSwitches then SwitchTokens(b, ts) else []
  }

  function ArgsLeft(b: Build, ts: seq<string>, parseSwitches: bool): seq<string> {
    if parseSwitches then ArgTokens(b, ts) else ts
  }

  // es and rest, with what is left, make up all switch entries and all arguments.
  ghost predicate Sorting(b: Build, left: seq<string>, parseSwitches: bool, es: seq<string>, rest: seq<string>,
                          allEs: seq<string>, allArgs: seq<string>)
  {
    && es + Entries(b, SwitchesLeft(b, left, parseSwitches)) == allEs
    && rest + ArgsLeft(b, left, parseSwitches) == allArgs
  }

  lemma SortSwitch(b: Build, left: seq<string>, es: seq<string>, rest: seq<string>,
                   allEs: seq<string>, allArgs: seq<string>)
    requires left != [] && left[0] != TERMINATOR && IsSwitch(b, left[0])
    requires Sorting(b, left, true, es, rest, allEs, allArgs)
    ensures Sorting(b, left[1..], true, es + [TokenEntry(b, left[0])], rest, allEs, allArgs)
  {
    hide TokenEntry, IsSwitch, Entries;
    var more := SwitchTokens(b, left[1..]);
    EntriesCons(b, left[0], more);
    assert es + ([TokenEntry(b, left[0])] + Entries(b, more)) == (es + [TokenEntry(b, left[0])]) + Entries(b, more);
  }

  lemma SortArg(b: Build, left: seq<string>, parseSwitches: bool, es: seq<string>, rest: seq<string>,
                allEs: seq<string>, allArgs: seq<string>)
    requires left != [] && !(parseSwitches && left[0] != TERMINATOR && IsSwitch(b, left[0]))
    requires Sorting(b, left, parseSwitches, es, rest, allEs, allArgs)
    ensures Sorting(b, left[1..], parseSwitches && left[0] != TERMINATOR, es, rest + [left[0]], allEs, allArgs)
  {
    var parse := parseSwitches && left[0] != TERMINATOR;
    ArgLeft(b, left, parseSwitches);
    hide Entries, SwitchesLeft, ArgsLeft, IsSwitch;
    Regroup(rest, left[0], ArgsLeft(b, left[1..], parse));
  }

  lemma Regroup(before: seq<string>, t: string, after: seq<string>)
    ensures before + ([t] + after) == before + [t] + after
  {
  }

  lemma ArgLeft(b: Build, left: seq<string>, parseSwitches: bool)
    requires left != [] && !(parseSwitches && left[0] != TERMINATOR && IsSwitch(b, left[0]))
    ensures var parse := parseSwitches && left[0] != TERMINATOR;
      && SwitchesLeft(b, left, parseSwitches) == SwitchesLeft(b, left[1..], parse)
      && ArgsLeft(b, left, parseSwitches) == [left[0]] + ArgsLeft(b, left[1..], parse)
  {
    hide IsSwitch;
    assert left == [left[0]] + left[1..];
  }

  predicate AsSwitch(b: Build, token: string, parseSwitches: bool) {
    parseSwitches && token != TERMINATOR && IsSwitch(b, token)
  }

  function MoreEntries(b: Build, es: seq<string>, token: string, asSwitch: bool): seq<string> {
    if asSwitch then es + [TokenEntry(b, token)] else es
  }

  function MoreArgs(rest: seq<string>, token: string, asSwitch: bool): seq<string> {
    if asSwitch then rest else rest + [token]
  }

  lemma SortToken(b: Build, left: seq<string>, parseSwitches: bool, es: seq<string>, rest: seq<string>,
                  allEs: seq<string>, allArgs: seq<string>)
    requires left != [] && Sorting(b, left, parseSwitches, es, rest, allEs, allArgs)
    ensures var t, asSwitch := left[0], AsSwitch(b, left[0], parseSwitches);
      Sorting(b, left[1..], parseSwitches && t != TERMINATOR, MoreEntries(b, es, t, asSwitch), MoreArgs(rest, t, asSwitch),
              allEs, allArgs)
  {
    hide Sorting, TokenEntry, IsSwitch;
    if AsSwitch(b, left[0], parseSwitches) {
      SortSwitch(b, left, es, rest, allEs, allArgs);
    } else {
      SortArg(b, left, parseSwitches, es, rest, allEs, allArgs);
    }
  }

  lemma SortEnds(b: Build, parseSwitches: bool, es: seq<string>, rest: seq<string>, allEs: seq<string>, allArgs: seq<string>)
    requires Sorting(b, [], parseSwitches, es, rest, allEs, allArgs)
    ensures es == allEs && rest == allArgs
  {
    EntriesCons(b, "", []);
  }

  lemma SortStarts(b: Build, args: seq<string>, switches: map<string, string>)
    ensures var ts := Tokens(b, args);
      Sorting(b, TokensFrom(b, args, 1), true, [], [], Entries(b, SwitchTokens(b, ts)), ArgTokens(b, ts))
    ensures File(b, switches, []) == switches
  {
    hide Entries, SwitchTokens, ArgTokens, Trim;
  }

  lemma EntriesCons(b: Build, t: string, ts: seq<string>)
    ensures Entries(b, [t] + ts) == [TokenEntry(b, t)] + Entries(b, ts)
    ensures Entries(b, []) == []
  {
    hide TokenEntry;
  }

  lemma TokenName(b: Build, t: string)
    ensures '=' !in SwitchString(t)
    ensures SwitchEntry(b, SwitchString(t), SwitchValue(t)) == TokenEntry(b, t)
    ensures EntryKey(b, TokenEntry(b, t)) == SwitchKey(b, SwitchString(t))
    ensures SwitchValue(TokenEntry(b, t)) == SwitchValue(t)
  {
    assert '=' !in SwitchString(t);
    EntryReadsBack(b, SwitchString(t), SwitchValue(t));
  }

  lemma LayStart(argv: seq<string>, begin: nat)
    requires begin <= |argv|
    ensures Lay(argv[..begin], [], argv[begin..], []) == argv
  {
  }

  // A name that finds a switch of an agreeing command line has no '='.
  lemma KnownNameHasNoEquals(b: Build, argv: seq<string>, switches: map<string, string>, begin: int, name: string)
    requires Agree(b, argv, switches, begin) && LowerOnWindows(b, name) in switches
    ensures '=' !in name
  {
    if '=' in name {
      LowerKeeps(b, name);
      var i :| 0 <= i < |name| && name[i] == '=';
      assert SameRole(b, name[i], LowerOnWindows(b, name)[i]);
      KeysHaveNoEquals(b, argv[1..begin], LowerOnWindows(b, name));
    }
  }

  lemma StartAgrees(b: Build)
    ensures Agree(b, [""], map[], 1)
    ensures Trim(b, "") == ""
  {
  }

  lemma RebuiltLayout(b: Build, args: seq<string>)
    ensures var ts := Tokens(b, args);
      Rebuilt(b, args) ==
      Lay([if args == [] then "" else Trim(b, args[0])], Entries(b, SwitchTokens(b, ts)), [], ArgTokens(b, ts))
  {
    hide Entries, SwitchTokens, ArgTokens, Tokens, Trim;
  }

  lemma CopyStart(b: Build, switches: map<string, string>, source: map<string, string>, names: seq<string>)
    ensures CopyEntries(b, source, names[..0]) == [] && CopyInto(b, switches, source, names[..0]) == switches
  {
  }

  // One more name.
  lemma CopyStep(b: Build, switches: map<string, string>, source: map<string, string>, names: seq<string>, i: nat)
    requires i < |names|
    ensures var key, es := LowerOnWindows(b, names[i]), CopyEntries(b, source, names[..i]);
      var before := CopyInto(b, switches, source, names[..i]);
      if key in source then
        && CopyEntries(b, source, names[..i + 1]) == es + [SwitchEntry(b, names[i], source[key])]
        && CopyInto(b, switches, source, names[..i + 1]) == before[SwitchKey(b, names[i]) := source[key]]
      else
        && CopyEntries(b, source, names[..i + 1]) == es
        && CopyInto(b, switches, source, names[..i + 1]) == before
  {
    hide SwitchKey, SwitchEntry, LowerOnWindows;
    assert names[..i + 1][..i] == names[..i] && names[..i + 1][i] == names[i];
  }

  lemma PrintRestStep(b: Build, s: string, argv: seq<string>, i: nat, parseSwitches: bool)
    requires i < |argv|
    ensures var parse := parseSwitches && argv[i] != TERMINATOR;
      s + PrintRest(b, argv[i..], parseSwitches) ==
      s + " " + Printed(b, argv[i], parse) + PrintRest(b, argv[i + 1..], parse)
  {
    hide IsSwitch, SwitchString, SwitchValue, Quote;
    assert argv[i..][1..] == argv[i + 1..];
  }

  lemma PrintNothing(b: Build, s: string, parseSwitches: bool)
    ensures s + PrintRest(b, [], parseSwitches) == s
  {
  }

  class CommandLine {
    const build: Build
    var argv: seq<string>
    var switches: map<string, string>
    var beginArgs: nat

    ghost predicate Valid()
      reads this
    {
      1 <= beginArgs <= |argv|
    }

    ghost predicate Agrees()
      reads this
    {
      Agree(build, argv, switches, beginArgs)
    }

    constructor NoProgram(b: Build)
      ensures build == b && argv == [""] && beginArgs == 1 && switches == map[] && Agrees()
    {
      build, argv, beginArgs, switches := b, [""], 1, map[];
    }

    constructor FromProgram(b: Build, program: string)
      ensures build == b && argv == [Trim(b, program)] && beginArgs == 1 && switches == map[] && Agrees()
    {
      build, argv, beginArgs, switches := b, [""], 1, map[];
      new;
      SetProgram(program);
    }

    constructor FromArgv(b: Build, args: seq<string>)
      ensures build == b && argv == Rebuilt(b, args)
      ensures beginArgs == 1 + |SwitchTokens(b, Tokens(b, args))| && Agrees()
    {
      build, argv, beginArgs, switches := b, [""], 1, map[];
      new;
      InitFromArgv(args);
    }

    // switches is not cleared: agreement needs a command line that has had no switches yet.
    method InitFromArgv(args: seq<string>)
      modifies this
      ensures argv == Rebuilt(build, args)
      ensures beginArgs == 1 + |SwitchTokens(build, Tokens(build, args))|
      ensures switches == File(build, old(switches), Entries(build, SwitchTokens(build, Tokens(build, args))))
      ensures old(switches) == map[] ==> Agrees()
    {
      hide Agree, Lay, Rebuilt, Entries, SwitchTokens, ArgTokens, Tokens, File, Trim, Trimmed, IsSpace;
      argv := [""];
      beginArgs := 1;
      StartAgrees(build);
      SetProgram(if args == [] then "" else args[0]);
      assert argv[..beginArgs] == [if args == [] then "" else Trim(build, args[0])] && argv[beginArgs..] == [];
      AppendSwitchesAndArguments(args);
      RebuiltLayout(build, args);
    }

    method SetProgram(program: string)
      requires Valid()
      modifies this`argv
      ensures argv == old(argv)[0 := Trim(build, program)]
      ensures old(Agrees()) ==> Agrees()
    {
      argv := argv[0 := Trim(build, program)];
      if old(Agrees()) {
        AgreeElsewhere(build, old(argv), argv, switches, beginArgs);
      }
    }

    predicate HasSwitch(name: string)
      reads this
    {
      LowerOnWindows(build, name) in switches
    }

    function GetSwitchValueNative(name: string): string
      reads this
    {
      var key := LowerOnWindows(build, name);
      if key in switches then switches[key] else ""
    }

    // Looking up a name finds the last switch entry of argv with that name.
    lemma LookupAgrees(name: string)
      requires Agrees()
      ensures var last := LastIndex(EntryKeys(build, argv[1..beginArgs]), LowerOnWindows(build, name));
        && (HasSwitch(name) <==> last != -1)
        && GetSwitchValueNative(name) == if last != -1 then SwitchValue(argv[1 + last]) else ""
    {
      hide EntryKey, LowerOnWindows, SwitchValue, IsSwitch, File;
      FiledValues(build, argv[1..beginArgs], LowerOnWindows(build, name));
    }

    method AppendSwitchNative(name: string, value: string)
      requires Valid()
      modifies this
      ensures Valid() && beginArgs == old(beginArgs) + 1
      ensures argv == old(argv[..beginArgs]) + [SwitchEntry(build, name, value)] + old(argv[beginArgs..])
      ensures switches == old(switches)[SwitchKey(build, name) := value]
      ensures old(Agrees()) ==> (Agrees() <==> '=' !in name)
    {
      hide Agree, PrefixLength, LowerOnWindows;
      var switchKey := LowerOnWindows(build, name);
      var combined := switchKey;
      var prefixLength := PrefixLength(build, combined);
      switches := switches[switchKey[prefixLength..] := value];
      if prefixLength == 0 {
        combined := "--" + combined;
      }
      if value != "" {
        combined := combined + ("=" + value);
      }
      assert combined == SwitchEntry(build, name, value);
      argv := argv[..beginArgs] + [combined] + argv[beginArgs..];
      beginArgs := beginArgs + 1;
      if old(Agrees()) {
        AgreeInsert(build, old(argv), old(switches), old(beginArgs), name, value);
      }
    }

    method AppendArgNative(value: string)
      requires Valid()
      modifies this`argv
      ensures argv == old(argv) + [value]
      ensures old(Agrees()) ==> Agrees()
    {
      argv := argv + [value];
      assert argv[1..beginArgs] == old(argv[1..beginArgs]);
      if old(Agrees()) {
        AgreeElsewhere(build, old(argv), argv, switches, beginArgs);
      }
    }

    // One token, as a switch or as an argument, where argv is laid out as head, es, tail, rest.
    method AppendToken(token: string, asSwitch: bool, ghost base: map<string, string>,
                       ghost head: seq<string>, ghost es: seq<string>, ghost tail: seq<string>, ghost rest: seq<string>)
      requires Valid() && beginArgs == |head| + |es| && argv == Lay(head, es, tail, rest)
      requires switches == File(build, base, es)
      modifies this
      ensures var es', rest' := MoreEntries(build, es, token, asSwitch), MoreArgs(rest, token, asSwitch);
        && Valid() && beginArgs == |head| + |es'| && argv == Lay(head, es', tail, rest')
        && switches == File(build, base, es')
      ensures old(Agrees()) ==> Agrees()
    {
      hide Agree, Lay, File, TokenEntry, SwitchKey, SwitchEntry, EntryKey, SwitchString, SwitchValue;
      if asSwitch {
        TokenName(build, token);
        FileAppend(build, base, es, TokenEntry(build, token));
        LayMore(head, es, tail, rest, TokenEntry(build, token));
        AppendSwitchNative(SwitchString(token), SwitchValue(token));
      } else {
        LayMore(head, es, tail, rest, token);
        AppendArgNative(token);
      }
    }

    // Switches go before the divider, arguments to the end; the first terminator ends the switches.
    method AppendSwitchesAndArguments(args: seq<string>)
      requires Valid()
      modifies this
      ensures var ts := Tokens(build, args);
        var es := Entries(build, SwitchTokens(build, ts));
        && Valid() && beginArgs == old(beginArgs) + |es|
        && argv == Lay(old(argv[..beginArgs]), es, old(argv[beginArgs..]), ArgTokens(build, ts))
        && switches == File(build, old(switches), es)
      ensures old(Agrees()) ==> Agrees()
    {
      hide Sorting, Agree, Lay, File, Entries, TokenEntry, SwitchTokens, ArgTokens, IsSwitch, Trim;
      hide Trimmed, IsSpace, Tokens, TokensFrom, MoreEntries, MoreArgs, AsSwitch;
      ghost var ts := Tokens(build, args);
      ghost var base, head, tail, es, rest: seq<string> := switches, argv[..beginArgs], argv[beginArgs..], [], [];
      ghost var allEs, allArgs := Entries(build, SwitchTokens(build, ts)), ArgTokens(build, ts);
      SortStarts(build, args, switches);
      LayStart(argv, beginArgs);
      var parseSwitches := true;
      var i := 1;
      while i < |args|
        invariant 1 <= i
        invariant Sorting(build, TokensFrom(build, args, i), parseSwitches, es, rest, allEs, allArgs)
        invariant Valid() && beginArgs == |head| + |es| && argv == Lay(head, es, tail, rest)
        invariant switches == File(build, base, es)
        invariant old(Agrees()) ==> Agrees()
      {
        var arg := Trim(build, args[i]);
        ghost var left := TokensFrom(build, args, i);
        TokensFromNext(build, args, i);
        SortToken(build, left, parseSwitches, es, rest, allEs, allArgs);
        var asSwitch := AsSwitch(build, arg, parseSwitches);
        AppendToken(arg, asSwitch, base, head, es, tail, rest);
        es, rest := MoreEntries(build, es, arg, asSwitch), MoreArgs(rest, arg, asSwitch);
        parseSwitches := parseSwitches && arg != TERMINATOR;
        i := i + 1;
      }
      TokensFromEnd(build, args, i);
      SortEnds(build, parseSwitches, es, rest, allEs, allArgs);
    }

    // Copies, in the order of names, the switches that source has.
    method CopySwitchesFrom(source: CommandLine, names: seq<string>)
      requires Valid() && source.build == build
      modifies this
      ensures Valid()
      ensures source != this ==>
        && argv == Lay(old(argv[..beginArgs]), CopyEntries(build, source.switches, names), old(argv[beginArgs..]), [])
        && beginArgs == old(beginArgs) + |CopyEntries(build, source.switches, names)|
        && switches == CopyInto(build, old(switches), source.switches, names)
      ensures old(Agrees()) && old(source.Agrees()) ==> Agrees()
    {
      hide Agree, Lay, SwitchKey, SwitchEntry, LowerOnWindows, CopyEntries, CopyInto;
      ghost var head, tail, base := argv[..beginArgs], argv[beginArgs..], switches;
      LayStart(argv, beginArgs);
      CopyStart(build, base, source.switches, names);
      var i := 0;
      while i < |names|
        invariant 0 <= i <= |names| && Valid()
        invariant source != this ==>
          && argv == Lay(head, CopyEntries(build, source.switches, names[..i]), tail, [])
          && beginArgs == |head| + |CopyEntries(build, source.switches, names[..i])|
          && switches == CopyInto(build, base, source.switches, names[..i])
        invariant old(Agrees()) && old(source.Agrees()) ==> Agrees() && source.Agrees()
      {
        CopyStep(build, base, source.switches, names, i);
        if source.HasSwitch(names[i]) {
          var value := source.GetSwitchValueNative(names[i]);
          LayMore(head, CopyEntries(build, source.switches, names[..i]), tail, [], SwitchEntry(build, names[i], value));
          if source.Agrees() {
            KnownNameHasNoEquals(build, source.argv, source.switches, source.beginArgs, names[i]);
          }
          AppendSwitchNative(names[i], value);
        }
        i := i + 1;
      }
      assert names[..i] == names;
    }

    method AppendArguments(other: CommandLine, includeProgram: bool)
      requires Valid() && other.Valid() && other != this && other.build == build
      modifies this
      ensures var ts := Tokens(build, other.argv);
        var es := Entries(build, SwitchTokens(build, ts));
        var program := if includeProgram then Trim(build, other.argv[0]) else old(argv[0]);
        && Valid() && beginArgs == old(beginArgs) + |es|
        && argv == Lay(old(argv[..beginArgs])[0 := program], es, old(argv[beginArgs..]), ArgTokens(build, ts))
        && switches == File(build, old(switches), es)
      ensures old(Agrees()) ==> Agrees()
    {
      hide Agree, Entries, Lay, SwitchTokens, ArgTokens, Tokens, File, Trim, Trimmed, IsSpace;
      if includeProgram {
        SetProgram(other.argv[0]);
      }
      assert argv[..beginArgs] ==
             old(argv[..beginArgs])[0 := if includeProgram then Trim(build, other.argv[0]) else old(argv[0])];
      assert argv[beginArgs..] == old(argv[beginArgs..]);
      AppendSwitchesAndArguments(other.argv);
    }

    // The arguments, without the first terminator.
    method GetArgs() returns (args: seq<string>)
      requires Valid()
      ensures args == RemoveFirst(argv[beginArgs..], TERMINATOR)
    {
      args := argv[beginArgs..];
      var i := 0;
      while i < |args| && args[i] != TERMINATOR
        invariant 0 <= i <= |args|
        invariant TERMINATOR !in args[..i]
      {
        i := i + 1;
      }
      RemoveFirstAt(args[..i], if i < |args| then args[i + 1..] else [], TERMINATOR);
      if i < |args| {
        assert args == args[..i] + [TERMINATOR] + args[i + 1..];
        args := args[..i] + args[i + 1..];
      } else {
        assert args[..i] == args;
      }
    }

    // One entry of the printed command line.
    method PrintEntry(arg: string, parseSwitches: bool) returns (s: string)
      ensures s == Printed(build, arg, parseSwitches)
    {
      hide IsSwitch, SwitchString, SwitchValue, Quote;
      if parseSwitches && arg != TERMINATOR && IsSwitch(build, arg) {
        s := SwitchString(arg);
        var value := SwitchValue(arg);
        if value != "" {
          if build == Windows {
            value := QuoteForCommandLineToArgvW(value);
          }
          s := s + ("=" + value);
        }
      } else if build == Windows {
        s := QuoteForCommandLineToArgvW(arg);
      } else {
        s := arg;
      }
    }

    method GetCommandLineString() returns (s: string)
      requires Valid()
      ensures s == PrintLine(build, argv)
    {
      hide Printed, PrintRest, Quote;
      s := argv[0];
      if build == Windows {
        s := QuoteForCommandLineToArgvW(s);
      }
      var parseSwitches := true;
      var i := 1;
      while i < |argv|
        invariant 1 <= i <= |argv|
        invariant s + PrintRest(build, argv[i..], parseSwitches) == PrintLine(build, argv)
      {
        PrintRestStep(build, s, argv, i, parseSwitches);
        parseSwitches := parseSwitches && argv[i] != TERMINATOR;
        s := s + " ";
        var entry := PrintEntry(argv[i], parseSwitches);
        s := s + entry;
        i := i + 1;
      }
      assert argv[i..] == [];
      PrintNothing(build, s, parseSwitches);
    }

    static method FromString(commandLine: string) returns (cmd: CommandLine)
      ensures fresh(cmd) && cmd.build == Windows && cmd.Agrees()
      ensures Trim(Windows, commandLine) == "" ==> cmd.argv == [""]
      ensures Trim(Windows, commandLine) != "" ==>
        var args := ArgvOf(Trim(Windows, commandLine));
        && cmd.argv == Rebuilt(Windows, args)
        && cmd.beginArgs == 1 + |SwitchTokens(Windows, Tokens(Windows, args))|
        && cmd.switches == File(Windows, map[], Entries(Windows, SwitchTokens(Windows, Tokens(Windows, args))))
    {
      hide Trim, ArgvOf, Rebuilt, SwitchTokens, Tokens, File, Entries, Agree;
      cmd := new CommandLine.NoProgram(Windows);
      cmd.ParseFromString(commandLine);
    }

    // The program name is parsed like any other argument.
    method ParseFromString(commandLine: string)
      requires build == Windows && Valid()
      modifies this
      ensures Trim(build, commandLine) == "" ==> argv == old(argv) && beginArgs == old(beginArgs) && switches == old(switches)
      ensures Trim(build, commandLine) != "" ==>
        var args := ArgvOf(Trim(build, commandLine));
        && argv == Rebuilt(build, args)
        && beginArgs == 1 + |SwitchTokens(build, Tokens(build, args))|
        && switches == File(build, old(switches), Entries(build, SwitchTokens(build, Tokens(build, args))))
      ensures old(Agrees()) && old(switches) == map[] ==> Agrees()
    {
      hide Trim, Trimmed, IsSpace, Rebuilt, SwitchTokens, Tokens, File, Entries, Agree;
      var commandLineString := Trim(build, commandLine);
      if commandLineString == "" {
        return;
      }
      InitFromArgv(ArgvOf(commandLineString));
    }
  }
}
