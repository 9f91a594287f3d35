// What one token of a command line means (base/command_line.cc, base/string_util.cc): whitespace,
// switch prefixes, names and values, and the map from switch names to values.

module Switches {
  import Paths

  datatype Build = Windows | Posix

  const TERMINATOR := "--"

  // ---------- Whitespace ----------

  predicate IsSpace(b: Build, c: char) {
    var n := c as int;
    0x9 <= n <= 0xD || n == 0x20 ||
    (b == Windows && (n == 0x85 || n == 0xA0 || n == 0x1680 || n == 0x180E || 0x2000 <= n <= 0x200A ||
                      n == 0x200C || n == 0x2028 || n == 0x2029 || n == 0x202F || n == 0x205F || n == 0x3000))
  }

  predicate SpaceFree(b: Build, s: string) {
    forall i :: 0 <= i < |s| ==> !IsSpace(b, s[i])
  }

  predicate Trimmed(b: Build, s: string) {
    s == "" || (!IsSpace(b, s[0]) && !IsSpace(b, s[|s| - 1]))
  }

  function TrimStart(b: Build, s: string): (r: string)
    ensures r == "" || !IsSpace(b, r[0])
    ensures |r| <= |s| && r == s[|s| - |r|..]
  {
    if s != "" && IsSpace(b, s[0]) then TrimStart(b, s[1..]) else s
  }

  function TrimEnd(b: Build, s: string): (r: string)
    ensures r == "" || !IsSpace(b, r[|r| - 1])
    ensures r <= s
  {
    if s != "" && IsSpace(b, s[|s| - 1]) then TrimEnd(b, s[..|s| - 1]) else s
  }

  // TrimWhitespace with TRIM_ALL.
  function Trim(b: Build, s: string): (r: string)
    ensures Trimmed(b, r)
    ensures Trimmed(b, s) ==> r == s
  {
    TrimEnd(b, TrimStart(b, s))
  }

  predicate AllSpace(b: Build, s: string) {
    forall i :: 0 <= i < |s| ==> IsSpace(b, s[i])
  }

  // Trimming takes exactly the whitespace off both ends.
  lemma TrimIs(b: Build, before: string, s: string, after: string)
    requires AllSpace(b, before) && Trimmed(b, s) && AllSpace(b, after)
    ensures Trim(b, before + s + after) == s
  {
    hide IsSpace, TrimStart, TrimEnd;
    TrimStartIs(b, before, s + after);
    assert before + (s + after) == before + s + after;
    if s == "" {
      assert AllSpace(b, before + after);
      TrimStartIs(b, before + after, "");
      assert before + after + "" == before + s + after;
      TrimNothing(b);
    } else {
      TrimEndIs(b, s, after);
    }
  }

  lemma TrimNothing(b: Build)
    ensures TrimEnd(b, "") == ""
  {
  }

  lemma {:induction false} TrimStartIs(b: Build, before: string, s: string)
    requires AllSpace(b, before) && (s == "" || !IsSpace(b, s[0]) || AllSpace(b, s))
    ensures s == "" || !IsSpace(b, s[0]) ==> TrimStart(b, before + s) == s
  {
    hide IsSpace;
    if before != "" {
      assert (before + s)[1..] == before[1..] + s;
      TrimStartIs(b, before[1..], s);
    } else {
      assert before + s == s;
    }
  }

  lemma {:induction false} TrimEndIs(b: Build, s: string, after: string)
    requires AllSpace(b, after) && s != "" && !IsSpace(b, s[|s| - 1])
    ensures TrimEnd(b, s + after) == s
  {
    hide IsSpace;
    if after != "" {
      var last := |after| - 1;
      assert (s + after)[..|s + after| - 1] == s + after[..last];
      TrimEndIs(b, s, after[..last]);
    } else {
      assert s + after == s;
    }
  }

  // ---------- Switches ----------

  // Longer prefixes are tried first.
  function PrefixLength(b: Build, s: string): (n: nat)
    ensures n <= |s|
  {
    if |s| >= 2 && s[..2] == "--" then 2
    else if |s| >= 1 && s[0] == '-' then 1
    else if b == Windows && |s| >= 1 && s[0] == '/' then 1
    else 0
  }

  predicate IsSwitch(b: Build, s: string) {
    PrefixLength(b, s) != 0
  }

  // Position of the first '=', or the length.
  function FindEquals(s: string): (e: nat)
    ensures e <= |s| && (e < |s| ==> s[e] == '=')
    ensures forall i :: 0 <= i < e ==> s[i] != '='
  {
    if s == "" || s[0] == '=' then 0 else FindEquals(s[1..]) + 1
  }

  function SwitchString(s: string): string { s[..FindEquals(s)] }

  function SwitchValue(s: string): string {
    if FindEquals(s) < |s| then s[FindEquals(s) + 1..] else ""
  }

  // LowerASCIIOnWindows.
  function LowerOnWindows(b: Build, s: string): string {
    if b == Windows then Paths.Lower(s) else s
  }

  // The key under which a switch is filed: its name in lower case, without prefix.
  function SwitchKey(b: Build, name: string): string {
    var combined := LowerOnWindows(b, name);
    combined[PrefixLength(b, combined)..]
  }

  // The argv entry that AppendSwitchNative makes of a name and a value.
  function SwitchEntry(b: Build, name: string, value: string): string {
    var combined := LowerOnWindows(b, name);
    (if PrefixLength(b, combined) == 0 then "--" + combined else combined) +
    (if value != "" then "=" + value else "")
  }

  // Key and value that an argv entry stands for.
  function EntryKey(b: Build, entry: string): string {
    var name := SwitchString(entry);
    if PrefixLength(b, entry) <= |name| then name[PrefixLength(b, entry)..] else name
  }

  // File the entries one after the other; the last one of a name wins.
  function File(b: Build, switches: map<string, string>, entries: seq<string>): map<string, string> {
    if entries == [] then switches
    else
      var last := entries[|entries| - 1];
      File(b, switches, entries[..|entries| - 1])[EntryKey(b, last) := SwitchValue(last)]
  }

  // Index of the last occurrence of key, or -1.
  function LastIndex(keys: seq<string>, key: string): (i: int)
    ensures -1 <= i < |keys|
    ensures i >= 0 ==> keys[i] == key
    ensures forall j :: i < j < |keys| ==> keys[j] != key
  {
    if keys == [] then -1
    else if keys[|keys| - 1] == key then |keys| - 1
    else LastIndex(keys[..|keys| - 1], key)
  }

  function EntryKeys(b: Build, entries: seq<string>): (keys: seq<string>)
    ensures |keys| == |entries|
  {
    seq(|entries|, i requires 0 <= i < |entries| => EntryKey(b, entries[i]))
  }

  // The filed table: for each key the value of the last entry with that key, and no other keys.
  lemma {:induction false} FiledValues(b: Build, entries: seq<string>, key: string)
    ensures var last := LastIndex(EntryKeys(b, entries), key);
      && (key in File(b, map[], entries) <==> last != -1)
      && (last != -1 ==> File(b, map[], entries)[key] == SwitchValue(entries[last]))
  {
    hide EntryKey;
    if entries != [] {
      var init := entries[..|entries| - 1];
      assert EntryKeys(b, entries)[..|entries| - 1] == EntryKeys(b, init);
      FiledValues(b, init, key);
    }
  }

  lemma FileAppend(b: Build, m: map<string, string>, entries: seq<string>, e: string)
    ensures File(b, m, entries + [e]) == File(b, m, entries)[EntryKey(b, e) := SwitchValue(e)]
  {
    assert (entries + [e])[..|entries|] == entries;
  }

  lemma FindEqualsIs(s: string, e: nat)
    requires e <= |s| && (e < |s| ==> s[e] == '=')
    requires forall i :: 0 <= i < e ==> s[i] != '='
    ensures FindEquals(s) == e
  {
  }

  // Lower-casing a character changes none of the tests made on it.
  predicate SameRole(b: Build, c: char, d: char) {
    && (c == '=' <==> d == '=') && (c == '-' <==> d == '-') && (c == '/' <==> d == '/')
    && (c == '"' <==> d == '"') && (IsSpace(b, c) <==> IsSpace(b, d))
  }

  lemma LowerKeeps(b: Build, s: string)
    ensures var r := LowerOnWindows(b, s);
      && |r| == |s|
      && (forall i :: 0 <= i < |s| ==> SameRole(b, s[i], r[i]))
      && LowerOnWindows(b, r) == r
      && PrefixLength(b, r) == PrefixLength(b, s)
  {
  }

  function EntryHead(b: Build, name: string): string {
    var combined := LowerOnWindows(b, name);
    if PrefixLength(b, combined) == 0 then "--" + combined else combined
  }

  lemma HeadShape(b: Build, name: string)
    requires '=' !in name
    ensures var head := EntryHead(b, name);
      && IsSwitch(b, head) && '=' !in head
      && LowerOnWindows(b, head) == head
      && head[PrefixLength(b, head)..] == SwitchKey(b, name)
  {
    LowerKeeps(b, name);
    var lower := LowerOnWindows(b, name);
    assert forall i :: 0 <= i < |name| ==> SameRole(b, name[i], lower[i]);
    if PrefixLength(b, lower) == 0 {
      var head := "--" + lower;
      assert head[2..] == lower && head[..2] == "--";
      assert LowerOnWindows(b, head) == head by {
        assert forall i :: 0 <= i < |lower| ==> LowerOnWindows(b, lower)[i] == lower[i];
        assert forall i :: 2 <= i < |head| ==> head[i] == lower[i - 2];
      }
      assert '=' !in lower;
      assert lower[0..] == lower;
    }
  }

  lemma PrefixOfLonger(b: Build, head: string, tail: string)
    requires IsSwitch(b, head) && (tail == "" || tail[0] == '=')
    ensures PrefixLength(b, head + tail) == PrefixLength(b, head)
  {
    var e := head + tail;
    if |head| >= 2 {
      assert e[..2] == head[..2];
    } else if tail != "" {
      assert e[..2][1] == '=';
    } else {
      assert e == head;
    }
  }

  // An entry made of a '='-free name reads back as that name's key and the value.
  lemma EntryReadsBack(b: Build, name: string, value: string)
    requires '=' !in name
    ensures var e := SwitchEntry(b, name, value);
      && IsSwitch(b, e) && EntryKey(b, e) == SwitchKey(b, name) && SwitchValue(e) == value
      && SwitchString(e) == EntryHead(b, name)
      && SwitchEntry(b, SwitchString(e), SwitchValue(e)) == e
  {
    HeadShape(b, name);
    var head := EntryHead(b, name);
    var tail := if value != "" then "=" + value else "";
    var e := SwitchEntry(b, name, value);
    hide LowerOnWindows, PrefixLength;
    assert e == head + tail;
    PrefixOfLonger(b, head, tail);
    FindEqualsIs(e, |head|);
    assert e[..|head|] == head;
    assert if value == "" then FindEquals(e) == |e| else e[|head| + 1..] == value;
    assert SwitchString(e) == head && SwitchValue(e) == value;
    assert EntryKey(b, e) == head[PrefixLength(b, head)..];
    assert SwitchEntry(b, head, value) == head + tail;
  }
}
