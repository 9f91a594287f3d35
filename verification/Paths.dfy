// Path algebra of base/file_path.cc: what each operation computes, as a function on strings,
// and the laws that tie the operations together.

module Paths {

  // FILE_PATH_USES_DRIVE_LETTERS and FILE_PATH_USES_WIN_SEPARATORS, which the source lets a build
  // switch on independently.
  datatype Platform = Platform(driveLetters: bool, winSeparators: bool)

  const POSIX := Platform(false, false)
  const WINDOWS := Platform(true, true)

  const CURRENT_DIRECTORY := "."
  const PARENT_DIRECTORY := ".."

  predicate IsSeparator(pf: Platform, c: char) {
    c == '/' || (pf.winSeparators && c == '\\')
  }

  // kSeparators[0]
  function Separator(pf: Platform): char {
    if pf.winSeparators then '\\' else '/'
  }

  predicate IsLetter(c: char) {
    'A' <= c <= 'Z' || 'a' <= c <= 'z'
  }

  // Position of the last character of the drive letter; -1 stands for npos, so that the source's
  // unsigned "letter + 1" comes out as 0.
  function FindDriveLetter(pf: Platform, s: string): (r: int)
    ensures r == -1 || (r == 1 && |s| >= 2)
  {
    if pf.driveLetters && |s| >= 2 && s[1] == ':' && IsLetter(s[0]) then 1 else -1
  }

  predicate AllSeparators(pf: Platform, s: string) {
    forall i :: 0 <= i < |s| ==> IsSeparator(pf, s[i])
  }

  predicate NoSeparator(pf: Platform, s: string) {
    forall i :: 0 <= i < |s| ==> !IsSeparator(pf, s[i])
  }

  // A file name: what one directory entry, or the argument of Append, may look like.
  predicate IsName(pf: Platform, s: string) {
    s != "" && NoSeparator(pf, s)
  }

  // find_last_of(kSeparators), with -1 for npos.
  function LastSeparator(pf: Platform, s: string): (r: int)
    ensures -1 <= r < |s|
    ensures r >= 0 ==> IsSeparator(pf, s[r])
    ensures forall i :: r < i < |s| ==> !IsSeparator(pf, s[i])
  {
    if s == "" then -1
    else if IsSeparator(pf, s[|s| - 1]) then |s| - 1
    else LastSeparator(pf, s[..|s| - 1])
  }

  // Length of s without its trailing separators.
  function TrimmedLength(pf: Platform, s: string): (e: nat)
    ensures e <= |s|
    ensures forall i :: e <= i < |s| ==> IsSeparator(pf, s[i])
    ensures e > 0 ==> !IsSeparator(pf, s[e - 1])
  {
    if s != "" && IsSeparator(pf, s[|s| - 1]) then TrimmedLength(pf, s[..|s| - 1]) else |s|
  }

  function Max(a: int, b: int): int { if a < b then b else a }

  // Index just past the first root separator: separators below it are never stripped.
  function RootEnd(pf: Platform, s: string): nat {
    FindDriveLetter(pf, s) + 2
  }

  // Is s, after its drive letter, exactly a pair of separators?
  predicate IsDoubleRoot(pf: Platform, s: string) {
    var root := RootEnd(pf, s);
    |s| == root + 1 && IsSeparator(pf, s[root - 1]) && IsSeparator(pf, s[root])
  }

  // What stripping is meant to do: drop all trailing separators, but never below the root position,
  // and leave a lone pair of root separators alone.
  function Strip(pf: Platform, s: string): string {
    if |s| <= RootEnd(pf, s) || IsDoubleRoot(pf, s) then s
    else s[..Max(RootEnd(pf, s), TrimmedLength(pf, s))]
  }

  // What is left of a stripped path when its last component is cut off; root separators stay.
  function Cut(pf: Platform, s: string): string {
    var letter := FindDriveLetter(pf, s);
    var last := LastSeparator(pf, s);
    if last == -1 then s[..letter + 1]
    else if last == letter + 1 then s[..letter + 2]
    else if last == letter + 2 && IsSeparator(pf, s[letter + 1]) then s[..letter + 3]
    else s[..last]
  }

  function DirName(pf: Platform, p: string): string {
    var t := Strip(pf, Cut(pf, Strip(pf, p)));
    if t == "" then CURRENT_DIRECTORY else t
  }

  // Everything after the last separator, unless that would leave nothing.
  function AfterLastSeparator(pf: Platform, rest: string): string {
    var last := LastSeparator(pf, rest);
    if last != -1 && last < |rest| - 1 then rest[last + 1..] else rest
  }

  function BaseName(pf: Platform, p: string): string {
    var s := Strip(pf, p);
    AfterLastSeparator(pf, s[FindDriveLetter(pf, s) + 1..])
  }

  function Append(pf: Platform, p: string, c: string): string {
    if p == CURRENT_DIRECTORY then c
    else
      var s := Strip(pf, p);
      if c != "" && s != "" && !IsSeparator(pf, s[|s| - 1]) && FindDriveLetter(pf, s) + 1 != |s|
      then s + [Separator(pf)] + c
      else s + c
  }

  // ---------- Stripping ----------

  lemma StripEnd(pf: Platform, s: string)
    ensures s != "" ==> Strip(pf, s) != ""
    ensures Strip(pf, s) <= s
    ensures FindDriveLetter(pf, Strip(pf, s)) == FindDriveLetter(pf, s)
    ensures IsDoubleRoot(pf, Strip(pf, s)) ==> Strip(pf, s) == s
    ensures var t := Strip(pf, s);
      t == "" || !IsSeparator(pf, t[|t| - 1]) || |t| <= RootEnd(pf, t) || IsDoubleRoot(pf, t)
  {
    hide LastSeparator, TrimmedLength;
  }

  // Stripping twice is stripping once, on every platform.
  lemma StripIdempotent(pf: Platform, s: string)
    ensures Strip(pf, Strip(pf, s)) == Strip(pf, s)
  {
    hide LastSeparator, TrimmedLength;
    StripEnd(pf, s);
  }

  // Exactly the paths that end in a separator past the root are changed, "//" excepted.
  lemma StripFixpoints(pf: Platform, s: string)
    ensures Strip(pf, s) == s <==>
            (|s| <= RootEnd(pf, s) || IsDoubleRoot(pf, s) || !IsSeparator(pf, s[|s| - 1]))
  {
    hide LastSeparator, TrimmedLength;
  }

  // ---------- Append against DirName and BaseName ----------

  // "." is the one path that Append replaces, so a component that itself begins with a drive letter
  // would then be read as a drive.
  predicate Appendable(pf: Platform, p: string, c: string) {
    && p != ""
    && IsName(pf, c)
    && (p == CURRENT_DIRECTORY ==> FindDriveLetter(pf, c) == -1)
  }

  lemma LastSeparatorUnique(pf: Platform, s: string, k: int)
    requires -1 <= k < |s|
    requires k >= 0 ==> IsSeparator(pf, s[k])
    requires forall i :: k < i < |s| ==> !IsSeparator(pf, s[i])
    ensures LastSeparator(pf, s) == k
  {
    hide LastSeparator, TrimmedLength;
  }

  // The shape of p.Append(c): the stripped path, at most one separator, the component.
  lemma AppendShape(pf: Platform, p: string, c: string) returns (s: string, glue: string)
    requires Appendable(pf, p, c) && p != CURRENT_DIRECTORY
    ensures s == Strip(pf, p) && s != "" && Append(pf, p, c) == s + glue + c
    ensures glue == [Separator(pf)] || glue == ""
    ensures glue == "" <==> IsSeparator(pf, s[|s| - 1]) || FindDriveLetter(pf, s) + 1 == |s|
    ensures FindDriveLetter(pf, s + glue + c) == FindDriveLetter(pf, s)
    ensures LastSeparator(pf, s + glue + c) ==
            if glue != "" then |s| else if IsSeparator(pf, s[|s| - 1]) then |s| - 1 else -1
    ensures Strip(pf, s + glue + c) == s + glue + c
  {
    hide LastSeparator, TrimmedLength;
    StripEnd(pf, p);
    s := Strip(pf, p);
    glue := if IsSeparator(pf, s[|s| - 1]) || FindDriveLetter(pf, s) + 1 == |s| then "" else [Separator(pf)];
    var q := s + glue + c;
    assert forall i :: |s + glue| <= i < |q| ==> q[i] == c[i - |s + glue|];
    assert !IsSeparator(pf, q[|q| - 1]);
    LastSeparatorUnique(pf, q,
      if glue != "" then |s| else if IsSeparator(pf, s[|s| - 1]) then |s| - 1 else -1);
  }

  lemma NameAfterSeparator(pf: Platform, rest: string, k: nat)
    requires k <= |rest| && IsName(pf, rest[k..])
    requires k == 0 || IsSeparator(pf, rest[k - 1])
    ensures AfterLastSeparator(pf, rest) == rest[k..]
  {
    hide LastSeparator;
    assert forall i :: k <= i < |rest| ==> rest[i] == rest[k..][i - k];
    LastSeparatorUnique(pf, rest, k - 1);
  }

  // Directory/base inverse, base half.
  lemma BaseNameOfAppend(pf: Platform, p: string, c: string)
    requires Appendable(pf, p, c)
    ensures BaseName(pf, Append(pf, p, c)) == c
  {
    hide AfterLastSeparator, LastSeparator;
    if p == CURRENT_DIRECTORY {
      assert Strip(pf, c) == c by { StripFixpoints(pf, c); }
      assert c[0..] == c;
      NameAfterSeparator(pf, c, 0);
    } else {
      var s, glue := AppendShape(pf, p, c);
      var q := s + glue + c;
      var letter := FindDriveLetter(pf, q);
      var rest, k := q[letter + 1..], |s + glue| - (letter + 1);
      assert rest[k..] == c;
      NameAfterSeparator(pf, rest, k);
    }
  }

  lemma CutOfAppend(pf: Platform, p: string, c: string)
    requires Appendable(pf, p, c)
    ensures Strip(pf, Append(pf, p, c)) == Append(pf, p, c)
    ensures Cut(pf, Append(pf, p, c)) == if p == CURRENT_DIRECTORY then "" else Strip(pf, p)
  {
    hide LastSeparator, TrimmedLength;
    if p == CURRENT_DIRECTORY {
      LastSeparatorUnique(pf, c, -1);
      StripFixpoints(pf, c);
    } else {
      var s, glue := AppendShape(pf, p, c);
      var q := s + glue + c;
      StripEnd(pf, p);
      assert q[..|s|] == s;
    }
  }

  // Directory/base inverse, directory half.
  lemma DirNameOfAppend(pf: Platform, p: string, c: string)
    requires Appendable(pf, p, c)
    ensures DirName(pf, Append(pf, p, c)) == Strip(pf, p)
  {
    CutOfAppend(pf, p, c);
    StripEnd(pf, p);
    StripEnd(pf, "");
    StripIdempotent(pf, p);
    assert p == CURRENT_DIRECTORY ==> Strip(pf, p) == p;
    hide Append, Cut, Strip;
  }

  // ---------- Climbing to the root ----------

  // ".", a drive letter with at most two separators, or one or two separators alone.
  predicate IsTop(pf: Platform, p: string) {
    var rest := p[FindDriveLetter(pf, p) + 1..];
    p == CURRENT_DIRECTORY || (p != "" && AllSeparators(pf, rest) && |rest| <= 2)
  }

  // "." ranks lowest, so that every step up from a path that is not a top lowers the rank.
  function Rank(p: string): nat {
    if p == CURRENT_DIRECTORY then 0 else |p| + 1
  }

  lemma StripOfTop(pf: Platform, p: string)
    requires IsTop(pf, p)
    ensures Strip(pf, p) == p
  {
    hide LastSeparator, TrimmedLength;
  }

  lemma CutOfTop(pf: Platform, p: string)
    requires IsTop(pf, p)
    ensures Cut(pf, p) == if p == CURRENT_DIRECTORY then "" else p
  {
    hide LastSeparator;
    var letter := FindDriveLetter(pf, p);
    var rest := p[letter + 1..];
    if p == CURRENT_DIRECTORY {
      LastSeparatorUnique(pf, p, -1);
    } else if rest == "" {
      LastSeparatorUnique(pf, p, -1);
      assert p[..2] == p;
    } else {
      assert IsSeparator(pf, rest[0]) && IsSeparator(pf, rest[|rest| - 1]);
      LastSeparatorUnique(pf, p, |p| - 1);
      assert p[..|p|] == p;
    }
  }

  lemma DirNameOfTop(pf: Platform, p: string)
    requires IsTop(pf, p)
    ensures DirName(pf, p) == p
  {
    assert p != "";
    hide Cut, FindDriveLetter, IsTop, TrimmedLength;
    StripOfTop(pf, p);
    CutOfTop(pf, p);
    StripEnd(pf, "");
  }

  lemma TopWhenAllRoot(pf: Platform, s: string)
    requires s != "" && IsSeparator(pf, s[|s| - 1])
    requires |s| <= RootEnd(pf, s) || IsDoubleRoot(pf, s)
    ensures IsTop(pf, s)
  {
    var letter := FindDriveLetter(pf, s);
    var rest := s[letter + 1..];
    if IsDoubleRoot(pf, s) {
      assert rest == [s[letter + 1], s[letter + 2]];
    } else {
      assert rest == [s[letter + 1]];
    }
  }

  lemma TopWhenBare(pf: Platform, s: string)
    requires s != "" && |s| == FindDriveLetter(pf, s) + 1
    ensures IsTop(pf, s)
  {
  }

  lemma CutIsShorter(pf: Platform, s: string)
    requires s != "" && !IsTop(pf, s)
    requires !IsSeparator(pf, s[|s| - 1]) || |s| <= RootEnd(pf, s) || IsDoubleRoot(pf, s)
    ensures |Cut(pf, s)| < |s|
  {
    hide LastSeparator, IsTop;
    var letter, last := FindDriveLetter(pf, s), LastSeparator(pf, s);
    if IsSeparator(pf, s[|s| - 1]) {
      TopWhenAllRoot(pf, s);
    } else if |s| == letter + 1 {
      TopWhenBare(pf, s);
    }
  }

  lemma CutNoLonger(pf: Platform, s: string)
    ensures |Cut(pf, s)| <= |s|
  {
  }

  // Everything else has a shorter directory, or the directory ".".
  lemma DirNameAscends(pf: Platform, p: string)
    requires p != "" && !IsTop(pf, p)
    ensures DirName(pf, p) == CURRENT_DIRECTORY || 0 < |DirName(pf, p)| < |p|
    ensures DirName(pf, p) != p && Rank(DirName(pf, p)) < Rank(p)
  {
    hide LastSeparator, FindDriveLetter, IsSeparator, Strip, Cut;
    StripEnd(pf, p);
    assert p != CURRENT_DIRECTORY;
    var s := Strip(pf, p);
    if s == p {
      CutIsShorter(pf, s);
    }
    CutNoLonger(pf, s);
    StripEnd(pf, Cut(pf, s));
  }

  // Well-founded ascent: the paths at which DirName stands still are exactly the tops.
  lemma DirNameFixpoints(pf: Platform, p: string)
    requires p != ""
    ensures DirName(pf, p) == p <==> IsTop(pf, p)
    ensures !IsTop(pf, p) ==> Rank(DirName(pf, p)) < Rank(p)
  {
    hide LastSeparator, TrimmedLength;
    if IsTop(pf, p) {
      DirNameOfTop(pf, p);
    } else {
      DirNameAscends(pf, p);
    }
  }

  // A directory is never empty and carries no separator to strip.
  lemma DirNameStripped(pf: Platform, p: string)
    ensures DirName(pf, p) != "" && Strip(pf, DirName(pf, p)) == DirName(pf, p)
  {
    hide Cut, TrimmedLength;
    StripIdempotent(pf, Cut(pf, Strip(pf, p)));
  }

  // ---------- Components ----------

  // Root and drive letter of a path that is its own directory.
  function TopComponents(pf: Platform, p: string): seq<string> {
    var base := BaseName(pf, p);
    var dir := DirName(pf, p);
    var letter := FindDriveLetter(pf, dir);
    (if letter != -1 then [dir[..letter + 1]] else []) +
    (if base != "" && base != CURRENT_DIRECTORY then [base] else [])
  }

  function NameComponent(pf: Platform, p: string): seq<string> {
    var base := BaseName(pf, p);
    if AllSeparators(pf, base) then [] else [base]
  }

  function Climb(pf: Platform, p: string): seq<string>
    requires p != ""
    decreases Rank(p)
  {
    DirNameFixpoints(pf, p);
    DirNameStripped(pf, p);
    if DirName(pf, p) == p then TopComponents(pf, p)
    else Climb(pf, DirName(pf, p)) + NameComponent(pf, p)
  }

  function Components(pf: Platform, p: string): seq<string> {
    if p == "" then [] else Climb(pf, p)
  }

  // The components of a path once trailing separators are gone: "./" yields ["."] by itself, but
  // names the same place as ".".
  function Resolve(pf: Platform, p: string): seq<string> {
    Components(pf, Strip(pf, p))
  }

  lemma TopBase(pf: Platform, p: string)
    requires IsTop(pf, p) && p != CURRENT_DIRECTORY
    ensures BaseName(pf, p) == p[FindDriveLetter(pf, p) + 1..]
    ensures AllSeparators(pf, BaseName(pf, p))
  {
    hide LastSeparator, TrimmedLength;
    StripOfTop(pf, p);
    var rest := p[FindDriveLetter(pf, p) + 1..];
    LastSeparatorUnique(pf, rest, |rest| - 1);
  }

  // A path that stripping shortens to a top: the climb ends at that top.
  lemma ClimbToTop(pf: Platform, p: string)
    requires Strip(pf, p) != p && IsTop(pf, Strip(pf, p))
    ensures p != "" && Climb(pf, p) ==
            Climb(pf, Strip(pf, p)) + (if Strip(pf, p) == CURRENT_DIRECTORY then [CURRENT_DIRECTORY] else [])
  {
    var s := Strip(pf, p);
    StripEnd(pf, p);
    NamesOfStrip(pf, p);
    DirNameOfTop(pf, s);
    if s == CURRENT_DIRECTORY {
      BaseNameOfDot(pf);
    } else {
      TopBase(pf, s);
    }
    hide DirName, BaseName, Strip, IsTop, TopComponents;
  }

  lemma BaseNameOfDot(pf: Platform)
    ensures BaseName(pf, CURRENT_DIRECTORY) == CURRENT_DIRECTORY
    ensures !AllSeparators(pf, CURRENT_DIRECTORY)
  {
    hide LastSeparator, TrimmedLength, AfterLastSeparator;
    assert CURRENT_DIRECTORY[0..] == CURRENT_DIRECTORY;
    assert !IsSeparator(pf, CURRENT_DIRECTORY[0]);
    NameAfterSeparator(pf, CURRENT_DIRECTORY, 0);
  }

  lemma NamesOfStrip(pf: Platform, p: string)
    ensures DirName(pf, Strip(pf, p)) == DirName(pf, p)
    ensures BaseName(pf, Strip(pf, p)) == BaseName(pf, p)
  {
    hide Strip, LastSeparator, FindDriveLetter;
    StripIdempotent(pf, p);
  }

  lemma ClimbOfStrip(pf: Platform, p: string)
    requires p != "" && !IsTop(pf, Strip(pf, p))
    ensures Strip(pf, p) != "" && Climb(pf, p) == Climb(pf, Strip(pf, p))
  {
    hide DirName, BaseName, Strip, IsTop;
    StripEnd(pf, p);
    NamesOfStrip(pf, p);
    DirNameStripped(pf, p);
    DirNameFixpoints(pf, Strip(pf, p));
  }

  // Stripping changes the components of nothing but "./", ".//" and so on.
  lemma ComponentsOfStrip(pf: Platform, p: string)
    ensures Components(pf, p) == Resolve(pf, p) <==> Strip(pf, p) != CURRENT_DIRECTORY || p == CURRENT_DIRECTORY
  {
    var s := Strip(pf, p);
    if s != p {
      if IsTop(pf, s) {
        ClimbToTop(pf, p);
      } else {
        ClimbOfStrip(pf, p);
      }
    }
  }

  // Components homomorphism: appending a name adds exactly that name at the end. Only "." appended
  // to "." is absorbed.
  lemma ComponentsOfAppend(pf: Platform, p: string, c: string)
    requires Appendable(pf, p, c)
    requires p != CURRENT_DIRECTORY || c != CURRENT_DIRECTORY
    ensures Components(pf, Append(pf, p, c)) == Resolve(pf, p) + [c]
    ensures Resolve(pf, Append(pf, p, c)) == Resolve(pf, p) + [c]
  {
    AppendGrows(pf, p, c);
    BaseNameOfAppend(pf, p, c);
    DirNameOfAppend(pf, p, c);
    assert !AllSeparators(pf, c) by { assert !IsSeparator(pf, c[0]); }
    hide Append, Strip, DirName, BaseName, AllSeparators;
  }

  // Taking a path apart and putting it together again names the same place.
  lemma DirAndBaseTogether(pf: Platform, p: string)
    requires p != "" && !IsTop(pf, Strip(pf, p)) && Appendable(pf, DirName(pf, p), BaseName(pf, p))
    requires DirName(pf, p) != CURRENT_DIRECTORY || BaseName(pf, p) != CURRENT_DIRECTORY
    ensures Resolve(pf, Append(pf, DirName(pf, p), BaseName(pf, p))) == Resolve(pf, p)
  {
    hide Append, Strip, DirName, BaseName, IsTop, FindDriveLetter, TopComponents, IsSeparator;
    var s := Strip(pf, p);
    StripEnd(pf, p);
    NamesOfStrip(pf, p);
    DirNameStripped(pf, s);
    DirNameFixpoints(pf, s);
    ComponentsOfAppend(pf, DirName(pf, p), BaseName(pf, p));
    assert !IsSeparator(pf, BaseName(pf, p)[0]);
  }

  lemma AppendGrows(pf: Platform, p: string, c: string)
    requires Appendable(pf, p, c)
    requires p != CURRENT_DIRECTORY || c != CURRENT_DIRECTORY
    ensures Append(pf, p, c) != "" && Append(pf, p, c) != Strip(pf, p) && Strip(pf, p) != ""
    ensures Strip(pf, Append(pf, p, c)) == Append(pf, p, c)
  {
    hide LastSeparator, TrimmedLength;
    StripEnd(pf, p);
    CutOfAppend(pf, p, c);
    if p != CURRENT_DIRECTORY {
      var s, glue := AppendShape(pf, p, c);
    }
  }

  // A base name is a name, or a run of root separators (empty for a bare drive letter).
  lemma BaseNameShape(pf: Platform, p: string)
    ensures IsName(pf, BaseName(pf, p)) || AllSeparators(pf, BaseName(pf, p))
  {
    hide AfterLastSeparator, Strip, AllSeparators, NoSeparator;
    StripEnd(pf, p);
    RestShape(pf, Strip(pf, p));
  }

  lemma AfterShape(pf: Platform, rest: string)
    requires rest == "" || !IsSeparator(pf, rest[|rest| - 1]) || AllSeparators(pf, rest)
    ensures var base := AfterLastSeparator(pf, rest); IsName(pf, base) || AllSeparators(pf, base)
  {
    hide LastSeparator;
  }

  lemma RestShape(pf: Platform, s: string)
    requires s == "" || !IsSeparator(pf, s[|s| - 1]) || |s| <= RootEnd(pf, s) || IsDoubleRoot(pf, s)
    ensures var base := AfterLastSeparator(pf, s[FindDriveLetter(pf, s) + 1..]);
      IsName(pf, base) || AllSeparators(pf, base)
  {
    hide AfterLastSeparator, IsDoubleRoot, RootEnd;
    var rest := s[FindDriveLetter(pf, s) + 1..];
    if rest != "" {
      assert rest[|rest| - 1] == s[|s| - 1];
      if IsSeparator(pf, s[|s| - 1]) {
        TopWhenAllRoot(pf, s);
        assert s != CURRENT_DIRECTORY;
      }
    }
    AfterShape(pf, rest);
  }

  // Without drive letters only the first component may be a root; all others are names.
  lemma {:induction false} ComponentsAreNames(p: string)
    requires p != ""
    ensures forall i :: 0 < i < |Climb(POSIX, p)| ==> IsName(POSIX, Climb(POSIX, p)[i])
    decreases Rank(p)
  {
    DirNameFixpoints(POSIX, p);
    DirNameStripped(POSIX, p);
    BaseNameShape(POSIX, p);
    if DirName(POSIX, p) != p {
      ComponentsAreNames(DirName(POSIX, p));
    }
  }

  // ---------- Relative paths ----------

  function AppendAll(pf: Platform, start: string, cs: seq<string>): string
    decreases |cs|
  {
    if cs == [] then start else AppendAll(pf, Append(pf, start, cs[0]), cs[1..])
  }

  // The one place where appending loses a component: "." onto the current directory.
  predicate Absorbs(start: string, cs: seq<string>) {
    (start == "" || start == CURRENT_DIRECTORY) && cs != [] && cs[0] == CURRENT_DIRECTORY
  }

  lemma AppendIsDot(start: string, c: string)
    requires IsName(POSIX, c)
    ensures Append(POSIX, start, c) != ""
    ensures Append(POSIX, start, c) == CURRENT_DIRECTORY <==> Absorbs(start, [c])
    ensures start == "" ==> Append(POSIX, start, c) == c
  {
    hide LastSeparator, TrimmedLength, NoSeparator;
    StripEnd(POSIX, start);
  }

  lemma AppendName(start: string, c: string)
    requires IsName(POSIX, c)
    ensures var q := Append(POSIX, start, c);
      && q != ""
      && (q == CURRENT_DIRECTORY <==> Absorbs(start, [c]))
      && Resolve(POSIX, q) == if Absorbs(start, [c]) then Resolve(POSIX, start) else Resolve(POSIX, start) + [c]
  {
    AppendIsDot(start, c);
    TopOfDot();
    assert Append(POSIX, CURRENT_DIRECTORY, c) == c;
    var from := if start == "" then CURRENT_DIRECTORY else start;
    assert FindDriveLetter(POSIX, c) == -1;
    hide Append, Resolve;
    if from != CURRENT_DIRECTORY || c != CURRENT_DIRECTORY {
      ComponentsOfAppend(POSIX, from, c);
    }
  }

  lemma TopOfDot()
    ensures Resolve(POSIX, "") == [] == Resolve(POSIX, CURRENT_DIRECTORY)
  {
    hide LastSeparator, TrimmedLength;
    assert IsTop(POSIX, CURRENT_DIRECTORY);
    DirNameOfTop(POSIX, CURRENT_DIRECTORY);
    LastSeparatorUnique(POSIX, CURRENT_DIRECTORY, -1);
  }

  lemma {:induction false} AppendAllBound(start: string, cs: seq<string>)
    requires forall c <- cs :: IsName(POSIX, c)
    ensures |Resolve(POSIX, AppendAll(POSIX, start, cs))| <= |Resolve(POSIX, start)| + |cs|
    decreases |cs|
  {
    if cs != [] {
      AppendName(start, cs[0]);
      AppendAllBound(Append(POSIX, start, cs[0]), cs[1..]);
    }
  }

  lemma {:induction false} ComponentsPastHead(start: string, cs: seq<string>)
    requires forall c <- cs :: IsName(POSIX, c)
    requires !Absorbs(start, cs)
    ensures Resolve(POSIX, AppendAll(POSIX, start, cs)) == Resolve(POSIX, start) + cs
    decreases |cs|
  {
    hide Resolve, Append;
    if cs != [] {
      AppendName(start, cs[0]);
      var next := Append(POSIX, start, cs[0]);
      ComponentsPastHead(next, cs[1..]);
      calc {
        Resolve(POSIX, AppendAll(POSIX, start, cs));
        Resolve(POSIX, next) + cs[1..];
        (Resolve(POSIX, start) + [cs[0]]) + cs[1..];
        Resolve(POSIX, start) + cs;
      }
    }
  }

  // Appending a list of names extends the components by exactly that list, unless its head is absorbed.
  lemma ComponentsOfAppendAll(start: string, cs: seq<string>)
    requires forall c <- cs :: IsName(POSIX, c)
    ensures Resolve(POSIX, AppendAll(POSIX, start, cs)) == Resolve(POSIX, start) + cs <==> !Absorbs(start, cs)
  {
    if Absorbs(start, cs) {
      AppendName(start, cs[0]);
      AppendAllBound(Append(POSIX, start, cs[0]), cs[1..]);
    } else {
      ComponentsPastHead(start, cs);
    }
  }

  // FilePath::IsParent: the parent's components are a non-empty proper prefix of the child's.
  predicate IsParent(parent: string, child: string) {
    var pc, cc := Components(POSIX, parent), Components(POSIX, child);
    pc != [] && pc < cc
  }

  // The components of child below parent.
  function Relative(parent: string, child: string): seq<string>
    requires IsParent(parent, child)
  {
    Components(POSIX, child)[|Components(POSIX, parent)|..]
  }

  // AppendRelativePath then reaches from any starting path what child is below parent.
  lemma RelativePathFromStart(parent: string, child: string, start: string)
    requires IsParent(parent, child)
    ensures Relative(parent, child) != []
    ensures Resolve(POSIX, AppendAll(POSIX, start, Relative(parent, child))) ==
            Resolve(POSIX, start) + Relative(parent, child)
            <==> !Absorbs(start, Relative(parent, child))
  {
    ComponentsAreNames(child);
    ComponentsOfAppendAll(start, Relative(parent, child));
  }

  // Starting from the parent itself, it gets back to the child.
  lemma RelativePathReachesChild(parent: string, child: string)
    requires IsParent(parent, child)
    requires Strip(POSIX, parent) == parent
    ensures Resolve(POSIX, AppendAll(POSIX, parent, Relative(parent, child))) == Components(POSIX, child)
  {
    TopOfDot();
    RelativePathFromStart(parent, child, parent);
  }

  // ---------- Extensions ----------

  const EXTENSION_SEPARATOR := '.'

  // rfind('.'), with -1 for npos.
  function LastDot(s: string): (r: int)
    ensures -1 <= r < |s|
    ensures r >= 0 ==> s[r] == EXTENSION_SEPARATOR
    ensures forall i :: r < i < |s| ==> s[i] != EXTENSION_SEPARATOR
  {
    if s == "" then -1
    else if s[|s| - 1] == EXTENSION_SEPARATOR then |s| - 1
    else LastDot(s[..|s| - 1])
  }

  function ToLowerASCII(c: char): char {
    if 'A' <= c <= 'Z' then ((c as int) + 32) as char else c
  }

  function Lower(s: string): string {
    seq(|s|, i requires 0 <= i < |s| => ToLowerASCII(s[i]))
  }

  predicate IsCommonDoubleExtension(ext: string) {
    Lower(ext) in ["gz", "z", "bz2"]
  }

  predicate IsSpecial(s: string) {
    s == CURRENT_DIRECTORY || s == PARENT_DIRECTORY
  }

  function ExtensionSeparatorPosition(pf: Platform, s: string): (r: int)
    ensures -1 <= r < |s|
    ensures r >= 0 ==> s[r] == EXTENSION_SEPARATOR
  {
    if IsSpecial(s) then -1
    else
      var lastDot := LastDot(s);
      if lastDot <= 0 || !IsCommonDoubleExtension(s[lastDot + 1..]) then lastDot
      else
        var penultimate := LastDot(s[..lastDot]);
        var lastSeparator := LastSeparator(pf, s[..lastDot]);
        if penultimate != -1 && penultimate > lastSeparator && 1 < lastDot - penultimate <= 5
        then penultimate else lastDot
  }

  function Extension(pf: Platform, p: string): string {
    var base := BaseName(pf, p);
    var dot := ExtensionSeparatorPosition(pf, base);
    if dot == -1 then "" else base[dot..]
  }

  function RemoveExtension(pf: Platform, p: string): string {
    var dot := ExtensionSeparatorPosition(pf, p);
    if Extension(pf, p) == "" || dot == -1 then p else p[..dot]
  }

  // A non-empty extension starts with exactly one dot and holds no separator.
  lemma ExtensionShape(pf: Platform, p: string)
    requires Extension(pf, p) != ""
    ensures var ext := Extension(pf, p);
      && ext[0] == EXTENSION_SEPARATOR
      && (|ext| > 1 ==> ext[1] != EXTENSION_SEPARATOR)
      && NoSeparator(pf, ext)
  {
    BaseNameShape(pf, p);
    var base := BaseName(pf, p);
    DotShape(pf, base);
  }

  lemma DotShape(pf: Platform, base: string)
    requires ExtensionSeparatorPosition(pf, base) >= 0
    ensures var dot := ExtensionSeparatorPosition(pf, base);
      dot + 1 < |base| ==> base[dot + 1] != EXTENSION_SEPARATOR
    ensures IsName(pf, base) || !AllSeparators(pf, base)
  {
    var dot := ExtensionSeparatorPosition(pf, base);
    var lastDot := LastDot(base);
    if dot != lastDot {
      assert forall i :: dot < i < lastDot ==> base[i] == base[..lastDot][i];
    }
    assert !IsSeparator(pf, base[dot]);
  }

  // The base name is a suffix of the stripped path, cut off at a separator or after the drive letter.
  lemma BaseNameSuffix(pf: Platform, p: string) returns (at: nat)
    ensures var s := Strip(pf, p);
      && FindDriveLetter(pf, s) + 1 <= at <= |s| && s[at..] == BaseName(pf, p)
      && (at == 0 || IsSeparator(pf, s[at - 1]) || (at == 2 && FindDriveLetter(pf, s) == 1))
  {
    hide LastSeparator, Strip, IsSeparator, FindDriveLetter;
    var s := Strip(pf, p);
    var letter := FindDriveLetter(pf, s);
    var rest := s[letter + 1..];
    var last := LastSeparator(pf, rest);
    if last != -1 && last < |rest| - 1 {
      at := letter + 1 + last + 1;
      assert rest[last] == s[at - 1] && rest[last + 1..] == s[at..];
    } else {
      at := letter + 1;
    }
  }

  // Where the last dot, and no separator, lies past at, looking at the suffix changes nothing.
  lemma LastDotOfSuffix(s: string, at: nat)
    requires at <= |s|
    ensures LastDot(s[at..]) >= 0 ==> LastDot(s) == at + LastDot(s[at..])
    ensures LastDot(s[at..]) == -1 ==> LastDot(s) < at
  {
    hide LastDot;
    var d := LastDot(s[at..]);
    assert forall i :: at <= i < |s| ==> s[i] == s[at..][i - at];
    assert d >= 0 ==> s[at + d] == EXTENSION_SEPARATOR;
  }

  lemma LastSeparatorBefore(pf: Platform, s: string, at: nat)
    requires at <= |s| && NoSeparator(pf, s[at..])
    requires at == 0 || IsSeparator(pf, s[at - 1]) || (at == 2 && |s| >= 2 && s[1] == ':' && IsLetter(s[0]))
    ensures LastSeparator(pf, s) == if at > 0 && IsSeparator(pf, s[at - 1]) then at - 1 else -1
  {
    hide LastSeparator;
    assert forall i :: at <= i < |s| ==> s[i] == s[at..][i - at];
    LastSeparatorUnique(pf, s, if at > 0 && IsSeparator(pf, s[at - 1]) then at - 1 else -1);
  }

  // Before the last dot d of the base name: the dots and separators that the two searches find there.
  lemma BeforeLastDot(pf: Platform, s: string, at: nat, d: nat)
    requires at <= |s| && IsName(pf, s[at..]) && d < |s| - at
    requires at == 0 || IsSeparator(pf, s[at - 1]) || (at == 2 && FindDriveLetter(pf, s) == 1)
    ensures var base := s[at..];
      && s[at + d + 1..] == base[d + 1..]
      && (if LastDot(base[..d]) >= 0 then LastDot(s[..at + d]) == at + LastDot(base[..d])
          else LastDot(s[..at + d]) < at && LastDot(s[..at + d]) <= LastSeparator(pf, s[..at + d]))
      && LastSeparator(pf, s[..at + d]) < at && LastSeparator(pf, base[..d]) == -1
  {
    hide LastDot, LastSeparator, FindDriveLetter;
    var base := s[at..];
    assert s[..at + d][at..] == base[..d];
    LastDotOfSuffix(s[..at + d], at);
    DriveLetterIs(pf, s);
    LastSeparatorBefore(pf, s[..at + d], at);
    LastSeparatorBefore(pf, base[..d], 0);
    assert LastDot(s[..at + d]) >= 0 ==> s[LastDot(s[..at + d])] == EXTENSION_SEPARATOR;
  }

  lemma DriveLetterIs(pf: Platform, s: string)
    ensures FindDriveLetter(pf, s) == 1 ==> s[1] == ':' && IsLetter(s[0])
  {
  }

  lemma LongerThanSpecial(pf: Platform, s: string, at: nat)
    requires 0 < at < |s| && (IsSeparator(pf, s[at - 1]) || at == 2)
    ensures !IsSpecial(s)
  {
  }

  // Searching the whole path finds the same dot as searching the base name.
  lemma SameDot(pf: Platform, s: string, at: nat)
    requires at <= |s| && IsName(pf, s[at..])
    requires at == 0 || IsSeparator(pf, s[at - 1]) || (at == 2 && FindDriveLetter(pf, s) == 1)
    requires ExtensionSeparatorPosition(pf, s[at..]) >= 0
    ensures ExtensionSeparatorPosition(pf, s) == at + ExtensionSeparatorPosition(pf, s[at..])
  {
    hide LastDot, LastSeparator, IsCommonDoubleExtension, IsName, IsSpecial, IsSeparator, FindDriveLetter;
    if at == 0 {
      assert s[at..] == s;
    } else {
      LastDotOfSuffix(s, at);
      LongerThanSpecial(pf, s, at);
      BeforeLastDot(pf, s, at, LastDot(s[at..]));
    }
  }

  // file_path.h promises RemoveExtension + Extension == path "regardless of the value of path". It
  // holds exactly when there is no extension or no trailing separator to strip.
  lemma ExtensionSplit(pf: Platform, p: string)
    ensures RemoveExtension(pf, p) + Extension(pf, p) == p <==> Extension(pf, p) == "" || Strip(pf, p) == p
  {
    hide ExtensionSeparatorPosition, BaseName, Strip;
    var ext := Extension(pf, p);
    if ext != "" {
      ExtensionShape(pf, p);
      var base := BaseName(pf, p);
      var dot := ExtensionSeparatorPosition(pf, base);
      if Strip(pf, p) == p {
        var at := BaseNameSuffix(pf, p);
        BaseNameShape(pf, p);
        DotShape(pf, base);
        SameDot(pf, p, at);
        assert ext == base[dot..] == p[at + dot..];
      } else {
        StripFixpoints(pf, p);
        var whole := RemoveExtension(pf, p) + ext;
        assert whole[|whole| - 1] == ext[|ext| - 1];
      }
    }
  }

  // An input that shows the promise fails: past the "/" the double extension is not recognised.
  lemma ExtensionSplitFails()
    ensures Extension(POSIX, "a.b.z/") == ".b.z"
    ensures RemoveExtension(POSIX, "a.b.z/") == "a.b"
  {
    DotsOfExample();
    BaseOfExample();
    hide ExtensionSeparatorPosition, BaseName;
    assert "a.b.z"[1..] == ".b.z";
    assert "a.b.z/"[..3] == "a.b";
  }

  lemma BaseOfExample()
    ensures BaseName(POSIX, "a.b.z/") == "a.b.z"
  {
    hide LastSeparator, TrimmedLength, AfterLastSeparator;
    var p, s := "a.b.z/", "a.b.z";
    assert p[4] == 'z' && p[..5] == s && s[0..] == s;
    NameAfterSeparator(POSIX, s, 0);
  }

  lemma DotsOfExample()
    ensures ExtensionSeparatorPosition(POSIX, "a.b.z") == 1
    ensures ExtensionSeparatorPosition(POSIX, "a.b.z/") == 3
  {
    hide LastDot, LastSeparator;
    var p, s := "a.b.z/", "a.b.z";
    assert s[3] == '.' && LastDot(s) == 3 && s[4..] == "z" && Lower("z") == "z";
    assert s[..3] == "a.b" && "a.b"[1] == '.' && LastDot("a.b") == 1;
    assert p[3] == '.' && LastDot(p) == 3 && p[4..] == "z/" && |Lower("z/")| == 2 && Lower("z/")[0] == 'z';
  }
}
