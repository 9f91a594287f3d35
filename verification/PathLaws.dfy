// What the path operations of base/file_path.cc mean in characters: separators, drive letters, roots
// and the first components of a path.

module PathLaws {
  import opened Paths

  // ---------- Characters ----------

  lemma SeparatorsAre(c: char)
    ensures IsSeparator(POSIX, c) <==> c == '/'
    ensures IsSeparator(WINDOWS, c) <==> c == '/' || c == '\\'
  {
  }

  // Only a build with drive letters has any: one ASCII letter and a colon.
  lemma DriveLettersAre(pf: Platform, p: string)
    ensures FindDriveLetter(pf, p) == 1 <==>
      pf.driveLetters && |p| >= 2 && ('a' <= p[0] <= 'z' || 'A' <= p[0] <= 'Z') && p[1] == ':'
    ensures FindDriveLetter(pf, p) == 1 || FindDriveLetter(pf, p) == -1
  {
  }

  lemma LowerIs(s: string, i: nat)
    requires i < |s|
    ensures |Lower(s)| == |s|
    ensures 'A' <= s[i] <= 'Z' ==> Lower(s)[i] as int == s[i] as int + ('a' as int - 'A' as int)
    ensures !('A' <= s[i] <= 'Z') ==> Lower(s)[i] == s[i]
  {
  }

  // ---------- Stripping, appending and directories ----------

  // On POSIX a path is stripped if it ends in no "/", or is "/" or "//"; stripping takes "/" off the end.
  lemma StripOnPosix(p: string)
    ensures Strip(POSIX, p) == p <==> |p| <= 1 || p == "//" || p[|p| - 1] != '/'
    ensures Strip(POSIX, p) <= p && forall i :: |Strip(POSIX, p)| <= i < |p| ==> p[i] == '/'
  {
    hide TrimmedLength;
    StripEnd(POSIX, p);
    StripFixpoints(POSIX, p);
    assert p == "//" <==> |p| == 2 && p[0] == '/' && p[1] == '/';
  }

  // With a drive letter, a separator right behind it stays, or exactly two of them.
  lemma StripBehindDrive(pf: Platform, p: string)
    requires FindDriveLetter(pf, p) == 1
    ensures Strip(pf, p) == p <==>
      |p| <= 3 || (|p| == 4 && IsSeparator(pf, p[2]) && IsSeparator(pf, p[3])) || !IsSeparator(pf, p[|p| - 1])
  {
    hide TrimmedLength;
    StripFixpoints(pf, p);
  }

  // One separator of the platform goes between a path and a component.
  lemma AppendWithSeparator(p: string, c: string)
    requires p != "" && p != "." && IsName(WINDOWS, c) && !IsSeparator(WINDOWS, p[|p| - 1])
    ensures Append(POSIX, p, c) == p + "/" + c
    ensures Append(WINDOWS, p, c) == p + (if FindDriveLetter(WINDOWS, p) == 1 && |p| == 2 then "" else "\\") + c
  {
    hide TrimmedLength;
    StripFixpoints(POSIX, p);
    StripFixpoints(WINDOWS, p);
  }

  // A file name alone lies in ".", and "." takes a component as it is.
  lemma CurrentDirectoryIs(pf: Platform, c: string)
    requires IsName(pf, c) && FindDriveLetter(pf, c) == -1
    ensures DirName(pf, c) == "." && BaseName(pf, c) == c && Append(pf, ".", c) == c
  {
    DirNameOfAppend(pf, CURRENT_DIRECTORY, c);
    BaseNameOfAppend(pf, CURRENT_DIRECTORY, c);
    assert IsTop(pf, CURRENT_DIRECTORY);
    StripOfTop(pf, CURRENT_DIRECTORY);
  }

  // ---------- The head of a path ----------

  function Rest(pf: Platform, p: string): string {
    p[FindDriveLetter(pf, p) + 1..]
  }

  // Does the path begin, behind its drive letter, with a separator?
  predicate Rooted(pf: Platform, p: string) {
    Rest(pf, p) != "" && IsSeparator(pf, Rest(pf, p)[0])
  }

  // What cutting keeps: the drive letter and the first separator behind it.
  lemma CutKeepsHead(pf: Platform, s: string)
    ensures var c := Cut(pf, s);
      && c <= s && FindDriveLetter(pf, c) == FindDriveLetter(pf, s) && (Rooted(pf, c) <==> Rooted(pf, s))
  {
    var letter, last := FindDriveLetter(pf, s), LastSeparator(pf, s);
    var c := Cut(pf, s);
    hide LastSeparator;
    assert letter + 1 <= |c| && c <= s;
    assert letter == 1 ==> c[0] == s[0] && c[1] == s[1];
    assert Rooted(pf, s) ==> letter + 1 < |c| && c[letter + 1] == s[letter + 1];
  }

  lemma StripKeepsHead(pf: Platform, s: string)
    ensures var c := Strip(pf, s);
      && c <= s && FindDriveLetter(pf, c) == FindDriveLetter(pf, s) && (Rooted(pf, c) <==> Rooted(pf, s))
  {
    hide TrimmedLength;
    StripEnd(pf, s);
    var letter, c := FindDriveLetter(pf, s), Strip(pf, s);
    assert Rooted(pf, s) ==> letter + 1 < |c| && c[letter + 1] == s[letter + 1];
  }

  // A directory has the drive letter of the path, and is rooted if the path is.
  lemma DirNameKeepsHead(pf: Platform, p: string)
    requires p != ""
    ensures var d := DirName(pf, p);
      if d <= p then FindDriveLetter(pf, d) == FindDriveLetter(pf, p) && (Rooted(pf, d) <==> Rooted(pf, p))
      else d == CURRENT_DIRECTORY && FindDriveLetter(pf, p) == -1 && !Rooted(pf, p)
  {
    var s := Strip(pf, p);
    var c := Cut(pf, s);
    StripKeepsHead(pf, p);
    CutKeepsHead(pf, s);
    StripKeepsHead(pf, c);
    NothingIsRooted(pf);
    hide Strip, Cut, Rooted;
    var t := Strip(pf, c);
    PrefixChain(t, c, s, p);
  }

  lemma PrefixChain(t: string, c: string, s: string, p: string)
    requires t <= c <= s <= p
    ensures t <= p
  {
  }

  lemma NothingIsRooted(pf: Platform)
    ensures FindDriveLetter(pf, "") == -1 && !Rooted(pf, "")
    ensures FindDriveLetter(pf, CURRENT_DIRECTORY) == -1 && !Rooted(pf, CURRENT_DIRECTORY)
  {
  }

  // ---------- What the components are ----------

  // Drive letter, root and names, the first two if there are any.
  function Parts(pf: Platform, p: string, root: string, names: seq<string>): seq<string> {
    (if FindDriveLetter(pf, p) == 1 then [p[..2]] else []) + (if root != "" then [root] else []) + names
  }

  // The root component: one or two of the separators behind the drive letter, if there are any.
  predicate IsRoot(pf: Platform, p: string, root: string) {
    && root <= Rest(pf, p) && AllSeparators(pf, root) && |root| <= 2
    && (root != "" <==> Rooted(pf, p))
  }

  lemma TopShape(pf: Platform, p: string) returns (root: string)
    requires p != "" && DirName(pf, p) == p
    ensures IsRoot(pf, p, root) && Climb(pf, p) == Parts(pf, p, root, [])
    ensures p == FindDriveLetterOf(pf, p) + root || p == CURRENT_DIRECTORY
  {
    hide DirName, BaseName, Strip;
    DirNameFixpoints(pf, p);
    NothingIsRooted(pf);
    root := if Rooted(pf, p) then Rest(pf, p) else "";
    if p == CURRENT_DIRECTORY {
      BaseNameOfDot(pf);
    } else {
      TopBase(pf, p);
      assert Rest(pf, p) != "" ==> Rooted(pf, p);
    }
    assert Climb(pf, p) == TopComponents(pf, p);
  }

  function FindDriveLetterOf(pf: Platform, p: string): string {
    p[..FindDriveLetter(pf, p) + 1]
  }

  lemma {:induction false} ClimbShape(pf: Platform, p: string) returns (root: string, names: seq<string>)
    requires p != ""
    ensures IsRoot(pf, p, root) && Climb(pf, p) == Parts(pf, p, root, names)
    ensures forall n :: n in names ==> IsName(pf, n)
    decreases Rank(p)
  {
    hide Climb, Parts, IsRoot, DirName, IsName, NameComponent;
    if DirName(pf, p) == p {
      root := TopShape(pf, p);
      names := [];
    } else {
      OneUp(pf, p);
      var more;
      root, more := ClimbShape(pf, DirName(pf, p));
      LastName(pf, p);
      names := more + NameComponent(pf, p);
      ShapeDown(pf, p, root, more);
    }
  }

  lemma OneUp(pf: Platform, p: string)
    requires p != "" && DirName(pf, p) != p
    ensures var d := DirName(pf, p);
      d != "" && Rank(d) < Rank(p) && Climb(pf, p) == Climb(pf, d) + NameComponent(pf, p)
  {
    hide DirName, BaseName, IsTop;
    DirNameFixpoints(pf, p);
    DirNameStripped(pf, p);
  }

  lemma LastName(pf: Platform, p: string)
    ensures forall n :: n in NameComponent(pf, p) ==> IsName(pf, n)
  {
    hide BaseName, IsName, AllSeparators;
    BaseNameShape(pf, p);
  }

  lemma ShapeDown(pf: Platform, p: string, root: string, names: seq<string>)
    requires p != "" && IsRoot(pf, DirName(pf, p), root)
    ensures IsRoot(pf, p, root)
    ensures Parts(pf, p, root, names + NameComponent(pf, p)) == Parts(pf, DirName(pf, p), root, names) + NameComponent(pf, p)
  {
    hide DirName, Rooted, NameComponent, IsRoot;
    var d := DirName(pf, p);
    DirNameKeepsHead(pf, p);
    NothingIsRooted(pf);
    RootOfDirectory(pf, p, d, root);
    var head, last := if FindDriveLetter(pf, p) == 1 then [p[..2]] else [], NameComponent(pf, p);
    var slash := if root != "" then [root] else [];
    assert head + slash + (names + last) == head + slash + names + last;
  }

  lemma RootOfDirectory(pf: Platform, p: string, d: string, root: string)
    requires IsRoot(pf, d, root) && FindDriveLetter(pf, d) == FindDriveLetter(pf, p) && (Rooted(pf, d) <==> Rooted(pf, p))
    requires d <= p || !Rooted(pf, p)
    ensures IsRoot(pf, p, root)
    ensures d <= p && FindDriveLetter(pf, p) == 1 ==> d[..2] == p[..2]
  {
    if d <= p {
      assert Rest(pf, d) <= Rest(pf, p);
    }
  }

  // The components of a path: its drive letter, then a root if it is rooted, then file names.
  lemma ComponentsShape(pf: Platform, p: string) returns (root: string, names: seq<string>)
    requires p != ""
    ensures Components(pf, p) == Parts(pf, p, root, names)
    ensures IsRoot(pf, p, root) && forall n :: n in names ==> IsName(pf, n)
  {
    root, names := ClimbShape(pf, p);
  }

  // On POSIX: the first component is "/" or "//" exactly if the path begins with "/".
  lemma RootOnPosix(p: string)
    ensures var cs := Components(POSIX, p);
      p != "" && p[0] == '/' <==> cs != [] && (cs[0] == "/" || cs[0] == "//")
    ensures Components(POSIX, "/") == ["/"] && Components(POSIX, "//") == ["//"]
    ensures Components(POSIX, p) == [] <==> p == "" || p == "."
  {
    hide Climb, IsName, AllSeparators;
    if p != "" {
      var root, names := ComponentsShape(POSIX, p);
      RootIs(p, root);
      NamesAreNoRoots(names);
      assert names != [] ==> names[0] in names;
      DriveLettersAre(POSIX, p);
      EmptyComponents(p);
    }
    SlashComponents("/");
    SlashComponents("//");
  }

  lemma RootIs(p: string, root: string)
    requires IsRoot(POSIX, p, root)
    ensures root == "/" || root == "//" || root == ""
    ensures root != "" <==> p != "" && p[0] == '/'
  {
    assert forall i :: 0 <= i < |root| ==> root[i] == '/';
    assert |root| == 1 ==> root == "/";
    assert |root| == 2 ==> root == "//";
  }

  lemma NamesAreNoRoots(names: seq<string>)
    requires forall n :: n in names ==> IsName(POSIX, n)
    ensures forall n :: n in names ==> n != "/" && n != "//"
  {
    forall n | n in names ensures n != "/" && n != "//" {
      assert !IsSeparator(POSIX, n[0]);
    }
  }

  lemma SlashComponents(p: string)
    requires p == "/" || p == "//"
    ensures Components(POSIX, p) == [p]
  {
    hide DirName, BaseName, Strip;
    assert p[0..] == p;
    assert IsTop(POSIX, p);
    DirNameOfTop(POSIX, p);
    var root := TopShape(POSIX, p);
    assert p[..0] == "" && "" + root == root;
  }

  lemma EmptyComponents(p: string)
    requires p != ""
    ensures Components(POSIX, p) == [] <==> p == "."
  {
    hide DirName, BaseName, Strip, IsRoot, Climb, AllSeparators;
    var root, names := ComponentsShape(POSIX, p);
    RootIs(p, root);
    DirNameFixpoints(POSIX, p);
    if p == "." {
      TopOfDot();
      StripOnPosix(p);
    } else if p[0] != '/' {
      RelativeName(p);
      LastComponent(p);
    }
  }

  lemma LastComponent(p: string)
    requires p != "" && !IsTop(POSIX, p) && !AllSeparators(POSIX, BaseName(POSIX, p))
    ensures Components(POSIX, p) != []
  {
    hide BaseName, DirName, IsTop;
    DirNameFixpoints(POSIX, p);
  }

  // A path that does not begin with "/" is "." or ends in a name.
  lemma RelativeName(p: string)
    requires p != "" && p != "." && p[0] != '/'
    ensures !IsTop(POSIX, p) && !AllSeparators(POSIX, BaseName(POSIX, p))
  {
    hide LastSeparator, TrimmedLength;
    StripEnd(POSIX, p);
    var s := Strip(POSIX, p);
    var base := BaseName(POSIX, p);
    assert s[0] == p[0] && s[0..] == s;
    assert base != "" && base[|base| - 1] == s[|s| - 1] != '/';
    assert p[0..] == p;
  }

  // With a drive letter: it comes first, and a root behind it comes second.
  lemma DriveComesFirst(pf: Platform, p: string)
    requires FindDriveLetter(pf, p) == 1
    ensures var cs := Components(pf, p);
      && cs != [] && cs[0] == p[..2]
      && (|p| > 2 && IsSeparator(pf, p[2]) <==> |cs| > 1 && cs[1] != "" && AllSeparators(pf, cs[1]))
  {
    hide Climb;
    var root, names := ComponentsShape(pf, p);
    if names != [] {
      assert names[0] in names && !IsSeparator(pf, names[0][0]);
    }
  }

  // ---------- The alternate root ----------

  // The number of separators that a POSIX path begins with.
  function Slashes(p: string): (n: nat)
    ensures n <= |p| && (n < |p| ==> p[n] != '/')
    ensures forall i :: 0 <= i < n ==> p[i] == '/'
  {
    if p == "" || p[0] != '/' then 0 else Slashes(p[1..]) + 1
  }

  lemma SlashesAre(p: string, n: nat)
    requires n <= |p| && (n < |p| ==> p[n] != '/') && forall i :: 0 <= i < n ==> p[i] == '/'
    ensures Slashes(p) == n
  {
    hide Slashes;
  }

  predicate Alternate(p: string) {
    Slashes(p) == 2 || (Slashes(p) == 3 && |p| > 3)
  }

  lemma StripSlashes(n: nat, p: string)
    requires |p| == n > 0 && forall i :: 0 <= i < n ==> p[i] == '/'
    ensures Strip(POSIX, p) == if n == 2 then p else "/"
  {
    hide TrimmedLength;
  }

  // Neither stripping nor cutting tells the two roots apart in another way than this.
  lemma AlternateDirectory(p: string)
    requires p != "" && p[0] == '/'
    ensures Alternate(DirName(POSIX, p)) <==> Alternate(p)
  {
    hide Slashes, Strip, LastSeparator;
    var n := Slashes(p);
    StripOnPosix(p);
    if n == |p| {
      StripSlashes(n, p);
      SlashesAre("/", 1);
      SlashesAre("//", 2);
      DirNameOfRoots();
      NamesOfStrip(POSIX, p);
      assert n == 2 ==> p == "//";
    } else {
      AlternateAbove(p, n);
    }
  }

  lemma DirNameOfRoots()
    ensures DirName(POSIX, "/") == "/" && DirName(POSIX, "//") == "//"
  {
    hide DirName;
    assert "/"[0..] == "/" && "//"[0..] == "//";
    assert IsTop(POSIX, "/") && IsTop(POSIX, "//");
    DirNameOfTop(POSIX, "/");
    DirNameOfTop(POSIX, "//");
  }

  lemma AlternateAbove(p: string, n: nat)
    requires 0 < n == Slashes(p) < |p|
    ensures Alternate(DirName(POSIX, p)) <==> n == 2 || n == 3
  {
    hide Slashes, LastSeparator, Strip, Cut, Alternate;
    var s := Strip(POSIX, p);
    StrippedName(p, n);
    if LastSeparator(POSIX, s) == n - 1 {
      NameInRoot(s, n);
    } else {
      NameBelowRoot(s, n);
    }
  }

  // Nothing but separators before the name: the directory is a root.
  lemma NameInRoot(s: string, n: nat)
    requires 0 < n == Slashes(s) < |s| && LastSeparator(POSIX, s) == n - 1
    ensures var d := Strip(POSIX, Cut(POSIX, s));
      d != "" && (Alternate(d) <==> n == 2 || n == 3)
  {
    hide Slashes, LastSeparator, Strip;
    var c := Cut(POSIX, s);
    var k := if n <= 2 then n else n - 1;
    assert c == s[..k];
    StripSlashes(k, c);
    SlashesAre("/", 1);
    assert k == 2 ==> c == "//";
    SlashesAre("//", 2);
  }

  // Another name in between: the directory begins with as many separators.
  lemma NameBelowRoot(s: string, n: nat)
    requires 0 < n == Slashes(s) < |s| && LastSeparator(POSIX, s) != n - 1
    ensures var d := Strip(POSIX, Cut(POSIX, s));
      d != "" && (Alternate(d) <==> n == 2 || n == 3)
  {
    hide Slashes, Strip;
    var last, c := LastSeparator(POSIX, s), Cut(POSIX, s);
    assert IsSeparator(POSIX, s[n - 1]) && !IsSeparator(POSIX, s[n]);
    assert last > n;
    hide LastSeparator;
    assert c == s[..last] && c[n] == s[n];
    StripOnPosix(c);
    hide Cut;
    var d := Strip(POSIX, c);
    assert d <= c && |d| > n;
    SlashesAre(d, n);
  }

  lemma StrippedName(p: string, n: nat)
    requires 0 < n < |p| && p[n] != '/' && forall i :: 0 <= i < n ==> p[i] == '/'
    ensures var s := Strip(POSIX, p);
      n < |s| && s <= p && s[|s| - 1] != '/' && Slashes(s) == n
  {
    hide TrimmedLength, Slashes;
    StripOnPosix(p);
    StripEnd(POSIX, p);
    var s := Strip(POSIX, p);
    SlashesAre(s, n);
  }

  lemma RootedOnPosix(p: string)
    ensures Rooted(POSIX, p) <==> p != "" && p[0] == '/'
  {
  }

  lemma RootsAlone(p: string)
    requires p != "" && p[0] == '/' && DirName(POSIX, p) == p
    ensures Components(POSIX, p) == [p] && (p == "//" <==> Alternate(p))
  {
    hide DirName, Slashes;
    DirNameFixpoints(POSIX, p);
    assert p[0..] == p;
    assert forall i :: 0 <= i < |p| ==> p[i] == '/';
    assert |p| == 1 ==> p == "/";
    assert |p| == 2 ==> p == "//";
    SlashesAre(p, |p|);
    SlashComponents(p);
  }

  // ---------- A path taken apart ----------

  lemma StripTakesSeparators(pf: Platform, p: string)
    ensures Strip(pf, p) <= p && AllSeparators(pf, p[|Strip(pf, p)|..])
  {
    hide TrimmedLength;
    StripEnd(pf, p);
  }

  // The base name of a stripped path that is no top is a file name.
  lemma BaseIsName(pf: Platform, s: string) returns (at: nat)
    requires s != "" && Strip(pf, s) == s && !IsTop(pf, s)
    ensures IsName(pf, BaseName(pf, s)) && at <= |s| && s[at..] == BaseName(pf, s)
    ensures FindDriveLetter(pf, s) + 1 <= at
    ensures at == 0 || IsSeparator(pf, s[at - 1]) || (at == 2 && FindDriveLetter(pf, s) == 1)
  {
    hide BaseName, TrimmedLength, IsTop;
    at := BaseNameSuffix(pf, s);
    BaseNameShape(pf, s);
    StripFixpoints(pf, s);
    var base := BaseName(pf, s);
    if AllSeparators(pf, base) {
      if base == "" {
        assert at == |s|;
        if IsSeparator(pf, s[|s| - 1]) {
          TopWhenAllRoot(pf, s);
        } else {
          TopWhenBare(pf, s);
        }
      } else {
        assert s[|s| - 1] == base[|base| - 1];
        TopWhenAllRoot(pf, s);
      }
    }
  }

  // Cutting off the base name leaves what is before it, or one separator less.
  lemma CutBeforeName(pf: Platform, s: string, at: nat)
    requires at <= |s| && IsName(pf, s[at..]) && FindDriveLetter(pf, s) + 1 <= at
    requires at == 0 || IsSeparator(pf, s[at - 1]) || (at == 2 && FindDriveLetter(pf, s) == 1)
    ensures Cut(pf, s) <= s[..at] && AllSeparators(pf, s[..at][|Cut(pf, s)|..])
  {
    hide LastSeparator, IsSeparator;
    DriveLetterIs(pf, s);
    LastSeparatorBefore(pf, s, at);
    DriveIsNoSeparator(pf, s);
  }

  lemma DriveIsNoSeparator(pf: Platform, s: string)
    ensures FindDriveLetter(pf, s) == 1 ==> !IsSeparator(pf, s[0]) && !IsSeparator(pf, s[1])
  {
  }

  // Every path that is no top is its directory (which may go unwritten where it is "."), separators, its
  // base name, separators. The directory is stripped, so that what goes where is determined.
  lemma TakenApart(pf: Platform, p: string) returns (dir: string, glue: string, tail: string)
    requires p != "" && !IsTop(pf, Strip(pf, p))
    ensures p == dir + glue + BaseName(pf, p) + tail && IsName(pf, BaseName(pf, p))
    ensures AllSeparators(pf, glue) && AllSeparators(pf, tail)
    ensures DirName(pf, p) == if dir == "" then "." else dir
    ensures glue == "" ==> dir == "" || IsSeparator(pf, dir[|dir| - 1]) || FindDriveLetter(pf, dir) + 1 == |dir| == 2
  {
    hide LastSeparator, BaseName, Cut, Strip, IsTop, FindDriveLetter, IsSeparator, IsName;
    var s := Strip(pf, p);
    StripTakesSeparators(pf, p);
    StripEnd(pf, p);
    StripIdempotent(pf, p);
    NamesOfStrip(pf, p);
    var at := BaseIsName(pf, s);
    CutBeforeName(pf, s, at);
    var c := Cut(pf, s);
    StripTakesSeparators(pf, c);
    StripEnd(pf, c);
    dir := Strip(pf, c);
    glue, tail := s[|dir|..at], p[|s|..];
    GlueIsSeparators(pf, s, at, c, dir);
    assert p == s + tail && s == s[..at] + s[at..];
    assert s[..at] == dir + glue;
    DriveLetterOfPrefix(pf, s, dir);
  }

  lemma GlueIsSeparators(pf: Platform, s: string, at: nat, c: string, dir: string)
    requires at <= |s| && dir <= c <= s[..at]
    requires AllSeparators(pf, s[..at][|c|..]) && AllSeparators(pf, c[|dir|..])
    ensures dir <= s && |dir| <= at && AllSeparators(pf, s[|dir|..at])
  {
    hide IsSeparator;
    forall i | |dir| <= i < at ensures IsSeparator(pf, s[i]) {
      if i < |c| {
        assert c[|dir|..][i - |dir|] == s[i];
      } else {
        assert s[..at][|c|..][i - |c|] == s[i];
      }
    }
  }

  lemma DriveLetterOfPrefix(pf: Platform, s: string, d: string)
    requires d <= s
    ensures |d| >= 2 ==> FindDriveLetter(pf, d) == FindDriveLetter(pf, s)
  {
  }

  // ---------- Components by splitting ----------

  // What stands between the "/" of a path.
  function Split(p: string): seq<string> {
    if p == "" then []
    else
      var before, c := Split(p[..|p| - 1]), p[|p| - 1];
      if c == '/' then before
      else if |p| == 1 || p[|p| - 2] == '/' || before == [] then before + [[c]]
      else before[..|before| - 1] + [before[|before| - 1] + [c]]
  }

  // On POSIX the components of a path: "/", or "//" for the alternate root, then what stands between the
  // "/"; a "." that a relative path begins with is left out, but not that of "./" alone.
  function SplitComponents(p: string): seq<string> {
    var names := Split(p);
    if p != "" && p[0] == '/' then [if Alternate(p) then "//" else "/"] + names
    else if names != [] && names[0] == "." && (|names| > 1 || p == ".") then names[1..]
    else names
  }

  lemma SplitStep(init: string, c: char)
    ensures var before, p := Split(init), init + [c];
      Split(p) ==
        if c == '/' then before
        else if init == "" || init[|init| - 1] == '/' || before == [] then before + [[c]]
        else before[..|before| - 1] + [before[|before| - 1] + [c]]
    ensures Split("") == []
  {
    assert (init + [c])[..|init|] == init;
  }

  lemma {:induction false} SplitSeparators(p: string, slashes: string)
    requires AllSeparators(POSIX, slashes)
    ensures Split(p + slashes) == Split(p)
  {
    hide Split;
    if slashes == "" {
      assert p + slashes == p;
    } else {
      var init, c := slashes[..|slashes| - 1], slashes[|slashes| - 1];
      assert p + slashes == (p + init) + [c];
      SplitSeparators(p, init);
      SplitStep(p + init, c);
    }
  }

  lemma {:induction false} SplitName(p: string, name: string)
    requires IsName(POSIX, name) && (p == "" || p[|p| - 1] == '/')
    ensures Split(p + name) == Split(p) + [name]
  {
    hide Split;
    var init, c := name[..|name| - 1], name[|name| - 1];
    assert p + name == (p + init) + [c] && c != '/';
    assert name == init + [c];
    SplitStep(p + init, c);
    if init == "" {
      assert p + init == p;
    } else {
      SplitName(p, init);
      assert (p + init)[|p + init| - 1] == init[|init| - 1] != '/';
    }
  }

  // The base name is the last of the names between the "/"; the others are those of the directory.
  lemma SplitOfDirectory(p: string) returns (dir: string)
    requires p != "" && !IsTop(POSIX, Strip(POSIX, p))
    ensures Split(p) == Split(dir) + [BaseName(POSIX, p)] && IsName(POSIX, BaseName(POSIX, p))
    ensures DirName(POSIX, p) == if dir == "" then "." else dir
    ensures dir <= p && (p[0] == '/' ==> dir != "")
  {
    hide Split, BaseName, DirName, IsTop, Strip;
    var glue, tail;
    dir, glue, tail := TakenApart(POSIX, p);
    var base := BaseName(POSIX, p);
    assert base[0] != '/';
    var before := dir + glue;
    assert glue != "" ==> glue[|glue| - 1] == '/';
    SplitSeparators(dir, glue);
    SplitName(before, base);
    SplitSeparators(before + base, tail);
    if p[0] == '/' && dir == "" {
      DirNameKeepsHead(POSIX, p);
      RootedOnPosix(p);
    }
  }

  lemma SplitOfTop(p: string)
    requires IsTop(POSIX, p)
    ensures Split(p) == if p == "." then ["."] else []
    ensures Components(POSIX, p) == SplitComponents(p)
  {
    hide Split, Climb, Alternate, DirName, IsSeparator;
    if p == "." {
      SplitOfDot(p);
      RootOnPosix(".");
    } else {
      TopIsSlashes(p);
      SplitOfSlashes(p);
      DirNameOfTop(POSIX, p);
      RootsAlone(p);
    }
  }

  lemma SplitOfSlashes(p: string)
    requires p == "/" || p == "//"
    ensures Split(p) == []
  {
    hide Split;
    SplitStep("", '/');
    SplitSeparators("", p);
    assert "" + p == p;
  }

  // A relative path has a first name, and is that name if it has no other and ends in no "/".
  lemma {:induction false} FirstName(p: string)
    requires p != "" && p[0] != '/'
    ensures Split(p) != [] && (|Split(p)| == 1 && p[|p| - 1] != '/' ==> Split(p) == [p])
  {
    hide Split;
    var init, c := p[..|p| - 1], p[|p| - 1];
    assert p == init + [c];
    SplitStep(init, c);
    if init != "" {
      FirstName(init);
    }
  }

  // Strip leaves something of "./" and "///" only.
  lemma SlashesAfterTop(p: string)
    requires p != "" && !IsTop(POSIX, p) && IsTop(POSIX, Strip(POSIX, p))
    ensures Components(POSIX, p) == SplitComponents(p)
  {
    hide Split, Climb, Alternate, IsTop, Strip;
    var s := Strip(POSIX, p);
    StripTakesSeparators(POSIX, p);
    StripEnd(POSIX, p);
    ClimbToTop(POSIX, p);
    SplitOfTop(s);
    SplitSeparators(s, p[|s|..]);
    assert p == s + p[|s|..];
    if s == "." {
      SplitOfDot(p);
    } else {
      TopIsSlashes(s);
      AllSlashes(p, s);
      NotAlternate();
    }
  }

  lemma NotAlternate()
    ensures !Alternate("/")
  {
    hide Slashes;
    SlashesAre("/", 1);
  }

  lemma TopIsSlashes(s: string)
    requires IsTop(POSIX, s) && s != "."
    ensures s == "/" || s == "//"
  {
    assert s[0..] == s;
    assert |s| == 1 ==> s == "/";
    assert |s| == 2 ==> s == "//";
  }

  lemma AllSlashes(p: string, s: string)
    requires (s == "/" || s == "//") && s <= p && s == Strip(POSIX, p) != p && AllSeparators(POSIX, p[|s|..])
    ensures s == "/" && !Alternate(p)
  {
    hide Slashes, Strip;
    forall i | 0 <= i < |p| ensures p[i] == '/' {
      assert i >= |s| ==> p[i] == p[|s|..][i - |s|];
    }
    SlashesAre(p, |p|);
    StripSlashes(|p|, p);
    assert |p| == 2 ==> p == "//";
  }

  lemma SplitBelow(p: string)
    requires p != "" && !IsTop(POSIX, p) && !IsTop(POSIX, Strip(POSIX, p))
    ensures SplitComponents(p) == SplitComponents(DirName(POSIX, p)) + [BaseName(POSIX, p)]
    ensures Components(POSIX, p) == Components(POSIX, DirName(POSIX, p)) + [BaseName(POSIX, p)]
    ensures Rank(DirName(POSIX, p)) < Rank(p)
  {
    hide Split, Climb, Alternate, IsTop, DirName, BaseName, Strip, AllSeparators;
    var dir := SplitOfDirectory(p);
    var d := DirName(POSIX, p);
    NameIsNoSeparators(BaseName(POSIX, p));
    DirNameFixpoints(POSIX, p);
    OneUp(POSIX, p);
    if p[0] == '/' {
      AlternateDirectory(p);
    } else if dir == "" {
      SplitOfDot(p);
    } else {
      DirNameStripped(POSIX, p);
      StrippedEnd(d);
      FirstName(d);
    }
  }

  lemma SplitOfDot(p: string)
    ensures Split(".") == ["."] && Split("") == [] && (p == "." ==> IsTop(POSIX, p))
  {
    SplitStep("", '.');
    SplitName("", ".");
    assert "" + "." == ".";
  }

  lemma StrippedEnd(p: string)
    requires p != "" && p[0] != '/' && Strip(POSIX, p) == p
    ensures p[|p| - 1] != '/'
  {
    StripOnPosix(p);
  }

  lemma NameIsNoSeparators(name: string)
    requires IsName(POSIX, name)
    ensures !AllSeparators(POSIX, name)
  {
    assert !IsSeparator(POSIX, name[0]);
  }

  // Components is splitting at the "/".
  lemma {:induction false} ComponentsBySplitting(p: string)
    ensures Components(POSIX, p) == SplitComponents(p)
    decreases Rank(p)
  {
    hide Split, Climb, Alternate, IsTop, DirName, BaseName, Strip;
    if p == "" {
      SplitStep("", '.');
    } else if IsTop(POSIX, p) {
      SplitOfTop(p);
    } else if IsTop(POSIX, Strip(POSIX, p)) {
      SlashesAfterTop(p);
    } else {
      SplitBelow(p);
      ComponentsBySplitting(DirName(POSIX, p));
    }
  }

  // The alternate root "//" is the first component of paths that begin with exactly two separators, as
  // pathname resolution has it, but also of those with exactly three before a name.
  lemma AlternateRoot(p: string)
    requires p != "" && p[0] == '/'
    ensures Components(POSIX, p) != [] && (Components(POSIX, p)[0] == "//" <==> Alternate(p))
    ensures Components(POSIX, "///a") == ["//", "a"]
  {
    hide Components, Split, Slashes;
    ComponentsBySplitting(p);
    ComponentsBySplitting("///a");
    SlashesAre("///a", 3);
    SplitSeparators("", "///");
    SplitName("///", "a");
    SplitStep("", '/');
    assert "" + "///" == "///" && "///" + "a" == "///a";
  }

  // A stripped path is the parent of what a name is appended to it, "." excepted.
  lemma ParentOfAppend(p: string, c: string)
    requires p != "" && Strip(POSIX, p) == p && IsName(POSIX, c)
    ensures IsParent(p, Append(POSIX, p, c)) <==> p != "."
    ensures IsParent("/", "/a") && !IsParent("/a", "/") && !IsParent("/a", "/a")
  {
    hide Components, Append, Strip, IsName;
    RootOnPosix(p);
    if p != "." {
      PlainAppend(p, c);
      ComponentsOfAppend(POSIX, p, c);
    }
    SlashA();
  }

  lemma PlainAppend(p: string, c: string)
    requires p != "" && p != "." && IsName(POSIX, c)
    ensures Appendable(POSIX, p, c)
  {
  }

  lemma SlashA()
    ensures Components(POSIX, "/a") == ["/", "a"] && Components(POSIX, "/") == ["/"]
  {
    hide Components, Split, Slashes;
    ComponentsBySplitting("/a");
    RootOnPosix("/");
    SlashesAre("/a", 1);
    SplitSeparators("", "/");
    SplitName("/", "a");
    SplitStep("", '/');
    assert "" + "/" == "/" && "/" + "a" == "/a";
  }

  // ---------- Names ----------

  // The second extensions that count: "gz", "z" and "bz2", in any case.
  lemma DoubleExtensionsAre(ext: string)
    ensures IsCommonDoubleExtension(ext) <==>
      || (|ext| == 1 && ext[0] in "zZ")
      || (|ext| == 2 && ext[0] in "gG" && ext[1] in "zZ")
      || (|ext| == 3 && ext[0] in "bB" && ext[1] in "zZ" && ext[2] == '2')
  {
    var low := Lower(ext);
    assert low == "z" <==> |low| == 1 && low[0] == 'z';
    assert low == "gz" <==> |low| == 2 && low[0] == 'g' && low[1] == 'z';
    assert low == "bz2" <==> |low| == 3 && low[0] == 'b' && low[1] == 'z' && low[2] == '2';
  }
}
