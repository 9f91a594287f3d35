// The FilePath class of base/file_path.cc. Every method works the way the source does, cutting a
// local copy of the path step by step, and is proved to compute the corresponding function of Paths.

module FilePaths {
  import opened Paths

  function Reverse<T>(s: seq<T>): seq<T> {
    if s == [] then [] else Reverse(s[1..]) + [s[0]]
  }

  lemma {:induction false} ReverseAppend<T>(s: seq<T>, x: T)
    ensures Reverse(s + [x]) == [x] + Reverse(s)
  {
    if s == [] {
      assert s + [x] == [x];
    } else {
      assert (s + [x])[1..] == s[1..] + [x];
      ReverseAppend(s[1..], x);
    }
  }

  // FilePath::operator==: drive letters compare without regard to case, the rest exactly.
  predicate SamePath(pf: Platform, a: string, b: string) {
    if FindDriveLetter(pf, a) == -1 || FindDriveLetter(pf, b) == -1 then a == b
    else Lower(a[..2]) == Lower(b[..2]) && a[2..] == b[2..]
  }

  // Only the letter of a drive may differ, and only by case.
  lemma SamePathIs(pf: Platform, a: string, b: string)
    ensures SamePath(pf, a, b) <==>
      || a == b
      || (FindDriveLetter(pf, a) == 1 == FindDriveLetter(pf, b) && a[1..] == b[1..]
          && (a[0] as int + 32 == b[0] as int || b[0] as int + 32 == a[0] as int))
  {
    if FindDriveLetter(pf, a) == 1 == FindDriveLetter(pf, b) {
      SameDrive(a, b);
      assert a == a[..1] + a[1..] && b == b[..1] + b[1..];
      assert a[1..] == [':'] + a[2..] && b[1..] == [':'] + b[2..];
      assert a[..1] == [a[0]] && b[..1] == [b[0]];
      assert a[1..][1..] == a[2..] && b[1..][1..] == b[2..];
    }
  }

  lemma SameDrive(a: string, b: string)
    requires |a| >= 2 && |b| >= 2 && a[1] == b[1] == ':' && IsLetter(a[0]) && IsLetter(b[0])
    ensures Lower(a[..2]) == Lower(b[..2]) <==>
      a[0] == b[0] || a[0] as int + 32 == b[0] as int || b[0] as int + 32 == a[0] as int
  {
    var x, y := Lower(a[..2]), Lower(b[..2]);
    assert x == y <==> x[0] == y[0] && x[1] == y[1];
  }

  lemma DirNamePrefix(pf: Platform, p: string)
    ensures DirName(pf, p) == CURRENT_DIRECTORY || DirName(pf, p) <= p
  {
    hide LastSeparator, TrimmedLength;
    var s := Strip(pf, p);
    StripEnd(pf, p);
    StripEnd(pf, Cut(pf, s));
    assert Cut(pf, s) <= s;
  }

  // DirName keeps the drive letter as it is, so the loop test of GetComponents is string equality.
  lemma SamePathAsDirName(pf: Platform, p: string)
    ensures SamePath(pf, p, DirName(pf, p)) <==> p == DirName(pf, p)
  {
    hide DirName;
    DirNamePrefix(pf, p);
    var d := DirName(pf, p);
    if FindDriveLetter(pf, p) != -1 && FindDriveLetter(pf, d) != -1 {
      assert p[..2] == d[..2];
      assert p == p[..2] + p[2..] && d == d[..2] + d[2..];
    }
  }

  lemma ClimbStep(pf: Platform, p: string)
    requires p != "" && !SamePath(pf, p, DirName(pf, p))
    ensures DirName(pf, p) != "" && Rank(DirName(pf, p)) < Rank(p)
    ensures Climb(pf, p) == Climb(pf, DirName(pf, p)) + NameComponent(pf, p)
  {
    hide DirName, BaseName, IsTop, SamePath;
    SamePathAsDirName(pf, p);
    DirNameFixpoints(pf, p);
    DirNameStripped(pf, p);
  }

  lemma ClimbEnd(pf: Platform, p: string)
    requires p != "" && SamePath(pf, p, DirName(pf, p))
    ensures Climb(pf, p) == TopComponents(pf, p)
  {
    hide DirName, BaseName, IsTop, SamePath, TopComponents;
    SamePathAsDirName(pf, p);
  }

  class FilePath {
    const pf: Platform
    var path: string

    constructor (pf: Platform, path: string)
      ensures this.pf == pf && this.path == path
    {
      this.pf := pf;
      this.path := path;
    }

    method StripTrailingSeparatorsInternal()
      modifies this
      ensures path == Strip(pf, old(path))
    {
      var start := FindDriveLetter(pf, path) + 2;
      var lastStripped := -1;
      var pos := |path|;
      ghost var whole := path;
      while pos > start && IsSeparator(pf, path[pos - 1])
        invariant 0 <= pos <= |whole|
        invariant |path| <= |whole| && path == whole[..|path|]
        invariant pos == |whole| ==> lastStripped == -1 && path == whole
        invariant pos < |whole| ==> start <= pos && IsSeparator(pf, whole[|whole| - 1])
        invariant pos < |whole| && !IsDoubleRoot(pf, whole) ==> |path| == pos && lastStripped == pos + 1
        invariant pos < |whole| && IsDoubleRoot(pf, whole) ==> pos == start && path == whole
        invariant forall i :: pos <= i < |whole| ==> IsSeparator(pf, whole[i])
      {
        if pos != start + 1 || lastStripped == start + 2 || !IsSeparator(pf, path[start - 1]) {
          path := path[..pos - 1];
          lastStripped := pos;
        }
        pos := pos - 1;
      }
    }

    method StripTrailingSeparators() returns (newPath: FilePath)
      ensures fresh(newPath) && newPath.pf == pf
      ensures newPath.path == Strip(pf, path)
    {
      newPath := new FilePath(pf, path);
      newPath.StripTrailingSeparatorsInternal();
    }

    method DirName() returns (newPath: FilePath)
      ensures fresh(newPath) && newPath.pf == pf
      ensures newPath.path == Paths.DirName(pf, path)
    {
      newPath := new FilePath(pf, path);
      newPath.StripTrailingSeparatorsInternal();
      var letter := FindDriveLetter(pf, newPath.path);
      var lastSeparator := LastSeparator(pf, newPath.path);
      if lastSeparator == -1 {
        newPath.path := newPath.path[..letter + 1];
      } else if lastSeparator == letter + 1 {
        newPath.path := newPath.path[..letter + 2];
      } else if lastSeparator == letter + 2 && IsSeparator(pf, newPath.path[letter + 1]) {
        newPath.path := newPath.path[..letter + 3];
      } else if lastSeparator != 0 {
        newPath.path := newPath.path[..lastSeparator];
      }
      newPath.StripTrailingSeparatorsInternal();
      if |newPath.path| == 0 {
        newPath.path := CURRENT_DIRECTORY;
      }
    }

    method BaseName() returns (newPath: FilePath)
      ensures fresh(newPath) && newPath.pf == pf
      ensures newPath.path == Paths.BaseName(pf, path)
    {
      hide Strip, FindDriveLetter, LastSeparator;
      newPath := new FilePath(pf, path);
      newPath.StripTrailingSeparatorsInternal();
      var letter := FindDriveLetter(pf, newPath.path);
      assert newPath.path[0..] == newPath.path;
      if letter != -1 {
        newPath.path := newPath.path[letter + 1..];
      }
      var lastSeparator := LastSeparator(pf, newPath.path);
      if lastSeparator != -1 && lastSeparator < |newPath.path| - 1 {
        newPath.path := newPath.path[lastSeparator + 1..];
      }
    }

    method Append(component: string) returns (newPath: FilePath)
      ensures fresh(newPath) && newPath.pf == pf
      ensures newPath.path == Paths.Append(pf, path, component)
    {
      if path == CURRENT_DIRECTORY {
        newPath := new FilePath(pf, component);
        return;
      }
      newPath := new FilePath(pf, path);
      newPath.StripTrailingSeparatorsInternal();
      if |component| > 0 && |newPath.path| > 0 {
        if !IsSeparator(pf, newPath.path[|newPath.path| - 1]) {
          if FindDriveLetter(pf, newPath.path) + 1 != |newPath.path| {
            newPath.path := newPath.path + [Separator(pf)];
          }
        }
      }
      newPath.path := newPath.path + component;
    }

    method Equals(that: FilePath) returns (same: bool)
      requires that.pf == pf
      ensures same <==> SamePath(pf, path, that.path)
    {
      var a, b := FindDriveLetter(pf, path), FindDriveLetter(pf, that.path);
      if a == -1 || b == -1 {
        return path == that.path;
      }
      if Lower(path[..a + 1]) != Lower(that.path[..b + 1]) {
        return false;
      }
      return path[a + 1..] == that.path[b + 1..];
    }

    // Walks up to the root, collecting base names last to first. The loop ends because every step
    // from a path that is not its own directory lowers its rank.
    method GetComponents() returns (components: seq<string>)
      ensures components == Components(pf, path)
    {
      hide Climb, Strip, Paths.DirName, Paths.BaseName, FindDriveLetter, SamePath;
      components := [];
      if path == "" {
        return;
      }
      var retVal: seq<string> := [];
      assert Reverse(retVal) == [];
      hide Reverse;
      var current := new FilePath(pf, path);
      var dir := current.DirName();
      var atTop := current.Equals(dir);
      assert Climb(pf, path) + [] == Climb(pf, path);
      while !atTop
        invariant fresh(current) && fresh(dir) && current.pf == pf && dir.pf == pf
        invariant current.path != "" && dir.path == Paths.DirName(pf, current.path)
        invariant atTop <==> SamePath(pf, current.path, dir.path)
        invariant Climb(pf, path) == Climb(pf, current.path) + Reverse(retVal)
        decreases Rank(current.path)
      {
        hide TopComponents;
        ClimbStep(pf, current.path);
        var base := current.BaseName();
        ghost var before := retVal;
        if !AllSeparators(pf, base.path) {
          retVal := retVal + [base.path];
          ReverseAppend(before, base.path);
        }
        ghost var (name, above) := (NameComponent(pf, current.path), Climb(pf, dir.path));
        assert Reverse(retVal) == name + Reverse(before);
        assert (above + name) + Reverse(before) == above + Reverse(retVal);
        current := dir;
        dir := current.DirName();
        atTop := current.Equals(dir);
      }
      ClimbEnd(pf, current.path);
      ghost var names := retVal;
      var base := current.BaseName();
      if base.path != "" && base.path != CURRENT_DIRECTORY {
        retVal := retVal + [base.path];
        ReverseAppend(names, base.path);
      }
      ghost var rooted := retVal;
      var letter := FindDriveLetter(pf, dir.path);
      if letter != -1 {
        retVal := retVal + [dir.path[..letter + 1]];
        ReverseAppend(rooted, dir.path[..letter + 1]);
      }
      ghost var top := TopComponents(pf, current.path);
      assert Reverse(retVal) == top + Reverse(names);
      components := Reverse(retVal);
    }

    // The POSIX build; relative is null where IsParent calls it. It may be this path or the child:
    // both component lists are taken before it changes.
    method AppendRelativePath(child: FilePath, relative: FilePath?) returns (isParent: bool)
      requires pf == child.pf == POSIX && (relative != null ==> relative.pf == POSIX)
      modifies relative
      ensures isParent <==> Paths.IsParent(old(path), old(child.path))
      ensures relative != null && isParent ==>
                relative.path == AppendAll(POSIX, old(relative.path), Relative(old(path), old(child.path)))
      ensures relative != null && !isParent ==> relative.path == old(relative.path)
    {
      hide Components, Paths.Append;
      var parentComponents := GetComponents();
      var childComponents := child.GetComponents();
      if |parentComponents| == 0 || |parentComponents| >= |childComponents| {
        return false;
      }
      var comp := 0;
      while comp < |parentComponents|
        invariant comp <= |parentComponents|
        invariant parentComponents[..comp] == childComponents[..comp]
      {
        if parentComponents[comp] != childComponents[comp] {
          return false;
        }
        comp := comp + 1;
      }
      if relative != null {
        ghost var target := AppendAll(POSIX, relative.path, childComponents[comp..]);
        while comp < |childComponents|
          invariant comp <= |childComponents|
          invariant AppendAll(POSIX, relative.path, childComponents[comp..]) == target
        {
          var next := relative.Append(childComponents[comp]);
          relative.path := next.path;
          comp := comp + 1;
        }
      }
      return true;
    }

    method IsParent(child: FilePath) returns (r: bool)
      requires pf == child.pf == POSIX
      ensures r <==> Paths.IsParent(path, child.path)
    {
      r := AppendRelativePath(child, null);
    }
  }
}
