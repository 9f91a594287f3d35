// CreateDirectory of base/file_util_posix.cc: climb to the root, then create what is missing, while
// other processes may be creating directories too.

module Directories {
  import opened Options
  import opened Paths
  import opened Trees
  import opened FileSystems

  // A path and the directories above it, up to the one at which DirName stands still.
  function Ascent(p: string): (r: seq<string>)
    ensures r != [] && r[0] == p
    decreases Rank(p)
  {
    DirNameClimbs(p);
    if DirName(POSIX, p) == p then [p] else [p] + Ascent(DirName(POSIX, p))
  }

  lemma DirNameClimbs(p: string)
    ensures DirName(POSIX, p) != p ==> Rank(DirName(POSIX, p)) < Rank(p)
  {
    hide LastSeparator, TrimmedLength;
    if p != "" {
      DirNameFixpoints(POSIX, p);
    }
  }

  // One step up drops the last component, or only separators.
  lemma StepUp(p: string)
    requires DirName(POSIX, p) != p
    ensures Locate(p) == Locate(DirName(POSIX, p)) || (Locate(p) != [] && Parent(Locate(p)) == Locate(DirName(POSIX, p)))
  {
    DirNameStripped(POSIX, p);
    if p == "" {
      DotAbove();
    } else {
      var s := Strip(POSIX, p);
      StripEnd(POSIX, p);
      NamesOfStrip(POSIX, p);
      StripIdempotent(POSIX, p);
      hide DirName, BaseName, Strip, TopComponents;
    }
  }

  lemma DotAbove()
    ensures DirName(POSIX, "") == CURRENT_DIRECTORY && Locate(CURRENT_DIRECTORY) == []
  {
    hide TrimmedLength;
    TopOfDot();
  }

  lemma TopIsRoot(p: string)
    requires DirName(POSIX, p) == p
    ensures Locate(p) in {[], ["/"], ["//"]}
  {
    hide DirName, BaseName, Strip, LastSeparator;
    DirNameStripped(POSIX, p);
    DirNameFixpoints(POSIX, p);
    TopOfDot();
    if p != CURRENT_DIRECTORY {
      TopBase(POSIX, p);
      assert p[0..] == p;
      assert forall i :: 0 <= i < |p| ==> p[i] == '/';
      assert p == "/" || p == "//";
      assert Climb(POSIX, p) == TopComponents(POSIX, p) == [p];
    }
  }

  // A directory, or something missing that can be created in its parent.
  ghost predicate Creatable(nodes: Nodes, k: Key) {
    if k in nodes then nodes[k].Directory? else Nameable(k)
  }

  ghost predicate HasDirectory(nodes: Nodes, k: Key) {
    k in nodes && nodes[k].Directory?
  }

  lemma GrownCreatable(before: Nodes, after: Nodes, k: Key)
    requires Grown(before, after)
    ensures HasDirectory(after, k) ==> Creatable(before, k)
    ensures HasDirectory(before, k) ==> HasDirectory(after, k)
    ensures Creatable(before, k) && k in after ==> HasDirectory(after, k)
  {
  }

  // The directories from index i on exist.
  ghost predicate ExistFrom(nodes: Nodes, subpaths: seq<string>, i: nat) {
    forall j :: i <= j < |subpaths| ==> HasDirectory(nodes, Locate(subpaths[j]))
  }

  lemma AscentStep(p: string, i: nat)
    requires i < |Ascent(p)|
    ensures if i + 1 < |Ascent(p)| then Ascent(p)[i + 1] == DirName(POSIX, Ascent(p)[i]) != Ascent(p)[i]
            else DirName(POSIX, Ascent(p)[i]) == Ascent(p)[i]
    decreases Rank(p)
  {
    hide DirName;
    DirNameClimbs(p);
    if i > 0 {
      AscentStep(DirName(POSIX, p), i - 1);
    }
  }

  // When the path at index i is no directory, its parent is one, if those after i are.
  lemma ParentExists(nodes: Nodes, p: string, i: nat)
    requires IsTree(nodes) && i < |Ascent(p)| && ExistFrom(nodes, Ascent(p), i + 1)
    ensures var k := Locate(Ascent(p)[i]);
      !HasDirectory(nodes, k) ==> k != [] && HasDirectory(nodes, Parent(k))
  {
    hide Ascent, DirName, Locate;
    AscentStep(p, i);
    if i + 1 < |Ascent(p)| {
      StepUp(Ascent(p)[i]);
    } else {
      TopIsRoot(Ascent(p)[i]);
    }
  }

  // Is there nothing in the way of a directory with key k: are this key and all above it directories or
  // names that can be created?
  ghost predicate Clear(nodes: Nodes, k: Key) {
    forall i :: 0 <= i <= |k| ==> Creatable(nodes, k[..i])
  }

  lemma ClearAbove(nodes: Nodes, k: Key)
    requires k != []
    ensures Clear(nodes, k) <==> Clear(nodes, Parent(k)) && Creatable(nodes, k)
  {
    hide Creatable;
    assert k[..|k|] == k;
    assert forall i :: 0 <= i < |k| ==> k[..i] == Parent(k)[..i];
  }

  // The paths climbed through are those of all the directories above.
  lemma {:induction false} AscentIsClear(nodes: Nodes, p: string)
    requires IsTree(nodes)
    ensures (forall q :: q in Ascent(p) ==> Creatable(nodes, Locate(q))) <==> Clear(nodes, Locate(p))
    decreases Rank(p)
  {
    hide DirName, Locate, Creatable, Clear;
    DirNameClimbs(p);
    RootsAreClear(nodes);
    var d := DirName(POSIX, p);
    if d == p {
      TopIsRoot(p);
    } else {
      StepUp(p);
      AscentIsClear(nodes, d);
      assert d in Ascent(d);
      if Locate(p) != Locate(d) {
        ClearAbove(nodes, Locate(p));
      } else {
        ClearItself(nodes, Locate(p));
      }
    }
  }

  lemma {:induction false} AscentIsAbove(p: string)
    ensures forall q :: q in Ascent(p) ==> Locate(q) <= Locate(p)
    decreases Rank(p)
  {
    hide DirName, Locate;
    DirNameClimbs(p);
    var d := DirName(POSIX, p);
    if d != p {
      StepUp(p);
      AscentIsAbove(d);
    }
  }

  lemma ClearItself(nodes: Nodes, k: Key)
    ensures Clear(nodes, k) ==> Creatable(nodes, k)
  {
    hide Creatable;
    assert k[..|k|] == k;
  }

  lemma RootsAreClear(nodes: Nodes)
    requires IsTree(nodes)
    ensures forall k :: k in {[], ["/"], ["//"]} ==> Clear(nodes, k) && Creatable(nodes, k)
  {
    hide ValidName;
    assert ["/"][..0] == [] && ["/"][..1] == ["/"] && ["//"][..0] == [] && ["//"][..1] == ["//"];
    assert Creatable(nodes, []) && Creatable(nodes, ["/"]) && Creatable(nodes, ["//"]);
  }

  // The paths from fullPath to the top.
  method Subpaths(fullPath: string) returns (subpaths: seq<string>)
    ensures subpaths == Ascent(fullPath)
  {
    hide DirName, Rank;
    var lastPath := fullPath;
    subpaths := [fullPath];
    var path := DirName(POSIX, fullPath);
    while path != lastPath
      invariant path == DirName(POSIX, lastPath)
      invariant subpaths != [] && subpaths[|subpaths| - 1] == lastPath
      invariant subpaths[..|subpaths| - 1] + Ascent(lastPath) == Ascent(fullPath)
      decreases Rank(lastPath)
    {
      DirNameClimbs(lastPath);
      ghost var before := subpaths;
      subpaths := subpaths + [path];
      assert subpaths[..|subpaths| - 1] == before == before[..|before| - 1] + [lastPath];
      lastPath := path;
      path := DirName(POSIX, path);
    }
  }

  // One directory: it exists, or is created, or has appeared meanwhile.
  method EnsureDirectory(fs: FileSystem, path: string) returns (ok: bool)
    requires fs.Valid()
    requires var k := Locate(path); !HasDirectory(fs.nodes, k) && k != [] ==> HasDirectory(fs.nodes, Parent(k))
    modifies fs
    ensures fs.Valid() && Grown(old(fs.nodes), fs.nodes)
    ensures ok <==> HasDirectory(fs.nodes, Locate(path))
    ensures fs.permitted && Creatable(old(fs.nodes), Locate(path)) ==> ok
    ensures fs.made == old(fs.made) || (fs.made == old(fs.made) + {Locate(path)} && Locate(path) !in old(fs.nodes))
  {
    hide Locate, Strip, ValidName;
    ghost var k, n0 := Locate(path), fs.nodes;
    ok := fs.DirectoryExists(path);
    ghost var n1 := fs.nodes;
    if !ok {
      GrownCreatable(n0, n1, k);
      GrownCreatable(n0, n1, Parent(k));
      ok := fs.Mkdir(path);
      ghost var n2 := fs.nodes;
      GrownTwice(n0, n1, n2);
      if !ok {
        ok := fs.DirectoryExists(path);
        GrownCreatable(n2, fs.nodes, k);
        GrownTwice(n0, n2, fs.nodes);
      }
    }
  }

  // Creates path and whatever is missing above it, top down; mkdir is called only where the parent is
  // a directory. If everything is permitted, it succeeds exactly when nothing is in the way.
  method CreateDirectory(fs: FileSystem, fullPath: string) returns (ok: bool)
    requires fs.Valid()
    modifies fs
    ensures fs.Valid() && Grown(old(fs.nodes), fs.nodes)
    ensures ok ==> Lookup(fs.nodes, fullPath) == Some(Directory)
    ensures ok ==> Clear(old(fs.nodes), Locate(fullPath))
    ensures fs.permitted && Clear(old(fs.nodes), Locate(fullPath)) ==> ok
    ensures forall k :: k in fs.made && k !in old(fs.made) ==> k <= Locate(fullPath) && k !in old(fs.nodes)
  {
    hide Locate, Strip, Ascent, IsTree, Grown, HasDirectory, Creatable, Clear;
    AscentIsClear(fs.nodes, fullPath);
    AscentIsAbove(fullPath);
    var subpaths := Subpaths(fullPath);
    GrownNone(fs.nodes);
    var i := |subpaths|;
    while i > 0
      invariant 0 <= i <= |subpaths| && fs.Valid() && Grown(old(fs.nodes), fs.nodes)
      invariant ExistFrom(fs.nodes, subpaths, i)
      invariant forall k :: k in fs.made && k !in old(fs.made) ==> k <= Locate(fullPath) && k !in old(fs.nodes)
    {
      i := i - 1;
      ghost var before := fs.nodes;
      ParentExists(before, fullPath, i);
      ok := EnsureDirectory(fs, subpaths[i]);
      GrownTwice(old(fs.nodes), before, fs.nodes);
      GrownCreatable(old(fs.nodes), before, Locate(subpaths[i]));
      CreatableLater(old(fs.nodes), before, Locate(subpaths[i]));
      NewLater(old(fs.nodes), before, Locate(subpaths[i]));
      assert subpaths[i] in Ascent(fullPath);
      if !ok {
        return;
      }
      forall j | i <= j < |subpaths| ensures HasDirectory(fs.nodes, Locate(subpaths[j])) {
        GrownCreatable(before, fs.nodes, Locate(subpaths[j]));
      }
    }
    ok := true;
    forall p | p in Ascent(fullPath) ensures Creatable(old(fs.nodes), Locate(p)) {
      GrownCreatable(old(fs.nodes), fs.nodes, Locate(p));
    }
    DirectoryThere(fs.nodes, fullPath);
  }

  lemma GrownNone(nodes: Nodes)
    ensures Grown(nodes, nodes)
  {
  }

  lemma CreatableLater(before: Nodes, after: Nodes, k: Key)
    requires Grown(before, after)
    ensures Creatable(before, k) ==> Creatable(after, k)
  {
  }

  lemma NewLater(before: Nodes, after: Nodes, k: Key)
    requires Grown(before, after)
    ensures k !in after ==> k !in before
  {
  }

  lemma DirectoryThere(nodes: Nodes, path: string)
    requires HasDirectory(nodes, Locate(path))
    ensures Lookup(nodes, path) == Some(Directory)
  {
  }
}
