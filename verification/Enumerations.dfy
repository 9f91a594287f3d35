// Whole enumerations: a client that collects everything FileEnumerator returns, and
// ComputeDirectorySize of base/file_util.cc.

module Enumerations {
  import opened Paths
  import opened Trees
  import opened FileSystems
  import opened Enumerators

  ghost predicate NoRepeats(keys: seq<Key>) {
    forall i, j :: 0 <= i < j < |keys| ==> keys[i] != keys[j]
  }

  // Keys returned and keys that remain make up all.
  ghost predicate Shared(all: set<Key>, keys: seq<Key>, remaining: set<Key>, complete: bool) {
    && NoRepeats(keys)
    && (forall i :: 0 <= i < |keys| ==> keys[i] in all && keys[i] !in remaining)
    && remaining <= all
    && (complete ==> forall k :: k in all ==> k in keys || k in remaining)
  }

  lemma SharedNext(all: set<Key>, keys: seq<Key>, remaining: set<Key>, complete: bool, next: Key, left: set<Key>)
    requires Shared(all, keys, remaining, complete) && next in remaining && left <= remaining - {next}
    requires complete ==> left == remaining - {next}
    ensures Shared(all, keys + [next], left, complete)
  {
  }

  // A whole enumeration: every wanted key once; no entry of a directory after one of a directory
  // further down; the entries of one directory together.
  method EnumerateAll(fs: FileSystem, root: string, query: Query) returns (paths: seq<string>)
    requires fs.Valid() && (query.showSymLinks || forall k :: k in fs.nodes ==> !fs.nodes[k].Link?)
    ensures NoRepeats(Keys(paths))
    ensures forall k :: k in Keys(paths) ==> k in Found(fs.nodes, query, Locate(root))
    ensures fs.permitted ==> forall k :: k in Found(fs.nodes, query, Locate(root)) ==> k in Keys(paths)
    // In full: directories if asked for, everything else if files are, at any depth or just below root.
    ensures fs.permitted ==> forall k :: k in Keys(paths) <==>
      && k in fs.nodes && Below(Locate(root), k) && (query.recursive || |k| == |Locate(root)| + 1)
      && if fs.nodes[k].Directory? then query.directories else query.files
    ensures TopDown(Keys(paths), {}) && Together(Keys(paths), {})
    // Level order where the tree is slim; elsewhere the listings decide.
    ensures Slim(fs.nodes, query, Locate(root)) ==> LevelOrder(Keys(paths))
    ensures query.recursive && fs.permitted && Toward(Locate(root), fs.favoured) && Emits(fs.nodes, query, fs.favoured) ==>
      Reached(Keys(paths), fs.favoured)
  {
    hide Locate, Keys, Append, Strip, Walking, Outstanding, TopDown, Together, Shared, After, Found, IsTree, ValidName;
    hide Higher, Toward, Below, Emits, Slim, LevelOrder, Reached, OnTheWay;
    var e := new FileEnumerator(fs, root, query);
    paths := [];
    ghost var all := e.Remaining();
    Nothing(fs.nodes, query, Locate(root), fs.permitted);
    ghost var guided := e.Heading() && e.Guided();
    EmitsDirectory(fs.nodes, query, fs.favoured);
    var done := false;
    while !done
      invariant e.Valid() && Shared(all, Keys(paths), if done then {} else e.Remaining(), fs.permitted)
      invariant var left := if done then {} else e.Remaining(); TopDown(Keys(paths), left) && Together(Keys(paths), left)
      invariant !done && paths != [] ==> e.begun && Parent(Keys(paths)[|paths| - 1]) == Locate(e.rootPath)
      invariant guided ==> Reached(Keys(paths), fs.favoured) || (!done && e.Heading() && OnTheWay(Keys(paths), fs.favoured))
      decreases !done, e.Remaining()
    {
      ghost var before, d := e.Remaining(), Locate(e.rootPath);
      Finish(all, Keys(paths), before, fs.permitted);
      forall k | k in before && e.begun && Parent(k) == d
        ensures After(e.directoryEntries, e.currentDirectoryEntry) != []
      {
        e.Place(k);
      }
      var path := e.Next();
      if path == "" {
        done := true;
      } else {
        forall k | k in e.Remaining() ensures !Higher(k, Locate(path)) {
          e.Place(k);
          HigherIs(k, Locate(path));
        }
        KeysOfPush(paths, path);
        SharedNext(all, Keys(paths), before, fs.permitted, Locate(path), e.Remaining());
        TopDownNext(Keys(paths), before, Locate(path), e.Remaining());
        TogetherNext(Keys(paths), before, Locate(path), e.Remaining());
        WayNext(Keys(paths), fs.favoured, Locate(path));
        paths := paths + [path];
      }
    }
    All(all, Keys(paths), fs.permitted);
    FoundIs(fs.nodes, query, Locate(root));
    if Slim(fs.nodes, query, Locate(root)) {
      SlimLevels(fs.nodes, query, Locate(root), Keys(paths));
    }
  }

  lemma FoundIs(nodes: Nodes, q: Query, d: Key)
    ensures forall k :: k in Found(nodes, q, d) <==>
      && k in nodes && Below(d, k) && (q.recursive || |k| == |d| + 1)
      && if nodes[k].Directory? then q.directories else q.files
  {
    hide Below;
  }

  lemma EmitsDirectory(nodes: Nodes, q: Query, d: Key)
    requires IsTree(nodes)
    ensures Emits(nodes, q, d) ==> d in nodes && nodes[d].Directory?
  {
  }

  // The header of base/file_util.h calls the search breadth-first. For every tree there are listings
  // for which the enumeration is in level order if and only if the tree is slim; and in a slim tree it
  // is so for all listings.
  method WorstListings(nodes: Nodes, root: string, query: Query) returns (fs: FileSystem, paths: seq<string>)
    requires IsTree(nodes) && (query.showSymLinks || forall k :: k in nodes ==> !nodes[k].Link?)
    ensures fresh(fs) && fs.nodes == nodes && fs.permitted
    ensures forall k :: k in Keys(paths) <==> k in Found(nodes, query, Locate(root))
    ensures LevelOrder(Keys(paths)) <==> Slim(nodes, query, Locate(root))
  {
    hide Locate, Keys, Found, IsTree, Toward, Below, Emits, LevelOrder, Reached, TopDown, Together, NoRepeats;
    var favoured, d := [], Locate(root);
    ghost var b: Key := [];
    if !Slim(nodes, query, d) {
      var a, c :| a in nodes && c in nodes && Aslant(nodes, query, d, a, c) && !Below(c, a);
      favoured, b := a, c;
    }
    fs := new FileSystem(nodes, true, favoured);
    paths := EnumerateAll(fs, root, query);
    if !Slim(nodes, query, d) {
      FoundNotEmpty(nodes, query, d);
      ReachedTooEarly(nodes, query, d, Keys(paths), favoured, b);
    }
  }

  // The smallest tree that is not slim: below "d", a file "f" in "a/x" and a file "g" in "b".
  function TwoDeep(): Nodes {
    JustRoots()[["d"] := Directory][["d", "a"] := Directory][["d", "b"] := Directory][["d", "a", "x"] := Directory]
    [["d", "b", "g"] := File(7)][["d", "a", "x", "f"] := File(5)]
  }

  lemma Letters()
    ensures forall n :: n in {"d", "a", "x", "f", "b", "g"} ==> ValidName(n)
  {
  }

  function JustRoots(): Nodes {
    map[[] := Directory, ["/"] := Directory, ["//"] := Directory]
  }

  lemma RootsAreTree()
    ensures IsTree(JustRoots())
  {
    RootsAreNoNames();
    hide ValidName;
  }

  lemma TwoDeepIsTree()
    ensures IsTree(TwoDeep())
  {
    hide ValidName, IsTree, Last, Parent, JustRoots;
    Letters();
    RootsAreTree();
    var t0 := JustRoots();
    assert [] in t0 && t0[[]].Directory? && forall c :: c in t0 ==> |c| <= 1 by { RootsShallow(); }
    var t1 := Grow(t0, [], ["d"], "d", Directory);
    var t2 := Grow(t1, ["d"], ["d", "a"], "a", Directory);
    var t3 := Grow(t2, ["d"], ["d", "b"], "b", Directory);
    assert ["d", "a"] != ["d", "b"] by { assert ["d", "a"][1] != ["d", "b"][1]; }
    var t4 := Grow(t3, ["d", "a"], ["d", "a", "x"], "x", Directory);
    var t5 := Grow(t4, ["d", "b"], ["d", "b", "g"], "g", File(7));
    assert ["d", "a", "x"] != ["d", "b", "g"] by { assert ["d", "a", "x"][1] != ["d", "b", "g"][1]; }
    var t6 := Grow(t5, ["d", "a", "x"], ["d", "a", "x", "f"], "f", File(5));
  }

  lemma RootsShallow()
    ensures [] in JustRoots() && JustRoots()[[]].Directory? && forall c :: c in JustRoots() ==> |c| <= 1
  {
  }

  // One more node, at least as deep as all others.
  lemma Grow(nodes: Nodes, d: Key, k: Key, name: string, node: Node) returns (more: Nodes)
    requires IsTree(nodes) && d in nodes && nodes[d].Directory? && ValidName(name) && k == d + [name]
    requires forall c :: c in nodes ==> |c| <= |k|
    ensures more == nodes[k := node] && IsTree(more) && forall c :: c in more ==> |c| <= |k|
    ensures forall c :: |c| < |k| ==> (c in more <==> c in nodes) && (c in nodes ==> more[c] == nodes[c])
  {
    assert name != "" && name != "/" && name != "//" by { RootsAreNoNames(); }
    hide ValidName;
    more := nodes[k := node];
    assert Parent(k) == d && Last(k) == name;
  }

  lemma TwoDeepIsNotSlim()
    ensures IsTree(TwoDeep()) && !Slim(TwoDeep(), Query(true, true, true, true), ["d"])
  {
    hide IsTree;
    TwoDeepIsTree();
    Letters();
    hide ValidName;
    var t, q, a, b := TwoDeep(), Query(true, true, true, true), ["d", "a", "x"], ["d", "b"];
    var f, g := ["d", "a", "x", "f"], ["d", "b", "g"];
    assert f[..3] == a && g[..2] == b && IsChild(a, f) && IsChild(b, g);
    assert f in t && g in t && a in t && b in t;
    hide TwoDeep;
    assert Emits(t, q, a) && Emits(t, q, b);
    assert a[..1] == ["d"] && b[..1] == ["d"] && a[..2][1] != b[1];
    assert Aslant(t, q, ["d"], a, b) && !Below(b, a);
  }

  lemma FoundNotEmpty(nodes: Nodes, q: Query, d: Key)
    ensures [] !in Found(nodes, q, d)
  {
  }

  lemma Finish(all: set<Key>, keys: seq<Key>, remaining: set<Key>, complete: bool)
    requires Shared(all, keys, remaining, complete) && TopDown(keys, remaining) && Together(keys, remaining)
    ensures TopDown(keys, {}) && Together(keys, {}) && (!complete || remaining == {} ==> Shared(all, keys, {}, complete))
  {
    hide Higher, Parent;
  }

  lemma HigherIs(k: Key, l: Key)
    ensures Higher(k, l) <==> Parent(k) < Parent(l)
  {
  }

  lemma Nothing(nodes: Nodes, q: Query, d: Key, complete: bool)
    ensures Shared(Found(nodes, q, d), Keys([]), Found(nodes, q, d), complete) && TopDown(Keys([]), Found(nodes, q, d)) && Together(Keys([]), Found(nodes, q, d))
    ensures forall a :: OnTheWay(Keys([]), a)
  {
  }

  lemma All(all: set<Key>, keys: seq<Key>, complete: bool)
    requires Shared(all, keys, {}, complete)
    ensures NoRepeats(keys) && (forall k :: k in keys ==> k in all) && (complete ==> forall k :: k in all ==> k in keys)
  {
  }

  // ---------- Sizes ----------

  function SizeOf(node: Node): nat {
    if node.Directory? then 0 else node.size
  }

  // The files and links below a directory.
  function FilesBelow(nodes: Nodes, d: Key): set<Key> {
    set k | k in nodes && Below(d, k) && !nodes[k].Directory?
  }

  ghost function TotalSize(nodes: Nodes, keys: set<Key>): nat
    requires keys <= nodes.Keys
  {
    if keys == {} then 0
    else
      var k :| k in keys;
      SizeOf(nodes[k]) + TotalSize(nodes, keys - {k})
  }

  // Any key may be counted first.
  lemma {:induction false} TotalSizeSplit(nodes: Nodes, keys: set<Key>, k: Key)
    requires keys <= nodes.Keys && k in keys
    ensures TotalSize(nodes, keys) == SizeOf(nodes[k]) + TotalSize(nodes, keys - {k})
    ensures !nodes[k].Directory? ==> TotalSize(nodes, keys) == nodes[k].size + TotalSize(nodes, keys - {k})
    ensures TotalSize(nodes, {}) == 0
    decreases keys
  {
    var first :| first in keys && TotalSize(nodes, keys) == SizeOf(nodes[first]) + TotalSize(nodes, keys - {first});
    if first != k {
      TotalSizeSplit(nodes, keys - {first}, k);
      TotalSizeSplit(nodes, keys - {k}, first);
      assert keys - {first} - {k} == keys - {k} - {first};
    }
  }

  // The sum of the sizes of all files below root, each counted once; int64 overflow aside. st_size is
  // that of the entry that the enumeration has just returned.
  method ComputeDirectorySize(fs: FileSystem, root: string) returns (runningSize: nat)
    requires fs.Valid() && forall k :: k in fs.nodes ==> !fs.nodes[k].Link?
    ensures fs.permitted ==> runningSize == TotalSize(fs.nodes, FilesBelow(fs.nodes, Locate(root)))
  {
    hide Locate, Keys, Append, Strip, Walking, Outstanding, After, IsTree, ValidName, Below, IsChild;
    var query := Query(true, true, false, false);
    ghost var all := Found(fs.nodes, query, Locate(root));
    var e := new FileEnumerator(fs, root, query);
    runningSize := 0;
    FilesOnly(fs.nodes, Locate(root));
    hide Found;
    ghost var before := e.Remaining();
    var current := e.Next();
    while current != ""
      invariant e.Valid() && e.Remaining() <= before <= all
      invariant fs.permitted ==> runningSize + TotalSize(fs.nodes, before) == TotalSize(fs.nodes, all)
      invariant if current == "" then fs.permitted ==> before == {}
                else
                  && e.currentDirectoryEntry < |e.directoryEntries|
                  && Locate(current) in before && fs.nodes[Locate(current)] == e.directoryEntries[e.currentDirectoryEntry].node
                  && (fs.permitted ==> e.Remaining() == before - {Locate(current)})
                  && e.Remaining() <= before - {Locate(current)}
      decreases if current == "" then {} else before
    {
      var info := e.GetFindInfo();
      TotalSizeSplit(fs.nodes, before, Locate(current));
      runningSize := runningSize + SizeOf(info.value.node);
      before := e.Remaining();
      current := e.Next();
    }
  }

  lemma FilesOnly(nodes: Nodes, d: Key)
    ensures Found(nodes, Query(true, true, false, false), d) == FilesBelow(nodes, d) <= nodes.Keys
  {
    hide Below;
  }

  // In the example tree the file "g" is found, and its size counts.
  lemma SizeOfTwoDeep()
    ensures FilesBelow(TwoDeep(), ["d"]) == {["d", "a", "x", "f"], ["d", "b", "g"]}
    ensures TotalSize(TwoDeep(), FilesBelow(TwoDeep(), ["d"])) == 5 + 7
  {
    hide ValidName;
    Letters();
    var t, f, g := TwoDeep(), ["d", "a", "x", "f"], ["d", "b", "g"];
    assert f[..1] == ["d"] && g[..1] == ["d"];
    assert f[1] != g[1];
    hide Below, Parent;
    assert {f, g} - {f} == {g} && {g} - {g} == {};
    TotalSizeSplit(t, {f, g}, f);
    TotalSizeSplit(t, {g}, g);
  }
}
