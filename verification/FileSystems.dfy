// The file-system calls that base/file_util_posix.cc makes, over a tree of nodes. Each call succeeds
// exactly when it is legal if everything is permitted; otherwise it may also fail.

module FileSystems {
  import opened Options
  import opened Paths
  import opened Trees

  // Other processes may only have added directories.
  ghost predicate Grown(before: Nodes, after: Nodes) {
    && (forall k :: k in before ==> k in after && after[k] == before[k])
    && (forall k :: k in after && k !in before ==> after[k].Directory? && k != [] && ValidName(Last(k)))
  }

  // rmdir and mkdir refuse roots, "." and "..".
  predicate Nameable(k: Key) {
    k != [] && ValidName(Last(k))
  }

  ghost predicate IsEmpty(nodes: Nodes, d: Key) {
    forall k :: k in nodes ==> !IsChild(d, k)
  }

  predicate MayCreate(nodes: Nodes, k: Key) {
    Nameable(k) && k !in nodes && "" !in k && Parent(k) in nodes && nodes[Parent(k)].Directory?
  }

  lemma CreateKeepsTree(nodes: Nodes, k: Key)
    requires IsTree(nodes) && MayCreate(nodes, k)
    ensures IsTree(nodes[k := Directory]) && Grown(nodes, nodes[k := Directory])
  {
    hide ValidName;
  }

  lemma RemoveKeepsTree(nodes: Nodes, k: Key)
    requires IsTree(nodes) && k in nodes && k !in {[], ["/"], ["//"]} && (nodes[k].Directory? ==> IsEmpty(nodes, k))
    ensures IsTree(nodes - {k})
  {
    hide ValidName;
    var left := nodes - {k};
    forall c | c in left && c != [] && ValidName(Last(c)) ensures Parent(c) in left && left[Parent(c)].Directory? {
      assert Parent(c) in nodes && nodes[Parent(c)].Directory?;
      assert Parent(c) == k ==> IsChild(k, c);
    }
  }

  lemma GrownTwice(a: Nodes, b: Nodes, c: Nodes)
    requires Grown(a, b) && Grown(b, c)
    ensures Grown(a, c)
  {
    hide ValidName;
  }

  // A directory read so far: names are left of all.
  ghost predicate Gathered(nodes: Nodes, d: Key, entries: seq<Entry>, names: set<string>, all: set<string>) {
    && names <= all
    && (forall n :: n in all ==> IsSpecial(n) || (ValidName(n) && d + [n] in nodes))
    && (forall k :: k in nodes && IsChild(d, k) ==> Last(k) in all)
    && Distinct(entries)
    && (forall i :: 0 <= i < |entries| ==> ListedAs(nodes, d, entries[i]) && entries[i].filename !in names)
    && (forall n :: n in all && n !in names ==> Has(entries, n))
  }

  lemma GatherNone(nodes: Nodes, d: Key, all: set<string>)
    requires all == {CURRENT_DIRECTORY, PARENT_DIRECTORY} + set k | k in nodes && IsChild(d, k) :: Last(k)
    ensures Gathered(nodes, d, [], all, all)
  {
    hide ValidName;
    forall n | n in all && !IsSpecial(n) ensures ValidName(n) && d + [n] in nodes {
      var k :| k in nodes && IsChild(d, k) && n == Last(k);
      assert d + [Last(k)] == k;
    }
  }

  lemma NameInDirectory(nodes: Nodes, d: Key, entries: seq<Entry>, names: set<string>, all: set<string>, n: string)
    requires Gathered(nodes, d, entries, names, all) && n in names
    ensures IsSpecial(n) || d + [n] in nodes
  {
    hide ValidName, IsSpecial, Distinct, ListedAs, Has, IsChild;
  }

  lemma GatherOne(nodes: Nodes, d: Key, entries: seq<Entry>, names: set<string>, all: set<string>, e: Entry)
    requires Gathered(nodes, d, entries, names, all) && e.filename in names
    requires if IsSpecial(e.filename) then e.node == Directory else d + [e.filename] in nodes && e.node == nodes[d + [e.filename]]
    ensures Gathered(nodes, d, entries + [e], names - {e.filename}, all)
  {
    hide ValidName, IsSpecial, IsChild;
    var longer, left := entries + [e], names - {e.filename};
    forall n | n in all && n !in left ensures Has(longer, n) {
      if n == e.filename {
        assert longer[|entries|].filename == n;
      } else {
        var i :| 0 <= i < |entries| && entries[i].filename == n;
        assert longer[i].filename == n;
      }
    }
  }

  lemma GatherAll(nodes: Nodes, d: Key, entries: seq<Entry>, all: set<string>)
    requires Gathered(nodes, d, entries, {}, all)
    ensures Listing(nodes, d, entries)
  {
    hide ValidName, IsSpecial, IsChild, ListedAs, Has, Distinct;
  }

  // Only an empty name cannot be created in a directory that exists.
  lemma CreatableName(nodes: Nodes, k: Key)
    requires IsTree(nodes) && Nameable(k) && k !in nodes && Parent(k) in nodes && nodes[Parent(k)].Directory?
    ensures MayCreate(nodes, k)
  {
    assert k == Parent(k) + [Last(k)];
  }

  class FileSystem {
    var nodes: Nodes
    const permitted: bool
    // Where listings lead last; [] for no preference.
    const favoured: Key
    // What Mkdir has created, not counting other processes.
    ghost var made: set<Key>

    ghost predicate Valid()
      reads this
    {
      IsTree(nodes)
    }

    constructor (nodes: Nodes, permitted: bool, favoured: Key)
      requires IsTree(nodes)
      ensures this.nodes == nodes && this.permitted == permitted && this.favoured == favoured && made == {} && Valid()
    {
      this.nodes, this.permitted, this.favoured, made := nodes, permitted, favoured, {};
    }

    method Stat(path: string) returns (found: Option<Node>)
      ensures found == Lookup(nodes, path)
    {
      found := Lookup(nodes, path);
    }

    // Whether a legal call fails all the same.
    method Refused() returns (refused: bool)
      ensures permitted ==> !refused
    {
      refused := *;
      refused := refused && !permitted;
    }

    method Unlink(path: string) returns (ok: bool)
      requires Valid()
      modifies this`nodes
      ensures Valid()
      ensures ok ==> Lookup(old(nodes), path).Some? && !Lookup(old(nodes), path).value.Directory?
      ensures nodes == if ok then old(nodes) - {Locate(path)} else old(nodes)
      ensures permitted && Lookup(old(nodes), path).Some? && !Lookup(old(nodes), path).value.Directory? ==> ok
    {
      hide Locate, Strip, ValidName;
      var found := Lookup(nodes, path);
      ok := found.Some? && !found.value.Directory?;
      var refused := Refused();
      ok := ok && !refused;
      if ok {
        RemoveKeepsTree(nodes, Locate(path));
        nodes := nodes - {Locate(path)};
      }
    }

    // Removes a directory, which must be empty.
    method Rmdir(path: string) returns (ok: bool)
      requires Valid()
      modifies this`nodes
      ensures Valid()
      ensures ok ==> Lookup(old(nodes), path) == Some(Directory) && IsEmpty(old(nodes), Locate(path)) && Nameable(Locate(path))
      ensures nodes == if ok then old(nodes) - {Locate(path)} else old(nodes)
      ensures permitted && Lookup(old(nodes), path) == Some(Directory) && IsEmpty(old(nodes), Locate(path)) && Nameable(Locate(path)) ==> ok
    {
      hide Locate, Strip;
      var k := Locate(path);
      ok := Lookup(nodes, path) == Some(Directory) && Nameable(k) && (forall c <- nodes.Keys :: !IsChild(k, c));
      var refused := Refused();
      ok := ok && !refused;
      RootsAreNoNames();
      hide ValidName;
      if ok {
        RemoveKeepsTree(nodes, k);
        nodes := nodes - {k};
      }
    }

    // opendir, readdir and lstat of every entry; with no links in the tree, stat as well.
    method ReadDirectory(path: string) returns (ok: bool, entries: seq<Entry>)
      requires Valid()
      ensures ok ==> Lookup(nodes, path) == Some(Directory) && Listing(nodes, Locate(path), entries)
      ensures ok ==> FavouredLast(Locate(path), entries, favoured)
      ensures permitted && Lookup(nodes, path) == Some(Directory) ==> ok
    {
      hide Locate, Strip, Listing, Gathered, ValidName, IsSpecial;
      entries := [];
      ok := Lookup(nodes, path) == Some(Directory);
      var refused := Refused();
      ok := ok && !refused;
      if !ok {
        return;
      }
      var d := Locate(path);
      var names := {CURRENT_DIRECTORY, PARENT_DIRECTORY} + set k | k in nodes && IsChild(d, k) :: Last(k);
      ghost var all := names;
      GatherNone(nodes, d, all);
      var onTheWay := |d| < |favoured| && d == favoured[..|d|];
      while names != {}
        invariant Gathered(nodes, d, entries, names, all)
        invariant onTheWay && Has(entries, favoured[|d|]) ==>
          names == {} && entries != [] && entries[|entries| - 1].filename == favoured[|d|]
      {
        var n :| n in names;
        if onTheWay && n == favoured[|d|] && names != {n} {
          assert names - {n} != {};
          n :| n in names - {favoured[|d|]};
        }
        NameInDirectory(nodes, d, entries, names, all, n);
        var e := Entry(n, if IsSpecial(n) then Directory else nodes[d + [n]]);
        GatherOne(nodes, d, entries, names, all, e);
        entries := entries + [e];
        names := names - {n};
      }
      GatherAll(nodes, d, entries, all);
    }

    // Other processes create directories.
    method Others()
      requires Valid()
      modifies this`nodes
      ensures Valid() && Grown(old(nodes), nodes)
    {
      var n: int := *;
      while n > 0
        invariant Valid() && Grown(old(nodes), nodes)
      {
        var k: Key := *;
        if MayCreate(nodes, k) {
          CreateKeepsTree(nodes, k);
          GrownTwice(old(nodes), nodes, nodes[k := Directory]);
          nodes := nodes[k := Directory];
        }
        n := n - 1;
      }
    }

    method DirectoryExists(path: string) returns (exists': bool)
      requires Valid()
      modifies this`nodes
      ensures Valid() && Grown(old(nodes), nodes)
      ensures exists' <==> Lookup(nodes, path) == Some(Directory)
    {
      Others();
      exists' := Lookup(nodes, path) == Some(Directory);
    }

    // The parent must already be a directory when this is called.
    method Mkdir(path: string) returns (ok: bool)
      requires Valid()
      requires Nameable(Locate(path)) ==> Parent(Locate(path)) in nodes && nodes[Parent(Locate(path))].Directory?
      modifies this`nodes, this`made
      ensures Valid() && Grown(old(nodes), nodes)
      ensures ok ==> Locate(path) in nodes && nodes[Locate(path)].Directory? && Locate(path) !in old(nodes)
      ensures made == if ok then old(made) + {Locate(path)} else old(made)
      ensures permitted && Nameable(Locate(path)) && Locate(path) !in old(nodes) ==> Locate(path) in nodes && nodes[Locate(path)].Directory?
    {
      hide Locate, ValidName;
      Others();
      var k := Locate(path);
      if Nameable(k) && k !in nodes {
        CreatableName(nodes, k);
      }
      ok := MayCreate(nodes, k);
      var refused := Refused();
      ok := ok && !refused;
      if ok {
        CreateKeepsTree(nodes, k);
        GrownTwice(old(nodes), nodes, nodes[k := Directory]);
        nodes := nodes[k := Directory];
        made := made + {k};
      }
    }
  }

  lemma RootsAreNoNames()
    ensures !ValidName("/") && !ValidName("//")
  {
  }
}
