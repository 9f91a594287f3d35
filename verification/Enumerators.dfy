// FileEnumerator of base/file_util_posix.cc: a cursor in the entries of one directory and a stack of
// directories still to be read.

module Enumerators {
  import opened Options
  import opened Paths
  import opened Trees
  import opened FileSystems

  // IsDot and IsDotDot look at the base name; ".." is never asked for.
  predicate ShouldSkip(path: string) {
    BaseName(POSIX, path) == CURRENT_DIRECTORY || BaseName(POSIX, path) == PARENT_DIRECTORY
  }

  lemma SkipsDots(path: string, name: string)
    requires path != "" && IsName(POSIX, name)
    ensures ShouldSkip(Append(POSIX, path, name)) <==> name == "." || name == ".."
  {
    hide Append, BaseName, IsName;
    BaseNameOfAppend(POSIX, path, name);
  }

  function Keys(paths: seq<string>): (keys: seq<Key>)
    ensures |keys| == |paths|
  {
    seq(|paths|, i requires 0 <= i < |paths| => Locate(paths[i]))
  }

  lemma KeysOfPush(paths: seq<string>, path: string)
    ensures Keys(paths + [path]) == Keys(paths) + [Locate(path)]
  {
    hide Locate;
  }

  lemma KeysOfPop(paths: seq<string>)
    requires paths != []
    ensures Keys(paths) == Keys(paths[..|paths| - 1]) + [Locate(paths[|paths| - 1])]
  {
    hide Locate;
  }

  // The entries from the cursor on, and those after it.
  function From(entries: seq<Entry>, current: nat): seq<Entry> {
    if current < |entries| then entries[current..] else []
  }

  function After(entries: seq<Entry>, current: nat): seq<Entry> {
    From(entries, current + 1)
  }

  // An enumeration before its first entry, or in the middle.
  ghost predicate Walking(nodes: Nodes, q: Query, begun: bool, d: Key, rest: seq<Entry>, pending: seq<Key>) {
    if begun then Walk(nodes, q, d, rest, pending)
    else IsTree(nodes) && rest == [] && pending == [d]
  }

  lemma StateOf(nodes: Nodes, q: Query, begun: bool, d: Key, rest: seq<Entry>, pending: seq<Key>)
    requires Walking(nodes, q, begun, d, rest, pending)
    ensures IsTree(nodes) && Apart(pending) && (!q.recursive ==> |pending| <= 1)
  {
    hide IsTree;
  }

  lemma LastApart(pending: seq<Key>, d: Key)
    requires Apart(pending + [d])
    ensures Apart(pending) && NoneAbove(pending, d)
  {
    var all := pending + [d];
    assert all[|pending|] == d;
    assert forall i :: 0 <= i < |pending| ==> all[i] == pending[i];
  }

  // A directory that cannot be read is dropped; nothing is lost if it does not exist.
  lemma SkipStep(nodes: Nodes, q: Query, begun: bool, d: Key, pending: seq<Key>, next: Key)
    requires Walking(nodes, q, begun, d, [], pending + [next])
    ensures Walking(nodes, q, true, next, [], pending)
    ensures Outstanding(nodes, q, next, [], pending) <= Outstanding(nodes, q, d, [], pending + [next])
    ensures (next in nodes ==> !nodes[next].Directory?) ==>
      Outstanding(nodes, q, next, [], pending) == Outstanding(nodes, q, d, [], pending + [next])
  {
    StateOf(nodes, q, begun, d, [], pending + [next]);
    hide IsTree, Reaches, Wanted;
    LastApart(pending, next);
    ThereAdds(nodes, q, pending, [next]);
    if next in nodes ==> !nodes[next].Directory? {
      forall k | k in nodes ensures !Reaches(q, next, k) {
        NothingBelow(nodes, q, next, k);
      }
    }
  }

  lemma NothingBelow(nodes: Nodes, q: Query, d: Key, k: Key)
    requires IsTree(nodes) && k in nodes && (d in nodes ==> !nodes[d].Directory?)
    ensures !Reaches(q, d, k)
  {
    hide IsTree, ValidName;
    if Below(d, k) {
      AncestorsAreDirectories(nodes, d, k, |d|);
    }
  }

  lemma ReadStep(nodes: Nodes, q: Query, begun: bool, d: Key, pending: seq<Key>, next: Key, entries: seq<Entry>)
    requires Walking(nodes, q, begun, d, [], pending + [next]) && Listing(nodes, next, entries)
    requires next in nodes && nodes[next].Directory?
    ensures var rest, more := Kept(q, entries), pending + Pushed(q, next, entries);
      && Walking(nodes, q, true, next, rest, more)
      && Outstanding(nodes, q, next, rest, more) == Outstanding(nodes, q, d, [], pending + [next])
      && Unread(nodes, more) < Unread(nodes, pending + [next])
  {
    StateOf(nodes, q, begun, d, [], pending + [next]);
    hide IsTree, Walk, Reaches, Wanted, Listing, Kept, Pushed, There;
    ReadWalk(nodes, q, next, entries, pending);
    ReadOutstanding(nodes, q, next, entries, pending);
    ReadShrinks(nodes, q, next, entries, pending);
  }

  lemma NothingLeft(nodes: Nodes, q: Query, d: Key)
    ensures Keys([]) == [] && Outstanding(nodes, q, d, [], []) == {}
  {
  }

  lemma DirectoryFound(nodes: Nodes, path: string)
    requires IsTree(nodes)
    ensures Lookup(nodes, path) == Some(Directory) <==> Locate(path) in nodes && nodes[Locate(path)].Directory?
    ensures Lookup(nodes, path) == Some(Directory) ==> path != ""
  {
    hide Resolve, Strip;
  }

  class FileEnumerator {
    const fs: FileSystem
    const query: Query
    var currentDirectoryEntry: nat
    var directoryEntries: seq<Entry>
    var rootPath: string
    var pendingPaths: seq<string>
    ghost var begun: bool

    ghost predicate Valid()
      reads this, fs
    {
      && Walking(fs.nodes, query, begun, Locate(rootPath), After(directoryEntries, currentDirectoryEntry), Keys(pendingPaths))
      && (After(directoryEntries, currentDirectoryEntry) != [] ==> rootPath != "")
      && (directoryEntries == [] || begun)
    }

    // Everything that Next has still to return.
    ghost function Remaining(): set<Key>
      reads this, fs
    {
      Outstanding(fs.nodes, query, Locate(rootPath), After(directoryEntries, currentDirectoryEntry), Keys(pendingPaths))
    }

    // The enumeration is on its way to the directory that listings favour: it lies in or below the
    // directory that is read next.
    ghost predicate Heading()
      reads this, fs
    {
      && pendingPaths != [] && Toward(Keys(pendingPaths)[|pendingPaths| - 1], fs.favoured)
      && (begun ==> Below(Locate(rootPath), fs.favoured))
    }

    // The favoured directory can be reached and holds something.
    ghost predicate Guided()
      reads this, fs
    {
      && query.recursive && fs.permitted
      && fs.favoured in fs.nodes && fs.nodes[fs.favoured].Directory? && Emits(fs.nodes, query, fs.favoured)
    }

    constructor (fs: FileSystem, rootPath: string, query: Query)
      requires fs.Valid() && (query.showSymLinks || forall k :: k in fs.nodes ==> !fs.nodes[k].Link?)
      ensures Valid() && this.fs == fs && this.query == query && this.rootPath == rootPath && !begun
      ensures Remaining() == Found(fs.nodes, query, Locate(rootPath))
      ensures Heading() <==> Toward(Locate(rootPath), fs.favoured)
    {
      this.fs, this.query, this.rootPath := fs, query, rootPath;
      currentDirectoryEntry, directoryEntries, pendingPaths, begun := 0, [], [rootPath], false;
      new;
      hide Locate, Reaches, Wanted, IsTree, Toward, Below;
      assert Keys([rootPath]) == [Locate(rootPath)];
      RootIsPending(fs.nodes, query, Locate(rootPath));
    }

    // Once begun, what remains of the current directory lies under the cursor, and nothing remains of
    // the directories above it.
    lemma Place(k: Key)
      requires Valid() && begun && k in Remaining()
      ensures k != [] && k in fs.nodes && Wanted(query, fs.nodes[k])
      ensures !(Parent(k) < Locate(rootPath))
      ensures Parent(k) == Locate(rootPath) ==> After(directoryEntries, currentDirectoryEntry) != []
    {
      hide Walk, Outstanding, Locate, Keys, After, Wanted;
      OutstandingPlace(fs.nodes, query, Locate(rootPath), After(directoryEntries, currentDirectoryEntry), Keys(pendingPaths), k);
    }

    // Removing something that does not remain leaves the rest as it is.
    twostate lemma Unlinked(x: Key)
      requires old(Valid()) && old(begun) && x !in old(Remaining()) && fs.nodes == old(fs.nodes) - {x} && IsTree(fs.nodes)
      requires unchanged(this)
      ensures Valid() && Remaining() == old(Remaining())
    {
      hide Walk, Outstanding, Locate, Keys, After, IsTree;
      WalkWithout(old(fs.nodes), query, Locate(rootPath), After(directoryEntries, currentDirectoryEntry), Keys(pendingPaths), x);
    }

    // Returns one outstanding path after the other, "" when there are none. If every directory can be
    // read, none is missed.
    method Next() returns (path: string)
      requires Valid()
      modifies this
      ensures Valid()
      ensures path == "" ==> Remaining() == {} && (fs.permitted ==> old(Remaining()) == {})
      ensures path != "" ==>
        && begun && currentDirectoryEntry < |directoryEntries| && rootPath != ""
        && path == Append(POSIX, rootPath, directoryEntries[currentDirectoryEntry].filename)
        && Strip(POSIX, path) == path && IsChild(Locate(rootPath), Locate(path))
        && Locate(path) in fs.nodes && fs.nodes[Locate(path)] == directoryEntries[currentDirectoryEntry].node
        && Locate(path) in old(Remaining())
        && Remaining() <= old(Remaining()) - {Locate(path)}
        && (fs.permitted ==> Remaining() == old(Remaining()) - {Locate(path)})
      ensures old(After(directoryEntries, currentDirectoryEntry)) != [] ==> path != "" && rootPath == old(rootPath)
      ensures old(Heading()) && Guided() ==> path != "" && (Heading() || Locate(rootPath) == fs.favoured)
    {
      hide Walking, Walk, Outstanding, Keys, Unread, Locate, Strip, Append, ValidName, IsChild, IsTree;
      hide Toward, Below, Emits;
      ghost var all := Remaining();
      currentDirectoryEntry := currentDirectoryEntry + 1;
      while currentDirectoryEntry >= |directoryEntries|
        invariant AtCursor() && Ahead() <= all && (fs.permitted ==> Ahead() == all)
        invariant old(After(directoryEntries, currentDirectoryEntry)) != [] ==>
          rootPath == old(rootPath) && currentDirectoryEntry < |directoryEntries|
        invariant old(Heading()) && Guided() ==>
          Heading() || (Locate(rootPath) == fs.favoured && currentDirectoryEntry < |directoryEntries|)
        decreases Unread(fs.nodes, Keys(pendingPaths)), |pendingPaths|
      {
        if pendingPaths == [] {
          NothingLeft(fs.nodes, query, Locate(rootPath));
          return "";
        }
        ReadPending();
      }
      Returned(fs.nodes, query, rootPath, directoryEntries, currentDirectoryEntry, Keys(pendingPaths));
      path := Append(POSIX, rootPath, directoryEntries[currentDirectoryEntry].filename);
    }

    // Between two returns: the entry under the cursor is still to come.
    ghost predicate AtCursor()
      reads this, fs
    {
      && Walking(fs.nodes, query, begun, Locate(rootPath), From(directoryEntries, currentDirectoryEntry), Keys(pendingPaths))
      && (From(directoryEntries, currentDirectoryEntry) != [] ==> rootPath != "")
      && (directoryEntries == [] || begun)
    }

    ghost function Ahead(): set<Key>
      reads this, fs
    {
      Outstanding(fs.nodes, query, Locate(rootPath), From(directoryEntries, currentDirectoryEntry), Keys(pendingPaths))
    }

    // The next pending directory becomes the current one, if it can be read.
    method ReadPending()
      requires AtCursor() && pendingPaths != [] && currentDirectoryEntry >= |directoryEntries|
      modifies this
      ensures AtCursor() && begun
      ensures Ahead() <= old(Ahead()) && (fs.permitted ==> Ahead() == old(Ahead()))
      ensures old(Heading()) && Guided() ==>
        Heading() || (Locate(rootPath) == fs.favoured && currentDirectoryEntry < |directoryEntries|)
      ensures || Unread(fs.nodes, Keys(pendingPaths)) < old(Unread(fs.nodes, Keys(pendingPaths)))
              || (Unread(fs.nodes, Keys(pendingPaths)) <= old(Unread(fs.nodes, Keys(pendingPaths)))
                  && |pendingPaths| < |old(pendingPaths)|)
    {
      hide Walking, Walk, Outstanding, Keys, Unread, Locate, Listing, Kept, Pushed, Strip, Lookup, IsTree;
      hide Toward, Below, Emits, FavouredLast;
      ghost var guided := Heading() && Guided();
      var next := pendingPaths[|pendingPaths| - 1];
      KeysOfPop(pendingPaths);
      LocateStrip(next);
      ghost var init := Keys(pendingPaths[..|pendingPaths| - 1]);
      SkipStep(fs.nodes, query, begun, Locate(rootPath), init, Locate(next));
      SkipShrinks(fs.nodes, init, Locate(next));
      ghost var before, d := begun, Locate(rootPath);
      rootPath := Strip(POSIX, next);
      pendingPaths := pendingPaths[..|pendingPaths| - 1];
      begun := true;
      StateOf(fs.nodes, query, begun, Locate(rootPath), [], init);
      DirectoryFound(fs.nodes, rootPath);
      if guided {
        TowardDirectory(fs.nodes, Locate(next), fs.favoured);
      }
      var ok, entries := fs.ReadDirectory(rootPath);
      if ok {
        currentDirectoryEntry := 0;
        ReadStep(fs.nodes, query, before, d, init, Locate(next), entries);
        Sort(entries);
      }
      if guided {
        HeadingStep(fs.nodes, query, Locate(next), entries, fs.favoured);
      }
    }

    // What is known about the entry that Next returned last.
    method GetFindInfo() returns (info: Option<Entry>)
      ensures info == if currentDirectoryEntry < |directoryEntries| then Some(directoryEntries[currentDirectoryEntry]) else None
    {
      if currentDirectoryEntry >= |directoryEntries| {
        return None;
      }
      info := Some(directoryEntries[currentDirectoryEntry]);
    }

    // The loop over the entries of rootPath.
    method Sort(entries: seq<Entry>)
      requires rootPath != "" && Listing(fs.nodes, Locate(rootPath), entries)
      modifies this`directoryEntries, this`pendingPaths
      ensures directoryEntries == Kept(query, entries)
      ensures Keys(pendingPaths) == Keys(old(pendingPaths)) + Pushed(query, Locate(rootPath), entries)
    {
      hide Listing, Locate, Append, ShouldSkip, IsSpecial, ValidName, Wanted, Keys, IsName;
      directoryEntries := [];
      var i := 0;
      while i < |entries|
        invariant 0 <= i <= |entries|
        invariant directoryEntries == Kept(query, entries[..i])
        invariant Keys(pendingPaths) == Keys(old(pendingPaths)) + Pushed(query, Locate(rootPath), entries[..i])
      {
        var e := entries[i];
        assert entries[..i + 1][..i] == entries[..i] && entries[..i + 1][i] == e;
        EntryPath(fs.nodes, rootPath, entries, e);
        var fullPath := Append(POSIX, rootPath, e.filename);
        if !ShouldSkip(fullPath) {
          if query.recursive && e.node.Directory? {
            KeysOfPush(pendingPaths, fullPath);
            pendingPaths := pendingPaths + [fullPath];
          }
          if Wanted(query, e.node) {
            directoryEntries := directoryEntries + [e];
          }
        }
        i := i + 1;
      }
      assert entries[..i] == entries;
    }
  }

  lemma TowardDirectory(nodes: Nodes, p: Key, a: Key)
    requires IsTree(nodes) && Toward(p, a) && a in nodes && nodes[a].Directory?
    ensures p in nodes && nodes[p].Directory?
  {
    hide IsTree, ValidName;
    if p != a {
      AncestorsAreDirectories(nodes, p, a, |p|);
    }
  }

  // Reading p on the way to a: a is reached, or what is pushed last leads there.
  lemma HeadingStep(nodes: Nodes, q: Query, p: Key, entries: seq<Entry>, a: Key)
    requires IsTree(nodes) && Toward(p, a) && a in nodes && nodes[a].Directory? && q.recursive && Emits(nodes, q, a)
    requires Listing(nodes, p, entries) && FavouredLast(p, entries, a)
    ensures var pushed := Pushed(q, p, entries);
      if p == a then Kept(q, entries) != []
      else Below(p, a) && pushed != [] && Toward(pushed[|pushed| - 1], a)
  {
    hide IsTree, Below, Listing, FavouredLast, Emits, Kept, Pushed;
    if p == a {
      KeptSome(nodes, q, p, entries);
    } else {
      PushedTowards(nodes, q, p, entries, a);
    }
  }

  // The entry under the cursor.
  lemma Returned(nodes: Nodes, q: Query, root: string, entries: seq<Entry>, current: nat, pending: seq<Key>)
    requires current < |entries| && root != "" && Walking(nodes, q, true, Locate(root), From(entries, current), pending)
    ensures var e, path := entries[current], Append(POSIX, root, entries[current].filename);
      var now := Outstanding(nodes, q, Locate(root), From(entries, current), pending);
      && path != "" && Strip(POSIX, path) == path && IsChild(Locate(root), Locate(path))
      && Locate(path) in nodes && nodes[Locate(path)] == e.node
      && Locate(path) in now
      && Outstanding(nodes, q, Locate(root), After(entries, current), pending) == now - {Locate(path)}
      && Walking(nodes, q, true, Locate(root), After(entries, current), pending)
  {
    hide Walk, Outstanding, Locate, Strip, Append, ValidName;
    var rest := From(entries, current);
    TakeEntry(nodes, q, Locate(root), rest, pending);
    LocateAppend(root, entries[current].filename);
    assert rest[1..] == After(entries, current);
  }

  lemma RootIsPending(nodes: Nodes, q: Query, d: Key)
    ensures Outstanding(nodes, q, d, [], [d]) == Found(nodes, q, d)
  {
    hide Wanted, Reaches;
    assert [d][0] == d;
  }

  lemma EntryPath(nodes: Nodes, path: string, entries: seq<Entry>, e: Entry)
    requires path != "" && Listing(nodes, Locate(path), entries) && e in entries
    ensures var full := Append(POSIX, path, e.filename);
      && (ShouldSkip(full) <==> IsSpecial(e.filename))
      && (!IsSpecial(e.filename) ==> Locate(full) == Locate(path) + [e.filename] && full != "")
  {
    hide Locate, Append, ShouldSkip;
    ListedOf(nodes, Locate(path), entries, e);
    assert IsName(POSIX, CURRENT_DIRECTORY) && IsName(POSIX, PARENT_DIRECTORY);
    SkipsDots(path, e.filename);
    if !IsSpecial(e.filename) {
      LocateAppend(path, e.filename);
    }
  }
}
