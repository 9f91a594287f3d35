// Delete of base/file_util_posix.cc: unlink what the enumeration returns, stack the directories, then
// remove them from the top of the stack.

module Deletion {
  import opened Options
  import opened Paths
  import opened Trees
  import opened FileSystems
  import opened Enumerators
  import opened Enumerations

  // Within k: k itself and everything below it.
  function Subtree(nodes: Nodes, k: Key): set<Key> {
    set x | x in nodes && (x == k || Below(k, x))
  }

  // Only nodes within k are gone.
  ghost predicate Pruned(before: Nodes, after: Nodes, k: Key) {
    && (forall x :: x in after ==> x in before && after[x] == before[x])
    && (forall x :: x in before && x !in after ==> x == k || Below(k, x))
  }

  // keys have been returned below k, with k in front; remaining are still to come. If complete, what
  // is left below k is one or the other.
  ghost predicate Traversal(nodes: Nodes, k: Key, keys: seq<Key>, remaining: set<Key>, complete: bool) {
    && keys != [] && keys[0] == k
    && NoRepeats(keys)
    && (forall i :: 0 <= i < |keys| ==> (keys[i] == k || Below(k, keys[i])) && keys[i] !in remaining)
    && (forall x :: x in remaining ==> Below(k, x))
    && TopDown(keys, remaining)
    && (complete ==> forall x :: x in nodes && Below(k, x) ==> x in keys || x in remaining)
  }

  lemma TraversalStarts(nodes: Nodes, q: Query, k: Key, complete: bool)
    requires q.recursive && q.files && q.directories
    ensures Traversal(nodes, k, [k], Found(nodes, q, k), complete)
  {
    hide ValidName;
    forall x | Below(k, x) ensures !Higher(x, k) {
      assert x[..|k|] == k && |Parent(k)| <= |k| <= |Parent(x)|;
    }
  }

  lemma TraversalNext(nodes: Nodes, k: Key, keys: seq<Key>, remaining: set<Key>, complete: bool, next: Key, left: set<Key>)
    requires Traversal(nodes, k, keys, remaining, complete) && next in remaining && left <= remaining - {next}
    requires complete ==> left == remaining - {next}
    requires forall x :: x in left ==> !Higher(x, next)
    ensures Traversal(nodes, k, keys + [next], left, complete)
  {
    hide Below, Higher, TopDown;
    TopDownNext(keys, remaining, next, left);
  }

  lemma TraversalEnds(nodes: Nodes, k: Key, keys: seq<Key>, remaining: set<Key>, complete: bool)
    requires Traversal(nodes, k, keys, remaining, complete) && (complete ==> remaining == {})
    ensures Traversal(nodes, k, keys, {}, complete)
  {
    hide Below, Higher;
  }

  // The last key was no directory and has been unlinked.
  lemma TraversalUnlinks(nodes: Nodes, k: Key, keys: seq<Key>, last: Key, remaining: set<Key>, complete: bool)
    requires Traversal(nodes, k, keys + [last], remaining, complete) && keys != []
    ensures Traversal(nodes - {last}, k, keys, remaining, complete)
  {
    hide Below, Higher;
    var longer := keys + [last];
    assert forall i :: 0 <= i < |keys| ==> longer[i] == keys[i];
    forall x | complete && x in nodes && x != last && Below(k, x) ensures x in keys || x in remaining {
      if x in longer {
        var i :| 0 <= i < |longer| && longer[i] == x;
        assert longer[|keys|] == last;
      }
    }
  }

  // A directory that everything else has been removed from is empty when its turn comes.
  lemma TopIsEmpty(nodes: Nodes, k: Key, keys: seq<Key>)
    requires Traversal(nodes, k, keys, {}, true)
    ensures IsEmpty(nodes, keys[|keys| - 1])
  {
    hide TopDown, ValidName;
    var d := keys[|keys| - 1];
    forall c | c in nodes ensures !IsChild(d, c) {
      if IsChild(d, c) {
        ChildIsBelow(d, c);
        assert Below(k, c) by {
          BelowOrEqualTransitive(k, d, c);
        }
        var i :| 0 <= i < |keys| && keys[i] == c;
        if d != [] {
          NotAfter(keys, i, |keys| - 1);
        }
      }
    }
  }

  lemma NotAfter(keys: seq<Key>, i: nat, j: nat)
    requires TopDown(keys, {}) && i < |keys| && j < |keys| && IsChild(keys[j], keys[i]) && keys[j] != []
    ensures j < i
  {
    hide ValidName;
    assert |keys[i]| == |keys[j]| + 1;
    assert Higher(keys[j], keys[i]);
  }

  lemma PrunedMore(before: Nodes, after: Nodes, k: Key, x: Key)
    requires Pruned(before, after, k) && (x == k || Below(k, x))
    ensures Pruned(before, after - {x}, k)
  {
    hide Below;
  }

  ghost predicate AllDirectories(nodes: Nodes, keys: seq<Key>) {
    forall i :: 0 <= i < |keys| ==> keys[i] in nodes && nodes[keys[i]].Directory?
  }

  lemma StillDirectories(nodes: Nodes, keys: seq<Key>, x: Key)
    requires AllDirectories(nodes, keys) && x !in keys
    ensures AllDirectories(nodes - {x}, keys)
  {
  }

  // The path under the cursor, if there is one.
  function Pending(current: string): seq<Key> {
    if current == "" then [] else [Locate(current)]
  }

  // The path that an enumeration has just returned.
  ghost predicate IsCurrent(e: FileEnumerator, current: string)
    reads e, e.fs
  {
    current != "" ==>
      && e.begun && e.currentDirectoryEntry < |e.directoryEntries|
      && Strip(POSIX, current) == current && Locate(current) in e.fs.nodes
      && e.fs.nodes[Locate(current)] == e.directoryEntries[e.currentDirectoryEntry].node
  }

  // Where the first loop of Delete stands.
  ghost predicate Emptying(e: FileEnumerator, k: Key, directories: seq<Key>, current: string)
    reads e, e.fs
  {
    Traversal(e.fs.nodes, k, directories + Pending(current), if current == "" then {} else e.Remaining(), e.fs.permitted)
  }

  // The next path to look at; keys are those dealt with.
  method NextPath(e: FileEnumerator, ghost k: Key, ghost keys: seq<Key>) returns (current: string)
    requires e.Valid() && Traversal(e.fs.nodes, k, keys, e.Remaining(), e.fs.permitted)
    modifies e
    ensures e.Valid() && (current != "" ==> e.begun) && IsCurrent(e, current) && Emptying(e, k, keys, current)
    ensures current == "" || e.Remaining() < old(e.Remaining())
    ensures e.Remaining() <= old(e.Remaining())
  {
    hide Locate, Keys, Append, Strip, Walking, Outstanding, Traversal, After, IsTree, Higher, IsChild;
    ghost var before := e.Remaining();
    current := e.Next();
    if current == "" {
      TraversalEnds(e.fs.nodes, k, keys, before, e.fs.permitted);
      assert keys + [] == keys;
    } else {
      forall x | x in e.Remaining() ensures !Higher(x, Locate(current)) {
        e.Place(x);
        HigherIs(x, Locate(current));
        ChildParent(Locate(e.rootPath), Locate(current));
      }
      TraversalNext(e.fs.nodes, k, keys, before, e.fs.permitted, Locate(current), e.Remaining());
    }
  }

  lemma ChildParent(d: Key, k: Key)
    ensures IsChild(d, k) ==> Parent(k) == d
  {
  }

  // What current is: a directory, to be removed later, or something to unlink now.
  method Handle(fs: FileSystem, e: FileEnumerator, ghost k: Key, directories: seq<string>, current: string)
    returns (success: bool, directories': seq<string>)
    requires e.fs == fs && e.Valid() && fs.Valid() && current != "" && IsCurrent(e, current)
    requires Emptying(e, k, Keys(directories), current) && directories != [] && AllDirectories(fs.nodes, Keys(directories))
    modifies fs
    ensures fs.Valid() && Pruned(old(fs.nodes), fs.nodes, k)
    ensures directories <= directories' && AllDirectories(fs.nodes, Keys(directories'))
    ensures fs.permitted ==> success
    ensures e.Valid() && e.Remaining() == old(e.Remaining())
    ensures success ==> Traversal(fs.nodes, k, Keys(directories'), e.Remaining(), fs.permitted)
  {
    hide Locate, Keys, Append, Strip, Walking, Outstanding, Traversal, After, IsTree, Higher, IsChild, AllDirectories;
    hide Pruned, Below;
    PrunedNone(fs.nodes, k);
    CurrentIs(fs.nodes, k, Keys(directories), Locate(current), e.Remaining(), fs.permitted);
    var info := e.GetFindInfo();
    success, directories' := true, directories;
    if info.value.node.Directory? {
      KeysOfPush(directories, current);
      MoreDirectories(fs.nodes, Keys(directories), Locate(current));
      directories' := directories + [current];
    } else {
      FoundAt(fs.nodes, current);
      label before:
      success := fs.Unlink(current);
      if success {
        TraversalUnlinks(old(fs.nodes), k, Keys(directories), Locate(current), old(e.Remaining()), fs.permitted);
        StillDirectories(old(fs.nodes), Keys(directories), Locate(current));
        PrunedMore(old(fs.nodes), old(fs.nodes), k, Locate(current));
        e.Unlinked(Locate(current));
      }
    }
  }

  lemma PrunedNone(nodes: Nodes, k: Key)
    ensures Pruned(nodes, nodes, k)
  {
  }

  lemma FoundAt(nodes: Nodes, path: string)
    requires Strip(POSIX, path) == path && Locate(path) in nodes
    ensures Lookup(nodes, path) == Some(nodes[Locate(path)])
  {
  }

  lemma CurrentIs(nodes: Nodes, k: Key, keys: seq<Key>, last: Key, remaining: set<Key>, complete: bool)
    requires Traversal(nodes, k, keys + [last], remaining, complete)
    ensures last !in keys && last !in remaining && (last == k || Below(k, last))
  {
    hide Below, TopDown;
    var longer := keys + [last];
    assert longer[|keys|] == last && forall i :: 0 <= i < |keys| ==> longer[i] == keys[i];
  }

  lemma MoreDirectories(nodes: Nodes, keys: seq<Key>, x: Key)
    requires AllDirectories(nodes, keys) && x in nodes && nodes[x].Directory?
    ensures AllDirectories(nodes, keys + [x])
  {
  }

  // The first loop of Delete: unlink everything but the directories, which are stacked.
  method UnlinkFiles(fs: FileSystem, path: string) returns (success: bool, directories: seq<string>)
    requires fs.Valid() && Locate(path) in fs.nodes && fs.nodes[Locate(path)].Directory?
    modifies fs
    ensures fs.Valid() && Pruned(old(fs.nodes), fs.nodes, Locate(path))
    ensures AllDirectories(fs.nodes, Keys(directories))
    ensures fs.permitted ==> success
    ensures success ==> Traversal(fs.nodes, Locate(path), Keys(directories), {}, fs.permitted)
  {
    hide Locate, Keys, Append, Strip, Walking, Outstanding, Traversal, After, IsTree, Higher, IsChild, AllDirectories;
    hide Pruned, Below, IsCurrent, Found;
    ghost var k := Locate(path);
    success, directories := true, [path];
    RootAlone(fs.nodes, path);
    var query := Query(true, true, true, true);
    TraversalStarts(fs.nodes, query, k, fs.permitted);
    PrunedNone(fs.nodes, k);
    var e := new FileEnumerator(fs, path, query);
    var current := NextPath(e, k, Keys(directories));
    while success && current != ""
      invariant e.fs == fs && fresh(e) && fs.Valid() && Pruned(old(fs.nodes), fs.nodes, k)
      invariant AllDirectories(fs.nodes, Keys(directories)) && directories != []
      invariant success ==> e.Valid() && IsCurrent(e, current) && Emptying(e, k, Keys(directories), current)
      invariant fs.permitted ==> success
      decreases success, e.Remaining(), current != ""
    {
      ghost var before := fs.nodes;
      success, directories := Handle(fs, e, k, directories, current);
      PrunedTwice(old(fs.nodes), before, fs.nodes, k);
      if success {
        current := NextPath(e, k, Keys(directories));
      } else {
        current := e.Next();
      }
    }
    assert success ==> Keys(directories) + [] == Keys(directories);
  }

  lemma RootAlone(nodes: Nodes, path: string)
    requires Locate(path) in nodes && nodes[Locate(path)].Directory?
    ensures Keys([path]) == [Locate(path)] && AllDirectories(nodes, Keys([path]))
  {
    hide Locate;
  }

  lemma PrunedTwice(a: Nodes, b: Nodes, c: Nodes, k: Key)
    requires Pruned(a, b, k) && Pruned(b, c, k)
    ensures Pruned(a, c, k)
  {
    hide Below;
  }

  // Where the second loop of Delete stands.
  ghost predicate Emptied(nodes: Nodes, k: Key, keys: seq<Key>, complete: bool) {
    && (keys == [] ==> k !in nodes && Nameable(k))
    && (keys != [] ==> keys[0] == k)
    && (forall i :: 0 <= i < |keys| ==> keys[i] == k || Below(k, keys[i]))
    && NoRepeats(keys) && AllDirectories(nodes, keys)
    && (complete ==> TopDown(keys, {}) && forall x :: x in nodes && Below(k, x) ==> x in keys)
  }

  lemma EmptiedStarts(nodes: Nodes, k: Key, keys: seq<Key>, complete: bool)
    requires Traversal(nodes, k, keys, {}, complete) && AllDirectories(nodes, keys)
    ensures Emptied(nodes, k, keys, complete)
  {
    hide TopDown, Below;
  }

  // The directory on top of the stack.
  lemma TopOfStack(nodes: Nodes, k: Key, keys: seq<Key>, top: Key, complete: bool)
    requires Emptied(nodes, k, keys + [top], complete)
    ensures top in nodes && nodes[top].Directory? && (top == k || (Below(k, top) && Nameable(top)))
    ensures complete ==> IsEmpty(nodes, top)
    ensures keys == [] ==> top == k
  {
    hide TopDown, IsChild, ValidName;
    var all := keys + [top];
    assert all[|keys|] == top;
    if complete {
      hide Below;
      assert Traversal(nodes, k, all, {}, true);
      TopIsEmpty(nodes, k, all);
    }
  }

  lemma TopRemoved(nodes: Nodes, k: Key, keys: seq<Key>, top: Key, complete: bool)
    requires Emptied(nodes, k, keys + [top], complete) && Nameable(top)
    ensures Emptied(nodes - {top}, k, keys, complete)
  {
    hide Below, Higher, ValidName;
    var all := keys + [top];
    assert all[|keys|] == top && forall i :: 0 <= i < |keys| ==> all[i] == keys[i];
    forall x | complete && x in nodes && x != top && Below(k, x) ensures x in keys {
      var i :| 0 <= i < |all| && all[i] == x;
    }
  }

  // The root cannot be removed: everything below it is gone.
  lemma RootStays(nodes: Nodes, k: Key, top: Key, complete: bool)
    requires Emptied(nodes, k, [top], complete) && complete
    ensures forall x :: x in nodes ==> !Below(k, x)
  {
    hide ValidName;
    assert [top][0] == k;
  }

  lemma StackStands(nodes: Nodes, k: Key, keys: seq<Key>, complete: bool)
    requires Emptied(nodes, k, keys, complete)
    ensures if keys == [] then k !in nodes && Nameable(k) else k in nodes && nodes[k].Directory?
  {
    hide Below, TopDown;
  }

  // The second loop of Delete: remove the directories, last found first.
  method RemoveDirectories(fs: FileSystem, ghost k: Key, stack: seq<string>) returns (success: bool)
    requires fs.Valid() && Emptied(fs.nodes, k, Keys(stack), fs.permitted)
    modifies fs
    ensures fs.Valid() && Pruned(old(fs.nodes), fs.nodes, k)
    ensures if success then k !in fs.nodes && Nameable(k) else k in fs.nodes
    ensures fs.permitted ==> success || !Nameable(k)
    ensures fs.permitted && !success ==> forall x :: x in fs.nodes ==> !Below(k, x)
  {
    hide Locate, Keys, Lookup, Strip, IsTree, Emptied, Below, Pruned, ValidName, Nameable, IsEmpty;
    var directories := stack;
    success := true;
    PrunedNone(fs.nodes, k);
    StackStands(fs.nodes, k, Keys(directories), fs.permitted);
    while success && directories != []
      invariant fs.Valid() && Pruned(old(fs.nodes), fs.nodes, k)
      invariant success ==> Emptied(fs.nodes, k, Keys(directories), fs.permitted)
      invariant success && directories == [] ==> k !in fs.nodes && Nameable(k)
      invariant !success ==> k in fs.nodes
      invariant !success && fs.permitted ==> !Nameable(k) && forall x :: x in fs.nodes ==> !Below(k, x)
      decreases success, |directories|
    {
      var dir := directories[|directories| - 1];
      KeysOfPop(directories);
      directories := directories[..|directories| - 1];
      ghost var nodes := fs.nodes;
      StackStands(nodes, k, Keys(directories) + [Locate(dir)], fs.permitted);
      TopOfStack(nodes, k, Keys(directories), Locate(dir), fs.permitted);
      DirectoryFound(nodes, dir);
      success := fs.Rmdir(dir);
      if success {
        PrunedMore(old(fs.nodes), nodes, k, Locate(dir));
        TopRemoved(nodes, k, Keys(directories), Locate(dir), fs.permitted);
        StackStands(fs.nodes, k, Keys(directories), fs.permitted);
      } else if fs.permitted {
        OnlyRootStays(nodes, k, Keys(directories), Locate(dir));
      }
    }
  }

  // The one directory that may refuse to go is the root.
  lemma OnlyRootStays(nodes: Nodes, k: Key, keys: seq<Key>, top: Key)
    requires Emptied(nodes, k, keys + [top], true) && !Nameable(top)
    ensures !Nameable(k) && forall x :: x in nodes ==> !Below(k, x)
  {
    var all := keys + [top];
    TopOfStack(nodes, k, keys, top, true);
    hide ValidName, TopDown;
    assert all[0] == k && all[|keys|] == k;
    assert keys == [];
    RootStays(nodes, k, top, true);
  }

  // Deletes path, and with recursive everything below it. A path that does not exist counts as
  // deleted. Where every call is permitted, only a root, "." or ".." is left standing, empty.
  method Delete(fs: FileSystem, path: string, recursive: bool) returns (success: bool)
    requires fs.Valid() && (Locate(path) in fs.nodes ==> !fs.nodes[Locate(path)].Link?)
    modifies fs
    ensures fs.Valid()
    ensures Lookup(old(fs.nodes), path) == None ==> success && fs.nodes == old(fs.nodes)
    ensures var k, found := Locate(path), Lookup(old(fs.nodes), path);
      found.Some? && (!found.value.Directory? || !recursive) ==>
        && (success ==> !found.value.Directory? || (IsEmpty(old(fs.nodes), k) && Nameable(k)))
        && (fs.permitted && (!found.value.Directory? || (IsEmpty(old(fs.nodes), k) && Nameable(k))) ==> success)
        && fs.nodes == if success then old(fs.nodes) - {k} else old(fs.nodes)
    ensures var k := Locate(path);
      Lookup(old(fs.nodes), path) == Some(Directory) && recursive ==>
        && Pruned(old(fs.nodes), fs.nodes, k)
        && (success ==> fs.nodes == old(fs.nodes) - Subtree(old(fs.nodes), k))
        && (fs.permitted ==> (success <==> Nameable(k)))
        && (fs.permitted && !success ==> fs.nodes == old(fs.nodes) - Under(old(fs.nodes), k))
  {
    hide Locate, Keys, Strip, IsTree, Emptied, Traversal, Below, ValidName, Nameable, IsEmpty, AllDirectories;
    var fileInfo := fs.Stat(path);
    if fileInfo == None {
      return true;
    }
    if !fileInfo.value.Directory? {
      success := fs.Unlink(path);
      return;
    }
    if !recursive {
      success := fs.Rmdir(path);
      return;
    }
    ghost var k := Locate(path);
    var directories;
    success, directories := UnlinkFiles(fs, path);
    if success {
      EmptiedStarts(fs.nodes, k, Keys(directories), fs.permitted);
      ghost var left := fs.nodes;
      success := RemoveDirectories(fs, k, directories);
      PrunedTwice(old(fs.nodes), left, fs.nodes, k);
      if success {
        NothingLeftBelow(fs.nodes, k);
      }
    }
  }

  lemma NothingLeftBelow(nodes: Nodes, k: Key)
    requires IsTree(nodes) && k !in nodes
    ensures forall x :: x in nodes ==> !Below(k, x)
  {
    hide Below, IsTree;
    forall x | x in nodes ensures !Below(k, x) {
      NothingBelow(nodes, Query(true, true, true, true), k, x);
    }
  }
}
