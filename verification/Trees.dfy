// A finite tree of directories, files and links, addressed by path components. What an enumeration
// still has to return is a set of keys; the lemmas say how that set changes as directories are read.

module Trees {
  import opened Options
  import opened Paths

  // The components of a path. There are no aliases: "x/.." is a key of its own.
  type Key = seq<string>

  datatype Node = Directory | File(size: nat) | Link(size: nat)

  type Nodes = map<Key, Node>

  function Last(k: Key): string
    requires k != []
  {
    k[|k| - 1]
  }

  function Parent(k: Key): Key {
    if k == [] then [] else k[..|k| - 1]
  }

  // A name that a directory entry other than "." and ".." may have.
  predicate ValidName(n: string) {
    IsName(POSIX, n) && !IsSpecial(n)
  }

  lemma ValidNamesAre(n: string)
    ensures ValidName(n) <==> n != "" && '/' !in n && n != "." && n != ".."
  {
    assert '/' in n ==> exists i :: 0 <= i < |n| && IsSeparator(POSIX, n[i]);
  }

  // Every valid name lies in a directory; the current directory and the roots exist.
  ghost predicate IsTree(nodes: Nodes) {
    && (forall top :: top in {[], ["/"], ["//"]} ==> top in nodes && nodes[top].Directory?)
    && (forall k :: k in nodes ==> "" !in k)
    && (forall k :: k in nodes && k != [] && ValidName(Last(k)) ==> Parent(k) in nodes && nodes[Parent(k)].Directory?)
  }

  // The key of a path. The empty path names nothing.
  function Locate(path: string): Key {
    if path == "" then [""] else Resolve(POSIX, path)
  }

  // What stat finds: a trailing separator demands a directory.
  function Lookup(nodes: Nodes, path: string): Option<Node> {
    var k := Locate(path);
    if k in nodes && (nodes[k].Directory? || Strip(POSIX, path) == path) then Some(nodes[k]) else None
  }

  lemma LocateStrip(path: string)
    ensures Locate(Strip(POSIX, path)) == Locate(path) && (path != "" ==> Strip(POSIX, path) != "")
  {
    StripIdempotent(POSIX, path);
    StripEnd(POSIX, path);
    StripEnd(POSIX, "");
  }

  lemma LocateAppend(path: string, name: string)
    requires path != "" && ValidName(name)
    ensures var child := Append(POSIX, path, name);
      child != "" && Locate(child) == Locate(path) + [name] && Strip(POSIX, child) == child
  {
    AppendName(path, name);
    CutOfAppend(POSIX, path, name);
  }

  // ---------- Below a directory ----------

  predicate Below(d: Key, k: Key) {
    |d| < |k| && k[..|d|] == d && forall i :: |d| <= i < |k| ==> ValidName(k[i])
  }

  predicate IsChild(d: Key, k: Key) {
    k != [] && Parent(k) == d && ValidName(Last(k))
  }

  lemma ChildIsBelow(d: Key, k: Key)
    ensures IsChild(d, k) <==> Below(d, k) && |k| == |d| + 1
  {
    hide ValidName;
  }

  // Everything between a directory and something below it is a directory.
  lemma {:induction false} AncestorsAreDirectories(nodes: Nodes, d: Key, k: Key, m: nat)
    requires IsTree(nodes) && k in nodes && Below(d, k) && |d| <= m < |k|
    ensures k[..m] in nodes && nodes[k[..m]].Directory?
    ensures m > |d| ==> Below(d, k[..m])
    ensures Below(k[..m], k)
    decreases |k|
  {
    hide ValidName;
    assert ValidName(Last(k)) && Parent(k) == k[..|k| - 1];
    if m < |k| - 1 {
      var p := Parent(k);
      assert p[..|d|] == d && p[..m] == k[..m];
      AncestorsAreDirectories(nodes, d, p, m);
    }
    assert k[..m][..|d|] == d;
  }

  lemma BelowOrEqualTransitive(d: Key, e: Key, k: Key)
    requires (d == e || Below(d, e)) && Below(e, k)
    ensures Below(d, k)
  {
    hide ValidName;
    assert k[..|d|] == k[..|e|][..|d|];
    assert forall i :: |d| <= i < |e| ==> k[i] == k[..|e|][i] == e[i];
  }

  function Under(nodes: Nodes, d: Key): set<Key> {
    set k | k in nodes && Below(d, k)
  }

  // ---------- What one directory lists ----------

  datatype Entry = Entry(filename: string, node: Node)

  predicate ListedAs(nodes: Nodes, d: Key, e: Entry) {
    if IsSpecial(e.filename) then e.node == Directory
    else ValidName(e.filename) && d + [e.filename] in nodes && nodes[d + [e.filename]] == e.node
  }

  ghost predicate Distinct(entries: seq<Entry>) {
    forall i, j :: 0 <= i < j < |entries| ==> entries[i].filename != entries[j].filename
  }

  ghost predicate Has(entries: seq<Entry>, n: string) {
    exists i :: 0 <= i < |entries| && entries[i].filename == n
  }

  // "." and ".." may be listed, all children are, in any order.
  ghost predicate Listing(nodes: Nodes, d: Key, entries: seq<Entry>) {
    && Distinct(entries)
    && (forall i :: 0 <= i < |entries| ==> ListedAs(nodes, d, entries[i]))
    && (forall k :: k in nodes && IsChild(d, k) ==> Has(entries, Last(k)))
  }

  // ---------- What an enumeration has yet to return ----------

  datatype Query = Query(recursive: bool, files: bool, directories: bool, showSymLinks: bool)

  predicate Wanted(q: Query, node: Node) {
    if node.Directory? then q.directories else q.files
  }

  predicate Reaches(q: Query, d: Key, k: Key) {
    Below(d, k) && (q.recursive || |k| == |d| + 1)
  }

  // Entries of the current directory d.
  function Here(d: Key, rest: seq<Entry>): set<Key> {
    set i | 0 <= i < |rest| :: d + [rest[i].filename]
  }

  // Everything in the pending directories.
  function There(nodes: Nodes, q: Query, pending: seq<Key>): set<Key> {
    set k | k in nodes && Wanted(q, nodes[k]) && exists i :: 0 <= i < |pending| && Reaches(q, pending[i], k)
  }

  function Outstanding(nodes: Nodes, q: Query, d: Key, rest: seq<Entry>, pending: seq<Key>): set<Key> {
    Here(d, rest) + There(nodes, q, pending)
  }

  ghost predicate Apart(pending: seq<Key>) {
    forall i, j :: 0 <= i < |pending| && 0 <= j < |pending| && i != j ==> !(pending[i] <= pending[j])
  }

  // No pending directory is d or above it.
  ghost predicate NoneAbove(pending: seq<Key>, d: Key) {
    forall i :: 0 <= i < |pending| ==> !(pending[i] <= d)
  }

  ghost predicate Genuine(nodes: Nodes, q: Query, d: Key, rest: seq<Entry>) {
    && Distinct(rest)
    && forall i :: 0 <= i < |rest| ==>
         !IsSpecial(rest[i].filename) && ListedAs(nodes, d, rest[i]) && Wanted(q, rest[i].node)
  }

  // The state of an enumeration: rest of the current directory d, and the pending directories.
  ghost predicate Walk(nodes: Nodes, q: Query, d: Key, rest: seq<Entry>, pending: seq<Key>) {
    && IsTree(nodes)
    && Genuine(nodes, q, d, rest)
    && Apart(pending) && NoneAbove(pending, d)
    && (!q.recursive ==> pending == [])
  }

  // Which entries of a directory are returned, and which directories become pending.
  function Kept(q: Query, entries: seq<Entry>): seq<Entry> {
    if entries == [] then []
    else
      var last := entries[|entries| - 1];
      Kept(q, entries[..|entries| - 1]) + if !IsSpecial(last.filename) && Wanted(q, last.node) then [last] else []
  }

  function Pushed(q: Query, d: Key, entries: seq<Entry>): seq<Key> {
    if entries == [] then []
    else
      var last := entries[|entries| - 1];
      Pushed(q, d, entries[..|entries| - 1]) +
      if !IsSpecial(last.filename) && q.recursive && last.node.Directory? then [d + [last.filename]] else []
  }

  lemma {:induction false} KeptIs(q: Query, entries: seq<Entry>)
    requires Distinct(entries)
    ensures Distinct(Kept(q, entries))
    ensures forall e :: e in Kept(q, entries) <==> e in entries && !IsSpecial(e.filename) && Wanted(q, e.node)
  {
    hide Wanted, IsSpecial;
    if entries != [] {
      var init, last := entries[..|entries| - 1], entries[|entries| - 1];
      KeptIs(q, init);
      assert entries == init + [last];
      var kept := Kept(q, init);
      forall i | 0 <= i < |kept| ensures kept[i].filename != last.filename {
        assert kept[i] in init;
      }
    }
  }

  lemma {:induction false} PushedIs(q: Query, d: Key, entries: seq<Entry>)
    requires Distinct(entries)
    ensures Apart(Pushed(q, d, entries))
    ensures forall k :: k in Pushed(q, d, entries) <==>
      exists e :: e in entries && !IsSpecial(e.filename) && q.recursive && e.node.Directory? && k == d + [e.filename]
  {
    hide IsSpecial;
    if entries != [] {
      var init, last := entries[..|entries| - 1], entries[|entries| - 1];
      PushedIs(q, d, init);
      assert entries == init + [last];
      var pushed := Pushed(q, d, init);
      forall i | 0 <= i < |pushed| ensures !(pushed[i] <= d + [last.filename]) && !(d + [last.filename] <= pushed[i]) {
        assert pushed[i] in pushed;
        var e :| e in init && pushed[i] == d + [e.filename];
        assert e.filename != last.filename;
        assert pushed[i][|d|] == e.filename && (d + [last.filename])[|d|] == last.filename;
      }
    }
  }

  // ---------- Reading one directory ----------

  lemma EntryOfChild(nodes: Nodes, d: Key, entries: seq<Entry>, k: Key) returns (e: Entry)
    requires Listing(nodes, d, entries) && k in nodes && IsChild(d, k)
    ensures e in entries && !IsSpecial(e.filename) && k == d + [e.filename] && nodes[k] == e.node
  {
    hide IsName, IsSpecial;
    var i :| 0 <= i < |entries| && entries[i].filename == Last(k);
    e := entries[i];
    assert k == Parent(k) + [Last(k)];
    assert ListedAs(nodes, d, entries[i]);
  }

  // An entry of d that is kept lies below d; one that is pushed leads to keys below d.
  lemma EntryIsChild(nodes: Nodes, d: Key, entries: seq<Entry>, e: Entry)
    requires Listing(nodes, d, entries) && e in entries && !IsSpecial(e.filename)
    ensures var c := d + [e.filename];
      c in nodes && nodes[c] == e.node && IsChild(d, c) && Below(d, c) && |c| == |d| + 1
  {
    hide IsName, IsSpecial;
    var i :| 0 <= i < |entries| && entries[i] == e;
    assert ListedAs(nodes, d, entries[i]);
    var c := d + [e.filename];
    assert Parent(c) == d && Last(c) == e.filename;
    ChildIsBelow(d, c);
  }

  lemma HereIs(d: Key, rest: seq<Entry>)
    ensures forall k :: k in Here(d, rest) <==> exists e :: e in rest && k == d + [e.filename]
  {
    forall e | e in rest ensures d + [e.filename] in Here(d, rest) {
      var i :| 0 <= i < |rest| && rest[i] == e;
    }
    forall k | k in Here(d, rest) ensures exists e :: e in rest && k == d + [e.filename] {
      var i :| 0 <= i < |rest| && k == d + [rest[i].filename];
      assert rest[i] in rest;
    }
  }

  // A key below d is an entry that is kept, or lies below one that is pushed.
  lemma ReachedIsListed(nodes: Nodes, q: Query, d: Key, entries: seq<Entry>, k: Key)
    requires IsTree(nodes) && Listing(nodes, d, entries)
    requires k in nodes && Wanted(q, nodes[k]) && Reaches(q, d, k)
    ensures k in Here(d, Kept(q, entries)) + There(nodes, q, Pushed(q, d, entries))
  {
    hide Listing, IsTree, ValidName, IsSpecial, Wanted, Kept, Pushed, Here;
    ListingDistinct(nodes, d, entries);
    if |k| == |d| + 1 {
      ChildIsBelow(d, k);
      var e := EntryOfChild(nodes, d, entries, k);
      KeptIs(q, entries);
      HereIs(d, Kept(q, entries));
    } else {
      AncestorsAreDirectories(nodes, d, k, |d| + 1);
      var c := k[..|d| + 1];
      ChildIsBelow(d, c);
      var e := EntryOfChild(nodes, d, entries, c);
      PushedIs(q, d, entries);
      assert c in Pushed(q, d, entries);
    }
  }

  lemma ListingDistinct(nodes: Nodes, d: Key, entries: seq<Entry>)
    requires Listing(nodes, d, entries)
    ensures Distinct(entries)
  {
  }

  lemma ListedIsReached(nodes: Nodes, q: Query, d: Key, entries: seq<Entry>, k: Key)
    requires IsTree(nodes) && Listing(nodes, d, entries)
    requires k in Here(d, Kept(q, entries)) + There(nodes, q, Pushed(q, d, entries))
    ensures k in nodes && Wanted(q, nodes[k]) && Reaches(q, d, k)
  {
    hide Listing, IsTree, ValidName, IsSpecial, Wanted, Kept, Pushed, Here;
    ListingDistinct(nodes, d, entries);
    if k in Here(d, Kept(q, entries)) {
      KeptIs(q, entries);
      HereIs(d, Kept(q, entries));
      var e :| e in Kept(q, entries) && k == d + [e.filename];
      EntryIsChild(nodes, d, entries, e);
    } else {
      PushedIs(q, d, entries);
      var pushed := Pushed(q, d, entries);
      var i :| 0 <= i < |pushed| && Reaches(q, pushed[i], k);
      assert pushed[i] in pushed;
      var e :| e in entries && !IsSpecial(e.filename) && q.recursive && e.node.Directory? && pushed[i] == d + [e.filename];
      EntryIsChild(nodes, d, entries, e);
      BelowOrEqualTransitive(d, pushed[i], k);
    }
  }

  lemma ThereAdds(nodes: Nodes, q: Query, pending: seq<Key>, more: seq<Key>)
    ensures There(nodes, q, pending + more) == There(nodes, q, pending) + There(nodes, q, more)
  {
    hide Wanted, Reaches;
    var all := pending + more;
    forall k | k in There(nodes, q, pending) ensures k in There(nodes, q, all) {
      var i :| 0 <= i < |pending| && Reaches(q, pending[i], k);
      assert all[i] == pending[i];
    }
    forall k | k in There(nodes, q, more) ensures k in There(nodes, q, all) {
      var i :| 0 <= i < |more| && Reaches(q, more[i], k);
      assert all[|pending| + i] == more[i];
    }
  }

  // Reading the directory d: what it leads to is split between its entries and its subdirectories.
  lemma ReadOutstanding(nodes: Nodes, q: Query, d: Key, entries: seq<Entry>, pending: seq<Key>)
    requires IsTree(nodes) && Listing(nodes, d, entries)
    ensures Outstanding(nodes, q, d, Kept(q, entries), pending + Pushed(q, d, entries)) == There(nodes, q, pending + [d])
  {
    hide Listing, IsTree, Kept, Pushed, Here, Wanted, Reaches;
    ThereAdds(nodes, q, pending, Pushed(q, d, entries));
    ThereAdds(nodes, q, pending, [d]);
    var listed := Here(d, Kept(q, entries)) + There(nodes, q, Pushed(q, d, entries));
    forall k | k in There(nodes, q, [d]) ensures k in listed {
      ReachedIsListed(nodes, q, d, entries, k);
    }
    forall k | k in listed ensures k in There(nodes, q, [d]) {
      ListedIsReached(nodes, q, d, entries, k);
      assert [d][0] == d;
    }
  }

  lemma ReadWalk(nodes: Nodes, q: Query, d: Key, entries: seq<Entry>, pending: seq<Key>)
    requires IsTree(nodes) && Listing(nodes, d, entries)
    requires Apart(pending + [d]) && (!q.recursive ==> pending == [])
    ensures Walk(nodes, q, d, Kept(q, entries), pending + Pushed(q, d, entries))
  {
    hide Listing, IsTree, ValidName, IsSpecial, Wanted, Kept, Pushed, ListedAs;
    ListingDistinct(nodes, d, entries);
    KeptIs(q, entries);
    PushedIs(q, d, entries);
    var rest, pushed := Kept(q, entries), Pushed(q, d, entries);
    forall i | 0 <= i < |rest|
      ensures !IsSpecial(rest[i].filename) && ListedAs(nodes, d, rest[i]) && Wanted(q, rest[i].node)
    {
      assert rest[i] in rest;
      ListedOf(nodes, d, entries, rest[i]);
    }
    forall i | 0 <= i < |pushed| ensures d < pushed[i] && |pushed[i]| == |d| + 1 {
      assert pushed[i] in pushed;
    }
    StayApart(pending, d, pushed);
    assert !q.recursive ==> pushed == [] by {
      assert pushed != [] ==> pushed[0] in pushed;
    }
  }

  lemma ListedOf(nodes: Nodes, d: Key, entries: seq<Entry>, e: Entry)
    requires Listing(nodes, d, entries) && e in entries
    ensures ListedAs(nodes, d, e)
  {
    hide ListedAs;
  }

  lemma StayApart(pending: seq<Key>, d: Key, pushed: seq<Key>)
    requires Apart(pending + [d]) && Apart(pushed) && forall i :: 0 <= i < |pushed| ==> d < pushed[i] && |pushed[i]| == |d| + 1
    ensures Apart(pending + pushed) && NoneAbove(pending + pushed, d)
  {
    var n, was, now := |pending|, pending + [d], pending + pushed;
    assert was[n] == d;
    forall i | 0 <= i < n ensures !(pending[i] <= d) && !(d <= pending[i]) {
      assert was[i] == pending[i];
    }
    forall i, j | 0 <= i < n && n <= j < |now| ensures !(now[i] <= now[j]) && !(now[j] <= now[i]) {
      assert now[i] == pending[i] && d < now[j];
      PrefixesCompare(now[i], d, now[j]);
    }
    forall i, j | 0 <= i < |now| && 0 <= j < |now| && i != j ensures !(now[i] <= now[j]) {
      if i < n && j < n {
        assert was[i] == now[i] && was[j] == now[j];
      } else if n <= i && n <= j {
        assert now[i] == pushed[i - n] && now[j] == pushed[j - n];
      }
    }
  }

  lemma PrefixesCompare(a: Key, b: Key, c: Key)
    requires b <= c
    ensures a <= c && |a| <= |b| ==> a <= b
    ensures a <= c && |a| > |b| ==> b <= a
    ensures c <= a ==> b <= a
  {
    if a <= c {
      assert forall i :: 0 <= i < |a| ==> a[i] == c[i];
    }
    if c <= a {
      assert forall i :: 0 <= i < |c| ==> a[i] == c[i];
    }
  }

  // ---------- Returning one entry ----------

  lemma TakeEntry(nodes: Nodes, q: Query, d: Key, rest: seq<Entry>, pending: seq<Key>)
    requires Walk(nodes, q, d, rest, pending) && rest != []
    ensures var k := d + [rest[0].filename];
      && k in nodes && nodes[k] == rest[0].node && ValidName(rest[0].filename) && Wanted(q, nodes[k])
      && k in Outstanding(nodes, q, d, rest, pending)
      && Outstanding(nodes, q, d, rest[1..], pending) == Outstanding(nodes, q, d, rest, pending) - {k}
      && Walk(nodes, q, d, rest[1..], pending)
  {
    hide IsTree, Genuine, Here, ListedAs, Distinct, ValidName, IsSpecial, Wanted, Apart, Below;
    var k := d + [rest[0].filename];
    TakeGenuine(nodes, q, d, rest);
    TakeHere(d, rest);
    forall i | 0 <= i < |pending| ensures !Reaches(q, pending[i], k) {
      AboveOrAt(pending[i], k);
    }
  }

  lemma TakeGenuine(nodes: Nodes, q: Query, d: Key, rest: seq<Entry>)
    requires Genuine(nodes, q, d, rest) && rest != []
    ensures var k := d + [rest[0].filename];
      k in nodes && nodes[k] == rest[0].node && ValidName(rest[0].filename) && Wanted(q, nodes[k])
    ensures Genuine(nodes, q, d, rest[1..]) && Distinct(rest)
  {
    hide IsName, IsSpecial, Wanted;
    assert ListedAs(nodes, d, rest[0]);
  }

  lemma TakeHere(d: Key, rest: seq<Entry>)
    requires Distinct(rest) && rest != []
    ensures var k := d + [rest[0].filename];
      k in Here(d, rest) && Here(d, rest[1..]) == Here(d, rest) - {k}
  {
    var k, more := d + [rest[0].filename], rest[1..];
    forall i | 0 <= i < |more| ensures d + [more[i].filename] in Here(d, rest) - {k} {
      var j := i + 1;
      assert more[i] == rest[j] && rest[j].filename != rest[0].filename;
      assert (d + [more[i].filename])[|d|] == more[i].filename && k[|d|] == rest[0].filename;
    }
    forall i | 0 < i < |rest| ensures d + [rest[i].filename] in Here(d, more) {
      assert more[i - 1] == rest[i];
    }
  }

  lemma AboveOrAt(p: Key, k: Key)
    ensures Below(p, k) ==> p <= Parent(k)
  {
    hide ValidName;
    assert |p| < |k| ==> Parent(k)[..|p|] == k[..|p|];
  }

  // Removing a leaf that is not outstanding does not disturb an enumeration.
  lemma WalkWithout(nodes: Nodes, q: Query, d: Key, rest: seq<Entry>, pending: seq<Key>, x: Key)
    requires Walk(nodes, q, d, rest, pending) && x !in Outstanding(nodes, q, d, rest, pending)
    requires IsTree(nodes - {x})
    ensures Walk(nodes - {x}, q, d, rest, pending)
    ensures Outstanding(nodes - {x}, q, d, rest, pending) == Outstanding(nodes, q, d, rest, pending)
  {
    hide IsTree, ValidName, IsSpecial, Wanted, Reaches, Apart, NoneAbove;
    HereIs(d, rest);
    forall i | 0 <= i < |rest| ensures ListedAs(nodes - {x}, d, rest[i]) {
      assert rest[i] in rest;
      assert d + [rest[i].filename] != x;
    }
  }

  // What is outstanding lies in the current directory, or in one that is neither it nor above it: the
  // directory and those above it are finished once rest is empty.
  lemma OutstandingPlace(nodes: Nodes, q: Query, d: Key, rest: seq<Entry>, pending: seq<Key>, k: Key)
    requires Walk(nodes, q, d, rest, pending) && k in Outstanding(nodes, q, d, rest, pending)
    ensures k in nodes && k != [] && Wanted(q, nodes[k])
    ensures Parent(k) <= d ==> Parent(k) == d && rest != []
  {
    hide IsTree, ValidName, IsSpecial, Wanted;
    if k in Here(d, rest) {
      HereIs(d, rest);
      var e :| e in rest && k == d + [e.filename];
      var i :| 0 <= i < |rest| && rest[i] == e;
      assert ListedAs(nodes, d, rest[i]);
      assert Parent(k) == d;
    } else {
      var i :| 0 <= i < |pending| && Reaches(q, pending[i], k);
      AboveOrAt(pending[i], k);
    }
  }

  // ---------- Termination ----------

  // Directories still to be read.
  function Unread(nodes: Nodes, pending: seq<Key>): set<Key> {
    set k | k in nodes && nodes[k].Directory? && exists i :: 0 <= i < |pending| && (pending[i] == k || Below(pending[i], k))
  }

  lemma ReadShrinks(nodes: Nodes, q: Query, d: Key, entries: seq<Entry>, pending: seq<Key>)
    requires IsTree(nodes) && d in nodes && nodes[d].Directory? && Listing(nodes, d, entries) && Apart(pending + [d])
    ensures Unread(nodes, pending + Pushed(q, d, entries)) < Unread(nodes, pending + [d])
  {
    hide Listing, IsTree, ValidName, IsSpecial, Pushed;
    ListingDistinct(nodes, d, entries);
    PushedIs(q, d, entries);
    var pushed := Pushed(q, d, entries);
    var was, now := pending + [d], pending + pushed;
    assert was[|pending|] == d && d in Unread(nodes, was);
    forall i | 0 <= i < |pushed| ensures Below(d, pushed[i]) {
      assert pushed[i] in pushed;
      var e :| e in entries && !IsSpecial(e.filename) && q.recursive && e.node.Directory? && pushed[i] == d + [e.filename];
      EntryIsChild(nodes, d, entries, e);
    }
    forall k | k in Unread(nodes, now) ensures k in Unread(nodes, was) && k != d {
      var i :| 0 <= i < |now| && (now[i] == k || Below(now[i], k));
      if i < |pending| {
        assert was[i] == now[i];
        assert !(was[i] <= was[|pending|]);
      } else {
        assert now[i] == pushed[i - |pending|];
        if now[i] != k {
          BelowOrEqualTransitive(d, now[i], k);
        }
      }
    }
  }

  lemma SkipShrinks(nodes: Nodes, pending: seq<Key>, d: Key)
    ensures Unread(nodes, pending) <= Unread(nodes, pending + [d])
  {
    forall k | k in Unread(nodes, pending) ensures k in Unread(nodes, pending + [d]) {
      var i :| 0 <= i < |pending| && (pending[i] == k || Below(pending[i], k));
      assert (pending + [d])[i] == pending[i];
    }
  }

  // ---------- The order of a whole enumeration ----------

  // Everything below a directory that a query asks for.
  function Found(nodes: Nodes, q: Query, d: Key): set<Key> {
    set k | k in nodes && Wanted(q, nodes[k]) && Reaches(q, d, k)
  }

  // k lies in a directory above that of l.
  predicate Higher(k: Key, l: Key) {
    Parent(k) < Parent(l)
  }

  // The keys returned so far, against those that remain: nothing comes after an entry of a directory
  // further down.
  ghost predicate TopDown(keys: seq<Key>, remaining: set<Key>) {
    && (forall i, k :: 0 <= i < |keys| && k in remaining ==> !Higher(k, keys[i]))
    && (forall i, j :: 0 <= i < j < |keys| ==> !Higher(keys[j], keys[i]))
  }

  predicate Siblings(k: Key, l: Key) {
    Parent(k) == Parent(l)
  }

  // Once an entry of the directory of keys[i] has been returned, so are its siblings, up to upto.
  ghost predicate Runs(keys: seq<Key>, i: nat, upto: nat)
    requires i <= upto <= |keys|
  {
    forall j :: i <= j < upto ==> Siblings(keys[i], keys[j])
  }

  // The entries of one directory come together.
  ghost predicate Together(keys: seq<Key>, remaining: set<Key>) {
    && (forall i, l :: 0 <= i < l < |keys| && Siblings(keys[i], keys[l]) ==> Runs(keys, i, l))
    && (forall i, k :: 0 <= i < |keys| && k in remaining && Siblings(keys[i], k) ==> Runs(keys, i, |keys|))
  }

  lemma TopDownNext(keys: seq<Key>, remaining: set<Key>, next: Key, left: set<Key>)
    requires TopDown(keys, remaining) && next in remaining && left <= remaining
    requires forall k :: k in left ==> !Higher(k, next)
    ensures TopDown(keys + [next], left)
  {
    hide Higher;
  }

  lemma TogetherNext(keys: seq<Key>, remaining: set<Key>, next: Key, left: set<Key>)
    requires Together(keys, remaining) && next in remaining && left <= remaining
    requires keys != [] ==> forall k :: k in remaining && Siblings(keys[|keys| - 1], k) ==> Siblings(next, k)
    ensures Together(keys + [next], left)
  {
    hide Siblings, Runs;
    var longer, n := keys + [next], |keys|;
    forall i, l | 0 <= i < l < |longer| && Siblings(longer[i], longer[l]) ensures Runs(longer, i, l) {
      RunsOn(keys, next, i, l);
    }
    forall i, k | 0 <= i < |longer| && k in left && Siblings(longer[i], k) ensures Runs(longer, i, |longer|) {
      if i < n {
        RunsToEnd(keys, next, i, k);
      } else {
        RunsAlone(longer);
      }
    }
  }

  lemma RunsOn(keys: seq<Key>, next: Key, i: nat, l: nat)
    requires i < l <= |keys| && Runs(keys, i, l)
    ensures Runs(keys + [next], i, l)
  {
    hide Siblings;
    assert forall j :: i <= j < l ==> (keys + [next])[j] == keys[j];
  }

  lemma RunsToEnd(keys: seq<Key>, next: Key, i: nat, k: Key)
    requires i < |keys| && Runs(keys, i, |keys|) && Siblings(keys[i], k)
    requires Siblings(keys[|keys| - 1], k) ==> Siblings(next, k)
    ensures Runs(keys + [next], i, |keys| + 1)
  {
    RunsOn(keys, next, i, |keys|);
    assert Siblings(keys[i], keys[|keys| - 1]);
    assert (keys + [next])[|keys|] == next && (keys + [next])[i] == keys[i];
    hide Parent;
  }

  lemma RunsAlone(keys: seq<Key>)
    requires keys != []
    ensures Runs(keys, |keys| - 1, |keys|)
  {
  }

  // ---------- Level order ----------

  predicate Toward(p: Key, a: Key) {
    p == a || Below(p, a)
  }

  // Does the directory hold anything that is asked for?
  predicate Emits(nodes: Nodes, q: Query, d: Key) {
    exists k :: k in nodes && IsChild(d, k) && Wanted(q, nodes[k])
  }

  // Below d, of two directories that hold something one is above the other unless they lie equally deep.
  predicate Slim(nodes: Nodes, q: Query, d: Key) {
    q.recursive ==>
      forall a, b :: a in nodes && b in nodes && Aslant(nodes, q, d, a, b) ==> Below(b, a)
  }

  // b lies less deep than a, and both hold something.
  predicate Aslant(nodes: Nodes, q: Query, d: Key, a: Key, b: Key) {
    Toward(d, a) && Emits(nodes, q, a) && Toward(d, b) && Emits(nodes, q, b) && |b| < |a|
  }

  ghost predicate LevelOrder(keys: seq<Key>) {
    forall i, j :: 0 <= i < j < |keys| ==> |keys[i]| <= |keys[j]|
  }

  lemma FoundParent(nodes: Nodes, q: Query, d: Key, k: Key)
    requires IsTree(nodes) && k in Found(nodes, q, d)
    ensures k != [] && Parent(k) in nodes && Toward(d, Parent(k)) && Emits(nodes, q, Parent(k))
    ensures !q.recursive ==> |k| == |d| + 1
  {
    hide IsTree, ValidName, Wanted;
    AncestorsAreDirectories(nodes, d, k, |k| - 1);
    assert Parent(k) == k[..|k| - 1];
    assert |k| == |d| + 1 ==> Parent(k) == d;
    ChildIsBelow(Parent(k), k);
  }

  // In a slim tree every enumeration is in level order, whatever the listings.
  lemma SlimLevels(nodes: Nodes, q: Query, d: Key, keys: seq<Key>)
    requires IsTree(nodes) && Slim(nodes, q, d) && TopDown(keys, {})
    requires forall k :: k in keys ==> k in Found(nodes, q, d)
    ensures LevelOrder(keys)
  {
    hide IsTree, ValidName, Emits, Found, TopDown;
    forall i, j | 0 <= i < j < |keys| ensures |keys[i]| <= |keys[j]| {
      assert keys[i] in keys && keys[j] in keys;
      FoundParent(nodes, q, d, keys[i]);
      FoundParent(nodes, q, d, keys[j]);
      NotHigher(keys, i, j);
    }
  }

  lemma NotHigher(keys: seq<Key>, i: nat, j: nat)
    requires TopDown(keys, {}) && i < j < |keys|
    ensures !Below(Parent(keys[j]), Parent(keys[i]))
  {
    assert !Higher(keys[j], keys[i]);
  }

  // An entry of a comes before everything that does not lie on the way to it.
  ghost predicate Reached(keys: seq<Key>, a: Key) {
    exists i :: 0 <= i < |keys| && Parent(keys[i]) == a && forall j :: 0 <= j < i ==> Below(Parent(keys[j]), a)
  }

  ghost predicate OnTheWay(keys: seq<Key>, a: Key) {
    forall j :: 0 <= j < |keys| ==> Below(Parent(keys[j]), a)
  }

  lemma WayNext(keys: seq<Key>, a: Key, next: Key)
    ensures OnTheWay(keys, a) && Below(Parent(next), a) ==> OnTheWay(keys + [next], a)
    ensures OnTheWay(keys, a) && Parent(next) == a ==> Reached(keys + [next], a)
    ensures Reached(keys, a) ==> Reached(keys + [next], a)
  {
    hide Below, Parent;
    var longer := keys + [next];
    assert longer[|keys|] == next;
    if Reached(keys, a) {
      var i :| 0 <= i < |keys| && Parent(keys[i]) == a && forall j :: 0 <= j < i ==> Below(Parent(keys[j]), a);
      assert longer[i] == keys[i];
    }
  }

  lemma ReachedTooEarly(nodes: Nodes, q: Query, d: Key, keys: seq<Key>, a: Key, b: Key)
    requires IsTree(nodes) && q.recursive && Aslant(nodes, q, d, a, b) && !Below(b, a) && Reached(keys, a)
    requires forall k :: k in Found(nodes, q, d) ==> k in keys
    requires forall k :: k in keys ==> k != []
    ensures !LevelOrder(keys)
  {
    hide IsTree, ValidName, Wanted;
    var i :| 0 <= i < |keys| && Parent(keys[i]) == a && forall j :: 0 <= j < i ==> Below(Parent(keys[j]), a);
    var k :| k in nodes && IsChild(b, k) && Wanted(q, nodes[k]);
    ChildIsBelow(b, k);
    BelowOrEqualTransitive(d, b, k);
    assert k in keys && keys[i] in keys;
    var j :| 0 <= j < |keys| && keys[j] == k;
    assert |keys[i]| == |a| + 1 && |keys[j]| == |b| + 1;
  }

  // The listing of a directory on the way to f ends with the entry that leads there.
  ghost predicate FavouredLast(d: Key, entries: seq<Entry>, f: Key) {
    |d| < |f| && d == f[..|d|] && Has(entries, f[|d|]) ==> entries != [] && entries[|entries| - 1].filename == f[|d|]
  }

  // Then the directory that leads there is pushed last.
  lemma PushedTowards(nodes: Nodes, q: Query, d: Key, entries: seq<Entry>, f: Key)
    requires IsTree(nodes) && Listing(nodes, d, entries) && FavouredLast(d, entries, f) && q.recursive
    requires Below(d, f) && f in nodes && nodes[f].Directory?
    ensures var pushed := Pushed(q, d, entries); pushed != [] && Toward(pushed[|pushed| - 1], f)
  {
    hide IsTree, ValidName, Listing, IsSpecial;
    var c := f[..|d| + 1];
    if |f| > |d| + 1 {
      AncestorsAreDirectories(nodes, d, f, |d| + 1);
    } else {
      assert c == f;
    }
    ChildIsBelow(d, c);
    var e := EntryOfChild(nodes, d, entries, c);
    assert e.filename == c[|d|] == f[|d|];
    var i :| 0 <= i < |entries| && entries[i] == e;
    ListingDistinct(nodes, d, entries);
    assert entries[|entries| - 1].filename == e.filename;
    assert i == |entries| - 1;
  }

  lemma KeptSome(nodes: Nodes, q: Query, d: Key, entries: seq<Entry>)
    requires Listing(nodes, d, entries) && Emits(nodes, q, d)
    ensures Kept(q, entries) != []
  {
    hide Listing, ValidName, Wanted, Kept;
    ListingDistinct(nodes, d, entries);
    KeptIs(q, entries);
    var k :| k in nodes && IsChild(d, k) && Wanted(q, nodes[k]);
    var e := EntryOfChild(nodes, d, entries, k);
  }
}
