// The descriptor shuffle of base/file_descriptor_shuffle.cc: a set of moves source -> dest is carried
// out one after the other on a table, with temporaries where a move would overwrite a source that is
// still needed, and with the duty to close a source handed from arc to arc.

module Shuffle {

  datatype Arc = Arc(source: int, dest: int, close: bool)

  type Table = map<int, int>

  const MAX_EXTRA_FDS := 16

  // ---------- What the map asks for ----------

  // The DCHECK: no two arcs share a destination.
  ghost predicate Injective(m: seq<Arc>) {
    forall i, j :: 0 <= i < j < |m| ==> m[i].dest != m[j].dest
  }

  ghost predicate SourcesOpen(m: seq<Arc>, t: Table) {
    forall k :: 0 <= k < |m| ==> m[k].source in t
  }

  // Index of the arc that writes x, or -1.
  ghost function DestIndex(m: seq<Arc>, x: int): (h: int)
    ensures -1 <= h < |m|
    ensures h >= 0 ==> m[h].dest == x
    ensures h == -1 ==> forall k :: 0 <= k < |m| ==> m[k].dest != x
  {
    if m == [] then -1
    else if m[|m| - 1].dest == x then |m| - 1
    else DestIndex(m[..|m| - 1], x)
  }

  function Dests(m: seq<Arc>): set<int> {
    set k | 0 <= k < |m| :: m[k].dest
  }

  // Some arc from index i on reads s.
  predicate Live(m: seq<Arc>, i: int, s: int) {
    exists k :: 0 <= k < |m| && i <= k && m[k].source == s
  }

  // Some arc from index i on reads s and asks for it to be closed.
  predicate AsksClose(m: seq<Arc>, i: int, s: int) {
    exists k :: 0 <= k < |m| && i <= k && m[k].source == s && m[k].close
  }

  // Does s survive all moves, being nobody's destination but perhaps its own?
  ghost predicate Survives(m: seq<Arc>, s: int) {
    var h := DestIndex(m, s);
    h == -1 || m[h].source == s
  }

  // The sources that the algorithm closes. For a source that is no destination this says: some arc asks
  // for it. A source with an identity arc is closed only if a later arc reads it too.
  ghost predicate ToClose(m: seq<Arc>, s: int) {
    && Survives(m, s)
    && AsksClose(m, DestIndex(m, s), s)
    && Live(m, DestIndex(m, s) + 1, s)
  }

  ghost function Closable(m: seq<Arc>): set<int> {
    set k | 0 <= k < |m| && ToClose(m, m[k].source) :: m[k].source
  }

  // The table that the map asks for, given what the algorithm closes.
  ghost function Expected(m: seq<Arc>, t: Table): (r: Table)
    requires SourcesOpen(m, t)
  {
    map x | x in t.Keys + Dests(m) && !ToClose(m, x) ::
      if DestIndex(m, x) != -1 then t[m[DestIndex(m, x)].source] else t[x]
  }

  // Every destination holds what its source held at the start.
  ghost predicate Delivered(m: seq<Arc>, t: Table, r: Table)
    requires SourcesOpen(m, t)
  {
    forall k :: 0 <= k < |m| ==> m[k].dest in r && r[m[k].dest] == t[m[k].source]
  }

  // An identity arc followed by an arc from the same source, with a close request at either or later:
  // the check for "is the source a destination" looks at later arcs only, and misses the identity.
  predicate SpoiledAt(m: seq<Arc>, i: int) {
    && 0 <= i < |m|
    && m[i].source == m[i].dest
    && Live(m, i + 1, m[i].source)
    && AsksClose(m, i, m[i].source)
  }

  predicate Spoiled(m: seq<Arc>) {
    exists i :: 0 <= i < |m| && SpoiledAt(m, i)
  }

  lemma DestIndexOf(m: seq<Arc>, k: int)
    requires Injective(m) && 0 <= k < |m|
    ensures DestIndex(m, m[k].dest) == k
  {
  }

  // A destination is closed exactly when its arc is a spoiled identity.
  lemma ClosedDestination(m: seq<Arc>, k: int)
    requires Injective(m) && 0 <= k < |m|
    ensures ToClose(m, m[k].dest) <==> SpoiledAt(m, k)
  {
    DestIndexOf(m, k);
  }

  // The expected table delivers every value exactly when no identity is spoiled.
  lemma ExpectedDelivers(m: seq<Arc>, t: Table)
    requires Injective(m) && SourcesOpen(m, t)
    ensures Delivered(m, t, Expected(m, t)) <==> !Spoiled(m)
  {
    forall k | 0 <= k < |m|
      ensures m[k].dest in Dests(m) && DestIndex(m, m[k].dest) == k
      ensures m[k].dest in Expected(m, t) <==> !SpoiledAt(m, k)
    {
      DestIndexOf(m, k);
      ClosedDestination(m, k);
    }
    if Spoiled(m) {
      var i :| 0 <= i < |m| && SpoiledAt(m, i);
      assert m[i].dest !in Expected(m, t);
    }
  }

  // A permutation without close requests loses and invents nothing.
  lemma CycleKeepsKeys(m: seq<Arc>, t: Table)
    requires SourcesOpen(m, t)
    requires forall k :: 0 <= k < |m| ==> !m[k].close && m[k].dest in t
    ensures Expected(m, t).Keys == t.Keys
  {
  }

  // The smallest spoiled map: 0 -> 0 asking to close, then 0 -> 1. Destination 0 is closed.
  lemma SpoiledExample()
    ensures var m := [Arc(0, 0, true), Arc(0, 1, false)];
      && Injective(m) && SourcesOpen(m, map[0 := 7])
      && Spoiled(m) && !Delivered(m, map[0 := 7], Expected(m, map[0 := 7]))
  {
    var m := [Arc(0, 0, true), Arc(0, 1, false)];
    assert m[1].source == 0 && m[0].close;
    assert SpoiledAt(m, 0);
    ExpectedDelivers(m, map[0 := 7]);
  }

  // ---------- The delegate ----------

  lemma FreshKeyExists(s: set<int>) returns (x: int)
    ensures x >= 0 && x !in s
    ensures forall y :: y in s ==> y < x
  {
    x := 0;
    if y :| y in s {
      var below := FreshKeyExists(s - {y});
      assert forall z :: z in s ==> z == y || z in s - {y};
      x := if below <= y then y + 1 else below;
    }
  }

  // A move that was made, and what had been closed by then.
  datatype Moved = Moved(source: int, dest: int, closedBefore: seq<int>)

  // May the delegate hand out fd as a new descriptor?
  predicate Available(fd: int, t: Table, reserved: set<int>) {
    fd >= 0 && fd !in t && fd !in reserved
  }

  // A table of open descriptors. Unless the delegate is reliable, Duplicate and Move may fail. Which
  // descriptor that is not open Duplicate hands out is left open, except that it is none of the reserved
  // ones, and that it is the favourite one whenever that is available (-1 stands for no favourite). An
  // operating system reserves nothing.
  class Delegate {
    var table: Table
    ghost var closed: seq<int>
    ghost var moves: seq<Moved>
    ghost var failures: nat
    const reserved: set<int>
    const favourite: int
    const reliable: bool

    constructor (table: Table, reserved: set<int>, favourite: int, reliable: bool)
      ensures this.table == table && this.closed == [] && this.moves == [] && this.failures == 0
      ensures this.reserved == reserved && this.favourite == favourite && this.reliable == reliable
    {
      this.table, this.reserved, this.favourite, this.reliable := table, reserved, favourite, reliable;
      this.closed, this.moves, this.failures := [], [], 0;
    }

    method Duplicate(fd: int) returns (ok: bool, result: int)
      requires fd in table
      modifies this`table, this`failures
      ensures failures == old(failures) + if ok then 0 else 1
      ensures reliable ==> ok
      ensures !ok ==> table == old(table)
      ensures ok ==> Available(result, old(table), reserved)
      ensures ok && Available(favourite, old(table), reserved) ==> result == favourite
      ensures ok ==> table == old(table)[result := old(table)[fd]]
    {
      var fails: bool := *;
      if fails && !reliable {
        failures := failures + 1;
        return false, -1;
      }
      ghost var unused := FreshKeyExists(table.Keys + reserved);
      assert unused >= 0 && unused !in table && unused !in reserved;
      if favourite >= 0 && favourite !in table && favourite !in reserved {
        result := favourite;
      } else {
        result :| result >= 0 && result !in table && result !in reserved;
      }
      table := table[result := table[fd]];
      ok := true;
    }

    method Move(src: int, dest: int) returns (ok: bool)
      requires src in table
      modifies this`table, this`moves, this`failures
      ensures failures == old(failures) + if ok then 0 else 1
      ensures reliable ==> ok
      ensures table == if ok then old(table)[dest := old(table)[src]] else old(table)
      ensures moves == if ok then old(moves) + [Moved(src, dest, closed)] else old(moves)
    {
      var fails: bool := *;
      if fails && !reliable {
        failures := failures + 1;
        return false;
      }
      table := table[dest := table[src]];
      moves := moves + [Moved(src, dest, closed)];
      ok := true;
    }

    method Close(fd: int)
      requires fd in table
      modifies this`table, this`closed
      ensures table == old(table) - {fd}
      ensures closed == old(closed) + [fd]
    {
      table := table - {fd};
      closed := closed + [fd];
    }
  }

  // ---------- One pass of the inner loop ----------

  // Arc j still reads what arc i is about to overwrite.
  ghost predicate Rewritten(pre: seq<Arc>, i: int, j: int)
    requires 0 <= i < j < |pre|
  {
    pre[i].source != pre[i].dest && pre[j].source == pre[i].dest
  }

  // Arc j takes the duty to close arc i's source: it writes that source or reads it too.
  ghost predicate Heir(pre: seq<Arc>, i: int, j: int)
    requires 0 <= i < j < |pre|
  {
    pre[j].dest == pre[i].source || pre[j].source == pre[i].source
  }

  ghost predicate NoHeir(pre: seq<Arc>, i: int, upto: int)
    requires 0 <= i < upto <= |pre|
  {
    forall k :: i < k < upto ==> !Heir(pre, i, k)
  }

  // Arc j is the first heir, and one that will close.
  ghost predicate Inherits(pre: seq<Arc>, i: int, j: int)
    requires 0 <= i < j < |pre|
  {
    pre[i].close && pre[j].source == pre[i].source && pre[j].dest != pre[i].source && NoHeir(pre, i, j)
  }

  ghost function PassedOn(pre: seq<Arc>, i: int, j: int, temp: int): Arc
    requires 0 <= i < j < |pre|
  {
    if Rewritten(pre, i, j) then Arc(temp, pre[j].dest, false)
    else pre[j].(close := pre[j].close || Inherits(pre, i, j))
  }

  // The arcs after the inner loop of arc i has looked at all arcs before upto.
  ghost predicate Handover(pre: seq<Arc>, post: seq<Arc>, i: int, upto: int, temp: int)
    requires 0 <= i < upto <= |pre|
  {
    && |post| == |pre|
    && post[..i] == pre[..i]
    && post[i] == pre[i].(close := pre[i].close && NoHeir(pre, i, upto))
    && (forall j :: i < j < upto ==> post[j] == PassedOn(pre, i, j, temp))
    && (forall j :: upto <= j < |pre| ==> post[j] == pre[j])
  }

  // ---------- What holds between two passes ----------

  // An arc before i has overwritten s.
  ghost predicate Overwritten(m0: seq<Arc>, i: int, s: int) {
    exists h :: 0 <= h < |m0| && h < i && m0[h].dest == s && m0[h].source != s
  }

  // Arcs still to do read their own source, or, if that was overwritten, a temporary.
  ghost predicate ArcsAt(m0: seq<Arc>, m: seq<Arc>, i: int, temps: set<int>) {
    && |m| == |m0|
    && (forall k :: 0 <= k < |m| ==> m[k].dest == m0[k].dest)
    && (forall k :: 0 <= k < |m| && i <= k ==>
          if Overwritten(m0, i, m0[k].source) then m[k].source in temps && !m[k].close
          else m[k].source == m0[k].source && m[k].source !in temps)
  }

  ghost predicate SourcesAt(m0: seq<Arc>, t0: Table, m: seq<Arc>, i: int, t: Table)
    requires |m| == |m0| && SourcesOpen(m0, t0)
  {
    forall k :: 0 <= k < |m| && i <= k ==> m[k].source in t && t[m[k].source] == t0[m0[k].source]
  }

  // Close requests: untouched before the arc that writes s, conserved after it.
  ghost predicate ClosesAt(m0: seq<Arc>, m: seq<Arc>, i: int)
    requires |m| == |m0|
  {
    && (forall k :: 0 <= k < |m| && i <= DestIndex(m0, m0[k].source) <= k ==> m[k].close == m0[k].close)
    && (forall s :: Survives(m0, s) && DestIndex(m0, s) < i && Live(m0, i, s) ==>
          (AsksClose(m0, DestIndex(m0, s), s) <==> Pending(m0, m, i, s)))
  }

  // An arc from i on, reading s, still has the request to close it.
  ghost predicate Pending(m0: seq<Arc>, m: seq<Arc>, i: int, s: int)
    requires |m| == |m0|
  {
    exists k :: 0 <= k < |m| && i <= k && m0[k].source == s && m[k].close
  }

  // The sources closed so far.
  ghost predicate ShutAt(m0: seq<Arc>, i: int, shut: set<int>) {
    forall s :: s in shut <==> ToClose(m0, s) && !Live(m0, i, s)
  }

  // What is at key x: a destination already written, a temporary, or what was there at the start.
  ghost predicate KeyAt(m0: seq<Arc>, t0: Table, i: int, t: Table, temps: set<int>, shut: set<int>, x: int)
    requires SourcesOpen(m0, t0)
  {
    if x in shut then x in t <==> x in temps
    else if 0 <= DestIndex(m0, x) < i then x in t && t[x] == t0[m0[DestIndex(m0, x)].source]
    else if x in temps then x in t && x !in t0
    else (x in t <==> x in t0) && (x in t ==> t[x] == t0[x])
  }

  ghost predicate TableAt(m0: seq<Arc>, t0: Table, i: int, t: Table, temps: set<int>, shut: set<int>)
    requires SourcesOpen(m0, t0)
  {
    forall x :: KeyAt(m0, t0, i, t, temps, shut, x)
  }

  // ---------- One pass keeps all of it ----------

  // What the pass for arc i did about temporaries: none was made unless some arc was rewritten, and a
  // new one is no source that is still to be read.
  ghost predicate TempsStep(m: seq<Arc>, i: int, temps: set<int>, temps': set<int>, temp: int)
    requires 0 <= i < |m|
  {
    if temps' == temps then forall j :: i < j < |m| ==> !Rewritten(m, i, j)
    else temps' == temps + {temp} && forall k :: i <= k < |m| ==> m[k].source != temp
  }

  lemma ArcsStep(m0: seq<Arc>, m: seq<Arc>, m': seq<Arc>, i: int, temps: set<int>, temps': set<int>, temp: int)
    requires Injective(m0) && 0 <= i < |m0|
    requires ArcsAt(m0, m, i, temps) && Handover(m, m', i, |m|, temp)
    requires TempsStep(m, i, temps, temps', temp)
    ensures ArcsAt(m0, m', i + 1, temps')
  {
    forall k | i < k < |m0|
      ensures if Overwritten(m0, i + 1, m0[k].source) then m'[k].source in temps' && !m'[k].close
              else m'[k].source == m0[k].source && m'[k].source !in temps'
    {
      ArcStep(m0, m, m', i, temps, temps', temp, k);
    }
    assert forall k :: 0 <= k < |m0| ==> m'[k].dest == m0[k].dest by {
      forall k | 0 <= k < |m0| ensures m'[k].dest == m0[k].dest {
        if k < i {
          assert m'[..i][k] == m[..i][k];
        }
      }
    }
  }

  lemma ArcStep(m0: seq<Arc>, m: seq<Arc>, m': seq<Arc>, i: int, temps: set<int>, temps': set<int>, temp: int, k: int)
    requires Injective(m0) && 0 <= i < k < |m0|
    requires ArcsAt(m0, m, i, temps) && Handover(m, m', i, |m|, temp)
    requires TempsStep(m, i, temps, temps', temp)
    ensures if Overwritten(m0, i + 1, m0[k].source) then m'[k].source in temps' && !m'[k].close
            else m'[k].source == m0[k].source && m'[k].source !in temps'
  {
    var d, s := m0[i].dest, m0[k].source;
    assert m'[k] == PassedOn(m, i, k, temp);
    assert Overwritten(m0, i + 1, s) <==> Overwritten(m0, i, s) || (s == d && m0[i].source != s);
    if Overwritten(m0, i, m0[i].source) {
      var h :| 0 <= h < i && m0[h].dest == m0[i].source;
      assert m0[h].dest != m0[i].dest;
    }
    if s == d {
      assert !Overwritten(m0, i, s);
    }
  }

  lemma NeverOverwritten(m0: seq<Arc>, i: int, s: int)
    requires Injective(m0) && (Survives(m0, s) || i <= DestIndex(m0, s))
    ensures !Overwritten(m0, i, s)
  {
  }

  // While some arc still reads s, the arcs that read it now are those that did at the start.
  lemma ReadersKept(m0: seq<Arc>, m: seq<Arc>, i: int, temps: set<int>, s: int)
    requires 0 <= i && ArcsAt(m0, m, i, temps) && !Overwritten(m0, i, s) && Live(m0, i, s)
    ensures s !in temps
    ensures forall k :: i <= k < |m| ==> (m[k].source == s <==> m0[k].source == s)
  {
  }

  // Before the arc that writes s, requests at or after that arc are left alone.
  lemma EarlyCloses(m0: seq<Arc>, m: seq<Arc>, m': seq<Arc>, i: int, temps: set<int>, temp: int, k: int)
    requires Injective(m0) && 0 <= i < k < |m0|
    requires ArcsAt(m0, m, i, temps) && ClosesAt(m0, m, i) && Handover(m, m', i, |m|, temp)
    requires i < DestIndex(m0, m0[k].source) <= k
    ensures m'[k].close == m0[k].close
  {
    hide DestIndex;
    var s := m0[k].source;
    var h := DestIndex(m0, s);
    assert m'[k] == PassedOn(m, i, k, temp);
    NeverOverwritten(m0, i, s);
    hide Overwritten;
    assert m0[i].dest != m0[h].dest;
    assert m[i].source == s && h < k ==> Heir(m, i, h);
  }

  // The reader of s that comes first after i inherits arc i's request; no later one does.
  lemma RequestMoves(m: seq<Arc>, m': seq<Arc>, i: int, temp: int, q: int)
    requires 0 <= i < q < |m| && Handover(m, m', i, |m|, temp)
    requires m[q].source == m[i].source
    requires forall k :: i < k < q ==> m[k].source != m[i].source
    requires forall k :: i < k < |m| ==> m[k].dest != m[i].source
    requires forall j :: i < j < |m| && m[j].source == m[i].source ==> !Rewritten(m, i, j)
    ensures m'[q].close <==> m[q].close || m[i].close
    ensures forall k :: q < k < |m| && m[k].source == m[i].source ==> (m'[k].close <==> m[k].close)
  {
    assert NoHeir(m, i, q);
    assert m'[q] == PassedOn(m, i, q, temp);
    assert Heir(m, i, q);
    forall k | q < k < |m| && m[k].source == m[i].source
      ensures m'[k].close <==> m[k].close
    {
      assert m'[k] == PassedOn(m, i, k, temp);
    }
  }

  // From the arc that writes s on, a request survives as long as an arc that reads s does.
  lemma PendingKept(m0: seq<Arc>, m: seq<Arc>, m': seq<Arc>, i: int, temps: set<int>, temp: int, s: int)
    requires Injective(m0) && 0 <= i < |m0|
    requires ArcsAt(m0, m, i, temps) && Handover(m, m', i, |m|, temp)
    requires Survives(m0, s) && DestIndex(m0, s) <= i && Live(m0, i + 1, s)
    ensures Pending(m0, m', i + 1, s) <==> Pending(m0, m, i, s)
  {
    hide DestIndex;
    NeverOverwritten(m0, i, s);
    ReadersKept(m0, m, i, temps, s);
    assert forall j :: i < j < |m| && m[j].source == s ==> !Rewritten(m, i, j) by {
      if m[i].dest == s { DestIndexOf(m0, i); }
    }
    if m0[i].source == s {
      var q := FirstReader(m0, i + 1, s);
      forall k | i < k < |m| ensures m[k].dest != s {
        if m0[k].dest == s { DestIndexOf(m0, k); }
      }
      RequestMoves(m, m', i, temp, q);
      if Pending(m0, m, i, s) {
        var k :| i <= k < |m| && m0[k].source == s && m[k].close;
        assert m'[if k <= q then q else k].close;
      }
    } else {
      forall k | i < k < |m| && m0[k].source == s ensures m'[k].close == m[k].close {
        assert m'[k] == PassedOn(m, i, k, temp);
      }
    }
  }

  lemma FirstReader(m0: seq<Arc>, i: int, s: int) returns (q: int)
    requires 0 <= i && Live(m0, i, s)
    ensures i <= q < |m0| && m0[q].source == s
    ensures forall k :: i <= k < q ==> m0[k].source != s
  {
    q := i;
    while m0[q].source != s
      invariant i <= q < |m0| && Live(m0, q, s)
      invariant forall k :: i <= k < q ==> m0[k].source != s
      decreases |m0| - q
    {
      q := q + 1;
    }
  }

  lemma ClosesStep(m0: seq<Arc>, m: seq<Arc>, m': seq<Arc>, i: int, temps: set<int>, temp: int)
    requires Injective(m0) && 0 <= i < |m0|
    requires ArcsAt(m0, m, i, temps) && ClosesAt(m0, m, i) && Handover(m, m', i, |m|, temp)
    ensures ClosesAt(m0, m', i + 1)
  {
    forall k | 0 <= k < |m| && i + 1 <= DestIndex(m0, m0[k].source) <= k ensures m'[k].close == m0[k].close {
      EarlyCloses(m0, m, m', i, temps, temp, k);
    }
    forall s | Survives(m0, s) && DestIndex(m0, s) < i + 1 && Live(m0, i + 1, s)
      ensures AsksClose(m0, DestIndex(m0, s), s) <==> Pending(m0, m', i + 1, s)
    {
      PendingKept(m0, m, m', i, temps, temp, s);
      PendingFromStart(m0, m, i, s);
    }
  }

  lemma PendingFromStart(m0: seq<Arc>, m: seq<Arc>, i: int, s: int)
    requires 0 <= i < |m0| == |m| && ClosesAt(m0, m, i)
    requires Survives(m0, s) && DestIndex(m0, s) <= i && Live(m0, i, s)
    ensures AsksClose(m0, DestIndex(m0, s), s) <==> Pending(m0, m, i, s)
  {
  }

  lemma NoHeirNoDest(m0: seq<Arc>, m: seq<Arc>, i: int, s: int)
    requires Injective(m0) && 0 <= i < |m0| == |m| && m[i].source == s != m0[i].dest
    requires forall k :: 0 <= k < |m| ==> m[k].dest == m0[k].dest
    requires NoHeir(m, i, |m|)
    ensures DestIndex(m0, s) < i
    ensures forall k :: i < k < |m| ==> m[k].source != s
  {
    forall k | i < k < |m| ensures m[k].source != s && m0[k].dest != s {
      assert !Heir(m, i, k);
    }
  }

  lemma ClosingIsDue(m0: seq<Arc>, m: seq<Arc>, m': seq<Arc>, i: int, temps: set<int>, temp: int)
    requires Injective(m0) && 0 <= i < |m0|
    requires ArcsAt(m0, m, i, temps) && ClosesAt(m0, m, i) && Handover(m, m', i, |m|, temp)
    requires m'[i].close && m[i].source != m[i].dest
    ensures var s := m[i].source;
      && s !in temps && s == m0[i].source
      && ToClose(m0, s) && !Live(m0, i + 1, s) && DestIndex(m0, s) < i
      && forall k :: i < k < |m| ==> m[k].source != s
  {
    hide DestIndex;
    var s := m[i].source;
    assert s == m0[i].source && !Overwritten(m0, i, s);
    NoHeirNoDest(m0, m, i, s);
    assert Live(m0, i, s) && Pending(m0, m, i, s);
    ReadersKept(m0, m, i, temps, s);
    PendingFromStart(m0, m, i, s);
  }

  // Arc i closes its source exactly when that source is due and no later arc reads it.
  lemma ShutStep(m0: seq<Arc>, m: seq<Arc>, m': seq<Arc>, i: int, temps: set<int>, temp: int, shut: set<int>)
    requires Injective(m0) && 0 <= i < |m0|
    requires ArcsAt(m0, m, i, temps) && ClosesAt(m0, m, i) && Handover(m, m', i, |m|, temp)
    requires ShutAt(m0, i, shut)
    ensures var s := m[i].source;
      if m'[i].close && s != m[i].dest
      then s !in shut && ShutAt(m0, i + 1, shut + {s})
      else ShutAt(m0, i + 1, shut)
  {
    hide DestIndex;
    var s := m[i].source;
    var closing := m'[i].close && s != m[i].dest;
    if closing {
      ClosingIsDue(m0, m, m', i, temps, temp);
      assert Live(m0, i, s);
    }
    forall x ensures (ToClose(m0, x) && !Live(m0, i + 1, x)) <==> (x in shut || (closing && x == s)) {
      if ToClose(m0, x) && Live(m0, i, x) && !Live(m0, i + 1, x) {
        LastReaderCloses(m0, m, m', i, temps, temp, x);
      }
    }
  }

  lemma LastReaderCloses(m0: seq<Arc>, m: seq<Arc>, m': seq<Arc>, i: int, temps: set<int>, temp: int, x: int)
    requires Injective(m0) && 0 <= i < |m0|
    requires ArcsAt(m0, m, i, temps) && ClosesAt(m0, m, i) && Handover(m, m', i, |m|, temp)
    requires ToClose(m0, x) && Live(m0, i, x) && !Live(m0, i + 1, x)
    ensures x == m[i].source && m'[i].close && x != m[i].dest
  {
    hide DestIndex;
    assert DestIndex(m0, x) < i;
    NeverOverwritten(m0, i, x);
    hide Overwritten;
    ReadersKept(m0, m, i, temps, x);
    PendingFromStart(m0, m, i, x);
    assert m0[i].source == x && m[i].close;
    forall k | i < k < |m| ensures !Heir(m, i, k) {
      if m0[k].dest == x { DestIndexOf(m0, k); }
    }
    if m0[i].dest == x { DestIndexOf(m0, i); }
  }

  // The table after the pass for arc i: a duplicate perhaps, the move, a close perhaps.
  ghost predicate TableStep(m: seq<Arc>, m': seq<Arc>, i: int, t: Table, t': Table, dup: bool, temp: int)
    requires 0 <= i < |m| && |m'| == |m|
    requires m[i].source in t
  {
    var s, d := m[i].source, m[i].dest;
    && (dup ==> temp !in t && d in t)
    && var afterDup := if dup then t[temp := t[d]] else t;
    && var afterMove := if s != d then afterDup[d := afterDup[s]] else afterDup;
    && t' == if s != d && m'[i].close then afterMove - {s} else afterMove
  }

  lemma PendingSources(m0: seq<Arc>, t0: Table, m: seq<Arc>, m': seq<Arc>, i: int, t: Table, t': Table,
                       dup: bool, temp: int)
    requires |m| == |m0| && SourcesOpen(m0, t0) && 0 <= i < |m0|
    requires SourcesAt(m0, t0, m, i, t) && Handover(m, m', i, |m|, temp)
    requires TableStep(m, m', i, t, t', dup, temp)
    requires !dup ==> forall j :: i < j < |m| ==> !Rewritten(m, i, j)
    requires m'[i].close && m[i].source != m[i].dest ==> forall k :: i < k < |m| ==> m[k].source != m[i].source
    ensures SourcesAt(m0, t0, m', i + 1, t')
  {
    forall k | i < k < |m| ensures m'[k].source in t' && t'[m'[k].source] == t0[m0[k].source] {
      assert m'[k] == PassedOn(m, i, k, temp);
    }
  }

  lemma TableKept(m0: seq<Arc>, t0: Table, m: seq<Arc>, m': seq<Arc>, i: int, t: Table, t': Table,
                  temps: set<int>, dup: bool, temp: int, shut: set<int>)
    requires Injective(m0) && SourcesOpen(m0, t0) && 0 <= i < |m0|
    requires ArcsAt(m0, m, i, temps) && SourcesAt(m0, t0, m, i, t) && ShutAt(m0, i, shut)
    requires |m'| == |m| && TableStep(m, m', i, t, t', dup, temp)
    requires TableAt(m0, t0, i, t, temps, shut)
    requires var s := m[i].source; m'[i].close && s != m[i].dest ==> s !in temps && DestIndex(m0, s) < i
    ensures var s := m[i].source;
      TableAt(m0, t0, i + 1, t', if dup then temps + {temp} else temps,
              if m'[i].close && s != m[i].dest then shut + {s} else shut)
  {
    hide DestIndex;
    var s, d := m[i].source, m[i].dest;
    DestIndexOf(m0, i);
    assert d !in shut by {
      assert ToClose(m0, d) ==> Live(m0, i, d);
    }
    var temps' := if dup then temps + {temp} else temps;
    var shut' := if m'[i].close && s != d then shut + {s} else shut;
    var next := i + 1;
    forall x ensures KeyAt(m0, t0, next, t', temps', shut', x) {
      assert DestIndex(m0, x) == i <==> x == d;
      assert KeyAt(m0, t0, i, t, temps, shut, x);
    }
  }

  // ---------- The algorithm ----------

  ghost function Elements(s: seq<int>): set<int> {
    set x | x in s
  }

  // The temporaries that are remembered for closing: the first sixteen.
  ghost function Recorded(temps: seq<int>): seq<int> {
    if |temps| <= MAX_EXTRA_FDS then temps else temps[..MAX_EXTRA_FDS]
  }

  // The final table, key by key: what the map asks for, without the recorded temporaries and with
  // the ones that overflowed.
  ghost predicate Outcome(m: seq<Arc>, t: Table, r: Table, temps: seq<int>)
    requires SourcesOpen(m, t)
  {
    var e, recorded := Expected(m, t), Elements(Recorded(temps));
    && r.Keys == (e.Keys + Elements(temps)) - recorded
    && forall x :: x in e && x !in recorded ==> r[x] == e[x]
  }

  lemma RecordedAmong(temps: seq<int>)
    ensures Elements(Recorded(temps)) <= Elements(temps)
  {
  }

  // Sixteen temporaries are closed at most; one past those stays open.
  lemma SixteenClosed(m: seq<Arc>, t: Table, r: Table, temps: seq<int>)
    requires SourcesOpen(m, t) && Outcome(m, t, r, temps) && Distinct(temps)
    ensures Recorded(temps) == if |temps| <= 16 then temps else temps[..16]
    ensures forall j :: 0 <= j < |temps| ==> (temps[j] in r <==> j >= 16)
  {
    var recorded := Recorded(temps);
    hide Expected;
    forall j | 0 <= j < |temps| ensures temps[j] in r <==> j >= 16 {
      if j < 16 {
        assert recorded[j] == temps[j];
        assert temps[j] in Elements(recorded);
      } else {
        assert temps[j] in Elements(temps);
        assert forall h :: 0 <= h < |recorded| ==> recorded[h] == temps[h] != temps[j];
      }
    }
  }

  // For a source that is no destination: it is closed if and only if some arc asks for it.
  lemma ClosableIs(m: seq<Arc>, s: int)
    requires forall k :: 0 <= k < |m| ==> m[k].dest != s
    ensures s in Closable(m) <==> exists k :: 0 <= k < |m| && m[k].source == s && m[k].close
  {
    assert DestIndex(m, s) == -1;
    if k :| 0 <= k < |m| && m[k].source == s && m[k].close {
      assert ToClose(m, m[k].source);
    }
  }

  lemma OutcomeDelivers(m: seq<Arc>, t: Table, r: Table, temps: seq<int>)
    requires Injective(m) && SourcesOpen(m, t) && Outcome(m, t, r, temps)
    ensures !Spoiled(m) && Elements(Recorded(temps)) !! Dests(m) ==> Delivered(m, t, r)
    ensures |temps| <= MAX_EXTRA_FDS && Delivered(m, t, r) ==> !Spoiled(m) && Elements(temps) !! Dests(m)
  {
    hide DestIndex;
    var e := Expected(m, t);
    ExpectedDelivers(m, t);
    if !Spoiled(m) && Elements(Recorded(temps)) !! Dests(m) {
      forall k | 0 <= k < |m| ensures m[k].dest in r && r[m[k].dest] == t[m[k].source] {
        assert m[k].dest in Dests(m);
        assert m[k].dest in e;
      }
    }
    if |temps| <= MAX_EXTRA_FDS && Delivered(m, t, r) {
      assert forall x :: x in Dests(m) ==> x in r;
      assert r.Keys == e.Keys - Elements(temps);
      forall k | 0 <= k < |m| ensures m[k].dest in e && e[m[k].dest] == t[m[k].source] {
        assert m[k].dest in r.Keys;
      }
    }
  }

  lemma OutcomeReached(m: seq<Arc>, t: Table, done: Table, r: Table, temps: seq<int>)
    requires SourcesOpen(m, t)
    requires done.Keys == Expected(m, t).Keys + Elements(temps)
    requires forall x :: x in Expected(m, t) ==> done[x] == Expected(m, t)[x]
    requires r == done - Elements(Recorded(temps))
    ensures Outcome(m, t, r, temps)
  {
  }

  // Arc i overwrites what a later arc has still to read, so that a copy is needed.
  predicate NeedsTemp(m: seq<Arc>, i: int) {
    0 <= i < |m| && m[i].source != m[i].dest && Live(m, i + 1, m[i].dest)
  }

  // The number of copies needed by the first i arcs.
  ghost function TempsNeeded(m: seq<Arc>, i: nat): nat {
    if i == 0 then 0 else TempsNeeded(m, i - 1) + if NeedsTemp(m, i - 1) then 1 else 0
  }

  // While arc i makes its copy, the destination of the later arc k is there to be handed out.
  predicate Exposed(m: seq<Arc>, t: Table, reserved: set<int>, i: int, k: int) {
    NeedsTemp(m, i) && i < k < |m| && Available(m[k].dest, t, reserved)
  }

  predicate DestsSafe(m: seq<Arc>, t: Table, reserved: set<int>) {
    forall i, k :: 0 <= i < |m| && 0 <= k < |m| ==> !Exposed(m, t, reserved, i, k)
  }

  // As long as no copy was put into a destination, exactly the arcs that need one make one.
  lemma RewritingIsNeed(m0: seq<Arc>, m: seq<Arc>, i: int, temps: set<int>)
    requires Injective(m0) && 0 <= i < |m0| && ArcsAt(m0, m, i, temps) && temps !! Dests(m0)
    ensures NeedsTemp(m0, i) <==> Rewrites(m, i)
  {
    var d := m0[i].dest;
    assert d in Dests(m0) && m[i].dest == d;
    assert !Overwritten(m0, i, d);
    if NeedsTemp(m0, i) {
      var j :| i + 1 <= j < |m0| && m0[j].source == d;
      assert Rewritten(m, i, j);
    }
    if j :| i < j < |m| && Rewritten(m, i, j) {
      assert m0[j].source == d;
    }
  }

  lemma FreshIsNoDest(m0: seq<Arc>, t0: Table, i: int, t: Table, temps: set<int>, shut: set<int>,
                      reserved: set<int>, temp: int)
    requires Injective(m0) && SourcesOpen(m0, t0) && NeedsTemp(m0, i)
    requires ShutAt(m0, i, shut) && TableAt(m0, t0, i, t, temps, shut)
    requires DestsSafe(m0, t0, reserved) && !Spoiled(m0)
    requires Available(temp, t, reserved) && m0[i].dest in t
    ensures temp !in Dests(m0)
  {
    forall k | 0 <= k < |m0| ensures m0[k].dest != temp {
      DestIndexOf(m0, k);
      ClosedDestination(m0, k);
      assert KeyAt(m0, t0, i, t, temps, shut, m0[k].dest);
      assert !Exposed(m0, t0, reserved, i, k);
    }
  }

  // The destination of a later arc that is not open at the start is not open at arc i either, unless it
  // was handed out.
  lemma StillAvailable(m0: seq<Arc>, t0: Table, i: int, t: Table, shut: set<int>, reserved: set<int>, k: int)
    requires Injective(m0) && SourcesOpen(m0, t0) && 0 <= i < k < |m0|
    requires TableAt(m0, t0, i, t, {}, shut) && Available(m0[k].dest, t0, reserved)
    ensures Available(m0[k].dest, t, reserved)
  {
    DestIndexOf(m0, k);
    assert KeyAt(m0, t0, i, t, {}, shut, m0[k].dest);
  }

  // A key that the map does not touch is as it was.
  ghost predicate Untouched(m0: seq<Arc>, t0: Table, t: Table, temps: set<int>) {
    forall x :: x !in temps && x !in Dests(m0) && !ToClose(m0, x) ==>
      (x in t <==> x in t0) && (x in t ==> t[x] == t0[x])
  }

  lemma ExpectedAt(m: seq<Arc>, t: Table, x: int)
    requires SourcesOpen(m, t)
    ensures x in Expected(m, t) <==> (x in t || DestIndex(m, x) != -1) && !ToClose(m, x)
    ensures x in Expected(m, t) ==>
      Expected(m, t)[x] == if DestIndex(m, x) != -1 then t[m[DestIndex(m, x)].source] else t[x]
  {
    hide ToClose;
    if DestIndex(m, x) != -1 {
      assert m[DestIndex(m, x)].dest in Dests(m);
    }
  }

  lemma ShutIsClosable(m0: seq<Arc>, shut: set<int>)
    requires ShutAt(m0, |m0|, shut)
    ensures shut == Closable(m0)
  {
    forall s ensures s in shut <==> s in Closable(m0) {
      assert s in shut <==> ToClose(m0, s);
      assert ToClose(m0, s) ==> exists k :: 0 <= k < |m0| && m0[k].source == s;
      hide ToClose;
    }
  }

  lemma DoneAt(m0: seq<Arc>, t0: Table, t: Table, temps: set<int>, shut: set<int>, x: int)
    requires Injective(m0) && SourcesOpen(m0, t0)
    requires x in shut <==> ToClose(m0, x)
    requires KeyAt(m0, t0, |m0|, t, temps, shut, x)
    ensures x in t <==> x in Expected(m0, t0) || x in temps
    ensures x in Expected(m0, t0) ==> t[x] == Expected(m0, t0)[x]
  {
    hide Expected, ToClose;
    ExpectedAt(m0, t0, x);
  }

  lemma AllDone(m0: seq<Arc>, t0: Table, t: Table, temps: set<int>, shut: set<int>)
    requires Injective(m0) && SourcesOpen(m0, t0)
    requires ShutAt(m0, |m0|, shut) && TableAt(m0, t0, |m0|, t, temps, shut)
    ensures t.Keys == Expected(m0, t0).Keys + temps
    ensures forall x :: x in Expected(m0, t0) ==> t[x] == Expected(m0, t0)[x]
  {
    forall x ensures x in t.Keys <==> x in Expected(m0, t0).Keys + temps
             ensures x in Expected(m0, t0) ==> t[x] == Expected(m0, t0)[x]
    {
      assert ToClose(m0, x) ==> !Live(m0, |m0|, x);
      assert KeyAt(m0, t0, |m0|, t, temps, shut, x);
      hide KeyAt, Expected, ToClose;
      DoneAt(m0, t0, t, temps, shut, x);
    }
  }

  // Everything that holds before the pass for arc i.
  ghost predicate Inv(m0: seq<Arc>, t0: Table, m: seq<Arc>, i: int, t: Table, temps: set<int>, shut: set<int>) {
    && Injective(m0) && SourcesOpen(m0, t0) && 0 <= i <= |m0|
    && ArcsAt(m0, m, i, temps) && SourcesAt(m0, t0, m, i, t)
    && ClosesAt(m0, m, i) && ShutAt(m0, i, shut) && TableAt(m0, t0, i, t, temps, shut)
  }

  lemma InvInitially(m0: seq<Arc>, t0: Table)
    requires Injective(m0) && SourcesOpen(m0, t0)
    ensures Inv(m0, t0, m0, 0, t0, {}, {})
  {
    forall s | Survives(m0, s) && DestIndex(m0, s) < 0 && Live(m0, 0, s)
      ensures AsksClose(m0, DestIndex(m0, s), s) <==> Pending(m0, m0, 0, s)
    {
    }
    forall s ensures !(ToClose(m0, s) && !Live(m0, 0, s)) {
    }
  }

  lemma InvStep(m0: seq<Arc>, t0: Table, m: seq<Arc>, m': seq<Arc>, i: int, t: Table, t': Table,
                temps: set<int>, shut: set<int>, dup: bool, temp: int)
    requires Inv(m0, t0, m, i, t, temps, shut) && i < |m|
    requires Handover(m, m', i, |m|, temp) && m[i].source in t && TableStep(m, m', i, t, t', dup, temp)
    requires !dup ==> forall j :: i < j < |m| ==> !Rewritten(m, i, j)
    ensures var s := m[i].source;
      var closing := s != m[i].dest && m'[i].close;
      && Inv(m0, t0, m', i + 1, t', if dup then temps + {temp} else temps, if closing then shut + {s} else shut)
      && (closing ==> s !in shut)
  {
    TempsOpen(m0, t0, i, t, temps, shut);
    var temps' := if dup then temps + {temp} else temps;
    assert TempsStep(m, i, temps, temps', temp);
    ArcsStep(m0, m, m', i, temps, temps', temp);
    ClosesStep(m0, m, m', i, temps, temp);
    ShutStep(m0, m, m', i, temps, temp, shut);
    if m'[i].close && m[i].source != m[i].dest {
      ClosingIsDue(m0, m, m', i, temps, temp);
    }
    PendingSources(m0, t0, m, m', i, t, t', dup, temp);
    TableKept(m0, t0, m, m', i, t, t', temps, dup, temp, shut);
  }

  lemma TempsOpen(m0: seq<Arc>, t0: Table, i: int, t: Table, temps: set<int>, shut: set<int>)
    requires SourcesOpen(m0, t0) && TableAt(m0, t0, i, t, temps, shut)
    ensures temps <= t.Keys
  {
    forall x | x in temps ensures x in t {
      assert KeyAt(m0, t0, i, t, temps, shut, x);
    }
  }

  lemma InvUntouched(m0: seq<Arc>, t0: Table, m: seq<Arc>, i: int, t: Table, temps: set<int>, shut: set<int>)
    requires Inv(m0, t0, m, i, t, temps, shut)
    ensures Untouched(m0, t0, t, temps)
  {
    forall x | x !in temps && x !in Dests(m0) && !ToClose(m0, x)
      ensures (x in t <==> x in t0) && (x in t ==> t[x] == t0[x])
    {
      assert KeyAt(m0, t0, i, t, temps, shut, x);
    }
  }

  lemma UntouchedElsewhere(m0: seq<Arc>, t0: Table, t: Table, t': Table, temps: set<int>, temps': set<int>)
    requires Untouched(m0, t0, t, temps) && temps <= temps'
    requires forall x :: x !in temps' ==> (x in t' <==> x in t) && (x in t' ==> t'[x] == t[x])
    ensures Untouched(m0, t0, t', temps')
  {
    hide ToClose;
  }

  lemma InvBounds(m0: seq<Arc>, t0: Table, m: seq<Arc>, i: int, t: Table, temps: set<int>, shut: set<int>)
    requires Inv(m0, t0, m, i, t, temps, shut)
    ensures |m| == |m0| && temps <= t.Keys
    ensures forall k :: 0 <= k < |m| && i <= k ==> m[k].source in t
  {
    TempsOpen(m0, t0, i, t, temps, shut);
  }

  lemma InvNeed(m0: seq<Arc>, t0: Table, m: seq<Arc>, i: int, t: Table, temps: set<int>, shut: set<int>)
    requires Inv(m0, t0, m, i, t, temps, shut) && i < |m0| && temps !! Dests(m0)
    ensures NeedsTemp(m0, i) <==> Rewrites(m, i)
  {
    RewritingIsNeed(m0, m, i, temps);
  }

  lemma InvFresh(m0: seq<Arc>, t0: Table, m: seq<Arc>, i: int, t: Table, temps: set<int>, shut: set<int>,
                 reserved: set<int>, temp: int)
    requires Inv(m0, t0, m, i, t, temps, shut) && i < |m0| && Available(temp, t, reserved) && m[i].dest in t
    ensures DestsSafe(m0, t0, reserved) && !Spoiled(m0) && NeedsTemp(m0, i) ==> temp !in Dests(m0)
  {
    if DestsSafe(m0, t0, reserved) && !Spoiled(m0) && NeedsTemp(m0, i) {
      FreshIsNoDest(m0, t0, i, t, temps, shut, reserved, temp);
    }
  }

  // The favourite descriptor is the destination of an arc, closed and there to be handed out when an
  // earlier arc makes its copy.
  ghost predicate Hostile(m: seq<Arc>, t: Table, reserved: set<int>, favourite: int) {
    exists i, k :: Exposed(m, t, reserved, i, k) && m[k].dest == favourite
  }

  // No arc before i needs a copy: then a favourite that is such a destination is still available.
  lemma InvHostile(m0: seq<Arc>, t0: Table, m: seq<Arc>, i: int, t: Table, shut: set<int>,
                   reserved: set<int>, favourite: int)
    requires Inv(m0, t0, m, i, t, {}, shut) && TempsNeeded(m0, i) == 0
    ensures Hostile(m0, t0, reserved, favourite) ==> Available(favourite, t, reserved)
  {
    if Hostile(m0, t0, reserved, favourite) {
      var h, k :| Exposed(m0, t0, reserved, h, k) && m0[k].dest == favourite;
      if h < i {
        NeededCounts(m0, h, i);
      }
      StillAvailable(m0, t0, i, t, shut, reserved, k);
    }
  }

  lemma {:induction false} NeededCounts(m: seq<Arc>, h: nat, i: nat)
    requires h < i && NeedsTemp(m, h)
    ensures TempsNeeded(m, i) > 0
  {
    if h < i - 1 {
      NeededCounts(m, h, i - 1);
    }
  }

  lemma InvDone(m0: seq<Arc>, t0: Table, m: seq<Arc>, t: Table, temps: set<int>, shut: set<int>)
    requires Inv(m0, t0, m, |m0|, t, temps, shut)
    ensures SourcesOpen(m0, t0) && shut == Closable(m0) && temps <= t.Keys
    ensures t.Keys == Expected(m0, t0).Keys + temps
    ensures forall x :: x in Expected(m0, t0) ==> t[x] == Expected(m0, t0)[x]
  {
    AllDone(m0, t0, t, temps, shut);
    ShutIsClosable(m0, shut);
    TempsOpen(m0, t0, |m0|, t, temps, shut);
  }

  // The array of temporaries to close at the end, and how many there are.
  ghost predicate Remembers(extraFds: array<int>, next: int, temps: seq<int>)
    reads extraFds
  {
    && extraFds.Length == MAX_EXTRA_FDS
    && next == |Recorded(temps)| && extraFds[..next] == Recorded(temps)
  }

  method Remember(extraFds: array<int>, next: int, tempFd: int, ghost temps: seq<int>) returns (next': int)
    requires Remembers(extraFds, next, temps)
    modifies extraFds
    ensures Remembers(extraFds, next', temps + [tempFd])
  {
    next' := next;
    if next' < MAX_EXTRA_FDS {
      extraFds[next'] := tempFd;
      next' := next' + 1;
    }
  }

  // The two close tests: a destination is not closed at all, a source read again is closed by the reader.
  method HandOverClose(m: array<Arc>, i: int, j: int)
    requires 0 <= i < j < m.Length
    modifies m
    ensures var a, b := old(m[i]), old(m[j]);
      var shared := a.source == b.dest || a.source == b.source;
      m[..] == old(m[..])[i := a.(close := a.close && !shared)]
                         [j := b.(close := b.close || (a.close && a.source == b.source && a.source != b.dest))]
  {
    if m[i].close && m[i].source == m[j].dest {
      m[i] := m[i].(close := false);
    }
    if m[i].close && m[i].source == m[j].source {
      m[i] := m[i].(close := false);
      m[j] := m[j].(close := true);
    }
  }

  lemma HandoverNow(pre: seq<Arc>, here: seq<Arc>, i: int, j: int, temp: int)
    requires 0 <= i < j < |pre| && Handover(pre, here, i, j, temp)
    ensures |here| == |pre| && here[j] == pre[j]
    ensures here[i] == pre[i].(close := here[i].close)
    ensures here[i].close ==> pre[i].close && NoHeir(pre, i, j)
    ensures pre[i].close && NoHeir(pre, i, j) ==> here[i].close
  {
  }

  // What Duplicate may answer while the table is t.
  ghost predicate HandedOut(fd: int, t: Table, reserved: set<int>, favourite: int) {
    Available(fd, t, reserved) && (Available(favourite, t, reserved) ==> fd == favourite)
  }

  // If arc j reads what arc i is about to overwrite, make it read the copy instead, which is made the
  // first time it is needed.
  method ReadFromCopy(m: array<Arc>, i: int, j: int, delegate: Delegate, extraFds: array<int>,
                      next: int, tempFd: int, ghost temps: seq<int>)
    returns (ok: bool, next': int, tempFd': int)
    requires 0 <= i < j < m.Length && (extraFds as object) != (m as object)
    requires m[j].source in delegate.table
    requires tempFd == -1 ==> Remembers(extraFds, next, temps)
    modifies m, extraFds, delegate`table, delegate`failures
    ensures ok <==> delegate.failures == old(delegate.failures)
    ensures delegate.reliable ==> ok
    ensures if tempFd == tempFd' then
        delegate.table == old(delegate.table) && next' == next && unchanged(extraFds)
      else
        && tempFd == -1 && HandedOut(tempFd', old(delegate.table), delegate.reserved, delegate.favourite)
        && Rewritten(old(m[..]), i, j) && m[i].dest in old(delegate.table)
        && delegate.table == old(delegate.table)[tempFd' := old(delegate.table)[m[i].dest]]
        && Remembers(extraFds, next', temps + [tempFd'])
    ensures !ok ==> tempFd == tempFd' == -1 && m[..] == old(m[..])
    ensures ok ==> var rewritten := Rewritten(old(m[..]), i, j);
      && (rewritten ==> tempFd' != -1)
      && m[..] == if rewritten then old(m[..])[j := Arc(tempFd', old(m[j].dest), false)] else old(m[..])
  {
    ok, next', tempFd' := true, next, tempFd;
    if m[i].source != m[i].dest && m[i].dest == m[j].source {
      if tempFd' == -1 {
        ok, tempFd' := delegate.Duplicate(m[i].dest);
        if !ok {
          tempFd' := -1;
          return;
        }
        next' := Remember(extraFds, next', tempFd', temps);
      }
      m[j] := m[j].(source := tempFd', close := false);
    }
  }

  // One more arc looked at. A temporary made just now changes nothing for the arcs before j.
  lemma HandoverStep(pre: seq<Arc>, here: seq<Arc>, after: seq<Arc>, i: int, j: int, earlier: int, temp: int)
    requires 0 <= i < j < |pre| == |here| && Handover(pre, here, i, j, earlier)
    requires earlier == temp || forall k :: i < k < j ==> !Rewritten(pre, i, k)
    requires after == here[i := pre[i].(close := here[i].close && !Heir(pre, i, j))][j := PassedOn(pre, i, j, temp)]
    ensures Handover(pre, after, i, j + 1, temp)
  {
    assert NoHeir(pre, i, j + 1) <==> NoHeir(pre, i, j) && !Heir(pre, i, j);
    assert after[..i] == here[..i];
  }

  ghost predicate Rewrites(pre: seq<Arc>, i: int)
    requires 0 <= i < |pre|
  {
    exists j :: i < j < |pre| && Rewritten(pre, i, j)
  }

  lemma NotInTable(fd: int, t: Table, reserved: set<int>, favourite: int)
    ensures HandedOut(fd, t, reserved, favourite) ==> fd !in t
  {
  }

  lemma RewritesBy(pre: seq<Arc>, i: int, j: int)
    requires 0 <= i < j < |pre|
    ensures Rewritten(pre, i, j) ==> Rewrites(pre, i)
  {
  }

  lemma NoRewrites(m: seq<Arc>, i: int)
    requires 0 <= i < |m|
    ensures !Rewrites(m, i) <==> forall j :: i < j < |m| ==> !Rewritten(m, i, j)
  {
  }

  // The inner loop for arc i.
  method PassOver(m: array<Arc>, i: int, delegate: Delegate, extraFds: array<int>, next: int, ghost temps: seq<int>)
    returns (ok: bool, tempFd: int, next': int)
    requires 0 <= i < m.Length && Remembers(extraFds, next, temps) && (extraFds as object) != (m as object)
    requires forall k :: i <= k < m.Length ==> m[k].source in delegate.table
    modifies m, extraFds, delegate`table, delegate`failures
    ensures ok <==> delegate.failures == old(delegate.failures)
    ensures delegate.reliable ==> ok
    ensures tempFd == -1 ==> delegate.table == old(delegate.table) && Remembers(extraFds, next', temps)
    ensures tempFd != -1 ==>
      && HandedOut(tempFd, old(delegate.table), delegate.reserved, delegate.favourite)
      && Rewrites(old(m[..]), i) && m[i].dest == old(m[i].dest) && m[i].dest in old(delegate.table)
      && delegate.table == old(delegate.table)[tempFd := old(delegate.table)[m[i].dest]]
      && Remembers(extraFds, next', temps + [tempFd])
    ensures ok ==> Handover(old(m[..]), m[..], i, m.Length, tempFd)
    ensures ok && tempFd == -1 ==> !Rewrites(old(m[..]), i)
  {
    hide Remembers, HandedOut, Rewrites;
    tempFd, next' := -1, next;
    ghost var pre, before := m[..], delegate.table;
    assert NoHeir(pre, i, i + 1);
    assert Handover(pre, pre, i, i + 1, -1);
    hide NoHeir, Handover;
    assert pre[i].source in before;
    for j := i + 1 to m.Length
      invariant Handover(pre, m[..], i, j, tempFd) && delegate.failures == old(delegate.failures)
      invariant tempFd == -1 ==> delegate.table == before && Remembers(extraFds, next', temps)
      invariant tempFd == -1 ==> forall k :: i < k < j ==> !Rewritten(pre, i, k)
      invariant tempFd != -1 ==>
        && HandedOut(tempFd, before, delegate.reserved, delegate.favourite) && Rewrites(pre, i)
        && pre[i].dest in before && delegate.table == before[tempFd := before[pre[i].dest]]
        && Remembers(extraFds, next', temps + [tempFd])
    {
      ghost var here, known := m[..], tempFd;
      HandoverNow(pre, here, i, j, tempFd);
      assert Rewritten(here, i, j) == Rewritten(pre, i, j) && pre[j].source in before;
      var saved;
      saved, next', tempFd := ReadFromCopy(m, i, j, delegate, extraFds, next', tempFd, temps);
      RewritesBy(pre, i, j);
      NotInTable(tempFd, before, delegate.reserved, delegate.favourite);
      if !saved {
        return false, -1, next';
      }
      HandOverClose(m, i, j);
      assert m[j] == PassedOn(pre, i, j, tempFd);
      assert m[..] == here[i := m[i]][j := m[j]];
      HandoverStep(pre, here, m[..], i, j, known, tempFd);
    }
    NoRewrites(pre, i);
    ok := true;
  }

  ghost predicate Distinct(s: seq<int>) {
    forall a, b :: 0 <= a < b < |s| ==> s[a] != s[b]
  }

  // The temporaries made by the first i arcs: none before the first arc that needs one; one for each
  // such arc, unless a destination was handed out, which cannot happen where destinations are safe and
  // does happen, at the very first, with a hostile delegate.
  ghost predicate TempsAt(m0: seq<Arc>, t0: Table, i: nat, temps: seq<int>, reserved: set<int>, favourite: int) {
    && Distinct(temps) && |temps| <= i && (|temps| < |m0| || temps == [])
    && Elements(temps) !! reserved
    && (temps == [] <==> TempsNeeded(m0, i) == 0)
    && (Elements(temps) !! Dests(m0) ==> |temps| == TempsNeeded(m0, i))
    && (!Spoiled(m0) && DestsSafe(m0, t0, reserved) ==> Elements(temps) !! Dests(m0))
    && (Hostile(m0, t0, reserved, favourite) && temps != [] ==> temps[0] == favourite)
  }

  // What holds of the temporaries wherever a run ends.
  ghost predicate TempsFine(m0: seq<Arc>, t0: Table, temps: seq<int>, reserved: set<int>) {
    && Distinct(temps) && (|temps| < |m0| || temps == [])
    && (!Spoiled(m0) && DestsSafe(m0, t0, reserved) ==> Elements(temps) !! Dests(m0))
  }

  lemma TempsSoFar(m0: seq<Arc>, t0: Table, i: nat, temps: seq<int>, reserved: set<int>, favourite: int)
    requires TempsAt(m0, t0, i, temps, reserved, favourite)
    ensures TempsFine(m0, t0, temps, reserved)
  {
    hide Spoiled, DestsSafe, Dests, Hostile, Distinct, Elements;
  }

  lemma NoTempMade(m0: seq<Arc>, t0: Table, m: seq<Arc>, i: int, t: Table, temps: seq<int>, shut: set<int>,
                   reserved: set<int>, favourite: int)
    requires Inv(m0, t0, m, i, t, Elements(temps), shut) && i < |m| == |m0| && !Rewrites(m, i)
    requires TempsAt(m0, t0, i, temps, reserved, favourite)
    ensures TempsAt(m0, t0, i + 1, temps, reserved, favourite)
  {
    hide Inv, Spoiled, DestsSafe, Dests, Hostile, NeedsTemp, Rewrites, Distinct, Elements;
    NoElements();
    if Elements(temps) !! Dests(m0) {
      InvNeed(m0, t0, m, i, t, Elements(temps), shut);
    }
  }

  lemma NoElements()
    ensures Elements([]) == {}
  {
  }

  lemma OneElementMore(temps: seq<int>, temp: int)
    requires Distinct(temps)
    ensures Elements(temps + [temp]) == Elements(temps) + {temp}
    ensures temp !in Elements(temps) ==> Distinct(temps + [temp])
  {
    assert forall a :: 0 <= a < |temps| ==> temps[a] in temps;
  }

  lemma TempMade(m0: seq<Arc>, t0: Table, m: seq<Arc>, i: int, t: Table, temps: seq<int>, shut: set<int>,
                 reserved: set<int>, favourite: int, temp: int)
    requires Inv(m0, t0, m, i, t, Elements(temps), shut) && i < |m| == |m0| && Rewrites(m, i)
    requires HandedOut(temp, t, reserved, favourite) && m[i].dest in t
    requires TempsAt(m0, t0, i, temps, reserved, favourite)
    ensures TempsAt(m0, t0, i + 1, temps + [temp], reserved, favourite)
  {
    hide Inv, Spoiled, DestsSafe, Dests, Hostile, NeedsTemp, Distinct, Elements;
    NoElements();
    OneElementMore(temps, temp);
    InvBounds(m0, t0, m, i, t, Elements(temps), shut);
    InvFresh(m0, t0, m, i, t, Elements(temps), shut, reserved, temp);
    if Elements(temps) !! Dests(m0) {
      InvNeed(m0, t0, m, i, t, Elements(temps), shut);
    }
    if temps == [] {
      InvHostile(m0, t0, m, i, t, shut, reserved, favourite);
    }
  }

  // A move, if there was one, was that of arc i.
  ghost predicate MovesArc(moves: seq<Moved>, moves': seq<Moved>, arc: Arc, closed: seq<int>) {
    moves' == moves || (|moves'| == |moves| + 1 && moves' == moves + [moves'[|moves|]]
                        && moves'[|moves|].dest == arc.dest && moves'[|moves|].closedBefore == closed)
  }

  // The pass for arc i: the inner loop, the move, and the close if no later arc took it over.
  method PerformArc(m: array<Arc>, i: int, delegate: Delegate, extraFds: array<int>, next: int,
                    ghost m0: seq<Arc>, ghost t0: Table, ghost temps: seq<int>, ghost shut: set<int>)
    returns (ok: bool, next': int, ghost temps': seq<int>, ghost shut': set<int>)
    requires 0 <= i < m.Length && Remembers(extraFds, next, temps) && (extraFds as object) != (m as object)
    requires Inv(m0, t0, m[..], i, delegate.table, Elements(temps), shut)
    requires TempsAt(m0, t0, i, temps, delegate.reserved, delegate.favourite)
    modifies m, extraFds, delegate`table, delegate`closed, delegate`moves, delegate`failures
    ensures ok <==> delegate.failures == old(delegate.failures)
    ensures delegate.reliable ==> ok
    ensures ok ==> TempsAt(m0, t0, i + 1, temps', delegate.reserved, delegate.favourite)
    ensures TempsFine(m0, t0, temps', delegate.reserved)
    ensures Untouched(m0, t0, delegate.table, Elements(temps'))
    ensures MovesArc(old(delegate.moves), delegate.moves, m0[i], old(delegate.closed))
    ensures ok ==> Remembers(extraFds, next', temps')
    ensures ok ==> Inv(m0, t0, m[..], i + 1, delegate.table, Elements(temps'), shut')
    ensures ok ==> if shut' == shut then delegate.closed == old(delegate.closed)
                   else exists s :: s !in shut && shut' == shut + {s} && delegate.closed == old(delegate.closed) + [s]
    ensures !ok ==> delegate.closed == old(delegate.closed)
  {
    hide Inv, Untouched, TempsAt, TempsFine, HandedOut, Rewrites;
    ghost var pre, before := m[..], delegate.table;
    InvBounds(m0, t0, pre, i, before, Elements(temps), shut);
    InvDests(m0, t0, pre, i, before, Elements(temps), shut);
    InvUntouched(m0, t0, pre, i, before, Elements(temps), shut);
    temps', shut' := temps, shut;
    TempsSoFar(m0, t0, i, temps, delegate.reserved, delegate.favourite);
    var tempFd;
    ok, tempFd, next' := PassOver(m, i, delegate, extraFds, next, temps);
    if tempFd != -1 {
      TempMade(m0, t0, pre, i, before, temps, shut, delegate.reserved, delegate.favourite, tempFd);
      temps' := temps + [tempFd];
      TempsSoFar(m0, t0, i + 1, temps', delegate.reserved, delegate.favourite);
      assert Elements(temps') == Elements(temps) + {tempFd};
    } else if ok {
      NoTempMade(m0, t0, pre, i, before, temps, shut, delegate.reserved, delegate.favourite);
    }
    NotInTable(tempFd, before, delegate.reserved, delegate.favourite);
    UntouchedElsewhere(m0, t0, before, delegate.table, Elements(temps), Elements(temps'));
    if !ok {
      return;
    }
    ghost var post, dup := m[..], tempFd != -1;
    assert post[i] == pre[i].(close := pre[i].close && NoHeir(pre, i, |pre|));

    var isIdentity := m[i].source == m[i].dest;
    if !isIdentity {
      ok := delegate.Move(m[i].source, m[i].dest);
      if !ok {
        return;
      }
    }
    if !isIdentity && m[i].close {
      delegate.Close(m[i].source);
      shut' := shut + {m[i].source};
    }
    NoRewrites(pre, i);
    assert TableStep(pre, post, i, before, delegate.table, dup, tempFd);
    InvStep(m0, t0, pre, post, i, before, delegate.table, Elements(temps), shut, dup, tempFd);
    InvUntouched(m0, t0, post, i + 1, delegate.table, Elements(temps'), shut');
  }

  lemma InvDests(m0: seq<Arc>, t0: Table, m: seq<Arc>, i: int, t: Table, temps: set<int>, shut: set<int>)
    requires Inv(m0, t0, m, i, t, temps, shut)
    ensures |m| == |m0| && forall k :: 0 <= k < |m| ==> m[k].dest == m0[k].dest
  {
  }

  // The last loop: every remembered temporary is open, and is closed.
  method CloseExtras(delegate: Delegate, extraFds: array<int>, next: int, ghost temps: seq<int>)
    requires Remembers(extraFds, next, temps)
    requires Elements(temps) <= delegate.table.Keys
    requires Distinct(temps)
    modifies delegate`table, delegate`closed
    ensures delegate.table == old(delegate.table) - Elements(Recorded(temps))
    ensures delegate.closed == old(delegate.closed) + Recorded(temps)
  {
    ghost var recorded := Recorded(temps);
    for i := 0 to next
      invariant delegate.table == old(delegate.table) - Elements(recorded[..i])
      invariant delegate.closed == old(delegate.closed) + recorded[..i]
    {
      assert extraFds[i] == extraFds[..next][i] == recorded[i] == temps[i];
      assert recorded[i] !in Elements(recorded[..i]);
      assert temps[i] in Elements(temps);
      delegate.Close(extraFds[i]);
      assert Elements(recorded[..i + 1]) == Elements(recorded[..i]) + {recorded[i]};
    }
    assert recorded[..next] == recorded;
  }

  // Moves after the first n: none to the destination of an arc whose source had been closed since the
  // first b closes. So every close of a source comes after its last move.
  ghost predicate ClosedAfterMoves(m0: seq<Arc>, moves: seq<Moved>, n: nat, b: nat) {
    forall q, k :: n <= q < |moves| && 0 <= k < |m0| && m0[k].dest == moves[q].dest ==>
      b <= |moves[q].closedBefore| && m0[k].source !in moves[q].closedBefore[b..]
  }

  lemma InvNotShut(m0: seq<Arc>, t0: Table, m: seq<Arc>, i: int, t: Table, temps: set<int>, shut: set<int>)
    requires Inv(m0, t0, m, i, t, temps, shut) && i < |m0|
    ensures Injective(m0) && m0[i].source !in shut
  {
    assert Live(m0, i, m0[i].source);
  }

  lemma MovesStep(m0: seq<Arc>, moves: seq<Moved>, moves': seq<Moved>, n: nat, i: nat,
                  log: seq<int>, closedSources: seq<int>, shut: set<int>)
    requires Injective(m0) && i < |m0| && n <= |moves| && ClosedAfterMoves(m0, moves, n, |log|)
    requires MovesArc(moves, moves', m0[i], log + closedSources)
    requires multiset(closedSources) == multiset(shut) && m0[i].source !in shut
    ensures n <= |moves'| && ClosedAfterMoves(m0, moves', n, |log|)
  {
    assert (log + closedSources)[|log|..] == closedSources;
    assert m0[i].source !in multiset(closedSources);
    forall k | 0 <= k < |m0| && m0[k].dest == m0[i].dest ensures k == i {
      DestIndexOf(m0, k);
      DestIndexOf(m0, i);
    }
  }

  lemma TempsStart(m0: seq<Arc>, t0: Table, reserved: set<int>, favourite: int)
    ensures TempsAt(m0, t0, 0, [], reserved, favourite)
    ensures Elements([]) == {}
  {
  }

  // The outer loop.
  method PerformArcs(m: array<Arc>, delegate: Delegate, extraFds: array<int>)
    returns (ok: bool, next: int, ghost temps: seq<int>, ghost closedSources: seq<int>, ghost shut: set<int>)
    requires Injective(m[..]) && SourcesOpen(m[..], delegate.table)
    requires Remembers(extraFds, 0, []) && (extraFds as object) != (m as object)
    modifies m, extraFds, delegate`table, delegate`closed, delegate`moves, delegate`failures
    ensures ok <==> delegate.failures == old(delegate.failures)
    ensures delegate.reliable ==> ok
    ensures ok ==> Inv(old(m[..]), old(delegate.table), m[..], m.Length, delegate.table, Elements(temps), shut)
    ensures ok ==> Remembers(extraFds, next, temps)
    ensures ok ==> TempsAt(old(m[..]), old(delegate.table), m.Length, temps, delegate.reserved, delegate.favourite)
    ensures ok ==> multiset(closedSources) == multiset(shut) && delegate.closed == old(delegate.closed) + closedSources
    ensures TempsFine(old(m[..]), old(delegate.table), temps, delegate.reserved)
    ensures ClosedAfterMoves(old(m[..]), delegate.moves, |old(delegate.moves)|, |old(delegate.closed)|)
    ensures Untouched(old(m[..]), old(delegate.table), delegate.table, Elements(temps))
  {
    hide Inv, Untouched, TempsAt, TempsFine, ClosedAfterMoves, MovesArc, Remembers, Elements;
    ghost var m0, t0, log, moved := m[..], delegate.table, delegate.closed, delegate.moves;
    ok, next, temps, closedSources, shut := true, 0, [], [], {};
    InvInitially(m0, t0);
    TempsStart(m0, t0, delegate.reserved, delegate.favourite);
    TempsSoFar(m0, t0, 0, temps, delegate.reserved, delegate.favourite);
    NoMoves(m0, moved, |log|);
    InvUntouched(m0, t0, m0, 0, t0, {}, {});
    for i := 0 to m.Length
      invariant Inv(m0, t0, m[..], i, delegate.table, Elements(temps), shut)
      invariant TempsAt(m0, t0, i, temps, delegate.reserved, delegate.favourite)
      invariant TempsFine(m0, t0, temps, delegate.reserved)
      invariant multiset(closedSources) == multiset(shut)
      invariant ok && delegate.closed == log + closedSources && delegate.failures == old(delegate.failures)
      invariant |moved| <= |delegate.moves| && ClosedAfterMoves(m0, delegate.moves, |moved|, |log|)
      invariant Remembers(extraFds, next, temps)
      invariant Untouched(m0, t0, delegate.table, Elements(temps))
    {
      ghost var shutBefore, movesBefore := shut, delegate.moves;
      InvNotShut(m0, t0, m[..], i, delegate.table, Elements(temps), shut);
      ok, next, temps, shut := PerformArc(m, i, delegate, extraFds, next, m0, t0, temps, shut);
      MovesStep(m0, movesBefore, delegate.moves, |moved|, i, log, closedSources, shutBefore);
      if !ok {
        return;
      }
      if shut != shutBefore {
        ghost var s :| s !in shutBefore && shut == shutBefore + {s} && delegate.closed == log + closedSources + [s];
        closedSources := closedSources + [s];
      }
    }
  }

  method PerformInjectiveMultimapDestructive(m: array<Arc>, delegate: Delegate)
    returns (ok: bool, ghost temps: seq<int>, ghost closedSources: seq<int>)
    requires Injective(m[..]) && SourcesOpen(m[..], delegate.table)
    modifies m, delegate`table, delegate`closed, delegate`moves, delegate`failures
    // It fails only when a call on the delegate does.
    ensures ok <==> delegate.failures == old(delegate.failures)
    ensures delegate.reliable ==> ok
    // On success the table is exactly what the map asks for, up to the temporaries.
    ensures ok ==> Outcome(old(m[..]), old(delegate.table), delegate.table, temps)
    // Each source that is due is closed once, and then each recorded temporary.
    ensures ok ==> multiset(closedSources) == multiset(Closable(old(m[..])))
    ensures ok ==> delegate.closed == old(delegate.closed) + closedSources + Recorded(temps)
    // The first sixteen temporaries are closed, and no other; up to 17 arcs make no more than that.
    ensures ok ==> delegate.closed == old(delegate.closed) + closedSources + if |temps| <= 16 then temps else temps[..16]
    ensures ok ==> forall j :: 0 <= j < |temps| ==> (temps[j] in delegate.table <==> j >= 16)
    ensures m.Length <= 17 ==> |temps| <= 16
    // No move from a source follows its close.
    ensures ClosedAfterMoves(old(m[..]), delegate.moves, |old(delegate.moves)|, |old(delegate.closed)|)
    // Temporaries are made for the arcs that need one.
    ensures ok ==> TempsAt(old(m[..]), old(delegate.table), m.Length, temps, delegate.reserved, delegate.favourite)
    ensures TempsFine(old(m[..]), old(delegate.table), temps, delegate.reserved)
    // Whether or not a call failed on the way, other descriptors are as they were.
    ensures Untouched(old(m[..]), old(delegate.table), delegate.table, Elements(temps))
  {
    hide Inv, Spoiled, DestsSafe, Untouched, Outcome, Closable, TempsAt, TempsFine, ClosedAfterMoves;
    var extraFds := new int[MAX_EXTRA_FDS];
    assert extraFds[..0] == [];
    ghost var m0, t0 := m[..], delegate.table;
    ghost var shut;
    var nextExtraFd;
    ok, nextExtraFd, temps, closedSources, shut := PerformArcs(m, delegate, extraFds);
    DistinctTemps(m0, t0, temps, delegate.reserved);
    if !ok {
      return;
    }
    hide Elements, Dests, Distinct;
    ghost var done := delegate.table;
    InvBounds(m0, t0, m[..], m.Length, done, Elements(temps), shut);
    InvDone(m0, t0, m[..], done, Elements(temps), shut);
    CloseExtras(delegate, extraFds, nextExtraFd, temps);
    OutcomeReached(m0, t0, done, delegate.table, temps);
    RecordedAmong(temps);
    SixteenClosed(m0, t0, delegate.table, temps);
    UntouchedElsewhere(m0, t0, done, delegate.table, Elements(temps), Elements(temps));
  }

  lemma DistinctTemps(m0: seq<Arc>, t0: Table, temps: seq<int>, reserved: set<int>)
    requires TempsFine(m0, t0, temps, reserved)
    ensures Distinct(temps) && (|temps| < |m0| || temps == [])
    ensures !Spoiled(m0) && DestsSafe(m0, t0, reserved) ==> Elements(temps) !! Dests(m0)
  {
    hide Spoiled, DestsSafe;
  }

  lemma NoMoves(m0: seq<Arc>, moves: seq<Moved>, b: nat)
    ensures ClosedAfterMoves(m0, moves, |moves|, b)
  {
  }

  // The variant that leaves the caller's map alone.
  method PerformInjectiveMultimap(mIn: seq<Arc>, delegate: Delegate)
    returns (ok: bool, ghost temps: seq<int>, ghost closedSources: seq<int>)
    requires Injective(mIn) && SourcesOpen(mIn, delegate.table)
    modifies delegate`table, delegate`closed, delegate`moves, delegate`failures
    ensures ok <==> delegate.failures == old(delegate.failures)
    ensures delegate.reliable ==> ok
    ensures ok ==> Outcome(mIn, old(delegate.table), delegate.table, temps)
    // Delivery, whatever the delegate hands out.
    ensures ok && !Spoiled(mIn) && DestsSafe(mIn, old(delegate.table), delegate.reserved) ==>
              Delivered(mIn, old(delegate.table), delegate.table)
    // Otherwise the delegate decides.
    ensures ok && Spoiled(mIn) && Dests(mIn) <= delegate.reserved ==> !Delivered(mIn, old(delegate.table), delegate.table)
    ensures ok && Hostile(mIn, old(delegate.table), delegate.reserved, delegate.favourite) ==>
              delegate.favourite !in delegate.table && !Delivered(mIn, old(delegate.table), delegate.table)
    ensures ok && |mIn| <= 17 ==>
              (Delivered(mIn, old(delegate.table), delegate.table) <==>
               !Spoiled(mIn) && Elements(temps) !! Dests(mIn))
    ensures ok ==> multiset(closedSources) == multiset(Closable(mIn))
    ensures ok ==> delegate.closed == old(delegate.closed) + closedSources + if |temps| <= 16 then temps else temps[..16]
    ensures ok ==> forall j :: 0 <= j < |temps| ==> (temps[j] in delegate.table <==> j >= 16)
    ensures |mIn| <= 17 ==> |temps| <= 16
    ensures ClosedAfterMoves(mIn, delegate.moves, |old(delegate.moves)|, |old(delegate.closed)|)
    ensures ok ==> (temps == [] <==> TempsNeeded(mIn, |mIn|) == 0)
    ensures ok && Elements(temps) !! Dests(mIn) ==> |temps| == TempsNeeded(mIn, |mIn|)
    ensures |temps| < |mIn| || temps == []
    ensures Untouched(mIn, old(delegate.table), delegate.table, Elements(temps))
  {
    hide Spoiled, DestsSafe, Untouched, Outcome, Closable, Delivered, TempsAt, TempsFine, ClosedAfterMoves, Hostile, Dests, Elements;
    var m := new Arc[|mIn|](k requires 0 <= k < |mIn| => mIn[k]);
    assert m[..] == mIn;
    ghost var t0 := delegate.table;
    ok, temps, closedSources := PerformInjectiveMultimapDestructive(m, delegate);
    DistinctTemps(mIn, t0, temps, delegate.reserved);
    if ok {
      OutcomeDelivers(mIn, t0, delegate.table, temps);
      RecordedAmong(temps);
      OutcomeLoses(mIn, t0, delegate.table, temps, delegate.reserved, delegate.favourite);
    }
  }

  lemma OutcomeLoses(m: seq<Arc>, t: Table, r: Table, temps: seq<int>, reserved: set<int>, favourite: int)
    requires Injective(m) && SourcesOpen(m, t) && Outcome(m, t, r, temps)
    requires TempsAt(m, t, |m|, temps, reserved, favourite)
    ensures Spoiled(m) && Dests(m) <= reserved ==> !Delivered(m, t, r)
    ensures Hostile(m, t, reserved, favourite) ==> favourite !in r && !Delivered(m, t, r)
    ensures temps == [] <==> TempsNeeded(m, |m|) == 0
    ensures Elements(temps) !! Dests(m) ==> |temps| == TempsNeeded(m, |m|)
  {
    if Spoiled(m) && Dests(m) <= reserved {
      SpoiledIsLost(m, t, r, temps, reserved);
    }
    if Hostile(m, t, reserved, favourite) {
      HostileIsLost(m, t, r, temps, reserved, favourite);
    }
  }

  lemma SpoiledIsLost(m: seq<Arc>, t: Table, r: Table, temps: seq<int>, reserved: set<int>)
    requires Injective(m) && SourcesOpen(m, t) && Outcome(m, t, r, temps)
    requires Spoiled(m) && Dests(m) <= reserved && Elements(temps) !! reserved
    ensures !Delivered(m, t, r)
  {
    hide Expected, DestIndex;
    var i :| 0 <= i < |m| && SpoiledAt(m, i);
    assert m[i].dest in Dests(m) && m[i].dest !in Elements(temps);
    ClosedDestination(m, i);
    ExpectedAt(m, t, m[i].dest);
  }

  lemma HostileIsLost(m: seq<Arc>, t: Table, r: Table, temps: seq<int>, reserved: set<int>, favourite: int)
    requires Injective(m) && SourcesOpen(m, t) && Outcome(m, t, r, temps)
    requires TempsAt(m, t, |m|, temps, reserved, favourite) && Hostile(m, t, reserved, favourite)
    ensures favourite !in r && !Delivered(m, t, r)
  {
    hide Expected, Spoiled, DestsSafe;
    var i, k :| Exposed(m, t, reserved, i, k) && m[k].dest == favourite;
    NeededCounts(m, i, |m|);
    assert Recorded(temps)[0] == favourite && favourite in Elements(Recorded(temps));
  }

  // For every map there is a delegate, with these reserved descriptors at least, for which the run
  // succeeds and delivers if and only if no identity is spoiled and no destination is exposed. As every
  // successful run delivers in that case, this says exactly when the map can be relied on.
  method WorstRun(mIn: seq<Arc>, t: Table, reserved: set<int>) returns (delegate: Delegate, ok: bool)
    requires Injective(mIn) && SourcesOpen(mIn, t)
    ensures fresh(delegate) && reserved <= delegate.reserved && ok
    ensures Delivered(mIn, t, delegate.table) <==> !Spoiled(mIn) && DestsSafe(mIn, t, reserved)
  {
    hide Delivered, Untouched, Outcome, NeedsTemp, SpoiledAt, Available;
    var favourite, shunned := -1, reserved;
    if Spoiled(mIn) {
      shunned := reserved + Dests(mIn);
    } else if !DestsSafe(mIn, t, reserved) {
      var i, k :| 0 <= i < |mIn| && 0 <= k < |mIn| && Exposed(mIn, t, reserved, i, k);
      favourite := mIn[k].dest;
    }
    delegate := new Delegate(t, shunned, favourite, true);
    ghost var temps, closedSources;
    ok, temps, closedSources := PerformInjectiveMultimap(mIn, delegate);
  }

  // The smallest map that depends on what dup hands out: with 2 not open, 0 -> 1 and 1 -> 2. The lowest
  // descriptor that is not open is 2, so it is handed out for the copy of 1, and destination 2 is closed
  // with the temporaries.
  method DupHitsDestination() returns (delegate: Delegate, ok: bool)
    ensures fresh(delegate) && delegate.reserved == {} && ok
    ensures !Delivered([Arc(0, 1, false), Arc(1, 2, false)], map[0 := 10, 1 := 11], delegate.table)
    ensures 2 !in delegate.table
  {
    var m, t: Table := [Arc(0, 1, false), Arc(1, 2, false)], map[0 := 10, 1 := 11];
    assert m[1].source == m[0].dest && Live(m, 1, 1);
    assert Exposed(m, t, {}, 0, 1);
    delegate := new Delegate(t, {}, 2, true);
    ghost var temps, closedSources;
    ok, temps, closedSources := PerformInjectiveMultimap(m, delegate);
  }
}
