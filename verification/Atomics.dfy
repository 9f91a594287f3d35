// The compare-exchange retry loops of base/atomicops_internals_arm_gcc.h on one shared 32-bit word,
// as program counters of any number of threads, and their users base/atomic_ref_count.h and
// base/atomic_sequence_num.h. Steps are sequentially consistent.

module Atomics {
  import opened Options

  const MODULUS := 0x1_0000_0000

  type Atomic32 = x: int | -0x8000_0000 <= x < 0x8000_0000

  // Two's complement wrap-around.
  function Wrap32(x: int): Atomic32 {
    (x + 0x8000_0000) % MODULUS - 0x8000_0000
  }

  lemma WrapAdd(x: int, y: int)
    ensures Wrap32(Wrap32(x) + y) == Wrap32(x + y)
  {
  }

  lemma WrapIsZero(x: int)
    requires 0 <= x < MODULUS
    ensures Wrap32(x) == 0 <==> x == 0
  {
  }

  lemma WrapDistinct(x: int, y: int)
    requires x < y < x + MODULUS
    ensures Wrap32(x) != Wrap32(y)
  {
  }

  // ---------- The atomic specification ----------

  datatype Op =
    | CompareAndSwap(oldValue: Atomic32, newValue: Atomic32)
    | Exchange(value: Atomic32)
    | Increment(increment: Atomic32)
    | Store(stored: Atomic32)
    | Load

  // The word after an operation done in one instant.
  function Apply(op: Op, word: Atomic32): Atomic32 {
    match op
    case CompareAndSwap(oldValue, newValue) => if word == oldValue then newValue else word
    case Exchange(value) => value
    case Increment(increment) => Wrap32(word + increment)
    case Store(stored) => stored
    case Load => word
  }

  // What it returns. A store returns nothing; the value stored stands for that.
  function Result(op: Op, word: Atomic32): Atomic32 {
    match op
    case Increment(increment) => Wrap32(word + increment)
    case Store(stored) => stored
    case _ => word
  }

  // ---------- The threads ----------

  // Where a thread is in its call.
  datatype Pc =
    | Idle
    | Start(op: Op)
    | Loaded(op: Op, seen: Atomic32)
    | Reload(oldValue: Atomic32, newValue: Atomic32)
    | Done(op: Op, result: Atomic32)

  datatype Event =
    | Invoked(thread: nat, op: Op)
    | Committed(thread: nat, op: Op, result: Atomic32)
    | Returned(thread: nat, op: Op, result: Atomic32)

  datatype State = State(word: Atomic32, pcs: seq<Pc>, history: seq<Event>)

  // Proceed makes one memory access; spurious lets a kernel compare-exchange fail without cause.
  datatype Action = Call(op: Op) | Proceed(spurious: bool) | Return

  datatype Turn = Turn(thread: nat, action: Action)

  // The kernel's compare-exchange: does it store the new value?
  predicate Exchanges(word: Atomic32, expected: Atomic32, spurious: bool) {
    word == expected && !spurious
  }

  function Goto(s: State, t: nat, pc: Pc): State
    requires t < |s.pcs|
  {
    s.(pcs := s.pcs[t := pc])
  }

  // The access at which a call takes effect.
  function Commit(s: State, t: nat, op: Op, word: Atomic32, result: Atomic32): State
    requires t < |s.pcs|
  {
    State(word, s.pcs[t := Done(op, result)], s.history + [Committed(t, op, result)])
  }

  function Attempt(s: State, t: nat, op: Op, seen: Atomic32, spurious: bool): State
    requires t < |s.pcs|
  {
    match op
    case CompareAndSwap(oldValue, newValue) =>
      if Exchanges(s.word, oldValue, spurious) then Commit(s, t, op, newValue, oldValue)
      else Goto(s, t, Reload(oldValue, newValue))
    case Exchange(value) =>
      if Exchanges(s.word, seen, spurious) then Commit(s, t, op, value, seen) else Goto(s, t, Start(op))
    case Increment(increment) =>
      var newValue := Wrap32(seen + increment);
      if Exchanges(s.word, seen, spurious) then Commit(s, t, op, newValue, newValue) else Goto(s, t, Start(op))
    case _ => s
  }

  function Advance(s: State, t: nat, spurious: bool): State
    requires t < |s.pcs|
  {
    match s.pcs[t]
    case Start(op) =>
      if op.Load? then Commit(s, t, op, s.word, s.word)
      else if op.Store? then Commit(s, t, op, op.stored, op.stored)
      else Goto(s, t, Loaded(op, s.word))
    case Loaded(op, seen) => Attempt(s, t, op, seen, spurious)
    case Reload(oldValue, newValue) =>
      if s.word == oldValue then Goto(s, t, Loaded(CompareAndSwap(oldValue, newValue), s.word))
      else Commit(s, t, CompareAndSwap(oldValue, newValue), s.word, s.word)
    case _ => s
  }

  // A turn that its thread cannot take changes nothing.
  function Step(s: State, turn: Turn): State {
    var t := turn.thread;
    if t >= |s.pcs| then s
    else
      match turn.action
      case Call(op) =>
        if s.pcs[t].Idle? then State(s.word, s.pcs[t := Start(op)], s.history + [Invoked(t, op)]) else s
      case Return =>
        if s.pcs[t].Done? then
          State(s.word, s.pcs[t := Idle], s.history + [Returned(t, s.pcs[t].op, s.pcs[t].result)])
        else s
      case Proceed(spurious) => Advance(s, t, spurious)
  }

  function Initial(word: Atomic32, threads: nat): State {
    State(word, seq(threads, _ => Idle), [])
  }

  // Any interleaving: a schedule names the turns in order.
  function Execute(s: State, schedule: seq<Turn>): State {
    if schedule == [] then s
    else Step(Execute(s, schedule[..|schedule| - 1]), schedule[|schedule| - 1])
  }

  // ---------- Linearizability ----------

  // The word when the committed operations happen one after the other.
  function Replay(word: Atomic32, history: seq<Event>): Atomic32 {
    if history == [] then word
    else
      var last, before := history[|history| - 1], Replay(word, history[..|history| - 1]);
      if last.Committed? then Apply(last.op, before) else before
  }

  // Each operation returns what the atomic one returns at that instant.
  ghost predicate Legal(word: Atomic32, history: seq<Event>) {
    forall i :: 0 <= i < |history| && history[i].Committed? ==>
      history[i].result == Result(history[i].op, Replay(word, history[..i]))
  }

  // The last event of a thread.
  function Latest(history: seq<Event>, t: nat): Option<Event> {
    if history == [] then None
    else if history[|history| - 1].thread == t then Some(history[|history| - 1])
    else Latest(history[..|history| - 1], t)
  }

  // May e come next? A thread invokes, commits that operation once, and returns its result.
  predicate Fits(history: seq<Event>, e: Event) {
    var latest := Latest(history, e.thread);
    match e
    case Invoked(t, op) => latest == None || latest.value.Returned?
    case Committed(t, op, result) => latest == Some(Invoked(t, op))
    case Returned(t, op, result) => latest == Some(Committed(t, op, result))
  }

  ghost predicate Paired(history: seq<Event>) {
    forall i :: 0 <= i < |history| ==> Fits(history[..i], history[i])
  }

  // The program counter of t agrees with its last event.
  predicate PcFits(pc: Pc, t: nat, latest: Option<Event>) {
    match pc
    case Idle => latest == None || latest.value.Returned?
    case Start(op) => latest == Some(Invoked(t, op))
    case Loaded(op, _) => latest == Some(Invoked(t, op))
    case Reload(oldValue, newValue) => latest == Some(Invoked(t, CompareAndSwap(oldValue, newValue)))
    case Done(op, result) => latest == Some(Committed(t, op, result))
  }

  ghost predicate Inv(word: Atomic32, s: State) {
    && s.word == Replay(word, s.history)
    && Legal(word, s.history)
    && Paired(s.history)
    && forall t :: 0 <= t < |s.pcs| ==> PcFits(s.pcs[t], t, Latest(s.history, t))
  }

  lemma HistoryGrows(word: Atomic32, history: seq<Event>, e: Event)
    requires Legal(word, history) && Paired(history) && Fits(history, e)
    requires e.Committed? ==> e.result == Result(e.op, Replay(word, history))
    ensures Legal(word, history + [e]) && Paired(history + [e])
    ensures Replay(word, history + [e]) == if e.Committed? then Apply(e.op, Replay(word, history)) else Replay(word, history)
    ensures forall t: nat :: Latest(history + [e], t) == if t == e.thread then Some(e) else Latest(history, t)
  {
    var longer := history + [e];
    assert longer[..|history|] == history;
    forall i | 0 <= i < |longer| ensures Fits(longer[..i], longer[i]) {
      assert longer[..i] == history[..i];
    }
    forall i | 0 <= i < |longer| && longer[i].Committed?
      ensures longer[i].result == Result(longer[i].op, Replay(word, longer[..i]))
    {
      assert longer[..i] == history[..i] && (i == |history| ==> longer[..i] == history);
    }
  }

  // One thread moves, with or without an event.
  lemma Moved(word: Atomic32, s: State, s': State, t: nat, e: Option<Event>)
    requires Inv(word, s) && t < |s.pcs| == |s'.pcs| && s'.pcs == s.pcs[t := s'.pcs[t]]
    requires e.None? ==> s'.history == s.history && s'.word == s.word
    requires e.Some? ==> s'.history == s.history + [e.value] && e.value.thread == t && Fits(s.history, e.value)
    requires e.Some? && e.value.Committed? ==> e.value.result == Result(e.value.op, s.word) && s'.word == Apply(e.value.op, s.word)
    requires e.Some? && !e.value.Committed? ==> s'.word == s.word
    requires PcFits(s'.pcs[t], t, if e.Some? then e else Latest(s.history, t))
    ensures Inv(word, s')
  {
    hide Fits, Apply, Result, Replay, Latest, Legal, Paired, PcFits;
    if e.Some? {
      HistoryGrows(word, s.history, e.value);
    }
  }

  lemma AttemptKeeps(word: Atomic32, s: State, t: nat, spurious: bool)
    requires Inv(word, s) && t < |s.pcs| && s.pcs[t].Loaded?
    ensures Inv(word, Advance(s, t, spurious))
  {
    var s' := Advance(s, t, spurious);
    var op := s.pcs[t].op;
    assert PcFits(s.pcs[t], t, Latest(s.history, t));
    hide Inv, Legal, Paired, Replay, Latest, Wrap32;
    if |s'.history| > |s.history| {
      Moved(word, s, s', t, Some(s'.history[|s.history|]));
    } else {
      Moved(word, s, s', t, None);
    }
  }

  lemma StepKeeps(word: Atomic32, s: State, turn: Turn)
    requires Inv(word, s)
    ensures Inv(word, Step(s, turn))
  {
    var s', t := Step(s, turn), turn.thread;
    if t < |s.pcs| {
      assert PcFits(s.pcs[t], t, Latest(s.history, t));
      hide Inv, Legal, Paired, Replay, Latest, Attempt;
      if turn.action.Proceed? && s.pcs[t].Loaded? {
        AttemptKeeps(word, s, t, turn.action.spurious);
      } else if |s'.history| > |s.history| {
        Moved(word, s, s', t, Some(s'.history[|s.history|]));
      } else {
        Moved(word, s, s', t, None);
      }
    }
  }

  // Linearizability: in every state of every interleaving the operations took effect one at a time,
  // each between its invocation and its return, with the results of the atomic specification, and
  // the word is what they leave. Spurious failures and A-B-A changes make no difference.
  lemma {:induction false} Linearizable(word: Atomic32, threads: nat, schedule: seq<Turn>)
    ensures Inv(word, Execute(Initial(word, threads), schedule))
  {
    hide Inv, Step;
    if schedule == [] {
      InitialFits(word, threads);
    } else {
      Linearizable(word, threads, schedule[..|schedule| - 1]);
      StepKeeps(word, Execute(Initial(word, threads), schedule[..|schedule| - 1]), schedule[|schedule| - 1]);
    }
  }

  lemma InitialFits(word: Atomic32, threads: nat)
    ensures Inv(word, Initial(word, threads))
  {
  }

  lemma {:induction false} LatestIs(history: seq<Event>, t: nat) returns (k: nat)
    requires Latest(history, t).Some?
    ensures k < |history| && history[k].thread == t && Latest(history, t) == Some(history[k])
    ensures forall j :: k < j < |history| ==> history[j].thread != t
  {
    if history[|history| - 1].thread == t {
      k := |history| - 1;
    } else {
      k := LatestIs(history[..|history| - 1], t);
    }
  }

  // A call that returned: its one commit, of the same operation and result, and before it its invocation,
  // with no other event of the thread between them.
  lemma CallOf(history: seq<Event>, i: nat) returns (invoked: nat, committed: nat)
    requires Paired(history) && i < |history| && history[i].Returned?
    ensures invoked < committed < i
    ensures history[invoked] == Invoked(history[i].thread, history[i].op)
    ensures history[committed] == Committed(history[i].thread, history[i].op, history[i].result)
    ensures forall j :: invoked < j < i && j != committed ==> history[j].thread != history[i].thread
  {
    assert Fits(history[..i], history[i]);
    committed := LatestIs(history[..i], history[i].thread);
    assert history[..i][committed] == history[committed];
    assert Fits(history[..committed], history[committed]);
    invoked := LatestIs(history[..committed], history[i].thread);
    assert history[..committed][invoked] == history[invoked];
    hide Fits, Latest;
    assert forall j :: committed < j < i ==> history[..i][j] == history[j];
    assert forall j :: invoked < j < committed ==> history[..committed][j] == history[j];
  }

  // Calls that do not overlap take effect in the order in which they were made.
  lemma RealTimeOrder(history: seq<Event>, i: nat, invoked: nat, j: nat) returns (first: nat, second: nat)
    requires Paired(history) && i < invoked < j < |history| && history[i].Returned? && history[j].Returned?
    requires history[invoked] == Invoked(history[j].thread, history[j].op)
    requires forall k :: invoked < k < j && history[k].thread == history[j].thread ==> history[k].Committed?
    ensures first < i < invoked < second < j
    ensures history[first] == Committed(history[i].thread, history[i].op, history[i].result)
    ensures history[second] == Committed(history[j].thread, history[j].op, history[j].result)
  {
    hide Paired;
    var a, b;
    a, first := CallOf(history, i);
    b, second := CallOf(history, j);
  }

  // ---------- Progress ----------

  // seen was the word after the first k events, since when t has done nothing else.
  ghost predicate SeenAt(word: Atomic32, history: seq<Event>, t: nat, seen: Atomic32, k: nat) {
    && k <= |history| && seen == Replay(word, history[..k])
    && forall j :: k <= j < |history| ==> history[j].thread != t
  }

  ghost predicate Seen(word: Atomic32, s: State) {
    forall t :: 0 <= t < |s.pcs| && s.pcs[t].Loaded? ==> exists k: nat :: SeenAt(word, s.history, t, s.pcs[t].seen, k)
  }

  lemma SeenNow(word: Atomic32, history: seq<Event>, t: nat)
    ensures SeenAt(word, history, t, Replay(word, history), |history|)
  {
    assert history[..|history|] == history;
  }

  lemma SeenStill(word: Atomic32, history: seq<Event>, t: nat, seen: Atomic32, k: nat, e: Event)
    requires SeenAt(word, history, t, seen, k) && e.thread != t
    ensures SeenAt(word, history + [e], t, seen, k)
  {
    assert (history + [e])[..k] == history[..k];
  }

  // What one turn does to the history and to the program counters.
  lemma StepShape(s: State, turn: Turn)
    ensures var s', t := Step(s, turn), turn.thread;
      && |s'.pcs| == |s.pcs|
      && (forall u :: 0 <= u < |s.pcs| && u != t ==> s'.pcs[u] == s.pcs[u])
      && (s'.history == s.history ||
          (|s'.history| == |s.history| + 1 && s'.history == s.history + [s'.history[|s.history|]]
           && s'.history[|s.history|].thread == t))
      && (t < |s.pcs| && s'.pcs[t].Loaded? ==>
            s'.history == s.history && (s'.pcs[t].seen == s.word || s'.pcs[t] == s.pcs[t]))
  {
    hide Wrap32;
  }

  lemma SeenStep(word: Atomic32, s: State, turn: Turn)
    requires s.word == Replay(word, s.history) && Seen(word, s)
    ensures Seen(word, Step(s, turn))
  {
    StepShape(s, turn);
    hide Step, SeenAt, Replay;
    var s' := Step(s, turn);
    forall t | 0 <= t < |s'.pcs| && s'.pcs[t].Loaded? ensures exists k: nat :: SeenAt(word, s'.history, t, s'.pcs[t].seen, k) {
      SeenNow(word, s.history, t);
      if s'.pcs[t] == s.pcs[t] {
        var k: nat :| SeenAt(word, s.history, t, s.pcs[t].seen, k);
        if s'.history != s.history && turn.thread != t {
          SeenStill(word, s.history, t, s.pcs[t].seen, k, s'.history[|s.history|]);
        }
      }
    }
  }

  lemma {:induction false} AlwaysSeen(word: Atomic32, threads: nat, schedule: seq<Turn>)
    ensures Seen(word, Execute(Initial(word, threads), schedule))
  {
    hide Step, SeenAt, Inv;
    if schedule != [] {
      var before := Execute(Initial(word, threads), schedule[..|schedule| - 1]);
      AlwaysSeen(word, threads, schedule[..|schedule| - 1]);
      Linearizable(word, threads, schedule[..|schedule| - 1]);
      assert before.word == Replay(word, before.history) by { WordIsReplayed(word, before); }
      SeenStep(word, before, schedule[|schedule| - 1]);
    }
  }

  lemma WordIsReplayed(word: Atomic32, s: State)
    requires Inv(word, s)
    ensures s.word == Replay(word, s.history)
  {
  }

  lemma {:induction false} CommitBetween(word: Atomic32, history: seq<Event>, k: nat) returns (j: nat)
    requires k <= |history| && Replay(word, history[..k]) != Replay(word, history)
    ensures k <= j < |history| && history[j].Committed?
    decreases |history|
  {
    assert history[..|history|] == history;
    var last := |history| - 1;
    if history[last].Committed? {
      j := last;
    } else {
      assert history[..last][..k] == history[..k];
      j := CommitBetween(word, history[..last], k);
    }
  }

  // What the kernel's compare-exchange compares the word with.
  function Expected(op: Op, seen: Atomic32): Atomic32 {
    if op.CompareAndSwap? then op.oldValue else seen
  }

  // A compare-exchange that must fail, although the thread had loaded what it expects, has been
  // overtaken: since that load another thread's operation has taken effect. So the loops are lock-free,
  // as far as the kernel does not fail without cause.
  lemma OvertakenByCommit(word: Atomic32, threads: nat, schedule: seq<Turn>, t: nat) returns (loaded: nat, j: nat)
    requires var s := Execute(Initial(word, threads), schedule);
      && t < |s.pcs| && s.pcs[t].Loaded?
      && var expected := Expected(s.pcs[t].op, s.pcs[t].seen);
      && s.pcs[t].seen == expected && !Exchanges(s.word, expected, false)
    ensures var s := Execute(Initial(word, threads), schedule);
      && SeenAt(word, s.history, t, s.pcs[t].seen, loaded)
      && loaded <= j < |s.history| && s.history[j].Committed? && s.history[j].thread != t
  {
    hide Execute, Inv;
    var s := Execute(Initial(word, threads), schedule);
    AlwaysSeen(word, threads, schedule);
    Linearizable(word, threads, schedule);
    WordIsReplayed(word, s);
    var k: nat :| SeenAt(word, s.history, t, s.pcs[t].seen, k);
    loaded := k;
    j := CommitBetween(word, s.history, k);
  }

  // Only the loops load the word before they act on it.
  ghost predicate Looping(s: State) {
    forall t :: 0 <= t < |s.pcs| && s.pcs[t].Loaded? ==> !s.pcs[t].op.Load? && !s.pcs[t].op.Store?
  }

  lemma {:induction false} AlwaysLooping(word: Atomic32, threads: nat, schedule: seq<Turn>)
    ensures var s := Execute(Initial(word, threads), schedule); Looping(s) && |s.pcs| == threads
  {
    hide Wrap32;
    if schedule != [] {
      AlwaysLooping(word, threads, schedule[..|schedule| - 1]);
    }
  }

  lemma ThreeAccesses(s: State, t: nat)
    requires Looping(s) && t < |s.pcs| && !s.pcs[t].Idle?
    ensures var p := Turn(t, Proceed(false)); Step(Step(Step(s, p), p), p).pcs[t].Done?
  {
    hide Wrap32;
  }

  // A thread in a call that goes on alone, with a kernel that does not fail without cause, is through
  // after at most three accesses.
  lemma AloneFinishes(word: Atomic32, threads: nat, schedule: seq<Turn>, t: nat)
    requires t < threads && |Execute(Initial(word, threads), schedule).pcs| == threads
    requires !Execute(Initial(word, threads), schedule).pcs[t].Idle?
    ensures var p := Turn(t, Proceed(false));
      var s := Execute(Initial(word, threads), schedule + [p, p, p]);
      t < |s.pcs| && s.pcs[t].Done?
  {
    hide Step, Initial;
    var p, start := Turn(t, Proceed(false)), Initial(word, threads);
    AlwaysLooping(word, threads, schedule);
    AlwaysLooping(word, threads, schedule + [p, p, p]);
    ThreeAccesses(Execute(start, schedule), t);
    OneMore(start, schedule, p);
    OneMore(start, schedule + [p], p);
    OneMore(start, schedule + [p] + [p], p);
    assert schedule + [p] + [p] + [p] == schedule + [p, p, p];
  }

  lemma OneMore(s: State, schedule: seq<Turn>, turn: Turn)
    ensures Execute(s, schedule + [turn]) == Step(Execute(s, schedule), turn)
  {
    assert (schedule + [turn])[..|schedule|] == schedule;
  }

  // ---------- What each operation returns ----------

  // The value left by the last operation that set the word: the first value, the value of an exchange or
  // a store, the result of an increment, or the new value of a compare-and-swap that returned the old one.
  function Left(word: Atomic32, history: seq<Event>): Atomic32 {
    if history == [] then word
    else
      var before := Left(word, history[..|history| - 1]);
      match history[|history| - 1]
      case Committed(_, Exchange(value), _) => value
      case Committed(_, Store(stored), _) => stored
      case Committed(_, Increment(_), result) => result
      case Committed(_, CompareAndSwap(oldValue, newValue), result) => if result == oldValue then newValue else before
      case _ => before
  }

  // May the operation return this where it finds the word before? Of an increment, the sum up to 2^32.
  predicate Returns(op: Op, result: Atomic32, before: Atomic32) {
    match op
    case CompareAndSwap(_, _) => result == before
    case Exchange(_) => result == before
    case Load => result == before
    case Increment(increment) => (result - before - increment) % 0x1_0000_0000 == 0
    case Store(_) => true
  }

  lemma WrapIsCongruent(x: int)
    ensures (Wrap32(x) - x) % 0x1_0000_0000 == 0
  {
  }

  lemma TurnReturns(s: State, turn: Turn)
    ensures var s', n := Step(s, turn), |s.history|;
      && s.history <= s'.history && |s'.history| <= n + 1
      && (|s'.history| == n || !s'.history[n].Committed? ==> s'.word == s.word)
      && (|s'.history| == n + 1 && s'.history[n].Committed? ==> Returns(s'.history[n].op, s'.history[n].result, s.word))
      && (|s'.history| == n + 1 && s'.history[n].Committed? ==>
            match s'.history[n].op
            case Exchange(value) => s'.word == value
            case Store(stored) => s'.word == stored
            case Load => s'.word == s.word
            case Increment(_) => s'.word == s'.history[n].result
            case CompareAndSwap(oldValue, newValue) => s'.word == if s.word == oldValue then newValue else s.word)
  {
    hide Wrap32;
    forall x: int ensures (Wrap32(x) - x) % 0x1_0000_0000 == 0 {
      WrapIsCongruent(x);
    }
  }

  lemma LeftGrows(word: Atomic32, history: seq<Event>, e: Event)
    ensures Left(word, history + [e]) ==
      match e
      case Committed(_, Exchange(value), _) => value
      case Committed(_, Store(stored), _) => stored
      case Committed(_, Increment(_), result) => result
      case Committed(_, CompareAndSwap(oldValue, newValue), result) =>
        if result == oldValue then newValue else Left(word, history)
      case _ => Left(word, history)
  {
    assert (history + [e])[..|history|] == history;
  }

  // In every interleaving the word is what was left, and exchanges, compare-and-swaps and loads return
  // what was left before them. So a compare-and-swap returns its old value exactly if it sets the new one.
  lemma {:induction false} ReturnsWhatWasLeft(word: Atomic32, threads: nat, schedule: seq<Turn>)
    ensures var s := Execute(Initial(word, threads), schedule);
      && s.word == Left(word, s.history)
      && forall i :: 0 <= i < |s.history| && s.history[i].Committed? ==>
           Returns(s.history[i].op, s.history[i].result, Left(word, s.history[..i]))
  {
    hide Step, Left, Returns;
    if schedule == [] {
      assert Left(word, []) == word by { NothingLeft(word); }
    } else {
      var before, turn := Execute(Initial(word, threads), schedule[..|schedule| - 1]), schedule[|schedule| - 1];
      ReturnsWhatWasLeft(word, threads, schedule[..|schedule| - 1]);
      hide Execute, Initial;
      ReturnsMore(word, before, turn);
    }
  }

  lemma NothingLeft(word: Atomic32)
    ensures Left(word, []) == word
  {
  }

  ghost predicate AllReturn(word: Atomic32, history: seq<Event>) {
    forall i :: 0 <= i < |history| && history[i].Committed? ==>
      Returns(history[i].op, history[i].result, Left(word, history[..i]))
  }

  lemma ReturnsMore(word: Atomic32, s: State, turn: Turn)
    requires s.word == Left(word, s.history) && AllReturn(word, s.history)
    ensures Step(s, turn).word == Left(word, Step(s, turn).history) && AllReturn(word, Step(s, turn).history)
  {
    hide Step, Left;
    var s', n := Step(s, turn), |s.history|;
    TurnReturns(s, turn);
    if |s'.history| == n {
      assert s'.history == s.history;
    } else {
      assert s'.history == s.history + [s'.history[n]];
      LeftGrows(word, s.history, s'.history[n]);
      hide Returns;
      forall i | 0 <= i < |s'.history| && s'.history[i].Committed?
        ensures Returns(s'.history[i].op, s'.history[i].result, Left(word, s'.history[..i]))
      {
        assert s'.history[..i] == s.history[..i] && s.history[..n] == s.history;
      }
    }
  }

  // ---------- Which operations there are ----------

  function CalledOps(schedule: seq<Turn>): set<Op> {
    set turn | turn in schedule && turn.action.Call? :: turn.action.op
  }

  ghost predicate Uses(ops: set<Op>, s: State) {
    && (forall e :: e in s.history ==> e.op in ops)
    && (forall i :: 0 <= i < |s.pcs| ==>
          match s.pcs[i]
          case Idle => true
          case Reload(oldValue, newValue) => CompareAndSwap(oldValue, newValue) in ops
          case _ => s.pcs[i].op in ops)
  }

  // Nothing takes effect that the schedule does not call.
  lemma OpsAreCalled(word: Atomic32, threads: nat, schedule: seq<Turn>)
    ensures forall e :: e in Execute(Initial(word, threads), schedule).history ==>
      exists turn :: turn in schedule && turn.action == Call(e.op)
  {
    hide Execute, Initial;
    OpsUsed(word, threads, schedule, CalledOps(schedule));
    var s := Execute(Initial(word, threads), schedule);
    forall e | e in s.history ensures exists turn :: turn in schedule && turn.action == Call(e.op) {
      assert e.op in CalledOps(schedule);
    }
  }

  lemma {:induction false} OpsUsed(word: Atomic32, threads: nat, schedule: seq<Turn>, ops: set<Op>)
    requires CalledOps(schedule) <= ops
    ensures Uses(ops, Execute(Initial(word, threads), schedule))
  {
    hide Step;
    if schedule != [] {
      var init, turn := schedule[..|schedule| - 1], schedule[|schedule| - 1];
      forall op | op in CalledOps(init) ensures op in CalledOps(schedule) {
        var turn :| turn in init && turn.action.Call? && turn.action.op == op;
        assert turn in schedule;
      }
      OpsUsed(word, threads, init, ops);
      assert turn in schedule && (turn.action.Call? ==> turn.action.op in CalledOps(schedule));
      UsesStep(ops, Execute(Initial(word, threads), init), turn);
    }
  }

  lemma UsesStep(ops: set<Op>, s: State, turn: Turn)
    requires Uses(ops, s) && (turn.action.Call? ==> turn.action.op in ops)
    ensures Uses(ops, Step(s, turn))
  {
    hide Wrap32;
  }

  // ---------- Exchanges ----------

  // The values of the exchanges that took effect, and what they returned.
  function Given(history: seq<Event>): seq<Atomic32> {
    if history == [] then []
    else
      var last := history[|history| - 1];
      Given(history[..|history| - 1]) + if last.Committed? && last.op.Exchange? then [last.op.value] else []
  }

  function Taken(history: seq<Event>): seq<Atomic32> {
    if history == [] then []
    else
      var last := history[|history| - 1];
      Taken(history[..|history| - 1]) + if last.Committed? && last.op.Exchange? then [last.result] else []
  }

  lemma {:induction false} ExchangeChain(word: Atomic32, history: seq<Event>)
    requires AllReturn(word, history) && forall e :: e in history ==> e.op.Exchange?
    ensures [word] + Given(history) == Taken(history) + [Left(word, history)]
  {
    if history != [] {
      var init, last := history[..|history| - 1], history[|history| - 1];
      assert history == init + [last] && last in history;
      assert AllReturn(word, init) by {
        assert forall i :: 0 <= i < |init| ==> init[..i] == history[..i] && init[i] == history[i];
      }
      ExchangeChain(word, init);
      ChainGrows(word, init, last);
    }
  }

  lemma ChainGrows(word: Atomic32, history: seq<Event>, e: Event)
    requires e.op.Exchange? && [word] + Given(history) == Taken(history) + [Left(word, history)]
    requires e.Committed? ==> e.result == Left(word, history)
    ensures [word] + Given(history + [e]) == Taken(history + [e]) + [Left(word, history + [e])]
  {
    hide Left;
    var longer := history + [e];
    assert longer[..|history|] == history;
    LeftGrows(word, history, e);
    if e.Committed? {
      assert [word] + Given(longer) == ([word] + Given(history)) + [e.op.value];
    } else {
      assert Given(longer) == Given(history) && Taken(longer) == Taken(history);
    }
  }

  // Conservation: where there are exchanges only, the first value and all values given are all results and
  // the last word, and each result is the value given before it. Nothing is lost and nothing doubled.
  lemma ExchangeConservation(word: Atomic32, threads: nat, schedule: seq<Turn>)
    requires forall turn :: turn in schedule && turn.action.Call? ==> turn.action.op.Exchange?
    ensures var s := Execute(Initial(word, threads), schedule);
      && [word] + Given(s.history) == Taken(s.history) + [s.word]
      && multiset([word] + Given(s.history)) == multiset(Taken(s.history)) + multiset{s.word}
  {
    hide Execute, Initial, Left, Returns, Given, Taken;
    var s := Execute(Initial(word, threads), schedule);
    OpsAreCalled(word, threads, schedule);
    ReturnsWhatWasLeft(word, threads, schedule);
    ExchangeChain(word, s.history);
  }

  // ---------- Increments ----------

  // Only increments and loads: a counter.
  predicate Counts(e: Event) {
    e.op.Increment? || e.op.Load?
  }

  function Sum(history: seq<Event>): int {
    if history == [] then 0
    else
      var last := history[|history| - 1];
      Sum(history[..|history| - 1]) + if last.Committed? && last.op.Increment? then last.op.increment else 0
  }

  // Conservation: the word is its first value plus all increments that took effect.
  lemma {:induction false} ReplayOfCounter(word: Atomic32, history: seq<Event>)
    requires forall e :: e in history ==> Counts(e)
    ensures Replay(word, history) == Wrap32(word + Sum(history))
  {
    hide Wrap32;
    if history == [] {
      WrapOfWord(word);
    } else {
      var init, last := history[..|history| - 1], history[|history| - 1];
      ReplayOfCounter(word, init);
      assert last in history && Counts(last);
      if last.Committed? && last.op.Increment? {
        WrapAdd(word + Sum(init), last.op.increment);
      }
    }
  }

  lemma WrapOfWord(word: Atomic32)
    ensures Wrap32(word) == word
  {
  }

  lemma IncrementConservation(word: Atomic32, threads: nat, schedule: seq<Turn>)
    requires forall turn :: turn in schedule && turn.action.Call? ==> turn.action.op.Increment? || turn.action.op.Load?
    ensures var s := Execute(Initial(word, threads), schedule);
      && s.word == Wrap32(word + Sum(s.history))
      && forall i :: 0 <= i < |s.history| && s.history[i].Committed? && s.history[i].op.Increment? ==>
           s.history[i].result == Wrap32(word + Sum(s.history[..i + 1]))
  {
    hide Inv, Execute, Initial, Legal, Replay, Sum, Counts, Wrap32;
    var s := Execute(Initial(word, threads), schedule);
    Linearizable(word, threads, schedule);
    CounterOps(word, threads, schedule);
    CounterState(word, s);
    ReplayOfCounter(word, s.history);
    forall i | 0 <= i < |s.history| && s.history[i].Committed? && s.history[i].op.Increment?
      ensures s.history[i].result == Wrap32(word + Sum(s.history[..i + 1]))
    {
      ResultOfCounter(word, s.history, i);
    }
  }

  lemma CounterOps(word: Atomic32, threads: nat, schedule: seq<Turn>)
    requires forall turn :: turn in schedule && turn.action.Call? ==> turn.action.op.Increment? || turn.action.op.Load?
    ensures forall e :: e in Execute(Initial(word, threads), schedule).history ==> Counts(e)
  {
    hide Execute, Initial;
    OpsAreCalled(word, threads, schedule);
  }

  lemma CounterState(word: Atomic32, s: State)
    requires Inv(word, s)
    ensures s.word == Replay(word, s.history) && Legal(word, s.history)
  {
    hide Legal, Replay;
  }

  lemma ResultOfCounter(word: Atomic32, history: seq<Event>, i: nat)
    requires Legal(word, history) && forall e :: e in history ==> Counts(e)
    requires i < |history| && history[i].Committed? && history[i].op.Increment?
    ensures history[i].result == Wrap32(word + Sum(history[..i + 1]))
    ensures Sum(history[..i + 1]) == Sum(history[..i]) + history[i].op.increment
  {
    hide Wrap32;
    assert history[..i + 1][..i] == history[..i];
    ReplayOfCounter(word, history[..i]);
    WrapAdd(word + Sum(history[..i]), history[i].op.increment);
  }

  // ---------- Sequence numbers ----------

  // What GetNext makes of the result of its increment by one.
  function GetNextValue(result: Atomic32): Atomic32 {
    Wrap32(result - 1)
  }

  function Commits(history: seq<Event>): nat {
    if history == [] then 0
    else Commits(history[..|history| - 1]) + if history[|history| - 1].Committed? then 1 else 0
  }

  lemma {:induction false} CommitsGrow(history: seq<Event>, i: nat)
    requires i <= |history|
    ensures Commits(history[..i]) <= Commits(history)
    decreases |history|
  {
    if i < |history| {
      assert history[..|history| - 1][..i] == history[..i];
      CommitsGrow(history[..|history| - 1], i);
    } else {
      assert history[..i] == history;
    }
  }

  lemma {:induction false} SumOfOnes(history: seq<Event>)
    requires forall e :: e in history ==> e.op == Increment(1)
    ensures Sum(history) == Commits(history)
  {
    if history != [] {
      SumOfOnes(history[..|history| - 1]);
    }
  }

  // GetNext returns the first value plus the number of calls that took effect before it.
  lemma NextValue(word: Atomic32, history: seq<Event>, i: nat)
    requires Legal(word, history) && forall e :: e in history ==> e.op == Increment(1)
    requires i < |history| && history[i].Committed?
    ensures GetNextValue(history[i].result) == Wrap32(word + Commits(history[..i]))
  {
    hide Wrap32, Legal, Sum;
    ResultOfCounter(word, history, i);
    SumOfOnes(history[..i]);
    WrapAdd(word + Sum(history[..i]) + 1, -1);
  }

  lemma CommitsDiffer(word: Atomic32, history: seq<Event>, i: nat, j: nat)
    requires Legal(word, history) && Commits(history) <= MODULUS && forall e :: e in history ==> e.op == Increment(1)
    requires i < j < |history| && history[i].Committed? && history[j].Committed?
    ensures GetNextValue(history[i].result) != GetNextValue(history[j].result)
  {
    hide Wrap32, Legal, GetNextValue;
    NextValue(word, history, i);
    NextValue(word, history, j);
    assert history[..i + 1][..i] == history[..i];
    assert history[..j][..i + 1] == history[..i + 1];
    CommitsGrow(history[..j], i + 1);
    assert history[..j + 1][..j] == history[..j];
    CommitsGrow(history, j + 1);
    WrapDistinct(word + Commits(history[..i]), word + Commits(history[..j]));
  }

  // Up to 2^32 calls of GetNext return pairwise different values, whatever the interleaving.
  lemma SequenceNumbersDistinct(word: Atomic32, threads: nat, schedule: seq<Turn>, i: nat, j: nat)
    requires var history := Execute(Initial(word, threads), schedule).history;
      && (forall e :: e in history ==> e.op == Increment(1)) && Commits(history) <= MODULUS
      && i < j < |history| && history[i].Returned? && history[j].Returned?
    ensures var history := Execute(Initial(word, threads), schedule).history;
      GetNextValue(history[i].result) != GetNextValue(history[j].result)
  {
    Linearizable(word, threads, schedule);
    var history := Execute(Initial(word, threads), schedule).history;
    hide Execute, Legal, Paired, GetNextValue, Replay, Commits;
    var _, a := CallOf(history, i);
    var _, b := CallOf(history, j);
    if a < b {
      CommitsDiffer(word, history, a, b);
    } else if b < a {
      CommitsDiffer(word, history, b, a);
    }
  }

  // ---------- Reference counts ----------

  // AtomicRefCountIncN increments by its argument and AtomicRefCountDecN by the opposite; the latter
  // tells from the result whether a reference is left.
  predicate DecNResult(result: Atomic32) { result != 0 }

  predicate IsDecN(op: Op) { op.Increment? && op.increment < 0 }

  predicate IsIncN(op: Op) { op.Increment? && op.increment > 0 }

  // What callers know: a reference counts as held until its DecN is called, and from the return of its
  // IncN on (Held); it may still be counted until the DecN has returned, and from the call of the IncN
  // on (Claimed).
  datatype Side = Held | Claimed

  // What a call or a return changes of that.
  function Visible(side: Side, e: Event): int {
    if (if side.Held? then (e.Invoked? && IsDecN(e.op)) || (e.Returned? && IsIncN(e.op))
        else (e.Invoked? && IsIncN(e.op)) || (e.Returned? && IsDecN(e.op)))
    then e.op.increment else 0
  }

  // What the operation of a thread has changed of the count but not yet of that, or the other way
  // round, if e is the thread's last event.
  function Hidden(side: Side, e: Event): int {
    if e.Committed? && (if side.Held? then IsIncN(e.op) else IsDecN(e.op)) then e.op.increment
    else if e.Invoked? && (if side.Held? then IsDecN(e.op) else IsIncN(e.op)) then -(e.op.increment as int)
    else 0
  }

  function References(side: Side, word: Atomic32, history: seq<Event>): int {
    if history == [] then word
    else References(side, word, history[..|history| - 1]) + Visible(side, history[|history| - 1])
  }

  // Is an operation in progress that only the holder of a reference may make, other than dropping it?
  ghost predicate InUse(history: seq<Event>) {
    exists t: nat :: var last := Latest(history, t); last.Some? && !last.value.Returned? && !IsDecN(last.value.op)
  }

  // The discipline of callers, at every point of the history: none drops more references than it
  // holds, and none uses the count without holding one. There are fewer than 2^32 references.
  ghost predicate Disciplined(word: Atomic32, history: seq<Event>) {
    forall i :: 0 <= i <= |history| ==> DisciplinedAt(word, history[..i])
  }

  ghost predicate DisciplinedAt(word: Atomic32, history: seq<Event>) {
    && 0 <= References(Held, word, history)
    && (InUse(history) ==> 1 <= References(Held, word, history))
    && References(Claimed, word, history) < MODULUS
  }

  lemma DisciplineGrows(word: Atomic32, history: seq<Event>, e: Event)
    requires Disciplined(word, history) && DisciplinedAt(word, history + [e])
    ensures Disciplined(word, history + [e])
  {
    hide DisciplinedAt;
    var longer := history + [e];
    assert longer[..|longer|] == longer;
    assert forall i :: 0 <= i <= |history| ==> longer[..i] == history[..i];
  }

  // The discipline at the end of a history in which one thread alone does anything.
  lemma AloneDisciplined(word: Atomic32, history: seq<Event>, e: Event)
    requires Disciplined(word, history) && e.thread == 0 && forall d :: d in history ==> d.thread == 0
    requires var references := References(Held, word, history) + Visible(Held, e);
      if e.Returned? || IsDecN(e.op) then references >= 0 else references >= 1
    requires References(Claimed, word, history) + Visible(Claimed, e) < MODULUS
    ensures Disciplined(word, history + [e])
    ensures forall side :: References(side, word, history + [e]) == References(side, word, history) + Visible(side, e)
  {
    hide Visible;
    var longer := history + [e];
    assert longer[..|history|] == history;
    forall t: nat ensures Latest(longer, t) == if t == 0 then Some(e) else None {
      LatestGrows(history, e, t);
      LatestOfAlone(history, t);
    }
    DisciplineGrows(word, history, e);
  }

  lemma {:induction false} LatestOfAlone(history: seq<Event>, t: nat)
    requires forall d :: d in history ==> d.thread == 0
    ensures t > 0 ==> Latest(history, t) == None
  {
    if history != [] {
      assert history[|history| - 1] in history;
      LatestOfAlone(history[..|history| - 1], t);
    }
  }

  // One holder of one reference may look at the count, then drop it.
  lemma OneHolder()
    ensures var drop := Increment(-1);
      Disciplined(1, [Invoked(0, Load), Committed(0, Load, 1), Returned(0, Load, 1),
                      Invoked(0, drop), Committed(0, drop, 0), Returned(0, drop, 0)])
  {
    hide Disciplined, References;
    var drop := Increment(-1);
    NobodyYet();
    var a := [Invoked(0, Load)];
    var b := a + [Committed(0, Load, 1)];
    var c := b + [Returned(0, Load, 1)];
    var d := c + [Invoked(0, drop)];
    var e := d + [Committed(0, drop, 0)];
    assert [] + [Invoked(0, Load)] == a;
    AloneDisciplined(1, [], Invoked(0, Load));
    AloneDisciplined(1, a, Committed(0, Load, 1));
    AloneDisciplined(1, b, Returned(0, Load, 1));
    AloneDisciplined(1, c, Invoked(0, drop));
    AloneDisciplined(1, d, Committed(0, drop, 0));
    AloneDisciplined(1, e, Returned(0, drop, 0));
    assert e + [Returned(0, drop, 0)] == [Invoked(0, Load), Committed(0, Load, 1), Returned(0, Load, 1),
                                          Invoked(0, drop), Committed(0, drop, 0), Returned(0, drop, 0)];
  }

  lemma NobodyYet()
    ensures Disciplined(1, []) && References(Held, 1, []) == 1 == References(Claimed, 1, [])
  {
    var none: seq<Event> := [];
    assert none[..0] == none;
    assert DisciplinedAt(1, none);
  }

  function HiddenOf(side: Side, history: seq<Event>, t: nat): int {
    var last := Latest(history, t);
    if last.Some? then Hidden(side, last.value) else 0
  }

  // Over the threads below n.
  function HiddenSum(side: Side, history: seq<Event>, n: nat): int {
    if n == 0 then 0 else HiddenSum(side, history, n - 1) + HiddenOf(side, history, n - 1)
  }

  lemma {:induction false} HiddenGrows(side: Side, history: seq<Event>, e: Event, n: nat)
    ensures HiddenSum(side, history + [e], n) ==
      HiddenSum(side, history, n) + if e.thread < n then Hidden(side, e) - HiddenOf(side, history, e.thread) else 0
  {
    hide Latest, Hidden;
    if n > 0 {
      HiddenGrows(side, history, e, n - 1);
      LatestGrows(history, e, n - 1);
    }
  }

  lemma LatestGrows(history: seq<Event>, e: Event, t: nat)
    ensures Latest(history + [e], t) == if t == e.thread then Some(e) else Latest(history, t)
  {
    assert (history + [e])[..|history|] == history;
  }

  lemma {:induction false} HiddenSign(side: Side, history: seq<Event>, n: nat, t: nat)
    ensures if side.Held? then 0 <= HiddenSum(side, history, n) else HiddenSum(side, history, n) <= 0
    ensures side.Held? && t < n ==> HiddenOf(side, history, t) <= HiddenSum(side, history, n)
  {
    hide Latest;
    if n > 0 {
      HiddenSign(side, history, n - 1, t);
    }
  }

  lemma {:induction false} NothingHidden(side: Side, n: nat)
    ensures HiddenSum(side, [], n) == 0
  {
    if n > 0 {
      NothingHidden(side, n - 1);
    }
  }

  // The count is what callers know, and what the operations in progress hide.
  lemma {:induction false} CountIsKnown(side: Side, word: Atomic32, history: seq<Event>, n: nat)
    requires Paired(history) && forall e :: e in history ==> Counts(e) && e.thread < n
    ensures word + Sum(history) == References(side, word, history) + HiddenSum(side, history, n)
  {
    hide Latest, Hidden, Visible, Fits;
    if history == [] {
      NothingHidden(side, n);
    } else {
      var init, last := history[..|history| - 1], history[|history| - 1];
      assert history == init + [last] && last in history;
      PairedBefore(history, |history| - 1);
      CountIsKnown(side, word, init, n);
      HiddenGrows(side, init, last, n);
      KnownStep(side, init, last);
    }
  }

  lemma PairedBefore(history: seq<Event>, i: nat)
    requires Paired(history) && i < |history|
    ensures Paired(history[..i]) && Fits(history[..i], history[i])
  {
    hide Fits;
    var init := history[..i];
    forall j | 0 <= j < i ensures Fits(init[..j], init[j]) {
      assert init[..j] == history[..j] && init[j] == history[j];
    }
  }

  lemma KnownStep(side: Side, history: seq<Event>, e: Event)
    requires Fits(history, e) && Counts(e)
    ensures (if e.Committed? && e.op.Increment? then e.op.increment else 0) ==
            Visible(side, e) + Hidden(side, e) - HiddenOf(side, history, e.thread)
  {
    hide Latest;
  }

  function Threads(history: seq<Event>): (n: nat)
    ensures forall e :: e in history ==> e.thread < n
  {
    if history == [] then 0
    else
      var n, last := Threads(history[..|history| - 1]), history[|history| - 1];
      assert history == history[..|history| - 1] + [last];
      if n <= last.thread then last.thread + 1 else n
  }

  // Every operation takes effect while the count is positive, and leaves it in range.
  ghost predicate Conventional(references: int, history: seq<Event>) {
    forall i :: 0 <= i < |history| && history[i].Committed? ==>
      && 0 < references + Sum(history[..i])
      && 0 <= references + Sum(history[..i + 1]) < MODULUS
  }

  lemma CountInRange(word: Atomic32, history: seq<Event>)
    requires Paired(history) && DisciplinedAt(word, history) && forall e :: e in history ==> Counts(e)
    ensures 0 <= word + Sum(history) < MODULUS
    ensures InUse(history) ==> 0 < word + Sum(history)
    ensures forall t: nat :: HiddenOf(Held, history, t) <= word + Sum(history)
  {
    hide Paired, Counts, HiddenOf, InUse, Sum, References;
    var n := Threads(history);
    CountIsKnown(Held, word, history, n);
    CountIsKnown(Claimed, word, history, n);
    HiddenSign(Held, history, n, 0);
    HiddenSign(Claimed, history, n, 0);
    forall t: nat ensures HiddenOf(Held, history, t) <= word + Sum(history) {
      if t < n {
        HiddenSign(Held, history, n, t);
      } else {
        HiddenElsewhere(Held, history, t);
      }
    }
  }

  lemma {:induction false} HiddenElsewhere(side: Side, history: seq<Event>, t: nat)
    requires forall e :: e in history ==> e.thread < t
    ensures HiddenOf(side, history, t) == 0
  {
    hide Hidden;
    if history != [] {
      assert history[|history| - 1] in history;
      HiddenElsewhere(side, history[..|history| - 1], t);
    }
  }

  // Callers cannot see in which order operations take effect; their discipline is enough all the same.
  lemma DisciplineSuffices(word: Atomic32, history: seq<Event>)
    requires Paired(history) && Disciplined(word, history) && forall e :: e in history ==> Counts(e)
    ensures Conventional(word, history)
  {
    hide DisciplinedAt, Counts, Sum, Fits, InUse, Latest, HiddenOf;
    forall i | 0 <= i < |history| && history[i].Committed?
      ensures 0 < word + Sum(history[..i]) && 0 <= word + Sum(history[..i + 1]) < MODULUS
    {
      PairedBefore(history, i);
      assert history[..|history|] == history;
      if i + 1 < |history| {
        PairedBefore(history, i + 1);
      }
      CountInRange(word, history[..i]);
      CountInRange(word, history[..i + 1]);
      CommitInProgress(history[..i], history[i]);
    }
  }

  lemma CommitInProgress(history: seq<Event>, e: Event)
    requires Fits(history, e) && e.Committed?
    ensures if IsDecN(e.op) then 0 < HiddenOf(Held, history, e.thread) else InUse(history)
  {
    hide Latest;
    assert Latest(history, e.thread) == Some(Invoked(e.thread, e.op));
  }

  // Exactly the decrement that drops the last reference reports so, and no operation takes effect after
  // it, if callers keep the discipline.
  lemma LastReference(word: Atomic32, threads: nat, schedule: seq<Turn>, i: nat)
    requires forall turn :: turn in schedule && turn.action.Call? ==> turn.action.op.Increment? || turn.action.op.Load?
    requires var history := Execute(Initial(word, threads), schedule).history;
      && Disciplined(word, history)
      && i < |history| && history[i].Committed? && history[i].op.Increment?
    ensures var history := Execute(Initial(word, threads), schedule).history;
      && (!DecNResult(history[i].result) <==> word + Sum(history[..i + 1]) == 0)
      && (!DecNResult(history[i].result) ==> history[i].op.increment < 0)
      && (!DecNResult(history[i].result) ==> forall j :: i < j < |history| ==> !history[j].Committed?)
  {
    hide Execute, Initial, Inv, Sum, Wrap32, Counts, Disciplined, DecNResult;
    IncrementConservation(word, threads, schedule);
    Linearizable(word, threads, schedule);
    CounterOps(word, threads, schedule);
    var s := Execute(Initial(word, threads), schedule);
    PairedState(word, s);
    DisciplineSuffices(word, s.history);
    LastOne(word, s.history, i);
  }

  lemma LastOne(word: Atomic32, history: seq<Event>, i: nat)
    requires Conventional(word, history) && i < |history| && history[i].Committed? && history[i].op.Increment?
    requires history[i].result == Wrap32(word + Sum(history[..i + 1]))
    ensures !DecNResult(history[i].result) <==> word + Sum(history[..i + 1]) == 0
    ensures !DecNResult(history[i].result) ==>
      history[i].op.increment < 0 && forall j :: i < j < |history| ==> !history[j].Committed?
  {
    hide Wrap32, Sum;
    WrapIsZero(word + Sum(history[..i + 1]));
    SumStep(history, i);
    if word + Sum(history[..i + 1]) == 0 {
      hide Conventional;
      forall j | i < j < |history| ensures !history[j].Committed? {
        NothingAfter(word, history, i + 1, j);
      }
    }
  }

  lemma PairedState(word: Atomic32, s: State)
    requires Inv(word, s)
    ensures Paired(s.history)
  {
  }

  lemma SumStep(history: seq<Event>, i: nat)
    requires i < |history| && history[i].Committed? && history[i].op.Increment?
    ensures Sum(history[..i + 1]) == Sum(history[..i]) + history[i].op.increment
  {
    assert history[..i + 1][..i] == history[..i];
  }

  // Once nothing is held, nothing takes effect.
  lemma {:induction false} NothingAfter(references: int, history: seq<Event>, i: nat, j: nat)
    requires i <= j < |history| && Conventional(references, history) && references + Sum(history[..i]) == 0
    ensures references + Sum(history[..j]) == 0 && !history[j].Committed?
    decreases j
  {
    if i < j {
      NothingAfter(references, history, i, j - 1);
      assert history[..j][..j - 1] == history[..j - 1];
    }
  }
}
