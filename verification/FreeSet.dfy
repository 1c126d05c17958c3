/** The cross-thread free queue of src/memory/malloc.c as a state machine.

    One owner drains its queue in `clear_free_set_of_arena`; any number of other threads push regions with
    `insert_into_free_set_of_arena`.  Every action is one access to shared memory or one decision
    of the owner, and actions of different threads interleave in any order.
    The load-exclusive / store-exclusive loop is one atomic swap, and memory is sequentially consistent. */
module FreeSet {
  import opened Options

  /** What can stand in the queue: the arena's own placeholder, or an allocated region. */
  datatype Elem = Placeholder | Region(id: nat)

  /** A thread inside `insert_into_free_set_of_arena`: it has cleared the link word of e, or has also
      swapped e into the tail.  `at` is the position of prev in the history. */
  datatype Enqueuer = Stored(e: Elem) | Swapped(e: Elem, prev: Elem, at: nat)

  /** The owner inside `clear_free_set_of_arena`: at the top of the loop, after the load of curr.next,
      about to insert the placeholder, or inside that insertion. */
  datatype Owner =
    | Idle
    | LoopTop(curr: Elem, inQueue: bool)
    | Decide(curr: Elem, next: Option<Elem>, inQueue: bool)
    | Reinsert(curr: Elem)
    | Inserting(curr: Elem)

  /** live: regions in the hands of callers; pool: regions of the underlying allocator.  Entry OWNER of
      threads is the owner itself while it inserts the placeholder.
      The last three fields and `at` are history: no action depends on them. hist lists all elements in the
      order in which they were swapped into the tail, pos is the position of the current head in hist, and
      freed lists the regions passed to the underlying free. */
  datatype State = State(
    head: Elem, tail: Elem, next: map<Elem, Option<Elem>>,
    threads: map<int, Enqueuer>, owner: Owner,
    live: set<Elem>, pool: set<Elem>,
    hist: seq<Elem>, pos: nat, freed: seq<Elem>)

  const OWNER := -1

  datatype Action =
    | Allocate(e: Elem)
    | FreeOwn(e: Elem)
    | Scribble(e: Elem, v: Option<Elem>)
    | BeginFree(t: int, e: Elem)
    | SwapTail(t: int)
    | WriteLink(t: int)
    | OwnerStart
    | OwnerLoad
    | OwnerAct
    | OwnerInsert
    | OwnerResume

  /** The word at e: the next element, or None for NULL. */
  function Link(next: map<Elem, Option<Elem>>, e: Elem): Option<Elem> {
    if e in next then next[e] else None
  }

  function Curr(s: State): Elem {
    if s.owner.Idle? then s.head else s.owner.curr
  }

  predicate Enabled(s: State, a: Action) {
    match a
    case Allocate(e) => s.owner.Idle? && e in s.pool
    case FreeOwn(e) => s.owner.Idle? && e in s.live
    case Scribble(e, _) => e in s.live + s.pool
    case BeginFree(t, e) => t != OWNER && t !in s.threads && e in s.live
    case SwapTail(t) => t in s.threads && s.threads[t].Stored?
    case WriteLink(t) => t in s.threads && s.threads[t].Swapped?
    case OwnerStart => s.owner.Idle?
    case OwnerLoad => s.owner.LoopTop?
    case OwnerAct => s.owner.Decide?
    case OwnerInsert => s.owner.Reinsert?
    case OwnerResume => s.owner.Inserting? && OWNER !in s.threads
  }

  /** The owner's decision after it has loaded curr.next. */
  function Decision(s: State): State
    requires s.owner.Decide?
  {
    var Decide(curr, next, inQueue) := s.owner;
    match next
    case Some(n) =>
      if curr != Placeholder then
        s.(pool := s.pool + {curr}, freed := s.freed + [curr], pos := s.pos + 1, owner := LoopTop(n, inQueue))
      else
        s.(pos := s.pos + 1, owner := LoopTop(n, false))
    case None =>
      if curr == Placeholder || inQueue then s.(head := curr, owner := Idle)
      else s.(owner := Reinsert(curr))
  }

  /** Clearing the link word of e, the first step of an insertion. */
  function Cleared(s: State, t: int, e: Elem): State {
    s.(next := s.next[e := None], threads := s.threads[t := Stored(e)])
  }

  function Do(s: State, a: Action): State
    requires Enabled(s, a)
  {
    match a
    case Allocate(e) => s.(pool := s.pool - {e}, live := s.live + {e})
    case FreeOwn(e) => s.(live := s.live - {e}, pool := s.pool + {e})
    case Scribble(e, v) => s.(next := s.next[e := v])
    case BeginFree(t, e) => Cleared(s, t, e).(live := s.live - {e})
    case SwapTail(t) =>
      var e := s.threads[t].e;
      s.(tail := e, hist := s.hist + [e],
         threads := s.threads[t := Swapped(e, s.tail, if s.hist == [] then 0 else |s.hist| - 1)])
    case WriteLink(t) =>
      var w := s.threads[t];
      s.(next := s.next[w.prev := Some(w.e)], threads := s.threads - {t})
    case OwnerStart => s.(owner := LoopTop(s.head, true))
    case OwnerLoad => s.(owner := Decide(s.owner.curr, Link(s.next, s.owner.curr), s.owner.inQueue))
    case OwnerAct => Decision(s)
    case OwnerInsert => Cleared(s, OWNER, Placeholder).(owner := Inserting(s.owner.curr))
    case OwnerResume => s.(owner := LoopTop(s.owner.curr, true))
  }

  /** `malloc_init`: the queue holds the placeholder alone. */
  predicate Init(s: State) {
    && s.head == Placeholder && s.tail == Placeholder && Link(s.next, Placeholder) == None
    && s.threads == map[] && s.owner == Idle && s.live == {} && Placeholder !in s.pool
    && s.hist == [Placeholder] && s.pos == 0 && s.freed == []
  }

  /** The state after a run, or None if some action of it is not enabled. */
  function Run(s: State, acts: seq<Action>): Option<State>
    decreases acts
  {
    if acts == [] then Some(s)
    else if Enabled(s, acts[0]) then Run(Do(s, acts[0]), acts[1..])
    else None
  }

  // ----- The invariant -----

  /** The elements from the current head on. */
  function Queue(s: State): seq<Elem> {
    if s.pos <= |s.hist| then s.hist[s.pos..] else []
  }

  function Regions(q: seq<Elem>): seq<Elem> {
    if q == [] then [] else (if q[0] == Placeholder then [] else [q[0]]) + Regions(q[1..])
  }

  /** e stands in h at or after position pos. */
  predicate Queued(h: seq<Elem>, pos: nat, e: Elem) {
    exists i :: pos <= i < |h| && h[i] == e
  }

  /** Some thread still has to write the link word of position i. */
  predicate Pending(threads: map<int, Enqueuer>, i: nat) {
    exists t :: t in threads && threads[t].Swapped? && threads[t].at == i
  }

  predicate DistinctFrom(h: seq<Elem>, pos: nat) {
    forall i, j :: pos <= i < j < |h| ==> h[i] != h[j]
  }

  /** The link word of position i is NULL while a thread is about to write it, and holds the successor otherwise. */
  predicate LinkAt(h: seq<Elem>, i: nat, next: map<Elem, Option<Elem>>, threads: map<int, Enqueuer>)
    requires i + 1 < |h|
  {
    Link(next, h[i]) == if Pending(threads, i) then None else Some(h[i + 1])
  }

  predicate Chain(h: seq<Elem>, pos: nat, next: map<Elem, Option<Elem>>, threads: map<int, Enqueuer>) {
    forall i: nat {:trigger LinkAt(h, i, next, threads)} :: pos <= i && i + 1 < |h| ==> LinkAt(h, i, next, threads)
  }

  /** Each thread works on an element of its own that nobody else may touch. */
  predicate Own(threads: map<int, Enqueuer>, live: set<Elem>, pool: set<Elem>) {
    && (forall t :: t in threads ==> threads[t].e !in live + pool && (threads[t].e == Placeholder <==> t == OWNER))
    && (forall t, u :: t in threads && u in threads && t != u ==> threads[t].e != threads[u].e)
  }

  predicate Stores(h: seq<Elem>, pos: nat, next: map<Elem, Option<Elem>>, threads: map<int, Enqueuer>) {
    forall t :: t in threads && threads[t].Stored? ==>
      !Queued(h, pos, threads[t].e) && Link(next, threads[t].e) == None
  }

  predicate GapAt(h: seq<Elem>, pos: nat, w: Enqueuer)
    requires w.Swapped?
  {
    pos <= w.at && w.at + 1 < |h| && h[w.at] == w.prev && h[w.at + 1] == w.e
  }

  predicate Gaps(h: seq<Elem>, pos: nat, threads: map<int, Enqueuer>) {
    forall t :: t in threads && threads[t].Swapped? ==> GapAt(h, pos, threads[t])
  }

  predicate OwnerInv(s: State) {
    var queued := Queued(s.hist, s.pos, Placeholder);
    match s.owner
    case Idle => queued && OWNER !in s.threads
    case LoopTop(_, inQueue) => (inQueue <==> queued) && OWNER !in s.threads
    case Decide(curr, next, inQueue) =>
      && (inQueue <==> queued) && OWNER !in s.threads
      && (next.Some? ==> s.pos + 1 < |s.hist| && next.value == s.hist[s.pos + 1] && !Pending(s.threads, s.pos))
    case Reinsert(_) => !queued && OWNER !in s.threads
    case Inserting(_) => OWNER !in s.threads ==> queued
  }

  predicate Places(h: seq<Elem>, pos: nat, live: set<Elem>, pool: set<Elem>) {
    && Placeholder !in live + pool
    && live !! pool
    && (forall i :: pos <= i < |h| ==> h[i] !in live + pool)
  }

  predicate Ends(s: State) {
    && s.pos < |s.hist| && s.hist[s.pos] == Curr(s)
    && s.tail == s.hist[|s.hist| - 1] && Link(s.next, s.tail) == None
    && s.freed == Regions(s.hist[..s.pos])
  }

  predicate Inv(s: State) {
    && Ends(s)
    && DistinctFrom(s.hist, s.pos)
    && Chain(s.hist, s.pos, s.next, s.threads)
    && Own(s.threads, s.live, s.pool)
    && Stores(s.hist, s.pos, s.next, s.threads)
    && Gaps(s.hist, s.pos, s.threads)
    && Places(s.hist, s.pos, s.live, s.pool)
    && OwnerInv(s)
  }

  lemma {:induction false} RegionsAppend(a: seq<Elem>, b: seq<Elem>)
    ensures Regions(a + b) == Regions(a) + Regions(b)
  {
    if a == [] {
      assert a + b == b;
    } else {
      assert (a + b)[1..] == a[1..] + b;
      RegionsAppend(a[1..], b);
    }
  }

  lemma InitInv(s: State)
    requires Init(s)
    ensures Inv(s)
  {
    assert Queued(s.hist, 0, s.hist[0]);
  }

  lemma OwnerInvSame(s: State, s': State)
    requires OwnerInv(s) && s'.owner == s.owner && s'.hist == s.hist && s'.pos == s.pos && s'.threads == s.threads
    ensures OwnerInv(s')
  {
  }

  lemma AllocateInv(s: State, a: Action)
    requires Inv(s) && Enabled(s, a) && (a.Allocate? || a.FreeOwn?)
    ensures Inv(Do(s, a))
  {
    hide Queued, Pending, DistinctFrom, Chain, Stores, Gaps, Regions;
  }

  lemma ScribbleInv(s: State, a: Action)
    requires Inv(s) && Enabled(s, a) && a.Scribble?
    ensures Inv(Do(s, a))
  {
    hide Queued, Pending, DistinctFrom, Gaps, Regions, OwnerInv;
    OwnerInvSame(s, Do(s, a));
    var s' := Do(s, a);
    forall i: nat | s.pos <= i && i + 1 < |s.hist| ensures LinkAt(s.hist, i, s'.next, s'.threads) {
      assert LinkAt(s.hist, i, s.next, s.threads);
    }
  }

  lemma OwnerReadInv(s: State, a: Action)
    requires Inv(s) && Enabled(s, a) && (a.OwnerStart? || a.OwnerLoad? || a.OwnerResume?)
    ensures Inv(Do(s, a))
  {
    hide Queued, Pending, DistinctFrom, Stores, Gaps, Places, Own, Regions;
    if a.OwnerLoad? && s.pos + 1 < |s.hist| {
      assert LinkAt(s.hist, s.pos, s.next, s.threads);
    }
  }

  // ----- Insertions -----

  lemma PendingStored(threads: map<int, Enqueuer>, t: int, e: Elem, i: nat)
    requires t in threads ==> threads[t].Stored?
    ensures Pending(threads[t := Stored(e)], i) <==> Pending(threads, i)
  {
    var after := threads[t := Stored(e)];
    if Pending(threads, i) {
      var u :| u in threads && threads[u].Swapped? && threads[u].at == i;
      assert u in after && after[u] == threads[u];
    }
  }

  lemma PendingSwapped(threads: map<int, Enqueuer>, t: int, w: Enqueuer, i: nat)
    requires t in threads && threads[t].Stored? && w.Swapped?
    ensures Pending(threads[t := w], i) <==> Pending(threads, i) || i == w.at
  {
    var after := threads[t := w];
    if Pending(threads, i) {
      var u :| u in threads && threads[u].Swapped? && threads[u].at == i;
      assert u in after && after[u] == threads[u];
    }
    if i == w.at { assert after[t].Swapped? && after[t].at == i; }
  }

  /** The positions of two waiting threads differ, because their elements do. */
  lemma PendingWritten(h: seq<Elem>, pos: nat, threads: map<int, Enqueuer>, t: int, i: nat)
    requires t in threads && threads[t].Swapped? && Gaps(h, pos, threads)
    requires forall u :: u in threads && u != t ==> threads[u].e != threads[t].e
    ensures Pending(threads - {t}, i) <==> Pending(threads, i) && i != threads[t].at
  {
    var after := threads - {t};
    if Pending(threads, i) && i != threads[t].at {
      var u :| u in threads && threads[u].Swapped? && threads[u].at == i;
      assert u in after && after[u] == threads[u];
    }
  }

  /** The first step of an insertion: e leaves the hands of its owner. */
  lemma ClearedInv(s: State, t: int, e: Elem)
    requires Inv(s) && t !in s.threads && (e == Placeholder <==> t == OWNER)
    requires !Queued(s.hist, s.pos, e) && (forall u :: u in s.threads ==> s.threads[u].e != e)
    ensures var s' := Cleared(s, t, e);
      && Chain(s.hist, s.pos, s'.next, s'.threads) && Own(s'.threads, s.live - {e}, s.pool - {e})
      && Stores(s.hist, s.pos, s'.next, s'.threads) && Gaps(s.hist, s.pos, s'.threads)
      && Link(s'.next, s.tail) == None
      && Places(s.hist, s.pos, s.live - {e}, s.pool - {e})
  {
    hide DistinctFrom, Regions, OwnerInv, Pending;
    var s' := Cleared(s, t, e);
    forall i: nat | s.pos <= i && i + 1 < |s.hist| ensures LinkAt(s.hist, i, s'.next, s'.threads) {
      assert LinkAt(s.hist, i, s.next, s.threads);
      PendingStored(s.threads, t, e, i);
    }
  }

  lemma BeginFreeInv(s: State, a: Action)
    requires Inv(s) && Enabled(s, a) && a.BeginFree?
    ensures Inv(Do(s, a))
  {
    hide Chain, Stores, Gaps, DistinctFrom, Regions;
    ClearedInv(s, a.t, a.e);
    assert s.pool - {a.e} == s.pool;
  }

  lemma OwnerInsertInv(s: State, a: Action)
    requires Inv(s) && Enabled(s, a) && a.OwnerInsert?
    ensures Inv(Do(s, a))
  {
    hide Chain, Stores, Gaps, DistinctFrom, Queued, Regions;
    ClearedInv(s, OWNER, Placeholder);
    assert s.pool - {Placeholder} == s.pool && s.live - {Placeholder} == s.live;
  }

  /** One more element at the end of the history. */
  lemma QueuedAppend(h: seq<Elem>, pos: nat, e: Elem, f: Elem)
    requires pos <= |h|
    ensures Queued(h + [e], pos, f) <==> Queued(h, pos, f) || e == f
  {
    if Queued(h, pos, f) {
      var i :| pos <= i < |h| && h[i] == f;
      assert (h + [e])[i] == f;
    }
    assert (h + [e])[|h|] == e;
  }

  lemma SwapChain(s: State, t: int, s': State)
    requires Inv(s) && t in s.threads && s.threads[t].Stored? && s' == Do(s, SwapTail(t))
    ensures Chain(s'.hist, s.pos, s.next, s'.threads) && Stores(s'.hist, s.pos, s.next, s'.threads)
    ensures Gaps(s'.hist, s.pos, s'.threads)
  {
    hide Places, Regions, OwnerInv, Pending, Queued;
    var w := s'.threads[t];
    forall i: nat | s.pos <= i && i + 1 < |s'.hist| ensures LinkAt(s'.hist, i, s.next, s'.threads) {
      PendingSwapped(s.threads, t, w, i);
      if i + 1 < |s.hist| { assert LinkAt(s.hist, i, s.next, s.threads); }
    }
    forall u | u in s'.threads && s'.threads[u].Stored? ensures !Queued(s'.hist, s.pos, s'.threads[u].e) {
      QueuedAppend(s.hist, s.pos, w.e, s'.threads[u].e);
    }
  }

  lemma SwapTailInv(s: State, a: Action)
    requires Inv(s) && Enabled(s, a) && a.SwapTail?
    ensures Inv(Do(s, a))
  {
    hide Chain, Gaps, LinkAt, Regions;
    var s' := Do(s, a);
    var e := s.threads[a.t].e;
    SwapChain(s, a.t, s');
    QueuedAppend(s.hist, s.pos, e, Placeholder);
    assert s'.hist[..s.pos] == s.hist[..s.pos];
    assert DistinctFrom(s'.hist, s.pos) by {
      forall i | s.pos <= i < |s.hist| ensures s.hist[i] != e {
        assert !Queued(s.hist, s.pos, e);
      }
    }
  }

  lemma WriteLinkChain(s: State, a: Action)
    requires Inv(s) && Enabled(s, a) && a.WriteLink?
    ensures var s' := Do(s, a); Chain(s.hist, s.pos, s'.next, s'.threads)
  {
    hide Regions, Pending, Stores, Places, OwnerInv, Curr;
    var s' := Do(s, a);
    var w := s.threads[a.t];
    assert GapAt(s.hist, s.pos, w);
    forall i: nat | s.pos <= i && i + 1 < |s.hist| ensures LinkAt(s.hist, i, s'.next, s'.threads) {
      PendingWritten(s.hist, s.pos, s.threads, a.t, i);
      assert LinkAt(s.hist, i, s.next, s.threads);
    }
  }

  lemma WriteLinkStores(s: State, a: Action)
    requires Inv(s) && Enabled(s, a) && a.WriteLink?
    ensures var s' := Do(s, a); Stores(s.hist, s.pos, s'.next, s'.threads) && Gaps(s.hist, s.pos, s'.threads)
    ensures Queued(s.hist, s.pos, s.threads[a.t].e)
    ensures s.pos <= s.threads[a.t].at < |s.hist| - 1 && s.threads[a.t].prev == s.hist[s.threads[a.t].at]
  {
    hide Regions, Pending, Chain, Own, Places, OwnerInv, Curr;
    var s' := Do(s, a);
    var w := s.threads[a.t];
    assert GapAt(s.hist, s.pos, w);
    assert s.hist[w.at + 1] == w.e;
    forall u | u in s'.threads && s'.threads[u].Stored? ensures s'.threads[u].e != w.prev {
      assert !Queued(s.hist, s.pos, s'.threads[u].e);
    }
  }

  lemma WriteLinkInv(s: State, a: Action)
    requires Inv(s) && Enabled(s, a) && a.WriteLink?
    ensures Inv(Do(s, a))
  {
    WriteLinkChain(s, a);
    WriteLinkStores(s, a);
    PendingWritten(s.hist, s.pos, s.threads, a.t, s.pos);
    hide Regions, Pending, Chain, Stores, Gaps, GapAt, Queued;
  }

  // ----- The owner takes the head -----

  /** The head may leave the queue once its link word is written. */
  lemma PopInv(s: State)
    requires Inv(s) && s.pos + 1 < |s.hist| && !Pending(s.threads, s.pos)
    ensures var h, pos := s.hist, s.pos + 1;
      && DistinctFrom(h, pos) && Chain(h, pos, s.next, s.threads) && Stores(h, pos, s.next, s.threads)
      && Gaps(h, pos, s.threads) && Places(h, pos, s.live, s.pool + if h[s.pos] == Placeholder then {} else {h[s.pos]})
      && Own(s.threads, s.live, s.pool + if h[s.pos] == Placeholder then {} else {h[s.pos]})
      && (Queued(h, pos, Placeholder) <==> Queued(h, s.pos, Placeholder) && h[s.pos] != Placeholder)
      && Regions(h[..pos]) == Regions(h[..s.pos]) + if h[s.pos] == Placeholder then [] else [h[s.pos]]
  {
    hide Regions, OwnerInv, LinkAt;
    var h, pos := s.hist, s.pos + 1;
    assert h[..pos] == h[..s.pos] + [h[s.pos]];
    RegionsAppend(h[..s.pos], [h[s.pos]]);
    RegionsOne(h[s.pos]);
    forall t | t in s.threads ensures s.threads[t].e != h[s.pos] {
      var w := s.threads[t];
      if w.Stored? {
        assert !Queued(h, s.pos, w.e);
      } else {
        assert GapAt(h, s.pos, w);
      }
    }
  }

  lemma RegionsOne(e: Elem)
    ensures Regions([e]) == if e == Placeholder then [] else [e]
  {
    assert Regions([e][1..]) == [];
  }

  lemma OwnerActInv(s: State, a: Action)
    requires Inv(s) && Enabled(s, a) && a.OwnerAct?
    ensures Inv(Do(s, a))
  {
    hide Regions, Queued, Pending, DistinctFrom, Chain, Stores, Gaps, LinkAt, Own, Places;
    if s.owner.next.Some? {
      PopInv(s);
      assert s.pool + {} == s.pool && s.freed + [] == s.freed;
    }
    if s.owner.next == None && s.owner.curr == Placeholder { Queues(s.hist, s.pos, s.pos); }
  }

  lemma Queues(h: seq<Elem>, pos: nat, i: nat)
    requires pos <= i < |h|
    ensures Queued(h, pos, h[i])
  {
  }

  lemma StepInv(s: State, a: Action)
    requires Inv(s) && Enabled(s, a)
    ensures Inv(Do(s, a))
  {
    hide Inv, Enabled, Do;
    match a
    case Allocate(_) => AllocateInv(s, a);
    case FreeOwn(_) => AllocateInv(s, a);
    case Scribble(_, _) => ScribbleInv(s, a);
    case BeginFree(_, _) => BeginFreeInv(s, a);
    case SwapTail(_) => SwapTailInv(s, a);
    case WriteLink(_) => WriteLinkInv(s, a);
    case OwnerInsert => OwnerInsertInv(s, a);
    case OwnerAct => OwnerActInv(s, a);
    case OwnerStart => OwnerReadInv(s, a);
    case OwnerLoad => OwnerReadInv(s, a);
    case OwnerResume => OwnerReadInv(s, a);
  }

  // ----- Every run -----

  lemma {:induction false} RunInv(s: State, acts: seq<Action>)
    requires Inv(s) && Run(s, acts).Some?
    ensures Inv(Run(s, acts).value)
    decreases acts
  {
    hide Inv, Do;
    if acts != [] {
      StepInv(s, acts[0]);
      RunInv(Do(s, acts[0]), acts[1..]);
    }
  }

  lemma QueueInOrder(s: State)
    requires Inv(s)
    ensures Regions(s.hist) == s.freed + Regions(Queue(s))
  {
    hide Regions, DistinctFrom, Chain, Own, Stores, Gaps, Places, OwnerInv, Link, Curr;
    assert s.hist == s.hist[..s.pos] + Queue(s);
    RegionsAppend(s.hist[..s.pos], Queue(s));
  }

  lemma QueueDistinct(s: State)
    requires Inv(s)
    ensures forall i, j :: 0 <= i < j < |Queue(s)| ==> Queue(s)[i] != Queue(s)[j]
  {
    hide Regions, Chain, Own, Stores, Gaps, Places, OwnerInv, Link, Curr;
  }

  lemma QueueAtRest(s: State)
    requires Inv(s) && s.owner.Idle?
    ensures Placeholder in Queue(s) && s.head == Queue(s)[0]
  {
    hide Regions, DistinctFrom, Chain, Own, Stores, Gaps, Places, Link;
    var i :| s.pos <= i < |s.hist| && s.hist[i] == Placeholder;
    assert Queue(s)[i - s.pos] == Placeholder;
  }

  /** For every interleaving: the regions swapped into the queue are, in swap order, those already freed followed
      by those still queued; a queued element occurs once; and the placeholder is queued whenever the owner is idle. */
  lemma RunFreesInOrder(s: State, acts: seq<Action>)
    requires Init(s) && Run(s, acts).Some?
    ensures var s' := Run(s, acts).value;
      && Regions(s'.hist) == s'.freed + Regions(Queue(s'))
      && (forall i, j :: 0 <= i < j < |Queue(s')| ==> Queue(s')[i] != Queue(s')[j])
      && (s'.owner.Idle? ==> Placeholder in Queue(s') && s'.head == Queue(s')[0])
  {
    hide Inv, Do, Regions, Init, Run, Queue;
    InitInv(s);
    RunInv(s, acts);
    var s' := Run(s, acts).value;
    QueueInOrder(s');
    QueueDistinct(s');
    if s'.owner.Idle? { QueueAtRest(s'); }
  }

  /** Some thread has taken e from its caller and has not swapped it in yet. */
  predicate Held(threads: map<int, Enqueuer>, e: Elem) {
    exists t :: t in threads && threads[t].Stored? && threads[t].e == e
  }

  /** Where region e can be: with a caller, with the underlying allocator, with an inserting thread, or queued. */
  predicate Somewhere(s: State, e: Elem) {
    e in s.live || e in s.pool || Held(s.threads, e) || Queued(s.hist, s.pos, e)
  }

  lemma HeldStored(threads: map<int, Enqueuer>, t: int, f: Elem, e: Elem)
    requires t !in threads
    ensures Held(threads[t := Stored(f)], e) <==> Held(threads, e) || e == f
  {
    var after := threads[t := Stored(f)];
    if Held(threads, e) {
      var u :| u in threads && threads[u].Stored? && threads[u].e == e;
      assert u in after && after[u] == threads[u];
    }
    assert t in after && after[t].e == f;
  }

  lemma HeldGone(threads: map<int, Enqueuer>, after: map<int, Enqueuer>, t: int, e: Elem)
    requires t in threads && (t in after ==> after[t].Swapped?)
    requires forall u :: u != t ==> (u in threads <==> u in after) && (u in threads ==> threads[u] == after[u])
    requires forall u :: u in threads && u != t ==> threads[u].e != threads[t].e
    ensures Held(after, e) <==> Held(threads, e) && !(threads[t].Stored? && e == threads[t].e)
    ensures threads[t].Stored? ==> Held(threads, threads[t].e)
  {
    if Held(threads, e) && !(threads[t].Stored? && e == threads[t].e) {
      var u :| u in threads && threads[u].Stored? && threads[u].e == e;
      assert u in after && after[u] == threads[u];
    }
  }

  lemma QueuedPop(h: seq<Elem>, pos: nat, e: Elem)
    requires pos < |h|
    ensures Queued(h, pos, e) <==> e == h[pos] || Queued(h, pos + 1, e)
  {
  }

  /** A step neither loses a region nor makes one up. */
  lemma StepConserves(s: State, a: Action, e: Elem)
    requires Inv(s) && Enabled(s, a) && e.Region?
    ensures Somewhere(Do(s, a), e) <==> Somewhere(s, e)
  {
    hide Queued, Held, Regions, Chain, LinkAt, DistinctFrom, Gaps, Stores;
    var s' := Do(s, a);
    match a
    case BeginFree(t, f) => HeldStored(s.threads, t, f, e);
    case OwnerInsert => HeldStored(s.threads, OWNER, Placeholder, e);
    case SwapTail(t) =>
      HeldGone(s.threads, s'.threads, t, e);
      QueuedAppend(s.hist, s.pos, s.threads[t].e, e);
    case WriteLink(t) => HeldGone(s.threads, s'.threads, t, e);
    case OwnerAct => QueuedPop(s.hist, s.pos, e);
    case _ =>
  }

  lemma {:induction false} RunConserves(s: State, acts: seq<Action>, e: Elem)
    requires Inv(s) && Run(s, acts).Some? && e.Region?
    ensures Somewhere(Run(s, acts).value, e) <==> Somewhere(s, e)
    decreases acts
  {
    hide Inv, Do, Somewhere;
    if acts != [] {
      StepConserves(s, acts[0], e);
      StepInv(s, acts[0]);
      RunConserves(Do(s, acts[0]), acts[1..], e);
    }
  }

  /** Only its holder writes to a region: no step changes the word at an element that belongs to a caller or to the
      underlying allocator, except a write by that holder and the store of the thread that frees it. */
  lemma ForeignWordsKept(s: State, a: Action, e: Elem)
    requires Inv(s) && Enabled(s, a) && e in s.live + s.pool
    requires !(a.Scribble? && a.e == e) && !(a.BeginFree? && a.e == e)
    ensures Link(Do(s, a).next, e) == Link(s.next, e)
  {
    hide Queued, Regions, Chain, LinkAt, DistinctFrom, Stores;
    if a.WriteLink? {
      assert GapAt(s.hist, s.pos, s.threads[a.t]);
    }
  }

  /** A link write goes to a queued element whose word is NULL, and links it to its successor. */
  lemma WriteLinksSuccessor(s: State, t: int)
    requires Inv(s) && Enabled(s, WriteLink(t))
    ensures var w, q := s.threads[t], Queue(s);
      exists i :: 0 <= i < |q| - 1 && q[i] == w.prev && q[i + 1] == w.e && Link(s.next, q[i]) == None
  {
    var w, q := s.threads[t], Queue(s);
    assert GapAt(s.hist, s.pos, w);
    assert LinkAt(s.hist, w.at, s.next, s.threads);
    var i := w.at - s.pos;
    assert q[i] == w.prev && q[i + 1] == w.e;
  }

  // ----- The exits of the drain -----

  /** When the owner loads NULL from an element other than the placeholder while the placeholder is queued,
      another thread stands between its swap and its write to that very word. */
  lemma ThirdExit(s: State)
    requires Inv(s) && s.owner.LoopTop? && s.owner.curr != Placeholder && s.owner.inQueue
    requires Link(s.next, s.owner.curr) == None
    ensures exists t :: t != OWNER && t in s.threads && s.threads[t].Swapped? && s.threads[t].prev == s.owner.curr
  {
    hide Regions;
    var i: nat :| s.pos <= i < |s.hist| && s.hist[i] == Placeholder;
    assert LinkAt(s.hist, s.pos, s.next, s.threads);
    var t :| t in s.threads && s.threads[t].Swapped? && s.threads[t].at == s.pos;
    assert GapAt(s.hist, s.pos, s.threads[t]);
  }

  /** Whenever the owner sees the placeholder at the head, it knows that it is queued. */
  lemma FirstExit(s: State)
    requires Inv(s) && s.owner.Decide? && s.owner.curr == Placeholder
    ensures s.owner.inQueue
  {
    Queues(s.hist, s.pos, s.pos);
  }

  // ----- The drain ends -----

  /** The regions of all that are not with the underlying allocator, and how far the placeholder is. */
  function Phase(s: State): nat {
    if s.pos < |s.hist| && s.hist[s.pos] == Placeholder then 3
    else if Queued(s.hist, s.pos, Placeholder) then 0
    else if s.owner.Reinsert? || s.owner.Inserting? then 1
    else 2
  }

  function Budget(all: set<Elem>, s: State): nat {
    4 * |all - s.pool| + Phase(s)
  }

  ghost predicate Covers(all: set<Elem>, s: State) {
    forall e: Elem {:trigger Somewhere(s, e)} :: e.Region? && Somewhere(s, e) ==> e in all
  }

  lemma PhaseStep(s: State, a: Action)
    requires Inv(s) && Enabled(s, a) && !s.owner.Idle? && !Do(s, a).owner.Idle?
    ensures Phase(Do(s, a)) <= Phase(s) || Do(s, a).freed != s.freed
    ensures a.OwnerAct? && Do(s, a).freed == s.freed ==> Phase(Do(s, a)) < Phase(s)
  {
    hide Queued, Held, Regions, Chain, LinkAt, Gaps, Stores;
    match a
    case SwapTail(t) => QueuedAppend(s.hist, s.pos, s.threads[t].e, Placeholder);
    case OwnerAct => QueuedPop(s.hist, s.pos, Placeholder);
    case _ =>
  }

  /** A freed region comes out of the regions that the allocator does not have. */
  lemma PopShrinks(all: set<Elem>, s: State)
    requires Inv(s) && Covers(all, s) && s.owner.Decide? && Decision(s).freed != s.freed
    ensures |all - Decision(s).pool| == |all - s.pool| - 1
  {
    hide Queued, Held, Regions, Chain, Gaps, Stores, DistinctFrom, Own, OwnerInv;
    var e := s.owner.curr;
    Queues(s.hist, s.pos, s.pos);
    assert Somewhere(s, e);
    assert e in all - s.pool;
    assert all - (s.pool + {e}) == all - s.pool - {e};
  }

  lemma BudgetStep(all: set<Elem>, s: State, a: Action)
    requires Inv(s) && Covers(all, s) && Enabled(s, a) && !s.owner.Idle? && !Do(s, a).owner.Idle?
    ensures Budget(all, Do(s, a)) <= Budget(all, s)
    ensures a.OwnerAct? ==> Budget(all, Do(s, a)) < Budget(all, s)
  {
    hide Inv, Phase, Somewhere, Covers;
    PhaseStep(s, a);
    PhaseBound(Do(s, a));
    if a.OwnerAct? && Do(s, a).freed != s.freed { PopShrinks(all, s); }
  }

  lemma PhaseBound(s: State)
    ensures Phase(s) <= 3
  {
  }

  lemma CoversStep(all: set<Elem>, s: State, a: Action)
    requires Inv(s) && Covers(all, s) && Enabled(s, a)
    ensures Covers(all, Do(s, a))
  {
    hide Inv, Do, Somewhere;
    forall e: Elem | e.Region? && Somewhere(Do(s, a), e) ensures e in all { StepConserves(s, a, e); }
  }

  /** How often the owner decides in a run that never leaves the drain; None if the run leaves it. */
  function Decisions(s: State, acts: seq<Action>): Option<nat>
    decreases acts
  {
    if s.owner.Idle? then None
    else if acts == [] then Some(0)
    else if !Enabled(s, acts[0]) then None
    else match Decisions(Do(s, acts[0]), acts[1..])
      case None => None
      case Some(n) => Some(n + if acts[0].OwnerAct? then 1 else 0)
  }

  /** The drain ends under every interleaving: the number of its iterations is bounded by the number of regions that
      are not with the underlying allocator, however many of them other threads free meanwhile. */
  lemma {:induction false} DrainBounded(all: set<Elem>, s: State, acts: seq<Action>)
    requires Inv(s) && Covers(all, s) && Decisions(s, acts).Some?
    ensures Decisions(s, acts).value <= Budget(all, s) <= 4 * |all - s.pool| + 3
    decreases acts
  {
    hide Inv, Do, Covers, Phase, Enabled;
    PhaseBound(s);
    if acts != [] {
      StepInv(s, acts[0]);
      CoversStep(all, s, acts[0]);
      BudgetStep(all, s, acts[0]);
      DrainBounded(all, Do(s, acts[0]), acts[1..]);
    }
  }

  /** The owner is about to end an iteration without leaving the loop and without freeing a region. */
  predicate NoProgress(s: State) {
    s.owner.Decide? && !Decision(s).owner.Idle? && Decision(s).freed == s.freed
  }

  /** That happens exactly when it pops the placeholder, or when it goes on to insert the placeholder at the end of a
      queue that does not hold it. */
  lemma NoProgressIff(s: State)
    requires s.owner.Decide?
    ensures var Decide(curr, next, inQueue) := s.owner;
      NoProgress(s) <==> (curr == Placeholder && next.Some?) || (curr != Placeholder && next == None && !inQueue)
  {
    assert |s.freed + [s.owner.curr]| == |s.freed| + 1;
  }

  lemma {:induction false} RunThen(s: State, acts: seq<Action>, a: Action)
    requires Run(s, acts).Some? && Enabled(Run(s, acts).value, a)
    ensures Run(s, acts + [a]) == Some(Do(Run(s, acts).value, a))
    decreases acts
  {
    hide Do, Enabled;
    if acts == [] {
      assert [a][1..] == [] && acts + [a] == [a];
      assert Run(Do(s, a), []) == Some(Do(s, a));
    } else {
      assert (acts + [a])[1..] == acts[1..] + [a];
      RunThen(Do(s, acts[0]), acts[1..], a);
    }
  }

  /** One region is handed out and freed by another thread, and the owner starts to drain. */
  lemma DrainOfOne(s: State, e: Elem) returns (acts: seq<Action>)
    requires Init(s) && e in s.pool
    ensures Run(s, acts).Some?
    ensures var s' := Run(s, acts).value;
      s'.owner == LoopTop(Placeholder, true) && Link(s'.next, Placeholder) == Some(e) && Link(s'.next, e) == None
  {
    hide Run;
    RunNone(s);
    acts := Then(s, [], Allocate(e));
    acts := Then(s, acts, BeginFree(0, e));
    acts := Then(s, acts, SwapTail(0));
    acts := Then(s, acts, WriteLink(0));
    acts := Then(s, acts, OwnerStart);
  }

  /** Both kinds of such iterations occur in that drain. */
  lemma NoProgressReached(s: State, e: Elem) returns (popping: seq<Action>, inserting: seq<Action>)
    requires Init(s) && e in s.pool
    ensures Run(s, popping).Some? && NoProgress(Run(s, popping).value)
    ensures Run(s, popping).value.owner.curr == Placeholder
    ensures Run(s, inserting).Some? && NoProgress(Run(s, inserting).value)
    ensures Run(s, inserting).value.owner.curr == e != Placeholder
  {
    hide Run;
    var acts := DrainOfOne(s, e);
    popping := Then(s, acts, OwnerLoad);
    inserting := Then(s, popping, OwnerAct);
    inserting := Then(s, inserting, OwnerLoad);
  }

  lemma RunNone(s: State)
    ensures Run(s, []) == Some(s)
  {
  }

  lemma Then(s: State, acts: seq<Action>, a: Action) returns (more: seq<Action>)
    requires Run(s, acts).Some? && Enabled(Run(s, acts).value, a)
    ensures Run(s, more) == Some(Do(Run(s, acts).value, a))
  {
    hide Do, Enabled;
    RunThen(s, acts, a);
    more := acts + [a];
  }

  // ----- The drain with nobody else in flight -----

  /** No thread is inside an insertion. */
  ghost predicate Quiet(s: State) {
    Inv(s) && s.threads == map[]
  }

  /** What the steps of a quiet drain keep: the regions ever swapped in, and where regions can be. */
  ghost predicate Follows(s0: State, s: State) {
    && Regions(s.hist) == Regions(s0.hist) && s.live == s0.live
    && (forall e: Elem {:trigger Somewhere(s, e)} :: e.Region? ==> (Somewhere(s, e) <==> Somewhere(s0, e)))
  }

  lemma RegionsPlaceholder(h: seq<Elem>)
    ensures Regions(h + [Placeholder]) == Regions(h)
  {
    RegionsAppend(h, [Placeholder]);
    RegionsOne(Placeholder);
  }

  lemma FollowsStep(s0: State, s: State, a: Action)
    requires Inv(s) && Follows(s0, s) && Enabled(s, a)
    requires a.OwnerStart? || a.OwnerLoad? || a.OwnerAct? || a.OwnerInsert? || a.OwnerResume?
      || a == SwapTail(OWNER) || a == WriteLink(OWNER)
    ensures Inv(Do(s, a)) && Follows(s0, Do(s, a))
  {
    hide Somewhere, Regions, Queued, Chain, Gaps, Stores, Places, DistinctFrom;
    StepInv(s, a);
    RegionsPlaceholder(s.hist);
    forall e: Elem | e.Region? ensures Somewhere(Do(s, a), e) <==> Somewhere(s, e) { StepConserves(s, a, e); }
  }

  /** With nobody in flight, e may be inserted: by the owner if it is the placeholder, by a thread 0 otherwise. */
  ghost predicate MayInsert(s: State, e: Elem) {
    Quiet(s) && if e == Placeholder then s.owner.Reinsert? else e in s.live
  }

  /** The three steps of an insertion, after which the owner goes on. */
  function Inserted(s: State, e: Elem): State
    requires if e == Placeholder then s.owner.Reinsert? && s.threads == map[] else e in s.live && s.threads == map[]
  {
    var t := if e == Placeholder then OWNER else 0;
    var stored := Do(s, if e == Placeholder then OwnerInsert else BeginFree(t, e));
    var linked := Do(Do(stored, SwapTail(t)), WriteLink(t));
    if e == Placeholder then Do(linked, OwnerResume) else linked
  }

  /** It puts e at the end of the queue. */
  lemma InsertedMeans(s: State, e: Elem)
    requires MayInsert(s, e)
    ensures var s' := Inserted(s, e);
      && Quiet(s') && Queue(s') == Queue(s) + [e]
      && s'.tail == e && s'.next == s.next[e := None][s.tail := Some(e)]
      && s'.live == s.live - {e} && s'.pool == s.pool && s'.head == s.head && s'.freed == s.freed
      && s'.owner == if e == Placeholder then LoopTop(s.owner.curr, true) else s.owner
  {
    hide Inv, Regions;
    var t := if e == Placeholder then OWNER else 0;
    var a := if e == Placeholder then OwnerInsert else BeginFree(t, e);
    var s1 := Do(s, a);
    StepInv(s, a);
    var s2 := Do(s1, SwapTail(t));
    StepInv(s1, SwapTail(t));
    var s3 := Do(s2, WriteLink(t));
    StepInv(s2, WriteLink(t));
    if e == Placeholder { StepInv(s3, OwnerResume); }
    assert s3.threads == map[];
    PosInHist(s);
  }

  lemma PosInHist(s: State)
    requires Inv(s)
    ensures s.pos < |s.hist| && Placeholder !in s.live
  {
  }

  lemma InsertedFollows(s0: State, s: State)
    requires Quiet(s) && Follows(s0, s) && s.owner.Reinsert?
    ensures Follows(s0, Inserted(s, Placeholder)) && Phase(Inserted(s, Placeholder)) <= Phase(s)
  {
    hide Inv, Follows, Regions, Phase;
    var s1 := Do(s, OwnerInsert);
    FollowsStep(s0, s, OwnerInsert);
    var s2 := Do(s1, SwapTail(OWNER));
    FollowsStep(s0, s1, SwapTail(OWNER));
    var s3 := Do(s2, WriteLink(OWNER));
    FollowsStep(s0, s2, WriteLink(OWNER));
    FollowsStep(s0, s3, OwnerResume);
    PhaseStep(s, OwnerInsert);
    PhaseStep(s1, SwapTail(OWNER));
    PhaseStep(s2, WriteLink(OWNER));
    PhaseStep(s3, OwnerResume);
  }

  /** One iteration of a quiet drain that does not leave it. */
  function Iterated(s: State): State
    requires s.owner.LoopTop? && s.threads == map[]
  {
    var decided := Decided(s);
    if decided.owner.Reinsert? then Inserted(decided, Placeholder) else decided
  }

  function Decided(s: State): State
    requires s.owner.LoopTop?
  {
    Decision(Do(s, OwnerLoad))
  }

  lemma CoversFollows(all: set<Elem>, s0: State, s: State)
    requires Covers(all, s0) && Follows(s0, s)
    ensures Covers(all, s)
  {
    hide Somewhere, Regions;
  }

  /** With nobody in flight, a NULL link word is that of the last element. */
  lemma QuietEnd(s: State)
    requires Quiet(s) && s.owner.LoopTop? && Link(s.next, s.owner.curr) == None
    ensures Queue(s) == [s.owner.curr]
    ensures s.owner.inQueue <==> s.owner.curr == Placeholder
  {
    hide Regions;
    assert s.pos + 1 < |s.hist| ==> LinkAt(s.hist, s.pos, s.next, s.threads);
    Queues(s.hist, s.pos, s.pos);
  }

  lemma IteratedFollows(all: set<Elem>, s0: State, s: State)
    requires Quiet(s) && Follows(s0, s) && Covers(all, s0) && s.owner.LoopTop?
    ensures var s' := Iterated(s);
      && Quiet(s') && Follows(s0, s')
      && (if s'.owner.LoopTop? then Budget(all, s') < Budget(all, s)
          else s'.owner == Idle && s'.head == Placeholder && Queue(s') == [Placeholder])
  {
    hide Inv, Follows, Regions, Phase, Queued, Covers, Somewhere;
    CoversFollows(all, s0, s);
    var s1 := Do(s, OwnerLoad);
    FollowsStep(s0, s, OwnerLoad);
    CoversFollows(all, s0, s1);
    BudgetStep(all, s, OwnerLoad);
    var s2 := Do(s1, OwnerAct);
    FollowsStep(s0, s1, OwnerAct);
    if s2.owner.Idle? {
      QuietEnd(s);
    } else {
      BudgetStep(all, s1, OwnerAct);
      if s2.owner.Reinsert? {
        InsertedMeans(s2, Placeholder);
        InsertedFollows(s0, s2);
      }
    }
  }

  lemma DecidedMay(s: State)
    requires Quiet(s) && s.owner.LoopTop?
    ensures var d := Decided(s);
      && (Iterated(s) == if d.owner.Reinsert? then Inserted(d, Placeholder) else d)
      && (d.owner.Reinsert? <==> Link(s.next, s.owner.curr) == None && s.owner.curr != Placeholder && !s.owner.inQueue)
      && Quiet(d) && (d.owner.Reinsert? ==> MayInsert(d, Placeholder) && d.tail == s.tail && d.next == s.next && d.pool == s.pool)
  {
    hide Inv, Inserted;
    StepInv(s, OwnerLoad);
    StepInv(Do(s, OwnerLoad), OwnerAct);
  }

  /** An iteration in terms of the shared memory. */
  lemma IteratedIs(s: State)
    requires Quiet(s) && s.owner.LoopTop?
    ensures var LoopTop(curr, inQueue), s' := s.owner, Iterated(s);
      match Link(s.next, curr)
      case Some(n) =>
        && s'.owner == LoopTop(n, curr != Placeholder && inQueue)
        && s'.tail == s.tail && s'.next == s.next && s'.head == s.head
        && s'.pool == s.pool + if curr == Placeholder then {} else {curr}
      case None =>
        && s'.pool == s.pool
        && if curr == Placeholder || inQueue then
             s'.owner == Idle && s'.head == curr && s'.tail == s.tail && s'.next == s.next
           else
             && s'.owner == LoopTop(curr, true) && s'.head == s.head
             && s'.tail == Placeholder && s'.next == s.next[Placeholder := None][s.tail := Some(Placeholder)]
  {
    hide Inv, Follows, Regions, Phase, Inserted;
    StartFollows(s);
    FollowsStep(s, s, OwnerLoad);
    FollowsStep(s, Do(s, OwnerLoad), OwnerAct);
    if Decided(s).owner.Reinsert? { InsertedMeans(Decided(s), Placeholder); }
  }

  lemma StartFollows(s: State)
    requires Quiet(s)
    ensures Follows(s, s)
    ensures s.owner.Idle? ==> Quiet(Do(s, OwnerStart)) && Follows(s, Do(s, OwnerStart))
    ensures s.owner.Idle? ==> Do(s, OwnerStart) == s.(owner := LoopTop(s.head, true))
  {
    hide Inv, Regions, Somewhere;
    if s.owner.Idle? { FollowsStep(s, s, OwnerStart); }
  }

  lemma Drained(s0: State, s: State)
    requires Quiet(s0) && Quiet(s) && Follows(s0, s) && Queue(s) == [Placeholder]
    ensures s.tail == Placeholder && s.freed == s0.freed + Regions(Queue(s0)) && s.live == s0.live
    ensures forall e: Elem :: e.Region? ==> (e in s.pool <==> e in s0.pool || e in Queue(s0))
  {
    hide Regions, Chain, LinkAt, Gaps, Stores, Own, OwnerInv, Somewhere, Queued;
    assert s.hist == s.hist[..s.pos] + [Placeholder];
    RegionsPlaceholder(s.hist[..s.pos]);
    assert s0.hist == s0.hist[..s0.pos] + Queue(s0);
    RegionsAppend(s0.hist[..s0.pos], Queue(s0));
    forall e: Elem | e.Region? ensures e in s.pool <==> e in s0.pool || e in Queue(s0) {
      SomewhereQuiet(s, e);
      SomewhereQuiet(s0, e);
    }
  }

  lemma SomewhereQuiet(s: State, e: Elem)
    requires Quiet(s)
    ensures Somewhere(s, e) <==> e in s.live || e in s.pool || e in Queue(s)
    ensures e in Queue(s) ==> e !in s.live
  {
    hide Regions, Chain, LinkAt, Gaps, Stores, Own, OwnerInv, DistinctFrom;
    if Queued(s.hist, s.pos, e) {
      var i :| s.pos <= i < |s.hist| && s.hist[i] == e;
      assert Queue(s)[i - s.pos] == e;
    }
  }

  /** The queue of one arena.  s is the state of the system as far as this arena is concerned. */
  class Arena {
    var head: Elem
    var tail: Elem
    var next: map<Elem, Option<Elem>>
    var pool: set<Elem>
    ghost var s: State

    ghost predicate Shows()
      reads this
    {
      s.tail == tail && s.next == next && s.pool == pool
    }

    ghost predicate Valid()
      reads this
    {
      Shows() && s.head == head && Quiet(s) && s.owner == Idle
    }

    /** The insertion, with no other thread between its steps: e goes to the end of the queue and nothing else moves. */
    method InsertIntoFreeSet(e: Elem)
      requires Shows() && MayInsert(s, e)
      modifies `tail, `next, `s
      ensures Shows() && Quiet(s) && Queue(s) == old(Queue(s)) + [e]
      ensures s.live == old(s.live) - {e} && s.freed == old(s.freed)
      ensures e.Region? && old(Valid()) ==> Valid()
      ensures s == Inserted(old(s), e)
    {
      hide Inv, Queue, Do, Inserted;
      InsertedMeans(s, e);
      s := Inserted(s, e);
      next := next[e := None];
      var currTail := tail;
      tail := e;
      next := next[currTail := Some(e)];
    }

    /** With no enqueuer in flight the drain frees exactly the queued regions, in queue order, and leaves the placeholder
        alone in the queue. */
    method ClearFreeSet(ghost all: set<Elem>)
      requires Valid() && Covers(all, s)
      modifies this
      ensures Valid() && Queue(s) == [Placeholder] && head == tail == Placeholder
      ensures s.freed == old(s.freed) + Regions(old(Queue(s))) && s.live == old(s.live)
      ensures forall e: Elem :: e.Region? ==> (e in pool <==> e in old(pool) || e in old(Queue(s)))
    {
      hide Inv, Quiet, Do, Follows, Covers, Queue, Iterated, Regions, Somewhere, Phase;
      ghost var s0 := s;
      StartFollows(s);
      var currHead := head;
      var placeholderInQueue := true;
      s := Do(s, OwnerStart);
      while true
        invariant Shows() && Quiet(s) && Follows(s0, s) && s.owner == LoopTop(currHead, placeholderInQueue)
        decreases Budget(all, s)
      {
        IteratedFollows(all, s0, s);
        IteratedIs(s);
        DecidedMay(s);
        s := Decided(s);
        var nextHead := Link(next, currHead);
        if nextHead != None {
          if currHead != Placeholder {
            pool := pool + {currHead};
          } else {
            placeholderInQueue := false;
          }
          currHead := nextHead.value;
        } else {
          if currHead == Placeholder { break; }
          if placeholderInQueue { break; }
          InsertIntoFreeSet(Placeholder);
          placeholderInQueue := true;
        }
      }
      head := currHead;
      Drained(s0, s);
    }
  }
}
