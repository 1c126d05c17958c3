/** The incrementally rehashed map of mini_libcxx/include/hashmap.hpp.  While rehashing, tables_[0] is emptied into
    tables_[1], four pairs per mutating operation. */
module HashMap {
  import opened Arith
  import opened HashProbe
  import opened HashTable
  import opened Options

  const STEP := 4

  /** A table alone: short of what clear_table may have left uncounted, the counters are right and the load is at
      most 7/8. */
  ghost predicate Calm(t: Table) {
    && TableInv(t)
    && (t.ctrl != [] ==>
          && 0 <= Drift(t) && 8 * Drift(t) < |t.ctrl| + 8
          && 8 * (t.size + t.tombstones) <= 7 * |t.ctrl|)
  }

  /** Two tables during a rehash: nothing full before position idx of the old one, and no key in both. */
  ghost predicate Moving(t0: Table, t1: Table, idx: nat) {
    && TableInv(t0) && TableInv(t1) && t0.ctrl != [] && t1.ctrl != [] && Drift(t1) == 0
    && (forall s: nat :: s < idx && s < |t0.ctrl| ==> !t0.ctrl[s].Full?)
    && (forall x: int, h: nat, k: nat :: In(t0, x, h) ==> !In(t1, x, k))
  }

  /** What the rehash may still use of the new table: each insertion costs 8, and a step of four moves pays for it. */
  predicate Budget(t0: Table, t1: Table, slack: nat) {
    8 * (Used(t1) + CountFull(t0.ctrl)) + 2 * CountFull(t0.ctrl) + slack <= 5 * |t1.ctrl|
  }

  ghost predicate TablesInv(t0: Table, t1: Table, rehashing: bool, idx: nat, slack: nat) {
    if rehashing then Moving(t0, t1, idx) && Budget(t0, t1, slack) else Calm(t0)
  }

  /** The pairs of key and handle in the tables are those of link. */
  ghost predicate Linked(t0: Table, t1: Table, rehashing: bool, link: map<int, nat>)
    requires Shaped(t0) && (rehashing ==> Shaped(t1))
  {
    forall x: int, h: nat :: In(t0, x, h) || (rehashing && In(t1, x, h)) <==> x in link && link[x] == h
  }

  // ----- Availability -----

  /** A table with a slot that is not full has one on every path. */
  lemma SlotExists(t: Table)
    requires TableInv(t) && CountFull(t.ctrl) < |t.ctrl|
    ensures exists s: nat :: Available(t, s)
  {
    if forall s: nat :: !Available(t, s) {
      forall s | 0 <= s < |t.ctrl| ensures t.ctrl[s].Full? { assert !Available(t, s); }
      CountAll(t.ctrl);
    }
  }

  lemma GroupsAreEight(t: Table)
    requires Shaped(t) && t.ctrl != []
    ensures |t.ctrl| >= 8
  {
  }

  /** The load test passes only if a slot is left. */
  lemma LoadLeavesSlot(t: Table)
    requires TableInv(t) && t.ctrl != [] && 8 * Drift(t) < |t.ctrl| + 8 && 8 * (t.size + t.tombstones + 1) <= 7 * |t.ctrl|
    ensures CountFull(t.ctrl) < |t.ctrl|
  {
  }

  lemma BudgetLeavesSlot(t0: Table, t1: Table, slack: nat)
    requires Budget(t0, t1, slack) && |t1.ctrl| > 0
    ensures CountFull(t1.ctrl) < |t1.ctrl|
  {
  }

  // ----- One move -----

  lemma MoveStep(t0: Table, t1: Table, idx: nat, slack: nat, link: map<int, nat>, dest: nat)
    requires Moving(t0, t1, idx) && Budget(t0, t1, slack) && Linked(t0, t1, true, link)
    requires idx < |t0.ctrl| && t0.ctrl[idx].Full? && FirstAvailable(t1, t0.slots[idx].0, dest)
    requires forall r: nat :: !Holds(t1, r, t0.slots[idx].0)
    ensures var (x, h) := t0.slots[idx];
      var u0, u1 := Vacated(t0, idx), Inserted(t1, dest, x, h);
      Moving(u0, u1, idx + 1) && Budget(u0, u1, slack + 2) && Linked(u0, u1, true, link)
  {
    hide Placed, Pow2, In, CountFull, CountTombstones, FirstAvailable, Holds;
    var (x, h) := t0.slots[idx];
    VacatedInv(t0, idx);
    InsertedInv(t1, dest, x, h);
    InAt(t0, idx);
    OneHandle(t0, x);
  }

  lemma InAt(t: Table, s: nat)
    requires Shaped(t) && s < |t.ctrl| && t.ctrl[s].Full?
    ensures In(t, t.slots[s].0, t.slots[s].1)
  {
  }

  lemma OneHandle(t: Table, x: int)
    requires TableInv(t)
    ensures forall h: nat, k: nat :: In(t, x, h) && In(t, x, k) ==> h == k
  {
    forall h: nat, k: nat | In(t, x, h) && In(t, x, k) ensures h == k {
      var s: nat :| s < |t.ctrl| && t.ctrl[s].Full? && t.slots[s] == (x, h);
      var r: nat :| r < |t.ctrl| && t.ctrl[r].Full? && t.slots[r] == (x, k);
    }
  }

  lemma HoldsIn(t: Table, x: int)
    requires Shaped(t)
    ensures (forall s: nat :: !Holds(t, s, x)) <==> (forall h: nat :: !In(t, x, h))
  {
    if forall s: nat :: !Holds(t, s, x) {
      forall h: nat ensures !In(t, x, h) {
        if In(t, x, h) {
          var s: nat :| s < |t.ctrl| && t.ctrl[s].Full? && t.slots[s] == (x, h);
          assert Holds(t, s, x);
        }
      }
    }
    if forall h: nat :: !In(t, x, h) {
      forall s: nat ensures !Holds(t, s, x) {
        if Holds(t, s, x) { InAt(t, s); }
      }
    }
  }

  // ----- The store of the values -----

  ghost predicate Owned(link: map<int, nat>, h: nat) {
    exists x :: x in link && link[x] == h
  }

  /** Each key has a handle of its own, and each handle of the store belongs to a key. */
  ghost predicate HiveInv(hive: map<nat, int>, link: map<int, nat>, nextHandle: nat) {
    && (forall x :: x in link ==> link[x] in hive)
    && (forall x, y :: x in link && y in link && x != y ==> link[x] != link[y])
    && (forall h :: h in hive ==> h < nextHandle && Owned(link, h))
  }

  /** The finite map that the structure stands for. */
  ghost function Model(hive: map<nat, int>, link: map<int, nat>): map<int, int>
    requires forall x :: x in link ==> link[x] in hive
  {
    map x | x in link :: hive[link[x]]
  }

  lemma FinalizeStep(t0: Table, t1: Table, idx: nat, slack: nat, link: map<int, nat>)
    requires Moving(t0, t1, idx) && Budget(t0, t1, slack) && Linked(t0, t1, true, link) && CountFull(t0.ctrl) == 0
    ensures Calm(t1) && Linked(t1, t1, false, link) && 8 * (t1.size + t1.tombstones + 1) <= 7 * |t1.ctrl|
  {
    hide Placed, Pow2, CountFull, CountTombstones;
    CountNone(t0.ctrl);
    GroupsAreEight(t1);
    EmptyIn(t0);
  }

  lemma EmptyIn(t: Table)
    requires Shaped(t) && forall s :: 0 <= s < |t.ctrl| ==> !t.ctrl[s].Full?
    ensures forall x: int, h: nat :: !In(t, x, h)
  {
  }

  /** A rehash may use half of the new table for the old pairs. */
  lemma StartStep(t: Table, hash: int -> nat, log: nat, link: map<int, nat>)
    requires Calm(t) && t.ctrl != [] && Linked(t, t, false, link) && 2 * t.size <= GROUP * Pow2(log)
    ensures var u := FreshTable(hash, log);
      Moving(t, u, 0) && Budget(t, u, 0) && Linked(t, u, true, link)
  {
    hide Placed, CountFull, CountTombstones;
    FreshInv(hash, log);
  }

  lemma RemoveFrom(t: Table, s: nat, link: map<int, nat>)
    requires TableInv(t) && s < |t.ctrl| && t.ctrl[s].Full? && Linked(t, t, false, link)
    ensures var x := t.slots[s].0; x in link && Linked(Erased(t, s), t, false, link - {x})
  {
    hide Placed, Pow2, CountFull, CountTombstones, In;
    InAt(t, s);
    ErasedInv(t, s);
  }

  lemma RemoveOld(t0: Table, t1: Table, idx: nat, s: nat, link: map<int, nat>)
    requires Moving(t0, t1, idx) && Budget(t0, t1, 0) && s < |t0.ctrl| && t0.ctrl[s].Full? && Linked(t0, t1, true, link)
    ensures var x, u := t0.slots[s].0, Erased(t0, s);
      x in link && Moving(u, t1, idx) && Budget(u, t1, 0) && Linked(u, t1, true, link - {x})
  {
    hide Placed, Pow2, CountFull, CountTombstones, In;
    InAt(t0, s);
    ErasedInv(t0, s);
  }

  lemma RemoveNew(t0: Table, t1: Table, idx: nat, s: nat, link: map<int, nat>)
    requires Moving(t0, t1, idx) && Budget(t0, t1, 0) && s < |t1.ctrl| && t1.ctrl[s].Full? && Linked(t0, t1, true, link)
    ensures var x, u := t1.slots[s].0, Erased(t1, s);
      x in link && Moving(t0, u, idx) && Budget(t0, u, 0) && Linked(t0, u, true, link - {x})
  {
    hide Placed, Pow2, CountFull, CountTombstones, In;
    InAt(t1, s);
    ErasedInv(t1, s);
  }

  lemma InsertNew(t0: Table, t1: Table, idx: nat, dest: nat, x: int, h: nat, link: map<int, nat>)
    requires Moving(t0, t1, idx) && Budget(t0, t1, 8) && x !in link && Linked(t0, t1, true, link)
    requires FirstAvailable(t1, x, dest)
    ensures var u := Inserted(t1, dest, x, h);
      Moving(t0, u, idx) && Budget(t0, u, 0) && Linked(t0, u, true, link[x := h])
  {
    hide Placed, Pow2, CountFull, CountTombstones, In;
    HoldsIn(t1, x);
    InsertedInv(t1, dest, x, h);
  }

  lemma InsertAlone(t: Table, dest: nat, x: int, h: nat, link: map<int, nat>)
    requires Calm(t) && t.ctrl != [] && x !in link && Linked(t, t, false, link)
    requires 8 * (t.size + t.tombstones + 1) <= 7 * |t.ctrl| && FirstAvailable(t, x, dest)
    ensures var u := Inserted(t, dest, x, h);
      Calm(u) && Linked(u, u, false, link[x := h])
  {
    hide Placed, Pow2, CountFull, CountTombstones, In;
    HoldsIn(t, x);
    InsertedInv(t, dest, x, h);
  }

  lemma LinkedCalm(t0: Table, t1: Table, u: Table, link: map<int, nat>)
    requires Shaped(t0) && Linked(t0, t1, false, link)
    ensures Linked(t0, u, false, link)
  {
  }

  lemma ModelInsert(hive: map<nat, int>, link: map<int, nat>, n: nat, x: int, v: int)
    requires (forall y :: y in link ==> link[y] in hive) && n !in hive
    ensures Model(hive[n := v], link[x := n]) == Model(hive, link)[x := v]
  {
    var after, expected := Model(hive[n := v], link[x := n]), Model(hive, link)[x := v];
    assert after.Keys == expected.Keys;
    assert forall y :: y in after ==> after[y] == expected[y];
  }

  lemma ModelRemove(hive: map<nat, int>, link: map<int, nat>, x: int)
    requires (forall y :: y in link ==> link[y] in hive) && x in link
    requires forall y :: y in link && y != x ==> link[y] != link[x]
    ensures forall y :: y in link - {x} ==> (link - {x})[y] in hive - {link[x]}
    ensures Model(hive - {link[x]}, link - {x}) == Model(hive, link) - {x}
  {
    var after, expected := Model(hive - {link[x]}, link - {x}), Model(hive, link) - {x};
    assert after.Keys == expected.Keys;
    assert forall y :: y in after ==> after[y] == expected[y];
  }

  lemma HiveInsert(hive: map<nat, int>, link: map<int, nat>, n: nat, x: int, v: int)
    requires HiveInv(hive, link, n) && x !in link
    ensures HiveInv(hive[n := v], link[x := n], n + 1)
    ensures Model(hive[n := v], link[x := n]) == Model(hive, link)[x := v]
  {
    assert n !in hive;
    var hive', link' := hive[n := v], link[x := n];
    forall h | h in hive' ensures Owned(link', h) {
      if h == n {
        assert link'[x] == h;
      } else {
        OwnedKept(link, link', h);
      }
    }
    ModelInsert(hive, link, n, x, v);
  }

  lemma OwnedKept(link: map<int, nat>, after: map<int, nat>, h: nat)
    requires Owned(link, h) && forall y :: y in link && link[y] == h ==> y in after && after[y] == h
    ensures Owned(after, h)
  {
  }

  lemma HiveRemove(hive: map<nat, int>, link: map<int, nat>, n: nat, x: int)
    requires HiveInv(hive, link, n) && x in link
    ensures HiveInv(hive - {link[x]}, link - {x}, n)
    ensures Model(hive - {link[x]}, link - {x}) == Model(hive, link) - {x}
  {
    var hive', link' := hive - {link[x]}, link - {x};
    forall h | h in hive' ensures Owned(link', h) {
      OwnedKept(link, link', h);
    }
    hide Owned;
    ModelRemove(hive, link, x);
  }

  // ----- The number of pairs -----

  /** The keys at positions from n on. */
  ghost function KeysFrom(t: Table, n: nat): set<int>
    requires Shaped(t) && n <= |t.ctrl|
  {
    set s | n <= s < |t.ctrl| && t.ctrl[s].Full? :: t.slots[s].0
  }

  lemma KeysStep(t: Table, n: nat)
    requires Shaped(t) && n < |t.ctrl|
    ensures KeysFrom(t, n) == KeysFrom(t, n + 1) + if t.ctrl[n].Full? then {t.slots[n].0} else {}
  {
    hide Pow2;
  }

  lemma KeyNew(t: Table, n: nat)
    requires TableInv(t) && n < |t.ctrl| && t.ctrl[n].Full?
    ensures t.slots[n].0 !in KeysFrom(t, n + 1)
  {
    hide Placed, Pow2, CountFull;
  }

  lemma CountStep(c: seq<Ctrl>, n: nat)
    requires n < |c|
    ensures CountFull(c[n..]) == CountFull(c[n + 1..]) + if c[n].Full? then 1 else 0
  {
    assert c[n..][1..] == c[n + 1..];
  }

  lemma AddedCount(s: set<int>, x: int)
    requires x !in s
    ensures |s + {x}| == |s| + 1
  {
  }

  lemma {:induction false} KeysCount(t: Table, n: nat)
    requires TableInv(t) && n <= |t.ctrl|
    ensures |KeysFrom(t, n)| == CountFull(t.ctrl[n..])
    decreases |t.ctrl| - n
  {
    assert Shaped(t);
    hide TableInv, Shaped;
    if n == |t.ctrl| { return; }
    hide *;
    KeysStep(t, n);
    CountStep(t.ctrl, n);
    KeysCount(t, n + 1);
    if t.ctrl[n].Full? {
      KeyNew(t, n);
      AddedCount(KeysFrom(t, n + 1), t.slots[n].0);
    }
  }

  lemma KeysAre(t: Table)
    requires TableInv(t)
    ensures forall x :: x in KeysFrom(t, 0) <==> exists h: nat :: In(t, x, h)
    ensures |KeysFrom(t, 0)| == t.size
  {
    hide Placed, Pow2, CountFull;
    forall x ensures x in KeysFrom(t, 0) <==> exists h: nat :: In(t, x, h) {
      if x in KeysFrom(t, 0) {
        var s :| 0 <= s < |t.ctrl| && t.ctrl[s].Full? && t.slots[s].0 == x;
        InAt(t, s);
      }
    }
    KeysCount(t, 0);
    assert t.ctrl[0..] == t.ctrl;
  }

  /** The sizes of the tables count the keys of the map. */
  lemma PairCount(t0: Table, t1: Table, rehashing: bool, idx: nat, slack: nat, link: map<int, nat>)
    requires TablesInv(t0, t1, rehashing, idx, slack) && Linked(t0, t1, rehashing, link)
    ensures |link| == t0.size + if rehashing then t1.size else 0
  {
    hide Placed, Pow2, CountFull, In, KeysFrom;
    KeysAre(t0);
    if rehashing { KeysAre(t1); }
    var keys := KeysFrom(t0, 0) + if rehashing then KeysFrom(t1, 0) else {};
    forall x ensures x in keys <==> x in link.Keys {
      NotLinked(t0, t1, rehashing, link, x);
    }
    assert link.Keys == keys;
    if rehashing {
      forall x | x in KeysFrom(t0, 0) ensures x !in KeysFrom(t1, 0) {
        var h: nat :| In(t0, x, h);
        assert forall k: nat :: !In(t1, x, k);
      }
      assert KeysFrom(t0, 0) !! KeysFrom(t1, 0);
    }
    assert |link| == |link.Keys|;
  }

  /** More than one group, and at most a quarter of the slots full. */
  predicate Sparse(t: Table) {
    |t.ctrl| > 8 && t.size <= |t.ctrl| / 4
  }

  /** One more pair would take more than 7/8 of the slots, tombstones included. */
  predicate Crowded(t: Table) {
    (t.size + t.tombstones + 1) * 8 > |t.ctrl| * 7
  }

  /** The capacity that a rehash goes over to. */
  function NextCapacity(t: Table): nat {
    if Sparse(t) then |t.ctrl| / 2 else if 2 * t.size <= |t.ctrl| then |t.ctrl| else 2 * |t.ctrl|
  }

  class HashMap {
    var t0: Table
    var t1: Table
    var rehashing: bool
    var rehashIdx: nat
    var hive: map<nat, int>
    var nextHandle: nat
    /** The handle of each key. */
    ghost var link: map<int, nat>

    /** The two tables and link, with slack to spare in a rehash. */
    ghost predicate Tables(slack: nat)
      reads this
    {
      TablesInv(t0, t1, rehashing, rehashIdx, slack) && Linked(t0, t1, rehashing, link)
    }

    ghost predicate Valid()
      reads this
    {
      Tables(0) && HiveInv(hive, link, nextHandle)
    }

    /** The finite map that the structure stands for. */
    ghost function Contents(): map<int, int>
      requires Valid()
      reads this
    {
      Model(hive, link)
    }

    /** `capacity` */
    function Capacity(): nat
      reads this
    {
      if rehashing then |t1.ctrl| else |t0.ctrl|
    }

    constructor (hash: int -> nat)
      ensures Valid() && Contents() == map[] && Capacity() == 0
    {
      t0, t1 := Table(hash, 0, [], [], 0, 0), Table(hash, 0, [], [], 0, 0);
      rehashing, rehashIdx, hive, nextHandle, link := false, 0, map[], 0, map[];
    }

    /** `search` */
    method Search(x: int) returns (r: Option<nat>)
      requires Tables(0)
      ensures r == if x in link then Some(link[x]) else None
    {
      hide Placed, Pow2, CountFull, CountTombstones, In, Holds;
      assert x in link ==> In(t0, x, link[x]) || (rehashing && In(t1, x, link[x]));
      if t0.ctrl == [] {
        EmptyIn(t0);
        return None;
      }
      if rehashing {
        var s1 := FindSlot(t1, x);
        HoldsIn(t1, x);
        if s1.Some? {
          HeldIn(t1, s1.value, x);
          return Some(t1.slots[s1.value].1);
        }
      }
      var s0 := FindSlot(t0, x);
      HoldsIn(t0, x);
      if s0.Some? {
        HeldIn(t0, s0.value, x);
        return Some(t0.slots[s0.value].1);
      }
      r := None;
    }

    /** `finalize_rehash`.  Its loop over the old table does nothing here: whenever it is called, that table is empty. */
    method FinalizeRehash()
      requires rehashing && Tables(0) && CountFull(t0.ctrl) == 0
      modifies `t0, `rehashing, `rehashIdx
      ensures !rehashing && Tables(0) && t0.ctrl != [] && 8 * (t0.size + t0.tombstones + 1) <= 7 * |t0.ctrl|
      ensures t0 == t1
    {
      hide Placed, Pow2, CountFull, CountTombstones, In, Drift, Used;
      FinalizeStep(t0, t1, rehashIdx, 0, link);
      LinkedCalm(t1, t1, t1, link);
      t0 := t1;
      rehashing := false;
      rehashIdx := 0;
    }

    /** `step_rehash`: with more than n pairs left, n of them are moved; otherwise all of them are, and the new table takes
        over. */
    method StepRehash(n: nat)
      requires Tables(0)
      modifies `t0, `t1, `rehashing, `rehashIdx
      ensures Tables(0) && (rehashing ==> Tables(2 * n))
      ensures !old(rehashing) ==> t0 == old(t0) && !rehashing
      ensures old(t0.ctrl) != [] ==> t0.ctrl != []
      ensures old(rehashing) && !rehashing ==> 8 * (t0.size + t0.tombstones + 1) <= 7 * |t0.ctrl|
      ensures old(rehashing) ==> (rehashing <==> old(t0.size) > n)
      ensures rehashing ==> t0.size == old(t0.size) - n && t1.size == old(t1.size) + n && |t1.ctrl| == old(|t1.ctrl|)
      ensures old(rehashing) && !rehashing ==> t0.size == old(t0.size + t1.size) && |t0.ctrl| == old(|t1.ctrl|)
    {
      hide Placed, Pow2, CountFull, CountTombstones, In, Holds, FirstAvailable, Drift, Used;
      if !rehashing { return; }
      var moved := 0;
      while rehashIdx < |t0.ctrl| && moved < n
        invariant rehashing && Tables(2 * moved) && moved <= n
        invariant t0.size == old(t0.size) - moved && t1.size == old(t1.size) + moved && |t1.ctrl| == old(|t1.ctrl|)
        decreases |t0.ctrl| - rehashIdx
      {
        if t0.ctrl[rehashIdx].Full? {
          var (x, h) := t0.slots[rehashIdx];
          var dest := Destination(x, 2 * moved);
          MoveStep(t0, t1, rehashIdx, 2 * moved, link, dest);
          t1 := Inserted(t1, dest, x, h);
          t0 := Vacated(t0, rehashIdx);
          moved := moved + 1;
        }
        rehashIdx := rehashIdx + 1;
      }
      BudgetWeaker(t0, t1, 2 * moved);
      if rehashIdx >= |t0.ctrl| || t0.size == 0 {
        AllMoved(t0, rehashIdx);
        FinalizeRehash();
      }
    }

    /** Where the pair in the old table at rehashIdx goes: `find_insert_slot` finds a slot. */
    method Destination(x: int, slack: nat) returns (dest: nat)
      requires rehashing && Tables(slack) && rehashIdx < |t0.ctrl| && t0.ctrl[rehashIdx].Full?
      requires x == t0.slots[rehashIdx].0
      ensures dest < |t1.ctrl| && FirstAvailable(t1, x, dest) && forall r: nat :: !Holds(t1, r, x)
    {
      hide Placed, Pow2, CountFull, CountTombstones, In, Holds, FirstAvailable, Drift, Used, Available;
      InAt(t0, rehashIdx);
      HoldsIn(t1, x);
      BudgetLeavesSlot(t0, t1, slack);
      SlotExists(t1);
      var r := FindInsertSlot(t1, x);
      dest := r.value;
      FirstInRange(t1, x, dest);
    }

    /** `start_rehash`: hash is that of the fresh random key. */
    method StartRehash(hash: int -> nat)
      requires !rehashing && t0.ctrl != [] && Tables(0)
      modifies `t1, `rehashing, `rehashIdx
      ensures rehashing && Tables(0) && t1.size == 0
      ensures |t1.ctrl| == NextCapacity(t0)
    {
      hide Placed, CountFull, CountTombstones, In, Drift, Used;
      var log := t0.log + 1;
      if t0.size <= |t0.ctrl| / 4 && |t0.ctrl| > 8 {
        assert t0.log > 0;
        log := t0.log - 1;
      } else if t0.size * 2 <= |t0.ctrl| {
        log := t0.log;
      }
      LinkedCalm(t0, t1, t0, link);
      StartStep(t0, hash, log, link);
      t1 := FreshTable(hash, log);
      rehashing := true;
      rehashIdx := 0;
    }

    /** `ensure_capacity_for_insert`: exactly a crowded table is rehashed.  The branch that would cut a running rehash short
        is never taken. */
    method EnsureCapacity(hash: int -> nat)
      requires Tables(0) && (rehashing ==> Tables(2 * STEP))
      modifies `t0, `t1, `rehashing, `rehashIdx
      ensures t0.ctrl != [] && Tables(if rehashing then 2 * STEP else 0)
      ensures !rehashing ==> 8 * (t0.size + t0.tombstones + 1) <= 7 * |t0.ctrl|
      ensures old(t0.ctrl) == [] && !old(rehashing) ==> !rehashing && Capacity() == 8 && t0.size == 0
      ensures old(rehashing) || (old(t0.ctrl) != [] && !Crowded(old(t0))) ==>
        t0 == old(t0) && t1 == old(t1) && rehashing == old(rehashing)
      ensures old(t0.ctrl) != [] && !old(rehashing) && Crowded(old(t0)) ==>
        && Capacity() == NextCapacity(old(t0)) && (rehashing <==> old(t0.size) > STEP)
        && t0.size + (if rehashing then t1.size else 0) == old(t0.size)
    {
      hide Placed, Pow2, CountFull, CountTombstones, In, Budget;
      if t0.ctrl == [] {
        FirstTable(t0, t1, hash, link);
        t0 := FreshTable(hash, 0);
      } else if !rehashing {
        if Crowded(t0) {
          StartRehash(hash);
          StepRehash(STEP);
        }
      } else {
        BudgetBounds(t0, t1);
        if Crowded(t1) { assert false; }
      }
    }

    /** The insertion into the table that takes new pairs. */
    method Place(x: int, h: nat)
      requires t0.ctrl != [] && Tables(if rehashing then 2 * STEP else 0) && x !in link
      requires !rehashing ==> 8 * (t0.size + t0.tombstones + 1) <= 7 * |t0.ctrl|
      modifies `t0, `t1, `link
      ensures Tables(0) && link == old(link)[x := h]
      ensures Capacity() == old(Capacity())
      ensures if rehashing then t0 == old(t0) && t1.size == old(t1.size) + 1 else t0.size == old(t0.size) + 1
    {
      hide Placed, Pow2, CountFull, CountTombstones, In, Holds, FirstAvailable, Available, Drift, Used, Budget;
      if rehashing {
        BudgetLeavesSlot(t0, t1, 2 * STEP);
        NotLinked(t0, t1, rehashing, link, x);
        HoldsIn(t1, x);
        SlotExists(t1);
        var r := FindInsertSlot(t1, x);
        FirstInRange(t1, x, r.value);
        InsertNew(t0, t1, rehashIdx, r.value, x, h, link);
        t1 := Inserted(t1, r.value, x, h);
      } else {
        LoadLeavesSlot(t0);
        NotLinked(t0, t1, rehashing, link, x);
        HoldsIn(t0, x);
        SlotExists(t0);
        var r := FindInsertSlot(t0, x);
        FirstInRange(t0, x, r.value);
        LinkedCalm(t0, t1, t0, link);
        InsertAlone(t0, r.value, x, h, link);
        t0 := Inserted(t0, r.value, x, h);
        LinkedCalm(t0, t0, t1, link[x := h]);
      }
      link := link[x := h];
    }

    /** `emplace`: an existing key keeps its value. */
    method Emplace(x: int, v: int, hash: int -> nat) returns (inserted: bool, h: nat)
      requires Valid()
      modifies this
      ensures Valid() && h in hive && Contents().Keys == old(Contents().Keys) + {x}
      ensures inserted <==> x !in old(Contents())
      ensures Contents() == if inserted then old(Contents())[x := v] else old(Contents())
      ensures x in link && link[x] == h && hive[h] == Contents()[x]
      ensures forall y :: y in old(link) ==> y in link && link[y] == old(link[y])
      ensures var cap, size, tombstones := old(Capacity()), old(t0.size), old(t0.tombstones);
        var crowded := inserted && !old(rehashing) && cap > 0 && 8 * (size + tombstones + 1) > 7 * cap;
        && Capacity() == (if inserted && cap == 0 then 8
                          else if !crowded then cap
                          else if cap > 8 && size <= cap / 4 then cap / 2
                          else if 2 * size <= cap then cap else 2 * cap)
        && (rehashing <==> (old(rehashing) || crowded) && size > STEP)
    {
      hide TablesInv, Linked, HiveInv, Crowded, NextCapacity;
      HasTable(t0, t1, rehashing, rehashIdx, 0);
      GrowthIs(t0);
      StepRehash(STEP);
      GrowthIs(t0);
      var existing := Search(x);
      if existing.Some? {
        HandleIn(hive, link, nextHandle, x);
        return false, existing.value;
      }
      EnsureCapacity(hash);
      h := nextHandle;
      HiveInsert(hive, link, h, x, v);
      hive := hive[h := v];
      nextHandle := nextHandle + 1;
      Place(x, h);
      inserted := true;
    }

    /** `check_shrink`: a sparse table goes over to one of half its size, at once if it holds no more than four pairs. */
    method CheckShrink(hash: int -> nat)
      requires Tables(0)
      modifies `t0, `t1, `rehashing, `rehashIdx
      ensures Tables(0)
      ensures old(rehashing) || !Sparse(old(t0)) ==> t0 == old(t0) && t1 == old(t1) && rehashing == old(rehashing)
      ensures !old(rehashing) && Sparse(old(t0)) ==>
        && (rehashing <==> old(t0.size) > STEP)
        && (if rehashing then |t1.ctrl| else |t0.ctrl|) == old(|t0.ctrl|) / 2
        && (if rehashing then t0.size + t1.size else t0.size) == old(t0.size)
    {
      if rehashing { return; }
      if |t0.ctrl| > 8 && t0.size <= |t0.ctrl| / 4 {
        StartRehash(hash);
        StepRehash(STEP);
      }
    }

    /** `remove` by key: exactly a table that the removal leaves sparse, with no rehash running, is halved. */
    method Remove(x: int, hash: int -> nat) returns (removed: bool)
      requires Valid()
      modifies this
      ensures Valid() && Contents() == old(Contents()) - {x}
      ensures removed <==> x in old(Contents())
      ensures forall y :: y in link ==> y in old(link) && link[y] == old(link[y])
      ensures var left := |old(Contents())| - 1;
        var moving := old(rehashing) && old(t0.size) > STEP;
        var shrinks := removed && !moving && old(Capacity()) > 8 && left <= old(Capacity()) / 4;
        && Capacity() == (if shrinks then old(Capacity()) / 2 else old(Capacity()))
        && (rehashing <==> moving || (shrinks && left > STEP))
    {
      hide TablesInv, Linked, HiveInv, Model;
      PairCount(t0, t1, rehashing, rehashIdx, 0, link);
      AllIn(hive, link, nextHandle);
      ModelKeys(hive, link);
      HasTable(t0, t1, rehashing, rehashIdx, 0);
      ghost var n, cap, moving := |Contents()|, Capacity(), rehashing && t0.size > STEP;
      if t0.ctrl == [] {
        Nothing(t0, t1, rehashing, rehashIdx, link, x);
        ModelDomain(hive, link);
        assert Contents() - {x} == Contents();
        return false;
      }
      StepRehash(STEP);
      assert rehashing == moving && Capacity() == cap && (!moving ==> t0.size == n && |t0.ctrl| == cap);
      removed := RemoveFound(x, hash);
    }

    /** What `remove` does after the step of the rehash. */
    method RemoveFound(x: int, hash: int -> nat) returns (removed: bool)
      requires Valid()
      modifies this
      ensures Valid() && Contents() == old(Contents()) - {x}
      ensures removed <==> x in old(Contents())
      ensures forall y :: y in link ==> y in old(link) && link[y] == old(link[y])
      ensures var left := old(t0.size) - 1;
        var shrinks := removed && !old(rehashing) && old(|t0.ctrl|) > 8 && left <= old(|t0.ctrl|) / 4;
        && Capacity() == (if shrinks then old(|t0.ctrl|) / 2 else old(Capacity()))
        && (rehashing <==> old(rehashing) || (shrinks && left > STEP))
    {
      hide Placed, Pow2, CountFull, CountTombstones, In, Holds, Drift, Used, Budget, HiveInv, Linked;
      NotLinked(t0, t1, rehashing, link, x);
      if rehashing {
        var s1 := FindSlot(t1, x);
        HoldsIn(t1, x);
        if s1.Some? {
          EraseNew(x, s1.value);
          CheckShrink(hash);
          return true;
        }
      }
      var s0 := FindSlot(t0, x);
      HoldsIn(t0, x);
      if s0.Some? {
        EraseOld(x, s0.value);
        CheckShrink(hash);
        return true;
      }
      removed := false;
    }

    method EraseNew(x: int, s: nat)
      requires Valid() && rehashing && Holds(t1, s, x)
      modifies `t1, `hive, `link
      ensures Valid() && x in old(link) && link == old(link) - {x} && Contents() == old(Contents()) - {x}
      ensures t1.size == old(t1.size) - 1 && |t1.ctrl| == old(|t1.ctrl|)
    {
      hide Placed, Pow2, CountFull, CountTombstones, In, Holds, Drift, Used, Budget, HiveInv, Linked;
      HeldIn(t1, s, x);
      HeldKey(t1, s, x);
      KeyAt(t0, t1, rehashing, link, x, t1.slots[s].1);
      RemoveNew(t0, t1, rehashIdx, s, link);
      Forget(x, t1.slots[s].1);
      t1 := Erased(t1, s);
    }

    method EraseOld(x: int, s: nat)
      requires Valid() && Holds(t0, s, x)
      modifies `t0, `hive, `link
      ensures Valid() && x in old(link) && link == old(link) - {x} && Contents() == old(Contents()) - {x}
      ensures t0.size == old(t0.size) - 1 && |t0.ctrl| == old(|t0.ctrl|)
    {
      hide Placed, Pow2, CountFull, CountTombstones, In, Holds, Drift, Used, Budget, HiveInv, Linked;
      HeldIn(t0, s, x);
      HeldKey(t0, s, x);
      KeyAt(t0, t1, rehashing, link, x, t0.slots[s].1);
      if rehashing {
        RemoveOld(t0, t1, rehashIdx, s, link);
      } else {
        LinkedCalm(t0, t1, t0, link);
        RemoveFrom(t0, s, link);
        RemoveCalm(t0, s);
        LinkedCalm(Erased(t0, s), t0, t1, link - {x});
      }
      Forget(x, t0.slots[s].1);
      t0 := Erased(t0, s);
    }

    /** `clear`.  The map is empty afterwards, but the table may be left unusable: it keeps its tombstone bytes
        and forgets their number. */
    method Clear()
      requires Valid()
      modifies this
      ensures !rehashing && link == map[] && hive == map[]
      ensures Valid() <==> t0.ctrl == [] || 8 * CountTombstones(old(t0.ctrl)) < |t0.ctrl| + 8
      ensures t0 == Cleared(old(t0))
    {
      hide Placed, Pow2, CountFull, CountTombstones, In;
      if t0.ctrl != [] {
        ClearedCalm(t0, t1);
      } else {
        EmptyIn(t0);
      }
      t0 := Cleared(t0);
      rehashing := false;
      rehashIdx := 0;
      hive := map[];
      link := map[];
    }

    /** `hive_.remove` */
    method Forget(x: int, h: nat)
      requires HiveInv(hive, link, nextHandle) && x in link && link[x] == h
      modifies `hive, `link
      ensures link == old(link) - {x} && HiveInv(hive, link, nextHandle)
      ensures Model(hive, link) == old(Model(hive, link)) - {x}
    {
      HiveRemove(hive, link, nextHandle, x);
      hive := hive - {h};
      link := link - {x};
    }
  }

  lemma GrowthIs(t: Table)
    ensures Crowded(t) <==> 8 * (t.size + t.tombstones + 1) > 7 * |t.ctrl|
    ensures NextCapacity(t) == if |t.ctrl| > 8 && t.size <= |t.ctrl| / 4 then |t.ctrl| / 2
                               else if 2 * t.size <= |t.ctrl| then |t.ctrl| else 2 * |t.ctrl|
  {
  }

  lemma HasTable(t0: Table, t1: Table, rehashing: bool, idx: nat, slack: nat)
    requires TablesInv(t0, t1, rehashing, idx, slack)
    ensures rehashing ==> t0.ctrl != [] && t1.ctrl != []
  {
  }

  lemma ModelKeys(hive: map<nat, int>, link: map<int, nat>)
    requires forall x :: x in link ==> link[x] in hive
    ensures |Model(hive, link)| == |link|
  {
    assert Model(hive, link).Keys == link.Keys;
    assert |link| == |link.Keys| && |Model(hive, link)| == |Model(hive, link).Keys|;
  }

  lemma AllIn(hive: map<nat, int>, link: map<int, nat>, n: nat)
    requires HiveInv(hive, link, n)
    ensures forall x :: x in link ==> link[x] in hive
  {
  }

  lemma Nothing(t0: Table, t1: Table, rehashing: bool, idx: nat, link: map<int, nat>, x: int)
    requires TablesInv(t0, t1, rehashing, idx, 0) && Linked(t0, t1, rehashing, link) && t0.ctrl == []
    ensures x !in link && !rehashing
  {
    NoKeys(t0, t1, rehashing, link, x);
  }

  lemma ModelDomain(hive: map<nat, int>, link: map<int, nat>)
    requires forall x :: x in link ==> link[x] in hive
    ensures forall x :: x in Model(hive, link) <==> x in link
  {
  }

  lemma HandleIn(hive: map<nat, int>, link: map<int, nat>, n: nat, x: int)
    requires HiveInv(hive, link, n) && x in link
    ensures link[x] in hive
  {
  }

  lemma FirstTable(t0: Table, t1: Table, hash: int -> nat, link: map<int, nat>)
    requires Shaped(t0) && t0.ctrl == [] && Linked(t0, t1, false, link)
    ensures var u := FreshTable(hash, 0);
      Calm(u) && Linked(u, t1, false, link) && |u.ctrl| == 8 && u.size == 0 && u.tombstones == 0
  {
    hide Placed, CountFull, CountTombstones, In;
    FreshInv(hash, 0);
    forall x ensures x !in link { NoKeys(t0, t1, false, link, x); }
  }

  // ----- Clearing -----

  /** `clear_table`: only full slots become empty; tombstone bytes stay, but are no longer counted. */
  function Cleared(t: Table): Table {
    if t.ctrl == [] then t
    else t.(ctrl := ClearedCtrl(t.ctrl), size := 0, tombstones := 0)
  }

  function ClearedCtrl(c: seq<Ctrl>): (r: seq<Ctrl>)
    ensures |r| == |c| && forall s :: 0 <= s < |c| ==> r[s] == if c[s].Full? then Empty else c[s]
    ensures CountTombstones(r) == CountTombstones(c) && CountFull(r) == 0
  {
    if c == [] then [] else [if c[0].Full? then Empty else c[0]] + ClearedCtrl(c[1..])
  }

  /** A cleared table is usable exactly when it held fewer tombstone bytes than an eighth of its slots, plus one. */
  lemma ClearedCalm(t: Table, u: Table)
    requires TableInv(t) && t.ctrl != []
    ensures TableInv(Cleared(t)) && Drift(Cleared(t)) == CountTombstones(t.ctrl)
    ensures Calm(Cleared(t)) <==> 8 * CountTombstones(t.ctrl) < |t.ctrl| + 8
    ensures Linked(Cleared(t), u, false, map[])
  {
    hide Pow2, CountFull, CountTombstones;
    EmptyIn(Cleared(t));
  }

  /** The state that the insertion path of an uncrowded table leads to: keys inserted one after the other, each load test
      passed, so that no rehash starts. */
  ghost predicate Fills(t: Table, xs: seq<int>, u: Table)
    requires TableInv(t)
    decreases xs
  {
    if xs == [] then u == t
    else
      && t.ctrl != [] && 8 * (t.size + t.tombstones + 1) <= 7 * |t.ctrl|
      && (forall r: nat :: !Holds(t, r, xs[0]))
      && exists s: nat :: FirstAvailable(t, xs[0], s)
           && TableInv(Inserted(t, s, xs[0], 0)) && Fills(Inserted(t, s, xs[0], 0), xs[1..], u)
  }

  lemma {:induction false} CountBoth(c: seq<Ctrl>)
    ensures CountFull(c) + CountTombstones(c) <= |c|
  {
    if c != [] { CountBoth(c[1..]); }
  }

  lemma {:induction false} FirstGroup(t: Table, x: int, q: nat, p: nat) returns (r: nat)
    requires Shaped(t) && t.ctrl != [] && q <= p < Pow2(t.log) && !NoneAvailable(t, GroupOf(t, x, p))
    requires forall i: nat :: i < q ==> NoneAvailable(t, GroupOf(t, x, i))
    ensures r < Pow2(t.log) && !NoneAvailable(t, GroupOf(t, x, r))
    ensures forall i: nat :: i < r ==> NoneAvailable(t, GroupOf(t, x, i))
    decreases p - q
  {
    if !NoneAvailable(t, GroupOf(t, x, q)) { r := q; } else { r := FirstGroup(t, x, q + 1, p); }
  }

  lemma {:induction false} FirstSlot(t: Table, x: int, p: nat, i: nat) returns (s: nat)
    requires Shaped(t) && t.ctrl != [] && p < Pow2(t.log) && i <= GROUP && !NoneAvailable(t, GroupOf(t, x, p))
    requires forall q: nat :: q < p ==> NoneAvailable(t, GroupOf(t, x, q))
    requires var base := GROUP * GroupOf(t, x, p); forall j: nat :: base <= j < base + i ==> !Available(t, j)
    ensures FirstAvailable(t, x, s)
    decreases GROUP - i
  {
    s := GROUP * GroupOf(t, x, p) + i;
    if i < GROUP && Available(t, s) {
      FoundFirst(t, x, p, s);
    } else {
      s := FirstSlot(t, x, p, i + 1);
    }
  }

  lemma FirstExists(t: Table, x: int) returns (s: nat)
    requires TableInv(t) && CountFull(t.ctrl) < |t.ctrl|
    ensures FirstAvailable(t, x, s)
  {
    hide Placed, Pow2, CountFull, FirstAvailable, GroupOf;
    SlotExists(t);
    if forall q: nat :: q < Pow2(t.log) ==> NoneAvailable(t, GroupOf(t, x, q)) {
      PathCovers(t, x);
    } else {
      var p: nat :| p < Pow2(t.log) && !NoneAvailable(t, GroupOf(t, x, p));
      p := FirstGroup(t, x, 0, p);
      s := FirstSlot(t, x, p, 0);
    }
  }

  lemma {:induction false} FreshKey(slots: seq<(int, nat)>) returns (x: int)
    ensures forall s :: 0 <= s < |slots| ==> slots[s].0 < x
  {
    if slots == [] {
      x := 0;
    } else {
      var y := FreshKey(slots[1..]);
      x := if slots[0].0 < y then y else slots[0].0 + 1;
      assert slots == [slots[0]] + slots[1..];
    }
  }

  /** With more tombstone bytes uncounted than that, insertions that all pass the load test fill the table up, and
      the next insertion passes it too but finds no slot. */
  lemma {:induction false} DriftOverflows(t: Table) returns (xs: seq<int>, u: Table)
    requires TableInv(t) && t.ctrl != [] && 8 * Drift(t) >= |t.ctrl| + 8
    ensures Fills(t, xs, u) && TableInv(u) && u.ctrl != [] && 8 * (u.size + u.tombstones + 1) <= 7 * |u.ctrl|
    ensures forall s: nat :: !Available(u, s)
    decreases |t.ctrl| - CountFull(t.ctrl)
  {
    hide Placed, Pow2, CountFull, CountTombstones, FirstAvailable, In, Holds, Fills;
    CountBoth(t.ctrl);
    FillsNone(t);
    if CountFull(t.ctrl) == |t.ctrl| {
      xs, u := [], t;
      AllFull(t.ctrl);
    } else {
      var x := FreshKey(t.slots);
      KeyFresh(t, x);
      var s := FirstExists(t, x);
      FirstInRange(t, x, s);
      InsertedInv(t, s, x, 0);
      xs, u := DriftOverflows(Inserted(t, s, x, 0));
      FillsMore(t, x, s, xs, u);
      xs := [x] + xs;
    }
  }

  lemma FillsNone(t: Table)
    requires TableInv(t)
    ensures Fills(t, [], t)
  {
  }

  lemma FillsMore(t: Table, x: int, s: nat, xs: seq<int>, u: Table)
    requires TableInv(t) && t.ctrl != [] && 8 * (t.size + t.tombstones + 1) <= 7 * |t.ctrl|
    requires (forall r: nat :: !Holds(t, r, x)) && FirstAvailable(t, x, s)
    requires TableInv(Inserted(t, s, x, 0)) && Fills(Inserted(t, s, x, 0), xs, u)
    ensures Fills(t, [x] + xs, u)
  {
    hide Placed, CountFull, Pow2, FirstAvailable;
    var all := [x] + xs;
    assert all[0] == x && all[1..] == xs;
    assert FirstAvailable(t, all[0], s);
  }

  lemma KeyFresh(t: Table, x: int)
    requires Shaped(t) && forall s :: 0 <= s < |t.slots| ==> t.slots[s].0 < x
    ensures forall r: nat :: !Holds(t, r, x)
  {
  }

  lemma {:induction false} AllFull(c: seq<Ctrl>)
    requires CountFull(c) == |c|
    ensures forall s :: 0 <= s < |c| ==> c[s].Full?
  {
    if c != [] {
      AllFull(c[1..]);
      assert c == [c[0]] + c[1..];
    }
  }

  /** A first table of eight slots into which the keys 1 to n were inserted. */
  function Filled(hash: int -> nat, n: nat): Table
    requires n <= 6
    ensures Shaped(Filled(hash, n)) && |Filled(hash, n).ctrl| == 8
  {
    if n == 0 then FreshTable(hash, 0) else Inserted(Filled(hash, n - 1), n - 1, n, n - 1)
  }

  /** ... all six of them, and then the keys 1 to n removed. */
  function Emptied(hash: int -> nat, n: nat): Table
    requires n <= 6
    ensures Shaped(Emptied(hash, n)) && |Emptied(hash, n).ctrl| == 8
  {
    if n == 0 then Filled(hash, 6) else Erased(Emptied(hash, n - 1), n - 1)
  }

  /** In a table of one group the first available slot does not depend on the hash. */
  lemma FirstOfGroup(t: Table, x: int, s: nat)
    requires Shaped(t) && |t.ctrl| == 8 && t.log == 0 && s < 8 && !t.ctrl[s].Full?
    requires forall i :: 0 <= i < s ==> t.ctrl[i].Full?
    ensures FirstAvailable(t, x, s)
  {
    assert Pow2(0) == 1;
    FoundFirst(t, x, 0, s);
  }

  /** Each key goes to the first available slot of a table that does not hold it, and passes the load test. */
  lemma {:induction false} FillsUp(hash: int -> nat, n: nat)
    requires n <= 6
    ensures var t := Filled(hash, n);
      && TableInv(t) && t.log == 0 && t.size == n && t.tombstones == 0 == Drift(t)
      && (forall i :: 0 <= i < 8 ==> if i < n then t.ctrl[i].Full? && t.slots[i].0 == i + 1 else t.ctrl[i] == Empty)
      && FirstAvailable(t, n + 1, n) && (forall r: nat, x: int :: x > n ==> !Holds(t, r, x))
      && 8 * (t.size + t.tombstones + 1) <= 7 * |t.ctrl|
  {
    hide Placed, CountFull, CountTombstones, FirstAvailable, In, Used;
    if n == 0 {
      FreshInv(hash, 0);
    } else {
      FillsUp(hash, n - 1);
      InsertedInv(Filled(hash, n - 1), n - 1, n, n - 1);
    }
    FirstOfGroup(Filled(hash, n), n + 1, n);
  }

  /** Each key is still where it was inserted when it is removed. */
  lemma {:induction false} Empties(hash: int -> nat, n: nat)
    requires n <= 6
    ensures var t := Emptied(hash, n);
      && TableInv(t) && t.size == 6 - n && t.tombstones == n && Drift(t) == 0
      && (forall i :: 0 <= i < 8 ==> if i < n then t.ctrl[i] == Tombstone else (i < 6 <==> t.ctrl[i].Full?))
      && (forall i :: 0 <= i < 6 ==> t.slots[i].0 == i + 1)
      && (n < 6 ==> Holds(t, n, n + 1))
  {
    hide Placed, CountFull, CountTombstones, Pow2, In, Filled, FreshTable, Used;
    FillsUp(hash, 6);
    if n > 0 {
      Empties(hash, n - 1);
      ErasedInv(Emptied(hash, n - 1), n - 1);
    }
  }

  /** What clear_table may do, whatever the hash: six keys are inserted into an empty table and removed, the table is
      cleared, and the load test then lets insertions through until no slot is left. */
  lemma ClearOverflows(hash: int -> nat) returns (xs: seq<int>, u: Table)
    ensures forall n: nat :: n < 6 ==> FirstAvailable(Filled(hash, n), n + 1, n) && Holds(Emptied(hash, n), n, n + 1)
    ensures var t := Emptied(hash, 6);
      && TableInv(t) && t.size == 0 && t.tombstones == 6 == CountTombstones(t.ctrl)
      && TableInv(Cleared(t)) && Fills(Cleared(t), xs, u) && Shaped(u) && 8 * (u.size + u.tombstones + 1) <= 7 * |u.ctrl|
      && forall s: nat :: !Available(u, s)
  {
    hide Placed, Fills, CountTombstones, CountFull, Available, FirstAvailable, Holds;
    forall n: nat | n < 6
      ensures FirstAvailable(Filled(hash, n), n + 1, n) && Holds(Emptied(hash, n), n, n + 1)
    {
      FillsUp(hash, n);
      Empties(hash, n);
    }
    var t := Emptied(hash, 6);
    Empties(hash, 6);
    ClearedCalm(t, t);
    xs, u := DriftOverflows(Cleared(t));
  }

  lemma BudgetBounds(t0: Table, t1: Table)
    requires Budget(t0, t1, 2 * STEP) && TableInv(t1) && Drift(t1) == 0
    ensures (t1.size + t1.tombstones + 1) * 8 <= |t1.ctrl| * 7
  {
  }

  lemma NotLinked(t0: Table, t1: Table, rehashing: bool, link: map<int, nat>, x: int)
    requires Shaped(t0) && (rehashing ==> Shaped(t1)) && Linked(t0, t1, rehashing, link)
    ensures x !in link <==> forall h: nat :: !In(t0, x, h) && (rehashing ==> !In(t1, x, h))
  {
    if x in link { assert In(t0, x, link[x]) || (rehashing && In(t1, x, link[x])); }
  }

  lemma NoKeys(t0: Table, t1: Table, rehashing: bool, link: map<int, nat>, x: int)
    requires Shaped(t0) && !rehashing && t0.ctrl == [] && Linked(t0, t1, rehashing, link)
    ensures x !in link
  {
    EmptyIn(t0);
    NotLinked(t0, t1, rehashing, link, x);
  }

  lemma KeyAt(t0: Table, t1: Table, rehashing: bool, link: map<int, nat>, x: int, h: nat)
    requires Shaped(t0) && (rehashing ==> Shaped(t1)) && Linked(t0, t1, rehashing, link)
    requires In(t0, x, h) || (rehashing && In(t1, x, h))
    ensures x in link && link[x] == h
  {
  }

  lemma RemoveCalm(t: Table, s: nat)
    requires Calm(t) && s < |t.ctrl| && t.ctrl[s].Full?
    ensures Calm(Erased(t, s))
  {
    hide Placed, Pow2, In;
    ErasedInv(t, s);
  }

  lemma FirstInRange(t: Table, x: int, s: nat)
    requires Shaped(t) && t.ctrl != [] && FirstAvailable(t, x, s)
    ensures s < |t.ctrl|
  {
  }

  lemma HeldKey(t: Table, s: nat, x: int)
    requires Shaped(t) && Holds(t, s, x)
    ensures t.slots[s].0 == x
  {
  }

  lemma HeldIn(t: Table, s: nat, x: int)
    requires Shaped(t) && Holds(t, s, x)
    ensures s < |t.ctrl| && t.ctrl[s].Full? && In(t, x, t.slots[s].1)
  {
    InAt(t, s);
  }

  lemma BudgetWeaker(t0: Table, t1: Table, slack: nat)
    requires Budget(t0, t1, slack)
    ensures Budget(t0, t1, 0)
  {
  }

  lemma {:induction false} NoFull(c: seq<Ctrl>)
    requires forall s :: 0 <= s < |c| ==> !c[s].Full?
    ensures CountFull(c) == 0
  {
    if c != [] { NoFull(c[1..]); }
  }

  /** A rehash that is through with the old table has emptied it. */
  lemma AllMoved(t: Table, idx: nat)
    requires TableInv(t) && (forall s: nat :: s < idx && s < |t.ctrl| ==> !t.ctrl[s].Full?)
    requires idx >= |t.ctrl| || t.size == 0
    ensures CountFull(t.ctrl) == 0
  {
    if idx >= |t.ctrl| { NoFull(t.ctrl); }
  }
}
