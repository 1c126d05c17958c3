/** One open-addressing table of mini_libcxx/include/hashmap.hpp: groups of eight control bytes, probed in triangular
    order.  Keys are integers, handles are natural numbers. */
module HashTable {
  import opened Arith
  import opened HashProbe
  import opened Options

  /** CTRL_EMPTY, CTRL_TOMBSTONE, or 0x80 with the low seven bits of the hash. */
  datatype Ctrl = Empty | Tombstone | Full(low: nat)

  /** hash stands for the keyed hash under the random key of the table, and the capacity is |ctrl|: zero, or
      2^log groups of eight.  tombstones is a machine word in the source; a value below zero stands for its wrap. */
  datatype Table = Table(hash: int -> nat, log: nat, ctrl: seq<Ctrl>, slots: seq<(int, nat)>, size: int, tombstones: int)

  const GROUP := 8

  function CountFull(c: seq<Ctrl>): (n: nat)
    ensures n <= |c|
  {
    if c == [] then 0 else (if c[0].Full? then 1 else 0) + CountFull(c[1..])
  }

  function CountTombstones(c: seq<Ctrl>): (n: nat)
    ensures n <= |c|
  {
    if c == [] then 0 else (if c[0].Tombstone? then 1 else 0) + CountTombstones(c[1..])
  }

  lemma {:induction false} CountUpdate(c: seq<Ctrl>, s: nat, v: Ctrl)
    requires s < |c|
    ensures CountFull(c[s := v]) == CountFull(c) - (if c[s].Full? then 1 else 0) + if v.Full? then 1 else 0
    ensures CountTombstones(c[s := v]) ==
      CountTombstones(c) - (if c[s].Tombstone? then 1 else 0) + if v.Tombstone? then 1 else 0
  {
    if s > 0 {
      CountUpdate(c[1..], s - 1, v);
      assert c[s := v][1..] == c[1..][s - 1 := v];
    } else {
      assert c[s := v][1..] == c[1..];
    }
  }

  /** A table in which nothing is available is full of full slots. */
  lemma {:induction false} CountAll(c: seq<Ctrl>)
    requires forall s :: 0 <= s < |c| ==> c[s].Full?
    ensures CountFull(c) == |c|
  {
    if c != [] { CountAll(c[1..]); }
  }

  lemma {:induction false} CountNone(c: seq<Ctrl>)
    requires CountFull(c) == 0
    ensures forall s :: 0 <= s < |c| ==> !c[s].Full?
  {
    if c != [] {
      CountNone(c[1..]);
      assert c == [c[0]] + c[1..];
    }
  }

  predicate Shaped(t: Table) {
    |t.slots| == |t.ctrl| && (t.ctrl == [] || |t.ctrl| == GROUP * Pow2(t.log))
  }

  /** The group of probe p for key x. */
  function GroupOf(t: Table, x: int, p: nat): (g: nat)
    ensures g < Pow2(t.log)
  {
    Probe(t.hash(x) / 128, p, t.log)
  }

  predicate HasEmpty(t: Table, g: nat)
    requires Shaped(t) && t.ctrl != [] && g < Pow2(t.log)
  {
    exists i :: GROUP * g <= i < GROUP * g + GROUP && t.ctrl[i] == Empty
  }

  /** The first p groups on the probe path of x hold no empty slot. */
  predicate Reaches(t: Table, x: int, p: nat)
    requires Shaped(t) && t.ctrl != []
  {
    forall q: nat :: q < p ==> !HasEmpty(t, GroupOf(t, x, q))
  }

  predicate Holds(t: Table, s: nat, x: int)
    requires Shaped(t)
  {
    s < |t.ctrl| && t.ctrl[s].Full? && t.slots[s].0 == x
  }

  /** Slot s can be found: it carries the hash bits of its key, and lies on the path of its key before any empty slot. */
  predicate Placed(t: Table, s: nat)
    requires Shaped(t) && s < |t.ctrl|
  {
    t.ctrl[s].Full? ==>
      var x := t.slots[s].0;
      && t.ctrl[s].low == t.hash(x) % 128
      && exists p: nat :: p < Pow2(t.log) && GroupOf(t, x, p) == s / GROUP && Reaches(t, x, p)
  }

  predicate TableInv(t: Table) {
    && Shaped(t)
    && (forall s: nat :: s < |t.ctrl| ==> Placed(t, s))
    && (forall s: nat, r: nat :: s < r < |t.ctrl| && t.ctrl[s].Full? && t.ctrl[r].Full? ==> t.slots[s].0 != t.slots[r].0)
    && t.size == CountFull(t.ctrl)
  }

  /** How many tombstone bytes the tombstone counter does not count. */
  function Drift(t: Table): int {
    CountTombstones(t.ctrl) - t.tombstones
  }

  lemma PlacedAt(t: Table, s: nat) returns (p: nat)
    requires Shaped(t) && s < |t.ctrl| && Placed(t, s) && t.ctrl[s].Full?
    ensures p < Pow2(t.log) && GroupOf(t, t.slots[s].0, p) == s / GROUP && Reaches(t, t.slots[s].0, p)
  {
    p :| p < Pow2(t.log) && GroupOf(t, t.slots[s].0, p) == s / GROUP && Reaches(t, t.slots[s].0, p);
  }

  /** No slot of the group holds x. */
  predicate NotIn(t: Table, g: nat, x: int)
    requires Shaped(t) && t.ctrl != [] && g < Pow2(t.log)
  {
    forall i: nat :: GROUP * g <= i < GROUP * g + GROUP ==> !Holds(t, i, x)
  }

  /** A key that is in none of the groups up to one with an empty slot, or up to the last, is not in the table. */
  lemma PathEnds(t: Table, x: int, p: nat)
    requires TableInv(t) && t.ctrl != [] && p <= Pow2(t.log)
    requires forall q: nat :: q < p ==> NotIn(t, GroupOf(t, x, q), x)
    requires p == Pow2(t.log) || (p > 0 && HasEmpty(t, GroupOf(t, x, p - 1)))
    ensures forall s: nat :: !Holds(t, s, x)
  {
    hide GroupOf, HasEmpty, Pow2, Placed;
    forall s: nat ensures !Holds(t, s, x) {
      if Holds(t, s, x) {
        var q := PlacedAt(t, s);
      }
    }
  }

  // ----- Searching -----

  /** One group of `find_slot`: the slots whose byte equals the target are compared. */
  method ScanGroup(t: Table, base: nat, x: int) returns (r: Option<nat>, hasEmpty: bool)
    requires TableInv(t) && t.ctrl != [] && base % GROUP == 0 && base / GROUP < Pow2(t.log)
    ensures r.Some? ==> Holds(t, r.value, x)
    ensures r == None ==> NotIn(t, base / GROUP, x)
    ensures hasEmpty <==> HasEmpty(t, base / GROUP)
  {
    var target := t.hash(x) % 128;
    r := None;
    hasEmpty := false;
    for i := 0 to GROUP
      invariant r.Some? ==> Holds(t, r.value, x)
      invariant r == None ==> forall j: nat :: base <= j < base + i ==> !Holds(t, j, x)
      invariant hasEmpty <==> exists j :: base <= j < base + i && t.ctrl[j] == Empty
    {
      assert Placed(t, base + i);
      if r == None && t.ctrl[base + i] == Full(target) && t.slots[base + i].0 == x {
        r := Some(base + i);
      }
      if t.ctrl[base + i] == Empty { hasEmpty := true; }
    }
  }

  /** `find_slot` */
  method FindSlot(t: Table, x: int) returns (r: Option<nat>)
    requires TableInv(t)
    ensures r.Some? ==> Holds(t, r.value, x)
    ensures r == None ==> forall s: nat :: !Holds(t, s, x)
  {
    if t.ctrl == [] { return None; }
    var groups := |t.ctrl| / GROUP;
    var g := LowBits(t.hash(x) / 128, t.log);
    var step := 1;
    for probe := 0 to groups
      invariant step == probe + 1 && g == GroupOf(t, x, probe)
      invariant forall q: nat :: q < probe ==> NotIn(t, GroupOf(t, x, q), x)
    {
      var hasEmpty;
      r, hasEmpty := ScanGroup(t, g * GROUP, x);
      if r.Some? { return; }
      if hasEmpty {
        PathEnds(t, x, probe + 1);
        return None;
      }
      g := LowBits(g + step, t.log);
      step := step + 1;
    }
    PathEnds(t, x, groups);
    return None;
  }

  // ----- Inserting -----

  predicate Available(t: Table, s: nat)
    requires Shaped(t)
  {
    s < |t.ctrl| && !t.ctrl[s].Full?
  }

  predicate NoneAvailable(t: Table, g: nat)
    requires Shaped(t) && t.ctrl != [] && g < Pow2(t.log)
  {
    forall i: nat :: GROUP * g <= i < GROUP * g + GROUP ==> !Available(t, i)
  }

  /** s is the first slot that is not full on the probe path of x. */
  predicate FirstAvailable(t: Table, x: int, s: nat)
    requires Shaped(t) && t.ctrl != []
  {
    && Available(t, s)
    && (forall i: nat :: s / GROUP * GROUP <= i < s ==> !Available(t, i))
    && exists p: nat :: p < Pow2(t.log) && GroupOf(t, x, p) == s / GROUP
         && forall q: nat :: q < p ==> NoneAvailable(t, GroupOf(t, x, q))
  }

  /** The first slot of a group that is not full. */
  method FirstInGroup(t: Table, base: nat) returns (r: Option<nat>)
    requires Shaped(t) && t.ctrl != [] && base % GROUP == 0 && base / GROUP < Pow2(t.log)
    ensures r == None ==> NoneAvailable(t, base / GROUP)
    ensures r.Some? ==> base <= r.value < base + GROUP && Available(t, r.value)
    ensures r.Some? ==> forall i: nat :: base <= i < r.value ==> !Available(t, i)
  {
    for i := 0 to GROUP
      invariant forall j: nat :: base <= j < base + i ==> !Available(t, j)
    {
      if !t.ctrl[base + i].Full? { return Some(base + i); }
    }
    r := None;
  }

  /** With nothing available on the whole path, nothing is available. */
  lemma PathCovers(t: Table, x: int)
    requires Shaped(t) && t.ctrl != []
    requires forall q: nat :: q < Pow2(t.log) ==> NoneAvailable(t, GroupOf(t, x, q))
    ensures forall s: nat :: !Available(t, s)
  {
    hide Pow2, LowBits, Probe;
    forall s: nat | s < |t.ctrl| ensures !Available(t, s) {
      var p := ProbeCovers(t.hash(x) / 128, t.log, s / GROUP);
      assert NoneAvailable(t, GroupOf(t, x, p));
    }
  }

  /** `find_insert_slot`: the slot of x if x is in the table, or else the first slot on its path that is not full; None
      stands for NOT_FOUND. */
  method FindInsertSlot(t: Table, x: int) returns (r: Option<nat>)
    requires TableInv(t) && t.ctrl != []
    ensures (exists s: nat :: Holds(t, s, x)) ==> r.Some? && Holds(t, r.value, x)
    ensures (forall s: nat :: !Holds(t, s, x)) ==>
      if r.Some? then FirstAvailable(t, x, r.value) else forall s: nat :: !Available(t, s)
  {
    hide NotIn, HasEmpty, NoneAvailable, Available, FirstAvailable, Placed, Reaches, Holds;
    hide Pow2, LowBits, Probe, GroupOf, CountFull;
    NextGroup(t, x);
    var groups := |t.ctrl| / GROUP;
    var g := LowBits(t.hash(x) / 128, t.log);
    var step := 1;
    var first: Option<nat> := None;
    for probe := 0 to groups
      invariant step == probe + 1 && g == GroupOf(t, x, probe)
      invariant forall q: nat :: q < probe ==> NotIn(t, GroupOf(t, x, q), x)
      invariant first == None ==> forall q: nat :: q < probe ==> NoneAvailable(t, GroupOf(t, x, q))
      invariant first.Some? ==> FirstAvailable(t, x, first.value)
    {
      var hasEmpty;
      assert g * GROUP % GROUP == 0 && g * GROUP / GROUP == g;
      r, hasEmpty := ScanGroup(t, g * GROUP, x);
      if r.Some? { return; }
      if first == None {
        first := FirstInGroup(t, g * GROUP);
        if first.Some? { FoundFirst(t, x, probe, first.value); }
      }
      if hasEmpty {
        PathEnds(t, x, probe + 1);
        EmptyIsAvailable(t, g);
        return first;
      }
      g := LowBits(g + step, t.log);
      step := step + 1;
    }
    PathEnds(t, x, groups);
    if first == None { PathCovers(t, x); }
    r := first;
  }

  lemma NextGroup(t: Table, x: int)
    ensures GroupOf(t, x, 0) == LowBits(t.hash(x) / 128, t.log)
    ensures forall p: nat :: GroupOf(t, x, p + 1) == LowBits(GroupOf(t, x, p) + p + 1, t.log)
  {
  }

  lemma FoundFirst(t: Table, x: int, p: nat, s: nat)
    requires Shaped(t) && t.ctrl != [] && p < Pow2(t.log) && Available(t, s)
    requires var base := GROUP * GroupOf(t, x, p);
      base <= s < base + GROUP && forall i: nat :: base <= i < s ==> !Available(t, i)
    requires forall q: nat :: q < p ==> NoneAvailable(t, GroupOf(t, x, q))
    ensures FirstAvailable(t, x, s)
  {
    assert s / GROUP == GroupOf(t, x, p);
  }

  lemma EmptyIsAvailable(t: Table, g: nat)
    requires Shaped(t) && t.ctrl != [] && g < Pow2(t.log) && HasEmpty(t, g)
    ensures !NoneAvailable(t, g)
  {
    var i :| GROUP * g <= i < GROUP * g + GROUP && t.ctrl[i] == Empty;
    assert Available(t, i);
  }

  // ----- The three changes to a table -----

  /** The table maps x to h. */
  predicate In(t: Table, x: int, h: nat)
    requires Shaped(t)
  {
    exists s: nat :: s < |t.ctrl| && t.ctrl[s].Full? && t.slots[s] == (x, h)
  }

  function Inserted(t: Table, s: nat, x: int, h: nat): Table
    requires Shaped(t) && s < |t.ctrl|
  {
    t.(ctrl := t.ctrl[s := Full(t.hash(x) % 128)], slots := t.slots[s := (x, h)], size := t.size + 1,
       tombstones := if t.ctrl[s] == Tombstone then t.tombstones - 1 else t.tombstones)
  }

  function Erased(t: Table, s: nat): Table
    requires Shaped(t) && s < |t.ctrl|
  {
    t.(ctrl := t.ctrl[s := Tombstone], size := t.size - 1, tombstones := t.tombstones + 1)
  }

  /** A slot whose pair was moved to the other table; the tombstone is not counted. */
  function Vacated(t: Table, s: nat): Table
    requires Shaped(t) && s < |t.ctrl|
  {
    t.(ctrl := t.ctrl[s := Tombstone], size := t.size - 1)
  }

  function Used(t: Table): nat {
    CountFull(t.ctrl) + CountTombstones(t.ctrl)
  }

  /** A slot that stops being empty, or changes between full and tombstone, leaves every other slot where it is. */
  lemma StillPlaced(t: Table, u: Table, r: nat)
    requires Shaped(t) && Shaped(u) && u.hash == t.hash && u.log == t.log && |u.ctrl| == |t.ctrl| && r < |t.ctrl|
    requires forall s: nat :: s < |t.ctrl| && u.ctrl[s] == Empty ==> t.ctrl[s] == Empty
    requires u.ctrl[r] == t.ctrl[r] && u.slots[r] == t.slots[r] && Placed(t, r)
    ensures Placed(u, r)
  {
    hide Pow2;
    if t.ctrl[r].Full? {
      var x := t.slots[r].0;
      var p := PlacedAt(t, r);
      forall q: nat | q < p ensures !HasEmpty(u, GroupOf(u, x, q)) {
        assert !HasEmpty(t, GroupOf(t, x, q));
      }
      assert Reaches(u, x, p) && GroupOf(u, x, p) == r / GROUP;
    }
  }

  lemma InsertedInv(t: Table, s: nat, x: int, h: nat)
    requires TableInv(t) && t.ctrl != [] && FirstAvailable(t, x, s) && forall r: nat :: !Holds(t, r, x)
    ensures var u := Inserted(t, s, x, h);
      && TableInv(u) && Drift(u) == Drift(t) && CountFull(u.ctrl) == CountFull(t.ctrl) + 1
      && Used(u) <= Used(t) + 1
      && forall y: int, k: nat :: In(u, y, k) <==> In(t, y, k) || (y, k) == (x, h)
  {
    hide Pow2, LowBits, Probe;
    var u := Inserted(t, s, x, h);
    CountUpdate(t.ctrl, s, Full(t.hash(x) % 128));
    NewPlaced(t, s, x, h);
    forall r: nat | r < |u.ctrl| ensures Placed(u, r) {
      if r != s { StillPlaced(t, u, r); }
    }
    InsertedIn(t, s, x, h);
    forall r: nat | r < |t.ctrl| && t.ctrl[r].Full? ensures t.slots[r].0 != x {
      assert !Holds(t, r, x);
    }
  }

  lemma NewPlaced(t: Table, s: nat, x: int, h: nat)
    requires Shaped(t) && t.ctrl != [] && FirstAvailable(t, x, s)
    ensures Placed(Inserted(t, s, x, h), s)
  {
    hide Pow2;
    var u := Inserted(t, s, x, h);
    var p: nat :| p < Pow2(t.log) && GroupOf(t, x, p) == s / GROUP
      && forall q: nat :: q < p ==> NoneAvailable(t, GroupOf(t, x, q));
    forall q: nat | q < p ensures !HasEmpty(u, GroupOf(u, x, q)) {
      assert NoneAvailable(t, GroupOf(t, x, q));
      if HasEmpty(u, GroupOf(u, x, q)) {
        assert HasEmpty(t, GroupOf(t, x, q));
        EmptyIsAvailable(t, GroupOf(t, x, q));
      }
    }
    assert Reaches(u, x, p) && GroupOf(u, x, p) == s / GROUP;
  }

  lemma InsertedIn(t: Table, s: nat, x: int, h: nat)
    requires Shaped(t) && s < |t.ctrl| && !t.ctrl[s].Full?
    ensures forall y: int, k: nat :: In(Inserted(t, s, x, h), y, k) <==> In(t, y, k) || (y, k) == (x, h)
  {
    var u := Inserted(t, s, x, h);
    forall y: int, k: nat ensures In(u, y, k) <==> In(t, y, k) || (y, k) == (x, h) {
      if In(t, y, k) {
        var r: nat :| r < |t.ctrl| && t.ctrl[r].Full? && t.slots[r] == (y, k);
        assert u.ctrl[r].Full? && u.slots[r] == (y, k);
      }
      assert u.ctrl[s].Full? && u.slots[s] == (x, h);
    }
  }

  /** Erasing and vacating agree on everything but the tombstone counter. */
  lemma VacatedInv(t: Table, s: nat)
    requires TableInv(t) && s < |t.ctrl| && t.ctrl[s].Full?
    ensures var u := Vacated(t, s);
      && TableInv(u) && CountFull(u.ctrl) == CountFull(t.ctrl) - 1 && Used(u) == Used(t)
      && CountTombstones(u.ctrl) == CountTombstones(t.ctrl) + 1
      && forall y: int, k: nat :: In(u, y, k) <==> In(t, y, k) && y != t.slots[s].0
  {
    hide Pow2, LowBits, Probe;
    var u := Vacated(t, s);
    CountUpdate(t.ctrl, s, Tombstone);
    forall r: nat | r < |u.ctrl| ensures Placed(u, r) {
      if r != s { StillPlaced(t, u, r); }
    }
    VacatedIn(t, s);
  }

  lemma VacatedIn(t: Table, s: nat)
    requires TableInv(t) && s < |t.ctrl| && t.ctrl[s].Full?
    ensures forall y: int, k: nat :: In(Vacated(t, s), y, k) <==> In(t, y, k) && y != t.slots[s].0
  {
    hide Placed, Pow2;
    var u := Vacated(t, s);
    forall y: int, k: nat ensures In(u, y, k) <==> In(t, y, k) && y != t.slots[s].0 {
      if In(t, y, k) && y != t.slots[s].0 {
        var r: nat :| r < |t.ctrl| && t.ctrl[r].Full? && t.slots[r] == (y, k);
        assert u.ctrl[r].Full? && u.slots[r] == (y, k);
      }
    }
  }

  lemma ErasedInv(t: Table, s: nat)
    requires TableInv(t) && s < |t.ctrl| && t.ctrl[s].Full?
    ensures var u := Erased(t, s);
      && TableInv(u) && Drift(u) == Drift(t) && CountFull(u.ctrl) == CountFull(t.ctrl) - 1 && Used(u) == Used(t)
      && forall y: int, k: nat :: In(u, y, k) <==> In(t, y, k) && y != t.slots[s].0
  {
    hide Pow2, LowBits, Probe, GroupOf, CountFull, CountTombstones;
    VacatedInv(t, s);
    var u, v := Erased(t, s), Vacated(t, s);
    assert u == v.(tombstones := t.tombstones + 1);
    CounterIrrelevant(v, t.tombstones + 1);
  }

  lemma CounterIrrelevant(t: Table, n: int)
    requires TableInv(t)
    ensures TableInv(t.(tombstones := n))
    ensures forall y: int, k: nat :: In(t.(tombstones := n), y, k) <==> In(t, y, k)
  {
    hide Pow2, LowBits, Probe;
    var u := t.(tombstones := n);
    forall r: nat | r < |u.ctrl| ensures Placed(u, r) { StillPlaced(t, u, r); }
  }

  /** A fresh table of the given capacity. */
  function FreshTable(hash: int -> nat, log: nat): Table {
    Table(hash, log, seq(GROUP * Pow2(log), _ => Empty), seq(GROUP * Pow2(log), _ => (0, 0)), 0, 0)
  }

  lemma {:induction false} CountEmpty(c: seq<Ctrl>)
    requires forall s :: 0 <= s < |c| ==> c[s] == Empty
    ensures CountFull(c) == 0 && CountTombstones(c) == 0
  {
    if c != [] { CountEmpty(c[1..]); }
  }

  lemma FreshInv(hash: int -> nat, log: nat)
    ensures var t := FreshTable(hash, log);
      TableInv(t) && Drift(t) == 0 && Used(t) == 0 && CountFull(t.ctrl) == 0 && forall y: int, k: nat :: !In(t, y, k)
  {
    CountEmpty(FreshTable(hash, log).ctrl);
  }
}
