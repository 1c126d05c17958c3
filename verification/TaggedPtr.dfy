/** Counted and linked references of mini_libcxx/include/tagged_ptr.hpp: handles that can tell whether the container has
    deallocated what they refer to.  Storage and references are numbers standing for their addresses. */
module TaggedPtr {
  import opened Lists
  import opened Options

  type Addr = nat
  type Ref = nat

  /** The second metadata word of an allocation.  Bit 63 tells the modes apart and bit 62 is the tombstone mark; n is what
      the other bits count, head the address of the first linked reference. */
  datatype Tag = Counter(n: nat, tombstone: bool) | List(head: Option<Ref>)

  type Links = map<Ref, Option<Ref>>

  // ----- Counted references -----

  ghost function Holders(refs: map<Ref, Option<Addr>>, a: Addr): set<Ref> {
    set r | r in refs && refs[r] == Some(a)
  }

  /** The counter is the number of counted references, and storage that its container gave up stays only while it has some. */
  ghost predicate CountedInv(tag: map<Addr, Tag>, counted: map<Ref, Option<Addr>>, gone: set<Addr>) {
    && (forall r :: r in counted && counted[r].Some? ==> counted[r].value in tag && tag[counted[r].value].Counter?)
    && (forall a :: a in tag && tag[a].Counter? ==>
          tag[a].n == |Holders(counted, a)| && (tag[a].tombstone <==> a in gone) && (a in gone ==> tag[a].n > 0))
    && (forall a :: a in tag && tag[a].List? ==> a !in gone)
  }

  lemma HoldersMore(refs: map<Ref, Option<Addr>>, r: Ref, a: Addr)
    requires r in refs ==> refs[r] == None
    ensures |Holders(refs[r := Some(a)], a)| == |Holders(refs, a)| + 1
    ensures forall b :: b != a ==> Holders(refs[r := Some(a)], b) == Holders(refs, b)
  {
    assert Holders(refs[r := Some(a)], a) == Holders(refs, a) + {r};
  }

  lemma HoldersLess(refs: map<Ref, Option<Addr>>, r: Ref, a: Addr)
    requires r in refs && refs[r] == Some(a)
    ensures |Holders(refs[r := None], a)| == |Holders(refs, a)| - 1
    ensures forall b :: b != a ==> Holders(refs[r := None], b) == Holders(refs, b)
  {
    assert Holders(refs[r := None], a) == Holders(refs, a) - {r};
  }

  /** A null reference counts nowhere. */
  lemma HoldersSame(refs: map<Ref, Option<Addr>>, r: Ref)
    requires r in refs ==> refs[r] == None
    ensures forall b :: Holders(refs[r := None], b) == Holders(refs, b) == Holders(refs - {r}, b)
  {
  }

  lemma NoHolders(refs: map<Ref, Option<Addr>>, a: Addr)
    ensures |Holders(refs, a)| == 0 <==> forall r :: r in refs ==> refs[r] != Some(a)
  {
    if forall r :: r in refs ==> refs[r] != Some(a) {
      assert Holders(refs, a) == {};
    } else {
      var r :| r in refs && refs[r] == Some(a);
      assert r in Holders(refs, a);
    }
  }

  /** What is freed when the counted reference r is reset: storage that its container gave up and only r still holds. */
  ghost function Released(counted: map<Ref, Option<Addr>>, gone: set<Addr>, r: Ref): (released: set<Addr>)
    ensures released <= gone
  {
    set a | a in gone && Holders(counted, a) == {r}
  }

  /** The tag and the counted references when r is reset; None if that frees the storage. */
  function CountedDown(tag: Tag): Option<Tag>
    requires tag.Counter? && tag.n > 0
  {
    if tag.n == 1 && tag.tombstone then None else Some(Counter(tag.n - 1, tag.tombstone))
  }

  function Lowered(tag: map<Addr, Tag>, a: Addr): map<Addr, Tag>
    requires a in tag && tag[a].Counter? && tag[a].n > 0
  {
    match CountedDown(tag[a])
    case None => tag - {a}
    case Some(u) => tag[a := u]
  }

  lemma CountedReset(tag: map<Addr, Tag>, counted: map<Ref, Option<Addr>>, gone: set<Addr>, r: Ref, a: Addr)
    requires CountedInv(tag, counted, gone) && r in counted && counted[r] == Some(a)
    ensures a in tag && tag[a].Counter? && tag[a].n > 0
    ensures CountedInv(Lowered(tag, a), counted[r := None], gone)
    ensures Lowered(tag, a).Keys == tag.Keys - Released(counted, gone, r)
  {
    hide Holders;
    HoldersLess(counted, r, a);
    OnlyHolder(counted, r, a);
    NoHolders(counted[r := None], a);
  }

  lemma OnlyHolder(counted: map<Ref, Option<Addr>>, r: Ref, a: Addr)
    requires r in counted && counted[r] == Some(a)
    ensures |Holders(counted, a)| == 1 <==> Holders(counted, a) == {r}
    ensures forall b :: b != a ==> Holders(counted, b) != {r}
  {
    assert r in Holders(counted, a);
    if |Holders(counted, a)| == 1 { assert |Holders(counted, a) - {r}| == 0; }
    forall b | b != a ensures Holders(counted, b) != {r} { assert r !in Holders(counted, b); }
  }

  lemma NullReleases(counted: map<Ref, Option<Addr>>, gone: set<Addr>, r: Ref)
    requires r in counted && counted[r] == None
    ensures Released(counted, gone, r) == {} && counted[r := None] == counted
  {
    forall b ensures Holders(counted, b) != {r} { assert r !in Holders(counted, b); }
  }

  lemma CountedNull(tag: map<Addr, Tag>, counted: map<Ref, Option<Addr>>, gone: set<Addr>, r: Ref)
    requires CountedInv(tag, counted, gone) && (r in counted ==> counted[r] == None)
    ensures CountedInv(tag, counted[r := None], gone) && CountedInv(tag, counted - {r}, gone)
  {
    HoldersSame(counted, r);
  }

  lemma CountedUp(tag: map<Addr, Tag>, counted: map<Ref, Option<Addr>>, gone: set<Addr>, r: Ref, a: Addr)
    requires CountedInv(tag, counted, gone) && (r in counted ==> counted[r] == None) && a in tag && tag[a].Counter?
    ensures CountedInv(tag[a := Counter(tag[a].n + 1, tag[a].tombstone)], counted[r := Some(a)], gone)
  {
    HoldersMore(counted, r, a);
  }

  lemma CountedTake(tag: map<Addr, Tag>, counted: map<Ref, Option<Addr>>, gone: set<Addr>, r: Ref, s: Ref)
    requires CountedInv(tag, counted, gone) && s in counted && r != s && (r in counted ==> counted[r] == None)
    ensures CountedInv(tag, counted[r := counted[s]][s := None], gone)
  {
    if counted[s] == None {
      CountedNull(tag, counted, gone, r);
      CountedNull(tag, counted[r := None], gone, s);
    } else {
      var a, lost := counted[s].value, counted[s := None];
      HoldersLess(counted, s, a);
      HoldersMore(lost, r, a);
      assert lost[r := Some(a)] == counted[r := counted[s]][s := None];
    }
  }

  /** Changes of list heads do not concern the counters, and the other way round. */
  lemma CountedIgnoresLists(tag: map<Addr, Tag>, tag': map<Addr, Tag>, counted: map<Ref, Option<Addr>>, gone: set<Addr>)
    requires CountedInv(tag, counted, gone)
    requires forall a :: a in tag <==> a in tag'
    requires forall a :: a in tag' ==> tag'[a] == tag[a] || (tag'[a].List? && tag[a].List?)
    ensures CountedInv(tag', counted, gone)
  {
  }

  lemma CountedSwitch(tag: map<Addr, Tag>, counted: map<Ref, Option<Addr>>, gone: set<Addr>, a: Addr, u: Tag)
    requires CountedInv(tag, counted, gone) && a !in gone && (a in tag && tag[a].Counter? ==> tag[a].n == 0)
    requires u == Counter(0, false) || u == List(None)
    ensures CountedInv(tag[a := u], counted, gone)
  {
    NoHolders(counted, a);
  }

  /** The container gives up storage with references, or without any. */
  lemma CountedGone(tag: map<Addr, Tag>, counted: map<Ref, Option<Addr>>, gone: set<Addr>, a: Addr)
    requires CountedInv(tag, counted, gone) && a in tag && a !in gone
    ensures tag[a].Counter? && tag[a].n > 0 ==> CountedInv(tag[a := Counter(tag[a].n, true)], counted, gone + {a})
    ensures tag[a].List? || tag[a].n == 0 ==> CountedInv(tag - {a}, counted, gone + {a})
    ensures (forall r :: r in counted ==> counted[r] != Some(a)) <==> tag[a].List? || tag[a].n == 0
  {
    NoHolders(counted, a);
  }

  // ----- Linked references -----

  function First(l: seq<Ref>): Option<Ref> {
    if l == [] then None else Some(l[0])
  }

  ghost predicate LinkedAt(l: seq<Ref>, prev: Links, next: Links, i: nat)
    requires i < |l|
  {
    && l[i] in prev && l[i] in next
    && prev[l[i]] == (if i == 0 then None else Some(l[i - 1]))
    && next[l[i]] == (if i + 1 == |l| then None else Some(l[i + 1]))
  }

  /** The links of the references in l are those of a doubly linked list. */
  ghost predicate Chained(l: seq<Ref>, prev: Links, next: Links) {
    NoDup(l) && forall i: nat :: i < |l| ==> LinkedAt(l, prev, next, i)
  }

  /** The references in l are those to a. */
  ghost predicate RefsAre(l: seq<Ref>, linked: map<Ref, Option<Addr>>, a: Addr) {
    forall q :: q in l <==> q in linked && linked[q] == Some(a)
  }

  ghost predicate ListAt(linked: map<Ref, Option<Addr>>, prev: Links, next: Links, head: Option<Ref>, l: seq<Ref>, a: Addr) {
    head == First(l) && Chained(l, prev, next) && RefsAre(l, linked, a)
  }

  ghost predicate NullsBare(linked: map<Ref, Option<Addr>>, prev: Links, next: Links) {
    forall q :: q in linked && linked[q] == None ==> q in prev && q in next && prev[q] == None && next[q] == None
  }

  /** The list of each allocation holds exactly its linked references. */
  ghost predicate LinkedInv(tag: map<Addr, Tag>, linked: map<Ref, Option<Addr>>, prev: Links, next: Links,
                            lists: map<Addr, seq<Ref>>) {
    && (forall a :: a in tag && tag[a].List? ==> a in lists && ListAt(linked, prev, next, tag[a].head, lists[a], a))
    && (forall r :: r in linked && linked[r].Some? ==> linked[r].value in tag && tag[linked[r].value].List?)
    && NullsBare(linked, prev, next)
  }

  /** Links change only at references outside l. */
  lemma ChainedElsewhere(l: seq<Ref>, prev: Links, next: Links, prev': Links, next': Links)
    requires Chained(l, prev, next)
    requires forall r :: r in l ==> r in prev && r in next && r in prev' && r in next'
    requires forall r :: r in l ==> prev'[r] == prev[r] && next'[r] == next[r]
    ensures Chained(l, prev', next')
  {
    forall i: nat | i < |l| ensures LinkedAt(l, prev', next', i) { assert LinkedAt(l, prev, next, i); }
  }

  /** r is put in front of l. */
  function PushedPrev(l: seq<Ref>, prev: Links, r: Ref): Links {
    (if l == [] then prev else prev[l[0] := Some(r)])[r := None]
  }

  lemma Pushed(l: seq<Ref>, prev: Links, next: Links, r: Ref)
    requires Chained(l, prev, next) && r !in l
    ensures Chained([r] + l, PushedPrev(l, prev, r), next[r := First(l)])
  {
    var m, prev', next' := [r] + l, PushedPrev(l, prev, r), next[r := First(l)];
    forall i: nat | i < |m| ensures LinkedAt(m, prev', next', i) {
      if i > 0 { assert LinkedAt(l, prev, next, i - 1); }
    }
  }

  function Position(l: seq<Ref>, r: Ref): (i: nat)
    requires r in l
    ensures i < |l| && l[i] == r
  {
    if l[0] == r then 0 else 1 + Position(l[1..], r)
  }

  lemma {:induction false} WithoutAt(l: seq<Ref>, r: Ref)
    requires r in l
    ensures Without(l, r) == l[..Position(l, r)] + l[Position(l, r) + 1..]
  {
    if l[0] != r {
      WithoutAt(l[1..], r);
      assert l[1..][Position(l[1..], r) + 1..] == l[Position(l, r) + 1..];
    }
  }

  /** What `*this = nullptr` does to the links of the neighbours. */
  function UnlinkedPrev(prev: Links, next: Links, r: Ref): Links
    requires r in prev && r in next
  {
    if next[r].Some? then prev[next[r].value := prev[r]] else prev
  }

  function UnlinkedNext(prev: Links, next: Links, r: Ref): Links
    requires r in prev && r in next
  {
    if prev[r].Some? then next[prev[r].value := next[r]] else next
  }

  lemma UnlinkedFrame(l: seq<Ref>, prev: Links, next: Links, r: Ref)
    requires r in prev && r in next
    requires (prev[r].Some? ==> prev[r].value in l) && (next[r].Some? ==> next[r].value in l)
    ensures var prev', next' := UnlinkedPrev(prev, next, r)[r := None], UnlinkedNext(prev, next, r)[r := None];
      Kept(l, r, r, prev, prev') && Kept(l, r, r, next, next')
  {
  }

  lemma Unlinked(l: seq<Ref>, prev: Links, next: Links, r: Ref)
    requires Chained(l, prev, next) && r in l
    ensures r in prev && r in next
    ensures Chained(Without(l, r), UnlinkedPrev(prev, next, r), UnlinkedNext(prev, next, r))
    ensures prev[r] == None ==> First(Without(l, r)) == next[r]
    ensures prev[r].Some? ==> prev[r].value in l && First(Without(l, r)) == First(l)
    ensures next[r].Some? ==> next[r].value in l
  {
    var i, m := Position(l, r), Without(l, r);
    assert LinkedAt(l, prev, next, i);
    WithoutIs(l, r);
    WithoutAt(l, r);
    forall j: nat | j < |m| ensures LinkedAt(m, UnlinkedPrev(prev, next, r), UnlinkedNext(prev, next, r), j) {
      UnlinkedAt(l, prev, next, i, j);
    }
  }

  lemma UnlinkedAt(l: seq<Ref>, prev: Links, next: Links, i: nat, j: nat)
    requires Chained(l, prev, next) && i < |l| && j < |l| - 1 && LinkedAt(l, prev, next, i)
    ensures LinkedAt(l[..i] + l[i + 1..], UnlinkedPrev(prev, next, l[i]), UnlinkedNext(prev, next, l[i]), j)
  {
    assert LinkedAt(l, prev, next, if j < i then j else j + 1);
  }

  /** The reference s takes the place of r. */
  function Moved(l: seq<Ref>, r: Ref, s: Ref): (m: seq<Ref>)
    requires r in l
    ensures |m| == |l|
  {
    l[Position(l, r) := s]
  }

  lemma MovedIs(l: seq<Ref>, r: Ref, s: Ref)
    requires r in l && NoDup(l) && s !in l
    ensures NoDup(Moved(l, r, s)) && forall q :: q in Moved(l, r, s) <==> (q in l && q != r) || q == s
  {
    var i, m := Position(l, r), Moved(l, r, s);
    assert m[i] == s;
    forall q ensures q in m <==> (q in l && q != r) || q == s {
      if q in l && q != r {
        var j :| 0 <= j < |l| && l[j] == q;
        assert m[j] == q;
      }
    }
  }

  function MovedPrev(prev: Links, next: Links, r: Ref, s: Ref): Links
    requires r in prev && r in next
  {
    var p := prev[s := prev[r]][r := None];
    if next[r].Some? then p[next[r].value := Some(s)] else p
  }

  function MovedNext(prev: Links, next: Links, r: Ref, s: Ref): Links
    requires r in prev && r in next
  {
    var n := next[s := next[r]][r := None];
    if prev[r].Some? then n[prev[r].value := Some(s)] else n
  }

  /** Only the neighbours of r get new links, and r has none any more. */
  lemma MovedFrame(l: seq<Ref>, prev: Links, next: Links, r: Ref, s: Ref)
    requires r in prev && r in next && r != s
    requires (prev[r].Some? ==> prev[r].value in l && prev[r].value != r) && (next[r].Some? ==> next[r].value in l && next[r].value != r)
    ensures var prev', next' := MovedPrev(prev, next, r, s), MovedNext(prev, next, r, s);
      && r in prev' && r in next' && prev'[r] == None && next'[r] == None
      && Kept(l, r, s, prev, prev') && Kept(l, r, s, next, next')
  {
  }

  lemma MovedChained(l: seq<Ref>, prev: Links, next: Links, r: Ref, s: Ref)
    requires Chained(l, prev, next) && r in l && s !in l
    ensures r in prev && r in next
    ensures Chained(Moved(l, r, s), MovedPrev(prev, next, r, s), MovedNext(prev, next, r, s))
    ensures First(Moved(l, r, s)) == if prev[r] == None then Some(s) else First(l)
    ensures prev[r].Some? ==> prev[r].value in l && prev[r].value != r
    ensures next[r].Some? ==> next[r].value in l && next[r].value != r
  {
    var i, m := Position(l, r), Moved(l, r, s);
    assert LinkedAt(l, prev, next, i);
    MovedIs(l, r, s);
    forall j: nat | j < |m| ensures LinkedAt(m, MovedPrev(prev, next, r, s), MovedNext(prev, next, r, s), j) {
      assert LinkedAt(l, prev, next, j);
    }
  }

  ghost predicate RefersElsewhere(linked: map<Ref, Option<Addr>>, a: Addr, q: Ref) {
    q in linked && linked[q].Some? && linked[q] != Some(a)
  }

  ghost predicate SameElsewhere(linked: map<Ref, Option<Addr>>, linked': map<Ref, Option<Addr>>, a: Addr) {
    forall q :: (RefersElsewhere(linked, a, q) <==> RefersElsewhere(linked', a, q))
      && (RefersElsewhere(linked, a, q) ==> linked'[q] == linked[q])
  }

  ghost predicate LinksElsewhere(linked: map<Ref, Option<Addr>>, a: Addr, links: Links, links': Links) {
    forall q :: RefersElsewhere(linked, a, q) ==> q in links && q in links' && links'[q] == links[q]
  }

  /** Outside l, only r and s have changed. */
  ghost predicate Kept(l: seq<Ref>, r: Ref, s: Ref, links: Links, links': Links) {
    forall q :: q !in l && q != r && q != s ==> (q in links <==> q in links') && (q in links ==> links'[q] == links[q])
  }

  /** Only the list of a changes, to l, and with it the links of its old and new members. */
  lemma Rewired(tag: map<Addr, Tag>, linked: map<Ref, Option<Addr>>, prev: Links, next: Links, lists: map<Addr, seq<Ref>>,
                a: Addr, l: seq<Ref>, linked': map<Ref, Option<Addr>>, prev': Links, next': Links)
    requires LinkedInv(tag, linked, prev, next, lists) && a in tag && Chained(l, prev', next')
    requires RefsAre(l, linked', a) && SameElsewhere(linked, linked', a) && NullsBare(linked', prev', next')
    requires LinksElsewhere(linked, a, prev, prev') && LinksElsewhere(linked, a, next, next')
    ensures LinkedInv(tag[a := List(First(l))], linked', prev', next', lists[a := l])
  {
    hide ListAt, NullsBare, RefsAre, Chained;
    FreshList(linked', prev', next', l, a);
    forall b | b in tag && b != a && tag[b].List? ensures ListAt(linked', prev', next', tag[b].head, lists[b], b) {
      ListKept(linked, prev, next, tag[b].head, lists[b], b, linked', prev', next', a);
    }
    forall q | q in linked' && linked'[q].Some? && linked'[q] != Some(a)
      ensures linked'[q].value in tag && tag[linked'[q].value].List?
    {
      assert RefersElsewhere(linked', a, q);
    }
  }

  lemma FreshList(linked: map<Ref, Option<Addr>>, prev: Links, next: Links, l: seq<Ref>, a: Addr)
    requires Chained(l, prev, next) && RefsAre(l, linked, a)
    ensures ListAt(linked, prev, next, First(l), l, a)
  {
  }

  lemma ListKept(linked: map<Ref, Option<Addr>>, prev: Links, next: Links, head: Option<Ref>, l: seq<Ref>, b: Addr,
                 linked': map<Ref, Option<Addr>>, prev': Links, next': Links, a: Addr)
    requires ListAt(linked, prev, next, head, l, b) && a != b && SameElsewhere(linked, linked', a)
    requires LinksElsewhere(linked, a, prev, prev') && LinksElsewhere(linked, a, next, next')
    ensures ListAt(linked', prev', next', head, l, b)
  {
    hide Chained;
    forall q ensures q in l ==> RefersElsewhere(linked, a, q) {}
    forall q ensures q in l <==> q in linked' && linked'[q] == Some(b) {
      assert RefersElsewhere(linked', a, q) <==> RefersElsewhere(linked, a, q);
    }
    ChainedElsewhere(l, prev, next, prev', next');
  }

  /** The list of a before the change. */
  lemma ListOf(tag: map<Addr, Tag>, linked: map<Ref, Option<Addr>>, prev: Links, next: Links, lists: map<Addr, seq<Ref>>, a: Addr)
    requires LinkedInv(tag, linked, prev, next, lists) && a in tag && tag[a].List?
    ensures a in lists && Chained(lists[a], prev, next) && tag[a].head == First(lists[a]) && RefsAre(lists[a], linked, a)
  {
    hide Chained, RefsAre;
  }

  lemma StayLinked(linked: map<Ref, Option<Addr>>, a: Addr, l: seq<Ref>, r: Ref, s: Ref, links: Links, links': Links)
    requires RefsAre(l, linked, a) && Kept(l, r, s, links, links') && forall q :: q in linked ==> q in links
    requires !RefersElsewhere(linked, a, r) && !RefersElsewhere(linked, a, s)
    ensures LinksElsewhere(linked, a, links, links')
  {
  }

  /** Members of the lists have links. */
  lemma HasLinks(tag: map<Addr, Tag>, linked: map<Ref, Option<Addr>>, prev: Links, next: Links, lists: map<Addr, seq<Ref>>, q: Ref)
    requires LinkedInv(tag, linked, prev, next, lists) && q in linked
    ensures q in prev && q in next
  {
    if linked[q].Some? {
      var l := lists[linked[q].value];
      assert LinkedAt(l, prev, next, Position(l, q));
    }
  }

  /** Storage that its container gave up is there exactly as long as some counted reference holds it. */
  lemma KeptWhileHeld(tag: map<Addr, Tag>, counted: map<Ref, Option<Addr>>, gone: set<Addr>, a: Addr)
    requires CountedInv(tag, counted, gone) && a in gone
    ensures a in tag <==> exists r :: r in counted && counted[r] == Some(a)
  {
    NoHolders(counted, a);
  }

  /** No allocation has references of both kinds, and no reference refers to storage that was freed. */
  lemma OneKind(tag: map<Addr, Tag>, counted: map<Ref, Option<Addr>>, gone: set<Addr>, linked: map<Ref, Option<Addr>>,
                prev: Links, next: Links, lists: map<Addr, seq<Ref>>, r: Ref, q: Ref)
    requires CountedInv(tag, counted, gone) && LinkedInv(tag, linked, prev, next, lists)
    ensures r in counted && q in linked && counted[r].Some? ==> counted[r] != linked[q]
    ensures (r in counted && counted[r].Some? ==> counted[r].value in tag) && (q in linked && linked[q].Some? ==> linked[q].value in tag)
  {
  }

  /** Of the storage ever allocated, each piece is still there or was freed, and none was freed twice. */
  ghost predicate Balanced(storage: set<Addr>, made: multiset<Addr>, freed: multiset<Addr>) {
    made == freed + multiset(storage)
  }

  class References {
    /** The metadata word of each allocation whose storage is not freed. */
    var tag: map<Addr, Tag>
    /** What the live references refer to. */
    var counted: map<Ref, Option<Addr>>
    var linked: map<Ref, Option<Addr>>
    /** The list links of the linked references. */
    var prev: Links
    var next: Links
    ghost var lists: map<Addr, seq<Ref>>
    /** Allocations that the container has deallocated. */
    ghost var gone: set<Addr>
    /** The allocations ever made, and those whose storage was freed. */
    ghost var made: multiset<Addr>
    ghost var freed: multiset<Addr>

    ghost predicate Valid()
      reads this
    {
      && CountedInv(tag, counted, gone) && LinkedInv(tag, linked, prev, next, lists)
      && Balanced(tag.Keys, made, freed)
    }

    constructor ()
      ensures Valid() && tag == map[] && counted == map[] && linked == map[]
    {
      tag, counted, linked, prev, next := map[], map[], map[], map[], map[];
      lists, gone, made, freed := map[], {}, multiset{}, multiset{};
    }

    /** `allocate`, with the storage that aligned_tagged_alloc returns. */
    method Allocate(a: Addr)
      requires Valid() && a !in tag
      modifies `tag, `gone, `made
      ensures Valid() && tag == old(tag)[a := Counter(0, false)] && gone == old(gone) - {a}
    {
      hide CountedInv, LinkedInv, Holders;
      CountedReuse(tag, counted, gone, a);
      CountedSwitch(tag, counted, gone - {a}, a, Counter(0, false));
      LinkedIgnoresCounters(tag, tag[a := Counter(0, false)], linked, prev, next, lists);
      assert tag.Keys + {a} == tag[a := Counter(0, false)].Keys;
      tag := tag[a := Counter(0, false)];
      gone := gone - {a};
      made := made + multiset{a};
    }

    method Free(a: Addr)
      requires a in tag && Balanced(tag.Keys, made, freed)
      modifies `tag, `freed
      ensures tag == old(tag) - {a} && Balanced(tag.Keys, made, freed)
    {
      assert tag.Keys == (tag - {a}).Keys + {a};
      tag := tag - {a};
      freed := freed + multiset{a};
    }

    // ----- Counted references -----

    /** The default constructor. */
    method NewCounted(r: Ref)
      requires Valid() && r !in counted
      modifies `counted
      ensures Valid() && counted == old(counted)[r := None]
    {
      hide CountedInv, LinkedInv, Holders, Balanced;
      CountedNull(tag, counted, gone, r);
      counted := counted[r := None];
    }

    /** Assignment of nullptr. */
    method ResetCounted(r: Ref)
      requires Valid() && r in counted
      modifies `tag, `counted, `freed
      ensures Valid() && counted == old(counted)[r := None]
      ensures tag.Keys == old(tag.Keys) - Released(old(counted), gone, r)
    {
      hide CountedInv, LinkedInv, Released, Holders, Balanced;
      if counted[r].Some? {
        var a := counted[r].value;
        CountedReset(tag, counted, gone, r, a);
        LinkedIgnoresCounters(tag, Lowered(tag, a), linked, prev, next, lists);
        SameKeys(tag, a, Counter(tag[a].n - 1, tag[a].tombstone));
        ghost var lowered := Lowered(tag, a);
        tag := tag[a := Counter(tag[a].n - 1, tag[a].tombstone)];
        if tag[a] == Counter(0, true) {
          Free(a);
        }
        assert tag == lowered;
        counted := counted[r := None];
      } else {
        NullReleases(counted, gone, r);
      }
    }

    method CountUp(r: Ref, a: Addr)
      requires Valid() && a in tag && tag[a].Counter? && (r in counted ==> counted[r] == None)
      modifies `tag, `counted
      ensures Valid() && counted == old(counted)[r := Some(a)] && tag.Keys == old(tag.Keys)
    {
      hide CountedInv, LinkedInv, Holders, Balanced;
      CountedUp(tag, counted, gone, r, a);
      LinkedIgnoresCounters(tag, tag[a := Counter(tag[a].n + 1, tag[a].tombstone)], linked, prev, next, lists);
      SameKeys(tag, a, Counter(tag[a].n + 1, tag[a].tombstone));
      tag := tag[a := Counter(tag[a].n + 1, tag[a].tombstone)];
      counted := counted[r := Some(a)];
    }

    /** The copy constructor. */
    method CopyCounted(r: Ref, s: Ref)
      requires Valid() && r !in counted && s in counted
      modifies `tag, `counted
      ensures Valid() && counted == old(counted)[r := old(counted)[s]] && tag.Keys == old(tag.Keys)
    {
      hide CountedInv, LinkedInv, Holders, Balanced;
      CountedTag(tag, counted, gone, s);
      if counted[s].Some? { CountUp(r, counted[s].value); } else { NewCounted(r); }
    }

    /** r, which is null or new, takes over from s. */
    method TakeOver(r: Ref, s: Ref)
      requires Valid() && s in counted && r != s && (r in counted ==> counted[r] == None)
      modifies `counted
      ensures Valid() && counted == old(counted)[r := old(counted)[s]][s := None]
    {
      hide CountedInv, LinkedInv, Holders, Balanced;
      CountedTake(tag, counted, gone, r, s);
      counted := counted[r := counted[s]][s := None];
    }

    /** The move constructor. */
    method MoveCounted(r: Ref, s: Ref)
      requires Valid() && r !in counted && s in counted
      modifies `counted
      ensures Valid() && counted == old(counted)[r := old(counted)[s]][s := None]
    {
      TakeOver(r, s);
    }

    method AssignCounted(r: Ref, s: Ref)
      requires Valid() && r in counted && s in counted
      modifies `tag, `counted, `freed
      ensures Valid() && counted == old(counted)[r := old(counted)[s]]
      ensures tag.Keys == old(tag.Keys) - if r == s then {} else Released(old(counted), gone, r)
    {
      hide CountedInv, LinkedInv, Released, Holders, Balanced;
      if r == s { return; }
      ResetCounted(r);
      CountedTag(tag, counted, gone, s);
      if counted[s].Some? { CountUp(r, counted[s].value); }
    }

    method MoveAssignCounted(r: Ref, s: Ref)
      requires Valid() && r in counted && s in counted
      modifies `tag, `counted, `freed
      ensures Valid() && counted == if r == s then old(counted) else old(counted)[r := old(counted)[s]][s := None]
      ensures tag.Keys == old(tag.Keys) - if r == s then {} else Released(old(counted), gone, r)
    {
      hide CountedInv, LinkedInv, Released, Holders, Balanced;
      if r == s { return; }
      ResetCounted(r);
      TakeOver(r, s);
    }

    /** The destructor. */
    method DestroyCounted(r: Ref)
      requires Valid() && r in counted
      modifies `tag, `counted, `freed
      ensures Valid() && counted == old(counted) - {r}
      ensures tag.Keys == old(tag.Keys) - Released(old(counted), gone, r)
    {
      hide CountedInv, LinkedInv, Released, Holders, Balanced;
      ResetCounted(r);
      CountedNull(tag, counted, gone, r);
      counted := counted - {r};
    }

    /** `operator bool`: a reference that is not null is valid until its container deallocates, and never afterwards. */
    method IsValidCounted(r: Ref) returns (valid: bool)
      requires Valid() && r in counted
      ensures valid <==> counted[r].Some? && counted[r].value !in gone
    {
      hide LinkedInv;
      valid := counted[r].Some? && !tag[counted[r].value].tombstone;
    }

    /** `create_counted_ref`; it terminates the program if there are linked references. */
    method CreateCounted(a: Addr, r: Ref) returns (ok: bool)
      requires Valid() && a in tag && a !in gone && r in counted
      modifies `tag, `counted, `freed
      ensures Valid() && (ok <==> forall q :: q in linked ==> linked[q] != Some(a))
      ensures counted == old(counted)[r := if ok then Some(a) else None]
      ensures tag.Keys == old(tag.Keys) - Released(old(counted), gone, r)
    {
      hide CountedInv, LinkedInv, Released, Holders, Balanced;
      ResetCounted(r);
      Unreferenced(tag, linked, prev, next, lists, a);
      if tag[a].List? {
        if tag[a].head.Some? { return false; }
        CountedSwitch(tag, counted, gone, a, Counter(0, false));
        NoList(tag, linked, prev, next, lists, a);
        SameKeys(tag, a, Counter(0, false));
        tag := tag[a := Counter(0, false)];
      }
      CountUp(r, a);
      ok := true;
    }

    // ----- Linked references -----

    /** The default constructor. */
    method NewLinked(r: Ref)
      requires Valid() && r !in linked
      modifies `linked, `prev, `next
      ensures Valid() && linked == old(linked)[r := None]
    {
      hide CountedInv, LinkedInv, Holders, Balanced;
      Isolated(tag, linked, prev, next, lists, r);
      linked, prev, next := linked[r := None], prev[r := None], next[r := None];
    }

    /** Assignment of nullptr: the neighbours are linked with each other. */
    method ResetLinked(r: Ref)
      requires Valid() && r in linked
      modifies `tag, `linked, `prev, `next, `lists
      ensures Valid() && linked == old(linked)[r := None] && tag.Keys == old(tag.Keys)
      ensures forall a :: a in tag ==> (tag[a].List? <==> old(tag)[a].List?) && (tag[a].Counter? ==> tag[a] == old(tag)[a])
    {
      hide CountedInv, LinkedInv, Without, Balanced;
      HasLinks(tag, linked, prev, next, lists, r);
      LinkedTag(tag, linked, prev, next, lists, r);
      CutOut(tag, linked, prev, next, lists, r);
      ghost var tag0 := tag;
      ghost var prev', next' := UnlinkedPrev(prev, next, r)[r := None], UnlinkedNext(prev, next, r)[r := None];
      lists := if linked[r].Some? then lists[linked[r].value := Without(lists[linked[r].value], r)] else lists;
      var p, n := prev[r], next[r];
      if n.Some? { prev := prev[n.value := p]; }
      if p.Some? {
        next := next[p.value := n];
      } else if linked[r].Some? {
        tag := tag[linked[r].value := List(n)];
      }
      linked, prev, next := linked[r := None], prev[r := None], next[r := None];
      assert prev == prev' && next == next';
      CountedIgnoresLists(tag0, tag, counted, gone);
      assert tag.Keys == tag0.Keys;
    }

    /** r becomes the first reference in the list of a. */
    method PushLinked(r: Ref, a: Addr)
      requires Valid() && r in linked && linked[r] == None && a in tag && tag[a].List?
      modifies `tag, `linked, `prev, `next, `lists
      ensures Valid() && linked == old(linked)[r := Some(a)] && tag.Keys == old(tag.Keys)
    {
      hide CountedInv, LinkedInv, Holders, Balanced;
      PutIn(tag, linked, prev, next, lists, r, a);
      HeadIs(tag, linked, prev, next, lists, a);
      CountedIgnoresLists(tag, tag[a := List(Some(r))], counted, gone);
      SameKeys(tag, a, List(Some(r)));
      next := next[r := tag[a].head];
      if tag[a].head.Some? { prev := prev[tag[a].head.value := Some(r)]; }
      tag := tag[a := List(Some(r))];
      prev := prev[r := None];
      lists := lists[a := [r] + lists[a]];
      linked := linked[r := Some(a)];
    }

    /** The copy constructor. */
    method CopyLinked(r: Ref, s: Ref)
      requires Valid() && r !in linked && s in linked
      modifies `tag, `linked, `prev, `next, `lists
      ensures Valid() && linked == old(linked)[r := old(linked)[s]] && tag.Keys == old(tag.Keys)
    {
      hide CountedInv, LinkedInv, Holders, Balanced;
      NewLinked(r);
      LinkedTag(tag, linked, prev, next, lists, s);
      if linked[s].Some? { PushLinked(r, linked[s].value); }
    }

    /** r takes the place of s in its list. */
    method Replace(r: Ref, s: Ref)
      requires Valid() && r in linked && linked[r] == None && s in linked && r != s
      modifies `tag, `linked, `prev, `next, `lists
      ensures Valid() && linked == old(linked)[r := old(linked)[s]][s := None] && tag.Keys == old(tag.Keys)
    {
      hide CountedInv, LinkedInv, Without, Balanced;
      HasLinks(tag, linked, prev, next, lists, s);
      LinkedTag(tag, linked, prev, next, lists, s);
      ghost var tag0 := tag;
      PutFor(tag, linked, prev, next, lists, s, r);
      ghost var prev', next' := MovedPrev(prev, next, s, r), MovedNext(prev, next, s, r);
      var a := linked[s];
      lists := if a.Some? then lists[a.value := Moved(lists[a.value], s, r)] else lists;
      linked := linked[r := a][s := None];
      prev, next := prev[r := prev[s]][s := None], next[r := next[s]][s := None];
      var p, n := prev[r], next[r];
      if n.Some? { prev := prev[n.value := Some(r)]; }
      if p.Some? {
        next := next[p.value := Some(r)];
      } else if a.Some? {
        tag := tag[a.value := List(Some(r))];
      }
      assert prev == prev' && next == next';
      CountedIgnoresLists(tag0, tag, counted, gone);
      assert tag.Keys == tag0.Keys;
    }

    /** The move constructor. */
    method MoveLinked(r: Ref, s: Ref)
      requires Valid() && r !in linked && s in linked
      modifies `tag, `linked, `prev, `next, `lists
      ensures Valid() && linked == old(linked)[r := old(linked)[s]][s := None] && tag.Keys == old(tag.Keys)
    {
      hide CountedInv, LinkedInv, Holders, Balanced;
      NewLinked(r);
      Replace(r, s);
    }

    method AssignLinked(r: Ref, s: Ref)
      requires Valid() && r in linked && s in linked
      modifies `tag, `linked, `prev, `next, `lists
      ensures Valid() && linked == old(linked)[r := old(linked)[s]] && tag.Keys == old(tag.Keys)
    {
      hide CountedInv, LinkedInv, Holders, Balanced;
      if r == s { return; }
      ResetLinked(r);
      LinkedTag(tag, linked, prev, next, lists, s);
      if linked[s].Some? { PushLinked(r, linked[s].value); }
    }

    method MoveAssignLinked(r: Ref, s: Ref)
      requires Valid() && r in linked && s in linked
      modifies `tag, `linked, `prev, `next, `lists
      ensures Valid() && tag.Keys == old(tag.Keys)
      ensures linked == if r == s then old(linked) else old(linked)[r := old(linked)[s]][s := None]
    {
      hide CountedInv, LinkedInv, Holders, Balanced;
      if r == s { return; }
      ResetLinked(r);
      Replace(r, s);
    }

    /** The destructor. */
    method DestroyLinked(r: Ref)
      requires Valid() && r in linked
      modifies `tag, `linked, `prev, `next, `lists
      ensures Valid() && linked == old(linked) - {r} && tag.Keys == old(tag.Keys)
    {
      hide CountedInv, LinkedInv, Holders, Balanced;
      ResetLinked(r);
      LinkedDrop(tag, linked, prev, next, lists, r);
      linked := linked - {r};
    }

    /** `operator bool`: a linked reference that is not null refers to storage that was not deallocated. */
    method IsValidLinked(r: Ref) returns (valid: bool)
      requires Valid() && r in linked
      ensures valid <==> linked[r].Some?
      ensures valid ==> linked[r].value in tag && linked[r].value !in gone
    {
      valid := linked[r].Some?;
    }

    /** `create_linked_ref`; it terminates the program if there are counted references. */
    method CreateLinked(a: Addr, r: Ref) returns (ok: bool)
      requires Valid() && a in tag && a !in gone && r in linked
      modifies `tag, `linked, `prev, `next, `lists
      ensures Valid() && (ok <==> forall q :: q in counted ==> counted[q] != Some(a))
      ensures linked == old(linked)[r := if ok then Some(a) else None] && tag.Keys == old(tag.Keys)
    {
      hide CountedInv, LinkedInv, Holders, Balanced;
      ResetLinked(r);
      CountedGone(tag, counted, gone, a);
      if tag[a].Counter? {
        NotTombstone(tag, counted, gone, a);
        if tag[a] != Counter(0, false) { return false; }
        EmptyList(tag, linked, prev, next, lists, a);
        CountedSwitch(tag, counted, gone, a, List(None));
        SameKeys(tag, a, List(None));
        tag := tag[a := List(None)];
        lists := lists[a := []];
      }
      PushLinked(r, a);
      ok := true;
    }

    // ----- The container -----

    /** Every linked reference to a becomes null. */
    method Nullify(a: Addr)
      requires LinkedInv(tag, linked, prev, next, lists) && a in tag && tag[a].List? && a in lists
      modifies `linked, `prev, `next
      ensures linked.Keys == old(linked).Keys
      ensures forall r :: r in linked ==> linked[r] == if old(linked)[r] == Some(a) then None else old(linked)[r]
      ensures LinkedInv(tag - {a}, linked, prev, next, lists)
    {
      hide CountedInv, LinkedInv, Balanced, Nulled, Chained;
      ghost var l, linked0, prev0, next0 := lists[a], linked, prev, next;
      ghost var k := 0;
      HeadIs(tag, linked, prev, next, lists, a);
      NullNone(l, linked);
      NullNone(l, prev);
      NullNone(l, next);
      var p := tag[a].head;
      while p.Some?
        invariant k <= |l| && p == if k == |l| then None else Some(l[k])
        invariant Nulled(l, k, linked0, linked) && Nulled(l, k, prev0, prev) && Nulled(l, k, next0, next)
        decreases |l| - k
      {
        NextInChain(l, k, prev0, next0, next);
        NullOne(l, k, linked0, linked);
        NullOne(l, k, prev0, prev);
        NullOne(l, k, next0, next);
        var n := next[p.value];
        linked, prev, next := linked[p.value := None], prev[p.value := None], next[p.value := None];
        k := k + 1;
        p := n;
      }
      Nullified(tag, linked0, prev0, next0, lists, a, linked, prev, next);
    }

    /** `deallocate`: storage with counted references stays as a tombstone; otherwise linked references become null and the
        storage is freed. */
    method Deallocate(a: Addr)
      requires Valid() && a in tag && a !in gone
      modifies this
      ensures Valid() && gone == old(gone) + {a} && counted == old(counted) && linked.Keys == old(linked).Keys
      ensures forall r :: r in linked ==> linked[r] == if old(linked)[r] == Some(a) then None else old(linked)[r]
      ensures tag.Keys == old(tag.Keys) - if forall r :: r in counted ==> counted[r] != Some(a) then {a} else {}
    {
      hide CountedInv, LinkedInv, Holders, Balanced, Nulled, Chained;
      CountedGone(tag, counted, gone, a);
      NoLinked(tag, linked, prev, next, lists, a);
      gone := gone + {a};
      if tag[a].Counter? {
        ForgetsCounter(tag, linked, prev, next, lists, a, Counter(tag[a].n, true));
        if tag[a].n != 0 {
          tag := tag[a := Counter(tag[a].n, true)];
          return;
        }
      } else {
        HeadIs(tag, linked, prev, next, lists, a);
        Nullify(a);
      }
      Free(a);
    }
  }

  lemma CountedReuse(tag: map<Addr, Tag>, counted: map<Ref, Option<Addr>>, gone: set<Addr>, a: Addr)
    requires CountedInv(tag, counted, gone) && a !in tag
    ensures CountedInv(tag, counted, gone - {a})
  {
  }

  lemma CountedTag(tag: map<Addr, Tag>, counted: map<Ref, Option<Addr>>, gone: set<Addr>, r: Ref)
    requires CountedInv(tag, counted, gone) && r in counted
    ensures counted[r].Some? ==> counted[r].value in tag && tag[counted[r].value].Counter?
  {
  }

  lemma NotTombstone(tag: map<Addr, Tag>, counted: map<Ref, Option<Addr>>, gone: set<Addr>, a: Addr)
    requires CountedInv(tag, counted, gone) && a in tag && a !in gone && tag[a].Counter?
    ensures !tag[a].tombstone
  {
  }

  lemma SameKeys(tag: map<Addr, Tag>, a: Addr, u: Tag)
    requires a in tag
    ensures tag[a := u].Keys == tag.Keys
  {
  }

  lemma LinkedIgnoresCounters(tag: map<Addr, Tag>, tag': map<Addr, Tag>, linked: map<Ref, Option<Addr>>, prev: Links, next: Links,
                              lists: map<Addr, seq<Ref>>)
    requires LinkedInv(tag, linked, prev, next, lists)
    requires forall a :: a in tag && tag[a].List? ==> a in tag' && tag'[a] == tag[a]
    requires forall a :: a in tag' && tag'[a].List? ==> a in tag && tag'[a] == tag[a]
    ensures LinkedInv(tag', linked, prev, next, lists)
  {
  }

  lemma HeadIs(tag: map<Addr, Tag>, linked: map<Ref, Option<Addr>>, prev: Links, next: Links, lists: map<Addr, seq<Ref>>, a: Addr)
    requires LinkedInv(tag, linked, prev, next, lists) && a in tag && tag[a].List?
    ensures a in lists && tag[a].head == First(lists[a]) && Chained(lists[a], prev, next)
    ensures forall r :: r in lists[a] ==> r in linked && r in prev && r in next
  {
    forall r | r in lists[a] ensures r in linked && r in prev && r in next { HasLinks(tag, linked, prev, next, lists, r); }
  }

  lemma LinkedTag(tag: map<Addr, Tag>, linked: map<Ref, Option<Addr>>, prev: Links, next: Links, lists: map<Addr, seq<Ref>>, r: Ref)
    requires LinkedInv(tag, linked, prev, next, lists) && r in linked
    ensures linked[r].Some? ==>
      linked[r].value in tag && tag[linked[r].value].List? && linked[r].value in lists && r in lists[linked[r].value]
  {
  }

  lemma Unreferenced(tag: map<Addr, Tag>, linked: map<Ref, Option<Addr>>, prev: Links, next: Links, lists: map<Addr, seq<Ref>>, a: Addr)
    requires LinkedInv(tag, linked, prev, next, lists) && a in tag
    ensures (forall r :: r in linked ==> linked[r] != Some(a)) <==> tag[a].Counter? || tag[a].head == None
  {
    if tag[a].List? && tag[a].head.Some? { assert lists[a][0] in linked && linked[lists[a][0]] == Some(a); }
  }

  lemma NoLinked(tag: map<Addr, Tag>, linked: map<Ref, Option<Addr>>, prev: Links, next: Links, lists: map<Addr, seq<Ref>>, a: Addr)
    requires LinkedInv(tag, linked, prev, next, lists) && a in tag
    ensures tag[a].Counter? ==> forall r :: r in linked ==> linked[r] != Some(a)
  {
  }

  lemma ForgetsCounter(tag: map<Addr, Tag>, linked: map<Ref, Option<Addr>>, prev: Links, next: Links, lists: map<Addr, seq<Ref>>,
                       a: Addr, u: Tag)
    requires LinkedInv(tag, linked, prev, next, lists) && a in tag && tag[a].Counter? && u.Counter?
    ensures LinkedInv(tag[a := u], linked, prev, next, lists) && LinkedInv(tag - {a}, linked, prev, next, lists)
    ensures tag[a := u].Keys == tag.Keys
  {
    hide LinkedInv;
    LinkedIgnoresCounters(tag, tag[a := u], linked, prev, next, lists);
    LinkedIgnoresCounters(tag, tag - {a}, linked, prev, next, lists);
  }

  lemma NoList(tag: map<Addr, Tag>, linked: map<Ref, Option<Addr>>, prev: Links, next: Links, lists: map<Addr, seq<Ref>>, a: Addr)
    requires LinkedInv(tag, linked, prev, next, lists) && a in tag && tag[a] == List(None)
    ensures LinkedInv(tag[a := Counter(0, false)], linked, prev, next, lists)
  {
    Unreferenced(tag, linked, prev, next, lists, a);
  }

  lemma LinkedDrop(tag: map<Addr, Tag>, linked: map<Ref, Option<Addr>>, prev: Links, next: Links, lists: map<Addr, seq<Ref>>, r: Ref)
    requires LinkedInv(tag, linked, prev, next, lists) && r in linked && linked[r] == None
    ensures LinkedInv(tag, linked - {r}, prev, next, lists)
  {
  }

  /** A reference that does not exist yet is in no list. */
  lemma Isolated(tag: map<Addr, Tag>, linked: map<Ref, Option<Addr>>, prev: Links, next: Links, lists: map<Addr, seq<Ref>>, r: Ref)
    requires LinkedInv(tag, linked, prev, next, lists) && r !in linked
    ensures LinkedInv(tag, linked[r := None], prev[r := None], next[r := None], lists)
  {
    forall a | a in tag && tag[a].List? ensures Chained(lists[a], prev[r := None], next[r := None]) {
      forall q | q in lists[a] ensures q in prev && q in next { HasLinks(tag, linked, prev, next, lists, q); }
      ChainedElsewhere(lists[a], prev, next, prev[r := None], next[r := None]);
    }
  }

  lemma AllHaveLinks(tag: map<Addr, Tag>, linked: map<Ref, Option<Addr>>, prev: Links, next: Links, lists: map<Addr, seq<Ref>>)
    requires LinkedInv(tag, linked, prev, next, lists)
    ensures forall q :: q in linked ==> q in prev && q in next
  {
    forall q | q in linked ensures q in prev && q in next { HasLinks(tag, linked, prev, next, lists, q); }
  }

  lemma UnlinkedList(l: seq<Ref>, prev: Links, next: Links, r: Ref)
    requires Chained(l, prev, next) && r in l && r in prev && r in next
    ensures var prev', next' := UnlinkedPrev(prev, next, r)[r := None], UnlinkedNext(prev, next, r)[r := None];
      && Chained(Without(l, r), prev', next') && prev'[r] == None && next'[r] == None
      && Kept(l, r, r, prev, prev') && Kept(l, r, r, next, next')
    ensures forall q :: q in Without(l, r) <==> q in l && q != r
    ensures First(Without(l, r)) == if prev[r] == None then next[r] else First(l)
  {
    hide UnlinkedPrev, UnlinkedNext, Without;
    var prev', next' := UnlinkedPrev(prev, next, r), UnlinkedNext(prev, next, r);
    Unlinked(l, prev, next, r);
    WithoutIs(l, r);
    UnlinkedFrame(l, prev, next, r);
    ChainHasLinks(Without(l, r), prev', next');
    ChainedElsewhere(Without(l, r), prev', next', prev'[r := None], next'[r := None]);
  }

  lemma ChainHasLinks(l: seq<Ref>, prev: Links, next: Links)
    requires Chained(l, prev, next)
    ensures forall q :: q in l ==> q in prev && q in next
  {
    forall q | q in l ensures q in prev && q in next { assert LinkedAt(l, prev, next, Position(l, q)); }
  }

  lemma MovedList(l: seq<Ref>, prev: Links, next: Links, r: Ref, s: Ref)
    requires Chained(l, prev, next) && r in l && s !in l && r in prev && r in next
    ensures var prev', next' := MovedPrev(prev, next, r, s), MovedNext(prev, next, r, s);
      && Chained(Moved(l, r, s), prev', next') && r in prev' && r in next' && prev'[r] == None && next'[r] == None
      && Kept(l, r, s, prev, prev') && Kept(l, r, s, next, next')
    ensures forall q :: q in Moved(l, r, s) <==> (q in l && q != r) || q == s
    ensures First(Moved(l, r, s)) == if prev[r] == None then Some(s) else First(l)
  {
    hide MovedPrev, MovedNext, Moved;
    MovedChained(l, prev, next, r, s);
    MovedIs(l, r, s);
    MovedFrame(l, prev, next, r, s);
  }

  lemma CutOut(tag: map<Addr, Tag>, linked: map<Ref, Option<Addr>>, prev: Links, next: Links, lists: map<Addr, seq<Ref>>, r: Ref)
    requires LinkedInv(tag, linked, prev, next, lists) && r in linked && r in prev && r in next
    ensures var prev', next' := UnlinkedPrev(prev, next, r)[r := None], UnlinkedNext(prev, next, r)[r := None];
      if linked[r] == None then LinkedInv(tag, linked[r := None], prev', next', lists) && prev[r] == None && next[r] == None
      else var a := linked[r].value;
        LinkedInv(if prev[r] == None then tag[a := List(next[r])] else tag, linked[r := None], prev', next',
                  lists[a := Without(lists[a], r)])
  {
    if linked[r] == None {
      assert linked[r := None] == linked && prev[r := None] == prev && next[r := None] == next;
    } else {
      CutOutListed(tag, linked, prev, next, lists, r, linked[r].value);
    }
  }

  lemma CutOutListed(tag: map<Addr, Tag>, linked: map<Ref, Option<Addr>>, prev: Links, next: Links, lists: map<Addr, seq<Ref>>,
                     r: Ref, a: Addr)
    requires LinkedInv(tag, linked, prev, next, lists) && r in linked && linked[r] == Some(a) && r in prev && r in next
    ensures a in lists
    ensures LinkedInv(if prev[r] == None then tag[a := List(next[r])] else tag, linked[r := None],
                      UnlinkedPrev(prev, next, r)[r := None], UnlinkedNext(prev, next, r)[r := None],
                      lists[a := Without(lists[a], r)])
  {
    hide UnlinkedPrev, UnlinkedNext, Without, Chained, NoDup, LinkedInv, LinksElsewhere, Kept, RefsAre, SameElsewhere, NullsBare;
    ListedAt(tag, linked, prev, next, lists, r);
    ListOf(tag, linked, prev, next, lists, a);
    BareBefore(tag, linked, prev, next, lists);
    AllHaveLinks(tag, linked, prev, next, lists);
    var l, linked' := lists[a], linked[r := None];
    var prev', next' := UnlinkedPrev(prev, next, r)[r := None], UnlinkedNext(prev, next, r)[r := None];
    UnlinkedList(l, prev, next, r);
    StayLinked(linked, a, l, r, r, prev, prev');
    StayLinked(linked, a, l, r, r, next, next');
    StayBare(linked, a, l, r, r, linked', prev, next, prev', next');
    RemovedRefs(l, linked, a, r, Without(l, r));
    Rewired(tag, linked, prev, next, lists, a, Without(l, r), linked', prev', next');
    if prev[r].Some? { assert tag[a := List(First(l))] == tag; }
  }

  lemma ListedAt(tag: map<Addr, Tag>, linked: map<Ref, Option<Addr>>, prev: Links, next: Links, lists: map<Addr, seq<Ref>>, r: Ref)
    requires LinkedInv(tag, linked, prev, next, lists) && r in linked && linked[r].Some?
    ensures var a := linked[r].value; a in tag && tag[a].List? && a in lists && r in lists[a]
  {
  }

  lemma StayBare(linked: map<Ref, Option<Addr>>, a: Addr, l: seq<Ref>, r: Ref, s: Ref, linked': map<Ref, Option<Addr>>,
                 prev: Links, next: Links, prev': Links, next': Links)
    requires NullsBare(linked, prev, next) && RefsAre(l, linked, a) && Kept(l, r, s, prev, prev') && Kept(l, r, s, next, next')
    requires forall q :: q in linked' && linked'[q] == None && q != r && q != s ==> q in linked && linked[q] == None
    requires r in prev' && r in next' && prev'[r] == None && next'[r] == None
    requires s == r || s !in linked' || linked'[s].Some?
    ensures NullsBare(linked', prev', next')
  {
  }

  lemma PutIn(tag: map<Addr, Tag>, linked: map<Ref, Option<Addr>>, prev: Links, next: Links, lists: map<Addr, seq<Ref>>,
              r: Ref, a: Addr)
    requires LinkedInv(tag, linked, prev, next, lists) && r in linked && linked[r] == None && a in tag && tag[a].List?
    ensures LinkedInv(tag[a := List(Some(r))], linked[r := Some(a)], PushedPrev(lists[a], prev, r),
                      next[r := tag[a].head], lists[a := [r] + lists[a]])
  {
    var l := lists[a];
    Pushed(l, prev, next, r);
    AllHaveLinks(tag, linked, prev, next, lists);
    Rewired(tag, linked, prev, next, lists, a, [r] + l, linked[r := Some(a)], PushedPrev(l, prev, r), next[r := First(l)]);
  }

  lemma PutFor(tag: map<Addr, Tag>, linked: map<Ref, Option<Addr>>, prev: Links, next: Links, lists: map<Addr, seq<Ref>>,
               s: Ref, r: Ref)
    requires LinkedInv(tag, linked, prev, next, lists) && r in linked && linked[r] == None && s in linked && r != s
    requires s in prev && s in next
    ensures var linked', prev', next' := linked[r := linked[s]][s := None], MovedPrev(prev, next, s, r), MovedNext(prev, next, s, r);
      if linked[s] == None then LinkedInv(tag, linked', prev', next', lists) && prev[s] == None && next[s] == None
      else var a := linked[s].value;
        LinkedInv(if prev[s] == None then tag[a := List(Some(r))] else tag, linked', prev', next',
                  lists[a := Moved(lists[a], s, r)])
  {
    if linked[s] == None {
      assert linked[r := None][s := None] == linked;
      assert MovedPrev(prev, next, s, r) == prev && MovedNext(prev, next, s, r) == next;
    } else {
      PutForListed(tag, linked, prev, next, lists, s, r, linked[s].value);
    }
  }

  lemma PutForListed(tag: map<Addr, Tag>, linked: map<Ref, Option<Addr>>, prev: Links, next: Links, lists: map<Addr, seq<Ref>>,
                     s: Ref, r: Ref, a: Addr)
    requires LinkedInv(tag, linked, prev, next, lists) && r in linked && linked[r] == None && s in linked && linked[s] == Some(a)
    requires s in prev && s in next
    ensures a in tag && a in lists && s in lists[a] && r !in lists[a]
    ensures LinkedInv(if prev[s] == None then tag[a := List(Some(r))] else tag, linked[r := Some(a)][s := None],
                      MovedPrev(prev, next, s, r), MovedNext(prev, next, s, r), lists[a := Moved(lists[a], s, r)])
  {
    hide MovedPrev, MovedNext, Moved, Chained, NoDup, LinkedInv, LinksElsewhere, Kept, RefsAre, SameElsewhere, NullsBare;
    ListedAt(tag, linked, prev, next, lists, s);
    ListOf(tag, linked, prev, next, lists, a);
    BareBefore(tag, linked, prev, next, lists);
    AllHaveLinks(tag, linked, prev, next, lists);
    var l, linked', prev', next' := lists[a], linked[r := Some(a)][s := None], MovedPrev(prev, next, s, r), MovedNext(prev, next, s, r);
    NotMember(l, linked, a, r);
    MovedList(l, prev, next, s, r);
    StayLinked(linked, a, l, s, r, prev, prev');
    StayLinked(linked, a, l, s, r, next, next');
    StayBare(linked, a, l, s, r, linked', prev, next, prev', next');
    MovedRefs(l, linked, a, s, r, Moved(l, s, r));
    Rewired(tag, linked, prev, next, lists, a, Moved(l, s, r), linked', prev', next');
    if prev[s].Some? { assert tag[a := List(First(l))] == tag; }
  }

  lemma NotMember(l: seq<Ref>, linked: map<Ref, Option<Addr>>, a: Addr, r: Ref)
    requires RefsAre(l, linked, a) && r in linked && linked[r] == None
    ensures r !in l
  {
  }

  lemma MovedRefs(l: seq<Ref>, linked: map<Ref, Option<Addr>>, a: Addr, s: Ref, r: Ref, m: seq<Ref>)
    requires RefsAre(l, linked, a) && r in linked && linked[r] == None && s in linked && linked[s] == Some(a)
    requires forall q :: q in m <==> (q in l && q != s) || q == r
    ensures RefsAre(m, linked[r := Some(a)][s := None], a) && SameElsewhere(linked, linked[r := Some(a)][s := None], a)
  {
  }

  lemma RemovedRefs(l: seq<Ref>, linked: map<Ref, Option<Addr>>, a: Addr, r: Ref, m: seq<Ref>)
    requires RefsAre(l, linked, a) && r in linked && linked[r] == Some(a)
    requires forall q :: q in m <==> q in l && q != r
    ensures RefsAre(m, linked[r := None], a) && SameElsewhere(linked, linked[r := None], a)
  {
  }

  lemma EmptyList(tag: map<Addr, Tag>, linked: map<Ref, Option<Addr>>, prev: Links, next: Links, lists: map<Addr, seq<Ref>>, a: Addr)
    requires LinkedInv(tag, linked, prev, next, lists) && a in tag && tag[a].Counter?
    ensures LinkedInv(tag[a := List(None)], linked, prev, next, lists[a := []])
  {
    AllHaveLinks(tag, linked, prev, next, lists);
    Rewired(tag, linked, prev, next, lists, a, [], linked, prev, next);
  }

  /** The entries of the first k references of l are null, and those of other references are as they were. */
  ghost predicate Nulled<T>(l: seq<Ref>, k: nat, m0: map<Ref, Option<T>>, m: map<Ref, Option<T>>) {
    && k <= |l| && m.Keys == m0.Keys && (forall r :: r in l ==> r in m0)
    && (forall i :: 0 <= i < k ==> m[l[i]] == None)
    && (forall r :: r in m && r !in l[..k] ==> m[r] == m0[r])
  }

  lemma NullNone<T>(l: seq<Ref>, m: map<Ref, Option<T>>)
    requires forall r :: r in l ==> r in m
    ensures Nulled(l, 0, m, m)
  {
  }

  lemma NullOne<T>(l: seq<Ref>, k: nat, m0: map<Ref, Option<T>>, m: map<Ref, Option<T>>)
    requires k < |l| && Nulled(l, k, m0, m)
    ensures l[k] in m && Nulled(l, k + 1, m0, m[l[k] := None])
  {
    assert l[..k + 1] == l[..k] + [l[k]];
    assert l[k] in m0;
  }

  lemma NextInChain(l: seq<Ref>, k: nat, prev0: Links, next0: Links, next: Links)
    requires k < |l| && Chained(l, prev0, next0) && Nulled(l, k, next0, next)
    ensures l[k] in next && next[l[k]] == if k + 1 == |l| then None else Some(l[k + 1])
  {
    assert LinkedAt(l, prev0, next0, k);
    assert l[k] !in l[..k];
  }

  lemma NulledAll<T>(l: seq<Ref>, m0: map<Ref, Option<T>>, m: map<Ref, Option<T>>)
    requires Nulled(l, |l|, m0, m)
    ensures m.Keys == m0.Keys && forall r :: r in m ==> if r in l then m[r] == None else m[r] == m0[r]
  {
    assert l[..|l|] == l;
    forall r | r in l ensures r in m && m[r] == None {
      var i :| 0 <= i < |l| && l[i] == r;
      assert m[l[i]] == None;
    }
  }

  lemma NulledRefs(l: seq<Ref>, linked: map<Ref, Option<Addr>>, linked': map<Ref, Option<Addr>>, a: Addr)
    requires RefsAre(l, linked, a) && Nulled(l, |l|, linked, linked')
    ensures RefsAre([], linked', a) && SameElsewhere(linked, linked', a) && linked'.Keys == linked.Keys
    ensures forall r :: r in linked' ==> linked'[r] == if linked[r] == Some(a) then None else linked[r]
  {
    hide Nulled;
    NulledAll(l, linked, linked');
  }

  lemma NulledLinks(l: seq<Ref>, linked: map<Ref, Option<Addr>>, a: Addr, links: Links, links': Links)
    requires RefsAre(l, linked, a) && Nulled(l, |l|, links, links') && forall q :: q in linked ==> q in links
    ensures LinksElsewhere(linked, a, links, links')
  {
    hide Nulled;
    NulledAll(l, links, links');
  }

  lemma NulledBare(l: seq<Ref>, linked: map<Ref, Option<Addr>>, linked': map<Ref, Option<Addr>>, a: Addr,
                   prev: Links, prev': Links, next: Links, next': Links)
    requires RefsAre(l, linked, a) && Nulled(l, |l|, linked, linked') && Nulled(l, |l|, prev, prev') && Nulled(l, |l|, next, next')
    requires NullsBare(linked, prev, next) && forall q :: q in linked ==> q in prev && q in next
    ensures NullsBare(linked', prev', next')
  {
    hide Nulled;
    NulledAll(l, linked, linked');
    NulledAll(l, prev, prev');
    NulledAll(l, next, next');
  }

  lemma BareBefore(tag: map<Addr, Tag>, linked: map<Ref, Option<Addr>>, prev: Links, next: Links, lists: map<Addr, seq<Ref>>)
    requires LinkedInv(tag, linked, prev, next, lists)
    ensures NullsBare(linked, prev, next)
  {
  }

  lemma NothingChained(prev: Links, next: Links)
    ensures Chained([], prev, next)
  {
  }

  lemma Nullified(tag: map<Addr, Tag>, linked: map<Ref, Option<Addr>>, prev: Links, next: Links, lists: map<Addr, seq<Ref>>,
                  a: Addr, linked': map<Ref, Option<Addr>>, prev': Links, next': Links)
    requires LinkedInv(tag, linked, prev, next, lists) && a in tag && tag[a].List? && a in lists
    requires var l := lists[a]; Nulled(l, |l|, linked, linked') && Nulled(l, |l|, prev, prev') && Nulled(l, |l|, next, next')
    ensures LinkedInv(tag - {a}, linked', prev', next', lists)
    ensures linked'.Keys == linked.Keys
    ensures forall r :: r in linked' ==> linked'[r] == if linked[r] == Some(a) then None else linked[r]
  {
    ListOf(tag, linked, prev, next, lists, a);
    AllHaveLinks(tag, linked, prev, next, lists);
    hide LinkedInv, Nulled, Chained, RefsAre, SameElsewhere, LinksElsewhere, NullsBare;
    NulledRefs(lists[a], linked, linked', a);
    NulledLinks(lists[a], linked, a, prev, prev');
    NulledLinks(lists[a], linked, a, next, next');
    BareBefore(tag, linked, prev, next, lists);
    NulledBare(lists[a], linked, linked', a, prev, prev', next, next');
    NothingChained(prev', next');
    Rewired(tag, linked, prev, next, lists, a, [], linked', prev', next');
    LastRemoved(tag, linked', prev', next', lists, a);
  }

  lemma LastRemoved(tag: map<Addr, Tag>, linked: map<Ref, Option<Addr>>, prev: Links, next: Links, lists: map<Addr, seq<Ref>>, a: Addr)
    requires a in lists && LinkedInv(tag[a := List(None)], linked, prev, next, lists[a := []])
    ensures LinkedInv(tag - {a}, linked, prev, next, lists)
  {
    hide Chained;
    var tag1, lists1 := tag[a := List(None)], lists[a := []];
    forall r | r in linked && linked[r].Some? ensures linked[r].value != a {
      assert r in lists1[linked[r].value];
    }
    forall b | b in tag - {a} && tag[b].List?
      ensures b in lists && tag[b].head == First(lists[b]) && Chained(lists[b], prev, next)
    {
      assert b in tag1 && tag1[b] == tag[b] && lists1[b] == lists[b];
    }
    forall b, r | b in tag - {a} && tag[b].List? && r in lists[b] ensures r in linked && linked[r] == Some(b) {
      assert b in tag1 && tag1[b] == tag[b] && lists1[b] == lists[b];
    }
  }
}
