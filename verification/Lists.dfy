/** Sequences: the intrusive lists of the allocators have no repetitions. */
module Lists {

  lemma Associates<T>(a: seq<T>, b: seq<T>, c: seq<T>)
    ensures a + (b + c) == (a + b) + c
  {
  }

  ghost predicate NoDup<T(!new)>(l: seq<T>) {
    forall a, b :: 0 <= a < b < |l| ==> l[a] != l[b]
  }

  /** l after r has been unlinked. */
  function Without<T(==)>(l: seq<T>, r: T): seq<T> {
    if l == [] then [] else if l[0] == r then l[1..] else [l[0]] + Without(l[1..], r)
  }

  lemma {:induction false} WithoutIs<T(!new)>(l: seq<T>, r: T)
    requires NoDup(l)
    ensures NoDup(Without(l, r))
    ensures forall q :: q in Without(l, r) <==> q in l && q != r
  {
    if l != [] && l[0] != r {
      WithoutIs(l[1..], r);
      assert l == [l[0]] + l[1..];
      assert l[0] !in l[1..];
    }
  }

  ghost function SetOf<T>(l: seq<T>): set<T> {
    set r | r in l
  }

  lemma {:induction false} NoDupLength<T(!new)>(l: seq<T>)
    requires NoDup(l)
    ensures |SetOf(l)| == |l|
  {
    if l != [] {
      NoDupLength(l[1..]);
      assert l == [l[0]] + l[1..];
      assert SetOf(l) == {l[0]} + SetOf(l[1..]);
      assert l[0] !in l[1..];
    }
  }
}
