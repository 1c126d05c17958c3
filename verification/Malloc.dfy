/** The front of the allocator (src/memory/malloc.c): size classes, metadata words, alignment shifts. */
module Malloc {
  import opened Arith
  import opened Options
  import opened SmallBlock

  const WORD := 0x1_0000_0000_0000_0000
  const TASK_SIZE := 0x7FFF_FFFF_FFFF

  // ----- Size classes -----

  /** `get_class`; the unsigned negation wraps. */
  function GetClass(size: nat): nat
    requires 0 < size < WORD
  {
    if size <= 512 then size + (WORD - size) % 32
    else if size <= 262144 then Pow2(BitLength(size - 1))
    else size + (WORD - size) % 4096
  }

  /** A buddy class: 2^(m - 12) pages. */
  predicate IsBuddyClass(c: nat) {
    exists m: nat :: 12 <= m <= 18 && c == Pow2(m)
  }

  /** What the three layers below serve: the small classes, 1 to 64 pages, and whole pages beyond that. */
  predicate IsClass(c: nat) {
    IsSmallClass(c) || IsBuddyClass(c) || (c > 262144 && c % 4096 == 0)
  }

  lemma Powers()
    ensures Pow2(9) == 512 && Pow2(10) == 1024 && Pow2(11) == 2048 && Pow2(12) == 4096 && Pow2(13) == 8192
    ensures Pow2(14) == 16384 && Pow2(15) == 32768 && Pow2(16) == 65536 && Pow2(17) == 131072 && Pow2(18) == 262144
  {
    assert Pow2(9) == 512;
    assert Pow2(12) == 4096;
    assert Pow2(15) == 32768;
  }

  /** The class of a request in the power-of-two range. */
  lemma PowerClass(size: nat)
    requires 512 < size <= 262144
    ensures var m := BitLength(size - 1); 10 <= m <= 18 && size <= Pow2(m) && Pow2(m - 1) < size
  {
    Powers();
    var m := BitLength(size - 1);
    BitLengthBounds(size - 1);
    if m < 10 { Pow2Monotone(m, 9); }
    if m > 18 { Pow2Monotone(18, m - 1); }
  }

  lemma PowerLeast(size: nat, m: nat, c: nat)
    requires 10 <= m <= 18 && 512 < size <= Pow2(m) && Pow2(m - 1) < size <= c && IsClass(c)
    ensures IsClass(Pow2(m)) && Pow2(m) <= c
  {
    Powers();
    Pow2Monotone(m, 18);
    if IsBuddyClass(c) {
      var n: nat :| 12 <= n <= 18 && c == Pow2(n);
      if n < m { Pow2Monotone(n, m - 1); } else { Pow2Monotone(m, n); }
    } else if c <= 2048 {
      if m > 11 { Pow2Monotone(11, m - 1); }
    }
    assert m < 12 || IsBuddyClass(Pow2(m));
  }

  /** get_class rounds up to the smallest class that fits. */
  lemma ClassIsLeast(size: nat, c: nat)
    requires 0 < size < WORD && IsClass(c) && size <= c
    ensures IsClass(GetClass(size)) && size <= GetClass(size) <= c
  {
    if 512 < size <= 262144 {
      PowerClass(size);
      PowerLeast(size, BitLength(size - 1), c);
    } else {
      hide BitLength;
      Powers();
      SmallOrLarge(size, c);
    }
  }

  lemma SmallOrLarge(size: nat, c: nat)
    requires 0 < size < WORD && (size <= 512 || size > 262144) && IsClass(c) && size <= c
    ensures IsClass(GetClass(size)) && size <= GetClass(size) <= c
  {
    hide BitLength, Pow2;
    Powers();
    if IsBuddyClass(c) {
      var n: nat :| 12 <= n <= 18 && c == Pow2(n);
      Pow2Monotone(12, n);
      Pow2Monotone(n, 18);
    }
    if size <= 512 { RoundThirtyTwo(size, c); } else { RoundPage(size, c); }
  }

  lemma RoundThirtyTwo(size: nat, c: nat)
    requires 0 < size <= 512 && size <= c && (c % 32 == 0 || c > 512)
    ensures var r := size + (WORD - size) % 32; IsSmallClass(r) && size <= r <= c
  {
  }

  lemma RoundPage(size: nat, c: nat)
    requires 262144 < size < WORD && size <= c && c % 4096 == 0
    ensures var r := size + (WORD - size) % 4096; r > 262144 && r % 4096 == 0 && size <= r <= c
  {
  }

  // ----- Which layer serves a class, and how the metadata says so -----

  datatype Layer = Small(len: nat) | Pages(order: nat) | Mapped

  /** The branches of the three alloc functions; None where they leave ptr and ctx NULL. */
  function AllocLayer(c: nat): Option<Layer> {
    if c <= 2048 then Some(Small(c))
    else if c <= 262144 then
      if c == 4096 then Some(Pages(0))
      else if c == 8192 then Some(Pages(1))
      else if c == 16384 then Some(Pages(2))
      else if c == 32768 then Some(Pages(3))
      else if c == 65536 then Some(Pages(4))
      else if c == 131072 then Some(Pages(5))
      else if c == 262144 then Some(Pages(6))
      else None
    else Some(Mapped)
  }

  /** ctz(n) */
  function TrailingZeros(n: nat): nat
    requires n > 0
  {
    if n % 2 == 1 then 0 else 1 + TrailingZeros(n / 2)
  }

  /** The code s that the metadata stores for a class. */
  function Code(c: nat): nat {
    if c > 262144 then 31
    else if c >= 1024 then TrailingZeros(c) + 7
    else c / 32
  }

  /** The branches of `free_with_arena_internal`. */
  function FreeLayer(s: nat): Option<Layer> {
    if s == 31 then Some(Mapped)
    else if s <= 16 then Some(Small(s * 32))
    else if s == 17 then Some(Small(1024))
    else if s == 18 then Some(Small(2048))
    else if s <= 25 then Some(Pages(s - 19))
    else None
  }

  lemma {:induction false} TrailingZerosOfPower(m: nat)
    ensures TrailingZeros(Pow2(m)) == m
  {
    if m > 0 { TrailingZerosOfPower(m - 1); }
  }

  /** The code of a class takes free to the layer, and to the size or order, that alloc used. */
  lemma CodeRoundTrip(c: nat)
    requires IsClass(c)
    ensures AllocLayer(c).Some? && FreeLayer(Code(c)) == AllocLayer(c) && 1 <= Code(c) < 32
  {
    hide TrailingZeros, Pow2;
    Powers();
    TrailingZerosOfPower(10);
    TrailingZerosOfPower(11);
    if IsBuddyClass(c) {
      var m: nat :| 12 <= m <= 18 && c == Pow2(m);
      TrailingZerosOfPower(m);
      assert m == 12 || m == 13 || m == 14 || m == 15 || m == 16 || m == 17 || m == 18;
    }
  }

  /** The two metadata words of a region; arena and ctx are addresses. */
  function WordX(arena: bv64, s: bv64): bv64 {
    arena | (s & 7)
  }

  function WordY(ctx: bv64, s: bv64, tagged: bool): bv64 {
    ctx | ((s >> 3) & 3) | (if tagged then 4 else 0)
  }

  const FREE_MARK: bv64 := 0x4000_0000_0000_0000

  function DecodeCode(x: bv64, y: bv64): bv64 {
    (x & 7) | ((y & 3) << 3)
  }

  function DecodeContext(y: bv64): bv64 {
    y & !7
  }

  function DecodeArena(x: bv64): bv64 {
    x & !7
  }

  lemma LowWordX(arena: bv64, s: bv64)
    requires arena & 7 == 0
    ensures WordX(arena, s) & 7 == s & 7
  {
  }

  lemma MarkedWordX(x: bv64)
    ensures (x | FREE_MARK) & 7 == x & 7
  {
  }

  lemma HighWordX(arena: bv64, s: bv64)
    requires arena & 7 == 0
    ensures DecodeArena(WordX(arena, s)) == arena
  {
  }

  lemma LowWordY(ctx: bv64, s: bv64, tagged: bool)
    requires ctx & 7 == 0
    ensures WordY(ctx, s, tagged) & 3 == (s >> 3) & 3
  {
  }

  lemma TagOfWordY(ctx: bv64, s: bv64, tagged: bool)
    requires ctx & 7 == 0
    ensures WordY(ctx, s, tagged) & 4 == if tagged then 4 else 0
  {
  }

  lemma HighWordY(ctx: bv64, s: bv64, tagged: bool)
    requires ctx & 7 == 0
    ensures DecodeContext(WordY(ctx, s, tagged)) == ctx
  {
  }

  lemma CodeParts(s: bv64)
    requires s & !31 == 0
    ensures (s & 7) | (((s >> 3) & 3) << 3) == s
  {
  }

  lemma DecodeParts(x: bv64, y: bv64, s: bv64)
    requires x & 7 == s & 7 && y & 3 == (s >> 3) & 3
    ensures DecodeCode(x, y) == (s & 7) | (((s >> 3) & 3) << 3)
  {
  }

  lemma DecodesTo(arena: bv64, ctx: bv64, s: bv64, tagged: bool)
    requires arena & 7 == 0 && ctx & 7 == 0 && s & !31 == 0
    ensures DecodeCode(WordX(arena, s), WordY(ctx, s, tagged)) == s
    ensures DecodeCode(WordX(arena, s) | FREE_MARK, WordY(ctx, s, tagged)) == s
  {
    hide WordX, WordY, DecodeCode;
    LowWordX(arena, s);
    MarkedWordX(WordX(arena, s));
    LowWordY(ctx, s, tagged);
    CodeParts(s);
    DecodeParts(WordX(arena, s), WordY(ctx, s, tagged), s);
    DecodeParts(WordX(arena, s) | FREE_MARK, WordY(ctx, s, tagged), s);
  }

  /** Whatever free reads back, with or without its own mark on x, is what alloc stored. */
  lemma MetadataRoundTrip(arena: bv64, ctx: bv64, s: bv64, tagged: bool)
    requires arena & 7 == 0 && ctx & 7 == 0 && s & !31 == 0
    ensures var x, y := WordX(arena, s), WordY(ctx, s, tagged);
      && DecodeCode(x, y) == s && DecodeCode(x | FREE_MARK, y) == s
      && DecodeContext(y) == ctx && DecodeArena(x) == arena
      && (y & 4 != 0 <==> tagged)
  {
    hide WordX, WordY, DecodeCode, DecodeContext, DecodeArena;
    DecodesTo(arena, ctx, s, tagged);
    HighWordX(arena, s);
    TagOfWordY(ctx, s, tagged);
    HighWordY(ctx, s, tagged);
  }

  // ----- The three alloc functions: class and placement of a request -----

  /** The alignment is 2^log; anything else is undefined behaviour. */
  datatype Request = Plain(size: nat) | Aligned(log: nat, size: nat) | Tagged(log: nat, size: nat)

  lemma WordPowers()
    ensures Pow2(46) == 0x4000_0000_0000 && Pow2(64) == WORD
  {
    assert Pow2(8) == 0x100;
    assert Pow2(16) == 0x1_0000;
    assert Pow2(24) == 0x100_0000;
    assert Pow2(32) == 0x1_0000_0000;
    assert Pow2(40) == 0x100_0000_0000;
    assert Pow2(46) == 0x4000_0000_0000;
    assert Pow2(56) == 0x100_0000_0000_0000;
  }

  lemma AlignmentBound(log: nat)
    requires log < 47
    ensures Pow2(log) <= 0x4000_0000_0000 && (log >= 5 ==> Pow2(log) >= 32) && (log < 5 <==> Pow2(log) <= 16)
  {
    WordPowers();
    Pow2Monotone(log, 46);
    assert Pow2(4) == 16;
    if log >= 5 { Pow2Monotone(5, log); } else { Pow2Monotone(log, 4); }
  }

  /** `malloc_with_arena` up to its call of the layer below. */
  function PlainClass(size: nat): Option<nat> {
    if size == 0 || size > TASK_SIZE then None
    else
      var c := GetClass(size + 16);
      if c > TASK_SIZE then None else Some(c)
  }

  /** The class that is asked of the layers below, or None where the function returns NULL without asking. */
  function RequestClass(r: Request): Option<nat> {
    match r
    case Plain(size) => PlainClass(size)
    case Aligned(log, size) =>
      if Pow2(log) <= 16 then PlainClass(size)
      else if size == 0 || size > TASK_SIZE || log >= 47 then None
      else
        AlignmentBound(log);
        var c := GetClass(size + Pow2(log));
        if c > TASK_SIZE then None else Some(c)
    case Tagged(log, size) =>
      if size == 0 || size > TASK_SIZE then None
      else if Pow2(log) <= 16 then PlainClass(size + 16)
      else if log >= 47 then None
      else
        AlignmentBound(log);
        var c := GetClass(size + Pow2(log) + 16);
        if c > TASK_SIZE then None else Some(c)
  }

  /** The bytes of a request with its metadata, its header and what alignment may cost. */
  function Needed(r: Request): nat {
    match r
    case Plain(size) => size + 16
    case Aligned(log, size) => if log <= 4 then size + 16 else size + Pow2(log)
    case Tagged(log, size) => if log <= 4 then size + 32 else size + Pow2(log) + 16
  }

  /** c is the smallest class of at least n bytes. */
  ghost predicate LeastClass(c: nat, n: nat) {
    IsClass(c) && n <= c && forall d: nat :: IsClass(d) && n <= d ==> c <= d
  }

  /** Nothing is asked of the layers below: no bytes, too many bytes, too large an alignment, or no class that fits. */
  ghost predicate Refused(r: Request) {
    || r.size == 0 || r.size > TASK_SIZE || (!r.Plain? && r.log >= 47)
    || forall d: nat :: IsClass(d) && Needed(r) <= d ==> d > TASK_SIZE
  }

  lemma GetClassLeast(n: nat)
    requires 0 < n < WORD
    ensures LeastClass(GetClass(n), n)
    ensures GetClass(n) > TASK_SIZE <==> forall d: nat :: IsClass(d) && n <= d ==> d > TASK_SIZE
  {
    hide GetClass, IsClass;
    ClassFits(n);
    forall d: nat | IsClass(d) && n <= d ensures GetClass(n) <= d { ClassIsLeast(n, d); }
  }

  lemma LeastUnique(c: nat, n: nat)
    requires LeastClass(c, n)
    ensures forall d: nat :: LeastClass(d, n) ==> d == c
  {
  }

  lemma ClassOfRequest(r: Request)
    ensures RequestClass(r) == None <==> Refused(r)
    ensures RequestClass(r).Some? ==> RequestClass(r).value <= TASK_SIZE && LeastClass(RequestClass(r).value, Needed(r))
  {
    hide GetClass, IsClass, Pow2, LeastClass;
    if !r.Plain? && r.log < 47 { AlignmentBound(r.log); }
    if !r.Plain? && r.log >= 5 { LargeLog(r.log); }
    if 0 < r.size <= TASK_SIZE && (r.Plain? || r.log < 47) { GetClassLeast(Needed(r)); }
  }

  /** How far the metadata stands behind the start ptr of the block; the subtraction wraps. */
  function Shift(r: Request, ptr: nat): nat {
    match r
    case Plain(_) => 0
    case Aligned(log, _) =>
      if Pow2(log) <= 16 then 0 else (WORD + Pow2(log) - 16 - LowBits(ptr, log)) % WORD
    case Tagged(log, _) =>
      if Pow2(log) <= 16 then 0 else LowBits((WORD + Pow2(log) - 32 - LowBits(ptr, log)) % WORD, log)
  }

  lemma ClassFits(size: nat)
    requires 0 < size < WORD
    ensures size <= GetClass(size) && IsClass(GetClass(size))
  {
    ClassIsLeast(size, 4096 * (size / 4096 + 100));
  }

  lemma {:induction false} PowerSixteen(log: nat)
    requires log >= 4
    ensures Pow2(log) % 16 == 0
  {
    if log > 4 {
      PowerSixteen(log - 1);
      SixteenAdd(Pow2(log - 1), Pow2(log - 1));
    } else {
      assert Pow2(4) == 16;
    }
  }

  lemma BlockModulo(log: nat, ptr: nat) returns (q: nat)
    requires log >= 5 && ptr % 16 == 0
    ensures ptr == Times(q, Pow2(log)) + LowBits(ptr, log)
    ensures LowBits(ptr, log) % 16 == 0 && LowBits(ptr, log) <= Pow2(log) - 16
  {
    hide Pow2, LowBits;
    q := Quotient(ptr, log);
    PowerSixteen(log);
    TimesSixteen(q, Pow2(log));
    SixteenDifference(ptr, Times(q, Pow2(log)), LowBits(ptr, log), Pow2(log));
  }

  lemma SixteenDifference(x: nat, t: nat, m: nat, p: nat)
    requires x % 16 == 0 && t % 16 == 0 && p % 16 == 0 && x == t + m && m < p
    ensures m % 16 == 0 && m <= p - 16
  {
  }

  lemma AlignedShift(log: nat, size: nat, ptr: nat)
    requires 5 <= log < 47 && ptr % 16 == 0
    ensures var s := Shift(Aligned(log, size), ptr);
      s % 16 == 0 && s <= Pow2(log) - 16 && LowBits(ptr + s + 16, log) == 0
  {
    hide Pow2, LowBits, Times;
    AlignmentBound(log);
    PowerSixteen(log);
    var q := BlockModulo(log, ptr);
    LowBitsOf(q + 1, log, 0);
    TimesNext(q, Pow2(log));
    WrapsBack(Pow2(log) - 16 - LowBits(ptr, log));
    SixteenSubtract(Pow2(log), LowBits(ptr, log));
  }

  lemma TimesNext(q: nat, p: nat)
    ensures Times(q + 1, p) == Times(q, p) + p
  {
  }

  lemma WrapsBack(v: int)
    requires -WORD <= v < WORD
    ensures (WORD + v) % WORD == if v >= 0 then v else WORD + v
  {
  }

  lemma SixteenSubtract(p: nat, m: nat)
    requires p % 16 == 0 && m % 16 == 0
    ensures (p - 16 - m) % 16 == 0 && (p - 32 - m) % 16 == 0 && (p - 16) % 16 == 0
  {
  }

  /** WORD - 16 modulo a power of two, by which the subtraction of the tagged case may wrap. */
  lemma WrapModulo(log: nat)
    requires 5 <= log < 47
    ensures LowBits(WORD - 16, log) == Pow2(log) - 16
  {
    hide Pow2, LowBits;
    WordPowers();
    AlignmentBound(log);
    Pow2Add(64 - log, log);
    var n := Pow2(64 - log);
    assert Times(n, Pow2(log)) == Times(n - 1, Pow2(log)) + Pow2(log);
    LowBitsOf(n - 1, log, Pow2(log) - 16);
  }

  lemma TaggedShiftIs(log: nat, size: nat, ptr: nat)
    requires 5 <= log < 47 && ptr % 16 == 0
    ensures var p, m := Pow2(log), LowBits(ptr, log);
      Shift(Tagged(log, size), ptr) == if m <= p - 32 then p - 32 - m else p - 16
    ensures LowBits(ptr, log) > Pow2(log) - 32 ==> LowBits(ptr, log) == Pow2(log) - 16
  {
    hide Pow2, LowBits, Times;
    var p: int := Pow2(log);
    var m: int := LowBits(ptr, log);
    AlignmentBound(log);
    PowerSixteen(log);
    var q := BlockModulo(log, ptr);
    WrapsBack(p - 32 - m);
    if m <= p - 32 {
      LowBitsOf(0, log, p - 32 - m);
      TimesIsProduct(0, p);
    } else {
      SixteenGap(m, p);
      WrapModulo(log);
    }
  }

  lemma TaggedShift(log: nat, size: nat, ptr: nat)
    requires 5 <= log < 47 && ptr % 16 == 0
    ensures var s := Shift(Tagged(log, size), ptr);
      s % 16 == 0 && s <= Pow2(log) - 16 && LowBits(ptr + s + 32, log) == 0
  {
    hide Pow2, LowBits, Times, Shift;
    var p := Pow2(log);
    PowerSixteen(log);
    var q := BlockModulo(log, ptr);
    LowBitsOf(q + 1, log, 0);
    LowBitsOf(q + 2, log, 0);
    TimesNext(q, p);
    TimesNext(q + 1, p);
    TaggedShiftIs(log, size, ptr);
    SixteenSubtract(p, LowBits(ptr, log));
    LargeLog(log);
  }

  lemma SixteenGap(m: nat, p: nat)
    requires m % 16 == 0 && p % 16 == 0 && p - 32 < m <= p - 16
    ensures m == p - 16
  {
  }

  lemma SixteenAligned(log: nat, user: nat)
    requires log < 5 && user % 16 == 0
    ensures LowBits(user, log) == 0
  {
    var q := user / 16;
    TimesIsProduct(q, 16);
    assert Times(q, 16) + 0 == user;
    assert Pow2(4) == 16;
    TimesDouble(q, 8);
    TimesDouble(2 * q, 4);
    TimesDouble(4 * q, 2);
    TimesDouble(8 * q, 1);
    LowBitsOf(if log == 4 then q else if log == 3 then 2 * q else if log == 2 then 4 * q else if log == 1 then 8 * q
              else 16 * q, log, 0);
  }

  /** Where the region of a request may stand in a block of c bytes at ptr: what the caller may use, after the 16
      metadata bytes and, for a tagged request, the 16 bytes of the caller's own header, lies inside the block and is
      aligned; and a mark at the start of the block does not touch the metadata. */
  predicate Placed(r: Request, ptr: nat, c: nat, user: nat) {
    && (user == ptr + 16 || user >= ptr + 32) && user % 16 == 0
    && match r
       case Plain(size) => user + size <= ptr + c
       case Aligned(log, size) => LowBits(user, log) == 0 && user + size <= ptr + c
       case Tagged(log, size) => LowBits(user + 16, log) == 0 && user + 16 + size <= ptr + c
  }

  lemma RegionFits(r: Request, ptr: nat)
    requires RequestClass(r).Some? && ptr % 16 == 0
    ensures var c := RequestClass(r).value;
      && IsClass(c) && c <= TASK_SIZE && r.size > 0
      && Placed(r, ptr, c, ptr + Shift(r, ptr) + 16)
  {
    hide Pow2, GetClass, Shift, IsClass, LowBits;
    match r
    case Plain(size) =>
      ClassFits(size + 16);
      PlainShift(r, ptr);
    case Aligned(log, size) =>
      if log < 5 {
        AlignmentBound(log);
        ClassFits(size + 16);
        PlainShift(r, ptr);
        SixteenAligned(log, ptr + 16);
      } else {
        LargeLog(log);
        AlignmentBound(log);
        ClassFits(size + Pow2(log));
        AlignedShift(log, size, ptr);
      }
    case Tagged(log, size) =>
      if log < 5 {
        AlignmentBound(log);
        ClassFits(size + 32);
        PlainShift(r, ptr);
        SixteenAligned(log, ptr + 32);
      } else {
        LargeLog(log);
        AlignmentBound(log);
        ClassFits(size + Pow2(log) + 16);
        TaggedShift(log, size, ptr);
      }
  }

  lemma PlainShift(r: Request, ptr: nat)
    requires !r.Plain? ==> r.log < 5
    ensures Shift(r, ptr) == 0
  {
    if !r.Plain? { AlignmentBound(r.log); }
  }

  lemma LargeLog(log: nat)
    requires log >= 5
    ensures Pow2(log) > 16
  {
    Pow2Monotone(5, log);
    assert Pow2(5) == 32;
  }
}
