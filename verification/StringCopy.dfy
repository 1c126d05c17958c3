/** strncpy (src/string/strncpy.c) on an array of bytes, indexed by address. */
module StringCopy {
  import opened Words
  import Memory
  import Strings

  /** The string at s has len bytes before its terminator, or at least n. */
  ghost predicate Length(m: seq<Byte>, s: nat, n: nat, len: nat) {
    && len <= n && s + len <= |m|
    && (forall j: nat :: j < len ==> Strings.Goes(m, s, j))
    && (len == n || (s + len < |m| && m[s + len] == 0))
  }

  /** How many bytes of it may be read. */
  function Readable(n: nat, len: nat): nat {
    if len < n then len + 1 else n
  }

  /** i bytes of the string are copied; the readable source and the n bytes of the destination do not overlap. */
  ghost predicate Running(m: seq<Byte>, m0: seq<Byte>, d: nat, s: nat, n: nat, len: nat, i: nat) {
    && Length(m0, s, n, len) && i <= len && d + n <= |m0| && s + Readable(n, len) <= |m0| && Aligned(|m0|)
    && (d + n <= s || s + Readable(n, len) <= d)
    && Memory.Copied(m, m0, d, s, i)
  }

  /** The first c bytes of buf are the next readable bytes. */
  ghost predicate Buffered(buf: Word, m0: seq<Byte>, s: nat, t: nat, i: nat, c: nat) {
    Memory.Buffered(buf, m0, s, t, i, c)
  }

  lemma Intact(m: seq<Byte>, m0: seq<Byte>, d: nat, s: nat, n: nat, len: nat, i: nat, k: nat)
    requires Running(m, m0, d, s, n, len, i) && k < Readable(n, len)
    ensures |m| == |m0| && m[s + k] == m0[s + k]
  {
  }

  lemma Extended(m: seq<Byte>, after: seq<Byte>, m0: seq<Byte>, d: nat, s: nat, n: nat, len: nat, i: nat, j: nat)
    requires Running(m, m0, d, s, n, len, i) && i <= j <= len && |after| == |m|
    requires forall k :: d + i <= k < d + j ==> after[k] == m0[k - d + s]
    requires forall k :: 0 <= k < |m| && !(d + i <= k < d + j) ==> after[k] == m[k]
    ensures Running(after, m0, d, s, n, len, j)
  {
  }

  lemma Bounds(m: seq<Byte>, m0: seq<Byte>, d: nat, s: nat, n: nat, len: nat, i: nat)
    requires Running(m, m0, d, s, n, len, i)
    ensures |m| == |m0| && d + n <= |m| && s + Readable(n, len) <= |m| && len <= n && i <= len && Aligned(|m|)
  {
  }

  /** A readable byte ends the string exactly if it is zero. */
  lemma NextByte(m: seq<Byte>, m0: seq<Byte>, d: nat, s: nat, n: nat, len: nat, i: nat)
    requires Running(m, m0, d, s, n, len, i) && i < n
    ensures i < Readable(n, len) && (m0[s + i] == 0 <==> i == len)
  {
    assert i < len ==> Strings.Goes(m0, s, i);
  }

  /** *dp = b */
  method PutByte(a: array<Byte>, d: nat, s: nat, n: nat, i0: nat, b: Byte, ghost m0: seq<Byte>, ghost len: nat)
    returns (i: nat)
    requires Running(a[..], m0, d, s, n, len, i0) && i0 < len && b == m0[s + i0]
    modifies a
    ensures i == i0 + 1 && Running(a[..], m0, d, s, n, len, i)
  {
    ghost var m := a[..];
    Bounds(m, m0, d, s, n, len, i0);
    hide Running;
    a[d + i0] := b;
    i := i0 + 1;
    Extended(m, a[..], m0, d, s, n, len, i0, i);
  }

  /** read_u64 of an aligned word that starts at a readable byte. */
  method LoadWord(a: array<Byte>, d: nat, s: nat, n: nat, i: nat, k: nat, ghost m0: seq<Byte>, ghost len: nat)
    returns (w: Word)
    requires Running(a[..], m0, d, s, n, len, i) && k < Readable(n, len) && Aligned(s + k)
    ensures Buffered(w, m0, s, Readable(n, len), k, 8)
  {
    Bounds(a[..], m0, d, s, n, len, i);
    w := Memory.ReadWord(a, s + k, s, s + Readable(n, len));
    forall j | 0 <= j < 8 && k + j < Readable(n, len) ensures w[j] == m0[s + k + j] {
      Intact(a[..], m0, d, s, n, len, i, k + j);
    }
  }

  /** write_u64 of eight bytes of the string. */
  method StoreWord(a: array<Byte>, d: nat, s: nat, n: nat, i0: nat, w: Word, ghost m0: seq<Byte>, ghost len: nat)
    returns (i: nat)
    requires Running(a[..], m0, d, s, n, len, i0) && i0 + 8 <= len && Aligned(d + i0)
    requires Buffered(w, m0, s, Readable(n, len), i0, 8)
    modifies a
    ensures i == i0 + 8 && Running(a[..], m0, d, s, n, len, i)
  {
    ghost var m := a[..];
    Bounds(m, m0, d, s, n, len, i0);
    hide Running;
    Memory.WriteWord(a, d + i0, w);
    i := i0 + 8;
    Extended(m, a[..], m0, d, s, n, len, i0, i);
  }

  /** Bytes out of a buffer up to a zero byte, at most count of them. */
  method CopyBuffer(a: array<Byte>, d: nat, s: nat, n: nat, i0: nat, buf0: Word, ghost c: nat, count: nat,
                    ghost m0: seq<Byte>, ghost len: nat) returns (i: nat, buf: Word)
    requires Running(a[..], m0, d, s, n, len, i0) && Buffered(buf0, m0, s, Readable(n, len), i0, c)
    requires count <= c && i0 + count <= n
    modifies a
    ensures Running(a[..], m0, d, s, n, len, i) && i0 <= i <= i0 + count && (i < i0 + count ==> i == len)
    ensures Buffered(buf, m0, s, Readable(n, len), i, c - (i - i0))
  {
    hide Running, Buffered, ShiftRight;
    i, buf := i0, buf0;
    if i < i0 + count { FirstByte(a[..], m0, d, s, n, len, i, buf, c); }
    while i < i0 + count && buf[0] != 0
      invariant i0 <= i <= i0 + count && Running(a[..], m0, d, s, n, len, i)
      invariant Buffered(buf, m0, s, Readable(n, len), i, c - (i - i0))
    {
      FirstByte(a[..], m0, d, s, n, len, i, buf, c - (i - i0));
      Shifted(buf, m0, s, Readable(n, len), i, c - (i - i0), 1);
      i := PutByte(a, d, s, n, i, buf[0], m0, len);
      buf := ShiftRight(buf, 1);
    }
    if i < i0 + count { FirstByte(a[..], m0, d, s, n, len, i, buf, c - (i - i0)); }
  }

  lemma FirstByte(m: seq<Byte>, m0: seq<Byte>, d: nat, s: nat, n: nat, len: nat, i: nat, buf: Word, c: nat)
    requires Running(m, m0, d, s, n, len, i) && i < n && c > 0 && Buffered(buf, m0, s, Readable(n, len), i, c)
    ensures s + i < |m0| && buf[0] == m0[s + i] && (buf[0] == 0 <==> i == len) && i <= len
  {
    NextByte(m, m0, d, s, n, len, i);
  }

  lemma Shifted(buf: Word, m0: seq<Byte>, s: nat, t: nat, i: nat, c: nat, k: nat)
    requires Buffered(buf, m0, s, t, i, c) && k <= c
    ensures Buffered(ShiftRight(buf, k), m0, s, t, i + k, c - k)
  {
  }

  lemma Merged(buf: Word, w: Word, m0: seq<Byte>, s: nat, t: nat, i: nat, c: nat)
    requires Buffered(buf, m0, s, t, i, c) && Buffered(w, m0, s, t, i + c, 8)
    ensures Buffered(Or(buf, ShiftLeft(w, c)), m0, s, t, i, 8)
  {
    MergeIs(buf, w, c);
  }

  lemma EndInWord(m: seq<Byte>, m0: seq<Byte>, d: nat, s: nat, n: nat, len: nat, i: nat, k: nat, w: Word)
    requires Running(m, m0, d, s, n, len, i) && Buffered(w, m0, s, Readable(n, len), k, 8) && k <= len < k + 8 && len < n
    ensures Strings.HasZero(w)
  {
    assert w[len - k] == 0;
  }

  lemma NoEnd(m: seq<Byte>, m0: seq<Byte>, d: nat, s: nat, n: nat, len: nat, i: nat, k: nat, w: Word, j: nat)
    requires Running(m, m0, d, s, n, len, i) && Buffered(w, m0, s, Readable(n, len), k, 8) && k + 8 <= len && j < 8
    ensures w[j] != 0
  {
    assert Strings.Goes(m0, s, k + j);
  }

  /** A word without a zero byte holds no terminator: the string goes on behind it, or up to the limit. */
  lemma WordInside(m: seq<Byte>, m0: seq<Byte>, d: nat, s: nat, n: nat, len: nat, i: nat, k: nat, w: Word)
    requires Running(m, m0, d, s, n, len, i) && Buffered(w, m0, s, Readable(n, len), k, 8) && k <= len
    requires !Strings.HasZero(w)
    ensures len == n || k + 8 <= len
  {
    if len < n && len < k + 8 { EndInWord(m, m0, d, s, n, len, i, k, w); }
  }

  /** A zero byte in a word of which all eight bytes are within the limit is at or behind the end of the string. */
  lemma ZeroEnds(m: seq<Byte>, m0: seq<Byte>, d: nat, s: nat, n: nat, len: nat, i: nat, k: nat, w: Word)
    requires Running(m, m0, d, s, n, len, i) && Buffered(w, m0, s, Readable(n, len), k, 8) && k <= len
    requires Strings.HasZero(w) && k + 8 <= n
    ensures len < k + 8
  {
    var j: nat :| j < 8 && w[j] == 0;
    if k + 8 <= len { NoEnd(m, m0, d, s, n, len, i, k, w, j); }
  }

  /** Step 1: single bytes until the source is aligned. */
  method AlignSource(a: array<Byte>, d: nat, s: nat, n: nat, ghost m0: seq<Byte>, ghost len: nat) returns (i: nat)
    requires Running(a[..], m0, d, s, n, len, 0)
    modifies a
    ensures Running(a[..], m0, d, s, n, len, i) && (i < len ==> Aligned(s + i))
    ensures i < n ==> s + i < a.Length && (a[s + i] == 0 <==> i == len)
  {
    i := 0;
    ByteHere(a[..], m0, d, s, n, len, i);
    hide Running;
    while i < n && !Aligned(s + i) && a[s + i] != 0
      invariant Running(a[..], m0, d, s, n, len, i)
      invariant i < n ==> s + i < a.Length && a[s + i] == m0[s + i] && (a[s + i] == 0 <==> i == len)
    {
      Bounds(a[..], m0, d, s, n, len, i);
      i := PutByte(a, d, s, n, i, a[s + i], m0, len);
      ByteHere(a[..], m0, d, s, n, len, i);
    }
    Bounds(a[..], m0, d, s, n, len, i);
  }

  lemma ByteHere(m: seq<Byte>, m0: seq<Byte>, d: nat, s: nat, n: nat, len: nat, i: nat)
    requires Running(m, m0, d, s, n, len, i)
    ensures i < n ==> s + i < |m| == |m0| && m[s + i] == m0[s + i] && (m[s + i] == 0 <==> i == len)
  {
    if i < n {
      NextByte(m, m0, d, s, n, len, i);
      Intact(m, m0, d, s, n, len, i, i);
    }
  }

  /** Step 2, both aligned. */
  method CopyAligned(a: array<Byte>, d: nat, s: nat, n: nat, i0: nat, ghost m0: seq<Byte>, ghost len: nat)
    returns (i: nat)
    requires Running(a[..], m0, d, s, n, len, i0) && Aligned(s + i0) && Aligned(d + i0)
    modifies a
    ensures i == len && Running(a[..], m0, d, s, n, len, i)
  {
    hide Running, Buffered, Aligned, Strings.HasZero;
    i := i0;
    Bounds(a[..], m0, d, s, n, len, i);
    var buf: Word;
    while n - i >= 8
      invariant i <= len <= n && Running(a[..], m0, d, s, n, len, i) && Aligned(s + i) && Aligned(d + i)
    {
      buf := LoadWord(a, d, s, n, i, i, m0, len);
      if Strings.HasZero(buf) {
        ZeroEnds(a[..], m0, d, s, n, len, i, i, buf);
        i, buf := CopyBuffer(a, d, s, n, i, buf, 8, 8, m0, len);
        Bounds(a[..], m0, d, s, n, len, i);
        return;
      }
      WordInside(a[..], m0, d, s, n, len, i, i, buf);
      AlignedNext(s + i);
      AlignedNext(d + i);
      i := StoreWord(a, d, s, n, i, buf, m0, len);
    }
    if i == n { return; }
    buf := LoadWord(a, d, s, n, i, i, m0, len);
    i, buf := CopyBuffer(a, d, s, n, i, buf, 8, n - i, m0, len);
    Bounds(a[..], m0, d, s, n, len, i);
  }

  /** From step 2 on where the destination is not aligned. */
  method CopyUnaligned(a: array<Byte>, d: nat, s: nat, n: nat, i0: nat, ghost m0: seq<Byte>, ghost len: nat)
    returns (i: nat)
    requires Running(a[..], m0, d, s, n, len, i0) && i0 < len && Aligned(s + i0) && !Aligned(d + i0)
    modifies a
    ensures i == len && Running(a[..], m0, d, s, n, len, i)
  {
    Memory.OffsetAligned(d, s, i0);
    hide Running, Buffered, Aligned, Strings.HasZero, ShiftLeft, ShiftRight, Or;
    Bounds(a[..], m0, d, s, n, len, i0);
    var dOff := (d + i0) % 8;
    var buf1 := LoadWord(a, d, s, n, i0, i0, m0, len);
    var buf;
    if Strings.HasZero(buf1) {
      i, buf := CopyBuffer(a, d, s, n, i0, buf1, 8, if n - i0 < 8 then n - i0 else 8, m0, len);
      Bounds(a[..], m0, d, s, n, len, i);
      if i == i0 + 8 { ZeroEnds(a[..], m0, d, s, n, len, i, i0, buf1); }
      return;
    }
    WordInside(a[..], m0, d, s, n, len, i0, i0, buf1);
    i, buf1 := CopyBuffer(a, d, s, n, i0, buf1, 8, if n - i0 < 8 - dOff then n - i0 else 8 - dOff, m0, len);
    Bounds(a[..], m0, d, s, n, len, i);
    if i < i0 + 8 - dOff || i == n { return; }
    i := CopyMerged(a, d, s, n, i, buf1, dOff, m0, len);
  }

  /** Steps 4 and 5: dOff bytes of the string are in the buffer, none of them its terminator. */
  method CopyMerged(a: array<Byte>, d: nat, s: nat, n: nat, i0: nat, buf0: Word, dOff: nat,
                    ghost m0: seq<Byte>, ghost len: nat) returns (i: nat)
    requires Running(a[..], m0, d, s, n, len, i0) && 0 < dOff < 8 && Buffered(buf0, m0, s, Readable(n, len), i0, dOff)
    requires Aligned(d + i0) && Aligned(s + i0 + dOff) && (len == n || i0 + dOff <= len)
    modifies a
    ensures i == len && Running(a[..], m0, d, s, n, len, i)
  {
    hide Running, Buffered, Aligned, Strings.HasZero, ShiftLeft, ShiftRight, Or;
    var buf1 := buf0;
    i := i0;
    Bounds(a[..], m0, d, s, n, len, i);
    while n - i >= 8
      invariant i <= len <= n && Running(a[..], m0, d, s, n, len, i)
      invariant Buffered(buf1, m0, s, Readable(n, len), i, dOff) && (len == n || i + dOff <= len)
      invariant Aligned(d + i) && Aligned(s + i + dOff)
    {
      var buf2 := LoadWord(a, d, s, n, i, i + dOff, m0, len);
      var buf3 := Or(buf1, ShiftLeft(buf2, dOff));
      Merged(buf1, buf2, m0, s, Readable(n, len), i, dOff);
      Shifted(buf2, m0, s, Readable(n, len), i + dOff, 8, 8 - dOff);
      if Strings.HasZero(buf2) {
        i := EndInBuffers(a, d, s, n, i, buf2, buf3, dOff, m0, len);
        return;
      }
      WordInside(a[..], m0, d, s, n, len, i, i + dOff, buf2);
      AlignedNext(s + i + dOff);
      AlignedNext(d + i);
      i := StoreWord(a, d, s, n, i, buf3, m0, len);
      buf1 := ShiftRight(buf2, 8 - dOff);
    }
    if i == n { return; }
    var i1 := i;
    i, buf1 := CopyBuffer(a, d, s, n, i, buf1, dOff, if n - i < dOff then n - i else dOff, m0, len);
    Bounds(a[..], m0, d, s, n, len, i);
    if i < i1 + dOff || i == n { return; }
    buf1 := LoadWord(a, d, s, n, i, i, m0, len);
    i, buf1 := CopyBuffer(a, d, s, n, i, buf1, 8, n - i, m0, len);
    Bounds(a[..], m0, d, s, n, len, i);
  }

  /** The part at s_end_flag: a zero byte is in buf2, though perhaps behind the limit. */
  method EndInBuffers(a: array<Byte>, d: nat, s: nat, n: nat, i0: nat, buf2: Word, buf3: Word, dOff: nat,
                      ghost m0: seq<Byte>, ghost len: nat) returns (i: nat)
    requires Running(a[..], m0, d, s, n, len, i0) && n - i0 >= 8 && 0 < dOff < 8 && i0 + dOff <= len
    requires Buffered(buf3, m0, s, Readable(n, len), i0, 8) && Buffered(buf2, m0, s, Readable(n, len), i0 + dOff, 8)
    requires Strings.HasZero(buf2)
    modifies a
    ensures i == len && Running(a[..], m0, d, s, n, len, i)
  {
    hide Running, Buffered, Strings.HasZero, ShiftRight;
    var buf;
    i, buf := CopyBuffer(a, d, s, n, i0, buf3, 8, 8, m0, len);
    if i < i0 + 8 { return; }
    Bounds(a[..], m0, d, s, n, len, i);
    var buf1 := ShiftRight(buf2, 8 - dOff);
    Shifted(buf2, m0, s, Readable(n, len), i0 + dOff, 8, 8 - dOff);
    i, buf := CopyBuffer(a, d, s, n, i, buf1, dOff, if n - i < dOff then n - i else dOff, m0, len);
    Bounds(a[..], m0, d, s, n, len, i);
    if i == i0 + 8 + dOff { ZeroEnds(a[..], m0, d, s, n, len, i, i0 + dOff, buf2); }
  }

  /** `strncpy_internal`: the number of bytes written is the length of the string, or n. */
  method StrncpyInternal(a: array<Byte>, d: nat, s: nat, n: nat, ghost len: nat) returns (written: nat)
    requires Length(a[..], s, n, len) && d + n <= a.Length && s + Readable(n, len) <= a.Length && Aligned(a.Length)
    requires d + n <= s || s + Readable(n, len) <= d
    modifies a
    ensures written == len && a[..] == Memory.Moved(old(a[..]), d, s, len)
  {
    ghost var m0 := a[..];
    Begin(m0, d, s, n, len);
    hide Running, Length, Memory.Moved, Aligned;
    var i := AlignSource(a, d, s, n, m0, len);
    Bounds(a[..], m0, d, s, n, len, i);
    if i == n || a[s + i] == 0 {
      written := i;
    } else if Aligned(d + i) {
      written := CopyAligned(a, d, s, n, i, m0, len);
    } else {
      written := CopyUnaligned(a, d, s, n, i, m0, len);
    }
    End(a[..], m0, d, s, n, len);
  }

  lemma Begin(m: seq<Byte>, d: nat, s: nat, n: nat, len: nat)
    requires Length(m, s, n, len) && d + n <= |m| && s + Readable(n, len) <= |m| && Aligned(|m|)
    requires d + n <= s || s + Readable(n, len) <= d
    ensures Running(m, m, d, s, n, len, 0)
  {
  }

  lemma End(m: seq<Byte>, m0: seq<Byte>, d: nat, s: nat, n: nat, len: nat)
    requires Running(m, m0, d, s, n, len, len)
    ensures s + len <= |m0| && d + len <= |m0| && m == Memory.Moved(m0, d, s, len)
  {
    forall k | 0 <= k < |m| ensures m[k] == Memory.Moved(m0, d, s, len)[k] {}
  }

  /** `strncpy`: the bytes of the string, up to n of them, then zero bytes up to n in all, and nothing else changes. */
  method Strncpy(a: array<Byte>, d: nat, s: nat, n: nat, ghost len: nat)
    requires Length(a[..], s, n, len) && d + n <= a.Length && s + Readable(n, len) <= a.Length && Aligned(a.Length)
    requires d + n <= s || s + Readable(n, len) <= d
    modifies a
    ensures len <= n && s + len <= a.Length
    ensures forall k :: d <= k < d + len ==> a[k] == old(a[k - d + s])
    ensures forall k :: d + len <= k < d + n ==> a[k] == 0
    ensures forall k :: 0 <= k < a.Length && !(d <= k < d + n) ==> a[k] == old(a[k])
  {
    ghost var m0 := a[..];
    var written := StrncpyInternal(a, d, s, n, len);
    assert forall k :: 0 <= k < a.Length ==> a[k] == Memory.Moved(m0, d, s, len)[k];
    hide *;
    forall k | d + written <= k < d + n { a[k] := 0; }
  }
}
