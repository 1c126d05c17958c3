/** The copying routines of src/string/memcpy.c and src/string/memmove.c on an array of bytes, indexed by address. */
module Memory {
  import opened Words

  /** The memory after n bytes were copied from s to d. */
  function Moved(m: seq<Byte>, d: nat, s: nat, n: nat): (r: seq<Byte>)
    requires s + n <= |m| && d + n <= |m|
    ensures |r| == |m|
  {
    seq(|m|, k requires 0 <= k < |m| => if d <= k < d + n then m[k - d + s] else m[k])
  }

  /** The first i bytes of a copy from s to d are done. */
  predicate Copied(m: seq<Byte>, m0: seq<Byte>, d: nat, s: nat, i: nat)
    requires s + i <= |m0| && d + i <= |m0|
  {
    && |m| == |m0|
    && (forall k :: d <= k < d + i ==> m[k] == m0[k - d + s])
    && (forall k :: 0 <= k < |m| && !(d <= k < d + i) ==> m[k] == m0[k])
  }

  /** A copy upwards does not overwrite what it has yet to read. */
  predicate SafeUpwards(d: nat, s: nat, n: nat) {
    d <= s || s + n <= d
  }

  /** A copy in progress: i of n bytes are done. */
  ghost predicate Upwards(m: seq<Byte>, m0: seq<Byte>, d: nat, s: nat, n: nat, i: nat) {
    && i <= n && s + n <= |m0| && d + n <= |m0| && Aligned(|m0|)
    && SafeUpwards(d, s, n) && Copied(m, m0, d, s, i)
  }

  /** The first c bytes of buf are the next source bytes, as far as there are any, and the others are zero. */
  ghost predicate Buffered(buf: Word, m0: seq<Byte>, s: nat, n: nat, i: nat, c: nat) {
    && c <= 8 && s + n <= |m0|
    && (forall j :: 0 <= j < c && i + j < n ==> buf[j] == m0[s + i + j])
    && (forall j :: c <= j < 8 ==> buf[j] == 0)
  }

  /** read_u64: an aligned word that holds at least one byte of [lo, hi). */
  method ReadWord(a: array<Byte>, p: nat, ghost lo: nat, ghost hi: nat) returns (w: Word)
    requires Aligned(p) && Aligned(a.Length) && p < hi <= a.Length && lo < p + 8
    ensures p + 8 <= a.Length && w == a[p..p + 8]
  {
    w := a[p..p + 8];
  }

  /** write_u64 */
  method WriteWord(a: array<Byte>, p: nat, w: Word)
    requires Aligned(p) && p + 8 <= a.Length
    modifies a
    ensures forall k :: p <= k < p + 8 ==> a[k] == w[k - p]
    ensures forall k :: 0 <= k < a.Length && !(p <= k < p + 8) ==> a[k] == old(a[k])
  {
    forall j | 0 <= j < 8 { a[p + j] := w[j]; }
  }

  // ----- Upwards -----

  /** What has yet to be read is as it was. */
  lemma SourceIntact(m: seq<Byte>, m0: seq<Byte>, d: nat, s: nat, n: nat, i: nat, k: nat)
    requires Upwards(m, m0, d, s, n, i) && i <= k < n
    ensures m[s + k] == m0[s + k]
  {
  }

  lemma Extended(m: seq<Byte>, after: seq<Byte>, m0: seq<Byte>, d: nat, s: nat, n: nat, i: nat, j: nat)
    requires Upwards(m, m0, d, s, n, i) && i <= j <= n && |after| == |m|
    requires forall k :: d + i <= k < d + j ==> after[k] == m0[k - d + s]
    requires forall k :: 0 <= k < |m| && !(d + i <= k < d + j) ==> after[k] == m[k]
    ensures Upwards(after, m0, d, s, n, j)
  {
  }

  /** Step 1 of both routines: single bytes until the source is aligned. */
  method AlignSource(a: array<Byte>, d: nat, s: nat, n: nat, ghost m0: seq<Byte>) returns (i: nat)
    requires Upwards(a[..], m0, d, s, n, 0)
    modifies a
    ensures Upwards(a[..], m0, d, s, n, i) && (i == n || Aligned(s + i))
  {
    hide Copied, SafeUpwards;
    i := 0;
    while i < n && !Aligned(s + i)
      invariant Upwards(a[..], m0, d, s, n, i)
    {
      i := CopyByte(a, d, s, n, i, m0);
    }
  }

  method CopyByte(a: array<Byte>, d: nat, s: nat, n: nat, i0: nat, ghost m0: seq<Byte>) returns (i: nat)
    requires Upwards(a[..], m0, d, s, n, i0) && i0 < n
    modifies a
    ensures i == i0 + 1 && Upwards(a[..], m0, d, s, n, i)
  {
    CopiedLength(a[..], m0, d, s, i0);
    SourceIntact(a[..], m0, d, s, n, i0, i0);
    hide Copied, SafeUpwards, Aligned;
    i := PutByte(a, d, s, n, i0, a[s + i0], m0);
  }

  method PutByte(a: array<Byte>, d: nat, s: nat, n: nat, i0: nat, b: Byte, ghost m0: seq<Byte>) returns (i: nat)
    requires Upwards(a[..], m0, d, s, n, i0) && i0 < n && b == m0[s + i0]
    modifies a
    ensures i == i0 + 1 && Upwards(a[..], m0, d, s, n, i)
  {
    ghost var m := a[..];
    CopiedLength(m, m0, d, s, i0);
    hide Copied, SafeUpwards, Aligned;
    a[d + i0] := b;
    i := i0 + 1;
    Extended(m, a[..], m0, d, s, n, i0, i);
  }

  lemma CopiedLength(m: seq<Byte>, m0: seq<Byte>, d: nat, s: nat, i: nat)
    requires s + i <= |m0| && d + i <= |m0| && Copied(m, m0, d, s, i)
    ensures |m| == |m0|
  {
  }

  /** An aligned word of the source, or of its last bytes and what follows, into a buffer. */
  method LoadWord(a: array<Byte>, d: nat, s: nat, n: nat, i: nat, k: nat, ghost m0: seq<Byte>) returns (w: Word)
    requires Upwards(a[..], m0, d, s, n, i) && i <= k < n && Aligned(s + k)
    ensures Buffered(w, m0, s, n, k, 8)
  {
    CopiedLength(a[..], m0, d, s, i);
    w := ReadWord(a, s + k, s, s + n);
    forall j | 0 <= j < 8 && k + j < n ensures w[j] == m0[s + k + j] {
      SourceIntact(a[..], m0, d, s, n, i, k + j);
    }
  }

  /** A full word of source bytes to an aligned place of the destination. */
  method StoreWord(a: array<Byte>, d: nat, s: nat, n: nat, i0: nat, w: Word, ghost m0: seq<Byte>) returns (i: nat)
    requires Upwards(a[..], m0, d, s, n, i0) && n - i0 >= 8 && Aligned(d + i0)
    requires forall j :: 0 <= j < 8 ==> w[j] == m0[s + i0 + j]
    modifies a
    ensures i == i0 + 8 && Upwards(a[..], m0, d, s, n, i)
  {
    ghost var m := a[..];
    CopiedLength(m, m0, d, s, i0);
    hide Copied, SafeUpwards;
    WriteWord(a, d + i0, w);
    i := i0 + 8;
    Extended(m, a[..], m0, d, s, n, i0, i);
  }

  /** Step 2: whole words when both are aligned. */
  method CopyWords(a: array<Byte>, d: nat, s: nat, n: nat, i0: nat, ghost m0: seq<Byte>) returns (i: nat)
    requires Upwards(a[..], m0, d, s, n, i0) && Aligned(s + i0) && Aligned(d + i0)
    modifies a
    ensures Upwards(a[..], m0, d, s, n, i) && i0 <= i && n - i < 8 && Aligned(s + i)
  {
    hide Copied, SafeUpwards, Aligned;
    i := i0;
    while n - i >= 8
      invariant i0 <= i && Upwards(a[..], m0, d, s, n, i) && Aligned(s + i) && Aligned(d + i)
    {
      AlignedNext(s + i);
      AlignedNext(d + i);
      var buf := LoadWord(a, d, s, n, i, i, m0);
      FullWord(buf, m0, s, n, i);
      i := StoreWord(a, d, s, n, i, buf, m0);
    }
  }

  /** Bytes out of a buffer that holds c source bytes, at most count of them. */
  method CopyFromBuffer(a: array<Byte>, d: nat, s: nat, n: nat, i0: nat, buf0: Word, ghost c: nat, count: nat,
                        ghost m0: seq<Byte>) returns (i: nat, buf: Word)
    requires Upwards(a[..], m0, d, s, n, i0) && Buffered(buf0, m0, s, n, i0, c) && count <= c
    modifies a
    ensures Upwards(a[..], m0, d, s, n, i) && i == (if n - i0 < count then n else i0 + count)
    ensures Buffered(buf, m0, s, n, i, c - (i - i0))
  {
    hide Copied, SafeUpwards, Aligned, Buffered;
    i, buf := i0, buf0;
    while i < i0 + count && i < n
      invariant i0 <= i <= i0 + count && Upwards(a[..], m0, d, s, n, i) && Buffered(buf, m0, s, n, i, c - (i - i0))
    {
      Shifted(buf, m0, s, n, i, c - (i - i0));
      i := PutByte(a, d, s, n, i, buf[0], m0);
      buf := ShiftRight(buf, 1);
    }
  }

  lemma Shifted(buf: Word, m0: seq<Byte>, s: nat, n: nat, i: nat, c: nat)
    requires Buffered(buf, m0, s, n, i, c) && c > 0 && i < n
    ensures Buffered(ShiftRight(buf, 1), m0, s, n, i + 1, c - 1) && buf[0] == m0[s + i]
  {
  }

  lemma Merged(buf: Word, w: Word, m0: seq<Byte>, s: nat, n: nat, i: nat, c: nat)
    requires Buffered(buf, m0, s, n, i, c) && Buffered(w, m0, s, n, i + c, 8)
    ensures Buffered(Or(buf, ShiftLeft(w, c)), m0, s, n, i, 8)
    ensures Buffered(ShiftRight(w, 8 - c), m0, s, n, i + 8, c)
  {
    MergeIs(buf, w, c);
  }

  /** Steps 3 and 4: the destination is aligned out of one word, then whole words are merged out of two, c bytes
      behind the source. */
  method MergeWords(a: array<Byte>, d: nat, s: nat, n: nat, i0: nat, buf0: Word, c: nat, ghost m0: seq<Byte>)
    returns (i: nat, buf: Word)
    requires Upwards(a[..], m0, d, s, n, i0) && Buffered(buf0, m0, s, n, i0, c)
    requires Aligned(d + i0) && Aligned(s + i0 + c) && c < 8
    modifies a
    ensures Upwards(a[..], m0, d, s, n, i) && n - i < 8 && i0 <= i
    ensures Buffered(buf, m0, s, n, i, c) && Aligned(s + i + c)
  {
    hide Copied, SafeUpwards, Buffered, ShiftLeft, ShiftRight, Or, Aligned;
    i, buf := i0, buf0;
    while n - i >= 8
      invariant i0 <= i && Upwards(a[..], m0, d, s, n, i) && Buffered(buf, m0, s, n, i, c)
      invariant Aligned(d + i) && Aligned(s + i + c)
    {
      AlignedNext(s + i + c);
      AlignedNext(d + i);
      var buf2 := LoadWord(a, d, s, n, i, i + c, m0);
      Merged(buf, buf2, m0, s, n, i, c);
      var buf3 := Or(buf, ShiftLeft(buf2, c));
      FullWord(buf3, m0, s, n, i);
      i := StoreWord(a, d, s, n, i, buf3, m0);
      buf := ShiftRight(buf2, 8 - c);
    }
  }

  lemma FullWord(w: Word, m0: seq<Byte>, s: nat, n: nat, i: nat)
    requires Buffered(w, m0, s, n, i, 8) && n - i >= 8
    ensures forall j :: 0 <= j < 8 ==> w[j] == m0[s + i + j]
  {
  }

  /** Step 5: the last bytes, out of the buffer and, if it holds too few, the next word. */
  method MergeTail(a: array<Byte>, d: nat, s: nat, n: nat, i0: nat, buf0: Word, c: nat, ghost m0: seq<Byte>)
    requires Upwards(a[..], m0, d, s, n, i0) && Buffered(buf0, m0, s, n, i0, c) && n - i0 < 8
    requires Aligned(s + i0 + c) && c < 8
    modifies a
    ensures Upwards(a[..], m0, d, s, n, n)
  {
    hide Copied, SafeUpwards, Buffered, ShiftLeft, ShiftRight, Or, Aligned;
    if i0 == n { return; }
    var buf2: Word := [0, 0, 0, 0, 0, 0, 0, 0];
    if n - i0 > c {
      buf2 := LoadWord(a, d, s, n, i0, i0 + c, m0);
    } else {
      NothingLeft(buf2, m0, s, n, i0 + c);
    }
    Merged(buf0, buf2, m0, s, n, i0, c);
    var i, buf := CopyFromBuffer(a, d, s, n, i0, Or(buf0, ShiftLeft(buf2, c)), 8, 8, m0);
  }

  lemma NothingLeft(w: Word, m0: seq<Byte>, s: nat, n: nat, i: nat)
    requires i >= n && s + n <= |m0|
    ensures Buffered(w, m0, s, n, i, 8)
  {
  }

  /** Where the destination and the source are aligned after the first part of an unaligned copy. */
  lemma OffsetAligned(d: nat, s: nat, i: nat)
    requires Aligned(s + i) && !Aligned(d + i)
    ensures var c := (d + i) % 8;
      0 < c < 8 && Aligned(d + i + 8 - c) && Aligned(s + i + 8 - c + c)
  {
  }

  lemma OffsetAlignedDown(d: nat, s: nat, i: nat)
    requires Aligned(s + i) && !Aligned(d + i)
    ensures var c := (d + i) % 8;
      0 < c < 8 && Aligned(d + i - c) && Aligned(s + i - c - (8 - c))
  {
    AlignedNext(s + i - 8);
  }

  /** The unaligned part of both routines, from an aligned source on. */
  method CopyUnaligned(a: array<Byte>, d: nat, s: nat, n: nat, i0: nat, ghost m0: seq<Byte>)
    requires Upwards(a[..], m0, d, s, n, i0) && i0 < n && Aligned(s + i0) && !Aligned(d + i0)
    modifies a
    ensures Upwards(a[..], m0, d, s, n, n)
  {
    hide Copied, SafeUpwards, Buffered;
    OffsetAligned(d, s, i0);
    var dOff := (d + i0) % 8;
    hide Aligned;
    var buf := LoadWord(a, d, s, n, i0, i0, m0);
    var i;
    i, buf := CopyFromBuffer(a, d, s, n, i0, buf, 8, 8 - dOff, m0);
    if i == n { return; }
    i, buf := MergeWords(a, d, s, n, i, buf, dOff, m0);
    MergeTail(a, d, s, n, i, buf, dOff, m0);
  }

  /** `memcpy`, for regions that it can copy upwards. */
  method Memcpy(a: array<Byte>, d: nat, s: nat, n: nat)
    requires s + n <= a.Length && d + n <= a.Length && Aligned(a.Length) && SafeUpwards(d, s, n)
    modifies a
    ensures a[..] == Moved(old(a[..]), d, s, n)
  {
    ghost var m0 := a[..];
    Start(m0, d, s, n);
    hide Copied, SafeUpwards, Buffered, Moved;
    var i := AlignSource(a, d, s, n, m0);
    if i < n {
      if Aligned(d + i) {
        i := CopyWords(a, d, s, n, i, m0);
        if i < n {
          var buf := LoadWord(a, d, s, n, i, i, m0);
          i, buf := CopyFromBuffer(a, d, s, n, i, buf, 8, 8, m0);
        }
      } else {
        CopyUnaligned(a, d, s, n, i, m0);
      }
    }
    Finish(a[..], m0, d, s, n);
  }

  lemma Start(m: seq<Byte>, d: nat, s: nat, n: nat)
    requires s + n <= |m| && d + n <= |m| && Aligned(|m|) && SafeUpwards(d, s, n)
    ensures Upwards(m, m, d, s, n, 0)
  {
  }

  lemma Finish(m: seq<Byte>, m0: seq<Byte>, d: nat, s: nat, n: nat)
    requires Upwards(m, m0, d, s, n, n)
    ensures m == Moved(m0, d, s, n)
  {
    forall k | 0 <= k < |m| ensures m[k] == Moved(m0, d, s, n)[k] {}
  }

  // ----- Downwards: the bytes from i on are done, the i lowest are not -----

  predicate SafeDownwards(d: nat, s: nat, n: nat) {
    s <= d || d + n <= s
  }

  ghost predicate Downwards(m: seq<Byte>, m0: seq<Byte>, d: nat, s: nat, n: nat, i: nat) {
    && i <= n && s + n <= |m0| && d + n <= |m0| && Aligned(|m0|)
    && SafeDownwards(d, s, n) && Copied(m, m0, d + i, s + i, n - i)
  }

  /** The last c bytes of buf are the c source bytes below position i, as far as there are any, and the others are zero. */
  ghost predicate BufferedTop(buf: Word, m0: seq<Byte>, s: nat, i: nat, c: nat) {
    && c <= 8 && s + i <= |m0|
    && (forall j :: 8 - c <= j < 8 && i + j >= 8 ==> buf[j] == m0[s + i + j - 8])
    && (forall j :: 0 <= j < 8 - c ==> buf[j] == 0)
  }

  lemma SourceIntactDown(m: seq<Byte>, m0: seq<Byte>, d: nat, s: nat, n: nat, i: nat, k: nat)
    requires Downwards(m, m0, d, s, n, i) && k < i
    ensures m[s + k] == m0[s + k]
  {
  }

  lemma ExtendedDown(m: seq<Byte>, after: seq<Byte>, m0: seq<Byte>, d: nat, s: nat, n: nat, i: nat, j: nat)
    requires Downwards(m, m0, d, s, n, i) && j <= i && |after| == |m|
    requires forall k :: d + j <= k < d + i ==> after[k] == m0[k - d + s]
    requires forall k :: 0 <= k < |m| && !(d + j <= k < d + i) ==> after[k] == m[k]
    ensures Downwards(after, m0, d, s, n, j)
  {
  }

  method CopyByteDown(a: array<Byte>, d: nat, s: nat, n: nat, i0: nat, ghost m0: seq<Byte>) returns (i: nat)
    requires Downwards(a[..], m0, d, s, n, i0) && i0 > 0
    modifies a
    ensures i == i0 - 1 && Downwards(a[..], m0, d, s, n, i)
  {
    CopiedLength(a[..], m0, d + i0, s + i0, n - i0);
    SourceIntactDown(a[..], m0, d, s, n, i0, i0 - 1);
    hide Copied, SafeDownwards, Aligned;
    i := PutByteDown(a, d, s, n, i0, a[s + i0 - 1], m0);
  }

  method PutByteDown(a: array<Byte>, d: nat, s: nat, n: nat, i0: nat, b: Byte, ghost m0: seq<Byte>) returns (i: nat)
    requires Downwards(a[..], m0, d, s, n, i0) && i0 > 0 && b == m0[s + i0 - 1]
    modifies a
    ensures i == i0 - 1 && Downwards(a[..], m0, d, s, n, i)
  {
    ghost var m := a[..];
    CopiedLength(m, m0, d + i0, s + i0, n - i0);
    hide Copied, SafeDownwards, Aligned;
    i := i0 - 1;
    a[d + i] := b;
    ExtendedDown(m, a[..], m0, d, s, n, i0, i);
  }

  method AlignSourceDown(a: array<Byte>, d: nat, s: nat, n: nat, ghost m0: seq<Byte>) returns (i: nat)
    requires Downwards(a[..], m0, d, s, n, n)
    modifies a
    ensures Downwards(a[..], m0, d, s, n, i) && (i == 0 || Aligned(s + i))
  {
    hide Copied, SafeDownwards;
    i := n;
    while i > 0 && !Aligned(s + i)
      invariant Downwards(a[..], m0, d, s, n, i)
    {
      i := CopyByteDown(a, d, s, n, i, m0);
    }
  }

  /** The aligned word that ends at source position k, of which at least the last byte is a source byte. */
  method LoadWordDown(a: array<Byte>, d: nat, s: nat, n: nat, i: nat, k: nat, ghost m0: seq<Byte>) returns (w: Word)
    requires Downwards(a[..], m0, d, s, n, i) && 0 < k <= i && Aligned(s + k)
    ensures BufferedTop(w, m0, s, k, 8)
  {
    CopiedLength(a[..], m0, d + i, s + i, n - i);
    w := ReadWord(a, s + k - 8, s, s + n);
    forall j | 0 <= j < 8 && k + j >= 8 ensures w[j] == m0[s + k + j - 8] {
      SourceIntactDown(a[..], m0, d, s, n, i, k + j - 8);
    }
  }

  method StoreWordDown(a: array<Byte>, d: nat, s: nat, n: nat, i0: nat, w: Word, ghost m0: seq<Byte>) returns (i: nat)
    requires Downwards(a[..], m0, d, s, n, i0) && i0 >= 8 && Aligned(d + i0)
    requires forall j :: 0 <= j < 8 ==> w[j] == m0[s + i0 + j - 8]
    modifies a
    ensures i == i0 - 8 && Downwards(a[..], m0, d, s, n, i)
  {
    ghost var m := a[..];
    CopiedLength(m, m0, d + i0, s + i0, n - i0);
    hide Copied, SafeDownwards;
    i := i0 - 8;
    WriteWord(a, d + i, w);
    ExtendedDown(m, a[..], m0, d, s, n, i0, i);
  }

  lemma FullWordDown(w: Word, m0: seq<Byte>, s: nat, i: nat)
    requires BufferedTop(w, m0, s, i, 8) && i >= 8
    ensures forall j :: 0 <= j < 8 ==> w[j] == m0[s + i + j - 8]
  {
  }

  method CopyWordsDown(a: array<Byte>, d: nat, s: nat, n: nat, i0: nat, ghost m0: seq<Byte>) returns (i: nat)
    requires Downwards(a[..], m0, d, s, n, i0) && Aligned(s + i0) && Aligned(d + i0)
    modifies a
    ensures Downwards(a[..], m0, d, s, n, i) && i <= i0 && i < 8
  {
    hide Copied, SafeDownwards, BufferedTop, Aligned;
    i := i0;
    while i >= 8
      invariant i <= i0 && Downwards(a[..], m0, d, s, n, i) && Aligned(s + i) && Aligned(d + i)
    {
      AlignedNext(s + i - 8);
      AlignedNext(d + i - 8);
      var buf := LoadWordDown(a, d, s, n, i, i, m0);
      FullWordDown(buf, m0, s, i);
      i := StoreWordDown(a, d, s, n, i, buf, m0);
    }
  }

  method CopyFromBufferDown(a: array<Byte>, d: nat, s: nat, n: nat, i0: nat, buf0: Word, ghost c: nat, count: nat,
                            ghost m0: seq<Byte>) returns (i: nat, buf: Word)
    requires Downwards(a[..], m0, d, s, n, i0) && BufferedTop(buf0, m0, s, i0, c) && count <= c
    modifies a
    ensures Downwards(a[..], m0, d, s, n, i) && i == (if i0 < count then 0 else i0 - count)
    ensures BufferedTop(buf, m0, s, i, c - (i0 - i))
  {
    hide Copied, SafeDownwards, Aligned, BufferedTop;
    i, buf := i0, buf0;
    while i0 < i + count && i > 0
      invariant i <= i0 <= i + count && Downwards(a[..], m0, d, s, n, i) && BufferedTop(buf, m0, s, i, c - (i0 - i))
    {
      ShiftedTop(buf, m0, s, i, c - (i0 - i));
      i := PutByteDown(a, d, s, n, i, buf[7], m0);
      buf := ShiftLeft(buf, 1);
    }
  }

  lemma ShiftedTop(buf: Word, m0: seq<Byte>, s: nat, i: nat, c: nat)
    requires BufferedTop(buf, m0, s, i, c) && c > 0 && i > 0
    ensures BufferedTop(ShiftLeft(buf, 1), m0, s, i - 1, c - 1) && buf[7] == m0[s + i - 1]
  {
  }

  lemma MergedTop(buf: Word, w: Word, m0: seq<Byte>, s: nat, i: nat, c: nat)
    requires BufferedTop(buf, m0, s, i, c) && i >= c && BufferedTop(w, m0, s, i - c, 8)
    ensures BufferedTop(Or(buf, ShiftRight(w, c)), m0, s, i, 8)
    ensures i >= 8 ==> BufferedTop(ShiftLeft(w, 8 - c), m0, s, i - 8, c)
  {
    MergeHighIs(buf, w, 8 - c);
  }

  /** Whole words are merged out of two, c bytes ahead of the destination. */
  method MergeWordsDown(a: array<Byte>, d: nat, s: nat, n: nat, i0: nat, buf0: Word, c: nat, ghost m0: seq<Byte>)
    returns (i: nat, buf: Word)
    requires Downwards(a[..], m0, d, s, n, i0) && BufferedTop(buf0, m0, s, i0, c)
    requires Aligned(d + i0) && (i0 >= c ==> Aligned(s + i0 - c)) && c < 8
    modifies a
    ensures Downwards(a[..], m0, d, s, n, i) && i < 8
    ensures BufferedTop(buf, m0, s, i, c) && (i >= c ==> Aligned(s + i - c))
  {
    hide Copied, SafeDownwards, BufferedTop, ShiftLeft, ShiftRight, Or, Aligned;
    i, buf := i0, buf0;
    while i >= 8
      invariant Downwards(a[..], m0, d, s, n, i) && BufferedTop(buf, m0, s, i, c)
      invariant Aligned(d + i) && (i >= c ==> Aligned(s + i - c))
    {
      AlignedNext(s + i - c - 8);
      AlignedNext(d + i - 8);
      var buf2 := LoadWordDown(a, d, s, n, i, i - c, m0);
      MergedTop(buf, buf2, m0, s, i, c);
      var buf3 := Or(buf, ShiftRight(buf2, c));
      FullWordDown(buf3, m0, s, i);
      i := StoreWordDown(a, d, s, n, i, buf3, m0);
      buf := ShiftLeft(buf2, 8 - c);
    }
  }

  method MergeTailDown(a: array<Byte>, d: nat, s: nat, n: nat, i0: nat, buf0: Word, c: nat, ghost m0: seq<Byte>)
    requires Downwards(a[..], m0, d, s, n, i0) && BufferedTop(buf0, m0, s, i0, c) && i0 < 8
    requires (i0 >= c ==> Aligned(s + i0 - c)) && c < 8
    modifies a
    ensures Downwards(a[..], m0, d, s, n, 0)
  {
    hide Copied, SafeDownwards, BufferedTop, ShiftLeft, ShiftRight, Or, Aligned;
    if i0 == 0 { return; }
    var buf2: Word := [0, 0, 0, 0, 0, 0, 0, 0];
    if i0 > c {
      buf2 := LoadWordDown(a, d, s, n, i0, i0 - c, m0);
      MergedTop(buf0, buf2, m0, s, i0, c);
    } else {
      NothingBelow(buf0, buf2, m0, s, i0, c);
    }
    var i, buf := CopyFromBufferDown(a, d, s, n, i0, Or(buf0, ShiftRight(buf2, c)), 8, 8, m0);
  }

  lemma NothingBelow(buf: Word, w: Word, m0: seq<Byte>, s: nat, i: nat, c: nat)
    requires BufferedTop(buf, m0, s, i, c) && i <= c && w == Zeros(8)
    ensures BufferedTop(Or(buf, ShiftRight(w, c)), m0, s, i, 8)
  {
    MergeHighIs(buf, w, 8 - c);
  }

  method CopyDown(a: array<Byte>, d: nat, s: nat, n: nat, ghost m0: seq<Byte>)
    requires Downwards(a[..], m0, d, s, n, n)
    modifies a
    ensures Downwards(a[..], m0, d, s, n, 0)
  {
    hide Copied, SafeDownwards, BufferedTop;
    var i := AlignSourceDown(a, d, s, n, m0);
    if i == 0 { return; }
    if Aligned(d + i) {
      i := CopyWordsDown(a, d, s, n, i, m0);
      while i > 0
        invariant Downwards(a[..], m0, d, s, n, i)
      {
        i := CopyByteDown(a, d, s, n, i, m0);
      }
      return;
    }
    OffsetAlignedDown(d, s, i);
    var dOff := (d + i) % 8;
    hide Aligned;
    var buf := LoadWordDown(a, d, s, n, i, i, m0);
    i, buf := CopyFromBufferDown(a, d, s, n, i, buf, 8, dOff, m0);
    if i == 0 { return; }
    i, buf := MergeWordsDown(a, d, s, n, i, buf, 8 - dOff, m0);
    MergeTailDown(a, d, s, n, i, buf, 8 - dOff, m0);
  }

  // ----- memmove -----

  const WORD := 0x1_0000_0000_0000_0000

  /** s - d - n <= -2 * n in unsigned arithmetic */
  predicate OverlapTest(d: nat, s: nat, n: nat) {
    (s - d - n) % WORD <= (-2 * n) % WORD
  }

  /** For regions that lie in the address space the test holds exactly when they are disjoint, or when twice their
      length does not fit into a word. */
  lemma OverlapTestIsDisjoint(d: nat, s: nat, n: nat)
    requires d != s && n > 0 && s + n <= WORD && d + n <= WORD
    ensures OverlapTest(d, s, n) <==> s + n <= d || d + n <= s || 2 * n > WORD
  {
  }

  /** The upward branch of `memmove` */
  method CopyUp(a: array<Byte>, d: nat, s: nat, n: nat, ghost m0: seq<Byte>)
    requires Upwards(a[..], m0, d, s, n, 0)
    modifies a
    ensures Upwards(a[..], m0, d, s, n, n)
  {
    hide Copied, SafeUpwards, Buffered;
    var i := AlignSource(a, d, s, n, m0);
    if i == n { return; }
    if Aligned(d + i) {
      i := CopyWords(a, d, s, n, i, m0);
      while i < n
        invariant Upwards(a[..], m0, d, s, n, i)
      {
        i := CopyByte(a, d, s, n, i, m0);
      }
    } else {
      CopyUnaligned(a, d, s, n, i, m0);
    }
  }

  /** `memmove`: the destination gets the old source bytes, whatever the overlap, and nothing else changes.  Only a length
      of more than half the address space must not go upwards, since the overlap test then always holds. */
  method Memmove(a: array<Byte>, d: nat, s: nat, n: nat)
    requires s + n <= a.Length && d + n <= a.Length && Aligned(a.Length) && a.Length <= WORD && d < WORD && s < WORD
    requires 2 * n <= WORD || d <= s
    modifies a
    ensures a[..] == Moved(old(a[..]), d, s, n)
  {
    ghost var m0 := a[..];
    hide Copied, Moved;
    if d == s {
      Unmoved(m0, d, n);
      return;
    }
    if n > 0 { OverlapTestIsDisjoint(d, s, n); } else { EmptyTest(d, s); }
    if OverlapTest(d, s, n) {
      Memcpy(a, d, s, n);
    } else if d < s {
      Start(m0, d, s, n);
      CopyUp(a, d, s, n, m0);
      Finish(a[..], m0, d, s, n);
    } else {
      StartDown(m0, d, s, n);
      CopyDown(a, d, s, n, m0);
      FinishDown(a[..], m0, d, s, n);
    }
  }

  lemma EmptyTest(d: nat, s: nat)
    requires d != s && d < WORD && s < WORD
    ensures !OverlapTest(d, s, 0)
  {
  }

  lemma Unmoved(m: seq<Byte>, d: nat, n: nat)
    requires d + n <= |m|
    ensures Moved(m, d, d, n) == m
  {
  }

  lemma StartDown(m: seq<Byte>, d: nat, s: nat, n: nat)
    requires s + n <= |m| && d + n <= |m| && Aligned(|m|) && SafeDownwards(d, s, n)
    ensures Downwards(m, m, d, s, n, n)
  {
  }

  lemma FinishDown(m: seq<Byte>, m0: seq<Byte>, d: nat, s: nat, n: nat)
    requires Downwards(m, m0, d, s, n, 0)
    ensures m == Moved(m0, d, s, n)
  {
    forall k | 0 <= k < |m| ensures m[k] == Moved(m0, d, s, n)[k] {}
  }
}
