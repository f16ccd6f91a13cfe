/** The decoder's ring buffer: backward copies through eager 16-byte stores, overlapping pattern
    copies and suspended wrap copies, growth, wrap-around and delivery of output, all against an
    unbounded history. */
module RingBuffer {
  import opened Arithmetic
  import opened Bits

  const SLACK := 542        // write-ahead slack behind the ring
  const WINDOW_GAP := 16

  // ---------- The meaning of a backward copy ----------

  /** Appends n bytes, each equal to the one distance d before it. */
  ghost function Extend(h: seq<byte>, d: nat, n: nat): (r: seq<byte>)
    requires 1 <= d <= |h|
    ensures |r| == |h| + n
    decreases n
  {
    if n == 0 then h else Extend(h + [h[|h| - d]], d, n - 1)
  }

  lemma {:induction false} ExtendKeeps(h: seq<byte>, d: nat, n: nat, x: nat)
    requires 1 <= d <= |h| && x < |h| + n
    ensures x < |h| ==> Extend(h, d, n)[x] == h[x]
    ensures x >= |h| ==> Extend(h, d, n)[x] == Extend(h, d, n)[x - d]
    decreases n
  {
    if n > 0 {
      var g := h + [h[|h| - d]];
      ExtendKeeps(g, d, n - 1, x);
      if x >= |h| { ExtendKeeps(g, d, n - 1, x - d); }
    }
  }

  /** Copying in two parts is copying at once. */
  lemma {:induction false} ExtendSplit(h: seq<byte>, d: nat, m: nat, n: nat)
    requires 1 <= d <= |h|
    ensures Extend(Extend(h, d, m), d, n) == Extend(h, d, m + n)
    decreases m
  {
    if m > 0 { ExtendSplit(h + [h[|h| - d]], d, m - 1, n); }
  }

  /** Going back any number of periods. */
  lemma {:induction false} ExtendPeriods(h: seq<byte>, d: nat, n: nat, x: nat, k: nat)
    requires 1 <= d <= |h| && x < |h| + n && x + d >= |h| + Times(k, d)
    ensures Times(k, d) <= x && Extend(h, d, n)[x] == Extend(h, d, n)[x - Times(k, d)]
    decreases k
  {
    hide Extend;
    if k > 0 {
      hide Times;
      TimesStep(k, d);
      ExtendKeeps(h, d, n, x);
      ExtendPeriods(h, d, n, x - d, k - 1);
    }
  }

  /** A copy that does not reach its own output. */
  lemma ExtendShort(h: seq<byte>, d: nat, n: nat, j: nat)
    requires 1 <= d <= |h| && j < n && j < d
    ensures Extend(h, d, n)[|h| + j] == h[|h| - d + j]
  {
    ExtendKeeps(h, d, n, |h| + j);
    ExtendKeeps(h, d, n, |h| + j - d);
  }

  // ---------- In-place copies ----------

  /** b is a with n bytes copied from src to dst, as if the load completed before the store. */
  ghost predicate Copied(b: seq<byte>, a: seq<byte>, dst: nat, src: nat, n: nat) {
    && |b| == |a| && dst + n <= |a| && src + n <= |a|
    && (forall x :: dst <= x < dst + n ==> b[x] == a[x - dst + src])
    && (forall x :: 0 <= x < |b| && !(dst <= x < dst + n) ==> b[x] == a[x])
  }

  /** Copies 16 bytes; the load completes before the store. */
  method Copy16(b: array<byte>, dst: nat, src: nat)
    requires dst + 16 <= b.Length && src + 16 <= b.Length
    modifies b
    ensures Copied(b[..], old(b[..]), dst, src, 16)
  {
    forall x | dst <= x < dst + 16 { b[x] := b[x - dst + src]; }
  }

  /** b holds, from pos - d up to p, the periodic continuation of what preceded pos. */
  ghost predicate Periodic(b: seq<byte>, g: seq<byte>, lo: nat, p: nat) {
    p <= |b| && p <= |g| && forall x :: lo <= x < p ==> b[x] == g[x]
  }

  /** Only the bytes lo .. hi - 1 differ. */
  ghost predicate Framed(b: seq<byte>, a: seq<byte>, lo: nat, hi: nat) {
    |b| == |a| && forall x :: 0 <= x < |b| && !(lo <= x < hi) ==> b[x] == a[x]
  }

  /** dist is a positive multiple of d. */
  ghost predicate Multiple(dist: nat, d: nat) { exists k: nat :: k >= 1 && dist == Times(k, d) }

  lemma MultipleDoubles(dist: nat, d: nat)
    requires Multiple(dist, d)
    ensures Multiple(dist + dist, d)
  {
    var k: nat :| k >= 1 && dist == Times(k, d);
    assert dist + dist == Times(2 * k, d);
  }

  lemma MultipleSelf(d: nat)
    ensures Multiple(d, d)
  {
    assert d == Times(1, d);
  }

  /** Copying from a multiple of the period back extends the periodic part, by at most that multiple. */
  lemma PatternStep(b: seq<byte>, b': seq<byte>, h: seq<byte>, d: nat, m: nat, dist: nat, p: nat, w: nat)
    requires 1 <= d <= |h| && Periodic(b, Extend(h, d, m), |h| - d, p) && p + w <= |h| + m
    requires Multiple(dist, d) && w <= dist && w <= 16 && |h| - d + dist <= p && Copied(b', b, p, p - dist, 16)
    ensures Periodic(b', Extend(h, d, m), |h| - d, p + w)
  {
    hide Extend;
    var k: nat :| k >= 1 && dist == Times(k, d);
    forall x | |h| - d <= x < p + w
      ensures b'[x] == Extend(h, d, m)[x]
    {
      if x >= p {
        ExtendPeriods(h, d, m, x, k);
      }
    }
  }

  lemma FramedCopy(b: seq<byte>, b': seq<byte>, a: seq<byte>, lo: nat, hi: nat, dst: nat, src: nat)
    requires Framed(b, a, lo, hi) && Copied(b', b, dst, src, 16) && lo <= dst && dst + 16 <= hi
    ensures Framed(b', a, lo, hi)
  {
  }

  lemma PatternDone(b: seq<byte>, before: seq<byte>, h: seq<byte>, d: nat, n: nat)
    requires 1 <= d <= |h| <= |b| && |h| + n + 15 <= |b| == |before| && h == before[..|h|]
    requires Periodic(b, Extend(h, d, n + 16), |h| - d, |h| + n)
    requires Framed(b, before, |h|, |h| + n + 15)
    ensures b[..|h| + n] == Extend(h, d, n)
  {
    hide Extend;
    forall x | 0 <= x < |h| + n
      ensures b[x] == Extend(h, d, n)[x]
    {
      ExtendSplit(h, d, n, 16);
      if x < |h| {
        ExtendKeeps(h, d, n, x);
      } else {
        ExtendKeeps(Extend(h, d, n), d, 16, x);
      }
    }
  }

  lemma PeriodicShorter(b: seq<byte>, g: seq<byte>, lo: nat, p: nat, q: nat)
    requires Periodic(b, g, lo, p) && q <= p
    ensures Periodic(b, g, lo, q)
  {
  }

  /** Repeats the dist bytes before pos over n bytes: the same bytes as a byte-by-byte copy, nothing
      before pos, and at most 15 bytes past the end. */
  method CopyOverlappingPattern(b: array<byte>, pos: nat, dist0: nat, n: nat)
    requires 1 <= dist0 <= pos && pos + n + 15 <= b.Length
    modifies b
    ensures b[..pos + n] == Extend(old(b[..pos]), dist0, n)
    ensures Framed(b[..], old(b[..]), pos, pos + n + 15)
  {
    hide Extend, Periodic, Framed, Multiple, Copied;
    ghost var h, before := b[..pos], b[..];
    var p, end, dist := pos, pos + n, dist0;
    PatternStart(b[..], h, dist0, n + 16);
    MultipleSelf(dist0);
    while dist < 16 && p < end
      invariant pos <= p <= end + 15 && p == pos - dist0 + dist && dist >= 1 && Multiple(dist, dist0)
      invariant Periodic(b[..], Extend(h, dist0, n + 16), pos - dist0, p)
      invariant Framed(b[..], before, pos, end + 15)
    {
      ghost var was := b[..];
      Copy16(b, p, p - dist);
      PatternStep(was, b[..], h, dist0, n + 16, dist, p, dist);
      FramedCopy(was, b[..], before, pos, end + 15, p, p - dist);
      MultipleDoubles(dist, dist0);
      p := p + dist;
      dist := dist + dist;
    }
    while p < end
      invariant pos <= p <= end + 15 && pos - dist0 + dist <= p && (p < end ==> dist >= 16) && Multiple(dist, dist0)
      invariant Periodic(b[..], Extend(h, dist0, n + 16), pos - dist0, p)
      invariant Framed(b[..], before, pos, end + 15)
    {
      ghost var was := b[..];
      Copy16(b, p, p - dist);
      PatternStep(was, b[..], h, dist0, n + 16, dist, p, 16);
      FramedCopy(was, b[..], before, pos, end + 15, p, p - dist);
      p := p + 16;
    }
    PeriodicShorter(b[..], Extend(h, dist0, n + 16), pos - dist0, p, end);
    PatternDone(b[..], before, h, dist0, n);
  }

  lemma PatternStart(b: seq<byte>, h: seq<byte>, d: nat, m: nat)
    requires 1 <= d <= |h| <= |b| && h == b[..|h|]
    ensures Periodic(b, Extend(h, d, m), |h| - d, |h|) && forall hi :: Framed(b, b, |h|, hi)
  {
    hide Extend;
    forall x | |h| - d <= x < |h| ensures b[x] == Extend(h, d, m)[x] { ExtendKeeps(h, d, m, x); }
  }

  /** Moves n bytes; regions may overlap. */
  method Move(b: array<byte>, dst: nat, src: nat, n: nat)
    requires dst + n <= b.Length && src + n <= b.Length
    modifies b
    ensures Copied(b[..], old(b[..]), dst, src, n)
  {
    forall x | dst <= x < dst + n { b[x] := b[x - dst + src]; }
  }

  /** The first m of n bytes have been copied from src to pos, and little beyond was written. */
  ghost predicate PartCopied(b: seq<byte>, a: seq<byte>, pos: nat, src: nat, n: nat, m: nat) {
    && |b| == |a| && pos + n <= |a| && src + n <= |a|
    && (forall x :: pos <= x < pos + m && x < pos + n ==> b[x] == a[x - pos + src])
    && Framed(b, a, pos, pos + m)
  }

  /** All n bytes have been copied; at most 16 bytes beyond were overwritten. */
  ghost predicate CopiedTo(b: seq<byte>, a: seq<byte>, pos: nat, src: nat, n: nat) {
    && |b| == |a| && pos + n <= |a| && src + n <= |a|
    && (forall x :: pos <= x < pos + n ==> b[x] == a[x - pos + src])
    && Framed(b, a, pos, pos + n + 16)
  }

  /** Source and destination do not meet: the source lies behind, or ahead by at least 16 bytes. */
  predicate Apart(pos: nat, src: nat, n: nat) { src + n <= pos || (pos + n <= src && pos + 16 <= src) }

  lemma PartStep(b: seq<byte>, b': seq<byte>, a: seq<byte>, pos: nat, src: nat, n: nat, m: nat, w: nat)
    requires Apart(pos, src, n) && m % 16 == 0 && PartCopied(b, a, pos, src, n, m) && m < n && w <= 16
    requires Copied(b', b, pos + m, src + m, w)
    ensures PartCopied(b', a, pos, src, n, m + w)
  {
    forall x | pos <= x < pos + m + w && x < pos + n
      ensures b'[x] == a[x - pos + src]
    {
      if x >= pos + m { assert b'[x] == b[x - pos + src]; }
    }
  }

  lemma PartMove(b: seq<byte>, b': seq<byte>, a: seq<byte>, pos: nat, src: nat, n: nat, m: nat)
    requires Apart(pos, src, n) && PartCopied(b, a, pos, src, n, m) && m <= n
    requires Copied(b', b, pos + m, src + m, n - m)
    ensures PartCopied(b', a, pos, src, n, n)
  {
    forall x | pos <= x < pos + n
      ensures b'[x] == a[x - pos + src]
    {
      if x >= pos + m { assert b'[x] == b[x - pos + src]; }
    }
  }

  /** One further 16-byte chunk. */
  method Chunk(b: array<byte>, pos: nat, src: nat, n: nat, m: nat, ghost a: seq<byte>)
    requires Apart(pos, src, n) && m % 16 == 0 && PartCopied(b[..], a, pos, src, n, m) && m < n
    requires pos + m + 16 <= b.Length && src + m + 16 <= b.Length
    modifies b
    ensures PartCopied(b[..], a, pos, src, n, m + 16)
  {
    hide PartCopied, Copied;
    ghost var was := b[..];
    Copy16(b, pos + m, src + m);
    PartStep(was, b[..], a, pos, src, n, m, 16);
  }

  /** The rest of a copy whose first 16 bytes were stored eagerly: chunks up to 96 bytes, then one move. */
  method CopyChunks(b: array<byte>, pos: nat, src: nat, n: nat, ghost a: seq<byte>)
    requires Apart(pos, src, n) && PartCopied(b[..], a, pos, src, n, 16)
    requires pos + n + 16 <= b.Length && src + n + 16 <= b.Length
    modifies b
    ensures CopiedTo(b[..], a, pos, src, n)
  {
    hide PartCopied;
    ghost var m := 16;
    if n > 16 {
      Chunk(b, pos, src, n, 16, a);
      m := 32;
      if n > 32 {
        Chunk(b, pos, src, n, 32, a);
        m := 48;
        if n > 48 {
          Chunk(b, pos, src, n, 48, a);
          m := 64;
          if n > 64 {
            Chunk(b, pos, src, n, 64, a);
            m := 80;
            if n > 80 {
              Chunk(b, pos, src, n, 80, a);
              m := 96;
              if n > 96 {
                ghost var was := b[..];
                Move(b, pos + 96, src + 96, n - 96);
                PartMove(was, b[..], a, pos, src, n, 96);
                m := n;
              }
            }
          }
        }
      }
    }
    PartDone(b[..], a, pos, src, n, m);
  }

  lemma PartDone(b: seq<byte>, a: seq<byte>, pos: nat, src: nat, n: nat, m: nat)
    requires PartCopied(b, a, pos, src, n, m) && n <= m <= n + 16
    ensures CopiedTo(b, a, pos, src, n)
  {
  }

  // ---------- The ring holds the reachable end of the history ----------

  /** lap bytes of the history lie before the current lap. The current lap is stored up to pos; of the
      previous one, everything except the 16 bytes at pos, which eager stores may have overwritten. */
  ghost predicate Holds(b: seq<byte>, size: nat, lap: nat, pos: nat, h: seq<byte>) {
    && |h| == lap + pos && pos <= |b| && size <= |b| && (lap > 0 ==> lap >= size)
    && (forall i :: 0 <= i < pos ==> b[i] == h[lap + i])
    && (lap > 0 ==> forall i :: pos + WINDOW_GAP <= i < size ==> b[i] == h[lap - size + i])
  }

  /** Distances that a backward reference may use. */
  ghost predicate InWindow(size: nat, lap: nat, h: seq<byte>, d: nat) {
    1 <= d <= |h| && (lap > 0 ==> d + WINDOW_GAP <= size)
  }

  /** (pos - d) & mask. */
  function SourceStart(size: nat, pos: nat, d: nat): nat
    requires d <= pos + size
  {
    if d <= pos then pos - d else pos + size - d
  }

  /** The ring holds the source bytes of a reference. */
  lemma SourceByte(b: seq<byte>, size: nat, lap: nat, pos: nat, h: seq<byte>, d: nat, j: nat)
    requires Holds(b, size, lap, pos, h) && InWindow(size, lap, h, d) && pos < size && j < d && d <= pos + size
    requires SourceStart(size, pos, d) + j < size
    ensures b[SourceStart(size, pos, d) + j] == h[|h| - d + j]
  {
    var i := SourceStart(size, pos, d) + j;
    assert d > pos ==> lap > 0;
  }

  /** Appending n bytes at pos; at most 16 further bytes may have been overwritten. */
  lemma Advance(b: seq<byte>, b': seq<byte>, size: nat, lap: nat, pos: nat, h: seq<byte>, h': seq<byte>, n: nat)
    requires Holds(b, size, lap, pos, h) && |h'| == |h| + n && h == h'[..|h|] && pos + n <= |b'|
    requires forall x :: pos <= x < pos + n ==> b'[x] == h'[lap + x]
    requires Framed(b', b, pos, pos + n + WINDOW_GAP)
    ensures Holds(b', size, lap, pos + n, h')
  {
    forall i | 0 <= i < pos + n
      ensures b'[i] == h'[lap + i]
    {
      if i < pos { assert b[i] == h[lap + i]; }
    }
  }

  lemma ExtendIsPrefixed(h: seq<byte>, d: nat, n: nat)
    requires 1 <= d <= |h|
    ensures Extend(h, d, n)[..|h|] == h
  {
    hide Extend;
    forall x | 0 <= x < |h| ensures Extend(h, d, n)[x] == h[x] { ExtendKeeps(h, d, n, x); }
  }

  /** A copy whose source lies wholly in the old history. */
  lemma DirectCopyHolds(b: seq<byte>, b': seq<byte>, size: nat, lap: nat, pos: nat, h: seq<byte>, d: nat, n: nat)
    requires Holds(b, size, lap, pos, h) && InWindow(size, lap, h, d) && pos < size && n <= d <= pos + size
    requires pos + n <= |b| && SourceStart(size, pos, d) + n <= size
             && CopiedTo(b', b, pos, SourceStart(size, pos, d), n)
    ensures Holds(b', size, lap, pos + n, Extend(h, d, n))
  {
    hide Extend, Holds;
    var g := Extend(h, d, n);
    var src := SourceStart(size, pos, d);
    HoldsLength(b, size, lap, pos, h);
    forall x | pos <= x < pos + n
      ensures b'[x] == g[lap + x]
    {
      SourceByte(b, size, lap, pos, h, d, x - pos);
      ExtendShort(h, d, n, x - pos);
    }
    ExtendIsPrefixed(h, d, n);
    Advance(b, b', size, lap, pos, h, g, n);
  }

  lemma HoldsLength(b: seq<byte>, size: nat, lap: nat, pos: nat, h: seq<byte>)
    requires Holds(b, size, lap, pos, h)
    ensures |h| == lap + pos && pos <= |b| && size <= |b| && (lap > 0 ==> lap >= size)
  {
  }

  /** A pattern copy: the source is the end of the current lap. */
  lemma PatternCopyHolds(b: seq<byte>, b': seq<byte>, size: nat, lap: nat, pos: nat, h: seq<byte>, d: nat, n: nat)
    requires Holds(b, size, lap, pos, h) && 1 <= d <= pos && pos + n <= |b| == |b'|
    requires b'[..pos + n] == Extend(b[..pos], d, n) && Framed(b', b, pos, pos + n + 15)
    ensures Holds(b', size, lap, pos + n, Extend(h, d, n))
  {
    hide Extend, Holds;
    HoldsLength(b, size, lap, pos, h);
    var g := Extend(h, d, n);
    HoldsLap(b, size, lap, pos, h);
    forall x | pos <= x < pos + n
      ensures b'[x] == g[lap + x]
    {
      ExtendSuffix(b[..pos], h, lap, d, n, x);
      assert b'[x] == b'[..pos + n][x];
    }
    ExtendIsPrefixed(h, d, n);
    Advance(b, b', size, lap, pos, h, g, n);
  }

  lemma HoldsLap(b: seq<byte>, size: nat, lap: nat, pos: nat, h: seq<byte>)
    requires Holds(b, size, lap, pos, h)
    ensures h[lap..] == b[..pos]
  {
  }

  /** Extending a history extends its last lap in the same way. */
  lemma {:induction false} ExtendSuffix(t: seq<byte>, h: seq<byte>, lap: nat, d: nat, n: nat, x: nat)
    requires 1 <= d <= |t| && |h| == lap + |t| && h[lap..] == t && x < |t| + n
    ensures Extend(t, d, n)[x] == Extend(h, d, n)[lap + x]
    decreases n
  {
    if n > 0 {
      assert h[|h| - d] == t[|t| - d] by { assert h[lap..][|t| - d] == h[|h| - d]; }
      var c := t[|t| - d];
      assert (h + [c])[lap..] == t + [c];
      ExtendSuffix(t + [c], h + [c], lap, d, n - 1, x);
    } else {
      assert h[lap..][x] == h[lap + x];
    }
  }

  /** Garbage in the 16 bytes at pos changes nothing that can be reached. */
  lemma EagerStoreHolds(b: seq<byte>, b': seq<byte>, size: nat, lap: nat, pos: nat, h: seq<byte>)
    requires Holds(b, size, lap, pos, h) && Framed(b', b, pos, pos + WINDOW_GAP)
    ensures Holds(b', size, lap, pos, h)
  {
  }

  /** Part of a copy that may wrap: it stops where either cursor reaches the end of the ring. */
  method CopyToEnd(buf: array<byte>, size: nat, pos: nat, d: nat, i: nat, ghost lap: nat, ghost h: seq<byte>)
    returns (n: nat)
    requires Holds(buf[..], size, lap, pos, h) && InWindow(size, lap, h, d) && pos < size && d <= pos + size && i > 0
    requires size + 15 <= buf.Length
    modifies buf
    ensures 1 <= n <= i && pos + n <= size && Holds(buf[..], size, lap, pos + n, Extend(h, d, n))
  {
    hide Holds, Extend, Framed, CopiedTo;
    ghost var b := buf[..];
    var src := SourceStart(size, pos, d);
    n := Min(i, Min(size - pos, size - src));
    if src < pos {
      HoldsLength(b, size, lap, pos, h);
      if pos - src >= n {
        Move(buf, pos, src, n);
        MoveIsCopy(buf[..], b, pos, src, n);
        DirectCopyHolds(b, buf[..], size, lap, pos, h, d, n);
      } else {
        CopyOverlappingPattern(buf, pos, pos - src, n);
        assert b[..pos] == old(buf[..pos]);
        PatternCopyHolds(b, buf[..], size, lap, pos, h, d, n);
      }
    } else {
      n := 1;
      buf[pos] := buf[src];
      ByteIsCopy(buf[..], b, pos, src);
      DirectCopyHolds(b, buf[..], size, lap, pos, h, d, n);
    }
  }

  // ---------- Sizes ----------


  ghost predicate IsSize(n: nat) { exists k: nat :: 10 <= k <= 24 && n == Pow2(k) }

  lemma SizeAtLeast(n: nat)
    requires IsSize(n)
    ensures n >= 1024
  {
    var k: nat :| 10 <= k <= 24 && n == Pow2(k);
    Pow2Monotone(10, k);
    assert Pow2(5) == 32 && Pow2(10) == 1024 by { assert Pow2(5) == 32; Pow2Add(5, 5); }
  }

  lemma SizesDouble(a: nat, b: nat)
    requires IsSize(a) && IsSize(b) && a < b
    ensures 2 * a <= b && IsSize(2 * a) && (IsSize(b / 2) && b % 2 == 0)
  {
    var k: nat :| 10 <= k <= 24 && a == Pow2(k);
    var l: nat :| 10 <= l <= 24 && b == Pow2(l);
    if l <= k { Pow2Monotone(l, k); }
    Pow2Monotone(k + 1, l);
    assert 2 * a == Pow2(k + 1);
    assert b / 2 == Pow2(l - 1);
  }

  lemma SizeOf(k: nat)
    requires 10 <= k <= 24
    ensures IsSize(Pow2(k))
  {
  }

  /** The halved window is a size as long as it is at least 1024. */
  lemma SizeHalves(n: nat)
    requires IsSize(n) && n / 2 >= 1024
    ensures IsSize(n / 2)
  {
    SizeOf(10);
    assert Pow2(10) == 1024 by { assert Pow2(5) == 32; Pow2Add(5, 5); }
    SizesDouble(1024, n);
  }

  // ---------- The decoder's ring ----------

  datatype Reference = InHistory(rest: nat) | OutsideWindow

  class Ring {
    const window: nat
    var buf: array<byte>
    var size: nat            // 0 until the first block needs the ring
    var newSize: nat         // size wanted by the current meta-block
    var pos: nat
    var roundtrips: nat
    var partialPosOut: nat
    var maxDistance: nat
    ghost var lap: nat               // roundtrips * size
    ghost var history: seq<byte>     // everything decoded so far
    var out: seq<byte>               // everything handed out so far

    ghost predicate Valid() reads this, buf {
      && IsSize(window) && (size == 0 || IsSize(size)) && size <= window
      && (newSize == 0 || IsSize(newSize)) && size <= newSize <= window
      && buf.Length == size + SLACK && pos < size + SLACK
      && (size == 0 ==> pos == 0) && lap == Times(roundtrips, size) && (size < window ==> roundtrips == 0 && lap == 0)
      && Holds(buf[..], size, lap, pos, history)
      && maxDistance <= |history| && maxDistance + WINDOW_GAP <= window
         && (lap > 0 ==> maxDistance + WINDOW_GAP == window)
      && lap <= partialPosOut <= |history| && partialPosOut <= lap + size && out == history[..partialPosOut]
    }

    /** The next byte can be written inside the ring. */
    ghost predicate Ready() reads this, buf { Valid() && pos < size }

    constructor (windowBits: nat)
      requires 10 <= windowBits <= 24
      ensures Valid() && fresh(buf) && history == [] && out == [] && window == Pow2(windowBits) && size == 0
    {
      window := Pow2(windowBits);
      buf := new byte[SLACK](_ => 0);
      size, newSize, pos, roundtrips, partialPosOut, maxDistance := 0, 0, 0, 0, 0, 0;
      lap, history, out := 0, [], [];
      new;
      SizeOf(windowBits);
      SizeAtLeast(window);
    }

    /** The ring size for a meta-block of mlen bytes: a power of two that holds what is there and what
        comes, unless the window is smaller. */
    method CalculateRingBufferSize(mlen: nat)
      requires Valid()
      modifies this
      ensures Valid() && buf == old(buf) && pos == old(pos) && size == old(size) && history == old(history)
              && out == old(out)
      ensures partialPosOut == old(partialPosOut)
      ensures IsSize(newSize) && (newSize == window || pos + mlen <= newSize)
      ensures size != window ==> newSize / 2 < Max(if size == 0 then 1024 else size, pos + mlen)
    {
      hide IsSize, Holds;
      if size == window {
        newSize := window;
        return;
      }
      var outputSize := pos + mlen;
      var minSize := if size == 0 then 1024 else size;
      if minSize < outputSize { minSize := outputSize; }
      if size > 0 { SizeAtLeast(size); }
      var n: nat := window;
      while n / 2 >= minSize
        modifies {}
        invariant IsSize(n) && n <= window && (n == window || n >= minSize)
        decreases n
      {
        SizeHalves(n);
        n := n / 2;
      }
      newSize := n;
    }

    /** Allocates or grows the ring to the wanted size; the two bytes cleared at its end are not in use. */
    method EnsureRingBuffer()
      requires Valid() && IsSize(newSize)
      modifies this
      ensures Valid() && size == old(newSize) == newSize && (buf == old(buf) || fresh(buf))
      ensures pos == old(pos) && history == old(history) && out == old(out) && partialPosOut == old(partialPosOut)
      ensures old(size) != 0 && old(size) == old(newSize) ==> buf == old(buf)
      ensures maxDistance == old(maxDistance) && old(size) <= size
    {
      hide IsSize;
      if size == newSize { return; }
      SizeAtLeast(newSize);
      if size > 0 { SizesDouble(size, newSize); SizeAtLeast(size); }
      Regrow(newSize, true);
    }

    /** Moves the current lap into a larger buffer. */
    method Regrow(n: nat, clearEnd: bool)
      requires Valid() && IsSize(n) && size < n <= window && newSize <= n
               && (if clearEnd then pos + 2 <= n else pos < n)
      modifies this
      ensures Valid() && size == newSize == n && fresh(buf)
      ensures pos == old(pos) && history == old(history) && out == old(out) && partialPosOut == old(partialPosOut)
              && maxDistance == old(maxDistance)
    {
      hide IsSize;
      assert n >= 2 by { SizeAtLeast(n); }
      var b := new byte[n + SLACK](_ => 0);
      forall i | 0 <= i < pos { b[i] := buf[i]; }
      if clearEnd {
        b[n - 2] := 0;
        b[n - 1] := 0;
      }
      buf := b;
      size, newSize := n, n;
    }

    /** Grows, or flushes and wraps, when the ring is full; the history is unchanged and the output
        remains a prefix of it. */
    method WriteRingBuffer()
      requires Valid() && IsSize(newSize)
      modifies this, buf
      ensures Ready() && history == old(history) && (buf == old(buf) || fresh(buf))
      ensures IsSize(newSize) && maxDistance >= old(maxDistance)
      ensures old(out) <= out
    {
      hide IsSize, Holds;
      SizeAtLeast(newSize);
      if size > 0 { SizeAtLeast(size); }
      if pos >= size {
        if size < window {
          if size > 0 { SizesDouble(size, window); }
          EnsureRingBuffer();
          SizeAtLeast(size);
          var n: nat := size;
          while n <= pos
            modifies {}
            invariant IsSize(n) && size <= n <= window && (n == size || n == 2 * size)
            decreases window - n
          {
            SizesDouble(n, window);
            n := Min(2 * n, window);
          }
          if n != size { Regrow(n, false); }
          return;
        }
        Wrap();
      }
    }

    /** Hands out the rest of the lap and starts the next one with the bytes behind the ring's end. */
    method Wrap()
      requires Valid() && IsSize(size) && size == window && size <= pos
      modifies this, buf
      ensures Ready() && buf == old(buf) && history == old(history) && pos == old(pos) - size && size == old(size)
              && newSize == size
      ensures out == history[..old(lap) + size] && old(out) <= out && maxDistance == window - WINDOW_GAP
    {
      hide IsSize, Holds, Times, Copied;
      FlushLap();
      SizeAtLeast(size);
      ghost var b := buf[..];
      HoldsLength(b, size, lap, pos, history);
      TimesStep(roundtrips + 1, size);
      Move(buf, 0, size, pos - size);
      WrapHolds(b, buf[..], size, lap, pos, history);
      pos, roundtrips, lap, maxDistance := pos - size, roundtrips + 1, lap + size, window - WINDOW_GAP;
    }

    /** Hands out the rest of the lap. */
    method FlushLap()
      requires Valid() && size > 0 && size <= pos
      modifies this`out, this`partialPosOut
      ensures Valid() && partialPosOut == lap + size && out == history[..lap + size] && old(out) <= out
    {
      hide IsSize, Holds, Times;
      HoldsLength(buf[..], size, lap, pos, history);
      Unflushed(buf[..], size, lap, pos, history, partialPosOut);
      SliceSplit(history, partialPosOut, lap + size);
      var flushed := partialPosOut - Times(roundtrips, size);
      out, partialPosOut := out + buf[flushed..size], Times(roundtrips, size) + size;
    }

    /** What the caller may take: the part of the lap not yet handed out, inside the ring. */
    method PendingOutput() returns (r: seq<byte>)
      requires Valid()
      ensures partialPosOut + |r| == Max(partialPosOut, Min(|history|, lap + size)) <= |history|
      ensures r == history[partialPosOut..partialPosOut + |r|]
    {
      hide IsSize, Holds, Times;
      HoldsLength(buf[..], size, lap, pos, history);
      var p := Min(pos, size);
      var flushed := partialPosOut - Times(roundtrips, size);
      if p <= flushed { return []; }
      HoldsSlice(buf[..], size, lap, pos, history, flushed, p);
      r := buf[flushed..p];
    }

    /** Taking n of the pending bytes. */
    method ConsumeOutput(n: nat)
      requires Valid() && partialPosOut + n <= Max(partialPosOut, Min(|history|, lap + size))
      modifies this`partialPosOut, this`out
      ensures Valid() && partialPosOut == old(partialPosOut) + n
              && out == old(out) + history[old(partialPosOut)..partialPosOut]
    {
      hide IsSize, Holds, Times;
      HoldsLength(buf[..], size, lap, pos, history);
      SliceSplit(history, partialPosOut, partialPosOut + n);
      var flushed := partialPosOut - Times(roundtrips, size);
      if n > 0 {
        HoldsSlice(buf[..], size, lap, pos, history, flushed, flushed + n);
        out := out + buf[flushed..flushed + n];
      }
      partialPosOut := partialPosOut + n;
    }

    /** Appends a literal. */
    method WriteLiteral(c: byte)
      requires Ready()
      modifies this`pos, this`history, buf
      ensures Valid() && pos == old(pos) + 1 <= size && history == old(history) + [c] && out == old(out)
    {
      hide IsSize, Holds, Times;
      ghost var b := buf[..];
      HoldsLength(b, size, lap, pos, history);
      buf[pos] := c;
      Advance(b, buf[..], size, lap, pos, history, history + [c], 1);
      SlicePrefix(history, history + [c], partialPosOut);
      pos, history := pos + 1, history + [c];
    }

    /** Appends a dictionary word, which may run into the slack behind the ring. */
    method AppendWord(word: seq<byte>)
      requires Ready() && |word| < SLACK
      modifies this`pos, this`history, buf
      ensures Valid() && pos == old(pos) + |word| && history == old(history) + word && out == old(out)
    {
      hide IsSize, Holds, Times;
      ghost var b := buf[..];
      HoldsLength(b, size, lap, pos, history);
      var p := pos;
      forall i | p <= i < p + |word| { buf[i] := word[i - p]; }
      Advance(b, buf[..], size, lap, pos, history, history + word, |word|);
      SlicePrefix(history, history + word, partialPosOut);
      pos, history := pos + |word|, history + word;
    }

    /** One chunk of a copy that may wrap. */
    method WrapCopyStep(d: nat, i: nat) returns (n: nat)
      requires Ready() && 1 <= d <= maxDistance && i > 0
      modifies this`pos, this`history, buf
      ensures Valid() && 1 <= n <= i && pos == old(pos) + n <= size && history == Extend(old(history), d, n)
              && out == old(out)
    {
      hide IsSize, Holds, Times, Extend;
      HoldsLength(buf[..], size, lap, pos, history);
      n := CopyToEnd(buf, size, pos, d, i, lap, history);
      ExtendIsPrefixed(history, d, n);
      SlicePrefix(history, Extend(history, d, n), partialPosOut);
      pos, history := pos + n, Extend(history, d, n);
    }

    /** The copy loop that suspends when the ring is full; rest bytes remain to be copied. */
    method WrapCopy(d: nat, length: nat) returns (rest: nat)
      requires Ready() && 1 <= d <= maxDistance
      modifies this`pos, this`history, buf
      ensures Valid() && rest <= length && history == Extend(old(history), d, length - rest) && out == old(out)
      ensures pos == old(pos) + length - rest <= size && (rest > 0 ==> pos == size)
    {
      hide Extend;
      rest := length;
      ghost var h := history;
      ExtendNone(h, d);
      while rest > 0
        invariant Valid() && pos == old(pos) + length - rest <= size && (rest > 0 ==> pos < size) && rest <= length
                  && out == old(out)
        invariant history == Extend(h, d, length - rest)
      {
        hide Valid;
        var n := WrapCopyStep(d, rest);
        ExtendSplit(h, d, length - rest, n);
        rest := rest - n;
        if pos == size { return; }
      }
    }

    /** A copy inside one lap whose source the output does not meet; the first 16 bytes are stored
        already, over what the buffer held before. */
    method CopyApart(d: nat, length: nat, ghost before: seq<byte>)
      requires Ready() && 1 <= d <= maxDistance && Holds(before, size, lap, pos, history)
      requires pos + length < size && SourceStart(size, pos, d) + length < size
      requires Apart(pos, SourceStart(size, pos, d), length)
               && Copied(buf[..], before, pos, SourceStart(size, pos, d), 16)
      modifies this`pos, this`history, buf
      ensures Valid() && pos == old(pos) + length < size && history == Extend(old(history), d, length)
              && out == old(out)
    {
      hide IsSize, Holds, Times, Extend, CopiedTo, PartCopied;
      var src := SourceStart(size, pos, d);
      HoldsLength(before, size, lap, pos, history);
      FirstChunk(buf[..], before, pos, src, length);
      CopyChunks(buf, pos, src, length, before);
      assert InWindow(size, lap, history, d);
      DirectCopyHolds(before, buf[..], size, lap, pos, history, d, length);
      ExtendIsPrefixed(history, d, length);
      SlicePrefix(history, Extend(history, d, length), partialPosOut);
      pos, history := pos + length, Extend(history, d, length);
    }

    /** A copy inside one lap that repeats its own output. */
    method CopyRepeating(d: nat, length: nat)
      requires Ready() && 1 <= d <= pos && pos + length < size
      modifies this`pos, this`history, buf
      ensures Valid() && pos == old(pos) + length < size && history == Extend(old(history), d, length)
              && out == old(out)
    {
      hide IsSize, Holds, Times, Extend, Framed;
      ghost var b := buf[..];
      HoldsLength(b, size, lap, pos, history);
      CopyOverlappingPattern(buf, pos, d, length);
      assert b[..pos] == old(buf[..pos]);
      PatternCopyHolds(b, buf[..], size, lap, pos, history, d, length);
      ExtendIsPrefixed(history, d, length);
      SlicePrefix(history, Extend(history, d, length), partialPosOut);
      pos, history := pos + length, Extend(history, d, length);
    }

    /** The largest distance into the history grows with the output up to the window less the gap. */
    method UpdateMaxDistance()
      requires Valid() && pos <= size
      modifies this`maxDistance
      ensures Valid() && maxDistance == Min(|history|, window - WINDOW_GAP)
    {
      hide IsSize, Holds, Times;
      SizeAtLeast(window);
      HoldsLength(buf[..], size, lap, pos, history);
      if maxDistance != window - WINDOW_GAP { maxDistance := Min(pos, window - WINDOW_GAP); }
    }

    /** A backward reference, up to the point where the ring is full. */
    method BackwardReference(d: nat, length: nat) returns (r: Reference)
      requires Ready() && d >= 1
      modifies this`pos, this`history, this`maxDistance, buf
      ensures Valid() && out == old(out) && pos <= size && maxDistance == Min(|old(history)|, window - WINDOW_GAP)
      ensures r.OutsideWindow? <==> d > maxDistance
      ensures r.OutsideWindow? ==> history == old(history) && buf[..] == old(buf[..]) && pos == old(pos)
      ensures r.InHistory? ==>
              r.rest <= length && history == Extend(old(history), d, length - r.rest) && (r.rest > 0 ==> pos == size)
    {
      hide IsSize, Holds, Times, Extend, Copied;
      UpdateMaxDistance();
      if d > maxDistance { return OutsideWindow; }
      ghost var b := buf[..];
      HoldsLength(b, size, lap, pos, history);
      var src := SourceStart(size, pos, d);
      Copy16(buf, pos, src);
      CopyIsFramed(buf[..], b, pos, src, 16);
      EagerStoreHolds(b, buf[..], size, lap, pos, history);
      if pos + length < size && src + length < size {
        if !(src + length > pos && pos + length > src) {
          CopyApart(d, length, b);
          return InHistory(0);
        }
        if src < pos {
          CopyRepeating(d, length);
          return InHistory(0);
        }
      }
      var rest := WrapCopy(d, length);
      r := InHistory(rest);
    }

    /** Sizes the ring for a block. A new ring has no buffer yet. */
    method Begin(mlen: nat)
      requires Valid() && (size == 0 || pos < size)
      modifies this
      ensures Ready() && IsSize(newSize) && (buf == old(buf) || fresh(buf))
      ensures history == old(history) && out == old(out) && partialPosOut == old(partialPosOut)
    {
      hide IsSize, Holds, Times;
      CalculateRingBufferSize(mlen);
      SizeAtLeast(newSize);
      EnsureRingBuffer();
    }

    lemma OutIsPrefix()
      requires Valid()
      ensures out <= history && |out| == partialPosOut
    {
    }

    lemma WindowSize()
      requires Valid()
      ensures window >= 1024
    {
      hide Holds;
      SizeAtLeast(window);
    }
  }

  lemma CopyIsFramed(b: seq<byte>, a: seq<byte>, pos: nat, src: nat, n: nat)
    requires Copied(b, a, pos, src, n)
    ensures Framed(b, a, pos, pos + n)
  {
  }

  lemma FirstChunk(b: seq<byte>, a: seq<byte>, pos: nat, src: nat, n: nat)
    requires Copied(b, a, pos, src, 16) && pos + n <= |a| && src + n <= |a|
    ensures PartCopied(b, a, pos, src, n, 16)
  {
  }

  lemma SlicePrefix(h: seq<byte>, g: seq<byte>, n: nat)
    requires n <= |h| <= |g| && g[..|h|] == h
    ensures g[..n] == h[..n]
  {
    assert g[..|h|][..n] == g[..n];
  }

  lemma HoldsSlice(b: seq<byte>, size: nat, lap: nat, pos: nat, h: seq<byte>, i: nat, j: nat)
    requires Holds(b, size, lap, pos, h) && i <= j <= pos
    ensures b[i..j] == h[lap + i..lap + j]
  {
  }

  lemma MoveIsCopy(b: seq<byte>, a: seq<byte>, pos: nat, src: nat, n: nat)
    requires Copied(b, a, pos, src, n)
    ensures CopiedTo(b, a, pos, src, n)
  {
  }

  lemma ByteIsCopy(b: seq<byte>, a: seq<byte>, pos: nat, src: nat)
    requires pos < |a| && src < |a| && b == a[pos := a[src]]
    ensures CopiedTo(b, a, pos, src, 1)
  {
  }

  lemma ExtendNone(h: seq<byte>, d: nat)
    requires 1 <= d <= |h|
    ensures Extend(h, d, 0) == h
  {
  }

  lemma SliceSplit(h: seq<byte>, i: nat, j: nat)
    requires i <= j <= |h|
    ensures h[..i] + h[i..j] == h[..j]
  {
  }

  /** The bytes of the lap that have not been handed out. */
  lemma Unflushed(b: seq<byte>, size: nat, lap: nat, pos: nat, h: seq<byte>, done: nat)
    requires Holds(b, size, lap, pos, h) && size <= pos && lap <= done <= |h|
    ensures done - lap <= size ==> b[done - lap..size] == h[done..lap + size]
  {
  }

  /** The next lap: what was written behind the end moves to the front, the rest is the previous lap. */
  lemma WrapHolds(b: seq<byte>, b': seq<byte>, size: nat, lap: nat, pos: nat, h: seq<byte>)
    requires Holds(b, size, lap, pos, h) && 0 < size <= pos < 2 * size && |b| == |b'|
    requires Copied(b', b, 0, size, pos - size)
    ensures Holds(b', size, lap + size, pos - size, h)
  {
  }
}
