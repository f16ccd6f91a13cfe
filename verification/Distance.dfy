/** Distances: their prefix codes with postfix bits and direct codes, the decoder's table for them, and
    the short codes, which the encoder's cache and the decoder's rotating ring must agree on. */
module Distance {
  import opened Arithmetic
  import opened Bits

  const SHORT_CODES := 16
  const MAX_DISTANCE_BITS := 24

  // ---------- Prefix codes ----------

  /** NPOSTFIX and NDIRECT, as section 9.2 of RFC 7932 allows them. */
  datatype Params = Params(postfixBits: nat, numDirectCodes: nat)
  {
    predicate Valid() { postfixBits <= 3 && numDirectCodes <= 15 * Pow2(postfixBits) }

    /** The largest distance that has a code. */
    function MaxDistance(): int { numDirectCodes + Pow2(MAX_DISTANCE_BITS + postfixBits + 2) - Pow2(postfixBits + 2) }

    function AlphabetSize(): nat { SHORT_CODES + numDirectCodes + 2 * MAX_DISTANCE_BITS * Pow2(postfixBits) }
  }

  /** A distance symbol, the number of its extra bits, and their value. */
  datatype Prefix = Prefix(symbol: nat, nbits: nat, extra: nat)

  /** The position of the second highest digit. */
  function Bucket(dist: nat): nat
    requires dist >= 2
  {
    TopTwo(dist);
    Len(dist) - 2
  }

  /** The number with all digits cleared except the two highest. */
  function Offset(dist: nat): (o: nat)
    requires dist >= 2
    ensures o <= dist
  {
    OffsetBelow(dist);
    Times(2 + High(dist, Len(dist) - 2) % 2, Pow2(Len(dist) - 2))
  }

  /** A distance code is a short code, or the distance plus 15. */
  function PrefixEncode(code: nat, p: Params): Prefix {
    if code < SHORT_CODES + p.numDirectCodes then Prefix(code, 0, 0)
    else LongEncode(Pow2(p.postfixBits + 2) + (code - SHORT_CODES - p.numDirectCodes), p)
  }

  function LongEncode(dist: nat, p: Params): Prefix
    requires dist >= Pow2(p.postfixBits + 2)
  {
    DistLong(dist, p.postfixBits);
    var bucket := Bucket(dist);
    var prefix := High(dist, bucket) % 2;
    var nbits := bucket - p.postfixBits;
    Prefix(SHORT_CODES + p.numDirectCodes + Times(2 * (nbits - 1) + prefix, Pow2(p.postfixBits))
      + Low(dist, p.postfixBits),
           nbits, High(dist - Offset(dist), p.postfixBits))
  }

  /** The bucket is wider than the postfix. */
  lemma DistLong(dist: nat, np: nat)
    requires dist >= Pow2(np + 2)
    ensures dist >= 2 && Len(dist) >= np + 3
  {
    hide Len;
    Pow2Monotone(1, np + 2);
    assert Pow2(1) == 2 * Pow2(0);
    LenBounds(dist);
    if Len(dist) < np + 3 { Pow2Monotone(Len(dist), np + 2); }
  }

  lemma OffsetBelow(dist: nat)
    requires dist >= 2
    ensures Len(dist) >= 2 && Times(2 + High(dist, Len(dist) - 2) % 2, Pow2(Len(dist) - 2)) <= dist
    ensures dist - Times(2 + High(dist, Len(dist) - 2) % 2, Pow2(Len(dist) - 2)) == Low(dist, Len(dist) - 2)
  {
    hide Len, High, Low, Pow2;
    TopTwo(dist);
    var h := High(dist, Len(dist) - 2);
    assert 2 + h % 2 == h;
  }

  /** Back from a prefix to the distance code. */
  function DistanceCode(x: Prefix, p: Params): int {
    if x.symbol < SHORT_CODES + p.numDirectCodes then x.symbol
    else
      var c := x.symbol - p.numDirectCodes - SHORT_CODES;
      var hcode, lcode := High(c, p.postfixBits), Low(c, p.postfixBits);
      var offset := (2 + hcode % 2) * Pow2(x.nbits) - 4;
      (offset + x.extra) * Pow2(p.postfixBits) + lcode + p.numDirectCodes + SHORT_CODES
  }

  /** Section 4 of RFC 7932: the number of extra bits of a symbol, and the least distance it stands for. */
  function SymbolBits(symbol: nat, p: Params): nat
    requires symbol >= SHORT_CODES
  {
    if symbol < SHORT_CODES + p.numDirectCodes then 0
    else 1 + High(symbol - p.numDirectCodes - SHORT_CODES, p.postfixBits) / 2
  }

  function SymbolOffset(symbol: nat, p: Params): int
    requires symbol >= SHORT_CODES
  {
    if symbol < SHORT_CODES + p.numDirectCodes then symbol - SHORT_CODES + 1
    else
      var c := symbol - p.numDirectCodes - SHORT_CODES;
      var hcode, lcode := High(c, p.postfixBits), Low(c, p.postfixBits);
      ((2 + hcode % 2) * Pow2(1 + hcode / 2) - 4) * Pow2(p.postfixBits) + lcode + p.numDirectCodes + 1
  }

  /** What the decoder makes of a symbol and its extra bits. */
  function DecodedDistance(x: Prefix, p: Params): int
    requires x.symbol >= SHORT_CODES
  {
    SymbolOffset(x.symbol, p) + x.extra * Pow2(p.postfixBits)
  }

  /** The parts of a long code: two top digits, extra bits, postfix. */
  lemma LongParts(code: nat, p: Params) returns (dist: nat, n: nat, h: nat, extra: nat, postfix: nat)
    requires code >= SHORT_CODES + p.numDirectCodes
    ensures dist == Pow2(p.postfixBits + 2) + (code - SHORT_CODES - p.numDirectCodes)
    ensures n >= 1 && 2 <= h <= 3 && extra < Pow2(n) && postfix < Pow2(p.postfixBits)
            && n == Len(dist) - 2 - p.postfixBits
    ensures dist == (h * Pow2(n) + extra) * Pow2(p.postfixBits) + postfix
    ensures var c := Times(2 * (n - 1) + h - 2, Pow2(p.postfixBits)) + postfix;
            && PrefixEncode(code, p) == Prefix(SHORT_CODES + p.numDirectCodes + c, n, extra)
            && High(c, p.postfixBits) == 2 * (n - 1) + h - 2 && Low(c, p.postfixBits) == postfix
  {
    hide Len, High, Low, Pow2;
    var np := p.postfixBits;
    dist := Pow2(np + 2) + (code - SHORT_CODES - p.numDirectCodes);
    DistLong(dist, np);
    TopTwo(dist);
    var bucket := Len(dist) - 2;
    h, n := High(dist, bucket), bucket - np;
    var low := Low(dist, bucket);
    OffsetBelow(dist);
    HighLow(low, np);
    extra, postfix := High(low, np), Low(low, np);
    assert n + np == bucket;
    Pow2Add(n, np);
    Regroup(h, Pow2(n), Pow2(np), extra, postfix);
    SplitSum(np, h * Pow2(n) + extra, postfix);
    ExtraBound(extra, postfix, Pow2(n), Pow2(np));
    SplitSum(np, 2 * (n - 1) + h - 2, postfix);
  }

  lemma Regroup(h: nat, a: nat, b: nat, extra: nat, postfix: nat)
    ensures h * (a * b) + (extra * b + postfix) == (h * a + extra) * b + postfix
  {
    SumTimes(h * a, extra, b);
    assert h * (a * b) == (h * a) * b;
  }

  lemma ExtraBound(extra: nat, postfix: nat, a: nat, b: nat)
    requires extra * b + postfix < a * b
    ensures extra < a
  {
    if extra >= a { LessTimes(a, extra, b); }
  }

  /** The encoder's inverse gives the code back. */
  lemma DistanceCodeInverts(code: nat, p: Params)
    ensures DistanceCode(PrefixEncode(code, p), p) == code
  {
    hide Len, High, Low, Pow2, PrefixEncode;
    if code < SHORT_CODES + p.numDirectCodes {
      ShortEncode(code, p);
    } else {
      var dist, n, h, extra, postfix := LongParts(code, p);
      LongCode(PrefixEncode(code, p), p, n, h, extra, postfix);
      Subtract4(h * Pow2(n) + extra, Pow2(p.postfixBits));
      Pow2Add(p.postfixBits, 2);
      FourIs();
    }
  }

  /** The code of a prefix in its parts. */
  lemma LongCode(x: Prefix, p: Params, n: nat, h: nat, extra: nat, postfix: nat)
    requires n >= 1 && 2 <= h <= 3 && x.symbol >= SHORT_CODES + p.numDirectCodes && x.nbits == n && x.extra == extra
    requires var c := x.symbol - SHORT_CODES - p.numDirectCodes;
             High(c, p.postfixBits) == 2 * (n - 1) + h - 2 && Low(c, p.postfixBits) == postfix
    ensures DistanceCode(x, p) ==
            (h * Pow2(n) + extra - 4) * Pow2(p.postfixBits) + postfix + p.numDirectCodes + SHORT_CODES
  {
    hide High, Low, Pow2;
    Halves(n, h);
  }

  lemma FourIs()
    ensures Pow2(2) == 4
  {
  }

  lemma ShortEncode(code: nat, p: Params)
    requires code < SHORT_CODES + p.numDirectCodes
    ensures PrefixEncode(code, p) == Prefix(code, 0, 0)
  {
  }

  lemma Subtract4(x: int, b: nat)
    ensures (x - 4) * b == x * b - b * 4
  {
  }

  /** The decoder's table gives the distance back, and the extra bits fit the width it expects. */
  lemma PrefixRoundTrip(distance: nat, p: Params)
    requires distance >= 1
    ensures var x := PrefixEncode(distance + SHORT_CODES - 1, p);
            && x.symbol >= SHORT_CODES && DecodedDistance(x, p) == distance
            && x.nbits == SymbolBits(x.symbol, p) && x.extra < Pow2(x.nbits)
  {
    hide Len, High, Low, Pow2, PrefixEncode, SymbolBits, SymbolOffset;
    var code := distance + SHORT_CODES - 1;
    if code < SHORT_CODES + p.numDirectCodes {
      ShortEncode(code, p);
      DirectSymbol(code, p);
      OneIs();
    } else {
      var dist, n, h, extra, postfix := LongParts(code, p);
      Halves(n, h);
      GroupSymbol(2 * (n - 1) + h - 2, postfix, p);
      LongDistance(h * Pow2(n), extra, Pow2(p.postfixBits));
      Pow2Add(p.postfixBits, 2);
      FourIs();
    }
  }

  lemma Halves(n: nat, h: nat)
    requires n >= 1 && 2 <= h <= 3
    ensures (2 * (n - 1) + h - 2) / 2 == n - 1 && (2 * (n - 1) + h - 2) % 2 == h - 2
  {
  }

  lemma LongDistance(x: nat, extra: nat, b: nat)
    ensures (x - 4) * b + extra * b == (x + extra) * b - b * 4
  {
    SumTimes(x - 4, extra, b);
    Subtract4(x + extra, b);
  }

  lemma OneIs()
    ensures Pow2(0) == 1
  {
  }

  /** A distance has a symbol of the alphabet exactly when it is at most the largest distance. */
  lemma InAlphabet(distance: nat, p: Params)
    requires distance >= 1 && p.Valid()
    ensures PrefixEncode(distance + SHORT_CODES - 1, p).symbol < p.AlphabetSize() <==> distance <= p.MaxDistance()
  {
    hide Len, High, Low, Pow2, PrefixEncode;
    var code, np := distance + SHORT_CODES - 1, p.postfixBits;
    MaxIsLarge(np);
    if code < SHORT_CODES + p.numDirectCodes {
      ShortEncode(code, p);
    } else {
      var dist, n, h, extra, postfix := LongParts(code, p);
      GroupOrder(2 * (n - 1) + h - 2, 2 * MAX_DISTANCE_BITS, Pow2(np), postfix);
      LenAtMost(dist, MAX_DISTANCE_BITS + np + 2);
      assert Len(dist) == n + 2 + np;
    }
  }

  lemma MaxIsLarge(np: nat)
    ensures Pow2(MAX_DISTANCE_BITS + np + 2) >= Pow2(np + 2) && Pow2(np) > 0
  {
    Pow2Monotone(np + 2, MAX_DISTANCE_BITS + np + 2);
  }

  lemma GroupOrder(g: nat, k: nat, b: nat, r: nat)
    requires r < b
    ensures g * b + r < k * b <==> g < k
  {
    if g < k { LessTimes(g + 1, k, b); SumTimes(g, 1, b); } else { LessTimes(k, g, b); }
  }

  lemma LenAtMost(x: nat, k: nat)
    requires x >= 1
    ensures Len(x) <= k <==> x < Pow2(k)
  {
    hide Len, Pow2;
    LenBounds(x);
    if Len(x) <= k { Pow2Monotone(Len(x), k); } else { Pow2Monotone(k, Len(x) - 1); }
  }

  /** The decoder's table: direct codes first, then groups of one code for each postfix, two groups for
      each number of extra bits. */
  method CalculateDistanceLut(p: Params, distExtraBits: array<nat>, distOffset: array<int>)
    requires p.Valid() && distExtraBits.Length >= p.AlphabetSize() && distOffset.Length >= p.AlphabetSize()
             && distExtraBits as object != distOffset
    modifies distExtraBits, distOffset
    ensures TableUpTo(distExtraBits[..], distOffset[..], p, p.AlphabetSize())
  {
    hide SymbolBits, SymbolOffset, Pow2;
    var np, nd := p.postfixBits, p.numDirectCodes;
    var i := SHORT_CODES;
    for j := 0 to nd
      invariant i == SHORT_CODES + j && TableUpTo(distExtraBits[..], distOffset[..], p, i)
    {
      DirectSymbol(i, p);
      distExtraBits[i] := 0;
      distOffset[i] := j + 1;
      i := i + 1;
    }
    var bits, half := 1, 0;
    ghost var g := 0;
    while i < p.AlphabetSize()
      invariant i == SHORT_CODES + nd + g * Pow2(np) <= p.AlphabetSize() && bits == 1 + g / 2 && half == g % 2
      invariant TableUpTo(distExtraBits[..], distOffset[..], p, i)
      decreases p.AlphabetSize() - i
    {
      hide TableUpTo;
      var base := nd + ((2 + half) * Pow2(bits) - 4) * Pow2(np) + 1;
      GroupInside(g, Pow2(np), p);
      SumTimes(g, 1, Pow2(np));
      FillGroup(p, distExtraBits, distOffset, i, g, bits, base);
      i := i + Pow2(np);
      bits := bits + half;
      half := 1 - half;
      g := g + 1;
    }
  }

  /** The first n symbols are right. */
  ghost predicate TableUpTo(extraBits: seq<nat>, offset: seq<int>, p: Params, n: nat) {
    && n <= |extraBits| && n <= |offset|
    && forall k :: SHORT_CODES <= k < n ==> extraBits[k] == SymbolBits(k, p) && offset[k] == SymbolOffset(k, p)
  }

  /** One group, a code for each postfix. */
  method FillGroup(p: Params, distExtraBits: array<nat>, distOffset: array<int>, i: nat, ghost g: nat, bits: nat,
                   base: int)
    requires distExtraBits as object != distOffset && i == SHORT_CODES + p.numDirectCodes + g * Pow2(p.postfixBits)
    requires i + Pow2(p.postfixBits) <= distExtraBits.Length && i + Pow2(p.postfixBits) <= distOffset.Length
    requires bits == 1 + g / 2 && base == p.numDirectCodes + ((2 + g % 2) * Pow2(bits) - 4) * Pow2(p.postfixBits) + 1
    requires TableUpTo(distExtraBits[..], distOffset[..], p, i)
    modifies distExtraBits, distOffset
    ensures TableUpTo(distExtraBits[..], distOffset[..], p, i + Pow2(p.postfixBits))
  {
    hide SymbolBits, SymbolOffset, Pow2;
    for j := 0 to Pow2(p.postfixBits)
      invariant TableUpTo(distExtraBits[..], distOffset[..], p, i + j)
    {
      GroupSymbol(g, j, p);
      distExtraBits[i + j] := bits;
      distOffset[i + j] := base + j;
    }
  }

  lemma DirectSymbol(i: nat, p: Params)
    requires SHORT_CODES <= i < SHORT_CODES + p.numDirectCodes
    ensures SymbolBits(i, p) == 0 && SymbolOffset(i, p) == i - SHORT_CODES + 1
  {
  }

  lemma GroupInside(g: nat, b: nat, p: Params)
    requires b == Pow2(p.postfixBits) && SHORT_CODES + p.numDirectCodes + g * b < p.AlphabetSize()
    ensures SHORT_CODES + p.numDirectCodes + g * b + b <= p.AlphabetSize()
  {
    hide Pow2;
    GroupOrder(g, 2 * MAX_DISTANCE_BITS, b, 0);
    LessTimes(g + 1, 2 * MAX_DISTANCE_BITS, b);
    SumTimes(g, 1, b);
  }

  lemma GroupSymbol(g: nat, j: nat, p: Params)
    requires j < Pow2(p.postfixBits)
    ensures var i := SHORT_CODES + p.numDirectCodes + g * Pow2(p.postfixBits) + j;
            && SymbolBits(i, p) == 1 + g / 2
            && SymbolOffset(i, p) ==
               p.numDirectCodes + ((2 + g % 2) * Pow2(1 + g / 2) - 4) * Pow2(p.postfixBits) + 1 + j
  {
    hide Pow2, High, Low;
    SplitSum(p.postfixBits, g, j);
  }

  // ---------- Changing the parameters of a command list ----------

  /** The part of a command that concerns distances; six bits of the packed prefix count extra bits. */
  datatype Command = Command(copyLength: nat, cmdPrefix: nat, distPrefix: nat, distExtra: nat)
  {
    predicate HasDistance() { copyLength != 0 && cmdPrefix >= 128 }

    function Unpacked(): Prefix { Prefix(distPrefix % 1024, distPrefix / 1024, distExtra) }
  }

  function Packed(x: Prefix): nat { x.nbits * 1024 + x.symbol }

  lemma PackRoundTrip(x: Prefix)
    requires x.symbol < 1024
    ensures Prefix(Packed(x) % 1024, Packed(x) / 1024, x.extra) == x
  {
  }

  /** The distance is encoded with the given parameters, and the code has a symbol under p. */
  ghost predicate Encoded(c: Command, code: nat, orig: Params) { c.Unpacked() == PrefixEncode(code, orig) }

  ghost predicate Encodable(code: nat, p: Params) { code < SHORT_CODES || code - SHORT_CODES + 1 <= p.MaxDistance() }

  lemma SymbolSmall(code: nat, p: Params)
    requires p.Valid() && Encodable(code, p)
    ensures PrefixEncode(code, p).symbol < 1024
  {
    hide Pow2, PrefixEncode;
    if code < SHORT_CODES {
      ShortEncode(code, p);
    } else {
      InAlphabet(code - SHORT_CODES + 1, p);
    }
    AlphabetSmall(p);
  }

  lemma AlphabetSmall(p: Params)
    requires p.Valid()
    ensures p.AlphabetSize() <= 520
  {
    Pow2Monotone(p.postfixBits, 3);
    assert Pow2(3) == 8;
    hide Pow2;
    LessTimes(Pow2(p.postfixBits), 8, 15);
    LessTimes(Pow2(p.postfixBits), 8, 2 * MAX_DISTANCE_BITS);
  }

  /** Re-encodes every distance of a command list, in place; codes[i] is the distance code of command i. */
  method RecomputeDistancePrefixes(cmds: array<Command>, orig: Params, p: Params, ghost codes: seq<nat>)
    requires p.Valid() && |codes| == cmds.Length
    requires forall i :: 0 <= i < cmds.Length && cmds[i].HasDistance() ==>
             Encoded(cmds[i], codes[i], orig) && Encodable(codes[i], p)
    modifies cmds
    ensures forall i :: 0 <= i < cmds.Length && old(cmds[i]).HasDistance() ==>
              Encoded(cmds[i], codes[i], p) && cmds[i].copyLength == old(cmds[i].copyLength)
                && cmds[i].cmdPrefix == old(cmds[i].cmdPrefix)
    ensures forall i :: 0 <= i < cmds.Length && !old(cmds[i]).HasDistance() ==> cmds[i] == old(cmds[i])
  {
    hide PrefixEncode, Pow2, DistanceCode;
    if orig == p { return; }
    for i := 0 to cmds.Length
      invariant forall k :: i <= k < cmds.Length ==> cmds[k] == old(cmds[k])
      invariant forall k :: 0 <= k < i && old(cmds[k]).HasDistance() ==>
                  Encoded(cmds[k], codes[k], p) && cmds[k].copyLength == old(cmds[k].copyLength)
                    && cmds[k].cmdPrefix == old(cmds[k].cmdPrefix)
      invariant forall k :: 0 <= k < i && !old(cmds[k]).HasDistance() ==> cmds[k] == old(cmds[k])
    {
      var c := cmds[i];
      if c.HasDistance() {
        DistanceCodeInverts(codes[i], orig);
        var code := DistanceCode(c.Unpacked(), orig);
        SymbolSmall(code, p);
        var x := PrefixEncode(code, p);
        PackRoundTrip(x);
        cmds[i] := c.(distPrefix := Packed(x), distExtra := x.extra);
      }
    }
  }
}
