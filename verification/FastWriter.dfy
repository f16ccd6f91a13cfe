/** The quality 0 and 1 writer: input is cut into full fragments however it arrives, and a flush ends
    on a byte boundary behind an empty metadata block. */
module FastWriter {
  import opened Arithmetic
  import opened Bits
  import opened BitReader
  import opened MetaBlockHeader

  // ---------- Cutting input into fragments ----------

  /** All fragments but the last, which stays behind even if it is full. */
  ghost function Cut(data: seq<byte>, limit: nat): seq<seq<byte>>
    requires limit > 0
    decreases |data|
  {
    if |data| <= limit then [] else [data[..limit]] + Cut(data[limit..], limit)
  }

  ghost function Tail(data: seq<byte>, limit: nat): (t: seq<byte>)
    requires limit > 0
    ensures |t| <= limit && (data != [] ==> t != [])
    decreases |data|
  {
    if |data| <= limit then data else Tail(data[limit..], limit)
  }

  /** More input only touches the tail. */
  lemma {:induction false} CutMore(data: seq<byte>, more: seq<byte>, limit: nat)
    requires limit > 0
    ensures Cut(data + more, limit) == Cut(data, limit) + Cut(Tail(data, limit) + more, limit)
    ensures Tail(data + more, limit) == Tail(Tail(data, limit) + more, limit)
    decreases |data|
  {
    if |data| > limit {
      assert (data + more)[..limit] == data[..limit] && (data + more)[limit..] == data[limit..] + more;
      CutMore(data[limit..], more, limit);
    }
  }

  ghost predicate AllFull(fragments: seq<seq<byte>>,
                          limit: nat) { forall i :: 0 <= i < |fragments| ==> |fragments[i]| == limit }

  /** Every fragment that is cut off is full, and fragments and tail together are the input. */
  lemma {:induction false} CutIsFull(data: seq<byte>, limit: nat)
    requires limit > 0
    ensures AllFull(Cut(data, limit), limit) && Joined(Cut(data, limit)) + Tail(data, limit) == data
    decreases |data|
  {
    if |data| > limit {
      var f, more := data[..limit], data[limit..];
      assert data == f + more;
      CutIsFull(more, limit);
      CutFirst(f, more, limit);
      hide Cut, Tail, Joined;
      FirstJoined(f, Cut(more, limit));
      Associate(f, Joined(Cut(more, limit)), Tail(more, limit));
    } else {
      assert [] + data == data;
    }
  }

  /** A full fragment with more behind it is cut off. */
  lemma CutFirst(f: seq<byte>, more: seq<byte>, limit: nat)
    requires |f| == limit > 0 && more != []
    ensures Cut(f + more, limit) == [f] + Cut(more, limit) && Tail(f + more, limit) == Tail(more, limit)
  {
    assert (f + more)[..limit] == f && (f + more)[limit..] == more;
  }

  lemma FirstJoined(f: seq<byte>, rest: seq<seq<byte>>)
    ensures Joined([f] + rest) == f + Joined(rest)
  {
    assert ([f] + rest)[1..] == rest;
  }

  ghost function Joined(fragments: seq<seq<byte>>): seq<byte> {
    if fragments == [] then [] else fragments[0] + Joined(fragments[1..])
  }

  // ---------- Bits and bytes ----------

  lemma {:induction false} DigitsConcat(x: nat, n: nat, y: nat, m: nat)
    requires x < Pow2(n)
    ensures Digits(x + Pow2(n) * y, n + m) == Digits(x, n) + Digits(y, m)
    decreases n
  {
    if n > 0 {
      DoubleTimes(Pow2(n - 1), y);
      var z := x + Pow2(n) * y;
      assert z % 2 == x % 2 && z / 2 == x / 2 + Pow2(n - 1) * y;
      DigitsConcat(x / 2, n - 1, y, m);
    } else {
      assert Digits(x, 0) == [] && [] + Digits(y, m) == Digits(y, m);
    }
  }

  lemma {:induction false} DigitsAt(x: nat, n: nat, i: nat)
    requires i < n
    ensures Digits(x, n)[i] == (High(x, i) % 2 == 1)
    decreases n
  {
    if i > 0 { DigitsAt(x / 2, n - 1, i - 1); }
  }

  lemma OneByte(b: byte)
    ensures BitsOf([b]) == Digits(b, 8)
  {
    hide High, Digits;
    forall i | 0 <= i < 8 ensures BitsOf([b])[i] == Digits(b, 8)[i] { DigitsAt(b, 8, i); }
  }

  /** Whole bytes of a bit sequence. */
  function Pack(b: seq<bool>): (s: seq<byte>)
    ensures |s| == |b| / 8
    decreases |b|
  {
    if |b| < 8 then [] else
      ValueBound(b[..8]);
      EightBits();
      [Value(b[..8])] + Pack(b[8..])
  }

  lemma EightBits()
    ensures Pow2(8) == 256
  {
  }

  lemma NextByteBits(b: seq<bool>)
    requires |b| >= 8
    ensures b[..8 * (|b| / 8)] == b[..8] + b[8..][..8 * (|b[8..]| / 8)]
  {
  }

  lemma {:induction false} PackBits(b: seq<bool>)
    ensures BitsOf(Pack(b)) == b[..8 * (|b| / 8)]
    decreases |b|
  {
    if |b| >= 8 {
      var v := Pack(b)[0];
      assert Pack(b) == [v] + Pack(b[8..]) && v == Value(b[..8]);
      hide BitsOf, Value, Digits, Pack;
      PackBits(b[8..]);
      DigitsOfValue(b[..8]);
      OneByte(v);
      BitsOfConcat([v], Pack(b[8..]));
      NextByteBits(b);
    } else {
      assert BitsOf([]) == [];
    }
  }

  // ---------- The writer ----------

  /** The empty metadata block that a flush appends: its six bits, with value 6. */
  const SEAL := Metadata(false, 0, 0)

  lemma SealBits(rest: seq<bool>)
    ensures SEAL.Legal() && Digits(6, 6) + rest == SEAL.Before(rest)
  {
    SixDigits();
    TwoDigits();
    hide Digits;
    assert [false, true, true, false, false, false] + rest ==
           [false] + ([true, true] + ([false] + ([false, false] + rest)));
  }

  lemma SixDigits()
    ensures Digits(6, 6) == [false, true, true, false, false, false]
  {
    assert Digits(0, 3) == [false, false, false] by { assert Digits(0, 2) == [false, false] by { TwoDigits(); } }
    assert Digits(1, 4) == [true] + Digits(0, 3);
    assert Digits(3, 5) == [true] + Digits(1, 4);
    assert Digits(6, 6) == [false] + Digits(3, 5);
  }

  lemma TwoDigits()
    ensures Digits(3, 2) == [true, true] && Digits(0, 2) == [false, false]
  {
    assert Digits(1, 1) == [true] && Digits(0, 1) == [false];
  }

  /** What turns fragments into bits: the window bits that start a stream, and the bits of a fragment,
      which may depend on the bits before it (an uncompressed block is aligned) and on the fragments
      before it (quality 0 keeps its command code). */
  datatype Encoder = Encoder(header: seq<bool>, compress: (seq<bool>, seq<seq<byte>>, seq<byte>, bool) -> seq<bool>)
  {
    /** The last fragment ends on a byte boundary. */
    ghost predicate Valid() {
      forall bits, emitted, block :: (|bits| + |compress(bits, emitted, block, true)|) % 8 == 0
    }

    /** The bits after one more fragment. */
    function After(bits: seq<bool>, emitted: seq<seq<byte>>, block: seq<byte>, isLast: bool): seq<bool> {
      var start := if emitted == [] then bits + header else bits;
      start + compress(start, emitted, block, isLast)
    }

    /** The bits after fragments that are not the last. */
    ghost function Stream(bits: seq<bool>, emitted: seq<seq<byte>>, fragments: seq<seq<byte>>): seq<bool> {
      if fragments == [] then bits else
        var n := |fragments| - 1;
        After(Stream(bits, emitted, fragments[..n]), emitted + fragments[..n], fragments[n], false)
    }
  }

  lemma StreamNext(e: Encoder, bits: seq<bool>, emitted: seq<seq<byte>>, fragments: seq<seq<byte>>, f: seq<byte>)
    ensures e.Stream(bits, emitted, fragments + [f]) ==
            e.After(e.Stream(bits, emitted, fragments), emitted + fragments, f, false)
  {
    hide Encoder.After;
    assert (fragments + [f])[..|fragments|] == fragments;
  }

  lemma StreamNone(e: Encoder, bits: seq<bool>, emitted: seq<seq<byte>>)
    ensures e.Stream(bits, emitted, []) == bits
  {
  }

  /** The bits are the bytes written and the carry. */
  ghost predicate Carries(bits: seq<bool>, out: seq<byte>, carry: nat, carryBits: nat) {
    carryBits < 8 && carry < Pow2(carryBits) && bits == BitsOf(out) + Digits(carry, carryBits)
  }

  lemma CarrySmall(bits: seq<bool>, out: seq<byte>, carry: nat, carryBits: nat)
    requires Carries(bits, out, carry, carryBits)
    ensures carryBits < 8 && carry < Pow2(carryBits)
  {
  }

  /** New bits behind the carry: whole bytes go out, the rest is the new carry. */
  lemma CarryNext(bits: seq<bool>, out: seq<byte>, carry: nat, carryBits: nat, more: seq<bool>, b: seq<bool>,
                  rest: seq<bool>)
    requires Carries(bits, out, carry, carryBits) && b == Digits(carry, carryBits) + more && rest == b[8 * (|b| / 8)..]
    ensures Carries(bits + more, out + Pack(b), Value(rest), |rest|)
  {
    hide BitsOf, Digits, Value, Pow2;
    PackBits(b);
    BitsOfConcat(out, Pack(b));
    DigitsOfValue(rest);
    ValueBound(rest);
    var head := b[..8 * (|b| / 8)];
    assert b == head + rest;
    Associate(BitsOf(out), Digits(carry, carryBits), more);
    Associate(BitsOf(out), head, rest);
  }

  /** b is a followed by nothing or by the seal, with zeros up to the byte boundary. */
  ghost predicate Sealed(b: seq<bool>, a: seq<bool>) {
    b == a || exists rest :: b == a + SEAL.Before(rest) && |rest| < 8 && forall i :: 0 <= i < |rest| ==> !rest[i]
  }

  lemma NoSeal(b: seq<bool>)
    ensures Sealed(b, b)
  {
  }

  /** The bytes written hold the carry and the seal. */
  lemma SealWritten(carry: nat, carryBits: nat, seal: nat, n: nat, bytes: seq<byte>) returns (rest: seq<bool>)
    requires 0 < carryBits < 8 && carry < Pow2(carryBits) && seal == carry + Pow2(carryBits) * 6
             && n == (carryBits + 13) / 8
    requires (n == 1 && bytes == [seal % 256]) || (n == 2 && bytes == [seal % 256, seal / 256 % 256])
    ensures SEAL.Legal() && BitsOf(bytes) == Digits(carry, carryBits) + SEAL.Before(rest)
    ensures SEAL.Before(rest) == Digits(6, 8 * n - carryBits)
    ensures |rest| < 8 && forall i :: 0 <= i < |rest| ==> !rest[i]
  {
    hide BitsOf, Digits, SEAL, Pow2;
    rest := SealDigits(carry, carryBits, n);
    SealBytes(seal, n, bytes);
    SealBits(rest);
  }

  /** The seal behind the carry. */
  lemma SealNext(bits: seq<bool>, out: seq<byte>, carry: nat, carryBits: nat, seal: nat, n: nat, bytes: seq<byte>)
    returns (b: seq<bool>)
    requires Carries(bits, out, carry, carryBits) && carryBits > 0 && seal == carry + Pow2(carryBits) * 6
             && n == (carryBits + 13) / 8
    requires (n == 1 && bytes == [seal % 256]) || (n == 2 && bytes == [seal % 256, seal / 256 % 256])
    ensures Sealed(b, bits) && Carries(b, out + bytes, 0, 0) && carryBits <= 8 * n
            && b == bits + Digits(6, 8 * n - carryBits)
  {
    NoDigits();
    EmptyDigits(0);
    hide BitsOf, Digits, SEAL, Pow2;
    var rest := SealWritten(carry, carryBits, seal, n, bytes);
    BitsOfConcat(out, bytes);
    b := bits + SEAL.Before(rest);
    Associate(BitsOf(out), Digits(carry, carryBits), SEAL.Before(rest));
    assert b == b + [];
  }

  /** The carry is what does not fill a byte. */
  lemma CarryIsPart(bits: seq<bool>, out: seq<byte>, carry: nat, carryBits: nat)
    requires Carries(bits, out, carry, carryBits)
    ensures carryBits == |bits| % 8
  {
    hide BitsOf, Digits;
    assert |bits| == 8 * |out| + carryBits;
  }

  class Writer {
    const limit: nat                     // bytes of a full fragment
    const encoder: Encoder
    var buf: seq<byte>
    var wroteHeader: bool
    var carry: nat
    var carryBits: nat
    var out: seq<byte>                   // bytes written
    var bits: seq<bool>                  // bits produced
    var emitted: seq<seq<byte>>          // fragments compressed
    ghost var base: seq<bool>            // bits up to the last flush
    ghost var earlier: seq<seq<byte>>    // fragments up to the last flush
    ghost var fragments: seq<seq<byte>>  // fragments since the last flush
    ghost var data: seq<byte>            // input since the last flush

    /** The fragments emitted since the last flush, and the bits they add to the stream before it,
        depend only on the input since then. */
    ghost predicate Valid() reads this {
      limit > 0 && encoder.Valid() && buf == Tail(data, limit) && fragments == Cut(data, limit) && Produced()
    }

    ghost predicate Produced() reads this {
      && Carries(bits, out, carry, carryBits) && wroteHeader == (emitted != [])
      && emitted == earlier + fragments && bits == encoder.Stream(base, earlier, fragments)
    }

    constructor (size: nat, enc: Encoder)
      requires size > 0 && enc.Valid()
      ensures Valid() && limit == size && encoder == enc && data == [] && out == [] && base == [] && earlier == []
    {
      limit, encoder := size, enc;
      buf, wroteHeader, carry, carryBits, out, bits, emitted := [], false, 0, 0, [], [], [];
      base, earlier, fragments, data := [], [], [], [];
    }

    /** Compresses a fragment behind the carried bits, after the window bits if it is the first, and
        writes the whole bytes. */
    method EmitFragment(block: seq<byte>, isLast: bool)
      requires Carries(bits, out, carry, carryBits) && wroteHeader == (emitted != [])
      modifies this`carry, this`carryBits, this`out, this`bits, this`wroteHeader, this`emitted
      ensures Carries(bits, out, carry, carryBits) && wroteHeader == (emitted != [])
              && emitted == old(emitted) + [block]
      ensures bits == encoder.After(old(bits), old(emitted), block, isLast) && old(out) <= out
    {
      hide BitsOf, Digits, Value, Carries;
      var start := if wroteHeader then [] else encoder.header;
      var more := start + encoder.compress(bits + start, emitted, block, isLast);
      var b := LowDigits(carry, carryBits) + more;
      var n := |b| / 8;
      var rest := b[8 * n..];
      CarryNext(bits, out, carry, carryBits, more, b, rest);
      Associate(bits, start, encoder.compress(bits + start, emitted, block, isLast));
      assert bits + [] == bits;
      bits := bits + more;
      out := out + Pack(b);
      carry, carryBits := Value(rest), |rest|;
      wroteHeader, emitted := true, emitted + [block];
    }

    /** Emits a fragment that is not the last. */
    method Emit(block: seq<byte>)
      requires Produced()
      modifies this`carry, this`carryBits, this`out, this`bits, this`wroteHeader, this`emitted, this`fragments
      ensures Produced() && fragments == old(fragments) + [block] && old(out) <= out
    {
      hide Carries, Encoder.Stream, Encoder.After;
      StreamNext(encoder, base, earlier, fragments, block);
      Associate(earlier, fragments, [block]);
      EmitFragment(block, false);
      fragments := fragments + [block];
    }

    /** Takes input; a fragment is emitted when it is full and more follows. */
    method Write(p0: seq<byte>)
      requires Valid()
      modifies this
      ensures Valid() && data == old(data) + p0 && base == old(base) && earlier == old(earlier) && old(out) <= out
    {
      hide Carries, Encoder.Stream, Cut, Tail;
      var p := p0;
      data := data + p0;
      CutMore(old(data), p0, limit);
      while p != []
        invariant Produced() && data == old(data) + p0 && base == old(base) && earlier == old(earlier)
                  && old(out) <= out
        invariant |buf| <= limit
        invariant fragments + Cut(buf + p, limit) == Cut(data, limit) && Tail(buf + p, limit) == Tail(data, limit)
        decreases |p|, |buf|
      {
        if buf == [] && |p| > limit {
          ghost var was := p;
          Emit(p[..limit]);
          p := p[limit..];
          assert was == was[..limit] + p && buf + was == was && buf + p == p;
          CutFirst(was[..limit], p, limit);
          Associate(fragments[..|fragments| - 1], [was[..limit]], Cut(p, limit));
        } else {
          var room := limit - |buf|;
          var take := if room < |p| then room else |p|;
          assert buf + p == (buf + p[..take]) + p[take..];
          buf := buf + p[..take];
          p := p[take..];
          if |buf| == limit && p != [] {
            CutFirst(buf, p, limit);
            Associate(fragments, [buf], Cut(p, limit));
            Emit(buf);
            buf := [];
            assert buf + p == p;
          }
        }
      }
      assert buf + p == buf;
      CutShort(buf, limit);
      assert fragments + [] == fragments;
    }

    /** Emits what is buffered, and ends on a byte boundary. */
    method Flush() returns (ghost flushed: seq<seq<byte>>)
      requires Valid()
      modifies this
      ensures Valid() && data == [] && carryBits == 0 && bits == base && old(out) <= out
              && earlier == old(earlier) + flushed
      ensures Joined(flushed) == old(data)
      ensures flushed == Cut(old(data), limit) + (if old(data) == [] then [] else [Tail(old(data), limit)])
      ensures Sealed(bits, encoder.Stream(old(base), old(earlier), flushed))
    {
      hide Carries, Encoder.Stream, Cut, Tail, SEAL;
      CutIsFull(data, limit);
      JoinedNext(fragments, buf);
      assert data == [] ==> buf == [] by { assert |Tail([], limit)| == 0 by { TailNone(limit); } }
      if |buf| > 0 {
        Emit(buf);
        buf := [];
      } else {
        assert data == [] by { TailSome(data, limit); }
        assert fragments + [] == fragments;
      }
      flushed := fragments;
      PadToByteBoundary();
      base, earlier, fragments, data := bits, emitted, [], [];
      TailNone(limit);
      assert emitted + [] == emitted;
      StreamNone(encoder, bits, emitted);
    }

    /** Emits what is buffered, even if nothing is, as the last fragment; the stream ends on a byte
        boundary, so all of it has been written. */
    method Close()
      requires Valid()
      modifies this
      ensures carryBits == 0 && BitsOf(out) == bits && old(out) <= out
      ensures var b := encoder.Stream(old(base), old(earlier), Cut(old(data), limit));
              bits == encoder.After(b, old(earlier) + Cut(old(data), limit), Tail(old(data), limit), true)
    {
      hide Carries, Encoder.Stream;
      EmitFragment(buf, true);
      CarryIsPart(bits, out, carry, carryBits);
      NoCarry(bits, out, carry);
      buf := [];
    }

    /** Appends an empty metadata block and zero bits up to the byte boundary. */
    method PadToByteBoundary()
      requires Carries(bits, out, carry, carryBits)
      modifies this`carry, this`carryBits, this`out, this`bits
      ensures Carries(bits, out, carry, carryBits) && carryBits == 0 && Sealed(bits, old(bits)) && old(out) <= out
    {
      hide BitsOf, Digits, SEAL, Carries, Sealed;
      CarrySmall(bits, out, carry, carryBits);
      if carryBits == 0 {
        NoSeal(bits);
        return;
      }
      var seal := carry + Pow2(carryBits) * 6;
      var n := (carryBits + 6 + 7) / 8;
      var bytes: seq<byte> := if n == 1 then [seal % 256] else [seal % 256, seal / 256 % 256];
      ghost var b := SealNext(bits, out, carry, carryBits, seal, n, bytes);
      bits := bits + LowDigits(6, 8 * n - carryBits);
      out := out + bytes;
      carry, carryBits := 0, 0;
    }
  }

  /** The carried bits, lowest first. */
  function LowDigits(v: nat, w: nat): (r: seq<bool>)
    ensures r == Digits(v, w)
    decreases w
  {
    if w == 0 then [] else [v % 2 == 1] + LowDigits(v / 2, w - 1)
  }

  /** The seal's digits: the carry, the six bits, and zeros. */
  lemma SealDigits(carry: nat, cb: nat, n: nat) returns (rest: seq<bool>)
    requires 0 < cb < 8 && carry < Pow2(cb) && n == (cb + 13) / 8
    ensures Digits(carry + Pow2(cb) * 6, 8 * n) == Digits(carry, cb) + (Digits(6, 6) + rest)
    ensures |rest| < 8 && (forall i :: 0 <= i < |rest| ==> !rest[i]) && Digits(6, 6) + rest == Digits(6, 8 * n - cb)
  {
    hide Pow2;
    var m := 8 * n - cb;
    DigitsConcat(carry, cb, 6, m);
    SixIsSmall();
    DigitsConcat(6, 6, 0, m - 6);
    rest := Digits(0, m - 6);
    ZeroDigits(m - 6);
    assert Pow2(6) * 0 == 0;
  }

  lemma SixIsSmall()
    ensures 6 < Pow2(6)
  {
  }

  lemma {:induction false} ZeroDigits(n: nat)
    ensures forall i :: 0 <= i < n ==> !Digits(0, n)[i]
  {
    if n > 0 { ZeroDigits(n - 1); }
  }

  /** One or two bytes of a number. */
  lemma SealBytes(seal: nat, n: nat, bytes: seq<byte>)
    requires (n == 1 && bytes == [seal % 256]) || (n == 2 && bytes == [seal % 256, seal / 256 % 256])
    ensures BitsOf(bytes) == Digits(seal, 8 * n)
  {
    hide BitsOf, Digits, Pow2;
    EightBits();
    OneByte(seal % 256);
    assert seal == seal % 256 + Pow2(8) * (seal / 256);
    if n == 1 {
      DigitsConcat(seal % 256, 8, seal / 256, 0);
      EmptyDigits(seal / 256);
      assert Digits(seal % 256, 8) + [] == Digits(seal % 256, 8);
    } else {
      var y := seal / 256;
      DigitsConcat(seal % 256, 8, y, 8);
      assert y == y % 256 + Pow2(8) * (y / 256);
      DigitsConcat(y % 256, 8, y / 256, 0);
      EmptyDigits(y / 256);
      assert Digits(y % 256, 8) + [] == Digits(y % 256, 8);
      OneByte(y % 256);
      BitsOfConcat([seal % 256], [y % 256]);
      assert bytes == [seal % 256] + [y % 256];
    }
  }

  lemma EmptyDigits(x: nat)
    ensures Digits(x, 0) == []
  {
  }

  lemma CutShort(data: seq<byte>, limit: nat)
    requires 0 < limit && |data| <= limit
    ensures Cut(data, limit) == [] && Tail(data, limit) == data
  {
  }

  lemma NoCarry(bits: seq<bool>, out: seq<byte>, carry: nat)
    ensures Carries(bits, out, carry, 0) ==> BitsOf(out) == bits
  {
    hide BitsOf;
    EmptyDigits(carry);
  }

  lemma TailNone(limit: nat)
    requires limit > 0
    ensures Tail([], limit) == [] && Cut([], limit) == []
  {
  }

  lemma TailSome(data: seq<byte>, limit: nat)
    requires limit > 0 && Tail(data, limit) == []
    ensures data == [] && Cut(data, limit) == []
  {
  }

  lemma {:induction false} JoinedNext(fragments: seq<seq<byte>>, f: seq<byte>)
    ensures Joined(fragments + [f]) == Joined(fragments) + f
  {
    if fragments == [] {
      assert [f][1..] == [];
      assert f + [] == f;
    } else {
      JoinedNext(fragments[1..], f);
      assert (fragments + [f])[1..] == fragments[1..] + [f];
      assert (fragments + [f])[0] == fragments[0];
    }
  }

  /** The seal reads as an empty metadata block, and what follows it up to the boundary is zero. */
  lemma SealReads(rest: seq<bool>)
    ensures SEAL.Legal() && Run(Start, SEAL.Before(rest)) == Finished(Header(false, 0, false, true), rest)
  {
    hide Run, Digits, Value;
    SealBits(rest);
    ReadsWritten(SEAL, rest);
  }
}
