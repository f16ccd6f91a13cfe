/** The decoder's bit accumulator: a 64-bit word that is filled ahead of the cursor by one, four or
    eight bytes, where a fill may leave more bits than it accounts for. */
module BitReader {
  import opened Bits

  const FAST_INPUT_SLACK := 32

  // ---------- Bit sequences ----------

  /** The number whose binary digits are b, lowest first. */
  function Value(b: seq<bool>): nat {
    if b == [] then 0 else (if b[0] then 1 else 0) + 2 * Value(b[1..])
  }

  lemma {:induction false} ValueLow(b: seq<bool>, n: nat)
    ensures n <= |b| ==> Low(Value(b), n) == Value(b[..n])
    ensures n >= |b| ==> Low(Value(b), n) == Value(b)
    decreases n
  {
    if n > 0 && b != [] {
      ValueLow(b[1..], n - 1);
      if n <= |b| { assert b[..n][1..] == b[1..][..n - 1]; }
    } else if b == [] {
      LowSmall(0, n);
    }
  }

  lemma {:induction false} ValueBound(b: seq<bool>)
    ensures Value(b) < Pow2(|b|)
  {
    if b != [] { ValueBound(b[1..]); }
  }

  /** Two words with the same first n bits. */
  lemma SameLow(a: seq<bool>, b: seq<bool>, n: nat)
    requires n <= |a| && n <= |b| && a[..n] == b[..n]
    ensures Low(Value(a), n) == Low(Value(b), n)
  {
    ValueLow(a, n);
    ValueLow(b, n);
  }

  /** Zero bits on top do not matter. */
  lemma {:induction false} ValuePadded(b: seq<bool>, z: seq<bool>)
    requires forall i :: 0 <= i < |z| ==> !z[i]
    ensures Value(b + z) == Value(b)
    decreases |b| + |z|
  {
    if b != [] {
      assert (b + z)[1..] == b[1..] + z;
      ValuePadded(b[1..], z);
    } else if z != [] {
      assert b + z == z && (z + [])[1..] == z[1..];
      ValuePadded([], z[1..]);
      assert [] + z[1..] == z[1..];
    }
  }

  // ---------- Bytes as bits ----------

  /** The bits of a byte string, the lowest bit of each byte first. */
  ghost function BitsOf(s: seq<byte>): (r: seq<bool>)
    ensures |r| == 8 * |s|
  {
    seq(8 * |s|, i requires 0 <= i < 8 * |s| => High(s[i / 8], i % 8) % 2 == 1)
  }

  /** All bits of the chunks in order. */
  ghost function AllBits(chunks: seq<seq<byte>>): seq<bool> {
    if chunks == [] then [] else BitsOf(chunks[0]) + AllBits(chunks[1..])
  }

  lemma BitsOfDrop(s: seq<byte>, k: nat)
    requires k <= |s|
    ensures BitsOf(s)[8 * k..] == BitsOf(s[k..]) && BitsOf(s)[..8 * k] == BitsOf(s[..k])
  {
  }

  lemma BitsOfConcat(s: seq<byte>, t: seq<byte>)
    ensures BitsOf(s + t) == BitsOf(s) + BitsOf(t)
  {
  }

  /** The lowest eight bits give the byte back. */
  lemma ByteValue(s: seq<byte>)
    requires |s| > 0
    ensures Value(BitsOf(s)[..8]) == s[0]
  {
    hide High;
    HighLow(s[0], 8);
    assert Pow2(8) == 256;
    LowSmall(s[0], 8);
    DigitsValue(s[0], 8, BitsOf(s)[..8]);
  }

  lemma {:induction false} DigitsValue(x: nat, n: nat, b: seq<bool>)
    requires |b| == n && forall i :: 0 <= i < n ==> b[i] == (High(x, i) % 2 == 1)
    ensures Value(b) == Low(x, n)
    decreases n
  {
    if n > 0 {
      assert b[0] == (High(x, 0) % 2 == 1);
      forall i | 0 <= i < n - 1
        ensures b[1..][i] == (High(x / 2, i) % 2 == 1)
      {
        assert b[i + 1] == (High(x, i + 1) % 2 == 1);
      }
      DigitsValue(x / 2, n - 1, b[1..]);
    }
  }

  // ---------- 64-bit words ----------

  type Word = w: seq<bool> | |w| == 64 witness seq(64, _ => false)

  function Zero(): Word { seq(64, _ => false) }

  function Or(a: Word, b: Word): Word { seq(64, i requires 0 <= i < 64 => a[i] || b[i]) }

  function ShiftLeft(a: Word, n: nat): Word { seq(64, i requires 0 <= i < 64 => i >= n && a[i - n]) }

  function ShiftRight(a: Word, n: nat): Word { seq(64, i requires 0 <= i < 64 => i + n < 64 && a[i + n]) }

  function And(a: Word, n: nat): Word { seq(64, i requires 0 <= i < 64 => i < n && a[i]) }

  /** The k bytes at pos as a little-endian word. */
  function Load(input: seq<byte>, pos: nat, k: nat): Word
    requires k <= 8 && pos + k <= |input|
  {
    seq(64, i requires 0 <= i < 64 => i < 8 * k && High(input[pos + i / 8], i % 8) % 2 == 1)
  }

  /** The n low bits as a number: val & bitMask(n). */
  function Field(val: Word, n: nat): nat
    requires n <= 64
  {
    Value(val[..n])
  }

  // ---------- What the accumulator knows ----------

  /** The first n bits of the word are the next bits of the stream. Those above may be missing, but a
      bit that is set there is a true bit of the stream. */
  ghost predicate Agrees(val: Word, n: nat, ahead: seq<bool>) {
    && n <= 63 && n <= |ahead|
    && (forall i :: 0 <= i < n ==> val[i] == ahead[i])
    && (forall i :: n <= i < 64 && val[i] ==> i < |ahead| && ahead[i])
  }

  /** Filling again what may partly be there already: k bytes are loaded, and any number of these
      bits may be accounted for. */
  lemma FillAgrees(val: Word, n: nat, ahead: seq<bool>, input: seq<byte>, pos: nat, k: nat, n': nat)
    requires Agrees(val, n, ahead) && k <= 8 && pos + k <= |input| && ahead[n..] == BitsOf(input[pos..])
    requires n <= n' <= 63 && n' <= n + 8 * k
    ensures Agrees(Or(val, ShiftLeft(Load(input, pos, k), n)), n', ahead)
  {
    hide High;
    var w := Load(input, pos, k);
    var r := Or(val, ShiftLeft(w, n));
    forall i | n <= i < 64
      ensures r[i] == (val[i] || (i < n + 8 * k && ahead[i]))
      ensures i < n + 8 * k ==> i < |ahead|
    {
      if i < n + 8 * k {
        assert ahead[n..][i - n] == ahead[i];
      }
    }
  }

  lemma DropAgrees(val: Word, n: nat, ahead: seq<bool>, m: nat)
    requires Agrees(val, n, ahead) && m <= n
    ensures Agrees(ShiftRight(val, m), n - m, ahead[m..])
  {
  }

  /** Clearing what is above n. */
  lemma AndAgrees(val: Word, n: nat, ahead: seq<bool>, m: nat)
    requires Agrees(val, n, ahead) && m <= n
    ensures Agrees(And(val, m), m, ahead)
  {
  }

  lemma FieldAgrees(val: Word, n: nat, ahead: seq<bool>, m: nat)
    requires Agrees(val, n, ahead) && m <= n
    ensures Field(val, m) == Value(ahead[..m])
  {
    assert val[..m] == ahead[..m];
  }

  // ---------- The cursor over the input ----------

  /** The whole bytes among n bits, and the bits left over. */
  function Whole(n: nat): nat { n / 8 }
  function Part(n: nat): nat { n % 8 }

  lemma WholePart(n: nat)
    ensures n == 8 * Whole(n) + Part(n) && Part(n) < 8
  {
  }

  lemma WholeUnique(n: nat, k: nat, r: nat)
    requires n == 8 * k + r && r < 8
    ensures Whole(n) == k && Part(n) == r
  {
  }

  datatype Snapshot = Snapshot(val: Word, bitPos: nat, pos: nat)

  /** The bytes in the accumulator are the input bytes before pos, so that they can be put back. */
  ghost predicate Fits(input: seq<byte>, s: Snapshot, ahead: seq<bool>) {
    && Agrees(s.val, s.bitPos, ahead) && s.pos <= |input| && Whole(s.bitPos) <= s.pos && Part(s.bitPos) <= s.bitPos
    && ahead[Part(s.bitPos)..] == BitsOf(input[s.pos - Whole(s.bitPos)..])
  }

  lemma FitsUpcoming(input: seq<byte>, s: Snapshot, ahead: seq<bool>)
    requires Fits(input, s, ahead)
    ensures s.bitPos <= |ahead| && s.pos <= |input| && ahead[s.bitPos..] == BitsOf(input[s.pos..])
    ensures |ahead| == s.bitPos + 8 * (|input| - s.pos)
  {
    hide Agrees, BitsOf, Whole, Part;
    AgreesLength(s.val, s.bitPos, ahead);
    WholePart(s.bitPos);
    var k := Whole(s.bitPos);
    var t := input[s.pos - k..];
    BitsOfDrop(t, k);
    assert t[k..] == input[s.pos..];
    SliceSlice(ahead, Part(s.bitPos), 8 * k);
  }

  /** A load of k bytes of which j are accounted for. */
  lemma FillFits(input: seq<byte>, s: Snapshot, ahead: seq<bool>, k: nat, j: nat)
    requires Fits(input, s, ahead) && j <= k <= 8 && s.pos + k <= |input| && s.bitPos + 8 * j <= 63
    ensures Fits(input, Snapshot(Or(s.val, ShiftLeft(Load(input, s.pos, k), s.bitPos)), s.bitPos + 8 * j, s.pos + j),
                 ahead)
  {
    hide Agrees, Or, ShiftLeft, Load, BitsOf, Whole, Part;
    FitsUpcoming(input, s, ahead);
    WholePart(s.bitPos);
    WholeUnique(s.bitPos + 8 * j, Whole(s.bitPos) + j, Part(s.bitPos));
    FillAgrees(s.val, s.bitPos, ahead, input, s.pos, k, s.bitPos + 8 * j);
    AgreesLength(Or(s.val, ShiftLeft(Load(input, s.pos, k), s.bitPos)), s.bitPos + 8 * j, ahead);
  }

  /** Consuming n bits. */
  lemma DropFits(input: seq<byte>, s: Snapshot, ahead: seq<bool>, n: nat)
    requires Fits(input, s, ahead) && n <= s.bitPos
    ensures n <= |ahead| && Fits(input, Snapshot(ShiftRight(s.val, n), s.bitPos - n, s.pos), ahead[n..])
  {
    hide Agrees, ShiftRight, BitsOf, Whole, Part;
    AgreesLength(s.val, s.bitPos, ahead);
    DropAgrees(s.val, s.bitPos, ahead, n);
    DropAligned(input, s, ahead, n);
  }

  class Reader {
    var val: Word
    var bitPos: nat
    var input: seq<byte>
    var pos: nat
    ghost var ahead: seq<bool>   // every bit supplied and not yet consumed

    ghost predicate Valid() reads this { Fits(input, Snapshot(val, bitPos, pos), ahead) }

    constructor ()
      ensures Valid() && ahead == []
    {
      val, bitPos, input, pos, ahead := Zero(), 0, [], 0, [];
    }

    lemma Upcoming()
      requires Valid()
      ensures ahead[bitPos..] == BitsOf(input[pos..]) && |ahead| == bitPos + 8 * (|input| - pos)
    {
      hide Agrees, BitsOf;
      AgreesLength(val, bitPos, ahead);
      FitsUpcoming(input, Snapshot(val, bitPos, pos), ahead);
    }

    /** Loads k bytes and accounts for j of them. */
    method Fill(k: nat, j: nat)
      requires Valid() && j <= k <= 8 && pos + k <= |input| && bitPos + 8 * j <= 63
      modifies this`val, this`bitPos, this`pos
      ensures Valid() && bitPos == old(bitPos) + 8 * j && pos == old(pos) + j
    {
      hide Fits, Or, ShiftLeft, Load;
      FillFits(input, Snapshot(val, bitPos, pos), ahead, k, j);
      val := Or(val, ShiftLeft(Load(input, pos, k), bitPos));
      bitPos := bitPos + 8 * j;
      pos := pos + j;
    }

    /** Makes an empty accumulator clean and pulls a byte into it. */
    method Warmup()
      requires Valid()
      modifies this`val, this`bitPos, this`pos
      ensures Valid()
    {
      hide Fits;
      if bitPos == 0 {
        ClearEmpty();
        var ok := PullByte();
      }
    }

    method ClearEmpty()
      requires Valid() && bitPos == 0
      modifies this`val
      ensures Valid()
    {
      val := Zero();
    }

    /** Loads one byte if there is one. */
    method PullByte() returns (ok: bool)
      requires Valid() && bitPos <= 55
      modifies this`val, this`bitPos, this`pos
      ensures Valid() && ok == (old(pos) < |input|)
      ensures ok ==> bitPos == old(bitPos) + 8 && pos == old(pos) + 1
      ensures !ok ==> bitPos == old(bitPos) && pos == old(pos) && val == old(val)
    {
      hide Fits;
      if pos >= |input| { return false; }
      Fill(1, 1);
      ok := true;
    }

    /** Loads four bytes unless 32 bits are there. */
    method FillBitWindow()
      requires Valid() && (bitPos < 32 ==> pos + 4 <= |input|)
      modifies this`val, this`bitPos, this`pos
      ensures Valid() && bitPos >= 32 && old(pos) <= pos <= old(pos) + 4
    {
      hide Fits;
      if bitPos < 32 { Fill(4, 4); }
    }

    /** Loads eight bytes and accounts for those that fit whole. */
    method Refill64()
      requires Valid() && pos + 8 <= |input|
      modifies this`val, this`bitPos, this`pos
      ensures Valid() && bitPos == 56 + old(bitPos) % 8 && 8 * (pos - old(pos)) == bitPos - old(bitPos)
    {
      hide Fits;
      Room();
      Fill(8, (63 - bitPos) / 8);
    }

    lemma Room()
      requires Valid()
      ensures bitPos <= 63 && bitPos <= |ahead| && pos <= |input|
    {
    }

    method DropBits(n: nat)
      requires Valid() && n <= bitPos
      modifies this`val, this`bitPos, this`ahead
      ensures Valid() && bitPos == old(bitPos) - n && ahead == old(ahead)[n..]
    {
      hide Fits, ShiftRight;
      Room();
      DropFits(input, Snapshot(val, bitPos, pos), ahead, n);
      bitPos := bitPos - n;
      val := ShiftRight(val, n);
      ahead := ahead[n..];
    }

    method TakeBits(n: nat) returns (v: nat)
      requires Valid() && n <= bitPos
      modifies this`val, this`bitPos, this`ahead
      ensures Valid() && bitPos == old(bitPos) - n && ahead == old(ahead)[n..] && v == Value(old(ahead)[..n])
    {
      hide Agrees;
      Room();
      FieldAgrees(val, bitPos, ahead, n);
      v := Field(val, n);
      DropBits(n);
    }

    /** Pulls bytes until n bits are there. */
    method Pull(n: nat) returns (ok: bool)
      requires Valid() && n <= 56
      modifies this`val, this`bitPos, this`pos
      ensures Valid() && ok == (n <= |ahead|) && (if ok then bitPos >= n else pos == |input| && bitPos == |ahead|)
    {
      hide Fits;
      Upcoming();
      while bitPos < n
        invariant Valid() && |ahead| == bitPos + 8 * (|input| - pos) && ahead == old(ahead)
        decreases n - bitPos
      {
        var more := PullByte();
        Room();
        if !more { return false; }
      }
      Room();
      ok := true;
    }

    /** Looks at n bits. */
    method SafeGetBits(n: nat) returns (v: nat, ok: bool)
      requires Valid() && n <= 24
      modifies this`val, this`bitPos, this`pos
      ensures Valid() && ok == (n <= |ahead|) && (ok ==> v == Value(ahead[..n]) && bitPos >= n)
      ensures !ok ==> pos == |input| && bitPos == |ahead|
    {
      ok := Pull(n);
      if !ok { return 0, false; }
      Room();
      FieldAgrees(val, bitPos, ahead, n);
      v := Field(val, n);
    }

    /** Reads n bits, or leaves the cursor where it is. */
    method SafeReadBits(n: nat) returns (v: nat, ok: bool)
      requires Valid() && n <= 24
      modifies this`val, this`bitPos, this`pos, this`ahead
      ensures Valid() && ok == (n <= |old(ahead)|)
      ensures ok ==> v == Value(old(ahead)[..n]) && ahead == old(ahead)[n..]
      ensures !ok ==> ahead == old(ahead)
    {
      hide Fits;
      ok := Pull(n);
      if !ok { return 0, false; }
      v := TakeBits(n);
    }

    method SaveState() returns (s: Snapshot)
      requires Valid()
      ensures Fits(input, s, ahead)
    {
      s := Snapshot(val, bitPos, pos);
    }

    /** Goes back to a state of the same input. */
    method RestoreState(s: Snapshot, ghost saved: seq<bool>)
      requires Fits(input, s, saved)
      modifies this`val, this`bitPos, this`pos, this`ahead
      ensures Valid() && ahead == saved && val == s.val && bitPos == s.bitPos && pos == s.pos
    {
      val, bitPos, pos, ahead := s.val, s.bitPos, s.pos, saved;
    }

    /** Reads more than 24 bits in two parts; a failure between the parts is undone. */
    method SafeReadBits32(n: nat) returns (v: nat, ok: bool)
      requires Valid() && n <= 32
      modifies this`val, this`bitPos, this`pos, this`ahead
      ensures Valid() && ok == (n <= |old(ahead)|)
      ensures ok ==> v == Value(old(ahead)[..n]) && ahead == old(ahead)[n..]
      ensures !ok ==> ahead == old(ahead)
    {
      hide Fits;
      if n <= 24 {
        v, ok := SafeReadBits(n);
        return;
      }
      ghost var a := ahead;
      var memento := SaveState();
      var low, high;
      low, ok := SafeReadBits(16);
      if !ok {
        RestoreState(memento, a);
        return 0, false;
      }
      high, ok := SafeReadBits(n - 16);
      if !ok {
        RestoreState(memento, a);
        return 0, false;
      }
      ValueJoin(a, 16, n);
      assert a[16..][n - 16..] == a[n..];
      v := low + 0x1_0000 * high;
    }

    /** Clears the bits above bitPos. */
    method Normalize()
      requires Valid()
      modifies this`val
      ensures Valid() && forall i :: bitPos <= i < 64 ==> !val[i]
    {
      AndAgrees(val, bitPos, ahead, bitPos);
      val := And(val, bitPos);
    }

    /** Puts whole bytes back into the input. */
    method Unload()
      requires Valid()
      modifies this`val, this`bitPos, this`pos
      ensures Valid() && bitPos == Part(old(bitPos)) && pos == old(pos) - Whole(old(bitPos))
      ensures forall i :: bitPos <= i < 64 ==> !val[i]
    {
      hide Agrees, BitsOf, Whole, Part;
      AgreesLength(val, bitPos, ahead);
      WholePart(bitPos);
      WholeUnique(Part(bitPos), 0, Part(bitPos));
      AndAgrees(val, bitPos, ahead, Part(bitPos));
      pos := pos - Whole(bitPos);
      val := And(val, Part(bitPos));
      bitPos := Part(bitPos);
    }

    /** Skips to the byte boundary; the skipped bits must be zero. */
    method JumpToByteBoundary() returns (ok: bool)
      requires Valid()
      modifies this`val, this`bitPos, this`ahead
      ensures Valid() && |old(ahead)| >= Part(|old(ahead)|) && ahead == old(ahead)[Part(|old(ahead)|)..]
      ensures ok <==> forall i :: 0 <= i < Part(|old(ahead)|) ==> !old(ahead)[i]
    {
      hide Fits, Whole, Part;
      Room();
      Upcoming();
      WholePart(bitPos);
      WholeUnique(|ahead|, Whole(bitPos) + |input| - pos, Part(bitPos));
      ZeroValue(ahead[..Part(bitPos)]);
      var v := TakeBits(Part(bitPos));
      Normalize();
      ok := v == 0;
    }

    /** More input arrives: unread bytes are kept and the new ones follow. */
    method Feed(chunk: seq<byte>)
      requires Valid()
      modifies this
      ensures Valid() && ahead == old(ahead) + BitsOf(chunk)
    {
      hide Agrees, BitsOf, Whole, Part;
      Unload();
      WholePart(old(bitPos));
      WholeUnique(bitPos, 0, bitPos);
      Room();
      Upcoming();
      var rest := input[pos..];
      BitsOfConcat(rest, chunk);
      FeedAgrees(val, bitPos, ahead, BitsOf(chunk));
      assert (ahead + BitsOf(chunk))[bitPos..] == ahead[bitPos..] + BitsOf(chunk);
      assert (rest + chunk)[0..] == rest + chunk;
      input, pos, ahead := rest + chunk, 0, ahead + BitsOf(chunk);
    }

    /** Copies whole bytes out: first those in the accumulator, then straight from the input. */
    method CopyBytes(dest: array<byte>)
      requires Valid() && Part(|ahead|) == 0 && 8 * dest.Length <= |ahead|
      modifies this`val, this`bitPos, this`pos, this`ahead, dest
      ensures Valid() && ahead == old(ahead)[8 * dest.Length..]
      ensures forall k :: 0 <= k < dest.Length ==> dest[k] == ByteAt(old(ahead), k)
    {
      hide Fits, Value, ByteAt;
      ghost var a := ahead;
      var i := Drain(dest);
      Normalize();
      if i < dest.Length { CopyRest(dest, i, a); }
    }

    /** Takes the accumulator's bytes. */
    method Drain(dest: array<byte>) returns (i: nat)
      requires Valid() && Part(|ahead|) == 0 && 8 * dest.Length <= |ahead|
      modifies this`val, this`bitPos, this`ahead, dest
      ensures Valid() && i <= dest.Length && (i < dest.Length ==> bitPos == 0) && ahead == old(ahead)[8 * i..]
      ensures forall k :: 0 <= k < i ==> dest[k] == ByteAt(old(ahead), k)
    {
      hide Fits, Value, ByteAt;
      i := 0;
      ghost var a := ahead;
      Upcoming();
      while bitPos >= 8 && i < dest.Length
        invariant Valid() && i <= dest.Length && bitPos % 8 == 0 && ahead == a[8 * i..]
        invariant forall k :: 0 <= k < i ==> dest[k] == ByteAt(a, k)
      {
        NextByte(a, i);
        var v := TakeBits(8);
        dest[i] := v;
        i := i + 1;
      }
    }

    /** The accumulator is empty; the rest comes from the input. */
    method CopyRest(dest: array<byte>, i: nat, ghost a: seq<bool>)
      requires Valid() && bitPos == 0 && i < dest.Length && 8 * dest.Length <= |a| && ahead == a[8 * i..]
      requires forall j :: 0 <= j < 64 ==> !val[j]
      modifies this`pos, this`ahead, dest
      ensures Valid() && ahead == a[8 * dest.Length..]
      ensures forall k :: 0 <= k < i ==> dest[k] == old(dest[k])
      ensures forall k :: i <= k < dest.Length ==> dest[k] == ByteAt(a, k)
    {
      hide High, Value, BitsOf;
      var n, p := dest.Length - i, pos;
      ghost var t := input[p..];
      assert BitsOf(t) == ahead[0..] == ahead;
      forall k | i <= k < dest.Length
        ensures t[k - i] == ByteAt(a, k)
      {
        ByteOfInput(t, k - i);
        assert BitsOf(t)[8 * (k - i)..8 * (k - i) + 8] == a[8 * k..8 * k + 8];
      }
      forall k | i <= k < dest.Length { dest[k] := input[p + k - i]; }
      pos := pos + n;
      BitsOfDrop(t, n);
      ahead := ahead[8 * n..];
      assert input[pos..] == t[n..];
      assert ahead == a[8 * dest.Length..];
      assert Agrees(val, 0, ahead);
      assert ahead[0 % 8..] == ahead;
    }
  }

  /** The k-th whole byte of a bit sequence. */
  ghost function ByteAt(a: seq<bool>, k: nat): nat
    requires 8 * k + 8 <= |a|
  {
    Value(a[8 * k..8 * k + 8])
  }

  lemma NextByte(a: seq<bool>, i: nat)
    requires 8 * i + 8 <= |a|
    ensures Value(a[8 * i..][..8]) == ByteAt(a, i) < 256
    ensures a[8 * i..][8..] == a[8 * (i + 1)..]
  {
    hide Value;
    ValueBound(a[8 * i..][..8]);
    assert Pow2(8) == 256;
    assert a[8 * i..][..8] == a[8 * i..8 * i + 8];
  }

  lemma ByteOfInput(t: seq<byte>, k: nat)
    requires k < |t|
    ensures ByteAt(BitsOf(t), k) == t[k]
  {
    hide High, BitsOf, Value;
    ByteValue(t[k..]);
    BitsOfDrop(t, k);
    assert BitsOf(t)[8 * k..][..8] == BitsOf(t)[8 * k..8 * k + 8];
  }

  /** Bits of two reads make one number. */
  lemma {:induction false} ValueJoin(a: seq<bool>, k: nat, n: nat)
    requires k <= n <= |a|
    ensures Value(a[..n]) == Value(a[..k]) + Pow2(k) * Value(a[k..][..n - k])
    ensures k == 16 ==> Pow2(k) == 0x1_0000
    decreases k
  {
    if k > 0 {
      var t := a[1..];
      ValueJoin(t, k - 1, n - 1);
      assert a[..n][1..] == t[..n - 1] && a[..k][1..] == t[..k - 1] && a[k..] == t[k - 1..];
      DoubleTimes(Pow2(k - 1), Value(a[k..][..n - k]));
    } else {
      assert a[0..][..n] == a[..n];
    }
    if k == 16 { assert Pow2(8) == 256; Pow2Add(8, 8); }
  }

  lemma {:induction false} ZeroValue(b: seq<bool>)
    ensures Value(b) == 0 <==> forall i :: 0 <= i < |b| ==> !b[i]
  {
    if b != [] {
      ZeroValue(b[1..]);
      assert (forall i :: 0 <= i < |b| ==> !b[i]) <==> (!b[0] && forall i :: 0 <= i < |b[1..]| ==> !b[1..][i]);
    }
  }

  lemma FeedAgrees(val: Word, n: nat, ahead: seq<bool>, more: seq<bool>)
    requires Agrees(val, n, ahead)
    ensures Agrees(val, n, ahead + more)
  {
  }

  /** Consuming bits keeps the accumulator's bytes in place. */
  lemma DropAligned(input: seq<byte>, s: Snapshot, ahead: seq<bool>, n: nat)
    requires Fits(input, s, ahead) && n <= s.bitPos <= |ahead|
    ensures var m := s.bitPos - n;
            Whole(m) <= s.pos && Part(m) <= m && ahead[n..][Part(m)..] == BitsOf(input[s.pos - Whole(m)..])
  {
    hide Agrees, BitsOf, Whole, Part;
    var m := s.bitPos - n;
    WholePart(s.bitPos);
    WholePart(m);
    var k, j := Whole(s.bitPos), Whole(m);
    assert j <= k;
    var t := input[s.pos - k..];
    BitsOfDrop(t, k - j);
    assert t[k - j..] == input[s.pos - j..];
    SliceSlice(ahead, Part(s.bitPos), 8 * (k - j));
    SliceSlice(ahead, n, Part(m));
  }

  lemma SliceSlice(a: seq<bool>, i: nat, j: nat)
    requires i + j <= |a|
    ensures a[i..][j..] == a[i + j..]
  {
  }

  lemma AgreesLength(val: Word, n: nat, ahead: seq<bool>)
    requires Agrees(val, n, ahead)
    ensures n <= 63 && n <= |ahead|
  {
  }
}
