/** The meta-block header: a parser that can stop for more input after every field, against the header
    grammar of section 9.2 of RFC 7932. */
module MetaBlockHeader {
  import opened Bits
  import opened BitReader

  datatype Header = Header(isLast: bool, length: nat, isUncompressed: bool, isMetadata: bool)

  // ---------- The grammar ----------

  /** The forms of a header: an empty last block, a block of data whose length is written in 4 to 6
      nibbles, and metadata whose length is written in 0 to 3 bytes. */
  datatype Form =
    | LastEmpty
    | Data(isLast: bool, nibbles: nat, length: nat, isUncompressed: bool)
    | Metadata(isLast: bool, bytes: nat, length: nat)
  {
    /** Lengths use no more digits than they need, except that four nibbles are the least. */
    ghost predicate Legal() {
      match this
      case LastEmpty => true
      case Data(isLast, nibbles, length, isUncompressed) =>
        && 4 <= nibbles <= 6 && 1 <= length <= Pow2(4 * nibbles)
        && (nibbles > 4 ==> length > Pow2(4 * (nibbles - 1))) && (isLast ==> !isUncompressed)
      case Metadata(isLast, bytes, length) =>
        if bytes == 0 then length == 0
        else bytes <= 3 && 1 <= length <= Pow2(8 * bytes) && (bytes > 1 ==> length > Pow2(8 * (bytes - 1)))
    }

    ghost function Meaning(): Header {
      match this
      case LastEmpty => Header(true, 0, false, false)
      case Data(isLast, nibbles, length, isUncompressed) => Header(isLast, length, isUncompressed, false)
      case Metadata(isLast, bytes, length) => Header(isLast, length, false, true)
    }

    /** ISLAST, ISLASTEMPTY, MNIBBLES, MLEN - 1, ISUNCOMPRESSED; or after MNIBBLES a reserved zero,
        MSKIPBYTES and MSKIPLEN - 1; then the rest of the stream. */
    ghost function Before(rest: seq<bool>): seq<bool>
      requires Legal()
    {
      match this
      case LastEmpty => [true] + ([true] + rest)
      case Data(isLast, nibbles, length, isUncompressed) =>
        Opening(isLast)
          + (Digits(nibbles - 4, 2)
            + (Digits(length - 1, 4 * nibbles) + (if isLast then rest else [isUncompressed] + rest)))
      case Metadata(isLast, bytes, length) =>
        Opening(isLast)
          + (Digits(3, 2)
            + ([false] + (Digits(bytes, 2) + (if bytes == 0 then rest else Digits(length - 1, 8 * bytes) + rest))))
    }
  }

  ghost function Opening(isLast: bool): seq<bool> { if isLast then [true, false] else [false] }

  /** The w lowest binary digits of v, lowest first. */
  ghost function Digits(v: nat, w: nat): (r: seq<bool>)
    ensures |r| == w
    decreases w
  {
    if w == 0 then [] else [v % 2 == 1] + Digits(v / 2, w - 1)
  }

  lemma {:induction false} ValueOfDigits(v: nat, w: nat)
    ensures v < Pow2(w) ==> Value(Digits(v, w)) == v
    decreases w
  {
    if w > 0 {
      ValueOfDigits(v / 2, w - 1);
      assert Digits(v, w)[1..] == Digits(v / 2, w - 1);
    }
  }

  lemma {:induction false} DigitsOfValue(d: seq<bool>)
    ensures Digits(Value(d), |d|) == d
  {
    if d != [] { DigitsOfValue(d[1..]); }
  }

  // ---------- The parser as a function ----------

  /** Where the parser stands, with what it knows. */
  datatype Parser =
    | Start
    | AtEmpty
    | AtNibbles(isLast: bool)
    | AtLength(isLast: bool, isMetadata: bool, size: nat, i: nat, length: nat)
    | AtUncompressed(length: nat)
    | AtReserved(isLast: bool)
    | AtBytes(isLast: bool)
  {
    predicate Valid() {
      && (AtLength? ==> i < size <= 6 && length < Pow2(Unit(isMetadata) * i) && (isMetadata || 4 <= size))
    }

    /** The number of bits that it reads next. */
    function Width(): nat {
      match this
      case Start | AtEmpty | AtUncompressed(_) | AtReserved(_) => 1
      case AtNibbles(_) | AtBytes(_) => 2
      case AtLength(_, isMetadata, _, _, _) => Unit(isMetadata)
    }
  }

  function Unit(isMetadata: bool): nat { if isMetadata then 8 else 4 }

  /** The least number of digits, which may be zeros. */
  function Least(isMetadata: bool): nat { if isMetadata then 1 else 4 }

  datatype Outcome = More(p: Parser) | Accept(h: Header) | Reject

  /** The effect of the next field. */
  ghost function Next(p: Parser, v: nat): Outcome {
    match p
    case Start => More(if v != 0 then AtEmpty else AtNibbles(false))
    case AtEmpty => if v != 0 then Accept(Header(true, 0, false, false)) else More(AtNibbles(true))
    case AtNibbles(isLast) => More(if v == 3 then AtReserved(isLast) else AtLength(isLast, false, v + 4, 0, 0))
    case AtLength(isLast, isMetadata, size, i, length) =>
      if i + 1 == size && size > Least(isMetadata) && v == 0 then Reject
      else
        var n := length + Pow2(Unit(isMetadata) * i) * v;
        if i + 1 < size then More(AtLength(isLast, isMetadata, size, i + 1, n))
        else if isMetadata || isLast then Accept(Header(isLast, n + 1, false, isMetadata))
        else More(AtUncompressed(n))
    case AtUncompressed(length) => Accept(Header(false, length + 1, v != 0, false))
    case AtReserved(isLast) => if v != 0 then Reject else More(AtBytes(isLast))
    case AtBytes(isLast) =>
      if v == 0 then Accept(Header(isLast, 0, false, true)) else More(AtLength(isLast, true, v, 0, 0))
  }

  datatype Result = Finished(h: Header, rest: seq<bool>) | Suspended(p: Parser, rest: seq<bool>) | Rejected

  /** All fields that are there. */
  ghost function Run(p: Parser, b: seq<bool>): Result
    decreases |b|, 0
  {
    if |b| < p.Width() then Suspended(p, b) else Then(Next(p, Value(b[..p.Width()])), b[p.Width()..])
  }

  ghost function Then(o: Outcome, b: seq<bool>): Result
    decreases |b|, 1
  {
    match o
    case More(q) => Run(q, b)
    case Accept(h) => Finished(h, b)
    case Reject => Rejected
  }

  /** The result once more bits arrive. */
  ghost function Resume(r: Result, c: seq<bool>): Result {
    match r
    case Suspended(q, rest) => Run(q, rest + c)
    case Finished(h, rest) => Finished(h, rest + c)
    case Rejected => Rejected
  }

  /** One field. */
  lemma RunStep(p: Parser, b: seq<bool>)
    requires |b| >= p.Width()
    ensures Run(p, b) == Then(Next(p, Value(b[..p.Width()])), b[p.Width()..])
  {
  }

  /** Input may arrive in any pieces: a suspended parser goes on as if it had not stopped, and a
      finished one has not looked further. */
  lemma {:induction false} RunInPieces(p: Parser, b: seq<bool>, c: seq<bool>)
    ensures Run(p, b + c) == Resume(Run(p, b), c)
    decreases |b|
  {
    hide Next, Value;
    var w := p.Width();
    if |b| >= w {
      assert (b + c)[..w] == b[..w] && (b + c)[w..] == b[w..] + c;
      var n := Next(p, Value(b[..w]));
      if n.More? { RunInPieces(n.p, b[w..], c); }
    }
  }

  // ---------- The parser accepts exactly the grammar ----------

  /** What follows the digits of a length. */
  ghost function AfterLength(isLast: bool, isMetadata: bool, n: nat, b: seq<bool>): Result {
    if isMetadata || isLast then Finished(Header(isLast, n + 1, false, isMetadata), b) else Run(AtUncompressed(n), b)
  }

  /** All digits of a length at once: the top digit must not be zero unless the number of digits is the least. */
  lemma {:induction false} LengthField(isLast: bool, isMetadata: bool, size: nat, i: nat, length: nat, b: seq<bool>)
    requires i < size && |b| >= Unit(isMetadata) * (size - i)
    ensures var w := Unit(isMetadata) * (size - i);
            var m := Value(b[..w]);
            Run(AtLength(isLast, isMetadata, size, i, length), b) ==
              if size > Least(isMetadata) && m < Pow2(w - Unit(isMetadata)) then Rejected
              else AfterLength(isLast, isMetadata, length + Pow2(Unit(isMetadata) * i) * m, b[w..])
    decreases size - i
  {
    hide Value, Run, Pow2, Next, AfterLength;
    var u := Unit(isMetadata);
    var w := u * (size - i);
    var v := Value(b[..u]);
    var c := b[u..];
    FirstDigit(isLast, isMetadata, size, i, length, b);
    if i + 1 == size {
      assert w == u;
      NoDigits();
    } else {
      var w' := u * (size - (i + 1));
      assert w' == w - u;
      var n := length + Pow2(u * i) * v;
      LengthField(isLast, isMetadata, size, i + 1, n, c);
      assert c[w'..] == b[w..] && b[u..][..w - u] == c[..w'];
      ValueJoin(b, u, w);
      JoinLengths(length, u * i, u, v, Value(c[..w']));
      assert u * i + u == u * (i + 1);
      ValueBound(b[..u]);
      TopDigit(v, u, Value(c[..w']), w' - u);
      assert w - u == u + (w' - u);
    }
  }

  lemma NoDigits()
    ensures Pow2(0) == 1
  {
  }

  lemma FirstDigit(isLast: bool, isMetadata: bool, size: nat, i: nat, length: nat, b: seq<bool>)
    requires i < size && |b| >= Unit(isMetadata)
    ensures var u := Unit(isMetadata);
            var v := Value(b[..u]);
            var n := length + Pow2(u * i) * v;
            Run(AtLength(isLast, isMetadata, size, i, length), b) ==
              if i + 1 < size then Run(AtLength(isLast, isMetadata, size, i + 1, n), b[u..])
              else if size > Least(isMetadata) && v == 0 then Rejected
              else AfterLength(isLast, isMetadata, n, b[u..])
  {
    hide Value, Pow2, Run;
    RunStep(AtLength(isLast, isMetadata, size, i, length), b);
  }

  lemma JoinLengths(length: nat, k: nat, u: nat, v: nat, m: nat)
    ensures length + Pow2(k) * (v + Pow2(u) * m) == (length + Pow2(k) * v) + Pow2(k + u) * m
  {
    hide Pow2;
    Pow2Add(k, u);
    var x, y := Pow2(k), Pow2(u);
    SumTimes(v, y * m, x);
    assert x * (y * m) == (x * y) * m;
  }

  lemma TopDigit(v: nat, u: nat, m: nat, k: nat)
    requires v < Pow2(u)
    ensures v + Pow2(u) * m < Pow2(u + k) <==> m < Pow2(k)
  {
    Pow2Add(u, k);
    var x, y := Pow2(u), Pow2(k);
    if m < y {
      SumTimes(m, 1, x);
      Ordered(x, m + 1, y);
    } else {
      Ordered(x, y, m);
    }
  }

  lemma Ordered(x: nat, a: nat, b: nat)
    requires a <= b
    ensures x * a <= x * b
  {
  }

  /** Too few digits: the parser waits. */
  lemma {:induction false} LengthWaits(isLast: bool, isMetadata: bool, size: nat, i: nat, length: nat, b: seq<bool>)
    requires i < size && |b| < Unit(isMetadata) * (size - i)
    ensures Run(AtLength(isLast, isMetadata, size, i, length), b).Suspended?
    decreases size - i
  {
    var u := Unit(isMetadata);
    if |b| >= u {
      hide Value, Pow2, Run;
      FirstDigit(isLast, isMetadata, size, i, length, b);
      var n := length + Pow2(u * i) * Value(b[..u]);
      assert i + 1 < size;
      LengthWaits(isLast, isMetadata, size, i + 1, n, b[u..]);
    }
  }

  /** A field d in front of b. */
  lemma RunField(p: Parser, d: seq<bool>, b: seq<bool>)
    requires |d| == p.Width()
    ensures Run(p, d + b) == Then(Next(p, Value(d)), b)
  {
    hide Run, Next, Value;
    assert (d + b)[..|d|] == d && (d + b)[|d|..] == b;
    RunStep(p, d + b);
  }

  lemma OneBit(x: bool)
    ensures Value([x]) == if x then 1 else 0
  {
    assert [x][1..] == [];
  }

  lemma OpeningField(isLast: bool, b: seq<bool>)
    ensures Run(Start, Opening(isLast) + b) == Run(AtNibbles(isLast), b)
  {
    hide Run, Value;
    OneBit(isLast);
    OneBit(false);
    if isLast {
      assert Opening(isLast) + b == [true] + ([false] + b);
      RunField(Start, [true], [false] + b);
      RunField(AtEmpty, [false], b);
    } else {
      RunField(Start, [false], b);
    }
  }

  /** The digits m of a length in front of b. */
  lemma LengthDigits(isLast: bool, isMetadata: bool, size: nat, m: nat, b: seq<bool>)
    requires size > 0 && m < Pow2(Unit(isMetadata) * size)
    ensures Run(AtLength(isLast, isMetadata, size, 0, 0), Digits(m, Unit(isMetadata) * size) + b) ==
              if size > Least(isMetadata) && m < Pow2(Unit(isMetadata) * (size - 1)) then Rejected
              else AfterLength(isLast, isMetadata, m, b)
  {
    hide Run, Value, Pow2, AfterLength, Digits;
    var w := Unit(isMetadata) * size;
    var d := Digits(m, w);
    ValueOfDigits(m, w);
    assert (d + b)[..w] == d && (d + b)[w..] == b;
    LengthField(isLast, isMetadata, size, 0, 0, d + b);
    NoDigits();
    assert Unit(isMetadata) * 0 == 0;
    assert w - Unit(isMetadata) == Unit(isMetadata) * (size - 1);
  }

  lemma TwoBits(v: nat)
    requires v < 4
    ensures Value(Digits(v, 2)) == v
  {
    assert Pow2(2) == 4;
    ValueOfDigits(v, 2);
  }

  /** Every legal header is read as what it means, and nothing behind it is consumed. */
  lemma ReadsWritten(f: Form, rest: seq<bool>)
    requires f.Legal()
    ensures Run(Start, f.Before(rest)) == Finished(f.Meaning(), rest)
  {
    hide Run, Value, Pow2, Digits;
    match f
    case LastEmpty =>
      OneBit(true);
      RunField(Start, [true], [true] + rest);
      RunField(AtEmpty, [true], rest);
    case Data(isLast, nibbles, length, isUncompressed) => ReadsData(f, rest);
    case Metadata(isLast, bytes, length) => ReadsMetadata(f, rest);
  }

  lemma ReadsData(f: Form, rest: seq<bool>)
    requires f.Legal() && f.Data?
    ensures Run(Start, f.Before(rest)) == Finished(f.Meaning(), rest)
  {
    hide Run, Value, Pow2, Digits;
    var end := if f.isLast then rest else [f.isUncompressed] + rest;
    var digits := Digits(f.length - 1, 4 * f.nibbles);
    var count := Digits(f.nibbles - 4, 2);
    OpeningField(f.isLast, count + (digits + end));
    TwoBits(f.nibbles - 4);
    RunField(AtNibbles(f.isLast), count, digits + end);
    LengthDigits(f.isLast, false, f.nibbles, f.length - 1, end);
    if !f.isLast {
      OneBit(f.isUncompressed);
      RunField(AtUncompressed(f.length - 1), [f.isUncompressed], rest);
    }
  }

  lemma ReadsMetadata(f: Form, rest: seq<bool>)
    requires f.Legal() && f.Metadata?
    ensures Run(Start, f.Before(rest)) == Finished(f.Meaning(), rest)
  {
    hide Run, Value, Pow2, Digits;
    var end := if f.bytes == 0 then rest else Digits(f.length - 1, 8 * f.bytes) + rest;
    var three, count := Digits(3, 2), Digits(f.bytes, 2);
    OpeningField(f.isLast, three + ([false] + (count + end)));
    TwoBits(3);
    TwoBits(f.bytes);
    OneBit(false);
    RunField(AtNibbles(f.isLast), three, [false] + (count + end));
    RunField(AtReserved(f.isLast), [false], count + end);
    RunField(AtBytes(f.isLast), count, end);
    if f.bytes > 0 { LengthDigits(f.isLast, true, f.bytes, f.length - 1, rest); }
  }

  /** The digits of an accepted length. */
  lemma AcceptedLength(isLast: bool, isMetadata: bool, size: nat, b: seq<bool>) returns (m: nat)
    requires size > 0 && Run(AtLength(isLast, isMetadata, size, 0, 0), b).Finished?
    ensures var w := Unit(isMetadata) * size;
            && w <= |b| && m < Pow2(w) && b[..w] == Digits(m, w)
               && (size > Least(isMetadata) ==> m >= Pow2(Unit(isMetadata) * (size - 1)))
            && Run(AtLength(isLast, isMetadata, size, 0, 0), b) == AfterLength(isLast, isMetadata, m, b[w..])
  {
    hide Run, Value, Pow2, Digits, AfterLength;
    var w := Unit(isMetadata) * size;
    if |b| < w { LengthWaits(isLast, isMetadata, size, 0, 0, b); }
    m := Value(b[..w]);
    ValueBound(b[..w]);
    DigitsOfValue(b[..w]);
    assert b == b[..w] + b[w..];
    LengthDigits(isLast, isMetadata, size, m, b[w..]);
  }

  lemma {:induction false} FormAfterOpening(isLast: bool, b: seq<bool>) returns (f: Form)
    requires Run(AtNibbles(isLast), b).Finished?
    ensures f.Legal() && Run(AtNibbles(isLast), b).h == f.Meaning()
    ensures Opening(isLast) + b == f.Before(Run(AtNibbles(isLast), b).rest)
  {
    hide Run, Value, Pow2, Digits;
    var v := FirstBits(AtNibbles(isLast), b);
    var c := b[2..];
    if v == 3 {
      f := MetadataForm(isLast, c);
    } else {
      f := DataForm(isLast, v + 4, c);
    }
  }

  lemma DataForm(isLast: bool, nibbles: nat, c: seq<bool>) returns (f: Form)
    requires 4 <= nibbles <= 6 && Run(AtLength(isLast, false, nibbles, 0, 0), c).Finished?
    ensures f.Legal() && Run(AtLength(isLast, false, nibbles, 0, 0), c).h == f.Meaning()
    ensures Opening(isLast) + (Digits(nibbles - 4, 2) + c) ==
            f.Before(Run(AtLength(isLast, false, nibbles, 0, 0), c).rest)
  {
    hide Pow2, Digits, Value, Run;
    var w := 4 * nibbles;
    var m := AcceptedLength(isLast, false, nibbles, c);
    var d := c[w..];
    assert c == Digits(m, w) + d;
    if isLast {
      f := Data(isLast, nibbles, m + 1, false);
    } else {
      var x := FirstBit(AtUncompressed(m), d);
      f := Data(isLast, nibbles, m + 1, x);
    }
  }

  /** A parser that reads one bit and has not stopped. */
  lemma FirstBit(p: Parser, d: seq<bool>) returns (x: bool)
    requires !Run(p, d).Suspended? && p.Width() == 1
    ensures d != [] && x == d[0] && d == [x] + d[1..] && Run(p, d) == Then(Next(p, if x then 1 else 0), d[1..])
  {
    x := d[0];
    RunStep(p, d);
    OneBit(x);
    assert d[..1] == [x];
  }

  /** A parser that reads two bits and has not stopped. */
  lemma FirstBits(p: Parser, d: seq<bool>) returns (v: nat)
    requires !Run(p, d).Suspended? && p.Width() == 2
    ensures v < 4 && |d| >= 2 && d == Digits(v, 2) + d[2..] && Run(p, d) == Then(Next(p, v), d[2..])
  {
    assert |d| >= 2;
    hide Run, Digits;
    v := Value(d[..2]);
    RunStep(p, d);
    DigitsOfValue(d[..2]);
    ValueBound(d[..2]);
    assert Pow2(2) == 4;
    assert d == d[..2] + d[2..];
  }

  lemma BytesForm(isLast: bool, d: seq<bool>) returns (f: Form)
    requires Run(AtBytes(isLast), d).Finished?
    ensures f.Legal() && Run(AtBytes(isLast), d).h == f.Meaning()
    ensures Opening(isLast) + (Digits(3, 2) + ([false] + d)) == f.Before(Run(AtBytes(isLast), d).rest)
  {
    hide Digits, Run, Value, Pow2;
    var v := FirstBits(AtBytes(isLast), d);
    var e := d[2..];
    if v == 0 {
      f := Metadata(isLast, 0, 0);
    } else {
      var m := AcceptedLength(isLast, true, v, e);
      assert e == Digits(m, 8 * v) + e[8 * v..];
      f := Metadata(isLast, v, m + 1);
    }
  }

  lemma MetadataForm(isLast: bool, c: seq<bool>) returns (f: Form)
    requires Run(AtReserved(isLast), c).Finished?
    ensures f.Legal() && Run(AtReserved(isLast), c).h == f.Meaning()
    ensures Opening(isLast) + (Digits(3, 2) + c) == f.Before(Run(AtReserved(isLast), c).rest)
  {
    hide Digits, Run, Value, Pow2;
    var x := FirstBit(AtReserved(isLast), c);
    f := BytesForm(isLast, c[1..]);
  }

  /** Whatever the parser accepts is a legal header followed by the bits it left. */
  lemma FormOf(b: seq<bool>) returns (f: Form)
    requires Run(Start, b).Finished?
    ensures f.Legal() && Run(Start, b).h == f.Meaning() && b == f.Before(Run(Start, b).rest)
  {
    hide Run, Value, Digits, Pow2;
    var x := FirstBit(Start, b);
    var c := b[1..];
    if x {
      var y := FirstBit(AtEmpty, c);
      if y {
        f := LastEmpty;
      } else {
        f := FormAfterOpening(true, c[1..]);
        assert b == Opening(true) + c[1..];
      }
    } else {
      f := FormAfterOpening(false, c);
      assert b == Opening(false) + c;
    }
  }

  /** The parser accepts a bit sequence with a given header and rest if and only if some legal form
      with that meaning is written in front of that rest. */
  lemma ParserIsGrammar(b: seq<bool>, h: Header, rest: seq<bool>)
    ensures Run(Start, b) == Finished(h, rest) <==>
            exists f: Form :: f.Legal() && f.Meaning() == h && b == f.Before(rest)
  {
    hide Run, Value, Digits, Pow2;
    if Run(Start, b) == Finished(h, rest) {
      var f := FormOf(b);
    }
    forall f: Form | f.Legal() && f.Meaning() == h && b == f.Before(rest)
      ensures Run(Start, b) == Finished(h, rest)
    {
      ReadsWritten(f, rest);
    }
  }

  // ---------- The parser as the decoder runs it ----------

  datatype Substate = None | Empty | Nibbles | Size | Uncompressed | Reserved | Bytes | MetadataSize
  {
    function Rank(): nat {
      match this
      case None => 7
      case Empty => 6
      case Nibbles => 5
      case Size => 4
      case Uncompressed => 3
      case Reserved => 2
      case Bytes => 1
      case MetadataSize => 0
    }
  }

  datatype Status = Success | NeedsMoreInput | Error

  class HeaderParser {
    const br: Reader
    var substate: Substate
    var isLast: bool
    var remainingLen: nat
    var isUncompressed: bool
    var isMetadata: bool
    var sizeNibbles: nat
    var loopCounter: nat

    /** The parser's place in the header. */
    ghost function Place(): Parser reads this {
      match substate
      case None => Start
      case Empty => AtEmpty
      case Nibbles => AtNibbles(isLast)
      case Size => AtLength(isLast, false, sizeNibbles, loopCounter, remainingLen)
      case Uncompressed => AtUncompressed(remainingLen)
      case Reserved => AtReserved(isLast)
      case Bytes => AtBytes(isLast)
      case MetadataSize => AtLength(isLast, true, sizeNibbles, loopCounter, remainingLen)
    }

    ghost predicate Valid() reads this, br {
      && br.Valid() && Place().Valid()
      && (substate != None ==> !isUncompressed && isMetadata == (substate in {Reserved, Bytes, MetadataSize}))
      && (substate in {Empty, Nibbles, Reserved, Bytes} ==> remainingLen == 0)
      && (substate == Empty ==> isLast) && (substate == Uncompressed ==> !isLast)
    }

    /** The state reached is what the parser as a function reaches. */
    ghost predicate Reached(status: Status, r: Result) reads this, br {
      match status
      case Success =>
        substate == None && r == Finished(Header(isLast, remainingLen, isUncompressed, isMetadata), br.ahead)
      case NeedsMoreInput => r == Suspended(Place(), br.ahead)
      case Error => r == Rejected
    }

    constructor (reader: Reader)
      requires reader.Valid()
      ensures Valid() && br == reader && substate == None
    {
      br := reader;
      substate, isLast, remainingLen, isUncompressed, isMetadata, sizeNibbles, loopCounter :=
        None, false, 0, false, false, 0, 0;
    }

    /** The digits of a length; it returns when they run out or are all read. */
    method ReadDigits() returns (status: Status)
      requires Valid() && substate in {Size, MetadataSize}
      modifies this`remainingLen, this`loopCounter, br`val, br`bitPos, br`pos, br`ahead
      ensures br.Valid() && Run(old(Place()), old(br.ahead)) ==
              match status
              case Success => AfterLength(isLast, isMetadata, remainingLen, br.ahead)
              case NeedsMoreInput => Suspended(Place(), br.ahead)
              case Error => Rejected
      ensures status == NeedsMoreInput ==> Valid()
    {
      hide Run, Value, Pow2, AfterLength, Fits;
      var i := loopCounter;
      var u := Unit(isMetadata);
      ghost var r := Run(Place(), br.ahead);
      while i < sizeNibbles
        invariant br.Valid() && i <= sizeNibbles && remainingLen < Pow2(u * i)
        invariant i < sizeNibbles ==> r == Run(AtLength(isLast, isMetadata, sizeNibbles, i, remainingLen), br.ahead)
        invariant i == sizeNibbles ==> r == AfterLength(isLast, isMetadata, remainingLen, br.ahead)
      {
        ghost var a := br.ahead;
        var bits, ok := br.SafeReadBits(u);
        if !ok {
          loopCounter := i;
          NotEnough(Place(), br.ahead);
          return NeedsMoreInput;
        }
        FirstDigit(isLast, isMetadata, sizeNibbles, i, remainingLen, a);
        if i + 1 == sizeNibbles && sizeNibbles > Least(isMetadata) && bits == 0 { return Error; }
        ValueBound(a[..u]);
        DigitFits(remainingLen, u, i, bits);
        remainingLen := remainingLen + Pow2(u * i) * bits;
        i := i + 1;
      }
      status := Success;
    }

    /** One field other than a length; when there is more to parse, done is false. */
    method ReadField() returns (status: Status, done: bool)
      requires Valid() && substate !in {Size, MetadataSize}
      modifies this, br`val, br`bitPos, br`pos, br`ahead
      ensures br.Valid() && (status != Error ==> Valid())
              && (!done ==> Valid() && substate.Rank() < old(substate.Rank()))
      ensures if done then Reached(status, Run(old(Place()), old(br.ahead)))
              else Run(old(Place()), old(br.ahead)) == Run(Place(), br.ahead)
    {
      hide Run, Value, Pow2, Fits;
      ghost var p, a := Place(), br.ahead;
      var bits, ok := br.SafeReadBits(if substate in {Nibbles, Bytes} then 2 else 1);
      if !ok {
        NotEnough(p, a);
        return NeedsMoreInput, true;
      }
      RunStep(p, a);
      ValueBound(a[..p.Width()]);
      SmallPowers();
      status, done := Success, false;
      match substate
      case None =>
        isLast, remainingLen, isUncompressed, isMetadata := bits != 0, 0, false, false;
        substate := if isLast then Empty else Nibbles;
      case Empty =>
        done := bits != 0;
        substate := if done then None else Nibbles;
      case Nibbles =>
        sizeNibbles, loopCounter := bits + 4, 0;
        isMetadata := bits == 3;
        substate := if bits == 3 then Reserved else Size;
      case Uncompressed =>
        isUncompressed := bits != 0;
        remainingLen := remainingLen + 1;
        substate, done := None, true;
      case Reserved =>
        if bits != 0 { return Error, true; }
        substate := Bytes;
      case Bytes =>
        done := bits == 0;
        sizeNibbles, loopCounter := bits, 0;
        substate := if done then None else MetadataSize;
    }

    /** Parses as far as the input reaches. */
    method DecodeMetaBlockLength() returns (status: Status)
      requires Valid()
      modifies this, br`val, br`bitPos, br`pos, br`ahead
      ensures br.Valid() && Reached(status, Run(old(Place()), old(br.ahead))) && (status != Error ==> Valid())
    {
      hide Run, Value, Pow2, Fits;
      ghost var r := Run(Place(), br.ahead);
      while true
        invariant Valid() && r == Run(Place(), br.ahead)
        decreases substate.Rank()
      {
        if substate in {Size, MetadataSize} {
          status := ReadDigits();
          if status != Success { return; }
          if isMetadata || isLast {
            remainingLen := remainingLen + 1;
            substate := None;
            return;
          }
          substate := Uncompressed;
        } else {
          var done;
          status, done := ReadField();
          if done { return; }
        }
      }
    }

    /** Parses a header from input that arrives in chunks, with a suspension before each. The result and
        the bits left are those of a single parse of all the input. */
    method ParseChunks(chunks: seq<seq<byte>>) returns (status: Status, used: nat)
      requires Valid()
      modifies this, br
      ensures used <= |chunks| && (status == NeedsMoreInput ==> used == |chunks|)
      ensures Run(old(Place()), old(br.ahead) + AllBits(chunks)) ==
              match status
              case Success =>
                Finished(Header(isLast, remainingLen, isUncompressed, isMetadata), br.ahead + AllBits(chunks[used..]))
              case NeedsMoreInput => Suspended(Place(), br.ahead)
              case Error => Rejected
    {
      hide Run, Fits, BitsOf, Valid, Place;
      ghost var p, a, all := Place(), br.ahead, AllBits(chunks);
      used := 0;
      status := DecodeMetaBlockLength();
      RunInPieces(p, a, all);
      WaitsShort(p, a);
      assert chunks[0..] == chunks;
      while status == NeedsMoreInput && used < |chunks|
        invariant used <= |chunks| && (status != Error ==> Valid())
                  && (status == NeedsMoreInput ==> |br.ahead| < Place().Width())
        invariant Run(p, a + all) == Pending(status, AllBits(chunks[used..]))
      {
        ghost var rest := AllBits(chunks[used + 1..]);
        assert chunks[used..][1..] == chunks[used + 1..];
        assert br.ahead + (BitsOf(chunks[used]) + rest) == (br.ahead + BitsOf(chunks[used])) + rest;
        Feed(chunks[used]);
        ghost var q, b := Place(), br.ahead;
        status := DecodeMetaBlockLength();
        RunInPieces(q, b, rest);
        WaitsShort(q, b);
        used := used + 1;
      }
      if status == NeedsMoreInput {
        assert br.ahead + [] == br.ahead;
        NotEnough(Place(), br.ahead);
      }
    }

    method Feed(chunk: seq<byte>)
      requires Valid()
      modifies br
      ensures Valid() && br.ahead == old(br.ahead) + BitsOf(chunk)
    {
      hide Fits;
      br.Feed(chunk);
    }

    /** What the parser as a function makes of the bits left and those to come. */
    ghost function Pending(status: Status, rest: seq<bool>): Result reads this, br {
      match status
      case Success => Finished(Header(isLast, remainingLen, isUncompressed, isMetadata), br.ahead + rest)
      case NeedsMoreInput => Run(Place(), br.ahead + rest)
      case Error => Rejected
    }
  }

  lemma {:induction false} WaitsShort(p: Parser, b: seq<bool>)
    ensures var r := Run(p, b); r.Suspended? ==> |r.rest| < r.p.Width()
    decreases |b|
  {
    hide Next, Value;
    var w := p.Width();
    if |b| >= w {
      var n := Next(p, Value(b[..w]));
      if n.More? { WaitsShort(n.p, b[w..]); }
    }
  }

  lemma SmallPowers()
    ensures Pow2(0) == 1 && Pow2(1) == 2 && Pow2(2) == 4
  {
  }

  lemma NotEnough(p: Parser, b: seq<bool>)
    requires |b| < p.Width()
    ensures Run(p, b) == Suspended(p, b)
  {
  }

  /** The digits below are smaller, so that adding the next digit is the same as setting its bits. */
  lemma DigitFits(n: nat, u: nat, i: nat, v: nat)
    requires n < Pow2(u * i) && v < Pow2(u)
    ensures n + Pow2(u * i) * v < Pow2(u * (i + 1))
  {
    Pow2Add(u * i, u);
    assert u * i + u == u * (i + 1);
    SumTimes(v, 1, Pow2(u * i));
    Ordered(Pow2(u * i), v + 1, Pow2(u));
  }
}
