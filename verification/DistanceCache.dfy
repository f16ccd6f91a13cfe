/** The last four distances: the encoder shifts a cache, the decoder turns a ring. Over any run of
    references both hold the same four distances, and every short code means the same on both sides. */
module DistanceCache {
  import opened Distance

  // ---------- What a code means ----------

  /** The distance of a code, given the last four distances, latest first (section 4 of RFC 7932). */
  function Meaning(code: nat, last: seq<int>): int
    requires |last| == 4
  {
    if code < 4 then last[code]
    else if code < 10 then last[0] + Shift(code - 4)
    else if code < 16 then last[1] + Shift(code - 10)
    else code - SHORT_CODES + 1
  }

  /** -1, +1, -2, +2, -3, +3. */
  function Shift(i: nat): int { if i % 2 == 0 then -1 - i / 2 else 1 + i / 2 }

  /** The last distances after a reference: code 0 repeats the latest and changes nothing. */
  function Pushed(last: seq<int>, code: nat, distance: int): (r: seq<int>)
    requires |last| == 4
    ensures |r| == 4
  {
    if code == 0 then last else [distance] + last[..3]
  }

  // ---------- The encoder ----------

  /** Digit i of a packed table of hexadecimal digits. */
  function Digit(table: nat, i: nat): nat {
    match i
    case 0 => table % 16
    case 1 => table / 0x10 % 16
    case 2 => table / 0x100 % 16
    case 3 => table / 0x1000 % 16
    case 4 => table / 0x1_0000 % 16
    case 5 => table / 0x10_0000 % 16
    case 6 => table / 0x100_0000 % 16
    case _ => 0
  }

  /** The code for a distance: offsets from the last two distances come before the third and fourth. */
  function ComputeDistanceCode(distance: nat, maxDistance: nat, cache: seq<int>): nat
    requires |cache| == 4 && distance >= 1
  {
    if distance <= maxDistance then
      var offset0, offset1 := distance + 3 - cache[0], distance + 3 - cache[1];
      if distance == cache[0] then 0
      else if distance == cache[1] then 1
      else if 0 <= offset0 < 7 then Digit(0x9750468, offset0)
      else if 0 <= offset1 < 7 then Digit(0xFDB1ACE, offset1)
      else if distance == cache[2] then 2
      else if distance == cache[3] then 3
      else distance + SHORT_CODES - 1
    else distance + SHORT_CODES - 1
  }

  /** The packed tables hold the codes with these offsets. */
  lemma Tables(x: nat)
    requires x < 7
    ensures x != 3 ==> 4 <= Digit(0x9750468, x) < 10 && Shift(Digit(0x9750468, x) - 4) == x - 3
    ensures x != 3 ==> 10 <= Digit(0xFDB1ACE, x) < 16 && Shift(Digit(0xFDB1ACE, x) - 10) == x - 3
  {
  }

  /** Every code means the distance it was computed for, and it is zero only for the latest distance. */
  lemma CodeMeans(distance: nat, maxDistance: nat, cache: seq<int>)
    requires |cache| == 4 && distance >= 1
    ensures var code := ComputeDistanceCode(distance, maxDistance, cache);
            && Meaning(code, cache) == distance && (code == 0 <==> distance <= maxDistance && distance == cache[0])
            && (distance > maxDistance ==> code >= SHORT_CODES)
  {
    hide Digit, Shift;
    var offset0, offset1 := distance + 3 - cache[0], distance + 3 - cache[1];
    if 0 <= offset0 < 7 { Tables(offset0); }
    if 0 <= offset1 < 7 { Tables(offset1); }
  }

  class Encoder {
    var distCache: seq<int>

    predicate Valid() reads this { |distCache| == 4 }

    constructor ()
      ensures Valid() && distCache == [4, 11, 15, 16]
    {
      distCache := [4, 11, 15, 16];
    }

    /** The code of a reference; a distance inside the window enters the cache unless it is the latest. */
    method Encode(distance: nat, maxDistance: nat) returns (code: nat)
      requires Valid() && distance >= 1
      modifies this
      ensures Valid() && Meaning(code, old(distCache)) == distance && (distance > maxDistance ==> code >= SHORT_CODES)
      ensures code == 0 <==> distance <= maxDistance && distance == old(distCache)[0]
      ensures distance <= maxDistance ==> forall c: nat :: c < 16 && Meaning(c, old(distCache)) == distance ==>
                Preference(code) <= Preference(c)
      ensures code >= 16 ==> code == distance + 15
      ensures distCache == if distance <= maxDistance then Pushed(old(distCache), code, distance) else old(distCache)
    {
      hide ComputeDistanceCode, Meaning;
      CodeMeans(distance, maxDistance, distCache);
      code := ComputeDistanceCode(distance, maxDistance, distCache);
      CodeIsPreferred(distance, maxDistance, distCache, 16);
      forall c: nat | c < 16 && distance <= maxDistance && Meaning(c, distCache) == distance
        ensures Preference(code) <= Preference(c)
      {
        CodeIsPreferred(distance, maxDistance, distCache, c);
      }
      if distance <= maxDistance && code > 0 {
        distCache := distCache[3 := distCache[2]];
        distCache := distCache[2 := distCache[1]];
        distCache := distCache[1 := distCache[0]];
        distCache := distCache[0 := distance];
      }
    }
  }

  /** The order in which codes are preferred: the last two distances, those near them, then the third and fourth. */
  ghost function Preference(code: nat): nat {
    if code < 2 then code else if code == 2 then 14 else if code == 3 then 15 else if code < 16 then code - 2 else 16
  }

  /** A distance inside the window has a short code whenever one means it, and then the preferred one. */
  lemma CodeIsPreferred(distance: nat, maxDistance: nat, cache: seq<int>, c: nat)
    requires |cache| == 4 && distance >= 1
    ensures var code := ComputeDistanceCode(distance, maxDistance, cache);
            && (distance <= maxDistance && c < 16 && Meaning(c, cache) == distance ==>
               Preference(code) <= Preference(c))
            && (code >= 16 ==> code == distance + 15)
  {
    hide Digit, Shift;
    var offset0, offset1 := distance + 3 - cache[0], distance + 3 - cache[1];
    if 0 <= offset0 < 7 { Tables(offset0); }
    if 0 <= offset1 < 7 { Tables(offset1); }
    if 4 <= c < 10 { ShiftBound(c - 4); }
    if 10 <= c < 16 { ShiftBound(c - 10); }
    if distance <= maxDistance && 4 <= c < 16 && Meaning(c, cache) == distance {
      var x := if c < 10 then offset0 else offset1;
      Tables(x);
      var base := if c < 10 then 4 else 10;
      var d := if c < 10 then Digit(0x9750468, x) else Digit(0xFDB1ACE, x);
      ShiftInjective(c - base, d - base);
    }
  }

  lemma ShiftBound(i: nat)
    requires i < 6
    ensures -3 <= Shift(i) <= 3 && Shift(i) != 0
  {
  }

  lemma ShiftInjective(i: nat, j: nat)
    requires i < 6 && j < 6 && Shift(i) == Shift(j)
    ensures i == j
  {
  }

  // ---------- The decoder ----------

  class Decoder {
    var distRB: seq<int>
    var distRBIdx: int
    var distanceContext: nat

    predicate Valid() reads this { |distRB| == 4 }

    /** The last four distances, latest first. */
    function Last(): (r: seq<int>)
      reads this
      requires Valid()
      ensures |r| == 4
    {
      [distRB[(distRBIdx - 1) % 4], distRB[(distRBIdx - 2) % 4], distRB[(distRBIdx - 3) % 4],
       distRB[(distRBIdx - 4) % 4]]
    }

    constructor ()
      ensures Valid() && Last() == [4, 11, 15, 16]
    {
      distRB, distRBIdx, distanceContext := [16, 15, 11, 4], 0, 0;
    }

    /** Between reading a code and using it, the ring is turned back by one if the code repeats the
        latest distance. */
    ghost predicate Turned(last: seq<int>, repeat: bool) reads this {
      Valid() && distanceContext == (if repeat then 1 else 0) && |last| == 4 &&
      last == [distRB[(distRBIdx + distanceContext - 1) % 4], distRB[(distRBIdx + distanceContext - 2) % 4],
               distRB[(distRBIdx + distanceContext - 3) % 4], distRB[(distRBIdx + distanceContext - 4) % 4]]
    }

    /** A command without a distance symbol. */
    method Implicit() returns (distance: int)
      requires Valid()
      modifies this`distRBIdx, this`distanceContext
      ensures Turned(old(Last()), true) && distance == old(Last())[0]
    {
      distanceContext := 1;
      distRBIdx := distRBIdx - 1;
      distance := distRB[distRBIdx % 4];
    }

    /** A short code. */
    method TakeDistanceFromRingBuffer(code: nat) returns (distance: int)
      requires Valid() && code < SHORT_CODES
      modifies this`distRBIdx, this`distanceContext
      ensures Turned(old(Last()), code == 0)
      ensures distance == if code >= 4 && Meaning(code, old(Last())) <= 0 then 0x7FFFFFFF
              else Meaning(code, old(Last()))
    {
      distanceContext := 0;
      if code <= 3 {
        distanceContext := if code == 0 then 1 else 0;
        distance := distRB[(distRBIdx - (code - 3)) % 4];
        distRBIdx := distRBIdx - distanceContext;
        SameSlot(old(distRBIdx), code);
      } else {
        var indexDelta, base := 3, code - 4;
        if code >= 10 { indexDelta, base := 2, code - 10; }
        OffsetDigits(base);
        distance := distRB[(distRBIdx + indexDelta) % 4] + (Digit(0x605142, base) - 3);
        if distance <= 0 { distance := 0x7FFFFFFF; }
      }
    }

    /** A copy from the ring buffer enters its distance. */
    method Push(distance: int, ghost last: seq<int>, ghost repeat: bool)
      requires Turned(last, repeat) && (repeat ==> distance == last[0])
      modifies this`distRB, this`distRBIdx
      ensures Valid() && Last() == if repeat then last else [distance] + last[..3]
    {
      Slots(distRBIdx);
      distRB := distRB[distRBIdx % 4 := distance];
      distRBIdx := distRBIdx + 1;
    }

    /** A dictionary reference turns the ring forward again. */
    method SkipDictionary(ghost last: seq<int>, ghost repeat: bool)
      requires Turned(last, repeat)
      modifies this`distRBIdx
      ensures Valid() && Last() == last
    {
      distRBIdx := distRBIdx + distanceContext;
    }

    /** A whole reference: implicit, a short code, or a symbol of the distance table with its extra bits;
        inside the window it enters the ring. */
    method Decode(x: Prefix, p: Params, implicit: bool, maxDistance: nat) returns (distance: int)
      requires Valid() && (implicit ==> x.symbol == 0)
      modifies this
      ensures Valid() && (distance == Referred(x, p, old(Last())) ||
                          (4 <= x.symbol < SHORT_CODES && Referred(x, p, old(Last())) <= 0 && distance == 0x7FFFFFFF))
      ensures Last() == if distance <= maxDistance then Pushed(old(Last()), x.symbol, distance) else old(Last())
    {
      hide Digit, Shift, DecodedDistance;
      ghost var last := Last();
      if implicit {
        distance := Implicit();
      } else if x.symbol < SHORT_CODES {
        distance := TakeDistanceFromRingBuffer(x.symbol);
      } else {
        distanceContext := 0;
        distance := DecodedDistance(x, p);
      }
      if distance <= maxDistance {
        Push(distance, last, x.symbol == 0);
      } else {
        SkipDictionary(last, x.symbol == 0);
      }
    }
  }

  /** The distance that a symbol with its extra bits stands for. */
  function Referred(x: Prefix, p: Params, last: seq<int>): int
    requires |last| == 4
  {
    if x.symbol < SHORT_CODES then Meaning(x.symbol, last) else DecodedDistance(x, p)
  }

  /** Prefix coding keeps what a code means, and which code repeats the latest distance. */
  lemma PrefixKeepsMeaning(code: nat, p: Params, last: seq<int>)
    requires |last| == 4
    ensures Referred(PrefixEncode(code, p), p, last) == Meaning(code, last)
    ensures PrefixEncode(code, p).symbol == 0 <==> code == 0
  {
    hide PrefixEncode, DecodedDistance, Shift;
    if code < SHORT_CODES {
      ShortEncode(code, p);
    } else {
      PrefixRoundTrip(code - SHORT_CODES + 1, p);
    }
  }

  /** The four slots of the ring are different. */
  lemma Slots(i: int)
    ensures (i - 1) % 4 != i % 4 && (i - 2) % 4 != i % 4 && (i - 3) % 4 != i % 4 && (i - 4) % 4 == i % 4
    ensures (i + 1 - 2) % 4 == (i - 1) % 4 && (i + 1 - 3) % 4 == (i - 2) % 4 && (i + 1 - 4) % 4 == (i - 3) % 4
  {
  }

  lemma SameSlot(i: int, code: nat)
    requires code <= 3
    ensures (i - (code - 3)) % 4 == (i - 1 - code) % 4
  {
  }

  lemma OffsetDigits(base: nat)
    requires base < 6
    ensures Digit(0x605142, base) - 3 == Shift(base)
  {
  }

  // ---------- Both sides over a run ----------

  /** A reference: its distance, the largest distance into the history, the parameters of its meta-block,
      and whether a code of zero is left implicit. */
  datatype Reference = Reference(distance: nat, maxDistance: nat, params: Params, implicit: bool)

  /** A reference inside the window enters the last four distances, unless it repeats the latest one. */
  ghost function Entered(last: seq<int>, r: Reference): (n: seq<int>)
    requires |last| == 4
    ensures |n| == 4
  {
    if r.distance > r.maxDistance || r.distance == last[0] then last else [r.distance] + last[..3]
  }

  /** The last four distances after k references. */
  ghost function LastFour(refs: seq<Reference>, k: nat): (n: seq<int>)
    requires k <= |refs|
    ensures |n| == 4
  {
    if k == 0 then [4, 11, 15, 16] else Entered(LastFour(refs, k - 1), refs[k - 1])
  }

  /** One reference through both sides. */
  method Transmit(e: Encoder, d: Decoder, r: Reference) returns (distance: int)
    requires e.Valid() && d.Valid() && d.Last() == e.distCache && r.distance >= 1 && e as object != d
    modifies e, d
    ensures e.Valid() && d.Valid() && distance == r.distance && d.Last() == e.distCache == Entered(old(e.distCache), r)
  {
    hide Meaning, Referred, PrefixEncode, Decoder.Last;
    var code := e.Encode(r.distance, r.maxDistance);
    PrefixKeepsMeaning(code, r.params, d.Last());
    distance := d.Decode(PrefixEncode(code, r.params), r.params, r.implicit && code == 0, r.maxDistance);
  }

  /** Over any run of references the decoder recovers every distance, and after each of them both sides
      hold the same last four distances. */
  method RunReferences(refs: seq<Reference>) returns (decoded: seq<int>, caches: seq<seq<int>>, rings: seq<seq<int>>)
    requires forall r <- refs :: r.distance >= 1
    ensures |decoded| == |caches| == |rings| == |refs|
    ensures forall i :: 0 <= i < |refs| ==> decoded[i] == refs[i].distance
    ensures forall i :: 0 <= i < |refs| ==> caches[i] == rings[i] == LastFour(refs, i + 1)
  {
    hide Entered;
    var e := new Encoder();
    var d := new Decoder();
    decoded, caches, rings := [], [], [];
    hide Decoder.Last;
    for i := 0 to |refs|
      invariant e.Valid() && d.Valid() && d.Last() == e.distCache == LastFour(refs, i) && fresh(e) && fresh(d)
      invariant |decoded| == |caches| == |rings| == i && forall k :: 0 <= k < i ==> decoded[k] == refs[k].distance
      invariant forall k :: 0 <= k < i ==> caches[k] == rings[k] == LastFour(refs, k + 1)
    {
      var distance := Transmit(e, d, refs[i]);
      decoded, caches, rings := decoded + [distance], caches + [e.distCache], rings + [d.Last()];
    }
  }
}
