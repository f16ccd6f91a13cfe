/** Reading the lengths of the code-length code: a static prefix code in a fixed order, resumable, accepted exactly
    when the lengths are those of one symbol or of a complete code. */
module LengthHeader {
  import opened Arithmetic
  import opened Bits
  import opened PrefixCode
  import opened HuffmanTable
  import opened BitReader
  import opened CodeLengths
  import opened LengthReader
  import opened LengthCode

  // ---------- The static code ----------

  const PREFIX_LENGTH: seq<nat> := [2, 2, 2, 3, 2, 2, 2, 4, 2, 2, 2, 3, 2, 2, 2, 4]
  const PREFIX_VALUE: seq<nat> := [0, 4, 3, 2, 0, 4, 3, 1, 0, 4, 3, 2, 0, 4, 3, 5]

  /** The order in which the lengths are sent. */
  const SENT: seq<nat> := [1, 2, 3, 4, 0, 5, 17, 6, 16, 7, 8, 9, 10, 11, 12, 13, 14, 15]

  /** That is 1 to 4, 0, 5, 17, 6 and 16, and then the others in ascending order. */
  lemma SentOrder(i: nat)
    requires i < 18
    ensures |SENT| == 18 && i < 4 ==> SENT[i] == i + 1
    ensures |SENT| == 18 && SENT[4] == 0 && SENT[5] == 5 && SENT[6] == 17 && SENT[7] == 6 && SENT[8] == 16
    ensures |SENT| == 18 && i >= 9 ==> SENT[i] == i - 2
  {
  }

  function StaticEntry(ix: nat): Entry
    requires ix < 16
  {
    Entry(PREFIX_LENGTH[ix], PREFIX_VALUE[ix])
  }

  /** The static code word by word. */
  lemma StaticByBits(ix: nat)
    requires ix < 16
    ensures StaticEntry(ix) ==
            if ix % 4 == 0 then Entry(2, 0) else if ix % 4 == 1 then Entry(2, 4) else if ix % 4 == 2 then Entry(2, 3)
            else if ix % 8 == 3 then Entry(3, 2) else if ix == 7 then Entry(4, 1) else Entry(4, 5)
  {
  }

  lemma LowShort(v: nat)
    ensures Low(v, 2) == v % 4 && Low(v, 3) == v % 8 && Low(v, 4) == v % 16
  {
    assert Pow2(2) == 4 && Pow2(3) == 8;
    assert Pow2(4) == 16;
    hide Low, High, Pow2;
    HighLow(v, 2);
    HighLow(v, 3);
    HighLow(v, 4);
    RemainderIs(High(v, 2), 4, Low(v, 2), v);
    RemainderIs(High(v, 3), 8, Low(v, 3), v);
    RemainderIs(High(v, 4), 16, Low(v, 4), v);
  }

  lemma StaticByLow(v: nat)
    ensures StaticEntry(v % 16) ==
            if Low(v, 2) == 0 then Entry(2, 0) else if Low(v, 2) == 1 then Entry(2, 4) else if Low(v, 2) == 2 then
              Entry(2, 3)
            else if Low(v, 3) == 3 then Entry(3, 2) else if Low(v, 4) == 7 then Entry(4, 1) else Entry(4, 5)
  {
    hide StaticEntry, Low;
    StaticByBits(v % 16);
    LowShort(v);
    LowShort(v % 16);
    LowLow(v, 2, 4);
    LowLow(v, 3, 4);
  }

  lemma SameStatic(v: nat, w: nat)
    requires Low(v, StaticEntry(v % 16).bits) == Low(w, StaticEntry(v % 16).bits)
    ensures StaticEntry(w % 16) == StaticEntry(v % 16)
  {
    hide StaticEntry, Low;
    StaticByLow(v);
    StaticByLow(w);
    LowLow(v, 2, 3);
    LowLow(w, 2, 3);
    LowLow(v, 2, 4);
    LowLow(w, 2, 4);
    LowLow(v, 3, 4);
    LowLow(w, 3, 4);
  }

  /** The length at the head of a bit sequence, if its code word is whole. */
  ghost function LengthAt(a: seq<bool>): (r: Option<Entry>)
    ensures r.Some? ==> r.value.value <= LENGTH_BITS && r.value.bits <= |a|
  {
    var e := StaticEntry(Value(a) % 16);
    StaticByBits(Value(a) % 16);
    if e.bits <= |a| then Some(e) else None
  }

  /** More input does not change a length that is there. */
  lemma LengthIsStable(a: seq<bool>, z: seq<bool>)
    ensures LengthAt(a).Some? ==> LengthAt(a + z) == LengthAt(a)
  {
    hide StaticEntry, Value, Low;
    var n := StaticEntry(Value(a) % 16).bits;
    if n <= |a| {
      ValueLow(a, n);
      ValueLow(a + z, n);
      assert (a + z)[..n] == a[..n];
      SameStatic(Value(a), Value(a + z));
    }
  }

  // ---------- What the lengths read so far mean ----------

  /** Lengths are sent from position skip of the order on. */
  predicate Legal(skip: nat, values: seq<nat>) {
    skip + |values| <= LENGTH_SYMBOLS && forall i :: 0 <= i < |values| ==> values[i] <= LENGTH_BITS
  }

  /** The lengths by symbol; those not sent are zero. */
  function ByName(skip: nat, values: seq<nat>): (lens: seq<nat>)
    requires Legal(skip, values)
    ensures |lens| == LENGTH_SYMBOLS
  {
    if values == [] then Zeros(LENGTH_SYMBOLS)
    else
      var n := |values| - 1;
      assert SENT[skip + n] < LENGTH_SYMBOLS;
      ByName(skip, values[..n])[SENT[skip + n] := values[n]]
  }

  /** The share of the code space that a length takes: 32 >> v. */
  function Share(v: nat): nat
    requires v <= LENGTH_BITS
  {
    [0, 16, 8, 4, 2, 1][v]
  }

  function SpaceLeft(values: seq<nat>): int
    requires forall i :: 0 <= i < |values| ==> values[i] <= LENGTH_BITS
  {
    if values == [] then 32 else SpaceLeft(values[..|values| - 1]) - Share(values[|values| - 1])
  }

  function Used(values: seq<nat>): nat {
    if values == [] then 0 else Used(values[..|values| - 1]) + if values[|values| - 1] == 0 then 0 else 1
  }

  /** More lengths are needed as long as there are some to send and code space is left. */
  predicate More(skip: nat, values: seq<nat>)
    requires Legal(skip, values)
  {
    skip + |values| < LENGTH_SYMBOLS && SpaceLeft(values) > 0
  }

  lemma SentOnce(i: nat, j: nat)
    requires i < j < LENGTH_SYMBOLS
    ensures SENT[i] < LENGTH_SYMBOLS && SENT[i] != SENT[j]
  {
  }

  lemma LastDropped(values: seq<nat>, v: nat)
    ensures (values + [v])[..|values|] == values
  {
  }

  lemma {:induction false} ByNameOk(skip: nat, values: seq<nat>)
    requires Legal(skip, values)
    ensures LengthsOk(ByName(skip, values))
    ensures forall j :: skip + |values| <= j < LENGTH_SYMBOLS ==> ByName(skip, values)[SENT[j]] == 0
  {
    if values != [] {
      var n := |values| - 1;
      ByNameOk(skip, values[..n]);
      forall j | skip + |values| <= j < LENGTH_SYMBOLS
        ensures ByName(skip, values)[SENT[j]] == 0
      {
        SentOnce(skip + n, j);
      }
    }
  }

  /** One more length sets an entry that was zero. */
  lemma ByNameStep(skip: nat, values: seq<nat>) returns (before: seq<nat>, k: nat)
    requires Legal(skip, values) && values != []
    ensures before == ByName(skip, values[..|values| - 1]) && LengthsOk(before) && k < LENGTH_SYMBOLS && before[k] == 0
    ensures k == SENT[skip + |values| - 1] && ByName(skip, values) == before[k := values[|values| - 1]]
  {
    var n := |values| - 1;
    ByNameOk(skip, values[..n]);
    before, k := ByName(skip, values[..n]), SENT[skip + n];
  }

  lemma {:induction false} SymbolsUpdate(lens: seq<nat>, k: nat, v: nat, len: nat, n: nat)
    requires k < |lens| && n <= |lens| && lens[k] == 0
    ensures |Symbols(lens[k := v], len, n)| + (if k < n && len == 0 then 1 else 0)
         == |Symbols(lens, len, n)| + (if k < n && v == len then 1 else 0)
  {
    if n > 0 { SymbolsUpdate(lens, k, v, len, n - 1); }
  }

  lemma {:induction false} KraftUpdate(lens: seq<nat>, k: nat, v: nat, n: nat)
    requires ValidLengths(lens) && k < |lens| && n <= |lens| && lens[k] == 0 && v <= MAX_LEN
    ensures Kraft(lens[k := v], n) == Kraft(lens, n) + if k < n && v > 0 then Width(v) else 0
  {
    if n > 0 { KraftUpdate(lens, k, v, n - 1); }
  }

  lemma ShareIsWidth(v: nat)
    requires v <= LENGTH_BITS
    ensures 1024 * Share(v) == if v == 0 then 0 else Width(v)
  {
    Powers();
    assert Pow2(13) == 0x2000;
  }

  lemma {:induction false} NoneCoded(n: nat, len: nat)
    requires n <= LENGTH_SYMBOLS
    ensures Kraft(Zeros(LENGTH_SYMBOLS), n) == 0
    ensures |Symbols(Zeros(LENGTH_SYMBOLS), len, n)| == if len == 0 then n else 0
  {
    if n > 0 { NoneCoded(n - 1, len); }
  }

  /** The running code space is what the Kraft sum leaves, and the running count is the number of codes. */
  lemma {:induction false} RunningTotals(skip: nat, values: seq<nat>)
    requires Legal(skip, values)
    ensures LengthsOk(ByName(skip, values))
    ensures Kraft(ByName(skip, values), LENGTH_SYMBOLS) == 1024 * (32 - SpaceLeft(values))
    ensures |Symbols(ByName(skip, values), 0, LENGTH_SYMBOLS)| == LENGTH_SYMBOLS - Used(values)
  {
    ByNameOk(skip, values);
    hide Kraft, Symbols, Width, Share;
    if values == [] {
      NoneCoded(LENGTH_SYMBOLS, 0);
    } else {
      hide ByName;
      var before, k := ByNameStep(skip, values);
      var v := values[|values| - 1];
      RunningTotals(skip, values[..|values| - 1]);
      KraftUpdate(before, k, v, LENGTH_SYMBOLS);
      SymbolsUpdate(before, k, v, 0, LENGTH_SYMBOLS);
      ShareIsWidth(v);
    }
  }

  /** The test at the end accepts exactly the lengths of a single symbol or of a complete code. */
  lemma AcceptedExactly(skip: nat, values: seq<nat>)
    requires Legal(skip, values)
    ensures Used(values) == 1 || SpaceLeft(values) == 0 <==> Accepted(ByName(skip, values))
  {
    hide Kraft, Symbols, Order;
    RunningTotals(skip, values);
    BaseOfZero(ByName(skip, values));
    Powers();
  }

  // ---------- Reading ----------

  /** Reads lengths as long as more are needed and the next is whole. */
  ghost function ReadLengths(skip: nat, values: seq<nat>, a: seq<bool>): (seq<nat>, seq<bool>)
    requires Legal(skip, values)
    decreases LENGTH_SYMBOLS - (skip + |values|)
  {
    var e := LengthAt(a);
    if More(skip, values) && e.Some? then ReadLengths(skip, values + [e.value.value], a[e.value.bits..])
      else (values, a)
  }

  lemma ReadStep(skip: nat, values: seq<nat>, a: seq<bool>)
    requires Legal(skip, values)
    ensures More(skip, values) && LengthAt(a).Some? ==>
              && Legal(skip, values + [LengthAt(a).value.value])
              && ReadLengths(skip, values, a) ==
                 ReadLengths(skip, values + [LengthAt(a).value.value], a[LengthAt(a).value.bits..])
    ensures !(More(skip, values) && LengthAt(a).Some?) ==> ReadLengths(skip, values, a) == (values, a)
  {
    hide LengthAt, SpaceLeft;
  }

  /** Input may arrive in any pieces. */
  lemma {:induction false} ReadInPieces(skip: nat, values: seq<nat>, a: seq<bool>, z: seq<bool>)
    requires Legal(skip, values)
    ensures var p := ReadLengths(skip, values, a);
            Legal(skip, p.0) && ReadLengths(skip, values, a + z) == ReadLengths(skip, p.0, p.1 + z)
    decreases LENGTH_SYMBOLS - (skip + |values|)
  {
    hide LengthAt, SpaceLeft, ReadLengths;
    ReadStep(skip, values, a);
    if More(skip, values) && LengthAt(a).Some? {
      var e := LengthAt(a).value;
      LengthIsStable(a, z);
      ReadStep(skip, values, a + z);
      assert (a + z)[e.bits..] == a[e.bits..] + z;
      ReadInPieces(skip, values + [e.value], a[e.bits..], z);
    }
  }

  /** The index of the static code from a cleared accumulator. */
  lemma CleanIndex(val: Word, n: nat, a: seq<bool>)
    requires BitReader.Agrees(val, n, a) && n == |a| < 4 && forall i :: n <= i < 64 ==> !val[i]
    ensures Field(val, 4) == Value(a) < 16
  {
    hide Low, Value;
    assert val == a + val[n..];
    ValuePadded(a, val[n..]);
    ValueLow(val, 4);
    ValueBound(a);
    Powers();
    Pow2Monotone(n, 4);
    LowSmall(Value(a), 4);
  }

  lemma FullIndex(a: seq<bool>)
    requires |a| >= 4
    ensures Value(a[..4]) == Value(a) % 16
  {
    hide Low, Value;
    ValueLow(a, 4);
    LowShort(Value(a));
  }

  /** Consumes one length if its code word is whole, also when fewer than four bits are left. */
  method NextLength(br: Reader) returns (v: nat, ok: bool)
    requires br.Valid()
    modifies br`val, br`bitPos, br`pos, br`ahead
    ensures br.Valid() && ok == LengthAt(old(br.ahead)).Some?
    ensures ok ==>
            v == LengthAt(old(br.ahead)).value.value && br.ahead == old(br.ahead)[LengthAt(old(br.ahead)).value.bits..]
    ensures !ok ==> br.ahead == old(br.ahead)
  {
    hide Fits, Value, StaticEntry;
    ghost var a := br.ahead;
    var ix: nat;
    ix, ok := br.SafeGetBits(4);
    var avail := br.bitPos;
    if ok {
      FullIndex(a);
    } else {
      if avail != 0 {
        br.Normalize();
        FitsAgrees(br.input, Snapshot(br.val, br.bitPos, br.pos), br.ahead);
        CleanIndex(br.val, avail, a);
        ix := Field(br.val, 4);
      } else {
        EmptyIndex(a);
        ix := 0;
      }
      if PREFIX_LENGTH[ix] > avail {
        StaticBits(ix);
        return 0, false;
      }
      ok := true;
    }
    StaticBits(ix);
    StaticByBits(ix);
    v := PREFIX_VALUE[ix];
    br.DropBits(PREFIX_LENGTH[ix]);
  }

  lemma EmptyIndex(a: seq<bool>)
    requires |a| == 0
    ensures Value(a) == 0
  {
  }

  lemma StaticBits(ix: nat)
    requires ix < 16
    ensures StaticEntry(ix) == Entry(PREFIX_LENGTH[ix], PREFIX_VALUE[ix])
  {
  }

  /** The record of the lengths read: by symbol, and counted. */
  ghost predicate Recorded(lens: seq<nat>, histo: seq<nat>, skip: nat, values: seq<nat>) {
    Legal(skip, values) && lens == ByName(skip, values) && Counts(histo, lens) && |histo| == LIST_BASE
  }

  lemma RecordNone(lens: seq<nat>, histo: seq<nat>, skip: nat)
    requires skip <= 3 && lens == Zeros(LENGTH_SYMBOLS) && histo == Zeros(LIST_BASE)
    ensures Recorded(lens, histo, skip, [])
  {
    hide Symbols;
    forall len | 1 <= len <= LENGTH_BITS ensures |Symbols(lens, len, |lens|)| == 0 { NoneCoded(LENGTH_SYMBOLS, len); }
  }

  lemma RecordOne(lens: seq<nat>, histo: seq<nat>, skip: nat, values: seq<nat>, v: nat)
    requires Recorded(lens, histo, skip, values) && skip + |values| < LENGTH_SYMBOLS && v <= LENGTH_BITS
    ensures |histo| == LIST_BASE && |lens| == LENGTH_SYMBOLS && SENT[skip + |values|] < LENGTH_SYMBOLS
    ensures Recorded(lens[SENT[skip + |values|] := v],
                     if v == 0 then histo else histo[v := histo[v] + 1], skip, values + [v])
  {
    hide Symbols, ByName;
    LastDropped(values, v);
    var before, k := ByNameStep(skip, values + [v]);
    forall len | 1 <= len <= LENGTH_BITS
      ensures |Symbols(lens[k := v], len, |lens|)| == |Symbols(lens, len, |lens|)| + if v == len then 1 else 0
    {
      SymbolsUpdate(lens, k, v, len, |lens|);
    }
  }

  lemma TotalsStep(values: seq<nat>, v: nat)
    requires v <= LENGTH_BITS && forall i :: 0 <= i < |values| ==> values[i] <= LENGTH_BITS
    ensures SpaceLeft(values + [v]) == SpaceLeft(values) - Share(v)
            && Used(values + [v]) == Used(values) + if v == 0 then 0 else 1
    ensures Share(v) == 0 <==> v == 0
  {
    LastDropped(values, v);
  }

  datatype HeaderStatus = Done | Suspended | Invalid

  /** The resumable loop over the lengths. The code space is unsigned in the program, where a value below zero
      shows as a large one. */
  class LengthLoop {
    const lens: array<nat>
    const histo: array<nat>
    var subLoopCounter: nat
    var numCodes: nat
    var space: int
    ghost const skip: nat
    ghost var values: seq<nat>     // the lengths read so far, in the order sent

    ghost predicate Valid() reads this, lens, histo {
      && lens != histo && Recorded(lens[..], histo[..], skip, values) && More(skip, values)
      && subLoopCounter == skip + |values| && numCodes == Used(values) && space == SpaceLeft(values)
    }

    constructor (skip: nat)
      requires skip <= 3
      ensures Valid() && fresh(lens) && fresh(histo) && this.skip == skip && values == []
    {
      this.skip := skip;
      var l := new nat[LENGTH_SYMBOLS](_ => 0);
      var h := new nat[LIST_BASE](_ => 0);
      lens, histo := l, h;
      subLoopCounter, numCodes, space := skip, 0, 32;
      values := [];
      new;
      RecordNone(lens[..], histo[..], skip);
    }

    /** Records length v of the i-th symbol in the order sent. */
    method Record(i: nat, v: nat)
      requires lens != histo && Recorded(lens[..], histo[..], skip, values) && i == skip + |values| < LENGTH_SYMBOLS
               && v <= LENGTH_BITS
      modifies lens, histo, this`values
      ensures Recorded(lens[..], histo[..], skip, values) && values == old(values) + [v]
    {
      hide Recorded;
      ghost var l: seq<nat>, h: seq<nat> := lens[..], histo[..];
      RecordOne(l, h, skip, values, v);
      lens[SENT[i]] := v;
      if v != 0 { histo[v] := histo[v] + 1; }
      assert lens[..] == l[SENT[i] := v];
      assert histo[..] == if v == 0 then h else h[v := h[v] + 1];
      values := values + [v];
    }

    /** Reads the lengths that are there and needed; suspends when more are needed, and otherwise accepts
        exactly the lengths of a single symbol or of a complete code. */
    method ReadCodeLengthCodeLengths(br: Reader) returns (status: HeaderStatus)
      requires Valid() && br.Valid() && br as object != this && br as object != lens && br as object != histo
      modifies this, lens, histo, br`val, br`bitPos, br`pos, br`ahead
      ensures br.Valid() && Recorded(lens[..], histo[..], skip, values)
      ensures ReadLengths(skip, old(values), old(br.ahead)) == (values, br.ahead)
      ensures More(skip, values) ==> status == Suspended && Valid() && LengthAt(br.ahead).None?
      ensures !More(skip, values) ==> status == if Accepted(lens[..]) then Done else Invalid
    {
      hide Recorded, Fits, LengthAt, SpaceLeft, Used, ReadLengths, ByName, Share, Accepted;
      RecordedLens(lens[..], histo[..], skip, values);
      ghost var result := ReadLengths(skip, values, br.ahead);
      var i, n, left := subLoopCounter, numCodes, space;
      while i < LENGTH_SYMBOLS
        invariant br.Valid() && Recorded(lens[..], histo[..], skip, values) && Legal(skip, values)
        invariant i == skip + |values| && n == Used(values) && left == SpaceLeft(values) > 0
        invariant result == ReadLengths(skip, values, br.ahead)
      {
        ReadStep(skip, values, br.ahead);
        var v, ok := NextLength(br);
        if !ok {
          subLoopCounter, numCodes, space := i, n, left;
          return Suspended;
        }
        TotalsStep(values, v);
        Record(i, v);
        if v != 0 {
          left := left - Share(v);
          n := n + 1;
          if left <= 0 { break; }
        }
        i := i + 1;
      }
      ReadStep(skip, values, br.ahead);
      AcceptedExactly(skip, values);
      RecordedLens(lens[..], histo[..], skip, values);
      status := if n != 1 && left != 0 then Invalid else Done;
    }
  }

  lemma RecordedLens(lens: seq<nat>, histo: seq<nat>, skip: nat, values: seq<nat>)
    requires Recorded(lens, histo, skip, values)
    ensures Legal(skip, values) && lens == ByName(skip, values) && Counts(histo, lens)
  {
  }

  // ---------- A whole prefix code from input in pieces ----------

  ghost predicate Apart'(h: LengthLoop, br: Reader) {
    br as object != h && br as object != h.lens && br as object != h.histo
  }

  /** The lengths of the code-length code from input that arrives in chunks, with a suspension before each. */
  method ReadLengthChunks(h: LengthLoop, br: Reader, chunks: seq<seq<byte>>) returns (status: HeaderStatus, used: nat)
    requires h.Valid() && br.Valid() && Apart'(h, br)
    modifies h, h.lens, h.histo, br
    ensures br.Valid() && Recorded(h.lens[..], h.histo[..], h.skip, h.values) && used <= |chunks|
    ensures ReadLengths(h.skip, old(h.values), old(br.ahead) + AllBits(chunks)) ==
            (h.values, br.ahead + AllBits(chunks[used..]))
    ensures More(h.skip, h.values) ==> status == Suspended && used == |chunks|
    ensures !More(h.skip, h.values) ==> status == if Accepted(h.lens[..]) then Done else Invalid
  {
    hide Recorded, Fits, LengthAt, SpaceLeft, Used, ReadLengths, ByName, Accepted, BitsOf;
    RecordedLens(h.lens[..], h.histo[..], h.skip, h.values);
    ghost var u, a, all := h.values, br.ahead, AllBits(chunks);
    used := 0;
    assert chunks[0..] == chunks;
    status := h.ReadCodeLengthCodeLengths(br);
    ReadInPieces(h.skip, u, a, all);
    ghost var result := ReadLengths(h.skip, u, a + all);
    while status == Suspended && used < |chunks|
      invariant br.Valid() && Recorded(h.lens[..], h.histo[..], h.skip, h.values) && Legal(h.skip, h.values)
                && used <= |chunks|
      invariant More(h.skip, h.values) ==> status == Suspended && h.Valid() && LengthAt(br.ahead).None?
      invariant !More(h.skip, h.values) ==> status == if Accepted(h.lens[..]) then Done else Invalid
      invariant result == ReadLengths(h.skip, h.values, br.ahead + AllBits(chunks[used..]))
    {
      ghost var rest := AllBits(chunks[used + 1..]);
      assert chunks[used..][1..] == chunks[used + 1..];
      Associate(br.ahead, BitsOf(chunks[used]), rest);
      br.Feed(chunks[used]);
      ghost var v, b := h.values, br.ahead;
      status := h.ReadCodeLengthCodeLengths(br);
      ReadInPieces(h.skip, v, b, rest);
      used := used + 1;
    }
    ghost var rest := AllBits(chunks[used..]);
    assert used == |chunks| ==> br.ahead + rest == br.ahead;
    ReadStep(h.skip, h.values, br.ahead + rest);
  }

  /** The table of the code-length code with the given lengths. */
  ghost predicate TableOfLengths(lens: seq<nat>, t: seq<Entry>) {
    if |Order(lens, LENGTH_BITS)| == 1 then LengthCode.Single(Order(lens, LENGTH_BITS)[0].sym, t)
      else Canonical(lens, t)
  }

  /** A prefix code as it is read: the lengths of the code-length code, its table, the code-length symbols, and
      the bits behind each. */
  datatype Parts = Parts(values: seq<nat>, behind: seq<bool>, t: seq<Entry>, tokens: seq<Token>, rest: seq<bool>)

  /** The bits spell these parts. */
  ghost predicate Spells(skip: nat, alphabetSize: nat, a: seq<bool>, p: Parts) {
    && skip <= 3 && ReadLengths(skip, [], a) == (p.values, p.behind)
    && (HeaderOk(skip, p) ==> TableOfLengths(ByName(skip, p.values), p.t) && LengthTable(p.t)
                              && Process(p.t, alphabetSize, [], p.behind) == (p.tokens, p.rest))
  }

  ghost predicate HeaderOk(skip: nat, p: Parts) {
    Legal(skip, p.values) && !More(skip, p.values) && Accepted(ByName(skip, p.values))
  }

  /** The lengths that the parts give to the symbols of the alphabet. */
  ghost function LengthsOf(p: Parts): seq<nat> { Expand(p.tokens, INITIAL_REPEATED_CODE_LENGTH) }

  ghost predicate CodeOk(alphabetSize: nat, lens: seq<nat>) {
    |lens| <= alphabetSize && ValidLengths(lens) && Kraft(lens, |lens|) == Pow2(MAX_LEN)
  }

  /** What the parts make of the reading. */
  ghost function Verdict(skip: nat, alphabetSize: nat, p: Parts): HeaderStatus
    requires Legal(skip, p.values)
  {
    if More(skip, p.values) then Suspended
    else if !HeaderOk(skip, p) then Invalid
    else if Needed(p.tokens, alphabetSize) then Suspended
    else if CodeOk(alphabetSize, LengthsOf(p)) then Done
    else Invalid
  }

  /** A table that has room for every code over the alphabet. */
  ghost predicate Roomy(alphabetSize: nat, size: nat) {
    forall lens: seq<nat> :: |lens| <= alphabetSize && Complete(Order(lens, MAX_LEN)) ==>
      TableSize(Order(lens, MAX_LEN)) <= size
  }

  /** The code-length symbols, the test of their code, and its table. */
  method ReadSecondPart(br: Reader, alphabetSize: nat, chunks: seq<seq<byte>>, t: seq<Entry>, table: array<Entry>)
    returns (status: HeaderStatus, used: nat, ghost tokens: seq<Token>)
    requires br.Valid() && LengthTable(t) && alphabetSize <= NO_SYMBOL && Roomy(alphabetSize, table.Length)
             && br as object != table
    modifies br, table
    ensures br.Valid() && used <= |chunks|
    ensures Process(t, alphabetSize, [], old(br.ahead) + AllBits(chunks)) ==
            (tokens, br.ahead + AllBits(chunks[used..]))
    ensures Needed(tokens, alphabetSize) ==> status == Suspended && used == |chunks|
    ensures !Needed(tokens, alphabetSize) ==>
              status == if CodeOk(alphabetSize, Expand(tokens, INITIAL_REPEATED_CODE_LENGTH)) then Done else Invalid
    ensures status == Done ==> TableFor(Expand(tokens, INITIAL_REPEATED_CODE_LENGTH), table[..])
  {
    hide Fits, Process, Needed, LengthTable, CodeLengthReader.Valid, Expand, Order, Complete, TableSize, TableFor,
      AllBits;
    var r := new CodeLengthReader(alphabetSize);
    var s: LengthReader.Status;
    s, used := ReadChunks(r, br, t, chunks);
    ReadingIsNeeded(r);
    tokens := r.used;
    status := Suspended;
    if s == Success {
      var ok, size := BuildTable(r, table);
      status := if ok then Done else Invalid;
    }
  }

  /** Reads a complex prefix code (section 3.5) from input that arrives in any chunks: suspended exactly when the input
      ends too early, refused exactly when one of its two codes is not complete, and otherwise the table decodes the
      canonical code of the lengths that the bits spell, with the cursor right behind them. */
  method ReadComplexCode(br: Reader, skip: nat, alphabetSize: nat, chunks: seq<seq<byte>>, table: array<Entry>)
    returns (status: HeaderStatus, used: nat, ghost p: Parts)
    requires br.Valid() && skip <= 3 && alphabetSize <= NO_SYMBOL && Roomy(alphabetSize, table.Length)
             && br as object != table
    modifies br, table
    ensures br.Valid() && used <= |chunks| && Spells(skip, alphabetSize, old(br.ahead) + AllBits(chunks), p)
    ensures Legal(skip, p.values) && status == Verdict(skip, alphabetSize, p)
            && (status == Suspended ==> used == |chunks|)
    ensures status == Done ==> TableFor(LengthsOf(p), table[..]) && p.rest == br.ahead + AllBits(chunks[used..])
  {
    hide Fits, Process, Needed, LengthTable, Recorded, ReadLengths, SpaceLeft, ByName, Accepted, Order, TableFor,
      CodeOk, Roomy, AllBits,
      Canonical, LengthCode.Single, Expand, Legal, Counts;
    var h := new LengthLoop(skip);
    status, used := ReadLengthChunks(h, br, chunks);
    RecordedLens(h.lens[..], h.histo[..], skip, h.values);
    p := Parts(h.values, br.ahead + AllBits(chunks[used..]), [], [], []);
    if status != Done { return; }
    var t := new Entry[32](_ => Entry(0, 0));
    BuildCodeLengthsHuffmanTable(t, h.lens[..], h.histo[..]);
    var more: nat;
    ghost var tokens: seq<Token>;
    var rest := chunks[used..];
    status, more, tokens := ReadSecondPart(br, alphabetSize, rest, t[..], table);
    assert rest[more..] == chunks[used + more..];
    used := used + more;
    p := p.(t := t[..], tokens := tokens, rest := br.ahead + AllBits(chunks[used..]));
  }
}
