/** Prefix codes with one to four symbols (section 3.4 of RFC 7932), and the tables written for them. */
module SimpleCodes {
  import opened Bits
  import opened PrefixCode
  import opened HuffmanTable

  // ---------- The canonical order of a short list of symbols ----------

  /** syms lists, in ascending order, the symbols of one length. */
  ghost predicate Lists(lens: seq<nat>, len: nat, syms: seq<nat>) {
    && (forall i, j :: 0 <= i < j < |syms| ==> syms[i] < syms[j])
    && (forall i :: 0 <= i < |syms| ==> syms[i] < |lens| && lens[syms[i]] == len)
    && (forall s :: 0 <= s < |lens| && lens[s] == len ==> s in syms)
  }

  lemma {:induction false} SymbolsBelow(lens: seq<nat>, len: nat, syms: seq<nat>, n: nat) returns (k: nat)
    requires Lists(lens, len, syms) && n <= |lens|
    ensures k <= |syms| && Symbols(lens, len, n) == syms[..k]
    ensures (k > 0 ==> syms[k - 1] < n) && (k < |syms| ==> syms[k] >= n)
  {
    k := 0;
    if n > 0 {
      k := SymbolsBelow(lens, len, syms, n - 1);
      if lens[n - 1] == len {
        var i :| 0 <= i < |syms| && syms[i] == n - 1;
        assert i == k;
        assert syms[..k + 1] == syms[..k] + [syms[k]];
        k := k + 1;
      }
    }
  }

  lemma SymbolsAre'(lens: seq<nat>, len: nat, syms: seq<nat>)
    requires Lists(lens, len, syms)
    ensures Symbols(lens, len, |lens|) == syms
  {
    var k := SymbolsBelow(lens, len, syms, |lens|);
    assert k == |syms|;
    assert syms[..k] == syms;
  }

  /** Codes of at most three bits: the symbols of one, two and three bits, one list after the other. */
  lemma ShortOrder(lens: seq<nat>, one: seq<nat>, two: seq<nat>, three: seq<nat>)
    requires Lists(lens, 1, one) && Lists(lens, 2, two) && Lists(lens, 3, three)
             && forall s :: 0 <= s < |lens| ==> lens[s] <= 3
    ensures Order(lens, MAX_LEN) == Tagged(1, one) + Tagged(2, two) + Tagged(3, three)
  {
    SymbolsAre'(lens, 1, one);
    SymbolsAre'(lens, 2, two);
    SymbolsAre'(lens, 3, three);
    OrderEnds(lens, 3, MAX_LEN);
    OrderStep(lens, 1);
    OrderStep(lens, 2);
    OrderStep(lens, 3);
    NoOrder(lens);
    hide Symbols, Order, Lists, Tagged;
    assert [] + Tagged(1, one) == Tagged(1, one);
  }

  // ---------- Tables without a second level ----------

  /** A full root table of codes with at most eight bits is the table of the code. */
  lemma RootTableFor(lens: seq<nat>, t: seq<Entry>)
    requires ValidLengths(lens) && Complete(Order(lens, MAX_LEN)) && |t| >= 256
    requires forall i :: 0 <= i < |Order(lens, MAX_LEN)| ==> Order(lens, MAX_LEN)[i].len <= ROOT_BITS
    requires RootFilled(Order(lens, MAX_LEN), t, 256, 256)
    ensures TableFor(lens, t)
  {
    hide Order, Kraft, RootFilled, RootOk, Start, Off, TableOk;
    var order := Order(lens, MAX_LEN);
    KraftIsComplete(lens);
    Powers();
    OffStart(order, |order|, 256, 256);
    SecondNone(order, t);
    TableDone(order, t, 256);
  }

  lemma SecondNone(order: seq<Coded>, t: seq<Entry>)
    requires Complete(order) && Off(order, 256) <= |t| && |t| >= 256 && RootFilled(order, t, 256, 256)
    ensures Second(order, t, 256, 256, Pow2(MAX_LEN))
  {
    hide RootFilled, Off;
  }

  /** The reversed indices of the first eight slots. */
  lemma FirstSlots()
    ensures Rev(8, 0) == 0 && Rev(8, 1) == 128 && Rev(8, 2) == 64 && Rev(8, 3) == 192
    ensures Rev(8, 4) == 32 && Rev(8, 5) == 160 && Rev(8, 6) == 96 && Rev(8, 7) == 224
  {
    Powers();
    assert Pow2(5) == 32 && Pow2(6) == 64;
    RevZero(8);
    RevZero(7);
    RevZero(6);
    RevZero(5);
    assert Rev(6, 1) == 32 && Rev(7, 1) == 64;
    assert Rev(7, 2) == Rev(6, 1) && Rev(7, 3) == 64 + Rev(6, 1);
  }

  /** Slot x holds the symbol whose interval the slot's number lies in. */
  lemma SlotHolds(order: seq<Coded>, i: nat, x: nat)
    requires Complete(order) && i < |order| && order[i].len <= ROOT_BITS && x < 256
    requires Start(order, i) <= 128 * Rev(8, x) < Start(order, i) + Width(order[i].len)
    ensures RootOk(order, Entry(order[i].len, order[i].sym), x)
  {
    hide Start, Rev, At;
    Powers();
    RevBound(ROOT_BITS, x);
    AtUnique(order, 128 * Rev(8, x), i);
  }

  lemma Widths()
    ensures Width(1) == 16384 && Width(2) == 8192 && Width(3) == 4096 && Pow2(MAX_LEN) == 32768
    ensures Pow2(1) == 2 && Pow2(2) == 4 && Pow2(3) == 8
  {
    Powers();
    assert Pow2(12) == 4096 by { assert Pow2(6) == 64; Pow2Add(6, 6); }
  }

  /** All first slots hold their symbols. */
  ghost predicate FrontOk(order: seq<Coded>, t: seq<Entry>, bits: nat) {
    Complete(order) && Pow2(bits) <= |t| && Pow2(bits) <= 256
      && forall x :: 0 <= x < Pow2(bits) ==> RootOk(order, t[x], x)
  }

  lemma FrontFills(order: seq<Coded>, t: seq<Entry>, bits: nat)
    requires FrontOk(order, t, bits)
    ensures RootFilled(order, t, Pow2(bits), 256)
  {
  }

  /** The interval of each code ends where the next one begins. */
  lemma StartSteps(order: seq<Coded>)
    requires Ordered(order)
    ensures Start(order, 0) == 0
    ensures forall i :: 0 <= i < |order| ==> Start(order, i + 1) == Start(order, i) + Width(order[i].len)
  {
  }

  lemma TwoStarts(a: nat, b: nat) returns (order: seq<Coded>)
    ensures order == [Coded(1, a), Coded(1, b)] && Complete(order)
    ensures Start(order, 0) == 0 && Start(order, 1) == 16384 && Start(order, 2) == 32768
  {
    order := [Coded(1, a), Coded(1, b)];
    Widths();
    hide Pow2, Width;
    StartSteps(order);
  }

  /** Two symbols of one bit. */
  lemma TwoSymbols(t: seq<Entry>, a: nat, b: nat)
    requires |t| >= 256
    requires t[0] == Entry(1, a)
    requires t[1] == Entry(1, b)
    ensures FrontOk([Coded(1, a), Coded(1, b)], t, 1)
  {
    Widths();
    FirstSlots();
    hide Start, RootOk, Rev, Complete, Pow2, Width;
    var order := TwoStarts(a, b);
    SlotHolds(order, 0, 0);
    SlotHolds(order, 1, 1);
  }

  lemma ThreeStarts(a: nat, b: nat, c: nat) returns (order: seq<Coded>)
    ensures order == [Coded(1, a), Coded(2, b), Coded(2, c)] && Complete(order)
    ensures Start(order, 0) == 0 && Start(order, 1) == 16384 && Start(order, 2) == 24576 && Start(order, 3) == 32768
  {
    order := [Coded(1, a), Coded(2, b), Coded(2, c)];
    Widths();
    hide Pow2, Width;
    StartSteps(order);
  }

  /** One symbol of one bit, two of two bits. */
  lemma ThreeSymbols(t: seq<Entry>, a: nat, b: nat, c: nat)
    requires |t| >= 256
    requires t[0] == t[2] == Entry(1, a)
    requires t[1] == Entry(2, b)
    requires t[3] == Entry(2, c)
    ensures FrontOk([Coded(1, a), Coded(2, b), Coded(2, c)], t, 2)
  {
    Widths();
    FirstSlots();
    hide Start, RootOk, Rev, Complete, Pow2, Width;
    var order := ThreeStarts(a, b, c);
    SlotHolds(order, 0, 0);
    SlotHolds(order, 1, 1);
    SlotHolds(order, 0, 2);
    SlotHolds(order, 2, 3);
  }

  lemma FourStarts(a: nat, b: nat, c: nat, d: nat) returns (order: seq<Coded>)
    ensures order == [Coded(2, a), Coded(2, b), Coded(2, c), Coded(2, d)] && Complete(order)
    ensures Start(order, 0) == 0 && Start(order, 1) == 8192 && Start(order, 2) == 16384 && Start(order, 3) == 24576
            && Start(order, 4) == 32768
  {
    order := [Coded(2, a), Coded(2, b), Coded(2, c), Coded(2, d)];
    Widths();
    hide Pow2, Width;
    StartSteps(order);
  }

  /** Four symbols of two bits. */
  lemma FourSymbols(t: seq<Entry>, a: nat, b: nat, c: nat, d: nat)
    requires |t| >= 256
    requires t[0] == Entry(2, a)
    requires t[1] == Entry(2, c)
    requires t[2] == Entry(2, b)
    requires t[3] == Entry(2, d)
    ensures FrontOk([Coded(2, a), Coded(2, b), Coded(2, c), Coded(2, d)], t, 2)
  {
    Widths();
    FirstSlots();
    hide Start, RootOk, Rev, Complete, Pow2, Width;
    var order := FourStarts(a, b, c, d);
    SlotHolds(order, 0, 0);
    SlotHolds(order, 2, 1);
    SlotHolds(order, 1, 2);
    SlotHolds(order, 3, 3);
  }

  lemma SkewedStarts(a: nat, b: nat, c: nat, d: nat) returns (order: seq<Coded>)
    ensures order == [Coded(1, a), Coded(2, b), Coded(3, c), Coded(3, d)] && Complete(order)
    ensures Start(order, 0) == 0 && Start(order, 1) == 16384 && Start(order, 2) == 24576 && Start(order, 3) == 28672
            && Start(order, 4) == 32768
  {
    order := [Coded(1, a), Coded(2, b), Coded(3, c), Coded(3, d)];
    Widths();
    hide Pow2, Width;
    StartSteps(order);
  }

  /** Symbols of one, two, three and three bits. */
  lemma SkewedSymbols(t: seq<Entry>, a: nat, b: nat, c: nat, d: nat)
    requires |t| >= 256
    requires t[0] == t[2] == t[4] == t[6] == Entry(1, a)
    requires t[1] == t[5] == Entry(2, b)
    requires t[3] == Entry(3, c)
    requires t[7] == Entry(3, d)
    ensures FrontOk([Coded(1, a), Coded(2, b), Coded(3, c), Coded(3, d)], t, 3)
  {
    Widths();
    FirstSlots();
    hide Start, RootOk, Rev, Complete, Pow2, Width;
    var order := SkewedStarts(a, b, c, d);
    SlotHolds(order, 0, 0);
    SlotHolds(order, 1, 1);
    SlotHolds(order, 0, 2);
    SlotHolds(order, 2, 3);
    SlotHolds(order, 0, 4);
    SlotHolds(order, 1, 5);
    SlotHolds(order, 0, 6);
    SlotHolds(order, 3, 7);
  }

  // ---------- The lengths that section 3.4 assigns ----------

  /** The code length of symbol s: one symbol takes no bits; two take one each; three take 1, 2 and 2; four
      take two each, or 1, 2, 3 and 3. */
  function LengthOf(val: seq<nat>, kind: nat, s: nat): nat
    requires |val| == 4
  {
    match kind
    case 1 => if s == val[0] || s == val[1] then 1 else 0
    case 2 => if s == val[0] then 1 else if s == val[1] || s == val[2] then 2 else 0
    case 3 => if s in val then 2 else 0
    case 4 => if s == val[0] then 1 else if s == val[1] then 2 else if s == val[2] || s == val[3] then 3 else 0
    case _ => 0
  }

  function Lengths(val: seq<nat>, kind: nat, n: nat): (lens: seq<nat>)
    requires |val| == 4
    ensures |lens| == n && forall s :: 0 <= s < n ==> lens[s] == LengthOf(val, kind, s) <= 3
  {
    seq(n, s requires 0 <= s < n => LengthOf(val, kind, s))
  }

  /** The symbols used are different symbols of the alphabet. */
  predicate Distinct(val: seq<nat>, kind: nat, n: nat) {
    && |val| == 4 && kind <= 4
    && var used := if kind == 4 then 4 else kind + 1;
       && (forall i :: 0 <= i < used ==> val[i] < n)
       && (forall i, j :: 0 <= i < j < used ==> val[i] != val[j])
  }

  /** A table whose first slots are right, repeated, is the table of the code. */
  lemma RepeatedIsTable(lens: seq<nat>, order: seq<Coded>, t: seq<Entry>, t': seq<Entry>, bits: nat)
    requires ValidLengths(lens) && Order(lens, MAX_LEN) == order && FrontOk(order, t, bits) && 1 <= bits <= 3
    requires |t| == |t'| && |t| >= 256 && Repeats(t', t, 256, bits)
             && forall i :: 0 <= i < |order| ==> order[i].len <= bits
    ensures TableFor(lens, t')
  {
    hide Order, RootFilled, Repeats, RootOk;
    FrontFills(order, t, bits);
    GrownIsFilled(order, t, t', bits);
    RootTableFor(lens, t');
  }

  // ---------- Building the tables ----------

  /** The symbols of equal length stand in ascending order. */
  predicate Ascending(w: seq<nat>, kind: nat)
    requires |w| == 4
  {
    match kind
    case 1 => w[0] < w[1]
    case 2 => w[1] < w[2]
    case 3 => w[0] < w[1] < w[2] < w[3]
    case 4 => w[2] < w[3]
    case _ => true
  }

  /** The symbols of length len in the order in which they are listed. */
  function Listed(w: seq<nat>, kind: nat, len: nat): seq<nat>
    requires |w| == 4
  {
    match (kind, len)
    case (1, 1) => [w[0], w[1]]
    case (2, 1) => [w[0]]
    case (2, 2) => [w[1], w[2]]
    case (3, 2) => w
    case (4, 1) => [w[0]]
    case (4, 2) => [w[1]]
    case (4, 3) => [w[2], w[3]]
    case _ => []
  }

  lemma ListedAre(w: seq<nat>, kind: nat, n: nat, len: nat)
    requires Distinct(w, kind, n) && Ascending(w, kind) && 1 <= len <= 3
    ensures Lists(Lengths(w, kind, n), len, Listed(w, kind, len))
  {
  }

  /** The order of the codes. */
  function ShortCodes(w: seq<nat>, kind: nat): seq<Coded>
    requires |w| == 4
  {
    match kind
    case 1 => [Coded(1, w[0]), Coded(1, w[1])]
    case 2 => [Coded(1, w[0]), Coded(2, w[1]), Coded(2, w[2])]
    case 3 => [Coded(2, w[0]), Coded(2, w[1]), Coded(2, w[2]), Coded(2, w[3])]
    case 4 => [Coded(1, w[0]), Coded(2, w[1]), Coded(3, w[2]), Coded(3, w[3])]
    case _ => []
  }

  lemma ShortCodesAreOrder(w: seq<nat>, kind: nat, n: nat)
    requires Distinct(w, kind, n) && Ascending(w, kind)
    ensures Order(Lengths(w, kind, n), MAX_LEN) == ShortCodes(w, kind)
  {
    ListedAre(w, kind, n, 1);
    ListedAre(w, kind, n, 2);
    ListedAre(w, kind, n, 3);
    hide Lists, Order, Listed, ShortCodes, Tagged, Distinct, LengthOf;
    ShortOrder(Lengths(w, kind, n), Listed(w, kind, 1), Listed(w, kind, 2), Listed(w, kind, 3));
    ListedJoined(w, kind);
  }

  lemma ListedJoined(w: seq<nat>, kind: nat)
    requires |w| == 4
    ensures Tagged(1, Listed(w, kind, 1)) + Tagged(2, Listed(w, kind, 2)) + Tagged(3, Listed(w, kind, 3)) ==
            ShortCodes(w, kind)
  {
  }

  /** The width of the longest code. */
  function Longest(kind: nat): (bits: nat)
    ensures bits <= 3
  {
    match kind
    case 1 => 1
    case 2 => 2
    case 3 => 2
    case 4 => 3
    case _ => 0
  }

  /** The first slots as they are written: the codes, read from their first bit up, count up. */
  predicate Written(w: seq<nat>, kind: nat, t: seq<Entry>)
    requires |w| == 4 && |t| >= 256
  {
    match kind
    case 0 => t[0] == Entry(0, w[0])
    case 1 => t[0] == Entry(1, w[0]) && t[1] == Entry(1, w[1])
    case 2 => t[0] == t[2] == Entry(1, w[0]) && t[1] == Entry(2, w[1]) && t[3] == Entry(2, w[2])
    case 3 => t[0] == Entry(2, w[0]) && t[2] == Entry(2, w[1]) && t[1] == Entry(2, w[2]) && t[3] == Entry(2, w[3])
    case 4 =>
      && t[0] == t[2] == t[4] == t[6] == Entry(1, w[0]) && t[1] == t[5] == Entry(2, w[1])
      && t[3] == Entry(3, w[2]) && t[7] == Entry(3, w[3])
    case _ => true
  }

  lemma WrittenIsFront(w: seq<nat>, kind: nat, t: seq<Entry>)
    requires 1 <= kind <= 4 && |w| == 4 && |t| >= 256 && Written(w, kind, t)
    ensures FrontOk(ShortCodes(w, kind), t, Longest(kind))
  {
    hide FrontOk;
    match kind
    case 1 => TwoSymbols(t, w[0], w[1]);
    case 2 => ThreeSymbols(t, w[0], w[1], w[2]);
    case 3 => FourSymbols(t, w[0], w[1], w[2], w[3]);
    case 4 => SkewedSymbols(t, w[0], w[1], w[2], w[3]);
  }

  /** The written slots, repeated, are the table of the code with the lengths of section 3.4. */
  lemma WrittenIsTable(w: seq<nat>, kind: nat, n: nat, t: seq<Entry>, t': seq<Entry>)
    requires Distinct(w, kind, n) && Ascending(w, kind) && kind > 0
    requires |t| == |t'| && |t| >= 256 && Written(w, kind, t) && Repeats(t', t, 256, Longest(kind))
    ensures TableFor(Lengths(w, kind, n), t')
  {
    WrittenIsFront(w, kind, t);
    ShortCodesAreOrder(w, kind, n);
    hide FrontOk, Order, Written, Distinct, Repeats, TableFor, LengthOf;
    RepeatedIsTable(Lengths(w, kind, n), ShortCodes(w, kind), t, t', Longest(kind));
  }

  lemma WrittenIsConstant(t: seq<Entry>, t': seq<Entry>, n: nat)
    requires |t| == |t'| && |t| >= 256 && Repeats(t', t, 256, 0) && t[0].bits == 0 && t[0].value < n
    ensures Constant(t', n) && t'[0] == t[0]
  {
    forall x | 0 <= x < 256 ensures Low(x, 0) == 0 && t'[x] == t[0] {}
  }

  /** w is val with symbols of equal length exchanged. */
  ghost predicate Rearranges(w: seq<nat>, val: seq<nat>, kind: nat)
    requires |w| == |val| == 4
  {
    forall s: nat :: LengthOf(w, kind, s) == LengthOf(val, kind, s)
  }

  lemma SameLengths(w: seq<nat>, val: seq<nat>, kind: nat, n: nat)
    requires |w| == |val| == 4 && Rearranges(w, val, kind)
    ensures Lengths(w, kind, n) == Lengths(val, kind, n)
  {
  }

  /** All four symbols, pairwise different, in some order. */
  ghost predicate Permutes(w: seq<nat>, val: seq<nat>) {
    && |w| == |val| == 4
    && (forall i, j :: 0 <= i < j < 4 ==> w[i] != w[j])
    && (forall s :: s in w <==> s in val)
  }

  lemma SwapPermutes(w: seq<nat>, w': seq<nat>, val: seq<nat>, i: nat, k: nat)
    requires Permutes(w, val) && i < k < 4 && w' == w[i := w[k]][k := w[i]]
    ensures Permutes(w', val)
  {
    forall s ensures s in w' <==> s in w {
      if s in w {
        var j :| 0 <= j < 4 && w[j] == s;
        assert w'[if j == i then k else if j == k then i else j] == s;
      }
    }
  }

  /** Sorts four symbols in place by exchanges. */
  method SortFour(val: array<nat>)
    requires val.Length == 4 && Permutes(val[..], val[..])
    modifies val
    ensures Permutes(val[..], old(val[..])) && val[0] < val[1] < val[2] < val[3]
  {
    hide Permutes;
    ghost var v0 := val[..];
    for i := 0 to 3
      invariant Permutes(val[..], v0)
      invariant forall a, b :: 0 <= a < i && a < b < 4 ==> val[a] <= val[b]
    {
      for k := i + 1 to 4
        invariant Permutes(val[..], v0)
        invariant forall a, b :: 0 <= a < i && a < b < 4 ==> val[a] <= val[b]
        invariant forall b :: i < b < k ==> val[i] <= val[b]
      {
        if val[k] < val[i] {
          ghost var w := val[..];
          val[k], val[i] := val[i], val[k];
          SwapPermutes(w, val[..], v0, i, k);
        }
      }
    }
    PermutesDiffer(val[..], v0);
  }

  lemma PermutesDiffer(w: seq<nat>, val: seq<nat>)
    requires Permutes(w, val)
    ensures |w| == 4 && w[0] != w[1] && w[1] != w[2] && w[2] != w[3]
  {
  }

  lemma SortedIs(w: seq<nat>, val: seq<nat>, n: nat)
    requires Permutes(w, val) && Distinct(val, 3, n) && w[0] < w[1] < w[2] < w[3]
    ensures Distinct(w, 3, n) && Ascending(w, 3) && Rearranges(w, val, 3)
  {
    forall i | 0 <= i < 4 ensures w[i] < n { assert w[i] in val; }
  }

  lemma SwappedIs(w: seq<nat>, val: seq<nat>, kind: nat, n: nat, i: nat)
    requires Distinct(val, kind, n) && (kind, i) in {(1, 0), (2, 1), (4, 2)}
    requires w == if val[i] < val[i + 1] then val else val[i := val[i + 1]][i + 1 := val[i]]
    ensures Distinct(w, kind, n) && Ascending(w, kind) && Rearranges(w, val, kind)
  {
  }

  /** Writes the slots of the codes and returns the width of the longest. Symbols of equal length are taken in
      ascending order, whatever the order in which they were sent. */
  method WriteSlots(table: array<Entry>, val: array<nat>, numSymbols: nat, ghost n: nat)
    returns (bits: nat, ghost w: seq<nat>)
    requires table as object != val && table.Length >= 256 && val.Length == 4 && Distinct(val[..], numSymbols, n)
    modifies table, val
    ensures bits == Longest(numSymbols) && Distinct(w, numSymbols, n) && Ascending(w, numSymbols)
    ensures Rearranges(w, old(val[..]), numSymbols) && Written(w, numSymbols, table[..])
    ensures numSymbols == 0 ==> w == old(val[..])
  {
    hide Distinct, Rearranges, Permutes;
    w := val[..];
    if numSymbols == 0 {
      table[0] := Entry(0, val[0]);
      bits := 0;
      SameIs(w, 0, n);
    } else if numSymbols == 1 {
      if val[1] > val[0] {
        table[0], table[1] := Entry(1, val[0]), Entry(1, val[1]);
      } else {
        table[0], table[1] := Entry(1, val[1]), Entry(1, val[0]);
        w := w[0 := w[1]][1 := w[0]];
      }
      SwappedIs(w, val[..], 1, n, 0);
      bits := 1;
    } else if numSymbols == 2 {
      table[0], table[2] := Entry(1, val[0]), Entry(1, val[0]);
      if val[2] > val[1] {
        table[1], table[3] := Entry(2, val[1]), Entry(2, val[2]);
      } else {
        table[1], table[3] := Entry(2, val[2]), Entry(2, val[1]);
        w := w[1 := w[2]][2 := w[1]];
      }
      SwappedIs(w, val[..], 2, n, 1);
      bits := 2;
    } else if numSymbols == 3 {
      ghost var v0 := w;
      AllDiffer(w, n);
      SortFour(val);
      w := val[..];
      SortedIs(w, v0, n);
      table[0], table[2], table[1], table[3] := Entry(2, val[0]), Entry(2, val[1]), Entry(2, val[2]), Entry(2, val[3]);
      bits := 2;
    } else {
      ghost var v0 := w;
      if val[3] < val[2] {
        val[3], val[2] := val[2], val[3];
      }
      w := val[..];
      UsedDiffer(v0, numSymbols, n);
      SwappedIs(w, v0, 4, n, 2);
      table[0], table[1], table[2], table[3] := Entry(1, val[0]), Entry(2, val[1]), Entry(1, val[0]), Entry(3, val[2]);
      table[4], table[5], table[6], table[7] := Entry(1, val[0]), Entry(2, val[1]), Entry(1, val[0]), Entry(3, val[3]);
      bits := 3;
    }
  }

  lemma SameIs(val: seq<nat>, kind: nat, n: nat)
    requires Distinct(val, kind, n)
    ensures Rearranges(val, val, kind)
  {
  }

  lemma AllDiffer(val: seq<nat>, n: nat)
    requires Distinct(val, 3, n)
    ensures Permutes(val, val)
  {
  }

  lemma UsedDiffer(val: seq<nat>, kind: nat, n: nat)
    requires Distinct(val, kind, n) && kind > 2
    ensures kind <= 4 && val[2] != val[3]
  {
  }

  /** Builds the table of a code with one to four symbols: the single symbol without bits, or the table of the
      canonical code with the lengths of section 3.4, for every order in which the symbols were sent. */
  method BuildSimpleHuffmanTable(table: array<Entry>, val: array<nat>, numSymbols: nat, ghost n: nat)
    requires table as object != val && table.Length >= 256 && val.Length == 4 && Distinct(val[..], numSymbols, n)
    modifies table, val
    ensures numSymbols == 0 ==> Constant(table[..], n) && table[0].value == old(val[0])
    ensures numSymbols > 0 ==> TableFor(Lengths(old(val[..]), numSymbols, n), table[..])
    ensures Codes(table[..], n)
  {
    hide Rearranges, TableFor, Repeats;
    ghost var v0 := val[..];
    var bits: nat;
    ghost var w: seq<nat>;
    bits, w := WriteSlots(table, val, numSymbols, n);
    ghost var t := table[..];
    GrowRoot(table, bits);
    if numSymbols == 0 {
      WrittenIsConstant(t, table[..], n);
    } else {
      WrittenIsTable(w, numSymbols, n, t, table[..]);
      SameLengths(w, v0, numSymbols, n);
    }
  }
}
