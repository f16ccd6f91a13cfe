/** The code of the code-length symbols: sorting by length in place and building the 32-entry table. */
module LengthCode {
  import opened Bits
  import opened PrefixCode
  import opened HuffmanTable
  import opened LengthReader

  const LENGTH_SYMBOLS := 18

  /** Code lengths of the 18 code-length symbols. */
  ghost predicate LengthsOk(lens: seq<nat>) {
    |lens| == LENGTH_SYMBOLS && forall s :: 0 <= s < |lens| ==> lens[s] <= LENGTH_BITS
  }

  /** count holds the number of symbols of each length. */
  ghost predicate Counts(count: seq<nat>, lens: seq<nat>) {
    |count| > LENGTH_BITS && forall len :: 1 <= len <= LENGTH_BITS ==> count[len] == |Symbols(lens, len, |lens|)|
  }

  // ---------- Sorting the symbols by length ----------

  /** Where the symbols of a length begin; those without a code come last. */
  ghost function Base(lens: seq<nat>, len: nat): nat {
    if len == 0 then |Order(lens, LENGTH_BITS)| else |Order(lens, len - 1)|
  }

  lemma {:induction false} Partition(lens: seq<nat>, n: nat)
    requires LengthsOk(lens) && n <= |lens|
    ensures |Symbols(lens, 0, n)| + |Symbols(lens, 1, n)| + |Symbols(lens, 2, n)| + |Symbols(lens, 3, n)|
            + |Symbols(lens, 4, n)| + |Symbols(lens, 5, n)| == n
  {
    if n > 0 { Partition(lens, n - 1); }
  }

  /** Symbols without a code fill the rest of the sorted array. */
  lemma BaseOfZero(lens: seq<nat>)
    requires LengthsOk(lens)
    ensures Base(lens, 0) + |Symbols(lens, 0, |lens|)| == LENGTH_SYMBOLS
    ensures |Order(lens, LENGTH_BITS)| <= LENGTH_SYMBOLS
  {
    Partition(lens, |lens|);
    NoOrder(lens);
    OrderStep(lens, 1);
    OrderStep(lens, 2);
    OrderStep(lens, 3);
    OrderStep(lens, 4);
    OrderStep(lens, 5);
    hide Order, Symbols, Tagged;
  }

  /** offset holds, for each length, the place of the last symbol below n of that length. */
  ghost predicate Offsets(offset: seq<int>, lens: seq<nat>, n: nat) {
    && |offset| == LENGTH_BITS + 1 && n <= |lens|
    && forall len :: 0 <= len <= LENGTH_BITS ==> offset[len] == Base(lens, len) + |Symbols(lens, len, n)| - 1
  }

  /** The symbols from n on that have a code stand at their places in the order. */
  ghost predicate Sorted(sorted: seq<nat>, lens: seq<nat>, n: nat) {
    && |sorted| == LENGTH_SYMBOLS && n <= |lens|
    && forall s :: n <= s < |lens| && lens[s] > 0 ==> Index(lens, s) < LENGTH_SYMBOLS && sorted[Index(lens, s)] == s
  }

  lemma SymbolsStep(lens: seq<nat>, len: nat, n: nat)
    requires 0 < n <= |lens|
    ensures |Symbols(lens, len, n)| == |Symbols(lens, len, n - 1)| + if lens[n - 1] == len then 1 else 0
  {
  }

  lemma {:induction false} SymbolsGrow(lens: seq<nat>, len: nat, n: nat, m: nat)
    requires n <= m <= |lens|
    ensures |Symbols(lens, len, n)| <= |Symbols(lens, len, m)|
    decreases m
  {
    if n < m { SymbolsGrow(lens, len, n, m - 1); }
  }

  /** The place that is written for symbol s, and what it leaves alone. */
  lemma Place(lens: seq<nat>, offset: seq<int>, s: nat)
    requires LengthsOk(lens) && s < |lens| && Offsets(offset, lens, s + 1)
    ensures 0 <= offset[lens[s]] < LENGTH_SYMBOLS
    ensures lens[s] > 0 ==> offset[lens[s]] == Index(lens, s)
    ensures forall r :: 0 <= r < |lens| && lens[r] > 0 && r != s ==> Index(lens, r) != offset[lens[s]]
    ensures Offsets(offset[lens[s] := offset[lens[s]] - 1], lens, s)
  {
    forall len | 0 <= len <= LENGTH_BITS
      ensures |Symbols(lens, len, s + 1)| == |Symbols(lens, len, s)| + if lens[s] == len then 1 else 0
    {
      SymbolsStep(lens, len, s + 1);
    }
    SymbolsGrow(lens, 0, s + 1, |lens|);
    BaseOfZero(lens);
    OrderEnds(lens, LENGTH_BITS, MAX_LEN);
    hide Symbols, Order;
    if lens[s] > 0 { SymbolInterval(lens, s); }
    forall r | 0 <= r < |lens| && lens[r] > 0 && r != s
      ensures Index(lens, r) != offset[lens[s]]
    {
      SymbolInterval(lens, r);
    }
  }

  /** Sorts the symbols by length, then by value, from the last one down; reports whether only one has a code. */
  method SortSymbols(lens: seq<nat>, count: seq<nat>) returns (sorted: array<nat>, single: bool)
    requires LengthsOk(lens) && Counts(count, lens)
    ensures fresh(sorted) && sorted.Length == LENGTH_SYMBOLS && Sorted(sorted[..], lens, 0)
    ensures single == (|Order(lens, LENGTH_BITS)| == 1)
  {
    hide Symbols, Order, Index;
    sorted := new nat[LENGTH_SYMBOLS](_ => 0);
    var offset := new int[LENGTH_BITS + 1](_ => 0);
    var sym: int := -1;
    NoOrder(lens);
    for bitLen := 1 to LENGTH_BITS + 1
      invariant sym == |Order(lens, bitLen - 1)| - 1
      invariant forall len :: 1 <= len < bitLen ==> offset[len] == Base(lens, len) + |Symbols(lens, len, |lens|)| - 1
    {
      OrderStep(lens, bitLen);
      sym := sym + count[bitLen];
      offset[bitLen] := sym;
    }
    BaseOfZero(lens);
    offset[0] := LENGTH_SYMBOLS - 1;
    var s := LENGTH_SYMBOLS;
    while s > 0
      invariant 0 <= s <= LENGTH_SYMBOLS && sorted != offset as object
      invariant Offsets(offset[..], lens, s) && Sorted(sorted[..], lens, s)
    {
      s := s - 1;
      Place(lens, offset[..], s);
      sorted[offset[lens[s]]] := s;
      offset[lens[s]] := offset[lens[s]] - 1;
    }
    NoneBelow(lens);
    single := offset[0] == 0;
  }

  lemma NoneBelow(lens: seq<nat>)
    ensures |Symbols(lens, 0, 0)| == 0
  {
  }

  // ---------- Filling the table ----------

  /** A symbol of the sorted array, with its code length. */
  lemma SortedIsOrder(sorted: seq<nat>, lens: seq<nat>, len: nat, i: nat)
    requires LengthsOk(lens) && Sorted(sorted, lens, 0) && 1 <= len <= LENGTH_BITS
    requires |Order(lens, len - 1)| <= i < |Order(lens, len)|
    ensures i < |Order(lens, MAX_LEN)| && i < LENGTH_SYMBOLS && Order(lens, MAX_LEN)[i] == Coded(len, sorted[i])
  {
    hide Symbols, Order, Index;
    OrderPrefix(lens, len, MAX_LEN);
    OrderStep(lens, len);
    var order := Order(lens, MAX_LEN);
    assert order[i] == order[..|Order(lens, len)|][i] == Order(lens, len)[i];
    IndexOfPosition(lens, MAX_LEN, i);
  }

  /** Places the codes of one length from the sorted array on. */
  method PlaceLength(table: array<Entry>, sorted: array<nat>, ghost lens: seq<nat>, count: nat, bitLen: nat, key0: nat,
                     keyStep: nat,
                     step: nat, sym0: nat) returns (key: nat, sym: nat)
    requires table as object != sorted && table.Length == 32 && sorted.Length == LENGTH_SYMBOLS
    requires 1 <= bitLen <= LENGTH_BITS && step == Pow2(bitLen) && keyStep == Pow2(ROOT_BITS - bitLen)
    requires LengthsOk(lens) && Sorted(sorted[..], lens, 0) && Complete(Order(lens, MAX_LEN))
    requires sym0 == |Order(lens, bitLen - 1)| && sym0 + count == |Order(lens, bitLen)| <= |Order(lens, MAX_LEN)|
    requires 128 * key0 == Start(Order(lens, MAX_LEN), sym0) && RootFilled(Order(lens, MAX_LEN), table[..], 32, key0)
    modifies table
    ensures sym == |Order(lens, bitLen)| && 128 * key == Start(Order(lens, MAX_LEN), sym)
    ensures RootFilled(Order(lens, MAX_LEN), table[..], 32, key)
  {
    hide Symbols, Order, Index, Start, Rev, InClass, RootFilled, Sorted;
    ghost var order := Order(lens, MAX_LEN);
    key, sym := key0, sym0;
    FiveBits();
    var n := count;
    while n > 0
      invariant sym0 <= sym && sym + n == |Order(lens, bitLen)|
      invariant 128 * key == Start(order, sym) && RootFilled(order, table[..], 32, key)
    {
      SortedIsOrder(sorted[..], lens, bitLen, sym);
      ghost var c := RootKey(order, sym, key);
      ghost var before := table[..];
      ReplicateValue(table, 0, Rev(ROOT_BITS, key), Entry(bitLen, sorted[sym]), step, 32, bitLen, LENGTH_BITS);
      RootStep(order, sym, key, before, table[..], LENGTH_BITS);
      sym := sym + 1;
      key := key + keyStep;
      n := n - 1;
    }
  }

  method FillCodes(table: array<Entry>, sorted: array<nat>, ghost lens: seq<nat>, count: seq<nat>)
    requires table as object != sorted && table.Length == 32 && sorted.Length == LENGTH_SYMBOLS
    requires LengthsOk(lens) && Counts(count, lens)
    requires Sorted(sorted[..], lens, 0) && Complete(Order(lens, MAX_LEN))
    modifies table
    ensures RootFilled(Order(lens, MAX_LEN), table[..], 32, 256)
  {
    hide Symbols, Order, Index, Start, RootFilled, Sorted;
    ghost var order := Order(lens, MAX_LEN);
    var key, sym, keyStep, step := 0, 0, 128, 2;
    Powers();
    NoOrder(lens);
    StartAtZero(order);
    NothingFilled(order, table[..], 32);
    for bitLen := 1 to LENGTH_BITS + 1
      invariant sym == |Order(lens, bitLen - 1)| && step == Pow2(bitLen) && keyStep == Pow2(ROOT_BITS - bitLen)
      invariant sym <= |order| && 128 * key == Start(order, sym) && RootFilled(order, table[..], 32, key)
      invariant Sorted(sorted[..], lens, 0)
    {
      OrderStep(lens, bitLen);
      OrderPrefix(lens, bitLen, MAX_LEN);
      key, sym := PlaceLength(table, sorted, lens, count[bitLen], bitLen, key, keyStep, step, sym);
      step := step * 2;
      keyStep := keyStep / 2;
    }
    OrderEnds(lens, LENGTH_BITS, MAX_LEN);
  }

  // ---------- What the table holds ----------

  /** Every slot holds the symbol whose canonical code its bits start with, and that code's length. */
  ghost predicate Canonical(lens: seq<nat>, t: seq<Entry>) {
    |t| == 32 && forall x :: 0 <= x < 32 ==> StartsWithCode(lens, t[x].value, x) && t[x].bits == lens[t[x].value]
  }

  /** Every slot holds the one symbol, which takes no bits. */
  ghost predicate Single(s: nat, t: seq<Entry>) {
    |t| == 32 && forall x :: 0 <= x < 32 ==> t[x] == Entry(0, s)
  }

  lemma FilledIsCanonical(lens: seq<nat>, t: seq<Entry>)
    requires LengthsOk(lens) && Kraft(lens, |lens|) == Pow2(MAX_LEN) && |t| == 32
    requires Complete(Order(lens, MAX_LEN)) && RootFilled(Order(lens, MAX_LEN), t, 32, 256)
    ensures Canonical(lens, t)
  {
    hide Order, Rev, Start, At, Kraft, StartsWithCode, Index;
    var order := Order(lens, MAX_LEN);
    Powers();
    forall x | 0 <= x < 32
      ensures t[x].value < |lens| && StartsWithCode(lens, t[x].value, x) && t[x].bits == lens[t[x].value]
    {
      RevBound(ROOT_BITS, x);
      ShortReversal(x);
      CanonicalDecoding(lens, t[x].value, x);
      IndexOfPosition(lens, MAX_LEN, At(order, Rev(MAX_LEN, x)));
    }
  }

  lemma ShortReversal(x: nat)
    requires x < 256
    ensures Rev(MAX_LEN, x) == 128 * Rev(ROOT_BITS, x)
  {
    hide Rev;
    Powers();
    RevSplit(ROOT_BITS, 7, x);
    LowSmall(x, ROOT_BITS);
    RevZero(7);
  }

  /** The table of a complete code is one that the readers of code-length symbols can use. */
  lemma CanonicalIsLengthTable(lens: seq<nat>, t: seq<Entry>)
    requires LengthsOk(lens) && Kraft(lens, |lens|) == Pow2(MAX_LEN) && Canonical(lens, t)
    ensures LengthTable(t)
  {
    hide Low, Rev, Kraft, CodeOf, At, Order;
    forall v, w | 0 <= v < 32 && 0 <= w < 32 && Low(v, t[v].bits) == Low(w, t[v].bits)
      ensures t[w] == t[v]
    {
      var k := t[v].bits;
      RevOfLow(k, k, v);
      RevOfLow(k, k, w);
      assert StartsWithCode(lens, t[v].value, w);
      CanonicalDecoding(lens, t[v].value, w);
      CanonicalDecoding(lens, t[w].value, w);
    }
  }

  lemma SingleIsLengthTable(s: nat, t: seq<Entry>)
    requires Single(s, t) && s < LENGTH_SYMBOLS
    ensures LengthTable(t)
  {
    hide Low;
  }

  /** Writes the entry of a single symbol to all slots, by doubling copies. */
  method FillSingle(table: array<Entry>, s: nat)
    requires table.Length == 32
    modifies table
    ensures Single(s, table[..])
  {
    table[0] := Entry(0, s);
    var i := 1;
    while i < 32
      invariant i in {1, 2, 4, 8, 16, 32}
      invariant forall x :: 0 <= x < i ==> table[x] == Entry(0, s)
      decreases 32 - i
    {
      CopyFront(table, i);
      i := i * 2;
    }
  }

  /** The lengths that the reader of the code-length code accepts: one symbol, or Kraft sum one. */
  ghost predicate Accepted(lens: seq<nat>) {
    LengthsOk(lens) && (|Order(lens, LENGTH_BITS)| == 1 || Kraft(lens, |lens|) == Pow2(MAX_LEN))
  }

  /** Builds the table of the code-length code: the canonical code of the lengths, or the single symbol without
      bits. Either way it is one that the readers of code-length symbols can use. */
  method BuildCodeLengthsHuffmanTable(table: array<Entry>, lens: seq<nat>, count: seq<nat>)
    requires table.Length == 32 && Accepted(lens) && Counts(count, lens)
    modifies table
    ensures |Order(lens, LENGTH_BITS)| == 1 ==> Single(Order(lens, LENGTH_BITS)[0].sym, table[..])
    ensures |Order(lens, LENGTH_BITS)| != 1 ==> Canonical(lens, table[..])
    ensures LengthTable(table[..])
  {
    hide Symbols, Order, Index, Start, RootFilled, Kraft, Canonical, Single, LengthTable, Complete;
    var sorted, single := SortSymbols(lens, count);
    OrderEnds(lens, LENGTH_BITS, MAX_LEN);
    if single {
      FirstSorted(sorted[..], lens);
      FillSingle(table, sorted[0]);
      SingleIsLengthTable(sorted[0], table[..]);
    } else {
      KraftIsComplete(lens);
      FillCodes(table, sorted, lens, count);
      FilledIsCanonical(lens, table[..]);
      CanonicalIsLengthTable(lens, table[..]);
    }
  }

  lemma FirstSorted(sorted: seq<nat>, lens: seq<nat>)
    requires LengthsOk(lens) && Sorted(sorted, lens, 0) && |Order(lens, LENGTH_BITS)| > 0
    ensures sorted[0] == Order(lens, LENGTH_BITS)[0].sym < LENGTH_SYMBOLS
  {
    hide Symbols, Order, Index;
    IndexOfPosition(lens, LENGTH_BITS, 0);
  }
}
