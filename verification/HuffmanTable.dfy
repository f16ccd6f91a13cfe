/** The two-level lookup table of the decoder: construction from per-length linked symbol lists
    and a length histogram, with bit-reversed keys, and decoding with it. */
module HuffmanTable {
  import opened Bits
  import opened PrefixCode

  const ROOT_BITS := 8
  const LIST_BASE := 16   // list heads occupy the slots of the code lengths, links follow
  const NO_SYMBOL := 0xFFFF

  /** bits: code length, or the index width of a second-level table; value: symbol, or offset. */
  datatype Entry = Entry(bits: nat, value: nat)

  // ---------- Bit-reversed cells ----------

  /** The n-bit index x falls, when reversed, into the cell of code c of length len exactly when its
      low len bits are the reversed left-aligned code. */
  lemma Cell(n: nat, len: nat, c: nat, x: nat)
    requires len <= n && c < Pow2(len)
    ensures var key := c * Pow2(n - len);
            Rev(n, key) < Pow2(len) && (key <= Rev(n, x) < key + Pow2(n - len) <==> Low(x, len) == Rev(n, key))
  {
    hide Rev, Low, High, Pow2;
    var w := Pow2(n - len);
    KeyReversed(n, len, c);
    CellByCode(n, len, c, x);
    if Rev(len, x) == c {
      RevRev(len, x);
    }
    if Low(x, len) == Rev(len, c) {
      RevOfLow(len, len, x);
      RevRev(len, c);
      LowSmall(c, len);
    }
  }

  /** The reversed index lies in a cell exactly when its reversed low bits are the code. */
  lemma CellByCode(n: nat, len: nat, c: nat, x: nat)
    requires len <= n
    ensures var w := Pow2(n - len); c * w <= Rev(n, x) < c * w + w <==> Rev(len, x) == c
  {
    hide Rev, Low, High, Pow2;
    var w, r := Pow2(n - len), Rev(n, x);
    RevParts(len, n - len, x);
    HighLow(r, n - len);
    if c * w <= r < c * w + w {
      SplitSum(n - len, c, r - c * w);
    }
  }

  /** A left-aligned code reversed is the reversed code. */
  lemma KeyReversed(n: nat, len: nat, c: nat)
    requires len <= n && c < Pow2(len)
    ensures Rev(n, c * Pow2(n - len)) == Rev(len, c) < Pow2(len)
  {
    hide Rev, Low, High;
    var key := c * Pow2(n - len);
    SplitSum(n - len, c, 0);
    RevParts(n - len, len, key);
    RevOfLow(n - len, n - len, key);
    RevZero(n - len);
    HighLow(Rev(n, key), len);
    RevBound(len, c);
  }

  /** Slot y lies in the part lo .. hi of a region and has the low bits base. */
  ghost predicate InClass(y: int, off: nat, lo: nat, hi: nat, len: nat, base: nat) {
    off + lo <= y < off + hi && Low(y - off, len) == base
  }

  /** One more step downwards adds exactly one slot. */
  lemma ClassGrows(off: nat, m: nat, hi: nat, len: nat, base: nat, y: int)
    requires base < Pow2(len) && (m + 1) * Pow2(len) <= hi
    ensures InClass(y, off, m * Pow2(len), hi, len, base)
       <==> (y == off + base + m * Pow2(len) || InClass(y, off, (m + 1) * Pow2(len), hi, len, base))
  {
    hide Low;
    var step := Pow2(len);
    SumTimes(m, 1, step);
    SplitSum(len, m, base);
    if off + m * step <= y < off + m * step + step {
      SplitSum(len, m, y - off - m * step);
    }
  }

  /** Stores code at every step-th slot of a table region, from the end downwards. */
  method ReplicateValue(table: array<Entry>, off: nat, base: nat, code: Entry, step: nat, end: nat, ghost len: nat,
                        ghost bits: nat)
    requires len <= bits && step == Pow2(len) && end == Pow2(bits) && base < step && off + end <= table.Length
    modifies table
    ensures forall y :: 0 <= y < table.Length ==>
              table[y] == if InClass(y, off, 0, Pow2(bits), len, base) then code else old(table[y])
  {
    hide InClass;
    Pow2Add(bits - len, len);
    ghost var m := Pow2(bits - len);
    var e := end;
    EmptyClass(off, end, len, base);
    while e > 0
      invariant 0 <= e <= end && e == m * step
      invariant forall y :: 0 <= y < table.Length ==>
                  table[y] == if InClass(y, off, e, end, len, base) then code else old(table[y])
    {
      m := m - 1;
      SumTimes(m, 1, step);
      e := e - step;
      forall y: int
        ensures InClass(y, off, e, end, len, base) <==>
                (y == off + base + e || InClass(y, off, e + step, end, len, base))
      {
        ClassGrows(off, m, end, len, base, y);
      }
      table[off + base + e] := code;
    }
  }

  lemma EmptyClass(off: nat, hi: nat, len: nat, base: nat)
    ensures forall y: int :: !InClass(y, off, hi, hi, len, base)
  {
  }

  // ---------- Lists and histogram describe the order ----------

  /** Slot that points to the i-th symbol: the list head of its length, or its predecessor's link. */
  function PointerTo(order: seq<Coded>, i: nat): nat
    requires i < |order|
  {
    if i == 0 || order[i - 1].len < order[i].len then order[i].len else LIST_BASE + order[i - 1].sym
  }

  /** The linked lists enumerate the symbols of the order, length by length. */
  ghost predicate Linked(storage: seq<nat>, order: seq<Coded>) {
    && |storage| >= LIST_BASE
    && (forall i :: 0 <= i < |order| ==>
       order[i].len < LIST_BASE && order[i].sym < NO_SYMBOL && LIST_BASE + order[i].sym < |storage|)
    && (forall i :: 0 <= i < |order| ==> storage[PointerTo(order, i)] == order[i].sym)
    && (forall len :: 1 <= len <= MAX_LEN && CountOf(order, len, 0) == 0 ==> storage[len] == NO_SYMBOL)
  }

  /** Number of symbols of one length from position i on. */
  ghost function CountOf(order: seq<Coded>, len: nat, i: nat): nat
    requires i <= |order|
    decreases |order| - i
  {
    if i == |order| then 0 else CountOf(order, len, i + 1) + if order[i].len == len then 1 else 0
  }

  ghost predicate Histogram(count: seq<nat>, order: seq<Coded>, i: nat)
    requires i <= |order|
  {
    |count| > MAX_LEN && forall len :: 1 <= len <= MAX_LEN ==> count[len] == CountOf(order, len, i)
  }

  /** The same for the lengths beyond the root index. */
  ghost predicate LongHistogram(count: seq<nat>, order: seq<Coded>, i: nat)
    requires i <= |order|
  {
    |count| > MAX_LEN && forall len :: ROOT_BITS < len <= MAX_LEN ==> count[len] == CountOf(order, len, i)
  }

  ghost predicate AtLeast(order: seq<Coded>, i: nat, len: nat) {
    forall j :: i <= j < |order| ==> order[j].len >= len
  }

  lemma {:induction false} CountNone(order: seq<Coded>, len: nat, i: nat)
    requires i <= |order| && AtLeast(order, i, len + 1)
    ensures CountOf(order, len, i) == 0
    decreases |order| - i
  {
    if i < |order| { CountNone(order, len, i + 1); }
  }

  /** While symbols of the least remaining length are left, the next symbol has that length. */
  lemma NextHasLength(order: seq<Coded>, len: nat, i: nat)
    requires Ordered(order) && i <= |order| && AtLeast(order, i, len) && CountOf(order, len, i) > 0
    ensures i < |order| && order[i].len == len
    ensures CountOf(order, len, i + 1) == CountOf(order, len, i) - 1
    ensures AtLeast(order, i + 1, len)
  {
    if i < |order| && order[i].len > len {
      CountNone(order, len, i);
    }
  }

  lemma {:induction false} NoneLeft(order: seq<Coded>, len: nat, i: nat)
    requires Ordered(order) && i <= |order| && AtLeast(order, i, len) && CountOf(order, len, i) == 0
    ensures AtLeast(order, i, len + 1)
    decreases |order| - i
  {
    if i < |order| {
      NoneLeft(order, len, i + 1);
    }
  }

  // ---------- The root table ----------

  /** What the code assigns to the 15-bit number v. */
  ghost function Decoded(order: seq<Coded>, v: nat): Coded
    requires Complete(order) && v < Pow2(MAX_LEN)
  {
    order[At(order, v)]
  }

  /** What the code assigns to an 8-bit prefix y followed by the 7 bits u. */
  ghost function DecodedAt(order: seq<Coded>, y: nat, u: nat): Coded
    requires Complete(order) && y < 256 && u < 128
  {
    Powers();
    Decoded(order, 128 * y + u)
  }

  /** Slot x of the root table holds the short code of its reversed index. */
  ghost predicate RootOk(order: seq<Coded>, e: Entry, x: nat)
    requires Complete(order) && x < 256
  {
    Powers();
    RevBound(ROOT_BITS, x);
    var d := DecodedAt(order, Rev(ROOT_BITS, x), 0);
    d.len <= ROOT_BITS && e == Entry(d.len, d.sym)
  }

  /** All slots whose reversed index is below key are done. */
  ghost predicate RootFilled(order: seq<Coded>, t: seq<Entry>, size: nat, key: nat)
    requires Complete(order) && size <= |t| && size <= 256
  {
    forall x :: 0 <= x < size && Rev(ROOT_BITS, x) < key ==> RootOk(order, t[x], x)
  }

  /** The key of the p-th symbol is its code, left-aligned in 8 bits. */
  lemma RootKey(order: seq<Coded>, p: nat, key: nat) returns (c: nat)
    requires Complete(order) && p < |order| && order[p].len <= ROOT_BITS && 128 * key == Start(order, p)
    ensures c < Pow2(order[p].len) && key == c * Pow2(ROOT_BITS - order[p].len)
    ensures 128 * (key + Pow2(ROOT_BITS - order[p].len)) == Start(order, p + 1)
    ensures key + Pow2(ROOT_BITS - order[p].len) <= 256
    ensures Rev(ROOT_BITS, key) < Pow2(order[p].len)
  {
    hide Start, Rev;
    var len := order[p].len;
    Powers();
    c := StartIsMultiple(order, p);
    CodeFits(order, p, c);
    Pow2Add(7, ROOT_BITS - len);
    assert 7 + (ROOT_BITS - len) == MAX_LEN - len;
    StartNext(order, p);
    StartMonotone(order, p + 1, |order|);
    CancelFactor(key, c, Pow2(ROOT_BITS - len));
    KeyReversed(ROOT_BITS, len, c);
  }

  lemma CancelFactor(key: nat, c: nat, w: nat)
    requires 128 * key == c * (128 * w)
    ensures key == c * w
  {
    assert c * (128 * w) == 128 * (c * w);
  }

  /** Placing one short code extends the filled part by its cell. */
  lemma RootStep(order: seq<Coded>, p: nat, key: nat, t: seq<Entry>, t': seq<Entry>, bits: nat)
    requires Complete(order) && p < |order| && order[p].len <= bits <= ROOT_BITS && 128 * key == Start(order, p)
    requires |t| == |t'| && Pow2(bits) <= |t| && Pow2(bits) <= 256 && RootFilled(order, t, Pow2(bits), key)
    requires forall y :: 0 <= y < |t| ==>
               t'[y] == if InClass(y, 0, 0, Pow2(bits), order[p].len, Rev(ROOT_BITS, key)) then
                 Entry(order[p].len, order[p].sym) else t[y]
    ensures RootFilled(order, t', Pow2(bits), key + Pow2(ROOT_BITS - order[p].len))
  {
    hide Start, Rev, Low, RootOk;
    var len := order[p].len;
    var c := RootKey(order, p, key);
    forall x | 0 <= x < Pow2(bits) && Rev(ROOT_BITS, x) < key + Pow2(ROOT_BITS - len)
      ensures RootOk(order, t'[x], x)
    {
      Cell(ROOT_BITS, len, c, x);
      if key <= Rev(ROOT_BITS, x) {
        ShortCell(order, p, key, x);
      }
    }
  }

  lemma ShortCell(order: seq<Coded>, p: nat, key: nat, x: nat)
    requires Complete(order) && p < |order| && order[p].len <= ROOT_BITS && 128 * key == Start(order, p) && x < 256
    requires key <= Rev(ROOT_BITS, x) < key + Pow2(ROOT_BITS - order[p].len)
    ensures RootOk(order, Entry(order[p].len, order[p].sym), x)
  {
    hide Start, Rev, At;
    var c := RootKey(order, p, key);
    Powers();
    RevBound(ROOT_BITS, x);
    StartNext(order, p);
    AtUnique(order, 128 * Rev(ROOT_BITS, x), p);
  }

  /** The link slot that the list walk of one length has reached. */
  ghost predicate Cursor(order: seq<Coded>, p: nat, len: nat, slot: nat)
    requires p <= |order|
  {
    || (slot == len && (p == 0 || order[p - 1].len < len))
    || (p > 0 && order[p - 1].len == len && slot == LIST_BASE + order[p - 1].sym)
  }

  lemma FollowLink(storage: seq<nat>, order: seq<Coded>, p: nat, len: nat, slot: nat)
    requires Ordered(order) && Linked(storage, order) && p < |order| && order[p].len == len
             && Cursor(order, p, len, slot)
    ensures slot < |storage| && storage[slot] == order[p].sym
    ensures Cursor(order, p + 1, len, LIST_BASE + order[p].sym)
  {
    assert slot == PointerTo(order, p);
  }

  /** The longest code length: the last non-empty list. */
  method MaxLength(storage: seq<nat>, ghost order: seq<Coded>) returns (maxLength: nat)
    requires Complete(order) && Linked(storage, order)
    ensures 1 <= maxLength <= MAX_LEN
    ensures forall i :: 0 <= i < |order| ==> order[i].len <= maxLength
  {
    hide CountOf, Linked;
    Powers();
    assert |order| > 0;
    assert |storage| > MAX_LEN by { StorageHasHeads(storage, order); }
    ghost var last := order[|order| - 1].len;
    LastHasHead(storage, order);
    maxLength := MAX_LEN;
    while storage[maxLength] == NO_SYMBOL
      invariant last <= maxLength <= MAX_LEN
      decreases maxLength
    {
      maxLength := maxLength - 1;
    }
  }

  lemma StorageHasHeads(storage: seq<nat>, order: seq<Coded>)
    requires Linked(storage, order)
    ensures |storage| > MAX_LEN
  {
  }

  lemma {:induction false} FirstOfLength(order: seq<Coded>, i: nat) returns (j: nat)
    requires Ordered(order) && i < |order|
    ensures j <= i && order[j].len == order[i].len && PointerTo(order, j) == order[i].len
  {
    if i == 0 || order[i - 1].len < order[i].len {
      j := i;
    } else {
      j := FirstOfLength(order, i - 1);
    }
  }

  lemma LastHasHead(storage: seq<nat>, order: seq<Coded>)
    requires Ordered(order) && Linked(storage, order) && |order| > 0
    ensures storage[order[|order| - 1].len] != NO_SYMBOL
  {
    hide CountOf, Ordered;
    var j := FirstOfLength(order, |order| - 1);
    hide PointerTo;
    assert storage[PointerTo(order, j)] == order[j].sym;
  }

  /** Places all codes of at most tableBits bits; the key is the next code, left-aligned in 8 bits. */
  method FillRoot(table: array<Entry>, storage: seq<nat>, count: array<nat>, tableBits: nat, ghost order: seq<Coded>)
    returns (key: nat, ghost p: nat)
    requires Complete(order) && Linked(storage, order) && Histogram(count[..], order, 0)
    requires table as object != count
    requires 1 <= tableBits <= ROOT_BITS && Pow2(tableBits) <= table.Length && Pow2(tableBits) <= 256
    modifies table
    ensures p <= |order| && AtLeast(order, p, tableBits + 1) && (p == 0 || order[p - 1].len <= tableBits)
    ensures 128 * key == Start(order, p)
    ensures RootFilled(order, table[..], Pow2(tableBits), key)
    ensures forall len :: tableBits < len <= MAX_LEN ==> CountOf(order, len, p) == CountOf(order, len, 0)
  {
    hide Start, Rev, InClass, Linked, RootOk, CountOf;
    key, p := 0, 0;
    var keyStep, step := 128, 2;
    var bitLen := 1;
    Powers();
    StartAtZero(order);
    NothingFilled(order, table[..], Pow2(tableBits));
    while bitLen <= tableBits
      invariant 1 <= bitLen <= tableBits + 1
      invariant step == Pow2(bitLen) && (bitLen <= ROOT_BITS ==> keyStep == Pow2(ROOT_BITS - bitLen))
      invariant p <= |order| && AtLeast(order, p, bitLen) && (p == 0 || order[p - 1].len < bitLen)
      invariant 128 * key == Start(order, p)
      invariant RootFilled(order, table[..], Pow2(tableBits), key)
      invariant forall len :: bitLen <= len <= MAX_LEN ==> CountOf(order, len, p) == CountOf(order, len, 0)
      invariant Histogram(count[..], order, 0)
    {
      key, p := FillLength(table, storage, count[bitLen], tableBits, bitLen, key, keyStep, step, order, p);
      NoneLeft(order, bitLen, p);
      bitLen := bitLen + 1;
      step := step * 2;
      keyStep := keyStep / 2;
    }
  }

  lemma NothingFilled(order: seq<Coded>, t: seq<Entry>, size: nat)
    requires Complete(order) && size <= |t| && size <= 256
    ensures RootFilled(order, t, size, 0)
  {
  }

  /** Places the codes of one length, following its list. */
  method FillLength(table: array<Entry>, storage: seq<nat>, count: nat, tableBits: nat, bitLen: nat, key0: nat,
                    keyStep: nat, step: nat,
                    ghost order: seq<Coded>, ghost p0: nat) returns (key: nat, ghost p: nat)
    requires Complete(order) && Linked(storage, order) && p0 <= |order| && count == CountOf(order, bitLen, p0)
    requires 1 <= bitLen <= tableBits <= ROOT_BITS && Pow2(tableBits) <= table.Length && Pow2(tableBits) <= 256
    requires step == Pow2(bitLen) && keyStep == Pow2(ROOT_BITS - bitLen)
    requires AtLeast(order, p0, bitLen) && (p0 == 0 || order[p0 - 1].len < bitLen)
    requires 128 * key0 == Start(order, p0) && RootFilled(order, table[..], Pow2(tableBits), key0)
    modifies table
    ensures p0 <= p <= |order| && AtLeast(order, p, bitLen) && CountOf(order, bitLen, p) == 0
            && (p == 0 || order[p - 1].len <= bitLen)
    ensures 128 * key == Start(order, p) && RootFilled(order, table[..], Pow2(tableBits), key)
    ensures forall len :: bitLen < len <= MAX_LEN ==> CountOf(order, len, p) == CountOf(order, len, p0)
  {
    hide Start, Rev, InClass, Linked, RootFilled, CountOf;
    key, p := key0, p0;
    var slot: nat, n: nat := bitLen, count;
    while n > 0
      invariant p0 <= p <= |order| && AtLeast(order, p, bitLen) && n == CountOf(order, bitLen, p)
                && (p == 0 || order[p - 1].len <= bitLen)
      invariant 128 * key == Start(order, p) && RootFilled(order, table[..], Pow2(tableBits), key)
      invariant Cursor(order, p, bitLen, slot)
      invariant forall len :: bitLen < len <= MAX_LEN ==> CountOf(order, len, p) == CountOf(order, len, p0)
    {
      NextHasLength(order, bitLen, p);
      FollowLink(storage, order, p, bitLen, slot);
      CountOthers(order, bitLen, p);
      ghost var c := RootKey(order, p, key);
      var sym := storage[slot];
      slot := LIST_BASE + sym;
      ghost var before := table[..];
      ReplicateValue(table, 0, Rev(ROOT_BITS, key), Entry(bitLen, sym), step, Pow2(tableBits), bitLen, tableBits);
      RootStep(order, p, key, before, table[..], tableBits);
      key := key + keyStep;
      p := p + 1;
      n := n - 1;
    }
  }

  lemma CountOthers(order: seq<Coded>, len: nat, p: nat)
    requires p < |order| && order[p].len == len
    ensures forall l :: l != len ==> CountOf(order, l, p + 1) == CountOf(order, l, p)
  {
  }

  // ---------- Short codes only: the root table repeats ----------

  /** Copies the first size entries behind themselves. */
  method CopyFront(table: array<Entry>, size: nat)
    requires 2 * size <= table.Length
    modifies table
    ensures forall x :: 0 <= x < table.Length ==> table[x] == old(table[if size <= x < 2 * size then x - size else x])
  {
    forall i | size <= i < 2 * size { table[i] := table[i - size]; }
  }

  /** The first size entries of t repeat those of t0 with period 2^bits. */
  ghost predicate Repeats(t: seq<Entry>, t0: seq<Entry>, size: nat, bits: nat)
    requires size <= |t|
  {
    forall x :: 0 <= x < size ==> Low(x, bits) < |t0| && t[x] == t0[Low(x, bits)]
  }

  lemma RepeatsTwice(t: seq<Entry>, t': seq<Entry>, t0: seq<Entry>, b: nat, bits: nat)
    requires bits <= b && 2 * Pow2(b) <= |t| == |t'| && Repeats(t, t0, Pow2(b), bits)
    requires forall x :: 0 <= x < |t| ==> t'[x] == t[if Pow2(b) <= x < 2 * Pow2(b) then x - Pow2(b) else x]
    ensures Repeats(t', t0, 2 * Pow2(b), bits)
  {
    hide Low, Pow2;
    var size := Pow2(b);
    forall x | 0 <= x < 2 * size
      ensures Low(x, bits) < |t0| && t'[x] == t0[Low(x, bits)]
    {
      if size <= x {
        SplitSum(b, 1, x - size);
        LowLow(x, bits, b);
        assert t[x - size] == t0[Low(x - size, bits)];
      }
    }
  }

  lemma RepeatsOnce(t: seq<Entry>, bits: nat)
    requires Pow2(bits) <= |t|
    ensures Repeats(t, t, Pow2(bits), bits)
  {
    hide Low;
    forall x | 0 <= x < Pow2(bits) ensures Low(x, bits) == x { LowSmall(x, bits); }
  }

  /** Doubles the table by copying until it has the root size. */
  method GrowRoot(table: array<Entry>, tableBits: nat)
    requires tableBits <= ROOT_BITS && 256 <= table.Length
    modifies table
    ensures Repeats(table[..], old(table[..]), 256, tableBits)
  {
    hide Repeats;
    Powers();
    var size := Pow2(tableBits);
    ghost var b, t0 := tableBits, table[..];
    Pow2Monotone(tableBits, ROOT_BITS);
    RepeatsOnce(t0, tableBits);
    while size != 256
      invariant tableBits <= b <= ROOT_BITS && size == Pow2(b) <= 256
      invariant Repeats(table[..], t0, size, tableBits)
      decreases 256 - size
    {
      Pow2Monotone(b + 1, ROOT_BITS);
      ghost var t := table[..];
      CopyFront(table, size);
      RepeatsTwice(t, table[..], t0, b, tableBits);
      size := 2 * size;
      b := b + 1;
    }
  }

  /** An interval of length at most bits that contains a cell's start contains the cell. */
  lemma CellInside(order: seq<Coded>, i: nat, bits: nat, t: nat, y: nat)
    requires Complete(order) && i < |order| && order[i].len <= bits <= ROOT_BITS
    requires var w := Pow2(ROOT_BITS - bits);
             Start(order, i) <= 128 * (t * w) < Start(order, i) + Width(order[i].len) && t * w <= y < t * w + w
    ensures Start(order, i) <= 128 * y < Start(order, i) + Width(order[i].len)
  {
    hide Start;
    Powers();
    var w := Pow2(ROOT_BITS - bits);
    var c := StartIsMultiple(order, i);
    Pow2Add(bits - order[i].len, MAX_LEN - bits);
    Pow2Add(7, ROOT_BITS - bits);
    assert 7 + (ROOT_BITS - bits) == MAX_LEN - bits;
    WholeCell(c, Pow2(bits - order[i].len), 128 * w, t);
    TimesSwap(t, w);
  }

  lemma TimesSwap(t: nat, w: nat)
    ensures 128 * (t * w) == t * (128 * w)
  {
  }

  /** Two indices with the same low bits hold the same short code. */
  lemma SameLowBits(order: seq<Coded>, e: Entry, bits: nat, x: nat)
    requires Complete(order) && 1 <= bits <= ROOT_BITS && x < 256 && Low(x, bits) < 256
    requires RootOk(order, e, Low(x, bits)) && e.bits <= bits
    ensures RootOk(order, e, x)
  {
    hide Rev, Low, High, Start, At, Pow2;
    Powers();
    var y, yl := Rev(ROOT_BITS, x), Rev(ROOT_BITS, Low(x, bits));
    RevBound(ROOT_BITS, x);
    RevBound(ROOT_BITS, Low(x, bits));
    ReversedPrefix(ROOT_BITS, bits, x);
    var i := At(order, 128 * yl);
    CellInside(order, i, bits, Rev(bits, x), y);
    AtUnique(order, 128 * y, i);
  }

  /** Reversed, x lies in the cell that starts at its reversed low bits. */
  lemma ReversedPrefix(n: nat, bits: nat, x: nat)
    requires bits <= n
    ensures var w := Pow2(n - bits);
            Rev(n, Low(x, bits)) == Rev(bits, x) * w <= Rev(n, x) < Rev(bits, x) * w + w
  {
    hide Rev, Low, High;
    var k := n - bits;
    var xl := Low(x, bits);
    RevParts(bits, k, x);
    HighLow(Rev(n, x), k);
    RevParts(bits, k, xl);
    HighLow(Rev(n, xl), k);
    RevOfLow(bits, bits, x);
    HighLow(x, bits);
    LowSmall(xl, bits);
    RevZero(k);
  }

  /** A cell of size w that starts inside an interval of multiples of w lies inside it. */
  lemma WholeCell(c: nat, k: nat, w: nat, t: nat)
    requires w > 0
    ensures c * (k * w) <= t * w < c * (k * w) + k * w ==> t * w + w <= c * (k * w) + k * w
  {
    Regroup(c, k, w);
    if t * w < ((c + 1) * k) * w {
      if (c + 1) * k <= t {
        SumTimes((c + 1) * k, t - (c + 1) * k, w);
      } else {
        SumTimes(t, 1, w);
        SumTimes(t + 1, (c + 1) * k - (t + 1), w);
      }
    }
  }

  /** After growing, the whole root table is filled. */
  lemma GrownIsFilled(order: seq<Coded>, t: seq<Entry>, t': seq<Entry>, bits: nat)
    requires Complete(order) && 1 <= bits <= ROOT_BITS && |t| == |t'| && 256 <= |t| && Pow2(bits) <= 256
    requires RootFilled(order, t, Pow2(bits), 256)
    requires forall i :: 0 <= i < |order| ==> order[i].len <= bits
    requires Repeats(t', t, 256, bits)
    ensures RootFilled(order, t', 256, 256)
  {
    hide Rev, Low, Start;
    Powers();
    forall x | 0 <= x < 256
      ensures RootOk(order, t'[x], x)
    {
      HighLow(x, bits);
      RevBound(ROOT_BITS, Low(x, bits));
      assert RootOk(order, t[Low(x, bits)], Low(x, bits));
      SameLowBits(order, t'[x], bits, x);
    }
  }

  // ---------- Second-level tables: layout ----------

  /** Codes under the 8-bit prefix y are longer than the root index. */
  ghost predicate Long(order: seq<Coded>, y: nat)
    requires Complete(order) && y < 256
  {
    DecodedAt(order, y, 0).len > ROOT_BITS
  }

  lemma LongTail(order: seq<Coded>, y: nat)
    requires Complete(order) && y < 256
    ensures DecodedAt(order, y, 0).len <= DecodedAt(order, y, 127).len
  {
    hide At;
    Powers();
    AtOrdered(order, 128 * y, 128 * y + 127);
  }

  /** Index width of the second-level table of prefix y: what the longest code under y needs. */
  ghost function SubBits(order: seq<Coded>, y: nat): (b: nat)
    requires Complete(order) && y < 256 && Long(order, y)
    ensures 1 <= b <= 7
  {
    LongTail(order, y);
    DecodedAt(order, y, 127).len - ROOT_BITS
  }

  ghost function SubSize(order: seq<Coded>, y: nat): nat
    requires Complete(order) && y < 256
  {
    if Long(order, y) then Pow2(SubBits(order, y)) else 0
  }

  /** Offset of the second-level table of prefix y; the tables follow each other. */
  ghost function Off(order: seq<Coded>, y: nat): (o: nat)
    requires Complete(order) && y <= 256
    ensures o >= 256
  {
    if y == 0 then 256 else Off(order, y - 1) + SubSize(order, y - 1)
  }

  /** Total number of entries. */
  ghost function TableSize(order: seq<Coded>): nat
    requires Complete(order)
  {
    Off(order, 256)
  }

  lemma {:induction false} OffMonotone(order: seq<Coded>, y: nat, z: nat)
    requires Complete(order) && y <= z <= 256
    ensures Off(order, y) <= Off(order, z)
    ensures y < z ==> Off(order, y) + SubSize(order, y) <= Off(order, z)
    decreases z
  {
    hide SubSize;
    if y < z { OffMonotone(order, y, z - 1); }
  }

  /** Slot s of the table of prefix y holds the code that its reversed index selects. */
  ghost predicate SlotOk(order: seq<Coded>, e: Entry, y: nat, s: nat)
    requires Complete(order) && y < 256
  {
    Powers();
    RevBound(7, s);
    var d := DecodedAt(order, y, Rev(7, s));
    d.len > ROOT_BITS && e == Entry(d.len - ROOT_BITS, d.sym)
  }

  /** The table of prefix y is linked from the root and filled below the number k. */
  ghost predicate SubtableOk(order: seq<Coded>, t: seq<Entry>, y: nat, k: nat)
    requires Complete(order) && y < 256 && Off(order, 256) <= |t|
  {
    RevBound(ROOT_BITS, y);
    Powers();
    && Long(order, y)
    && Off(order, y) + Pow2(SubBits(order, y)) <= |t|
    && t[Rev(ROOT_BITS, y)] == Entry(ROOT_BITS + SubBits(order, y), Off(order, y) - Rev(ROOT_BITS, y))
    && forall s :: 0 <= s < Pow2(SubBits(order, y)) && 128 * y + Rev(7, s) < k ==>
       SlotOk(order, t[Off(order, y) + s], y, s)
  }

  /** State of the second phase: short codes below k0, tables of the prefixes k0 .. key - 1. */
  ghost predicate Second(order: seq<Coded>, t: seq<Entry>, k0: nat, key: nat, k: nat)
    requires Complete(order) && k0 <= key <= 256 && Off(order, 256) <= |t|
  {
    OffMonotone(order, 0, 256);
    RootFilled(order, t, 256, k0) && forall y :: k0 <= y < key ==> SubtableOk(order, t, y, k)
  }

  /** The prefixes from k0 on are exactly the long ones. */
  lemma LongFrom(order: seq<Coded>, p: nat, k0: nat, y: nat)
    requires Complete(order) && p <= |order| && 128 * k0 == Start(order, p) && k0 <= 256 && y < 256
    requires AtLeast(order, p, ROOT_BITS + 1) && (p == 0 || order[p - 1].len <= ROOT_BITS)
    ensures Long(order, y) <==> k0 <= y
  {
    hide Start, At;
    Powers();
    var i := At(order, 128 * y);
    if k0 <= y {
      if i < p { StartMonotone(order, i, p); }
    } else {
      if p <= i { StartMonotone(order, p, i); }
    }
  }

  lemma {:induction false} OffStart(order: seq<Coded>, p: nat, k0: nat, y: nat)
    requires Complete(order) && p <= |order| && 128 * k0 == Start(order, p) && k0 <= 256 && y <= k0
    requires AtLeast(order, p, ROOT_BITS + 1) && (p == 0 || order[p - 1].len <= ROOT_BITS)
    ensures Off(order, y) == 256
    decreases y
  {
    hide Long;
    if y > 0 {
      OffStart(order, p, k0, y - 1);
      LongFrom(order, p, k0, y - 1);
    }
  }

  // ---------- The width of the next second-level table ----------

  /** Skipping all symbols of the least remaining length. */
  lemma {:induction false} SkipLength(order: seq<Coded>, len: nat, q: nat) returns (r: nat)
    requires Ordered(order) && q <= |order| && 1 <= len <= MAX_LEN && AtLeast(order, q, len)
    ensures q <= r <= |order| && AtLeast(order, r, len + 1) && (forall i :: q <= i < r ==> order[i].len == len)
    ensures Start(order, r) == Start(order, q) + CountOf(order, len, q) * Width(len)
    ensures forall l :: l > len ==> CountOf(order, l, r) == CountOf(order, l, q)
    decreases |order| - q
  {
    hide Start;
    if CountOf(order, len, q) == 0 {
      r := q;
      NoneLeft(order, len, q);
    } else {
      NextHasLength(order, len, q);
      CountOthers(order, len, q);
      StartNext(order, q);
      r := SkipLength(order, len, q + 1);
      SumTimes(CountOf(order, len, q) - 1, 1, Width(len));
    }
  }

  /** Intervals up to a number that all symbols before q cover belong to symbols before q. */
  lemma CoveredBefore(order: seq<Coded>, q: nat, v: nat)
    requires Complete(order) && q <= |order| && v < Pow2(MAX_LEN)
    ensures v < Start(order, q) <==> At(order, v) < q
  {
    hide Start, At;
    var i := At(order, v);
    if i < q { StartMonotone(order, i, q); } else { StartMonotone(order, q, i); }
  }

  lemma WidthOfBlock(len: nat)
    requires ROOT_BITS <= len <= MAX_LEN
    ensures Pow2(len - ROOT_BITS) * Width(len) == 128
  {
    Powers();
    Pow2Add(len - ROOT_BITS, MAX_LEN - len);
    assert len - ROOT_BITS + (MAX_LEN - len) == 7;
  }

  /** Width of the next second-level table, computed from the remaining histogram. */
  method NextTableBitSize(count: array<nat>, length0: nat, ghost order: seq<Coded>, ghost p: nat, ghost y: nat)
    returns (bits: nat)
    requires Complete(order) && p < |order| && LongHistogram(count[..], order, p)
    requires y < 256 && 128 * y == Start(order, p) && order[p].len == length0 > ROOT_BITS && Long(order, y)
    ensures bits == SubBits(order, y)
  {
    hide Start, At, CountOf, SubBits, Width, Long;
    Powers();
    var length: nat, left: int := length0, Pow2(length0 - ROOT_BITS);
    ghost var q := p;
    assert AtLeast(order, p, length0);
    assert left * Width(length0) == 128 by { WidthOfBlock(length0); }
    while length < MAX_LEN
      invariant length0 <= length <= MAX_LEN && p <= q <= |order| && AtLeast(order, q, length)
      invariant forall l :: length <= l <= MAX_LEN ==> CountOf(order, l, q) == CountOf(order, l, p)
      invariant left > 0 && Start(order, q) + left * Width(length) == 128 * y + 128 && Start(order, q) < 128 * y + 128
    {
      ghost var r := SkipLength(order, length, q);
      BlockStep(order, q, r, length, left, count[length], y);
      left := left - count[length];
      if left <= 0 {
        LastOfBlock(order, r, y, length, q);
        return length - ROOT_BITS;
      }
      q := r;
      length := length + 1;
      left := left * 2;
    }
    LastOfBlock(order, |order|, y, MAX_LEN, q);
    return length - ROOT_BITS;
  }

  lemma SplitTimes(a: nat, b: nat, w: nat)
    ensures a <= b ==> a * w <= b * w
    ensures a > b ==> (a - b) * w == a * w - b * w
  {
    if a <= b { SumTimes(a, b - a, w); } else { SumTimes(b, a - b, w); }
  }

  /** One length of the width computation: either this length completes the block, or what is left
      is counted in intervals of the next length. */
  lemma BlockStep(order: seq<Coded>, q: nat, r: nat, len: nat, left: nat, n: nat, y: nat)
    requires Ordered(order) && q <= r <= |order| && 1 <= len < MAX_LEN
    requires Start(order, q) + left * Width(len) == 128 * y + 128 && Start(order, r) == Start(order, q) + n * Width(len)
    ensures left <= n ==> 128 * y + 128 <= Start(order, r)
    ensures left > n ==>
            Start(order, r) + (2 * (left - n)) * Width(len + 1) == 128 * y + 128 && Start(order, r) < 128 * y + 128
  {
    hide Start;
    SplitTimes(left, n, Width(len));
    assert Width(len) == 2 * Width(len + 1);
    if left > n {
      DoubleTimes'(left - n, Width(len + 1));
      DoubleTimes(left - n, Width(len + 1));
      SumTimes(1, left - n - 1, Width(len));
    }
  }

  /** The last code under prefix y has length len when that length is needed and suffices. */
  lemma LastOfBlock(order: seq<Coded>, r: nat, y: nat, len: nat, q: nat)
    requires Complete(order) && y < 256 && Long(order, y) && q <= r <= |order| && len <= MAX_LEN
    requires AtLeast(order, q, len) && Start(order, q) < 128 * y + 128 <= Start(order, r)
    requires forall i :: q <= i < r ==> order[i].len <= len
    ensures SubBits(order, y) == len - ROOT_BITS
  {
    hide Start, At;
    Powers();
    CoveredBefore(order, q, 128 * y + 127);
    CoveredBefore(order, r, 128 * y + 127);
  }

  // ---------- Filling the second level ----------

  lemma RevDistinct(y: nat, z: nat)
    requires y < 256 && z < 256 && y != z
    ensures Rev(ROOT_BITS, y) != Rev(ROOT_BITS, z)
  {
    Powers();
    if Rev(ROOT_BITS, y) == Rev(ROOT_BITS, z) {
      RevInjective(ROOT_BITS, y, z);
      LowSmall(y, ROOT_BITS);
      LowSmall(z, ROOT_BITS);
    }
  }

  lemma RevRoot(y: nat)
    requires y < 256
    ensures Rev(ROOT_BITS, y) < 256 && Rev(ROOT_BITS, Rev(ROOT_BITS, y)) == y
  {
    Powers();
    RevBound(ROOT_BITS, y);
    RevRev(ROOT_BITS, y);
    LowSmall(y, ROOT_BITS);
  }

  /** A table is untouched when neither its root slot nor its region is. */
  lemma SubtableFramed(order: seq<Coded>, t: seq<Entry>, t': seq<Entry>, y: nat, k: nat)
    requires Complete(order) && y < 256 && Off(order, 256) <= |t| == |t'| && SubtableOk(order, t, y, k)
    requires Rev(ROOT_BITS, y) < 256 && t'[Rev(ROOT_BITS, y)] == t[Rev(ROOT_BITS, y)]
    requires forall x :: Off(order, y) <= x < Off(order, y) + SubSize(order, y) && x < |t| ==> t'[x] == t[x]
    ensures SubtableOk(order, t', y, k)
  {
    hide Rev, Long, SlotOk, SubBits, Off;
  }

  /** A new table is linked into the root; it is still empty. */
  lemma OpenSubtable(order: seq<Coded>, t: seq<Entry>, k0: nat, key: nat)
    requires Complete(order) && k0 <= key < 256 && Off(order, 256) <= |t| && Second(order, t, k0, key, 128 * key)
             && Long(order, key)
    requires Rev(ROOT_BITS, key) < 256
    ensures var e := Entry(ROOT_BITS + SubBits(order, key), Off(order, key) - Rev(ROOT_BITS, key));
            Second(order, t[Rev(ROOT_BITS, key) := e], k0, key + 1, 128 * key)
  {
    hide Rev, Long, SlotOk, RootOk, SubBits, Off;
    var slot := Rev(ROOT_BITS, key);
    var t' := t[slot := Entry(ROOT_BITS + SubBits(order, key), Off(order, key) - slot)];
    RevRoot(key);
    forall y | k0 <= y < key
      ensures SubtableOk(order, t', y, 128 * key)
    {
      RevDistinct(y, key);
      RevRoot(y);
      assert SubtableOk(order, t, y, 128 * key);
      SubtableFramed(order, t, t', y, 128 * key);
    }
    OffMonotone(order, key, 256);
    assert SubtableOk(order, t', key, 128 * key) by { hide Second; }
  }

  /** The sub-key of a long code is the code below its prefix, left-aligned in 7 bits. */
  lemma LongKey(order: seq<Coded>, p: nat, y: nat) returns (c: nat)
    requires Complete(order) && p < |order| && order[p].len > ROOT_BITS && y < 256
    requires 128 * y <= Start(order, p) < 128 * y + 128
    ensures var l := order[p].len - ROOT_BITS; var u := Start(order, p) - 128 * y;
            && l <= 7 && c < Pow2(l) && u == c * Pow2(7 - l)
            && Start(order, p + 1) == Start(order, p) + Pow2(7 - l) <= 128 * y + 128
            && Rev(ROOT_BITS, 2 * u) == Rev(7, u) < Pow2(l)
  {
    hide Start, Rev;
    var l := order[p].len - ROOT_BITS;
    var w := Pow2(7 - l);
    var d := StartIsMultiple(order, p);
    StartNext(order, p);
    assert Width(order[p].len) == w;
    WidthOfBlock(order[p].len);
    var b := Pow2(l);
    BlockOffset(y, b, w, d);
    c := d - y * b;
    KeyReversed(7, l, c);
    RevShift(Start(order, p) - 128 * y);
  }

  lemma RevShift(u: nat)
    ensures Rev(ROOT_BITS, 2 * u) == Rev(7, u)
  {
    RevUnfold(ROOT_BITS, 2 * u);
  }

  /** Counting in units of w, where b units make a block of 128. */
  lemma BlockOffset(y: nat, b: nat, w: nat, d: nat)
    requires w > 0 && b * w == 128 && 128 * y <= d * w < 128 * y + 128
    ensures y * b <= d < y * b + b && d * w - 128 * y == (d - y * b) * w && d * w + w <= 128 * y + 128
  {
    assert (y * b) * w == 128 * y by { assert (y * b) * w == y * (b * w); }
    SumTimes(y * b, b, w);
    if d < y * b {
      SumTimes(1, y * b - d - 1, w);
      SumTimes(d, y * b - d, w);
    } else if d >= y * b + b {
      SumTimes(y * b + b, d - (y * b + b), w);
    } else {
      SumTimes(y * b, d - y * b, w);
      SumTimes(d, 1, w);
      SumTimes(d + 1, y * b + b - (d + 1), w);
    }
  }

  /** The code needs no more bits than its table has. */
  lemma LongFits(order: seq<Coded>, p: nat, y: nat)
    requires Complete(order) && p < |order| && y < 256 && Long(order, y)
    requires 128 * y <= Start(order, p) < 128 * y + 128
    ensures order[p].len - ROOT_BITS <= SubBits(order, y)
  {
    hide Start, At;
    Powers();
    CoveredBefore(order, p, 128 * y + 127);
  }

  /** The slots that one long code claims, by number. */
  lemma LongCell(order: seq<Coded>, p: nat, y: nat, s: nat)
    requires Complete(order) && p < |order| && order[p].len > ROOT_BITS && y < 256
    requires 128 * y <= Start(order, p) < 128 * y + 128
    ensures Start(order, p) <= 128 * y + Rev(7, s) < Start(order, p + 1)
       <==> Low(s, order[p].len - ROOT_BITS) == Rev(ROOT_BITS, 2 * (Start(order, p) - 128 * y))
    ensures Start(order, p) <= 128 * y + Rev(7, s) < Start(order, p + 1)
        ==> SlotOk(order, Entry(order[p].len - ROOT_BITS, order[p].sym), y, s)
  {
    hide Start, Rev, Low, At;
    Powers();
    var c := LongKey(order, p, y);
    Cell(7, order[p].len - ROOT_BITS, c, s);
    RevBound(7, s);
    StartNext(order, p);
    if Start(order, p) <= 128 * y + Rev(7, s) < Start(order, p + 1) {
      AtUnique(order, 128 * y + Rev(7, s), p);
    }
  }

  /** Placing one long code extends its table. */
  lemma PlaceLong(order: seq<Coded>, t: seq<Entry>, t': seq<Entry>, y: nat, p: nat)
    requires Complete(order) && y < 256 && Off(order, 256) <= |t| == |t'| && p < |order| && order[p].len > ROOT_BITS
    requires 128 * y <= Start(order, p) < 128 * y + 128 && SubtableOk(order, t, y, Start(order, p))
    requires forall x :: 0 <= x < |t| ==>
               t'[x] == if InClass(x, Off(order, y), 0, SubSize(order, y), order[p].len - ROOT_BITS,
                                   Rev(ROOT_BITS, 2 * (Start(order, p) - 128 * y)))
                        then Entry(order[p].len - ROOT_BITS, order[p].sym) else t[x]
    ensures SubtableOk(order, t', y, Start(order, p + 1))
  {
    hide Start, Rev, Low, SlotOk, Long, SubBits, Off;
    Powers();
    RevRoot(y);
    forall s | 0 <= s < Pow2(SubBits(order, y)) && 128 * y + Rev(7, s) < Start(order, p + 1)
      ensures SlotOk(order, t'[Off(order, y) + s], y, s)
    {
      LongCell(order, p, y, s);
    }
  }

  /** The same, for the whole state. */
  lemma PlaceLongSecond(order: seq<Coded>, t: seq<Entry>, t': seq<Entry>, k0: nat, key: nat, p: nat)
    requires Complete(order) && k0 < key <= 256 && Off(order, 256) <= |t| == |t'| && p < |order|
             && order[p].len > ROOT_BITS
    requires 128 * (key - 1) <= Start(order, p) < 128 * (key - 1) + 128 && Second(order, t, k0, key, Start(order, p))
    requires forall x :: 0 <= x < |t| ==>
               t'[x] == if InClass(x, Off(order, key - 1), 0, SubSize(order, key - 1), order[p].len - ROOT_BITS,
                                   Rev(ROOT_BITS, 2 * (Start(order, p) - 128 * (key - 1))))
                        then Entry(order[p].len - ROOT_BITS, order[p].sym) else t[x]
    ensures Second(order, t', k0, key, Start(order, p + 1))
  {
    hide Start, Rev, Low, RootOk, SubSize, Off;
    var y := key - 1;
    PlaceLong(order, t, t', y, p);
    var k' := Start(order, p + 1);
    forall z | k0 <= z < y
      ensures SubtableOk(order, t', z, k')
    {
      RevRoot(z);
      assert SubtableOk(order, t, z, Start(order, p));
      OffMonotone(order, z, y);
      SubtableFramed(order, t, t', z, Start(order, p));
      SubtableDone(order, t', z, Start(order, p), k');
    }
  }

  lemma SubtableDone(order: seq<Coded>, t: seq<Entry>, y: nat, k: nat, k': nat)
    requires Complete(order) && y < 256 && Off(order, 256) <= |t| && SubtableOk(order, t, y, k) && 128 * y + 128 <= k
    ensures SubtableOk(order, t, y, k')
  {
    hide Rev, Off, Long, SubBits, SlotOk;
    Powers();
    forall s | 0 <= s < Pow2(SubBits(order, y)) && 128 * y + Rev(7, s) < k'
      ensures SlotOk(order, t[Off(order, y) + s], y, s)
    {
      RevBound(7, s);
    }
  }

  /** Position of the second phase: the symbols before p are placed; key counts opened tables and
      subKey is the 8-bit sub-key of the next code, 256 when the open table is full. */
  ghost predicate Position(order: seq<Coded>, p: nat, k0: nat, key: nat, subKey: nat, tableOff: nat, tableSize: nat)
  {
    && Complete(order) && p <= |order| && k0 <= key <= 256 && subKey <= 256
    && 2 * Start(order, p) + 256 == 256 * key + subKey
    && (subKey < 256 ==> key > k0)
    && tableOff + tableSize == Off(order, key)
    && (key > k0 ==> tableOff == Off(order, key - 1) && Long(order, key - 1) && tableSize == SubSize(order, key - 1))
    && (forall y :: k0 <= y < 256 ==> Long(order, y))
  }

  /** Before a code is placed, its table is open. */
  method OpenIfFull(table: array<Entry>, count: array<nat>, codeLen: nat, key0: nat, subKey0: nat, tableOff0: nat,
                    tableSize0: nat,
                    ghost order: seq<Coded>, ghost p: nat, ghost k0: nat)
    returns (key: nat, subKey: nat, tableOff: nat, tableSize: nat)
    requires table as object != count && Position(order, p, k0, key0, subKey0, tableOff0, tableSize0)
             && Off(order, 256) <= table.Length
    requires p < |order| && order[p].len == codeLen > ROOT_BITS && LongHistogram(count[..], order, p)
    requires Second(order, table[..], k0, key0, Start(order, p))
    modifies table
    ensures Position(order, p, k0, key, subKey, tableOff, tableSize) && key > k0 && subKey < 256
    ensures Second(order, table[..], k0, key, Start(order, p))
  {
    hide Start, Long, Second, SubSize, Rev, Off, LongHistogram;
    key, subKey, tableOff, tableSize := key0, subKey0, tableOff0, tableSize0;
    if subKey == 256 {
      assert 128 * key == Start(order, p)
             && key < 256 by { StartMonotone(order, p, |order|); StartNext(order, p); Powers();
                StartMonotone(order, p + 1, |order|); }
      tableOff := tableOff + tableSize;
      var tableBits := NextTableBitSize(count, codeLen, order, p, key);
      tableSize := Pow2(tableBits);
      RevRoot(key);
      subKey := Rev(ROOT_BITS, key);
      ghost var before := table[..];
      OpenSubtable(order, before, k0, key);
      OffMonotone(order, 0, 256);
      table[subKey] := Entry(tableBits + ROOT_BITS, tableOff - subKey);
      assert table[..] ==
             before[Rev(ROOT_BITS, key) :=
               Entry(ROOT_BITS + SubBits(order, key), Off(order, key) - Rev(ROOT_BITS, key))];
      OffNext(order, key);
      key := key + 1;
      subKey := 0;
    }
  }

  lemma OffNext(order: seq<Coded>, y: nat)
    requires Complete(order) && y < 256
    ensures Off(order, y + 1) == Off(order, y) + SubSize(order, y)
    ensures Long(order, y) ==> SubSize(order, y) == Pow2(SubBits(order, y))
  {
    hide SubBits, Long;
  }

  /** Places one long code in the open table. */
  method PlaceCode(table: array<Entry>, codeLen: nat, sym: nat, key: nat, subKey: nat, subKeyStep: nat, step: nat,
                   tableOff: nat, tableSize: nat,
                   ghost order: seq<Coded>, ghost p: nat, ghost k0: nat) returns (newSubKey: nat)
    requires Position(order, p, k0, key, subKey, tableOff, tableSize) && Off(order, 256) <= table.Length && key > k0
             && subKey < 256
    requires p < |order| && order[p] == Coded(codeLen, sym) && ROOT_BITS < codeLen <= MAX_LEN
    requires step == Pow2(codeLen - ROOT_BITS) && subKeyStep == Pow2(16 - codeLen)
    requires Second(order, table[..], k0, key, Start(order, p))
    modifies table
    ensures Position(order, p + 1, k0, key, newSubKey, tableOff, tableSize)
    ensures Second(order, table[..], k0, key, Start(order, p + 1))
  {
    hide Start, Long, Second, Rev, Off, SubBits, InClass;
    ghost var y := key - 1;
    assert 2 * (Start(order, p) - 128 * y) == subKey;
    ghost var c := LongKey(order, p, y);
    LongFits(order, p, y);
    ghost var bits := SubBits(order, y);
    OffNext(order, y);
    OffMonotone(order, key, 256);
    ghost var before := table[..];
    ReplicateValue(table, tableOff, Rev(ROOT_BITS, subKey), Entry(codeLen - ROOT_BITS, sym), step, tableSize,
                   codeLen - ROOT_BITS, bits);
    PlaceLongSecond(order, before, table[..], k0, key, p);
    assert Pow2(16 - codeLen) == 2 * Pow2(15 - codeLen);
    newSubKey := subKey + subKeyStep;
  }

  /** All codes of one long length. */
  method FillLongLength(table: array<Entry>, storage: seq<nat>, count: array<nat>, codeLen: nat,
                        key0: nat, subKey0: nat, subKeyStep: nat, step: nat, tableOff0: nat, tableSize0: nat,
                        ghost order: seq<Coded>, ghost p0: nat, ghost k0: nat)
    returns (key: nat, subKey: nat, tableOff: nat, tableSize: nat, ghost p: nat)
    requires table as object != count && Position(order, p0, k0, key0, subKey0, tableOff0, tableSize0)
             && Off(order, 256) <= table.Length
    requires ROOT_BITS < codeLen <= MAX_LEN && AtLeast(order, p0, codeLen) && (p0 == 0 || order[p0 - 1].len < codeLen)
    requires step == Pow2(codeLen - ROOT_BITS) && subKeyStep == Pow2(16 - codeLen)
    requires Linked(storage, order) && LongHistogram(count[..], order, p0)
    requires Second(order, table[..], k0, key0, Start(order, p0))
    modifies table, count
    ensures Position(order, p, k0, key, subKey, tableOff, tableSize)
    ensures p <= |order| && AtLeast(order, p, codeLen + 1) && (p == 0 || order[p - 1].len <= codeLen)
    ensures LongHistogram(count[..], order, p)
    ensures Second(order, table[..], k0, key, Start(order, p))
  {
    hide Start, Long, Second, Off, CountOf, Linked, SubSize;
    key, subKey, tableOff, tableSize, p := key0, subKey0, tableOff0, tableSize0, p0;
    var slot: nat := codeLen;
    while count[codeLen] != 0
      invariant Position(order, p, k0, key, subKey, tableOff, tableSize)
      invariant p <= |order| && AtLeast(order, p, codeLen) && (p == 0 || order[p - 1].len <= codeLen)
      invariant Cursor(order, p, codeLen, slot)
      invariant LongHistogram(count[..], order, p)
      invariant Second(order, table[..], k0, key, Start(order, p))
      decreases count[codeLen]
    {
      NextHasLength(order, codeLen, p);
      FollowLink(storage, order, p, codeLen, slot);
      CountOthers(order, codeLen, p);
      ghost var h := count[..];
      key, subKey, tableOff, tableSize :=
        OpenIfFull(table, count, codeLen, key, subKey, tableOff, tableSize, order, p, k0);
      var sym := storage[slot];
      slot := LIST_BASE + sym;
      subKey := PlaceCode(table, codeLen, sym, key, subKey, subKeyStep, step, tableOff, tableSize, order, p, k0);
      assert count[..] == h;
      ghost var t := table[..];
      count[codeLen] := count[codeLen] - 1;
      assert count[..] == h[codeLen := h[codeLen] - 1] && table[..] == t;
      p := p + 1;
    }
    NoneLeft(order, codeLen, p);
  }

  /** All codes longer than the root index. */
  method FillSecondLevel(table: array<Entry>, storage: seq<nat>, count: array<nat>, maxLength: nat, key0: nat,
                         ghost order: seq<Coded>, ghost p0: nat) returns (totalSize: nat)
    requires table as object != count && Complete(order) && p0 <= |order| && TableSize(order) <= table.Length
    requires key0 <= 256 && 128 * key0 == Start(order, p0) && maxLength <= MAX_LEN
    requires AtLeast(order, p0, ROOT_BITS + 1) && (p0 == 0 || order[p0 - 1].len <= ROOT_BITS)
    requires forall i :: 0 <= i < |order| ==> order[i].len <= maxLength
    requires Linked(storage, order) && LongHistogram(count[..], order, p0)
    requires Second(order, table[..], key0, key0, Start(order, p0))
    modifies table, count
    ensures totalSize == TableSize(order)
    ensures Second(order, table[..], key0, 256, Pow2(MAX_LEN))
  {
    hide Start, Second, Off, CountOf, Linked, Long, SubSize;
    Powers();
    var key, subKey, tableOff, tableSize := key0, 256, 0, 256;
    var subKeyStep, step := 128, 2;
    var codeLen := ROOT_BITS + 1;
    ghost var p: nat := p0;
    OffStart(order, p0, key0, key0);
    forall y | key0 <= y < 256 ensures Long(order, y) { LongFrom(order, p0, key0, y); }
    while codeLen <= maxLength
      invariant ROOT_BITS < codeLen && (codeLen <= maxLength + 1 || codeLen == ROOT_BITS + 1)
      invariant step == Pow2(codeLen - ROOT_BITS) && (codeLen <= MAX_LEN + 1 ==> subKeyStep == Pow2(16 - codeLen))
      invariant Position(order, p, key0, key, subKey, tableOff, tableSize)
      invariant AtLeast(order, p, codeLen) && (p == 0 || order[p - 1].len < codeLen)
      invariant LongHistogram(count[..], order, p)
      invariant Second(order, table[..], key0, key, Start(order, p))
    {
      key, subKey, tableOff, tableSize, p :=
        FillLongLength(table, storage, count, codeLen, key, subKey, subKeyStep, step, tableOff, tableSize, order, p,
                       key0);
      codeLen := codeLen + 1;
      step := step * 2;
      subKeyStep := subKeyStep / 2;
    }
    assert |order| > 0 ==> order[|order| - 1].len <= maxLength;
    totalSize := tableOff + tableSize;
  }

  /** Builds the table from the lists and the histogram, which the construction uses up. */
  method BuildHuffmanTable(table: array<Entry>, storage: seq<nat>, count: array<nat>, ghost order: seq<Coded>)
    returns (totalSize: nat)
    requires table as object != count && Complete(order) && TableSize(order) <= table.Length
    requires Linked(storage, order) && Histogram(count[..], order, 0)
    modifies table, count
    ensures totalSize == TableSize(order)
    ensures TableOk(order, table[..])
  {
    hide Start, CountOf, Linked, Off, RootOk, SubtableOk;
    Powers();
    OffMonotone(order, 0, 256);
    assert Off(order, 0) >= 256;
    var maxLength := MaxLength(storage, order);
    var tableBits := ROOT_BITS;
    if tableBits > maxLength { tableBits := maxLength; }
    Pow2Monotone(tableBits, ROOT_BITS);
    ghost var h := count[..];
    var key: nat;
    ghost var p: nat;
    key, p := FillRoot(table, storage, count, tableBits, order);
    assert count[..] == h;
    StartMonotone(order, p, |order|);
    ghost var t := table[..];
    if tableBits < ROOT_BITS {
      assert p == |order|;
      GrowRoot(table, tableBits);
      GrownIsFilled(order, t, table[..], tableBits);
    }
    assert count[..] == h;
    totalSize := FillSecondLevel(table, storage, count, maxLength, key, order, p);
    TableDone(order, table[..], key);
  }

  /** Every root slot holds its short code or links to its complete table. */
  ghost predicate TableOk(order: seq<Coded>, t: seq<Entry>)
    requires Complete(order) && Off(order, 256) <= |t|
  {
    forall x :: 0 <= x < 256 ==> SlotDone(order, t, x)
  }

  ghost predicate SlotDone(order: seq<Coded>, t: seq<Entry>, x: nat)
    requires Complete(order) && Off(order, 256) <= |t| && x < 256
  {
    Powers();
    RevBound(ROOT_BITS, x);
    OffMonotone(order, 0, 256);
    RootOk(order, t[x], x) || SubtableOk(order, t, Rev(ROOT_BITS, x), Pow2(MAX_LEN))
  }

  lemma TableDone(order: seq<Coded>, t: seq<Entry>, k0: nat)
    requires Complete(order) && k0 <= 256 && Off(order, 256) <= |t| && Second(order, t, k0, 256, Pow2(MAX_LEN))
    ensures TableOk(order, t)
  {
    hide RootOk, SubtableOk, Off, Rev;
    forall x | 0 <= x < 256
      ensures SlotDone(order, t, x)
    {
      RevRoot(x);
    }
  }

  // ---------- Decoding with the table ----------

  /** A decoded symbol and the number of bits it takes. */
  datatype Symbol = Symbol(value: nat, bits: nat)

  /** The slot that a second-level lookup reads. */
  function SecondIndex(e: Entry, v: nat): nat
    requires e.bits > ROOT_BITS
  {
    Low(v, ROOT_BITS) + e.value + Low(High(v, ROOT_BITS), e.bits - ROOT_BITS)
  }

  /** Reads one symbol from the bits v, the first bit lowest. */
  function DecodeSymbol(t: seq<Entry>, v: nat): Symbol
    requires |t| >= 256 && Low(v, ROOT_BITS) < 256
    requires t[Low(v, ROOT_BITS)].bits > ROOT_BITS ==> SecondIndex(t[Low(v, ROOT_BITS)], v) < |t|
  {
    var e := t[Low(v, ROOT_BITS)];
    if e.bits > ROOT_BITS then
      var f := t[SecondIndex(e, v)];
      Symbol(f.value, ROOT_BITS + f.bits)
    else Symbol(e.value, e.bits)
  }

  /** The table is read inside its bounds, and it decodes the interval that the reversed bits select. */
  lemma TableDecodes(order: seq<Coded>, t: seq<Entry>, v: nat)
    requires Complete(order) && TableSize(order) <= |t| && TableOk(order, t)
    ensures |t| >= 256 && Low(v, ROOT_BITS) < 256
    ensures t[Low(v, ROOT_BITS)].bits > ROOT_BITS ==> SecondIndex(t[Low(v, ROOT_BITS)], v) < TableSize(order)
    ensures Rev(MAX_LEN, v) < Pow2(MAX_LEN)
    ensures var d := Decoded(order, Rev(MAX_LEN, v)); DecodeSymbol(t, v) == Symbol(d.sym, d.len)
    ensures t[Low(v, ROOT_BITS)].bits > ROOT_BITS ==> DecodeSymbol(t, v).bits > ROOT_BITS
  {
    hide Low, High, Rev, At, Start, Off, SlotOk, RootOk, SubtableOk;
    Powers();
    OffMonotone(order, 0, 256);
    HighLow(v, ROOT_BITS);
    var x := Low(v, ROOT_BITS);
    var r := Rev(MAX_LEN, v);
    RevBound(MAX_LEN, v);
    RevSplit(ROOT_BITS, 7, v);
    RevOfLow(ROOT_BITS, ROOT_BITS, v);
    RevBound(7, High(v, ROOT_BITS));
    var y, u := Rev(ROOT_BITS, x), Rev(7, High(v, ROOT_BITS));
    assert r == 128 * y + u;
    assert SlotDone(order, t, x);
    RevRoot(x);
    if RootOk(order, t[x], x) {
      ShortDecodes(order, t[x], x, u);
    } else {
      LongDecodes(order, t, v, y, u);
    }
  }

  lemma ShortDecodes(order: seq<Coded>, e: Entry, x: nat, u: nat)
    requires Complete(order) && x < 256 && u < 128 && RootOk(order, e, x) && Rev(ROOT_BITS, x) < 256
    ensures var d := DecodedAt(order, Rev(ROOT_BITS, x), u); e == Entry(d.len, d.sym) && d.len <= ROOT_BITS
  {
    hide At, Start, Rev;
    Powers();
    var y := Rev(ROOT_BITS, x);
    var i := At(order, 128 * y);
    assert y * Pow2(0) == y;
    CellInside128(order, i, y, u);
    AtUnique(order, 128 * y + u, i);
  }

  /** A short code's interval contains the whole block of its prefix. */
  lemma CellInside128(order: seq<Coded>, i: nat, y: nat, u: nat)
    requires Complete(order) && i < |order| && order[i].len <= ROOT_BITS && u < 128
    requires Start(order, i) <= 128 * y < Start(order, i) + Width(order[i].len)
    ensures Start(order, i) <= 128 * y + u < Start(order, i) + Width(order[i].len)
  {
    hide Start;
    Powers();
    var c := StartIsMultiple(order, i);
    Pow2Add(ROOT_BITS - order[i].len, 7);
    assert ROOT_BITS - order[i].len + 7 == MAX_LEN - order[i].len;
    WholeCell(c, Pow2(ROOT_BITS - order[i].len), 128, y);
  }

  lemma LongDecodes(order: seq<Coded>, t: seq<Entry>, v: nat, y: nat, u: nat)
    requires Complete(order) && TableSize(order) <= |t| && y < 256 && u < 128 && SubtableOk(order, t, y, Pow2(MAX_LEN))
    requires u == Rev(7, High(v, ROOT_BITS)) && Low(v, ROOT_BITS) < 256 && Rev(ROOT_BITS, y) == Low(v, ROOT_BITS)
             && |t| >= 256
    ensures var e := t[Low(v, ROOT_BITS)];
            e.bits > ROOT_BITS && SecondIndex(e, v) < TableSize(order)
    ensures var d := DecodedAt(order, y, u); DecodeSymbol(t, v) == Symbol(d.sym, d.len) && d.len > ROOT_BITS
  {
    hide Low, High, Rev, At, Start, Off, Long;
    Powers();
    var bits := SubBits(order, y);
    var h := High(v, ROOT_BITS);
    var s := Low(h, bits);
    HighLow(h, bits);
    OffNext(order, y);
    OffMonotone(order, y, 256);
    OffMonotone(order, y + 1, 256);
    RevBound(7, s);
    assert SlotOk(order, t[Off(order, y) + s], y, s);
    assert SecondIndex(t[Low(v, ROOT_BITS)], v) == Off(order, y) + s;
    SubIndex(order, y, h, s);
  }

  /** An interval of length at most bits + 8 that contains the start of a cell contains the cell. */
  lemma SubCellInside(order: seq<Coded>, i: nat, y: nat, bits: nat, t: nat, u: nat)
    requires Complete(order) && i < |order| && bits <= 7 && order[i].len <= bits + ROOT_BITS
    requires var w := Pow2(7 - bits);
             Start(order, i) <= 128 * y + t * w < Start(order, i) + Width(order[i].len) && t * w <= u < t * w + w
    ensures Start(order, i) <= 128 * y + u < Start(order, i) + Width(order[i].len)
  {
    hide Start;
    Powers();
    var w, len := Pow2(7 - bits), order[i].len;
    var c := StartIsMultiple(order, i);
    Pow2Add(bits + ROOT_BITS - len, 7 - bits);
    assert bits + ROOT_BITS - len + (7 - bits) == MAX_LEN - len;
    Pow2Add(bits, 7 - bits);
    BlockUnits(y, Pow2(bits), w, t);
    WholeCell(c, Pow2(bits + ROOT_BITS - len), w, y * Pow2(bits) + t);
  }

  /** Dropping the bits beyond the table's index does not change the code. */
  lemma SubIndex(order: seq<Coded>, y: nat, h: nat, s: nat)
    requires Complete(order) && y < 256 && Long(order, y) && s == Low(h, SubBits(order, y))
    ensures Rev(7, h) < 128 && Rev(7, s) < 128
    ensures DecodedAt(order, y, Rev(7, s)) == DecodedAt(order, y, Rev(7, h))
  {
    hide Low, High, Rev, At, Start, Long;
    Powers();
    var bits := SubBits(order, y);
    RevBound(7, h);
    RevBound(7, s);
    ReversedPrefix(7, bits, h);
    var i := At(order, 128 * y + Rev(7, s));
    AtOrdered(order, 128 * y + Rev(7, s), 128 * y + 127);
    SubCellInside(order, i, y, bits, Rev(bits, h), Rev(7, h));
    AtUnique(order, 128 * y + Rev(7, h), i);
  }

  lemma BlockUnits(y: nat, b: nat, w: nat, t: nat)
    requires b * w == 128
    ensures (y * b + t) * w == 128 * y + t * w
  {
    SumTimes(y * b, t, w);
    assert (y * b) * w == y * (b * w);
  }

  // ---------- The main results ----------

  /** The table t was built for code lengths with Kraft sum one. */
  ghost predicate TableFor(lens: seq<nat>, t: seq<Entry>) {
    && ValidLengths(lens) && Kraft(lens, |lens|) == Pow2(MAX_LEN)
    && Complete(Order(lens, MAX_LEN)) && TableSize(Order(lens, MAX_LEN)) <= |t| && TableOk(Order(lens, MAX_LEN), t)
  }

  /** A table built for lengths with Kraft sum one returns, for every bit string, the one symbol whose
      canonical code the string starts with, and that code's length. */
  lemma TableDecodesCanonicalCode(lens: seq<nat>, t: seq<Entry>, v: nat, s: nat)
    requires TableFor(lens, t)
    ensures |t| >= 256 && Low(v, ROOT_BITS) < 256
    ensures t[Low(v, ROOT_BITS)].bits > ROOT_BITS ==> SecondIndex(t[Low(v, ROOT_BITS)], v) < |t|
    ensures t[Low(v, ROOT_BITS)].bits > ROOT_BITS ==> DecodeSymbol(t, v).bits > ROOT_BITS
    ensures StartsWithCode(lens, s, v) <==> s == DecodeSymbol(t, v).value
    ensures s == DecodeSymbol(t, v).value ==> lens[s] == DecodeSymbol(t, v).bits
  {
    hide Low, High, Rev, At, Start, TableOk, TableSize, Order, StartsWithCode, Kraft;
    TableDecodes(Order(lens, MAX_LEN), t, v);
    CanonicalDecoding(lens, s, v);
  }

  datatype Option<T> = None | Some(value: T)

  /** Reading a symbol when only avail bits are known; v holds exactly these bits. */
  function SafeDecodeSymbol(t: seq<Entry>, v: nat, avail: nat): Option<Symbol>
    requires |t| >= 256 && Low(v, ROOT_BITS) < 256
    requires t[Low(v, ROOT_BITS)].bits > ROOT_BITS ==>
               Low(v, ROOT_BITS) + t[Low(v, ROOT_BITS)].value + High(Low(v, t[Low(v, ROOT_BITS)].bits), ROOT_BITS) < |t|
  {
    if avail == 0 then
      if t[0].bits == 0 then Some(Symbol(t[0].value, 0)) else None
    else
      var idx := Low(v, ROOT_BITS);
      var e := t[idx];
      if e.bits <= ROOT_BITS then
        if e.bits <= avail then Some(Symbol(e.value, e.bits)) else None
      else if avail <= ROOT_BITS then None
      else
        var f := t[idx + e.value + High(Low(v, e.bits), ROOT_BITS)];
        if avail - ROOT_BITS < f.bits then None else Some(Symbol(f.value, ROOT_BITS + f.bits))
  }

  /** With avail bits of a stream known, the safe reader succeeds exactly when they hold the whole code
      of the next symbol, and then it returns what the fast reader returns for the whole stream. */
  lemma SafeDecodeCanonical(lens: seq<nat>, t: seq<Entry>, stream: nat, avail: nat)
    requires TableFor(lens, t)
    ensures var v := Low(stream, avail);
            && |t| >= 256 && Low(v, ROOT_BITS) < 256 && Low(stream, ROOT_BITS) < 256
            && (t[Low(v, ROOT_BITS)].bits > ROOT_BITS ==>
                  Low(v, ROOT_BITS) + t[Low(v, ROOT_BITS)].value
                    + High(Low(v, t[Low(v, ROOT_BITS)].bits), ROOT_BITS) < |t|)
            && (t[Low(stream, ROOT_BITS)].bits > ROOT_BITS ==> SecondIndex(t[Low(stream, ROOT_BITS)], stream) < |t|)
            && SafeDecodeSymbol(t, v, avail) ==
               if DecodeSymbol(t, stream).bits <= avail then Some(DecodeSymbol(t, stream)) else None
  {
    hide Low, High, TableFor, StartsWithCode, DecodeSymbol;
    var v := Low(stream, avail);
    TableDecodesCanonicalCode(lens, t, stream, 0);
    TableDecodesCanonicalCode(lens, t, v, 0);
    SafeDecodeByLength(t, v, avail);
    var a, b := DecodeSymbol(t, stream), DecodeSymbol(t, v);
    TableDecodesCanonicalCode(lens, t, stream, a.value);
    TableDecodesCanonicalCode(lens, t, v, b.value);
    TableDecodesCanonicalCode(lens, t, stream, b.value);
    TableDecodesCanonicalCode(lens, t, v, a.value);
    SameStart(lens, a.value, stream, avail);
    SameStart(lens, b.value, stream, avail);
    CodeNotEmpty(lens, a.value, stream);
    CodeNotEmpty(lens, b.value, v);
    if avail == 0 {
      NoBits(stream);
      FirstSlot(t, v);
    }
  }

  /** The table of a code with a single symbol, which takes no bits. */
  ghost predicate Constant(t: seq<Entry>, n: nat) {
    |t| >= 256 && t[0].bits == 0 && t[0].value < n && forall x :: 0 <= x < 256 ==> t[x] == t[0]
  }

  /** t is the table of some prefix code over symbols below n. */
  ghost predicate Codes(t: seq<Entry>, n: nat) {
    Constant(t, n) || exists lens: seq<nat> :: |lens| <= n && TableFor(lens, t)
  }

  lemma ConstantDecodes(t: seq<Entry>, n: nat, v: nat)
    requires Constant(t, n)
    ensures Low(v, ROOT_BITS) < 256 && t[Low(v, ROOT_BITS)] == t[0] && DecodeSymbol(t, v) == Symbol(t[0].value, 0)
  {
    hide Low;
    Powers();
    HighLow(v, ROOT_BITS);
  }

  /** The same for every code, also for one with a single symbol. */
  lemma SafeDecodeIsExact(t: seq<Entry>, n: nat, stream: nat, avail: nat)
    requires Codes(t, n)
    ensures var v := Low(stream, avail);
            && |t| >= 256 && Low(v, ROOT_BITS) < 256 && Low(stream, ROOT_BITS) < 256
            && (t[Low(v, ROOT_BITS)].bits > ROOT_BITS ==>
                  Low(v, ROOT_BITS) + t[Low(v, ROOT_BITS)].value
                    + High(Low(v, t[Low(v, ROOT_BITS)].bits), ROOT_BITS) < |t|)
            && (t[Low(stream, ROOT_BITS)].bits > ROOT_BITS ==> SecondIndex(t[Low(stream, ROOT_BITS)], stream) < |t|)
            && SafeDecodeSymbol(t, v, avail) ==
               if DecodeSymbol(t, stream).bits <= avail then Some(DecodeSymbol(t, stream)) else None
  {
    hide Low, High, TableFor;
    if Constant(t, n) {
      ConstantDecodes(t, n, stream);
      ConstantDecodes(t, n, Low(stream, avail));
    } else {
      hide DecodeSymbol, SafeDecodeSymbol;
      var lens: seq<nat> :| |lens| <= n && TableFor(lens, t);
      SafeDecodeCanonical(lens, t, stream, avail);
    }
  }

  /** Unless no bit is known, the safe reader looks up the padded bits and compares lengths. */
  lemma SafeDecodeByLength(t: seq<Entry>, v: nat, avail: nat)
    requires |t| >= 256 && Low(v, ROOT_BITS) < 256
    requires t[Low(v, ROOT_BITS)].bits > ROOT_BITS ==> SecondIndex(t[Low(v, ROOT_BITS)], v) < |t|
    requires t[Low(v, ROOT_BITS)].bits > ROOT_BITS ==> DecodeSymbol(t, v).bits > ROOT_BITS
    ensures t[Low(v, ROOT_BITS)].bits > ROOT_BITS ==>
              Low(v, ROOT_BITS) + t[Low(v, ROOT_BITS)].value + High(Low(v, t[Low(v, ROOT_BITS)].bits), ROOT_BITS) < |t|
    ensures avail > 0 ==>
            SafeDecodeSymbol(t, v, avail) == if DecodeSymbol(t, v).bits <= avail then Some(DecodeSymbol(t, v)) else None
  {
    hide Low, High;
    var e := t[Low(v, ROOT_BITS)];
    if e.bits > ROOT_BITS {
      HighOfLow(v, ROOT_BITS, e.bits - ROOT_BITS);
      assert ROOT_BITS + (e.bits - ROOT_BITS) == e.bits;
    }
  }

  lemma FirstSlot(t: seq<Entry>, v: nat)
    requires |t| >= 256 && Low(v, ROOT_BITS) == 0
    requires t[0].bits > ROOT_BITS ==> SecondIndex(t[0], v) < |t|
    ensures t[0].bits == 0 ==> DecodeSymbol(t, v).bits == 0
  {
    hide Low, High;
  }

  lemma NoBits(stream: nat)
    ensures Low(stream, 0) == 0 && Low(Low(stream, 0), ROOT_BITS) == 0
  {
    LowSmall(0, ROOT_BITS);
  }

  lemma CodeNotEmpty(lens: seq<nat>, s: nat, v: nat)
    requires StartsWithCode(lens, s, v)
    ensures s < |lens| && lens[s] >= 1
  {
  }

  /** Whether a stream starts with a code of at most avail bits can be seen from its first avail bits. */
  lemma SameStart(lens: seq<nat>, s: nat, stream: nat, avail: nat)
    ensures s < |lens| && lens[s] <= avail ==>
            (StartsWithCode(lens, s, stream) <==> StartsWithCode(lens, s, Low(stream, avail)))
  {
    hide Rev, Low, CodeOf;
    if s < |lens| && lens[s] <= avail {
      RevOfLow(lens[s], avail, stream);
    }
  }
}
