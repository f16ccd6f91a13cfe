/** Reading code-length symbols from the bit stream: the batched loop on hoisted reader state, the
    loop that fills the accumulator, and the loop that pulls single bytes, against one meaning. */
module LengthReader {
  import opened Bits
  import opened PrefixCode
  import opened HuffmanTable
  import opened BitReader
  import opened CodeLengths

  const LENGTH_BITS := 5
  const REPEAT_PREVIOUS := 16

  // ---------- The table of the code-length code ----------

  /** A table of a prefix code with at most five bits: all slots that start with an entry's bits hold
      that entry. A code with a single symbol takes no bits. */
  ghost predicate LengthTable(t: seq<Entry>) {
    && |t| == 32 && (forall v :: 0 <= v < 32 ==> t[v].bits <= LENGTH_BITS && t[v].value <= REPEAT_PREVIOUS + 1)
    && forall v, w :: 0 <= v < 32 && 0 <= w < 32 && Low(v, t[v].bits) == Low(w, t[v].bits) ==> t[w] == t[v]
  }

  /** The slot of a bit string. */
  function Slot(v: nat): (x: nat)
    ensures x < 32
  {
    HighLow(v, LENGTH_BITS);
    FiveBits();
    Low(v, LENGTH_BITS)
  }

  lemma FiveBits()
    ensures Pow2(LENGTH_BITS) == 32
  {
  }

  /** Strings that agree on the bits of an entry have that entry. */
  lemma SameEntry(t: seq<Entry>, v: nat, w: nat, n: nat)
    requires LengthTable(t) && Low(v, n) == Low(w, n) && t[Slot(v)].bits <= n
    ensures t[Slot(w)] == t[Slot(v)]
  {
    hide Low;
    var k := t[Slot(v)].bits;
    LowLow(v, k, LENGTH_BITS);
    LowLow(w, k, LENGTH_BITS);
    LowLow(v, k, n);
    LowLow(w, k, n);
    assert Low(Slot(v), k) == Low(Slot(w), k);
  }

  // ---------- The token that a bit sequence spells ----------

  datatype Spelled = Spelled(token: Token, bits: nat) | Incomplete

  function Repeat(value: nat, extra: nat): Token {
    if value == REPEAT_PREVIOUS then RepeatPrevious(extra) else RepeatZero(extra)
  }

  /** The token of an entry at the head of a bit sequence: 16 has two extra bits, 17 has three. */
  ghost function TokenOf(e: Entry, a: seq<bool>): Spelled {
    if e.value < REPEAT_PREVIOUS then
      if e.bits <= |a| then Spelled(Single(e.value), e.bits) else Incomplete
    else
      var x := e.value - 14;
      if e.bits + x <= |a| then Spelled(Repeat(e.value, Value(a[e.bits..][..x])), e.bits + x) else Incomplete
  }

  ghost function TokenAt(t: seq<Entry>, a: seq<bool>): (s: Spelled)
    requires LengthTable(t)
    ensures s.Spelled? ==> s.token.Valid() && s.bits <= |a|
  {
    var e := t[Slot(Value(a))];
    if e.value >= REPEAT_PREVIOUS && e.bits + (e.value - 14) <= |a| then
      ValueBound(a[e.bits..][..e.value - 14]);
      SmallFields();
      TokenOf(e, a)
    else TokenOf(e, a)
  }

  /** A value below 16 is a length; 16 repeats the previous length, with two extra bits; 17 repeats zero, with three. */
  lemma TokenForms(t: seq<Entry>, a: seq<bool>)
    requires LengthTable(t)
    ensures var e := t[Slot(Value(a))]; var n := e.bits;
            TokenAt(t, a) ==
              if e.value < 16 && n <= |a| then Spelled(Single(e.value), n)
              else if e.value == 16 && n + 2 <= |a| then Spelled(RepeatPrevious(Value(a[n..n + 2])), n + 2)
              else if e.value == 17 && n + 3 <= |a| then Spelled(RepeatZero(Value(a[n..n + 3])), n + 3)
              else Incomplete
  {
    EntryBounds(t, Slot(Value(a)));
    hide Value, Slot, LengthTable;
    TokenOfForms(t[Slot(Value(a))], a);
    hide TokenOf;
  }

  lemma TokenOfForms(e: Entry, a: seq<bool>)
    requires e.value <= 17
    ensures var n := e.bits;
            TokenOf(e, a) ==
              if e.value < 16 && n <= |a| then Spelled(Single(e.value), n)
              else if e.value == 16 && n + 2 <= |a| then Spelled(RepeatPrevious(Value(a[n..n + 2])), n + 2)
              else if e.value == 17 && n + 3 <= |a| then Spelled(RepeatZero(Value(a[n..n + 3])), n + 3)
              else Incomplete
  {
    hide Value;
    if e.bits + 3 <= |a| { assert a[e.bits..][..3] == a[e.bits..e.bits + 3]; }
    if e.bits + 2 <= |a| { assert a[e.bits..][..2] == a[e.bits..e.bits + 2]; }
  }

  lemma SmallFields()
    ensures Pow2(2) == 4 && Pow2(3) == 8
  {
  }

  /** More input changes nothing about a token that is there, and does not make one out of the bits
      that are there if they are not a whole one. */
  lemma TokenIsStable(t: seq<Entry>, a: seq<bool>, z: seq<bool>)
    requires LengthTable(t)
    ensures TokenAt(t, a).Spelled? ==> TokenAt(t, a + z) == TokenAt(t, a)
    ensures TokenAt(t, a).Incomplete? && TokenAt(t, a + z).Spelled? ==> TokenAt(t, a + z).bits > |a|
  {
    assert |t| == 32;
    hide LengthTable, Low, Value, Slot;
    assert (a + z)[..|a|] == a;
    ValueLow(a, |a|);
    ValueLow(a + z, |a|);
    var e, f := t[Slot(Value(a))], t[Slot(Value(a + z))];
    if e.bits <= |a| {
      SameEntry(t, Value(a), Value(a + z), |a|);
      if e.value >= REPEAT_PREVIOUS && e.bits + (e.value - 14) <= |a| {
        assert (a + z)[e.bits..][..e.value - 14] == a[e.bits..][..e.value - 14];
      }
    } else if f.bits <= |a| {
      SameEntry(t, Value(a + z), Value(a), |a|);
    }
  }

  // ---------- All tokens that are needed ----------

  /** More tokens are needed after these. */
  ghost predicate Needed(tokens: seq<Token>, alphabetSize: nat) {
    var lens := Steps(Start0(), tokens).lens;
    |lens| < alphabetSize && ValidLengths(lens) && Sum(lens) < WORD && Space(Sum(lens)) > 0
  }

  /** Reads tokens as long as more are needed and the next is whole. */
  ghost function Process(t: seq<Entry>, alphabetSize: nat, tokens: seq<Token>, a: seq<bool>): (seq<Token>, seq<bool>)
    requires LengthTable(t)
    decreases if |Steps(Start0(), tokens).lens| < alphabetSize then alphabetSize - |Steps(Start0(), tokens).lens| else 0
  {
    var s := TokenAt(t, a);
    if !Needed(tokens, alphabetSize) || s.Incomplete? then (tokens, a)
    else
      StepsGrow(tokens, s.token);
      Process(t, alphabetSize, tokens + [s.token], a[s.bits..])
  }

  lemma StepsGrow(tokens: seq<Token>, t: Token)
    ensures |Steps(Start0(), tokens + [t]).lens| > |Steps(Start0(), tokens).lens|
  {
    hide Steps;
    StepsSplit(Start0(), tokens, [t]);
    var r := Steps(Start0(), tokens);
    StepsOne(r, t);
    if !t.Single? { AddedPositive(r, t); }
  }

  lemma ProcessStep(t: seq<Entry>, alphabetSize: nat, tokens: seq<Token>, a: seq<bool>)
    requires LengthTable(t)
    ensures TokenAt(t, a).Spelled? && Needed(tokens, alphabetSize) ==>
              Process(t, alphabetSize, tokens, a) ==
                Process(t, alphabetSize, tokens + [TokenAt(t, a).token], a[TokenAt(t, a).bits..])
    ensures TokenAt(t, a).Incomplete? || !Needed(tokens, alphabetSize) ==>
            Process(t, alphabetSize, tokens, a) == (tokens, a)
  {
    hide TokenAt, Needed, LengthTable;
  }

  /** Input may arrive in any pieces. */
  lemma {:induction false} ProcessInPieces(t: seq<Entry>, alphabetSize: nat, tokens: seq<Token>, a: seq<bool>,
                                           z: seq<bool>)
    requires LengthTable(t)
    ensures var p := Process(t, alphabetSize, tokens, a);
            Process(t, alphabetSize, tokens, a + z) == Process(t, alphabetSize, p.0, p.1 + z)
    decreases if |Steps(Start0(), tokens).lens| < alphabetSize then alphabetSize - |Steps(Start0(), tokens).lens| else 0
  {
    hide TokenAt, LengthTable, Steps;
    var s := TokenAt(t, a);
    ProcessStep(t, alphabetSize, tokens, a);
    if Needed(tokens, alphabetSize) && s.Spelled? {
      TokenIsStable(t, a, z);
      ProcessStep(t, alphabetSize, tokens, a + z);
      assert (a + z)[s.bits..] == a[s.bits..] + z;
      StepsGrow(tokens, s.token);
      hide Needed;
      ProcessInPieces(t, alphabetSize, tokens + [s.token], a[s.bits..], z);
    }
  }

  lemma ReadingIsNeeded(r: CodeLengthReader)
    requires r.Valid()
    ensures r.Reading() <==> Needed(r.used, r.alphabetSize)
  {
    hide Steps, ListsOk, Sum;
  }

  // ---------- The three readers ----------

  /** The table entry that the accumulator selects, once it holds five bits. */
  lemma EntryInWord(t: seq<Entry>, val: Word, bitPos: nat, ahead: seq<bool>)
    requires LengthTable(t) && BitReader.Agrees(val, bitPos, ahead) && bitPos >= LENGTH_BITS
    ensures |t| == 32 && Field(val, LENGTH_BITS) < 32 && t[Field(val, LENGTH_BITS)] == t[Slot(Value(ahead))]
  {
    assert |t| == 32;
    hide Low, Value, LengthTable;
    var x := Slot(Value(ahead));
    assert val[..LENGTH_BITS] == ahead[..LENGTH_BITS];
    ValueLow(val, LENGTH_BITS);
    ValueLow(ahead, LENGTH_BITS);
  }

  /** Consumes one token from hoisted reader state that holds enough bits for any. */
  method HoistedToken(t: seq<Entry>, s: Snapshot, ghost input: seq<byte>, ghost a: seq<bool>)
    returns (token: Token, s': Snapshot, ghost b: seq<bool>)
    requires LengthTable(t) && Fits(input, s, a) && s.bitPos >= 8
    ensures |b| <= |a| && TokenAt(t, a) == Spelled(token, |a| - |b|) && b == a[|a| - |b|..]
    ensures Fits(input, s', b) && s'.pos == s.pos
  {
    hide LengthTable, Value, Fits, ShiftRight, Low;
    FitsAgrees(input, s, a);
    EntryInWord(t, s.val, s.bitPos, a);
    var e := t[Field(s.val, LENGTH_BITS)];
    EntryBounds(t, Slot(Value(a)));
    DropFits(input, s, a, e.bits);
    s' := Snapshot(ShiftRight(s.val, e.bits), s.bitPos - e.bits, s.pos);
    b := a[e.bits..];
    if e.value >= REPEAT_PREVIOUS {
      var x := e.value - 14;
      FitsAgrees(input, s', b);
      FieldAgrees(s'.val, s'.bitPos, b, x);
      token := Repeat(e.value, Field(s'.val, x));
      DropFits(input, s', b, x);
      s' := Snapshot(ShiftRight(s'.val, x), s'.bitPos - x, s'.pos);
      assert b[x..] == a[e.bits + x..];
      b := b[x..];
    } else {
      token := Single(e.value);
    }
  }

  lemma FitsAgrees(input: seq<byte>, s: Snapshot, a: seq<bool>)
    requires Fits(input, s, a)
    ensures BitReader.Agrees(s.val, s.bitPos, a) && s.bitPos <= 63 && s.bitPos <= |a| && s.pos <= |input|
  {
  }

  lemma EntryBounds(t: seq<Entry>, v: nat)
    requires LengthTable(t) && v < 32
    ensures t[v].bits <= LENGTH_BITS && t[v].value <= REPEAT_PREVIOUS + 1
  {
  }

  /** The reader of code lengths, the bit reader and their arrays are different objects. */
  ghost predicate Apart(r: CodeLengthReader, br: Reader) {
    br as object != r && br as object != r.lists && br as object != r.nextSymbol && br as object != r.histo
  }

  method ProcessToken(r: CodeLengthReader, token: Token)
    requires r.Valid() && r.Reading() && token.Valid()
    modifies r, r.lists, r.nextSymbol, r.histo
    ensures r.Valid() && r.used == old(r.used) + [token] && r.symbol > old(r.symbol)
  {
    if token.Single? {
      r.ProcessSingle(token.len);
    } else {
      r.ProcessRepeated(token);
    }
  }

  /** The batched loop: the state of the bit reader is kept in locals and written back at the end. It stops when all
      symbols are read, or too close to the end of the input. */
  method ReadBatched(r: CodeLengthReader, br: Reader, t: seq<Entry>)
    requires r.Valid() && br.Valid() && LengthTable(t) && Apart(r, br)
    modifies r, r.lists, r.nextSymbol, r.histo, br`val, br`bitPos, br`pos, br`ahead
    ensures r.Valid() && br.Valid()
    ensures Process(t, r.alphabetSize, old(r.used), old(br.ahead)) == Process(t, r.alphabetSize, r.used, br.ahead)
    ensures r.Reading() ==> br.pos > |br.input| - FAST_INPUT_SLACK
  {
    hide LengthTable, Fits, CodeLengthReader.Valid, Process, TokenAt, Needed;
    var s := Snapshot(br.val, br.bitPos, br.pos);
    ghost var a := br.ahead;
    ghost var result := Process(t, r.alphabetSize, r.used, a);
    var fastEnd := |br.input| - FAST_INPUT_SLACK;
    while r.symbol < r.alphabetSize && r.space > 0
      invariant r.Valid() && Fits(br.input, s, a) && result == Process(t, r.alphabetSize, r.used, a)
      invariant br.input == old(br.input)
      decreases r.alphabetSize - r.symbol
    {
      if s.bitPos < 32 {
        if s.pos > fastEnd { break; }
        FillFits(br.input, s, a, 4, 4);
        s := Snapshot(Or(s.val, ShiftLeft(Load(br.input, s.pos, 4), s.bitPos)), s.bitPos + 32, s.pos + 4);
      }
      var token;
      ghost var b;
      ProcessStep(t, r.alphabetSize, r.used, a);
      ReadingIsNeeded(r);
      token, s, b := HoistedToken(t, s, br.input, a);
      a := b;
      ProcessToken(r, token);
      if !token.Single? && s.pos > fastEnd { break; }
    }
    br.RestoreState(s, a);
  }

  /** Consumes one token after filling the accumulator. */
  method FilledToken(br: Reader, t: seq<Entry>) returns (token: Token)
    requires br.Valid() && LengthTable(t) && br.pos + FAST_INPUT_SLACK <= |br.input|
    modifies br`val, br`bitPos, br`pos, br`ahead
    ensures br.Valid() && br.pos >= old(br.pos)
    ensures TokenAt(t, old(br.ahead)).Spelled? && token == TokenAt(t, old(br.ahead)).token
    ensures br.ahead == old(br.ahead)[TokenAt(t, old(br.ahead)).bits..]
  {
    hide LengthTable, Value, Fits, Low;
    ghost var a := br.ahead;
    br.FillBitWindow();
    FitsAgrees(br.input, Snapshot(br.val, br.bitPos, br.pos), a);
    EntryInWord(t, br.val, br.bitPos, a);
    var e := t[Field(br.val, LENGTH_BITS)];
    EntryBounds(t, Slot(Value(a)));
    br.DropBits(e.bits);
    if e.value < REPEAT_PREVIOUS {
      token := Single(e.value);
    } else {
      var x := e.value - 14;
      FitsAgrees(br.input, Snapshot(br.val, br.bitPos, br.pos), br.ahead);
      FieldAgrees(br.val, br.bitPos, br.ahead, x);
      token := Repeat(e.value, Field(br.val, x));
      assert a[e.bits..][x..] == a[e.bits + x..];
      br.DropBits(x);
    }
  }

  /** The bits in the accumulator select an entry; if it is not longer than they are, it is the entry at
      the cursor, and if they are all that is left, it is in any case. */
  lemma PartialEntry(t: seq<Entry>, a: seq<bool>, n: nat, v: nat)
    requires LengthTable(t) && n <= |a| && v == Value(a[..n])
    ensures t[Slot(v)].bits <= n || n == |a| ==> t[Slot(Value(a))] == t[Slot(v)]
  {
    hide Low, Value, LengthTable;
    assert |t| == 32 by { TableSize32(t); }
    ValueLow(a, n);
    ValueLow(a[..n], n);
    if t[Slot(v)].bits <= n { SameEntry(t, v, Value(a), n); }
    if n == |a| { assert a[..n] == a; }
  }

  lemma TableSize32(t: seq<Entry>)
    requires LengthTable(t)
    ensures |t| == 32
  {
  }

  /** The slot of a clean accumulator. */
  lemma CleanSlot(val: Word, n: nat, a: seq<bool>)
    requires BitReader.Agrees(val, n, a) && forall i :: n <= i < 64 ==> !val[i]
    ensures Field(val, LENGTH_BITS) == Slot(Value(a[..n]))
  {
    hide Low, Value;
    assert val == a[..n] + val[n..];
    ValuePadded(a[..n], val[n..]);
    ValueLow(val, LENGTH_BITS);
  }

  lemma EmptySlot()
    ensures Slot(Value([])) == 0
  {
    LowSmall(0, LENGTH_BITS);
  }

  datatype Progress = Consumed(token: Token) | Pulled | OutOfInput

  /** One round of the careful loop: a token if it is whole in the accumulator, or one more byte. */
  method SafeToken(br: Reader, t: seq<Entry>) returns (p: Progress)
    requires br.Valid() && LengthTable(t)
    modifies br`val, br`bitPos, br`pos, br`ahead
    ensures br.Valid() && br.pos >= old(br.pos)
    ensures p.Consumed? ==> TokenAt(t, old(br.ahead)).Spelled? && p.token == TokenAt(t, old(br.ahead)).token
    ensures p.Consumed? ==> br.ahead == old(br.ahead)[TokenAt(t, old(br.ahead)).bits..]
    ensures !p.Consumed? ==> br.ahead == old(br.ahead)
    ensures p.Pulled? ==> old(br.pos) < br.pos <= |br.input|
    ensures p.OutOfInput? ==> TokenAt(t, br.ahead).Incomplete?
  {
    hide LengthTable, Value, Fits, Low, Slot;
    ghost var a := br.ahead;
    var avail := br.bitPos;
    var slot := SafeSlot(br);
    TableSize32(t);
    PartialEntry(t, a, avail, Value(a[..avail]));
    EntryBounds(t, slot);
    var e := t[slot];
    if e.bits > avail {
      p := PullOr(br);
      OutOfBits(e, a);
    } else if e.value < REPEAT_PREVIOUS {
      p := Consumed(Single(e.value));
      br.DropBits(e.bits);
    } else {
      var x := e.value - 14;
      if avail < e.bits + x {
        p := PullOr(br);
        OutOfBits(e, a);
      } else {
        FitsAgrees(br.input, Snapshot(br.val, br.bitPos, br.pos), a);
        ExtraField(br.val, avail, a, e.bits, x);
        p := Consumed(Repeat(e.value, Field(ShiftRight(br.val, e.bits), x)));
        br.DropBits(e.bits + x);
      }
    }
  }

  /** An entry that is longer than what is left. */
  lemma OutOfBits(e: Entry, a: seq<bool>)
    ensures e.bits > |a| || (e.value >= REPEAT_PREVIOUS && e.bits + (e.value - 14) > |a|) ==> TokenOf(e, a).Incomplete?
  {
  }

  /** The slot that the accumulator selects, cleared above its bits. */
  method SafeSlot(br: Reader) returns (slot: nat)
    requires br.Valid()
    modifies br`val
    ensures br.Valid() && br.bitPos <= |br.ahead| && slot == Slot(Value(br.ahead[..br.bitPos]))
  {
    hide Fits, Value;
    br.Room();
    if br.bitPos == 0 {
      EmptySlot();
      assert br.ahead[..0] == [];
      return 0;
    }
    br.Normalize();
    FitsAgrees(br.input, Snapshot(br.val, br.bitPos, br.pos), br.ahead);
    CleanSlot(br.val, br.bitPos, br.ahead);
    slot := Field(br.val, LENGTH_BITS);
  }

  /** One more byte if there is one; otherwise all that is left is in the accumulator. */
  method PullOr(br: Reader) returns (p: Progress)
    requires br.Valid() && br.bitPos <= 55
    modifies br`val, br`bitPos, br`pos
    ensures br.Valid() && br.pos >= old(br.pos) && !p.Consumed?
    ensures p.Pulled? ==> old(br.pos) < br.pos <= |br.input|
    ensures p.OutOfInput? ==> old(br.bitPos) == |br.ahead|
  {
    hide Fits;
    br.Upcoming();
    br.Room();
    var ok := br.PullByte();
    p := if ok then Pulled else OutOfInput;
  }

  lemma ExtraField(val: Word, n: nat, a: seq<bool>, k: nat, x: nat)
    requires BitReader.Agrees(val, n, a) && k + x <= n
    ensures k <= |a| && x <= |a[k..]| && Field(ShiftRight(val, k), x) == Value(a[k..][..x])
  {
    hide Value;
    DropAgrees(val, n, a, k);
    FieldAgrees(ShiftRight(val, k), n - k, a[k..], x);
  }

  datatype Status = Success | NeedsMoreInput

  /** The loop that fills or pulls, as the input allows. */
  method ReadCarefully(r: CodeLengthReader, br: Reader, t: seq<Entry>) returns (status: Status)
    requires r.Valid() && br.Valid() && LengthTable(t) && Apart(r, br)
    modifies r, r.lists, r.nextSymbol, r.histo, br`val, br`bitPos, br`pos, br`ahead
    ensures r.Valid() && br.Valid() && Process(t, r.alphabetSize, old(r.used), old(br.ahead)) == (r.used, br.ahead)
    ensures status == (if r.Reading() then NeedsMoreInput else Success)
            && (r.Reading() ==> TokenAt(t, br.ahead).Incomplete?)
  {
    hide LengthTable, Fits, CodeLengthReader.Valid, Process, TokenAt, Needed;
    ghost var result := Process(t, r.alphabetSize, r.used, br.ahead);
    while r.symbol < r.alphabetSize && r.space > 0
      invariant r.Valid() && br.Valid() && result == Process(t, r.alphabetSize, r.used, br.ahead)
      decreases r.alphabetSize - r.symbol, |br.input| - br.pos
    {
      ProcessStep(t, r.alphabetSize, r.used, br.ahead);
      ReadingIsNeeded(r);
      if br.pos <= |br.input| - FAST_INPUT_SLACK {
        var token := FilledToken(br, t);
        ProcessToken(r, token);
      } else {
        var p := SafeToken(br, t);
        if p.OutOfInput? {
          return NeedsMoreInput;
        } else if p.Consumed? {
          ProcessToken(r, p.token);
        }
      }
    }
    ProcessStep(t, r.alphabetSize, r.used, br.ahead);
    ReadingIsNeeded(r);
    status := Success;
  }

  /** Reads all code-length symbols that are there and needed. Which of the loops reads which of them
      makes no difference: the symbols processed and the bits left are those of the meaning. */
  method ReadSymbolCodeLengths(r: CodeLengthReader, br: Reader, t: seq<Entry>) returns (status: Status)
    requires r.Valid() && br.Valid() && LengthTable(t) && Apart(r, br)
    modifies r, r.lists, r.nextSymbol, r.histo, br`val, br`bitPos, br`pos, br`ahead
    ensures r.Valid() && br.Valid() && Process(t, r.alphabetSize, old(r.used), old(br.ahead)) == (r.used, br.ahead)
    ensures status == (if r.Reading() then NeedsMoreInput else Success)
            && (r.Reading() ==> TokenAt(t, br.ahead).Incomplete?)
  {
    hide Fits, CodeLengthReader.Valid, Process, TokenAt, LengthTable;
    br.Warmup();
    if br.pos <= |br.input| - FAST_INPUT_SLACK { ReadBatched(r, br, t); }
    status := ReadCarefully(r, br, t);
  }

  /** Code lengths from input that arrives in chunks, with a suspension before each: the symbols
      processed, and so the lists and the code space, are those of all the input in one piece. */
  method ReadChunks(r: CodeLengthReader, br: Reader, t: seq<Entry>, chunks: seq<seq<byte>>)
    returns (status: Status, used: nat)
    requires r.Valid() && br.Valid() && LengthTable(t) && Apart(r, br)
    modifies r, r.lists, r.nextSymbol, r.histo, br
    ensures r.Valid() && br.Valid() && used <= |chunks| && (status == NeedsMoreInput ==> used == |chunks|)
    ensures status == if r.Reading() then NeedsMoreInput else Success
    ensures Process(t, r.alphabetSize, old(r.used), old(br.ahead) + AllBits(chunks)) ==
            (r.used, br.ahead + AllBits(chunks[used..]))
  {
    hide LengthTable, Fits, CodeLengthReader.Valid, Process, TokenAt, BitsOf;
    ghost var u, a, all := r.used, br.ahead, AllBits(chunks);
    used := 0;
    assert chunks[0..] == chunks;
    status := ReadSymbolCodeLengths(r, br, t);
    ProcessInPieces(t, r.alphabetSize, u, a, all);
    ghost var result := Process(t, r.alphabetSize, u, a + all);
    while status == NeedsMoreInput && used < |chunks|
      invariant r.Valid() && br.Valid() && used <= |chunks|
                && status == (if r.Reading() then NeedsMoreInput else Success)
      invariant result == Process(t, r.alphabetSize, r.used, br.ahead + AllBits(chunks[used..]))
      invariant r.Reading() ==> TokenAt(t, br.ahead).Incomplete?
    {
      ghost var rest := AllBits(chunks[used + 1..]);
      assert chunks[used..][1..] == chunks[used + 1..];
      assert br.ahead + (BitsOf(chunks[used]) + rest) == (br.ahead + BitsOf(chunks[used])) + rest;
      br.Feed(chunks[used]);
      ghost var v, b := r.used, br.ahead;
      status := ReadSymbolCodeLengths(r, br, t);
      ProcessInPieces(t, r.alphabetSize, v, b, rest);
      used := used + 1;
    }
    ReadingIsNeeded(r);
    ghost var rest := AllBits(chunks[used..]);
    assert used == |chunks| ==> br.ahead + rest == br.ahead;
    ProcessStep(t, r.alphabetSize, r.used, br.ahead + rest);
  }
}
