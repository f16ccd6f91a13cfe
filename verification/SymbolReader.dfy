/** Reading symbols, commands and literals through the bit accumulator: the fast paths, which look up
    before they refill, and the safe paths, which can run out of input, against the same meaning. */
module SymbolReader {
  import opened Bits
  import opened PrefixCode
  import opened HuffmanTable
  import opened BitReader

  // ---------- The next symbol of a bit sequence ----------

  /** Lookups stay inside the table. */
  ghost predicate InTable(t: seq<Entry>, v: nat) {
    && |t| >= 256 && Low(v, ROOT_BITS) < 256
    && (t[Low(v, ROOT_BITS)].bits > ROOT_BITS ==> SecondIndex(t[Low(v, ROOT_BITS)], v) < |t|)
  }

  lemma Lookup(t: seq<Entry>, n: nat, v: nat)
    requires Codes(t, n)
    ensures InTable(t, v) && DecodeSymbol(t, v).bits <= MAX_LEN && DecodeSymbol(t, v).value < n
  {
    hide TableFor, StartsWithCode, Low, High, DecodeSymbol;
    if Constant(t, n) {
      ConstantDecodes(t, n, v);
      return;
    }
    var lens: seq<nat> :| |lens| <= n && TableFor(lens, t);
    TableDecodesCanonicalCode(lens, t, v, 0);
    var s := DecodeSymbol(t, v).value;
    TableDecodesCanonicalCode(lens, t, v, s);
    CodeNotEmpty(lens, s, v);
    LengthsValid(lens, t);
  }

  lemma LengthsValid(lens: seq<nat>, t: seq<Entry>)
    requires TableFor(lens, t)
    ensures ValidLengths(lens)
  {
    hide TableOk, Complete, Kraft;
  }

  /** The symbol at the head of a bit sequence, read as if zeros followed its end. */
  ghost function SymbolAt(t: seq<Entry>, n: nat, a: seq<bool>): (s: Symbol)
    requires Codes(t, n)
    ensures s.bits <= MAX_LEN && s.value < n
  {
    Lookup(t, n, Value(a));
    DecodeSymbol(t, Value(a))
  }

  /** Fifteen bits decide the symbol. */
  lemma SameSymbol(t: seq<Entry>, n: nat, v: nat, w: nat)
    requires Codes(t, n) && Low(v, MAX_LEN) == Low(w, MAX_LEN)
    ensures InTable(t, v) && InTable(t, w) && DecodeSymbol(t, v) == DecodeSymbol(t, w)
  {
    hide Low, High, Rev, DecodeSymbol, TableOk, Complete, TableSize, Order, At, Kraft;
    Lookup(t, n, v);
    Lookup(t, n, w);
    if Constant(t, n) {
      ConstantDecodes(t, n, v);
      ConstantDecodes(t, n, w);
      return;
    }
    var lens: seq<nat> :| |lens| <= n && TableFor(lens, t);
    TableDecodes(Order(lens, MAX_LEN), t, v);
    TableDecodes(Order(lens, MAX_LEN), t, w);
    RevOfLow(MAX_LEN, MAX_LEN, v);
    RevOfLow(MAX_LEN, MAX_LEN, w);
  }

  /** Whether the whole code of the next symbol is there can be told from the bits that are there, and
      more input changes nothing. */
  lemma SymbolIsStable(t: seq<Entry>, n: nat, a: seq<bool>, z: seq<bool>)
    requires Codes(t, n)
    ensures SymbolAt(t, n, a).bits <= |a| ==> SymbolAt(t, n, a + z) == SymbolAt(t, n, a)
    ensures SymbolAt(t, n, a).bits > |a| ==> SymbolAt(t, n, a + z).bits > |a|
  {
    hide Codes, Low, High, DecodeSymbol, SafeDecodeSymbol;
    ValueLow(a, |a|);
    assert (a + z)[..|a|] == a;
    ValueLow(a + z, |a|);
    SafeDecodeIsExact(t, n, Value(a), |a|);
    SafeDecodeIsExact(t, n, Value(a + z), |a|);
  }

  /** The symbol is the one whose canonical code the bits start with. */
  lemma SymbolIsCanonical(lens: seq<nat>, t: seq<Entry>, n: nat, a: seq<bool>, s: nat)
    requires TableFor(lens, t) && |lens| <= n
    ensures Codes(t, n)
    ensures StartsWithCode(lens, s, Value(a)) <==> s == SymbolAt(t, n, a).value
    ensures s == SymbolAt(t, n, a).value ==> s < |lens| && lens[s] == SymbolAt(t, n, a).bits
  {
    hide TableFor, StartsWithCode, Low, High, DecodeSymbol;
    assert Codes(t, n);
    TableDecodesCanonicalCode(lens, t, Value(a), s);
    if s == SymbolAt(t, n, a).value { CodeNotEmpty(lens, s, Value(a)); }
  }

  // ---------- Lookups in the accumulator ----------

  /** With fifteen bits in the accumulator, its value decodes like the whole stream. */
  lemma WordDecodes(t: seq<Entry>, n: nat, val: Word, bitPos: nat, ahead: seq<bool>)
    requires Codes(t, n) && Agrees(val, bitPos, ahead) && bitPos >= MAX_LEN
    ensures InTable(t, Value(val)) && DecodeSymbol(t, Value(val)) == SymbolAt(t, n, ahead)
  {
    hide Codes, Low, Value, DecodeSymbol;
    assert val[..MAX_LEN] == ahead[..MAX_LEN];
    SameLow(val, ahead, MAX_LEN);
    SameSymbol(t, n, Value(val), Value(ahead));
  }

  /** The root index is the same before and after a refill. */
  lemma RootIndex(val: Word, bitPos: nat, val': Word, bitPos': nat, ahead: seq<bool>)
    requires Agrees(val, bitPos, ahead) && Agrees(val', bitPos', ahead) && bitPos >= ROOT_BITS && bitPos' >= ROOT_BITS
    ensures Low(Value(val), ROOT_BITS) == Low(Value(val'), ROOT_BITS)
  {
    hide Low, Value;
    assert val[..ROOT_BITS] == ahead[..ROOT_BITS] == val'[..ROOT_BITS];
    SameLow(val, val', ROOT_BITS);
  }

  /** Reads a symbol when fifteen bits are in the accumulator. */
  method ReadSymbol(br: Reader, t: seq<Entry>, n: nat) returns (s: nat)
    requires br.Valid() && Codes(t, n) && br.bitPos >= MAX_LEN
    modifies br`val, br`bitPos, br`ahead
    ensures br.Valid() && s == SymbolAt(t, n, old(br.ahead)).value
            && br.ahead == old(br.ahead)[SymbolAt(t, n, old(br.ahead)).bits..]
    ensures br.bitPos == old(br.bitPos) - SymbolAt(t, n, old(br.ahead)).bits
  {
    hide Codes, Agrees, Value, DecodeSymbol, Low, High;
    WordDecodes(t, n, br.val, br.bitPos, br.ahead);
    var d := DecodeSymbol(t, Value(br.val));
    br.DropBits(d.bits);
    s := d.value;
  }

  /** Reads a symbol if its whole code is there. */
  method SafeReadSymbol(br: Reader, t: seq<Entry>, n: nat) returns (s: nat, ok: bool)
    requires br.Valid() && Codes(t, n)
    modifies br`val, br`bitPos, br`pos, br`ahead
    ensures br.Valid() && ok == (SymbolAt(t, n, old(br.ahead)).bits <= |old(br.ahead)|)
    ensures ok ==>
            s == SymbolAt(t, n, old(br.ahead)).value && br.ahead == old(br.ahead)[SymbolAt(t, n, old(br.ahead)).bits..]
    ensures !ok ==> br.ahead == old(br.ahead)
  {
    hide Codes, Fits, Value, DecodeSymbol, SafeDecodeSymbol, Low, High, TableFor;
    var v;
    v, ok := br.SafeGetBits(MAX_LEN);
    if ok {
      FirstBits(br.ahead, MAX_LEN);
      SameSymbol(t, n, v, Value(br.ahead));
      var d := DecodeSymbol(t, v);
      assert d == SymbolAt(t, n, br.ahead);
      br.DropBits(d.bits);
      return d.value, true;
    }
    br.Normalize();
    CleanValue(br);
    SafeLookup(t, n, br.ahead);
    var r := SafeDecodeSymbol(t, Value(br.val), br.bitPos);
    if r.None? { return 0, false; }
    br.DropBits(r.value.bits);
    return r.value.value, true;
  }

  lemma FirstBits(a: seq<bool>, n: nat)
    requires n <= |a|
    ensures Low(Value(a[..n]), n) == Low(Value(a), n)
  {
    ValueLow(a, n);
    ValueLow(a[..n], n);
  }

  /** With all of the input in a clean accumulator, its value is that of the remaining bits. */
  lemma CleanValue(br: Reader)
    requires br.Valid() && br.bitPos == |br.ahead| && forall i :: br.bitPos <= i < 64 ==> !br.val[i]
    ensures Value(br.val) == Value(br.ahead)
  {
    hide Value;
    assert br.val == br.ahead + br.val[br.bitPos..];
    ValuePadded(br.ahead, br.val[br.bitPos..]);
  }

  lemma SafeLookup(t: seq<Entry>, n: nat, a: seq<bool>)
    requires Codes(t, n)
    ensures var v := Value(a);
            && |t| >= 256 && Low(v, ROOT_BITS) < 256
            && (t[Low(v, ROOT_BITS)].bits > ROOT_BITS ==>
                  Low(v, ROOT_BITS) + t[Low(v, ROOT_BITS)].value
                    + High(Low(v, t[Low(v, ROOT_BITS)].bits), ROOT_BITS) < |t|)
            && SafeDecodeSymbol(t, v, |a|) == if SymbolAt(t, n, a).bits <= |a| then Some(SymbolAt(t, n, a)) else None
  {
    hide Codes, Low, High, DecodeSymbol, SafeDecodeSymbol, Value;
    ValueLow(a, |a|);
    SafeDecodeIsExact(t, n, Value(a), |a|);
  }

  // ---------- Commands ----------

  /** What a command symbol stands for: extra bits and offsets of both lengths, and the distance. */
  datatype Command = Command(insertBits: nat, copyBits: nat, insertOffset: nat, copyOffset: nat, distanceCode: int,
                             context: nat)

  datatype Lengths = Lengths(insert: nat, copy: nat, distanceCode: int, context: nat)

  predicate LutOk(lut: seq<Command>) { forall i :: 0 <= i < |lut| ==> lut[i].insertBits <= 24 && lut[i].copyBits <= 24 }

  /** The command at the head of a bit sequence, and what follows it. */
  ghost function CommandAt(t: seq<Entry>, lut: seq<Command>, a: seq<bool>): Option<(Lengths, seq<bool>)>
    requires Codes(t, |lut|)
  {
    var s := SymbolAt(t, |lut|, a);
    if s.bits > |a| then None else ExtraAt(lut[s.value], a[s.bits..])
  }

  ghost function ExtraAt(c: Command, a: seq<bool>): Option<(Lengths, seq<bool>)> {
    if c.insertBits > |a| then None else
      var b := a[c.insertBits..];
      if c.copyBits > |b| then None else
        Some((Lengths(c.insertOffset + Value(a[..c.insertBits]), c.copyOffset + Value(b[..c.copyBits]), c.distanceCode,
                      c.context), b[c.copyBits..]))
  }

  /** The commands remembered for root slots are those of the table. */
  ghost predicate MemoOk(memo: seq<Option<Command>>, t: seq<Entry>, lut: seq<Command>) {
    |memo| == 256 <= |t| &&
    forall x :: 0 <= x < 256 && memo[x].Some? ==>
      t[x].bits <= ROOT_BITS && t[x].value < |lut| && memo[x].value == lut[t[x].value]
  }

  /** Looks a command up in the table, or in what is remembered for the root slot. */
  method FindCommand(t: seq<Entry>, lut: seq<Command>, memo: array<Option<Command>>, idx: nat, v: nat)
    returns (c: Command, drop: nat)
    requires InTable(t, v) && idx == Low(v, ROOT_BITS) && DecodeSymbol(t, v).value < |lut| && MemoOk(memo[..], t, lut)
    modifies memo
    ensures MemoOk(memo[..], t, lut)
    ensures c == lut[DecodeSymbol(t, v).value] && drop == DecodeSymbol(t, v).bits
  {
    hide Low, High;
    var e := t[idx];
    drop := e.bits;
    if drop > ROOT_BITS {
      var f := t[idx + e.value + Low(High(v, ROOT_BITS), drop - ROOT_BITS)];
      drop := ROOT_BITS + f.bits;
      c := lut[f.value];
    } else if memo[idx].None? {
      c := lut[e.value];
      memo[idx] := Some(c);
    } else {
      c := memo[idx].value;
    }
  }

  /** A refill and the facts about the lookups before and after it. */
  method RefillForCommand(br: Reader, t: seq<Entry>, n: nat) returns (idx: nat)
    requires br.Valid() && Codes(t, n) && br.bitPos >= ROOT_BITS && br.pos + 8 <= |br.input|
    modifies br`val, br`bitPos, br`pos
    ensures br.Valid() && br.bitPos >= 56 && br.pos <= old(br.pos) + 6
    ensures InTable(t, Value(br.val)) && idx == Low(Value(br.val), ROOT_BITS)
    ensures DecodeSymbol(t, Value(br.val)) == SymbolAt(t, n, br.ahead)
  {
    hide Codes, Agrees, Value, Low, High, DecodeSymbol, InTable;
    ghost var was := br.val;
    idx := Low(Value(br.val), ROOT_BITS);
    br.Refill64();
    RootIndex(was, old(br.bitPos), br.val, br.bitPos, br.ahead);
    WordDecodes(t, n, br.val, br.bitPos, br.ahead);
  }

  /** The symbol of a command: the root index is taken before the refill, everything else after it, and
      the command of a root slot is remembered. */
  method FastSymbol(br: Reader, t: seq<Entry>, lut: seq<Command>, memo: array<Option<Command>>) returns (c: Command)
    requires br.Valid() && Codes(t, |lut|) && memo as object != br
    requires br.bitPos >= ROOT_BITS && br.pos + 8 <= |br.input| && MemoOk(memo[..], t, lut)
    modifies br`val, br`bitPos, br`pos, br`ahead, memo
    ensures br.Valid() && MemoOk(memo[..], t, lut) && br.bitPos >= 41 && br.pos <= old(br.pos) + 6
    ensures StartsCommand(t, lut, old(br.ahead), c, br.ahead)
  {
    hide Codes, Fits, Value, Low, High, DecodeSymbol, InTable, MemoOk;
    var idx := RefillForCommand(br, t, |lut|);
    var drop;
    c, drop := FindCommand(t, lut, memo, idx, Value(br.val));
    br.Room();
    br.DropBits(drop);
  }

  /** c is the command whose symbol stands at the head of a, and b follows that symbol. */
  ghost predicate StartsCommand(t: seq<Entry>, lut: seq<Command>, a: seq<bool>, c: Command, b: seq<bool>)
    requires Codes(t, |lut|)
  {
    var s := SymbolAt(t, |lut|, a);
    s.bits <= |a| && c == lut[s.value] && b == a[s.bits..]
  }

  /** The extra bits after a command symbol; only insert bits make a second refill necessary. */
  method FastExtra(br: Reader, c: Command) returns (r: Lengths)
    requires br.Valid() && br.bitPos >= 41 && c.insertBits <= 24 && c.copyBits <= 24 && br.pos + 8 <= |br.input|
    modifies br`val, br`bitPos, br`pos, br`ahead
    ensures br.Valid() && ExtraAt(c, old(br.ahead)) == Some((r, br.ahead))
  {
    hide Fits, Value;
    ghost var b := br.ahead;
    var extra := 0;
    br.Room();
    if c.insertBits != 0 {
      extra := br.TakeBits(c.insertBits);
      br.Refill64();
    } else {
      assert b[..0] == [] && b[0..] == b;
      NoValue();
    }
    br.Room();
    var more := br.TakeBits(c.copyBits);
    r := Lengths(c.insertOffset + extra, c.copyOffset + more, c.distanceCode, c.context);
  }

  /** The fast command path. */
  method ReadCommandFast(br: Reader, t: seq<Entry>, lut: seq<Command>, memo: array<Option<Command>>)
    returns (r: Lengths)
    requires br.Valid() && Codes(t, |lut|) && LutOk(lut) && memo as object != br
    requires br.bitPos >= ROOT_BITS && br.pos + FAST_INPUT_SLACK <= |br.input| && MemoOk(memo[..], t, lut)
    modifies br`val, br`bitPos, br`pos, br`ahead, memo
    ensures br.Valid() && MemoOk(memo[..], t, lut)
    ensures CommandAt(t, lut, old(br.ahead)) == Some((r, br.ahead))
  {
    hide Codes, Fits, Value, MemoOk, ExtraAt;
    var c := FastSymbol(br, t, lut, memo);
    r := FastExtra(br, c);
  }

  lemma NoValue()
    ensures Value([]) == 0
  {
  }

  /** The extra bits of a command, without the slack: it fails exactly when they are not all there. */
  method SafeExtra(br: Reader, c: Command) returns (r: Lengths, ok: bool)
    requires br.Valid() && c.insertBits <= 24 && c.copyBits <= 24
    modifies br`val, br`bitPos, br`pos, br`ahead
    ensures br.Valid() && (ok <==> ExtraAt(c, old(br.ahead)).Some?)
    ensures ok ==> ExtraAt(c, old(br.ahead)) == Some((r, br.ahead))
  {
    hide Fits, Value;
    r := Lengths(0, 0, 0, 0);
    ghost var b := br.ahead;
    var extra, more := 0, 0;
    if c.insertBits != 0 {
      extra, ok := br.SafeReadBits(c.insertBits);
      if !ok { return; }
    } else {
      assert b[..0] == [] && b[0..] == b;
      NoValue();
    }
    more, ok := br.SafeReadBits(c.copyBits);
    if ok {
      r := Lengths(c.insertOffset + extra, c.copyOffset + more, c.distanceCode, c.context);
    }
  }

  /** The safe command path: it succeeds exactly when the whole command is there, and otherwise leaves
      the cursor in front of it. */
  method ReadCommandSafe(br: Reader, t: seq<Entry>, lut: seq<Command>) returns (r: Lengths, ok: bool)
    requires br.Valid() && Codes(t, |lut|) && LutOk(lut)
    modifies br`val, br`bitPos, br`pos, br`ahead
    ensures br.Valid() && CommandAt(t, lut, old(br.ahead)) == (if ok then Some((r, br.ahead)) else None)
    ensures !ok ==> br.ahead == old(br.ahead)
  {
    hide Codes, Fits, ExtraAt;
    r := Lengths(0, 0, 0, 0);
    ghost var a := br.ahead;
    var memento := br.SaveState();
    var s;
    s, ok := SafeReadSymbol(br, t, |lut|);
    if !ok { return; }
    r, ok := SafeExtra(br, lut[s]);
    if !ok { br.RestoreState(memento, a); }
  }

  // ---------- Batches of literals ----------

  /** The tables of the literals, selected by the two bytes before. */
  ghost predicate LiteralCodes(select: (byte, byte) -> seq<Entry>) { forall p, q :: Codes(select(p, q), 256) }

  /** Decoded literals, the last two bytes, and the bits that remain. */
  datatype Literals = Literals(p: byte, q: byte, out: seq<byte>, ahead: seq<bool>)

  ghost function NextLiteral(select: (byte, byte) -> seq<Entry>, l: Literals): Literals
    requires LiteralCodes(select)
  {
    var s := SymbolAt(select(l.p, l.q), 256, l.ahead);
    Literals(s.value, l.p, l.out + [s.value], if s.bits <= |l.ahead| then l.ahead[s.bits..] else [])
  }

  /** One symbol after another. */
  ghost function LiteralsAt(select: (byte, byte) -> seq<Entry>, p: byte, q: byte, a: seq<bool>, n: nat): (l: Literals)
    requires LiteralCodes(select)
    ensures |l.out| == n
  {
    if n == 0 then Literals(p, q, [], a) else NextLiteral(select, LiteralsAt(select, p, q, a, n - 1))
  }

  /** One literal, after a refill if fewer than fifteen bits are left. */
  method ReadLiteral(br: Reader, t: seq<Entry>) returns (s: byte)
    requires br.Valid() && Codes(t, 256) && (br.bitPos < MAX_LEN ==> br.pos + 8 <= |br.input|)
    modifies br`val, br`bitPos, br`pos, br`ahead
    ensures br.Valid() && 8 * (br.pos - old(br.pos)) <= 15 + br.bitPos - old(br.bitPos) && br.pos >= old(br.pos)
    ensures var d := SymbolAt(t, 256, old(br.ahead));
            d.bits <= |old(br.ahead)| && s == d.value && br.ahead == old(br.ahead)[d.bits..]
  {
    hide Codes, Fits, Value;
    if br.bitPos < MAX_LEN { br.Refill64(); }
    br.Room();
    s := ReadSymbol(br, t, 256);
  }

  /** Decodes n literals with eight-byte loads. Two bytes of input for each literal and eight more keep
      every load inside the input. */
  method DecodeLiteralsBatch(br: Reader, dst: array<byte>, at: nat, n: nat, select: (byte, byte) -> seq<Entry>,
                             p0: byte, q0: byte) returns (p: byte, q: byte)
    requires br.Valid() && LiteralCodes(select) && at + n <= dst.Length && n <= (|br.input| - br.pos - 8) / 2
    requires dst as object != br
    modifies br`val, br`bitPos, br`pos, br`ahead, dst
    ensures br.Valid() && LiteralsAt(select, p0, q0, old(br.ahead), n) == Literals(p, q, dst[at..at + n], br.ahead)
    ensures dst[..at] == old(dst[..at]) && dst[at + n..] == old(dst[at + n..])
  {
    hide Codes, Fits, Value, Stored;
    p, q := p0, q0;
    StoredNothing(dst[..], at);
    ghost var a := br.ahead;
    ghost var pos0 := br.pos;
    ghost var out: seq<byte> := [];
    for j := 0 to n
      invariant br.Valid() && 8 * (br.pos - pos0) <= 15 * j + br.bitPos && br.pos >= pos0
      invariant |out| == j && Stored(dst[..], old(dst[..]), at, out)
      invariant LiteralsAt(select, p0, q0, a, j) == Literals(p, q, out, br.ahead)
    {
      var s := ReadLiteral(br, select(p, q));
      q := p;
      p := s;
      StoredNext(dst[..], old(dst[..]), at, out, s);
      dst[at + j] := s;
      out := out + [s];
    }
    StoredParts(dst[..], old(dst[..]), at, out);
  }

  /** d is e with out written at position at. */
  ghost predicate Stored(d: seq<byte>, e: seq<byte>, at: nat, out: seq<byte>) {
    && |d| == |e| && at + |out| <= |e|
    && (forall k :: at <= k < at + |out| ==> d[k] == out[k - at])
    && (forall k :: 0 <= k < |e| && !(at <= k < at + |out|) ==> d[k] == e[k])
  }

  lemma StoredNothing(e: seq<byte>, at: nat)
    requires at <= |e|
    ensures Stored(e, e, at, [])
  {
  }

  lemma StoredNext(d: seq<byte>, e: seq<byte>, at: nat, out: seq<byte>, s: byte)
    requires Stored(d, e, at, out) && at + |out| < |e| == |d|
    ensures Stored(d[at + |out| := s], e, at, out + [s])
  {
  }

  lemma StoredParts(d: seq<byte>, e: seq<byte>, at: nat, out: seq<byte>)
    requires Stored(d, e, at, out)
    ensures d[at..at + |out|] == out && d[..at] == e[..at] && d[at + |out|..] == e[at + |out|..]
  {
  }
}
