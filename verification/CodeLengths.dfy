/** Reading the code lengths of a complex prefix code (section 3.5 of RFC 7932): run-length
    expansion, 64-bit unsigned accounting of the code space, per-length linked symbol lists and
    the length histogram, resumable between any two code-length symbols. */
module CodeLengths {
  import opened Arithmetic
  import opened Bits
  import opened PrefixCode
  import opened HuffmanTable

  const INITIAL_REPEATED_CODE_LENGTH := 8
  const WORD: nat := 0x1_0000_0000_0000_0000
  const OVERFLOW_SPACE: nat := 0xFFFFF

  /** A symbol of the code-length alphabet with its extra bits: a length, 16 or 17. */
  datatype Token = Single(len: nat) | RepeatPrevious(extra: nat) | RepeatZero(extra: nat)
  {
    predicate Valid() {
      match this
      case Single(l) => l <= MAX_LEN
      case RepeatPrevious(e) => e < 4
      case RepeatZero(e) => e < 8
    }
  }

  ghost predicate ValidTokens(tokens: seq<Token>) { forall i :: 0 <= i < |tokens| ==> tokens[i].Valid() }

  // ---------- Reference expansion ----------

  ghost function Rep(len: nat, n: nat): (r: seq<nat>)
    ensures |r| == n && forall i :: 0 <= i < n ==> r[i] == len
  {
    seq(n, _ => len)
  }

  /** Repeat count after one more repeat symbol with b extra bits, of value e. */
  function NextCount(count: nat, b: nat, e: nat): nat {
    (if count >= 2 then (count - 2) * Pow2(b) else 0) + e + 3
  }

  /** Length of the maximal run of equal repeat symbols at the front. */
  ghost function RunLength(tokens: seq<Token>): (n: nat)
    ensures n <= |tokens| && (|tokens| > 0 && !tokens[0].Single? ==> n > 0)
  {
    if |tokens| == 0 || tokens[0].Single? then 0
    else if |tokens| > 1 && SameKind(tokens[0], tokens[1]) then 1 + RunLength(tokens[1..])
    else 1
  }

  predicate SameKind(a: Token, b: Token) {
    (a.RepeatPrevious? && b.RepeatPrevious?) || (a.RepeatZero? && b.RepeatZero?)
  }

  function ExtraBits(t: Token): nat requires !t.Single? { if t.RepeatPrevious? then 2 else 3 }

  /** Repeat count that a run of n repeat symbols encodes: each symbol refines the one before. */
  ghost function RunCount(tokens: seq<Token>, n: nat): nat
    requires n <= |tokens| && forall i :: 0 <= i < n ==> !tokens[i].Single?
  {
    if n == 0 then 0 else NextCount(RunCount(tokens, n - 1), ExtraBits(tokens[n - 1]), tokens[n - 1].extra)
  }

  // ---------- Step-by-step expansion, as the decoder does it ----------

  /** lens: lengths so far; repeat: count of the run in progress; repeatLen: its length; prev: last
      non-zero length. */
  datatype Run = Run(lens: seq<nat>, repeat: nat, repeatLen: nat, prev: nat)

  function Start0(): Run { Run([], 0, 0, INITIAL_REPEATED_CODE_LENGTH) }

  /** Length that a repeat symbol repeats. */
  function Repeated(r: Run, t: Token): nat requires !t.Single? { if t.RepeatPrevious? then r.prev else 0 }

  /** Count of the run that t continues; 0 when it starts a new one. */
  function Carried(r: Run, t: Token): nat requires !t.Single? { if r.repeatLen != Repeated(r, t) then 0 else r.repeat }

  /** Number of lengths that t adds. */
  ghost function Added(r: Run, t: Token): int
    requires !t.Single?
  {
    NextCount(Carried(r, t), ExtraBits(t), t.extra) - Carried(r, t)
  }

  lemma AddedPositive(r: Run, t: Token)
    requires !t.Single?
    ensures Added(r, t) > 0
  {
    var c, b := Carried(r, t), ExtraBits(t);
    assert Pow2(2) == 4 && Pow2(3) == 8;
    if c >= 2 { assert (c - 2) * Pow2(b) >= (c - 2) * 1; }
  }

  ghost function Step(r: Run, t: Token): Run
  {
    match t
    case Single(l) => Run(r.lens + [l], 0, r.repeatLen, if l != 0 then l else r.prev)
    case _ =>
      AddedPositive(r, t);
      Run(r.lens + Rep(Repeated(r, t), Added(r, t)), NextCount(Carried(r, t), ExtraBits(t), t.extra), Repeated(r, t),
          r.prev)
  }

  ghost function Steps(r: Run, tokens: seq<Token>): Run
    decreases |tokens|
  {
    if |tokens| == 0 then r else Steps(Step(r, tokens[0]), tokens[1..])
  }

  lemma {:induction false} StepsSplit(r: Run, a: seq<Token>, b: seq<Token>)
    ensures Steps(r, a + b) == Steps(Steps(r, a), b)
    decreases |a|
  {
    if |a| == 0 {
      assert a + b == b;
    } else {
      assert (a + b)[1..] == a[1..] + b;
      StepsSplit(Step(r, a[0]), a[1..], b);
    }
  }

  /** The lengths that a token sequence stands for: a run of repeat symbols stands for one repeated
      length, whose count the run encodes; 16 repeats the last non-zero length, or 8. */
  ghost function Expand(tokens: seq<Token>, prev: nat): seq<nat>
    decreases |tokens|
  {
    if |tokens| == 0 then []
    else if tokens[0].Single? then
      [tokens[0].len] + Expand(tokens[1..], if tokens[0].len != 0 then tokens[0].len else prev)
    else
      var n := RunLength(tokens);
      RunIsRepeat(tokens);
      Rep(if tokens[0].RepeatPrevious? then prev else 0, RunCount(tokens, n)) + Expand(tokens[n..], prev)
  }

  lemma {:induction false} RunIsRepeat(tokens: seq<Token>)
    ensures forall i :: 0 <= i < RunLength(tokens) ==> !tokens[i].Single? && SameKind(tokens[0], tokens[i])
    ensures 0 < RunLength(tokens) < |tokens| ==> !SameKind(tokens[0], tokens[RunLength(tokens)])
  {
    if |tokens| > 1 && !tokens[0].Single? && SameKind(tokens[0], tokens[1]) {
      RunIsRepeat(tokens[1..]);
      var n := RunLength(tokens);
      assert forall i :: 0 < i < n ==> tokens[i] == tokens[1..][i - 1];
    }
  }

  /** No run is in progress that the next token would continue. */
  ghost predicate Boundary(r: Run, tokens: seq<Token>) {
    |tokens| == 0 || tokens[0].Single? || Carried(r, tokens[0]) == 0
  }

  lemma StepsNone(r: Run)
    ensures Steps(r, []) == r
  {
  }

  lemma StepsCons(r: Run, tokens: seq<Token>)
    requires |tokens| > 0
    ensures Steps(r, tokens) == Steps(Step(r, tokens[0]), tokens[1..])
  {
  }

  lemma StepsOne(r: Run, t: Token)
    ensures Steps(r, [t]) == Step(r, t)
  {
    hide Step;
    assert [t][1..] == [];
    assert Steps(Step(r, t), []) == Step(r, t);
  }

  /** Stepping through the first k symbols of a run adds the length as often as they encode. */
  lemma {:induction false} RunSteps(r: Run, tokens: seq<Token>, k: nat)
    requires 0 < k <= RunLength(tokens) && Boundary(r, tokens)
    requires forall i :: 0 <= i < k ==> !tokens[i].Single? && SameKind(tokens[0], tokens[i])
    ensures var len := Repeated(r, tokens[0]); var n := RunCount(tokens, k);
            Steps(r, tokens[..k]) == Run(r.lens + Rep(len, n), n, len, r.prev)
  {
    hide Steps, RunLength;
    var len := Repeated(r, tokens[0]);
    var t := tokens[k - 1];
    var n := RunCount(tokens, k);
    if k == 1 {
      assert tokens[..1] == [t];
      StepsOne(r, t);
      assert RunCount(tokens, 0) == 0;
    } else {
      var m := RunCount(tokens, k - 1);
      RunSteps(r, tokens, k - 1);
      assert tokens[..k] == tokens[..k - 1] + [t];
      StepsSplit(r, tokens[..k - 1], [t]);
      var q := Steps(r, tokens[..k - 1]);
      StepsOne(q, t);
      AddedPositive(q, t);
      assert Rep(len, m) + Rep(len, n - m) == Rep(len, n);
      assert q.lens + Rep(len, n - m) == r.lens + Rep(len, n);
    }
  }

  /** The decoder's step-by-step expansion is the reference expansion. */
  lemma {:induction false} StepsAreExpand(r: Run, tokens: seq<Token>)
    requires r.prev != 0 && Boundary(r, tokens)
    ensures Steps(r, tokens).lens == r.lens + Expand(tokens, r.prev)
    decreases |tokens|
  {
    hide Steps, RunLength, RunCount, NextCount;
    if |tokens| == 0 {
      assert tokens == [];
      StepsNone(r);
    } else {
      if tokens[0].Single? {
        var q := Step(r, tokens[0]);
        StepsCons(r, tokens);
        StepsAreExpand(q, tokens[1..]);
        assert r.lens + [tokens[0].len] + Expand(tokens[1..], q.prev) ==
               r.lens + ([tokens[0].len] + Expand(tokens[1..], q.prev));
      } else {
        var n := RunLength(tokens);
        RunIsRepeat(tokens);
        RunSteps(r, tokens, n);
        assert tokens == tokens[..n] + tokens[n..];
        StepsSplit(r, tokens[..n], tokens[n..]);
        var q := Steps(r, tokens[..n]);
        StepsAreExpand(q, tokens[n..]);
        assert (r.lens + Rep(q.repeatLen, q.repeat)) + Expand(tokens[n..], r.prev) ==
               r.lens + (Rep(q.repeatLen, q.repeat) + Expand(tokens[n..], r.prev));
      }
    }
  }

  /** Hence the lengths read from a token sequence are those of section 3.5 of RFC 7932. */
  lemma LengthsAreExpanded(tokens: seq<Token>)
    ensures Steps(Start0(), tokens).lens == Expand(tokens, INITIAL_REPEATED_CODE_LENGTH)
  {
    StepsAreExpand(Start0(), tokens);
  }

  // ---------- The numbers that repeat symbols spell ----------

  /** The number with digits 1 .. base, one more than the extra bits, the first symbol's highest. */
  ghost function Numeral(extras: seq<nat>, base: nat): nat {
    if extras == [] then 0 else Numeral(extras[..|extras| - 1], base) * base + (extras[|extras| - 1] + 1)
  }

  ghost predicate Digits(extras: seq<nat>, base: nat) { forall i :: 0 <= i < |extras| ==> extras[i] < base }

  /** Repeat symbols with these extra bits: 16 has two of them, 17 has three. */
  ghost function Repeats(previous: bool, extras: seq<nat>): (t: seq<Token>)
    ensures |t| == |extras|
    ensures forall i :: 0 <= i < |t| ==> t[i] == if previous then RepeatPrevious(extras[i]) else RepeatZero(extras[i])
  {
    seq(|extras|, i requires 0 <= i < |extras| => if previous then RepeatPrevious(extras[i]) else RepeatZero(extras[i]))
  }

  /** A run of equal repeat symbols repeats the last length that is not zero, or zero, two times more than the
      number that the symbols spell. */
  lemma {:induction false} RunsSpellCounts(r: Run, previous: bool, extras: seq<nat>)
    requires extras != [] && (r.repeat == 0 || r.repeatLen != if previous then r.prev else 0)
    ensures var len, n := if previous then r.prev else 0, 2 + Numeral(extras, if previous then 4 else 8);
            Steps(r, Repeats(previous, extras)) == Run(r.lens + Rep(len, n), n, len, r.prev)
    decreases |extras|
  {
    hide Steps;
    var k := |extras| - 1;
    var t := Repeats(previous, extras)[k];
    var before := Repeats(previous, extras[..k]);
    assert Repeats(previous, extras) == before + [t];
    StepsSplit(r, before, [t]);
    assert Pow2(2) == 4 && Pow2(3) == 8;
    if k == 0 {
      assert before == [];
      StepsNone(r);
      StepsOne(r, t);
      assert Numeral(extras[..0], if previous then 4 else 8) == 0;
    } else {
      RunsSpellCounts(r, previous, extras[..k]);
      var q := Steps(r, before);
      StepsOne(q, t);
      AddedPositive(q, t);
      var len, base := if previous then r.prev else 0, if previous then 4 else 8;
      assert Rep(len, q.repeat) + Rep(len, Added(q, t)) == Rep(len, q.repeat + Added(q, t));
      assert r.lens + Rep(len, q.repeat) + Rep(len, Added(q, t)) ==
             r.lens + (Rep(len, q.repeat) + Rep(len, Added(q, t)));
    }
  }

  /** Behind a literal length a single repeat symbol stands for its extra bits and three. */
  lemma RepeatAfterLiteral(r: Run, len: nat, previous: bool, extra: nat)
    ensures Steps(r, [Single(len)] + Repeats(previous, [extra])).lens ==
            r.lens + [len] + Rep(if !previous then 0 else if len != 0 then len else r.prev, extra + 3)
  {
    hide Steps;
    StepsSplit(r, [Single(len)], Repeats(previous, [extra]));
    StepsOne(r, Single(len));
    assert [extra][..0] == [];
    RunsSpellCounts(Step(r, Single(len)), previous, [extra]);
  }

  /** Every number from one on has exactly one numeral, so every count from three on exactly one run. */
  lemma {:induction false} NumeralOf(n: nat, base: nat) returns (extras: seq<nat>)
    requires base >= 2
    ensures Digits(extras, base) && Numeral(extras, base) == n
  {
    if n == 0 {
      extras := [];
    } else {
      var q := (n - 1) / base;
      DivBelow(n - 1, base);
      var high := NumeralOf(q, base);
      extras := high + [(n - 1) % base];
      assert extras[..|high|] == high;
    }
  }

  lemma DivBelow(n: nat, base: nat)
    requires base >= 2
    ensures n / base <= n && n == n / base * base + n % base && n % base < base
  {
    LessTimes(1, base, n / base);
  }

  lemma {:induction false} NumeralUnique(a: seq<nat>, b: seq<nat>, base: nat)
    requires Digits(a, base) && Digits(b, base) && base >= 2 && Numeral(a, base) == Numeral(b, base)
    ensures a == b
    decreases |a|
  {
    if a == [] || b == [] {
      assert Numeral(a, base) == 0;
    } else {
      var x, y := a[..|a| - 1], b[..|b| - 1];
      var n := Numeral(a, base) - 1;
      RemainderIs(Numeral(x, base), base, a[|a| - 1], n);
      RemainderIs(Numeral(y, base), base, b[|b| - 1], n);
      CancelTimes(Numeral(x, base), Numeral(y, base), base);
      NumeralUnique(x, y, base);
      assert a == x + [a[|a| - 1]] && b == y + [b[|b| - 1]];
    }
  }

  lemma CancelTimes(x: nat, y: nat, base: nat)
    requires base > 0 && x * base == y * base
    ensures x == y
  {
    if x != y { LessTimes(Min(x, y) + 1, Max(x, y), base); }
  }

  /** From the start: a run encodes its count and no other run does, and every count from three on has one. */
  lemma RunsAreExact(previous: bool, n: nat) returns (extras: seq<nat>)
    requires n >= 3
    ensures extras != [] && ValidTokens(Repeats(previous, extras))
    ensures Steps(Start0(), Repeats(previous, extras)).lens == Rep(if previous then 8 else 0, n)
    ensures forall other: seq<nat> :: other != [] && ValidTokens(Repeats(previous, other)) ==>
              |Steps(Start0(), Repeats(previous, other)).lens| >= 3
              && (|Steps(Start0(), Repeats(previous, other)).lens| == n ==> other == extras)
  {
    hide Steps;
    var base := if previous then 4 else 8;
    extras := NumeralOf(n - 2, base);
    RunsSpellCounts(Start0(), previous, extras);
    assert [] + Rep(if previous then 8 else 0, n) == Rep(if previous then 8 else 0, n);
    forall other: seq<nat> | other != [] && ValidTokens(Repeats(previous, other))
      ensures |Steps(Start0(), Repeats(previous, other)).lens| >= 3
      ensures |Steps(Start0(), Repeats(previous, other)).lens| == n ==> other == extras
    {
      RunsSpellCounts(Start0(), previous, other);
      forall i | 0 <= i < |other| ensures other[i] < base { assert Repeats(previous, other)[i].Valid(); }
      if Numeral(other, base) == n - 2 { NumeralUnique(other, extras, base); }
    }
  }

  // ---------- Linked lists and histogram of the lengths so far ----------

  /** The list of one length: head slot, links, the slot to write next, and the count. */
  ghost predicate ListOk(storage: seq<nat>, slot: nat, count: nat, syms: seq<nat>, len: nat) {
    && len < LIST_BASE <= |storage| && count == |syms|
    && (forall i :: 0 <= i < |syms| ==> LIST_BASE + syms[i] < |storage|)
    && (|syms| == 0 ==> storage[len] == NO_SYMBOL && slot == len)
    && (|syms| > 0 ==> storage[len] == syms[0] && slot == LIST_BASE + syms[|syms| - 1])
    && (forall i :: 0 < i < |syms| ==> storage[LIST_BASE + syms[i - 1]] == syms[i])
  }

  ghost predicate ListsOk(storage: seq<nat>, next: seq<nat>, histo: seq<nat>, lens: seq<nat>) {
    && |next| == |histo| == LIST_BASE
    && forall len :: 1 <= len <= MAX_LEN ==> ListOk(storage, next[len], histo[len], Symbols(lens, len, |lens|), len)
  }

  lemma {:induction false} SymbolsOfPrefix(lens: seq<nat>, more: seq<nat>, len: nat, n: nat)
    requires n <= |lens|
    ensures Symbols(lens + more, len, n) == Symbols(lens, len, n)
  {
    if n > 0 { SymbolsOfPrefix(lens, more, len, n - 1); }
  }

  lemma SymbolsAppend(lens: seq<nat>, l: nat, len: nat)
    ensures |lens + [l]| == |lens| + 1
    ensures l == len ==> Symbols(lens + [l], len, |lens| + 1) == Symbols(lens, len, |lens|) + [|lens|]
    ensures l != len ==> Symbols(lens + [l], len, |lens| + 1) == Symbols(lens, len, |lens|)
  {
    SymbolsOfPrefix(lens, [l], len, |lens|);
  }

  /** The slot to write is the head of an empty list, or the link of the last symbol. */
  lemma SlotOwner(storage: seq<nat>, slot: nat, count: nat, syms: seq<nat>, len: nat)
    requires ListOk(storage, slot, count, syms, len)
    ensures slot < |storage|
    ensures slot == len || (|syms| > 0 && slot == LIST_BASE + syms[|syms| - 1])
  {
  }

  lemma OtherList(storage: seq<nat>, next: seq<nat>, histo: seq<nat>, lens: seq<nat>, l: nat, len: nat)
    requires ListsOk(storage, next, histo, lens) && 1 <= l <= MAX_LEN && 1 <= len <= MAX_LEN && l != len
    ensures next[l] < |storage|
            && ListOk(storage[next[l] := |lens|], next[len], histo[len], Symbols(lens, len, |lens|), len)
  {
    hide ListOk, Symbols;
    SymbolsAre(lens, l, |lens|);
    SymbolsAre(lens, len, |lens|);
    SlotOwner(storage, next[l], histo[l], Symbols(lens, l, |lens|), l);
    ListFramed(storage, next[len], histo[len], Symbols(lens, len, |lens|), len, next[l], |lens|);
  }

  /** Appending a symbol to the list of its length leaves the other lists alone. */
  lemma AppendSymbol(storage: seq<nat>, next: seq<nat>, histo: seq<nat>, lens: seq<nat>, l: nat)
    requires ListsOk(storage, next, histo, lens) && 1 <= l <= MAX_LEN && LIST_BASE + |lens| < |storage|
    ensures next[l] < |storage|
    ensures ListsOk(storage[next[l] := |lens|], next[l := LIST_BASE + |lens|], histo[l := histo[l] + 1], lens + [l])
  {
    hide ListOk, Symbols;
    SlotOwner(storage, next[l], histo[l], Symbols(lens, l, |lens|), l);
    forall len | 1 <= len <= MAX_LEN
      ensures ListOk(storage[next[l] := |lens|], next[l := LIST_BASE + |lens|][len], histo[l := histo[l] + 1][len],
                     Symbols(lens + [l], len, |lens + [l]|), len)
    {
      SymbolsAppend(lens, l, len);
      if len == l {
        SymbolsAre(lens, l, |lens|);
        ListAppend(storage, next[l], histo[l], Symbols(lens, l, |lens|), l, |lens|);
      } else {
        OtherList(storage, next, histo, lens, l, len);
      }
    }
  }

  lemma ListAppend(storage: seq<nat>, slot: nat, count: nat, syms: seq<nat>, len: nat, s: nat)
    requires ListOk(storage, slot, count, syms, len) && 1 <= len && LIST_BASE + s < |storage|
    requires forall i, j :: 0 <= i < j < |syms| ==> syms[i] < syms[j]
    ensures slot < |storage| && ListOk(storage[slot := s], LIST_BASE + s, count + 1, syms + [s], len)
  {
  }

  lemma ListFramed(storage: seq<nat>, slot: nat, count: nat, syms: seq<nat>, len: nat, at: nat, s: nat)
    requires ListOk(storage, slot, count, syms, len) && at < |storage| && at != len
    requires forall i :: 0 <= i < |syms| ==> at != LIST_BASE + syms[i]
    ensures ListOk(storage[at := s], slot, count, syms, len)
  {
  }

  // ---------- The lists describe the canonical order ----------

  lemma {:induction false} CountConcat(a: seq<Coded>, b: seq<Coded>, len: nat, i: nat)
    requires i <= |a|
    ensures CountOf(a + b, len, i) == CountOf(a, len, i) + CountOf(b, len, 0)
    decreases |a| - i
  {
    if i == |a| {
      CountShift(a, b, len, 0);
    } else {
      CountConcat(a, b, len, i + 1);
    }
  }

  lemma {:induction false} CountShift(a: seq<Coded>, b: seq<Coded>, len: nat, i: nat)
    requires i <= |b|
    ensures CountOf(a + b, len, |a| + i) == CountOf(b, len, i)
    decreases |b| - i
  {
    if i < |b| {
      CountShift(a, b, len, i + 1);
      assert (a + b)[|a| + i] == b[i];
    }
  }

  lemma {:induction false} CountTagged(l: nat, syms: seq<nat>, len: nat, i: nat)
    requires i <= |syms|
    ensures CountOf(Tagged(l, syms), len, i) == if l == len then |syms| - i else 0
    decreases |syms| - i
  {
    if i < |syms| { CountTagged(l, syms, len, i + 1); }
  }

  lemma {:induction false} CountOrder(lens: seq<nat>, top: nat, len: nat)
    ensures CountOf(Order(lens, top), len, 0) == if 1 <= len <= top then |Symbols(lens, len, |lens|)| else 0
    decreases top
  {
    hide Symbols;
    if top > 0 {
      CountOrder(lens, top - 1, len);
      var syms := Symbols(lens, top, |lens|);
      CountConcat(Order(lens, top - 1), Tagged(top, syms), len, 0);
      CountTagged(top, syms, len, 0);
    }
  }

  /** What stands before position i of the order. */
  lemma OrderPointer(lens: seq<nat>, i: nat)
    requires ValidLengths(lens) && i < |Order(lens, MAX_LEN)|
    ensures var order := Order(lens, MAX_LEN); var c := order[i];
            && c.sym < |lens| && lens[c.sym] == c.len >= 1 && Rank(lens, c.sym) < |Symbols(lens, c.len, |lens|)|
            && Symbols(lens, c.len, |lens|)[Rank(lens, c.sym)] == c.sym
            && PointerTo(order, i) ==
               (if Rank(lens, c.sym) == 0 then c.len
                 else LIST_BASE + Symbols(lens, c.len, |lens|)[Rank(lens, c.sym) - 1])
  {
    hide Symbols;
    var order := Order(lens, MAX_LEN);
    var c := order[i];
    IndexOfPosition(lens, MAX_LEN, i);
    SymbolAtRank(lens, c.sym, |lens|);
    var low, mid, syms := Order(lens, c.len - 1), Order(lens, c.len), Symbols(lens, c.len, |lens|);
    OrderPrefix(lens, c.len, MAX_LEN);
    OrderIsOrdered(lens, c.len - 1);
    var r := Rank(lens, c.sym);
    assert mid == low + Tagged(c.len, syms);
    if i > 0 {
      assert order[i - 1] == mid[i - 1];
      if r > 0 {
        assert mid[i - 1] == Coded(c.len, syms[r - 1]);
      } else {
        assert mid[i - 1] == low[i - 1];
      }
    }
  }

  lemma ListPointer(storage: seq<nat>, slot: nat, count: nat, syms: seq<nat>, len: nat, r: nat)
    requires ListOk(storage, slot, count, syms, len) && r < |syms|
    ensures r == 0 ==> storage[len] == syms[r]
    ensures r > 0 ==> LIST_BASE + syms[r - 1] < |storage| && storage[LIST_BASE + syms[r - 1]] == syms[r]
  {
  }

  lemma PointerHolds(storage: seq<nat>, next: seq<nat>, histo: seq<nat>, lens: seq<nat>, i: nat)
    requires ListsOk(storage, next, histo, lens) && ValidLengths(lens) && |lens| <= NO_SYMBOL
             && LIST_BASE + |lens| <= |storage|
    requires i < |Order(lens, MAX_LEN)|
    ensures var order := Order(lens, MAX_LEN);
            && order[i].len < LIST_BASE && order[i].sym < NO_SYMBOL && LIST_BASE + order[i].sym < |storage|
            && PointerTo(order, i) < |storage| && storage[PointerTo(order, i)] == order[i].sym
  {
    hide Symbols, Order, Rank, PointerTo, ListOk;
    OrderPointer(lens, i);
    var c := Order(lens, MAX_LEN)[i];
    ListPointer(storage, next[c.len], histo[c.len], Symbols(lens, c.len, |lens|), c.len, Rank(lens, c.sym));
  }

  lemma EmptyList(storage: seq<nat>, slot: nat, count: nat, syms: seq<nat>, len: nat)
    requires ListOk(storage, slot, count, syms, len)
    ensures LIST_BASE <= |storage| && count == |syms| && (|syms| == 0 ==> storage[len] == NO_SYMBOL)
  {
  }

  lemma ListsAreLinked(storage: seq<nat>, next: seq<nat>, histo: seq<nat>, lens: seq<nat>)
    requires ListsOk(storage, next, histo, lens) && ValidLengths(lens) && |lens| <= NO_SYMBOL
             && LIST_BASE + |lens| <= |storage|
    ensures Linked(storage, Order(lens, MAX_LEN)) && Histogram(histo, Order(lens, MAX_LEN), 0)
  {
    hide Symbols, Order, Rank, CountOf, PointerTo, ListOk;
    var order := Order(lens, MAX_LEN);
    forall len | 1 <= len <= MAX_LEN
      ensures histo[len] == CountOf(order, len, 0) && (CountOf(order, len, 0) == 0 ==> storage[len] == NO_SYMBOL)
    {
      CountOrder(lens, MAX_LEN, len);
      EmptyList(storage, next[len], histo[len], Symbols(lens, len, |lens|), len);
    }
    forall i | 0 <= i < |order|
      ensures order[i].len < LIST_BASE && order[i].sym < NO_SYMBOL && LIST_BASE + order[i].sym < |storage|
      ensures PointerTo(order, i) < |storage| && storage[PointerTo(order, i)] == order[i].sym
    {
      PointerHolds(storage, next, histo, lens, i);
    }
  }

  // ---------- Accounting of the code space ----------

  /** 64-bit unsigned 2^15 - k. */
  function Space(k: nat): (s: nat)
    requires k < WORD
    ensures s < WORD
  {
    Powers();
    if k <= Pow2(MAX_LEN) then Pow2(MAX_LEN) - k else WORD + Pow2(MAX_LEN) - k
  }

  /** 64-bit unsigned subtraction. */
  function Sub64(a: nat, b: nat): nat
    requires a < WORD && b < WORD
  {
    if b <= a then a - b else WORD + a - b
  }

  lemma SpaceStep(k: nat, b: nat)
    requires k + b < WORD
    ensures Sub64(Space(k), b) == Space(k + b)
    ensures Space(k) == 0 <==> k == Pow2(MAX_LEN)
  {
    Powers();
  }

  lemma {:induction false} KraftOfPrefix(lens: seq<nat>, more: seq<nat>, n: nat)
    requires ValidLengths(lens + more) && ValidLengths(lens) && n <= |lens|
    ensures Kraft(lens + more, n) == Kraft(lens, n)
  {
    if n > 0 { KraftOfPrefix(lens, more, n - 1); }
  }

  ghost function Sum(lens: seq<nat>): nat requires ValidLengths(lens) { Kraft(lens, |lens|) }

  lemma SumAppend(lens: seq<nat>, l: nat)
    requires ValidLengths(lens) && l <= MAX_LEN
    ensures ValidLengths(lens + [l])
    ensures Sum(lens + [l]) == Sum(lens) + if l == 0 then 0 else Width(l)
  {
    KraftOfPrefix(lens, [l], |lens|);
  }

  lemma {:induction false} SumRepeat(lens: seq<nat>, l: nat, n: nat)
    requires ValidLengths(lens) && l <= MAX_LEN
    ensures ValidLengths(lens + Rep(l, n))
    ensures Sum(lens + Rep(l, n)) == Sum(lens) + if l == 0 then 0 else n * Width(l)
  {
    if n == 0 {
      assert lens + Rep(l, 0) == lens;
    } else {
      SumRepeat(lens, l, n - 1);
      SumAppend(lens + Rep(l, n - 1), l);
      assert lens + Rep(l, n) == (lens + Rep(l, n - 1)) + [l];
      SumTimes(n - 1, 1, Width(l));
    }
  }

  lemma {:induction false} SumBound(lens: seq<nat>, n: nat)
    requires ValidLengths(lens) && n <= |lens|
    ensures Kraft(lens, n) <= n * 16384
  {
    if n > 0 {
      SumBound(lens, n - 1);
      if lens[n - 1] > 0 {
        Pow2Monotone(MAX_LEN - lens[n - 1], 14);
        Powers();
        assert Pow2(15) == 2 * Pow2(14);
      }
    }
  }

  /** Zero lengths do not touch lists or histogram. */
  lemma {:induction false} ListsZero(storage: seq<nat>, next: seq<nat>, histo: seq<nat>, lens: seq<nat>, n: nat)
    requires ListsOk(storage, next, histo, lens)
    ensures ListsOk(storage, next, histo, lens + Rep(0, n))
  {
    hide ListOk, Symbols;
    if n == 0 {
      assert lens + Rep(0, 0) == lens;
    } else {
      ListsZero(storage, next, histo, lens, n - 1);
      var all := lens + Rep(0, n - 1);
      assert lens + Rep(0, n) == all + [0];
      forall len | 1 <= len <= MAX_LEN
        ensures ListOk(storage, next[len], histo[len], Symbols(all + [0], len, |all + [0]|), len)
      {
        SymbolsAppend(all, 0, len);
      }
    }
  }

  lemma ListsEmpty(storage: seq<nat>, next: seq<nat>, histo: seq<nat>)
    requires |storage| >= LIST_BASE && |next| == |histo| == LIST_BASE
    requires forall i :: 0 <= i < LIST_BASE ==> storage[i] == NO_SYMBOL && next[i] == i && histo[i] == 0
    ensures ListsOk(storage, next, histo, [])
  {
  }

  // ---------- The reader ----------

  class CodeLengthReader {
    const alphabetSize: nat
    const lists: array<nat>       // list heads of the lengths, then one link per symbol
    const nextSymbol: array<nat>  // slot to write next, per length
    const histo: array<nat>
    var symbol: nat
    var space: nat                // 64-bit unsigned
    var repeat: nat
    var repeatCodeLen: nat
    var prevCodeLen: nat
    ghost var used: seq<Token>    // the code-length symbols processed so far
    ghost var overflow: bool      // a repeat ran past the alphabet

    ghost function RunSoFar(): Run reads this { Steps(Start0(), used) }

    ghost predicate Valid() reads this, lists, nextSymbol, histo {
      && alphabetSize <= NO_SYMBOL && lists.Length == LIST_BASE + alphabetSize
      && lists != nextSymbol && lists != histo && nextSymbol != histo
      && ValidTokens(used)
      && (overflow ==> symbol == alphabetSize && space == OVERFLOW_SPACE && |RunSoFar().lens| > alphabetSize)
      && (!overflow ==>
            && Agrees(RunSoFar(), symbol, space, repeat, repeatCodeLen, prevCodeLen, alphabetSize)
            && ListsOk(lists[..], nextSymbol[..], histo[..], RunSoFar().lens))
    }

    /** More code-length symbols are needed. */
    predicate Reading() reads this { symbol < alphabetSize && space > 0 }

    constructor (alphabetSize: nat)
      requires alphabetSize <= NO_SYMBOL
      ensures Valid() && fresh(lists) && fresh(nextSymbol) && fresh(histo) && this.alphabetSize == alphabetSize
              && used == []
    {
      this.alphabetSize := alphabetSize;
      var l := new nat[LIST_BASE + alphabetSize](_ => NO_SYMBOL);
      var n := new nat[LIST_BASE](i => i);
      var h := new nat[LIST_BASE](_ => 0);
      lists, nextSymbol, histo := l, n, h;
      symbol, space, repeat, repeatCodeLen, prevCodeLen := 0, 32768, 0, 0, INITIAL_REPEATED_CODE_LENGTH;
      used, overflow := [], false;
      new;
      ListsEmpty(lists[..], nextSymbol[..], histo[..]);
      Powers();
    }

    method ProcessSingle(codeLen: nat)
      requires Valid() && Reading() && codeLen <= MAX_LEN
      modifies this, lists, nextSymbol, histo
      ensures Valid() && used == old(used) + [Single(codeLen)] && symbol > old(symbol)
    {
      hide Steps, ListsOk, Sum;
      ghost var r := RunSoFar();
      ghost var s: seq<nat>, n: seq<nat>, h: seq<nat> := lists[..], nextSymbol[..], histo[..];
      ghost var t := Single(codeLen);
      StepsSplit(Start0(), used, [t]);
      StepsOne(r, t);
      AgreesSingle(r, symbol, space, repeat, repeatCodeLen, prevCodeLen, alphabetSize, codeLen);
      repeat := 0;
      if codeLen != 0 {
        AppendOne(r.lens, codeLen);
        prevCodeLen := codeLen;
        space := Sub64(space, Width(codeLen));
      } else {
        ListsZero(s, n, h, r.lens, 1);
        assert Rep(0, 1) == [0];
      }
      symbol := symbol + 1;
      used := used + [t];
    }

    /** Appends the current symbol to the list of one length and counts it. */
    method AppendOne(ghost lens: seq<nat>, len: nat)
      requires lists != nextSymbol && lists != histo && nextSymbol != histo
      requires ListsOk(lists[..], nextSymbol[..], histo[..], lens) && 1 <= len <= MAX_LEN
      requires |lens| == symbol && LIST_BASE + symbol < lists.Length
      modifies lists, nextSymbol, histo
      ensures ListsOk(lists[..], nextSymbol[..], histo[..], lens + [len])
    {
      hide ListsOk;
      ghost var s: seq<nat>, n: seq<nat>, h: seq<nat> := lists[..], nextSymbol[..], histo[..];
      AppendSymbol'(s, n, h, lens, len);
      lists[nextSymbol[len]] := symbol;
      nextSymbol[len] := LIST_BASE + symbol;
      histo[len] := histo[len] + 1;
      assert lists[..] == s[n[len] := |lens|];
      assert nextSymbol[..] == n[len := LIST_BASE + |lens|];
      assert histo[..] == h[len := h[len] + 1];
    }

    method ProcessRepeated(t: Token)
      requires Valid() && Reading() && t.Valid() && !t.Single?
      modifies this, lists, nextSymbol, histo
      ensures Valid() && used == old(used) + [t] && symbol > old(symbol)
    {
      hide Steps, ListsOk, Sum, Step;
      ghost var r := RunSoFar();
      ghost var s: seq<nat>, n: seq<nat>, h: seq<nat> := lists[..], nextSymbol[..], histo[..];
      StepsSplit(Start0(), used, [t]);
      StepsOne(r, t);
      AddedPositive(r, t);
      AgreesRepeated(r, symbol, space, repeat, repeatCodeLen, prevCodeLen, alphabetSize, t);
      var extraBits, newLen := 3, 0;
      if t.RepeatPrevious? {
        newLen := prevCodeLen;
        extraBits := 2;
      }
      if repeatCodeLen != newLen {
        repeat := 0;
        repeatCodeLen := newLen;
      }
      var oldRepeat := repeat;
      repeat := NextCount(repeat, extraBits, t.extra);
      var delta: nat := repeat - oldRepeat;
      assert delta == Added(r, t) && newLen == Repeated(r, t);
      used := used + [t];
      if symbol + delta > alphabetSize {
        symbol := alphabetSize;
        space := OVERFLOW_SPACE;
        overflow := true;
        return;
      }
      if repeatCodeLen != 0 {
        AppendRun(r.lens, newLen, delta);
        space := Sub64(space, Times(delta, Width(newLen)));
        symbol := symbol + delta;
      } else {
        ListsZero(s, n, h, r.lens, delta);
        symbol := symbol + delta;
      }
    }

    /** Appends the symbols symbol .. symbol + delta - 1 to the list of one length. */
    method AppendRun(ghost lens: seq<nat>, len: nat, delta: nat)
      requires lists != nextSymbol && lists != histo && nextSymbol != histo
      requires ListsOk(lists[..], nextSymbol[..], histo[..], lens) && 1 <= len <= MAX_LEN
      requires |lens| == symbol && LIST_BASE + symbol + delta <= lists.Length
      modifies lists, nextSymbol, histo
      ensures ListsOk(lists[..], nextSymbol[..], histo[..], lens + Rep(len, delta))
    {
      hide ListsOk;
      var sym: nat, last: nat := symbol, symbol + delta;
      ListsShape(lists[..], nextSymbol[..], histo[..], lens);
      var next: nat := nextSymbol[len];
      ghost var n: seq<nat>, h: seq<nat>, k: nat := nextSymbol[..], histo[..], 0;
      assert lens + Rep(len, 0) == lens;
      assert n[len := next] == n && h[len := h[len] + 0] == h;
      while sym < last
        invariant sym == symbol + k && k <= delta && sym <= last && nextSymbol[..] == n && histo[..] == h
        invariant ListsOk(lists[..], n[len := next], h[len := h[len] + k], lens + Rep(len, k))
        decreases last - sym
      {
        ghost var s: seq<nat>, nn: seq<nat>, hh: seq<nat>, all :=
          lists[..], n[len := next], h[len := h[len] + k], lens + Rep(len, k);
        AppendSymbol'(s, nn, hh, all, len);
        lists[next] := sym;
        assert lists[..] == s[nn[len] := |all|];
        next := LIST_BASE + sym;
        sym := sym + 1;
        assert nn[len := LIST_BASE + |all|] == n[len := next];
        assert hh[len := hh[len] + 1] == h[len := h[len] + (k + 1)];
        k := k + 1;
        assert all + [len] == lens + Rep(len, k);
      }
      ghost var s := lists[..];
      nextSymbol[len] := next;
      histo[len] := histo[len] + delta;
      assert lists[..] == s && nextSymbol[..] == n[len := next] && histo[..] == h[len := h[len] + delta];
    }

    /** When reading has ended, the code is accepted exactly when the expanded lengths fit the alphabet
        and have Kraft sum one; then the lists and the histogram describe its canonical order. */
    method Accept() returns (ok: bool)
      requires Valid() && !Reading()
      ensures var lens := Expand(used, INITIAL_REPEATED_CODE_LENGTH);
              && (ok <==> |lens| <= alphabetSize && ValidLengths(lens) && Kraft(lens, |lens|) == Pow2(MAX_LEN))
              && (ok ==> Linked(lists[..], Order(lens, MAX_LEN)) && Histogram(histo[..], Order(lens, MAX_LEN), 0))
    {
      hide Steps, ListsOk;
      LengthsAreExpanded(used);
      ok := space == 0;
      if !overflow {
        ghost var lens := RunSoFar().lens;
        SumBound(lens, |lens|);
        SpaceStep(Sum(lens), 0);
        if ok {
          ListsAreLinked(lists[..], nextSymbol[..], histo[..], lens);
        }
      }
    }
  }

  /** From an accepted reader to the decoding table: the table decodes the canonical code of the lengths
      that section 3.5 of RFC 7932 assigns to the symbols read. */
  method BuildTable(reader: CodeLengthReader, table: array<Entry>) returns (ok: bool, size: nat)
    requires reader.Valid() && !reader.Reading() && table as object != reader.histo
    requires var lens := Expand(reader.used, INITIAL_REPEATED_CODE_LENGTH); var order := Order(lens, MAX_LEN);
             |lens| <= reader.alphabetSize && Complete(order) ==> TableSize(order) <= table.Length
    modifies table, reader.histo
    ensures var lens := Expand(reader.used, INITIAL_REPEATED_CODE_LENGTH);
            && (ok <==> |lens| <= reader.alphabetSize && ValidLengths(lens) && Kraft(lens, |lens|) == Pow2(MAX_LEN))
            && (ok ==> TableFor(lens, table[..]) && size == TableSize(Order(lens, MAX_LEN)))
  {
    hide Expand, Order, Kraft, TableSize, Linked, Histogram, TableOk;
    ok := reader.Accept();
    size := 0;
    if ok {
      ghost var lens := Expand(reader.used, INITIAL_REPEATED_CODE_LENGTH);
      KraftIsComplete(lens);
      size := BuildHuffmanTable(table, reader.lists[..], reader.histo, Order(lens, MAX_LEN));
    }
  }

  /** The scalar fields agree with the run-length state, and the space with the Kraft sum. */
  ghost predicate Agrees(r: Run, symbol: nat, space: nat, repeat: nat, repeatCodeLen: nat, prevCodeLen: nat,
                         alphabetSize: nat) {
    && symbol == |r.lens| <= alphabetSize && repeat == r.repeat && repeatCodeLen == r.repeatLen <= MAX_LEN
       && 1 <= prevCodeLen == r.prev <= MAX_LEN
    && ValidLengths(r.lens) && Sum(r.lens) < WORD && space == Space(Sum(r.lens))
  }

  lemma AgreesSingle(r: Run, symbol: nat, space: nat, repeat: nat, repeatCodeLen: nat, prevCodeLen: nat,
                     alphabetSize: nat, l: nat)
    requires Agrees(r, symbol, space, repeat, repeatCodeLen, prevCodeLen, alphabetSize)
             && symbol < alphabetSize <= NO_SYMBOL && l <= MAX_LEN
    ensures l != 0 ==> Width(l) < WORD
    ensures Agrees(Step(r, Single(l)), symbol + 1, if l == 0 then space else Sub64(space, Width(l)), 0, repeatCodeLen,
                   if l != 0 then l else prevCodeLen, alphabetSize)
  {
    hide Sum, Kraft;
    Powers();
    SumAppend(r.lens, l);
    SumBound'(r.lens);
    SumBound'(r.lens + [l]);
    if l != 0 {
      Pow2Monotone(MAX_LEN - l, MAX_LEN);
      SpaceStep(Sum(r.lens), Width(l));
    }
  }

  lemma SumBound'(lens: seq<nat>)
    requires ValidLengths(lens)
    ensures Sum(lens) <= |lens| * 16384
  {
    SumBound(lens, |lens|);
  }

  lemma AgreesRepeated(r: Run, symbol: nat, space: nat, repeat: nat, repeatCodeLen: nat, prevCodeLen: nat,
                       alphabetSize: nat, t: Token)
    requires Agrees(r, symbol, space, repeat, repeatCodeLen, prevCodeLen, alphabetSize) && alphabetSize <= NO_SYMBOL
             && t.Valid() && !t.Single?
    requires Added(r, t) > 0
    ensures Step(r, t).lens == r.lens + Rep(Repeated(r, t), Added(r, t))
            && Step(r, t).repeat == NextCount(Carried(r, t), ExtraBits(t), t.extra)
    ensures var d, l := Added(r, t), Repeated(r, t);
            symbol + d <= alphabetSize ==>
              && (l != 0 ==> d * Width(l) < WORD)
              && Agrees(Step(r, t), symbol + d, if l == 0 then space else Sub64(space, d * Width(l)),
                        NextCount(Carried(r, t), ExtraBits(t), t.extra), l, prevCodeLen, alphabetSize)
  {
    hide Sum, Kraft, NextCount;
    Powers();
    var d, l := Added(r, t), Repeated(r, t);
    SumRepeat(r.lens, l, d);
    if symbol + d <= alphabetSize {
      SumBound'(r.lens);
      SumBound'(r.lens + Rep(l, d));
      if l != 0 {
        SpaceStep(Sum(r.lens), d * Width(l));
      }
    }
  }

  lemma ListsShape(storage: seq<nat>, next: seq<nat>, histo: seq<nat>, lens: seq<nat>)
    requires ListsOk(storage, next, histo, lens)
    ensures |next| == |histo| == LIST_BASE
  {
  }

  /** AppendSymbol with the shape of the arrays. */
  lemma AppendSymbol'(storage: seq<nat>, next: seq<nat>, histo: seq<nat>, lens: seq<nat>, l: nat)
    requires ListsOk(storage, next, histo, lens) && 1 <= l <= MAX_LEN && LIST_BASE + |lens| < |storage|
    ensures |next| == |histo| == LIST_BASE && next[l] < |storage|
    ensures ListsOk(storage[next[l] := |lens|], next[l := LIST_BASE + |lens|], histo[l := histo[l] + 1], lens + [l])
  {
    AppendSymbol(storage, next, histo, lens, l);
  }
}
