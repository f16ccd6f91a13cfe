/** Canonical prefix codes as section 3.2 of RFC 7932 defines them, seen as a tiling of the
    15-bit numbers: symbols in order of code length, then of value, occupy consecutive intervals
    whose size is 2^(15 - length). */
module PrefixCode {
  import opened Bits

  const MAX_LEN := 15

  /** A symbol with its code length. */
  datatype Coded = Coded(len: nat, sym: nat)

  /** Size of the interval of a code length. */
  function Width(len: nat): nat requires len <= MAX_LEN { Pow2(MAX_LEN - len) }

  /** Symbols in the order in which codes are assigned. */
  ghost predicate Ordered(order: seq<Coded>) {
    && (forall i :: 0 <= i < |order| ==> 1 <= order[i].len <= MAX_LEN)
    && (forall i, j :: 0 <= i < j < |order| ==> order[i].len <= order[j].len)
  }

  /** First number of the interval of the i-th symbol. */
  ghost function Start(order: seq<Coded>, i: nat): nat
    requires Ordered(order) && i <= |order|
  {
    if i == 0 then 0 else Start(order, i - 1) + Width(order[i - 1].len)
  }

  /** The intervals fill the 15-bit numbers exactly. */
  ghost predicate Complete(order: seq<Coded>) {
    Ordered(order) && Start(order, |order|) == Pow2(MAX_LEN)
  }

  lemma {:induction false} StartMonotone(order: seq<Coded>, i: nat, j: nat)
    requires Ordered(order) && i <= j <= |order|
    ensures Start(order, i) <= Start(order, j)
    ensures i < j ==> Start(order, i) + Width(order[i].len) <= Start(order, j)
    decreases j
  {
    if i < j { StartMonotone(order, i, j - 1); }
  }

  /** Index of the symbol among the first n whose interval contains v. */
  ghost function Find(order: seq<Coded>, v: nat, n: nat): (i: nat)
    requires Ordered(order) && n <= |order| && v < Start(order, n)
    ensures i < n && Start(order, i) <= v < Start(order, i) + Width(order[i].len)
    decreases n
  {
    if v >= Start(order, n - 1) then n - 1 else Find(order, v, n - 1)
  }

  /** Index of the symbol whose interval contains v. */
  ghost function At(order: seq<Coded>, v: nat): (i: nat)
    requires Complete(order) && v < Pow2(MAX_LEN)
    ensures i < |order| && Start(order, i) <= v < Start(order, i) + Width(order[i].len)
  {
    Find(order, v, |order|)
  }

  lemma AtUnique(order: seq<Coded>, v: nat, i: nat)
    requires Complete(order) && i < |order| && v < Pow2(MAX_LEN)
    requires Start(order, i) <= v < Start(order, i) + Width(order[i].len)
    ensures At(order, v) == i
  {
    hide Start, Find;
    var j := At(order, v);
    if j < i {
      StartMonotone(order, j, i);
    } else if i < j {
      StartMonotone(order, i, j);
    }
  }

  /** Code lengths do not decrease along the number line. */
  lemma AtOrdered(order: seq<Coded>, u: nat, v: nat)
    requires Complete(order) && u <= v < Pow2(MAX_LEN)
    ensures At(order, u) <= At(order, v)
    ensures order[At(order, u)].len <= order[At(order, v)].len
  {
    hide Start, Find;
    var i, j := At(order, u), At(order, v);
    if j < i { StartMonotone(order, j, i); }
  }

  /** An interval starts at a multiple of its size; the multiple is the code. */
  lemma {:induction false} StartIsMultiple(order: seq<Coded>, i: nat) returns (c: nat)
    requires Ordered(order) && i < |order|
    ensures Start(order, i) == c * Width(order[i].len)
  {
    if i == 0 {
      c := 0;
    } else {
      var a, b := order[i - 1].len, order[i].len;
      var p := StartIsMultiple(order, i - 1);
      Pow2Add(b - a, MAX_LEN - b);
      c := (p + 1) * Pow2(b - a);
      Regroup(p, Pow2(b - a), Width(b));
    }
  }

  lemma Regroup(p: nat, x: nat, y: nat)
    ensures p * (x * y) + x * y == ((p + 1) * x) * y
  {
    assert (p + 1) * (x * y) == ((p + 1) * x) * y;
  }

  lemma CodeFits(order: seq<Coded>, i: nat, c: nat)
    requires Complete(order) && i < |order| && Start(order, i) == c * Width(order[i].len)
    ensures c < Pow2(order[i].len)
  {
    hide Start;
    StartMonotone(order, i, |order|);
    Pow2Add(order[i].len, MAX_LEN - order[i].len);
    MulLess(c, Pow2(order[i].len), Width(order[i].len));
  }

  lemma MulLess(a: nat, b: nat, w: nat)
    requires w > 0 && a * w + w <= b * w
    ensures a < b
  {
    if b <= a { SumTimes(b, a - b, w); }
  }

  // ---------- Reading a code from a bit stream ----------

  /** Peeking v from the stream (first bit lowest), the symbol with code c and length len is next
      exactly when the first len bits, first bit highest, are c. */
  lemma IntervalIsPrefix(order: seq<Coded>, i: nat, c: nat, v: nat)
    requires Complete(order) && i < |order| && Start(order, i) == c * Width(order[i].len)
    ensures Rev(MAX_LEN, v) < Pow2(MAX_LEN)
    ensures At(order, Rev(MAX_LEN, v)) == i <==> Rev(order[i].len, v) == c
  {
    hide Start, Find, At, Rev;
    var len := order[i].len;
    var r := Rev(MAX_LEN, v);
    RevBound(MAX_LEN, v);
    RevParts(len, MAX_LEN - len, v);
    HighLow(r, MAX_LEN - len);
    if Rev(len, v) == c {
      AtUnique(order, r, i);
    }
    if At(order, r) == i {
      assert Start(order, i) <= r < Start(order, i) + Width(len);
      SplitSum(MAX_LEN - len, c, r - Start(order, i));
    }
  }

  // ---------- The code of section 3.2 of RFC 7932 ----------

  ghost predicate ValidLengths(lens: seq<nat>) { forall s :: 0 <= s < |lens| ==> lens[s] <= MAX_LEN }

  /** Symbols below n of one code length, in ascending order. */
  ghost function Symbols(lens: seq<nat>, len: nat, n: nat): seq<nat>
    requires n <= |lens|
  {
    if n == 0 then [] else Symbols(lens, len, n - 1) + if lens[n - 1] == len then [n - 1] else []
  }

  ghost function Tagged(len: nat, syms: seq<nat>): (r: seq<Coded>)
    ensures |r| == |syms|
  {
    seq(|syms|, i requires 0 <= i < |syms| => Coded(len, syms[i]))
  }

  /** All symbols of code lengths 1 .. len, shorter codes first, then by symbol. */
  ghost function Order(lens: seq<nat>, len: nat): seq<Coded>
  {
    if len == 0 then [] else Order(lens, len - 1) + Tagged(len, Symbols(lens, len, |lens|))
  }

  /** The smallest code of a length: the recurrence next_code[bits] = (code + bl_count[bits - 1]) << 1. */
  ghost function NextCode(lens: seq<nat>, len: nat): nat
    requires len >= 1
  {
    if len == 1 then 0 else 2 * (NextCode(lens, len - 1) + |Symbols(lens, len - 1, |lens|)|)
  }

  /** Number of symbols below s with the code length of s. */
  ghost function Rank(lens: seq<nat>, s: nat): nat
    requires s < |lens|
  {
    |Symbols(lens, lens[s], s)|
  }

  /** The canonical code of symbol s. */
  ghost function CodeOf(lens: seq<nat>, s: nat): nat
    requires s < |lens| && lens[s] >= 1
  {
    NextCode(lens, lens[s]) + Rank(lens, s)
  }

  /** Sum of 2^(15 - length) over the used symbols below n. */
  ghost function Kraft(lens: seq<nat>, n: nat): nat
    requires ValidLengths(lens) && n <= |lens|
  {
    if n == 0 then 0 else Kraft(lens, n - 1) + if lens[n - 1] == 0 then 0 else Width(lens[n - 1])
  }

  lemma {:induction false} SymbolsAre(lens: seq<nat>, len: nat, n: nat)
    requires n <= |lens|
    ensures forall i :: 0 <= i < |Symbols(lens, len, n)| ==>
            Symbols(lens, len, n)[i] < n && lens[Symbols(lens, len, n)[i]] == len
    ensures forall i, j :: 0 <= i < j < |Symbols(lens, len, n)| ==> Symbols(lens, len, n)[i] < Symbols(lens, len, n)[j]
  {
    if n > 0 { SymbolsAre(lens, len, n - 1); }
  }

  /** A symbol stands at its rank. */
  lemma {:induction false} SymbolAtRank(lens: seq<nat>, s: nat, n: nat)
    requires s < n <= |lens|
    ensures Rank(lens, s) < |Symbols(lens, lens[s], n)| && Symbols(lens, lens[s], n)[Rank(lens, s)] == s
    decreases n
  {
    if s < n - 1 { SymbolAtRank(lens, s, n - 1); }
  }

  /** Every position of a length class has its own index as rank. */
  lemma RankOfPosition(lens: seq<nat>, len: nat, j: nat)
    requires j < |Symbols(lens, len, |lens|)|
    ensures Symbols(lens, len, |lens|)[j] < |lens| && lens[Symbols(lens, len, |lens|)[j]] == len
    ensures Rank(lens, Symbols(lens, len, |lens|)[j]) == j
  {
    hide Symbols;
    var syms := Symbols(lens, len, |lens|);
    SymbolsAre(lens, len, |lens|);
    SymbolAtRank(lens, syms[j], |lens|);
  }

  lemma {:induction false} OrderIsOrdered(lens: seq<nat>, len: nat)
    requires len <= MAX_LEN
    ensures Ordered(Order(lens, len))
    ensures forall i :: 0 <= i < |Order(lens, len)| ==> Order(lens, len)[i].len <= len
  {
    if len > 0 { OrderIsOrdered(lens, len - 1); }
  }

  lemma {:induction false} StartOfPrefix(order: seq<Coded>, more: seq<Coded>, i: nat)
    requires Ordered(order) && Ordered(order + more) && i <= |order|
    ensures Start(order + more, i) == Start(order, i)
    decreases i
  {
    if i > 0 { StartOfPrefix(order, more, i - 1); }
  }

  lemma {:induction false} StartInClass(order: seq<Coded>, len: nat, syms: seq<nat>, j: nat)
    requires 1 <= len <= MAX_LEN && Ordered(order) && Ordered(order + Tagged(len, syms)) && j <= |syms|
    ensures Start(order + Tagged(len, syms), |order| + j) == Start(order, |order|) + j * Width(len)
    decreases j
  {
    var all := order + Tagged(len, syms);
    hide Start;
    if j == 0 {
      StartOfPrefix(order, Tagged(len, syms), |order|);
    } else {
      StartInClass(order, len, syms, j - 1);
      StartNext(all, |order| + j - 1);
      SumTimes(j - 1, 1, Width(len));
    }
  }

  lemma StartNext(order: seq<Coded>, i: nat)
    requires Ordered(order) && i < |order|
    ensures Start(order, i + 1) == Start(order, i) + Width(order[i].len)
  {
  }

  /** The intervals below a length class add up to its first code. */
  lemma {:induction false} ClassStart(lens: seq<nat>, len: nat)
    requires 1 <= len <= MAX_LEN
    ensures Ordered(Order(lens, len - 1))
    ensures Start(Order(lens, len - 1), |Order(lens, len - 1)|) == NextCode(lens, len) * Width(len)
  {
    hide Start, Symbols;
    OrderIsOrdered(lens, len - 1);
    StartAtZero(Order(lens, 0));
    if len > 1 {
      ClassStart(lens, len - 1);
      var syms := Symbols(lens, len - 1, |lens|);
      StartInClass(Order(lens, len - 2), len - 1, syms, |syms|);
      assert Width(len - 1) == 2 * Width(len);
      ClassAlgebra(NextCode(lens, len - 1), |syms|, Width(len));
    }
  }

  lemma ClassAlgebra(a: nat, b: nat, w: nat)
    ensures a * (2 * w) + b * (2 * w) == (2 * (a + b)) * w
  {
    assert a * (2 * w) + b * (2 * w) == (a + b) * (2 * w);
    assert (a + b) * (2 * w) == (2 * (a + b)) * w;
  }

  // ---------- The order of a length sequence is the canonical code ----------

  lemma {:induction false} OrderPrefix(lens: seq<nat>, a: nat, b: nat)
    requires a <= b
    ensures |Order(lens, a)| <= |Order(lens, b)| && Order(lens, b)[..|Order(lens, a)|] == Order(lens, a)
    decreases b
  {
    if a < b { OrderPrefix(lens, a, b - 1); }
  }

  lemma NoOrder(lens: seq<nat>)
    ensures Order(lens, 0) == []
  {
  }

  lemma OrderStep(lens: seq<nat>, len: nat)
    requires len > 0
    ensures Order(lens, len) == Order(lens, len - 1) + Tagged(len, Symbols(lens, len, |lens|))
  {
  }

  lemma {:induction false} NoSymbols(lens: seq<nat>, len: nat, n: nat)
    requires n <= |lens| && forall s :: 0 <= s < n ==> lens[s] != len
    ensures Symbols(lens, len, n) == []
  {
    if n > 0 { NoSymbols(lens, len, n - 1); }
  }

  /** Lengths that are not used add nothing. */
  lemma {:induction false} OrderEnds(lens: seq<nat>, most: nat, len: nat)
    requires len >= most && forall s :: 0 <= s < |lens| ==> lens[s] <= most
    ensures Order(lens, len) == Order(lens, most)
    decreases len
  {
    if len > most {
      OrderEnds(lens, most, len - 1);
      NoSymbols(lens, len, |lens|);
      assert Tagged(len, []) == [];
    }
  }

  /** Position of symbol s in the order. */
  ghost function Index(lens: seq<nat>, s: nat): nat
    requires s < |lens| && lens[s] >= 1
  {
    |Order(lens, lens[s] - 1)| + Rank(lens, s)
  }

  /** Symbol s stands at its index, and its interval starts at its canonical code. */
  lemma SymbolInterval(lens: seq<nat>, s: nat)
    requires ValidLengths(lens) && s < |lens| && lens[s] >= 1
    ensures Ordered(Order(lens, MAX_LEN)) && Index(lens, s) < |Order(lens, MAX_LEN)|
    ensures Order(lens, MAX_LEN)[Index(lens, s)] == Coded(lens[s], s)
    ensures Start(Order(lens, MAX_LEN), Index(lens, s)) == CodeOf(lens, s) * Width(lens[s])
  {
    hide Start, NextCode, Symbols, Ordered;
    var len := lens[s];
    var low, mid, all := Order(lens, len - 1), Order(lens, len), Order(lens, MAX_LEN);
    var syms := Symbols(lens, len, |lens|);
    OrderIsOrdered(lens, MAX_LEN);
    OrderIsOrdered(lens, len);
    OrderPrefix(lens, len, MAX_LEN);
    SymbolAtRank(lens, s, |lens|);
    ClassStart(lens, len);
    assert mid == low + Tagged(len, syms);
    StartInClass(low, len, syms, Rank(lens, s));
    var more := all[|mid|..];
    assert all == mid + more;
    StartOfPrefix(mid, more, Index(lens, s));
    SumTimes(NextCode(lens, len), Rank(lens, s), Width(len));
  }

  /** Conversely, every position of the order belongs to one symbol. */
  lemma {:induction false} IndexOfPosition(lens: seq<nat>, len: nat, i: nat)
    requires ValidLengths(lens) && len <= MAX_LEN && i < |Order(lens, len)|
    ensures var c := Order(lens, len)[i]; c.sym < |lens| && lens[c.sym] == c.len >= 1 && Index(lens, c.sym) == i
    decreases len
  {
    var low := Order(lens, len - 1);
    if i < |low| {
      IndexOfPosition(lens, len - 1, i);
    } else {
      RankOfPosition(lens, len, i - |low|);
    }
  }

  /** Sum over the length classes 1 .. len of the symbols below n. */
  ghost function ClassSum(lens: seq<nat>, len: nat, n: nat): nat
    requires len <= MAX_LEN && n <= |lens|
  {
    if len == 0 then 0 else ClassSum(lens, len - 1, n) + |Symbols(lens, len, n)| * Width(len)
  }

  /** One more symbol adds its interval to its class. */
  lemma {:induction false} ClassSumStep(lens: seq<nat>, len: nat, n: nat)
    requires ValidLengths(lens) && len <= MAX_LEN && n < |lens|
    ensures ClassSum(lens, len, n + 1) == ClassSum(lens, len, n) + if 1 <= lens[n] <= len then Width(lens[n]) else 0
    decreases len
  {
    if len > 0 {
      ClassSumStep(lens, len - 1, n);
      if lens[n] == len {
        assert |Symbols(lens, len, n + 1)| == |Symbols(lens, len, n)| + 1;
        SumTimes(|Symbols(lens, len, n)|, 1, Width(len));
      }
    }
  }

  lemma {:induction false} ClassSumIsKraft(lens: seq<nat>, n: nat)
    requires ValidLengths(lens) && n <= |lens|
    ensures ClassSum(lens, MAX_LEN, n) == Kraft(lens, n)
  {
    if n == 0 {
      ClassSumEmpty(lens, MAX_LEN);
    } else {
      ClassSumIsKraft(lens, n - 1);
      ClassSumStep(lens, MAX_LEN, n - 1);
    }
  }

  lemma {:induction false} ClassSumEmpty(lens: seq<nat>, len: nat)
    requires len <= MAX_LEN
    ensures ClassSum(lens, len, 0) == 0
  {
    if len > 0 { ClassSumEmpty(lens, len - 1); }
  }

  lemma {:induction false} StartIsClassSum(lens: seq<nat>, len: nat)
    requires len <= MAX_LEN
    ensures Ordered(Order(lens, len))
    ensures Start(Order(lens, len), |Order(lens, len)|) == ClassSum(lens, len, |lens|)
  {
    hide Start;
    OrderIsOrdered(lens, len);
    if len > 0 {
      StartIsClassSum(lens, len - 1);
      var syms := Symbols(lens, len, |lens|);
      StartInClass(Order(lens, len - 1), len, syms, |syms|);
    } else {
      StartAtZero(Order(lens, 0));
    }
  }

  lemma StartAtZero(order: seq<Coded>)
    requires Ordered(order)
    ensures Start(order, 0) == 0
  {
  }

  /** Lengths whose Kraft sum is one give a complete code. */
  lemma KraftIsComplete(lens: seq<nat>)
    requires ValidLengths(lens)
    ensures Complete(Order(lens, MAX_LEN)) <==> Kraft(lens, |lens|) == Pow2(MAX_LEN)
  {
    StartIsClassSum(lens, MAX_LEN);
    ClassSumIsKraft(lens, |lens|);
  }

  /** The first len bits of v, first bit highest, are the canonical code of s. */
  ghost predicate StartsWithCode(lens: seq<nat>, s: nat, v: nat) {
    s < |lens| && lens[s] >= 1 && Rev(lens[s], v) == CodeOf(lens, s)
  }

  /** For a complete code the symbol that a bit string starts with exists, is unique, and is the one
      whose interval contains the string. */
  lemma CanonicalDecoding(lens: seq<nat>, s: nat, v: nat)
    requires ValidLengths(lens) && Kraft(lens, |lens|) == Pow2(MAX_LEN)
    ensures Complete(Order(lens, MAX_LEN)) && Rev(MAX_LEN, v) < Pow2(MAX_LEN)
    ensures var c := Order(lens, MAX_LEN)[At(Order(lens, MAX_LEN), Rev(MAX_LEN, v))];
            (StartsWithCode(lens, s, v) <==> s == c.sym) && (s == c.sym ==> lens[s] == c.len)
  {
    hide Start, At, Order, Rev, Symbols, NextCode, Rank;
    var order := Order(lens, MAX_LEN);
    KraftIsComplete(lens);
    RevBound(MAX_LEN, v);
    var i := At(order, Rev(MAX_LEN, v));
    var c := order[i];
    IndexOfPosition(lens, MAX_LEN, i);
    SymbolInterval(lens, c.sym);
    IntervalIsPrefix(order, i, CodeOf(lens, c.sym), v);
    if s < |lens| && lens[s] >= 1 {
      SymbolInterval(lens, s);
      IntervalIsPrefix(order, Index(lens, s), CodeOf(lens, s), v);
    }
  }
}
