/** Context maps: the encoder's move-to-front and zero-run coding, both in place, and the decoder that
    undoes them. */
module ContextMap {
  import opened Arithmetic
  import opened Bits

  const MAX_PREFIX := 6

  // ---------- Move to front ----------

  function Identity(n: nat): (r: seq<nat>)
    ensures |r| == n
  {
    seq(n, i => i)
  }

  /** The list with the element at p moved to the front. */
  function Front(l: seq<nat>, p: nat): (r: seq<nat>)
    requires p < |l|
    ensures |r| == |l|
  {
    [l[p]] + l[..p] + l[p + 1..]
  }

  lemma FrontMembers(l: seq<nat>, p: nat, x: nat)
    requires p < |l|
    ensures x in Front(l, p) <==> x in l
  {
    if x in l {
      var k :| 0 <= k < |l| && l[k] == x;
      assert Front(l, p)[if k < p then k + 1 else if k == p then 0 else k] == x;
    }
    if x in Front(l, p) {
      var k :| 0 <= k < |l| && Front(l, p)[k] == x;
      assert x == l[if k == 0 then p else if k <= p then k - 1 else k];
    }
  }

  /** Position of the first x. */
  function Find(l: seq<nat>, x: nat): (p: nat)
    requires x in l
    ensures p < |l| && l[p] == x && forall k :: 0 <= k < p ==> l[k] != x
  {
    if l[0] == x then 0 else 1 + Find(l[1..], x)
  }

  ghost predicate Within(v: seq<nat>, l: seq<nat>) { forall i :: 0 <= i < |v| ==> v[i] in l }

  /** Positions in a list whose front is the latest value. */
  ghost function Mtf(l: seq<nat>, v: seq<nat>): (r: seq<nat>)
    requires Within(v, l)
    ensures |r| == |v|
    decreases |v|
  {
    if v == [] then []
    else
      WithinFront(l, v);
      [Find(l, v[0])] + Mtf(Front(l, Find(l, v[0])), v[1..])
  }

  lemma WithinFront(l: seq<nat>, v: seq<nat>)
    requires Within(v, l) && v != []
    ensures v[0] in l && Within(v[1..], Front(l, Find(l, v[0])))
  {
    forall i | 0 <= i < |v| - 1
      ensures v[1..][i] in Front(l, Find(l, v[0]))
    {
      FrontMembers(l, Find(l, v[0]), v[1..][i]);
    }
  }

  /** Values at positions; a position outside the list does not occur. */
  ghost function Unmtf(l: seq<nat>, w: seq<nat>): (r: seq<nat>)
    requires forall i :: 0 <= i < |w| ==> w[i] < |l|
    ensures |r| == |w|
    decreases |w|
  {
    if w == [] then [] else [l[w[0]]] + Unmtf(Front(l, w[0]), w[1..])
  }

  lemma {:induction false} MtfBounds(l: seq<nat>, v: seq<nat>)
    requires Within(v, l)
    ensures forall i :: 0 <= i < |v| ==> Mtf(l, v)[i] < |l|
    decreases |v|
  {
    if v != [] {
      WithinFront(l, v);
      MtfBounds(Front(l, Find(l, v[0])), v[1..]);
    }
  }

  /** Undoing the transform. */
  lemma {:induction false} MtfRoundTrip(l: seq<nat>, v: seq<nat>)
    requires Within(v, l)
    ensures (forall i :: 0 <= i < |v| ==> Mtf(l, v)[i] < |l|) && Unmtf(l, Mtf(l, v)) == v
    decreases |v|
  {
    MtfBounds(l, v);
    if v != [] {
      hide Front, Find;
      WithinFront(l, v);
      var p := Find(l, v[0]);
      MtfRoundTrip(Front(l, p), v[1..]);
      assert Mtf(l, v)[1..] == Mtf(Front(l, p), v[1..]);
    }
  }

  lemma FindLonger(l: seq<nat>, tail: seq<nat>, x: nat)
    requires x in l
    ensures x in l + tail && Find(l + tail, x) == Find(l, x)
            && Front(l + tail, Find(l, x)) == Front(l, Find(l, x)) + tail
  {
    var p := Find(l, x);
    assert (l + tail)[p] == x;
    var q := Find(l + tail, x);
    assert q <= p ==> (l + tail)[q] == l[q];
  }

  /** What follows the values in the list does not matter. */
  lemma {:induction false} MtfLonger(l: seq<nat>, tail: seq<nat>, v: seq<nat>)
    requires Within(v, l)
    ensures Within(v, l + tail) && Mtf(l + tail, v) == Mtf(l, v)
    decreases |v|
  {
    hide Front, Find;
    if v != [] {
      WithinFront(l, v);
      FindLonger(l, tail, v[0]);
      MtfLonger(Front(l, Find(l, v[0])), tail, v[1..]);
    }
  }

  // ---------- What a position means ----------

  /** Where x occurs last in v; -1 if nowhere. */
  ghost function LastSeen(v: seq<nat>, x: nat): (i: int)
    ensures -1 <= i < |v| && (i >= 0 ==> v[i] == x)
  {
    if v == [] then -1 else if v[|v| - 1] == x then |v| - 1 else LastSeen(v[..|v| - 1], x)
  }

  /** After v the value y comes before x: it was seen later, or neither was seen and y is smaller. */
  ghost predicate Before(v: seq<nat>, y: nat, x: nat) {
    LastSeen(v, y) > LastSeen(v, x) || (LastSeen(v, y) == LastSeen(v, x) == -1 && y < x)
  }

  /** How many of the values below n come before x. */
  ghost function Ahead(v: seq<nat>, x: nat, n: nat): nat { |set y | 0 <= y < n && Before(v, y, x)| }

  lemma SeenNext(v: seq<nat>, x: nat)
    ensures forall y :: LastSeen(v + [x], y) == if y == x then |v| else LastSeen(v, y)
  {
    assert (v + [x])[..|v|] == v;
  }

  /** The list holds the values below n, each once: those seen, latest first, then the others, ascending. */
  ghost predicate Recency(l: seq<nat>, v: seq<nat>, n: nat) {
    && |l| == n && (forall i :: 0 <= i < n ==> l[i] < n) && (forall i, j :: 0 <= i < j < n ==> l[i] != l[j])
    && (forall i, j :: 0 <= i < j < n ==> Before(v, l[i], l[j]))
  }

  lemma RecencyStart(n: nat)
    ensures Recency(Identity(n), [], n)
  {
  }

  lemma RecencyNext(l: seq<nat>, v: seq<nat>, n: nat, p: nat)
    requires Recency(l, v, n) && p < n
    ensures Recency(Front(l, p), v + [l[p]], n)
  {
    hide LastSeen;
    SeenNext(v, l[p]);
    var f := Front(l, p);
    forall i | 0 <= i < n ensures f[i] == l[if i == 0 then p else if i <= p then i - 1 else i] { }
    hide Front;
    forall i, j | 0 <= i < j < n
      ensures f[i] != f[j] && Before(v + [l[p]], f[i], f[j])
    {
      var i', j' := if i == 0 then p else if i <= p then i - 1 else i, if j <= p then j - 1 else j;
      if i > 0 { assert Before(v, l[i'], l[j']); }
    }
  }

  lemma OneWay(v: seq<nat>, y: nat, x: nat)
    ensures Before(v, y, x) ==> !Before(v, x, y)
    ensures !Before(v, x, x)
  {
  }

  lemma {:induction false} PrefixSet(l: seq<nat>, k: nat)
    requires k <= |l| && forall i, j :: 0 <= i < j < |l| ==> l[i] != l[j]
    ensures |set i | 0 <= i < k :: l[i]| == k
  {
    if k > 0 {
      PrefixSet(l, k - 1);
      assert (set i | 0 <= i < k :: l[i]) == (set i | 0 <= i < k - 1 :: l[i]) + {l[k - 1]};
    }
  }

  /** Distinct values below n fill the list. */
  lemma {:induction false} AllListed(l: seq<nat>, n: nat, y: nat)
    requires |l| == n && y < n && forall i :: 0 <= i < n ==> l[i] < n
    requires forall i, j :: 0 <= i < j < n ==> l[i] != l[j]
    ensures y in l
  {
    PrefixSet(l, n);
    var all, below := set i | 0 <= i < n :: l[i], Below(n);
    assert all <= below;
    if y !in l {
      assert all <= below - {y};
      Subset(all, below - {y});
    }
  }

  lemma {:induction false} Subset(a: set<nat>, b: set<nat>)
    requires a <= b
    ensures |a| <= |b|
  {
    if a != {} {
      var x :| x in a;
      Subset(a - {x}, b - {x});
    }
  }

  ghost function Below(n: nat): (r: set<nat>)
    ensures |r| == n && forall x: nat :: x in r <==> x < n
  {
    if n == 0 then {} else Below(n - 1) + {n - 1}
  }

  /** The position of a value is the number of values that come before it. */
  lemma PositionIsAhead(l: seq<nat>, v: seq<nat>, n: nat, p: nat)
    requires Recency(l, v, n) && p < n
    ensures Ahead(v, l[p], n) == p
  {
    hide LastSeen, Before;
    PrefixSet(l, p);
    forall y
      ensures 0 <= y < n && Before(v, y, l[p]) <==> y in set i | 0 <= i < p :: l[i]
    {
      if 0 <= y < n {
        AllListed(l, n, y);
        var k :| 0 <= k < n && l[k] == y;
        OneWay(v, y, l[p]);
        if k >= p { assert k == p || Before(v, l[p], l[k]); }
      }
    }
    assert (set y | 0 <= y < n && Before(v, y, l[p])) == set i | 0 <= i < p :: l[i];
  }

  /** Each number received is how many values come before the one that it stands for. */
  ghost predicate Ranks(w: seq<nat>, v: seq<nat>, n: nat) {
    |w| == |v| && forall i :: 0 <= i < |v| ==> v[i] < n && w[i] == Ahead(v[..i], v[i], n)
  }

  lemma {:induction false} UnmtfRanks(l: seq<nat>, w: seq<nat>, seen: seq<nat>, n: nat)
    requires Recency(l, seen, n) && forall i :: 0 <= i < |w| ==> w[i] < |l|
    ensures forall i :: 0 <= i < |w| ==> Unmtf(l, w)[i] < n && w[i] == Ahead(seen + Unmtf(l, w)[..i], Unmtf(l, w)[i], n)
    decreases |w|
  {
    if w != [] {
      hide Recency, Front, Ahead, Unmtf;
      var v, x := Unmtf(l, w), l[w[0]];
      UnmtfNext(l, w);
      RecencyNext(l, seen, n, w[0]);
      RecencySize(l, seen, n);
      UnmtfRanks(Front(l, w[0]), w[1..], seen + [x], n);
      forall i | 0 <= i < |w|
        ensures v[i] < n && w[i] == Ahead(seen + v[..i], v[i], n)
      {
        if i == 0 {
          PositionIsAhead(l, seen, n, w[0]);
          assert seen + v[..0] == seen;
        } else {
          SeenBefore(seen, v, i);
          assert w[i] == w[1..][i - 1];
        }
      }
    }
  }

  lemma SeenBefore(seen: seq<nat>, v: seq<nat>, i: nat)
    requires 0 < i < |v|
    ensures v[i] == v[1..][i - 1] && seen + v[..i] == seen + [v[0]] + v[1..][..i - 1]
  {
  }

  lemma UnmtfNext(l: seq<nat>, w: seq<nat>)
    requires w != [] && forall i :: 0 <= i < |w| ==> w[i] < |l|
    ensures forall i :: 0 <= i < |w[1..]| ==> w[1..][i] < |Front(l, w[0])|
    ensures |Unmtf(l, w)| == |w| && Unmtf(l, w)[0] == l[w[0]] && Unmtf(l, w)[1..] == Unmtf(Front(l, w[0]), w[1..])
  {
  }

  lemma RecencySize(l: seq<nat>, v: seq<nat>, n: nat)
    requires Recency(l, v, n)
    ensures |l| == n && forall i :: 0 <= i < n ==> l[i] < n
  {
  }

  lemma UnmtfMeans(w: seq<nat>, n: nat)
    requires forall i :: 0 <= i < |w| ==> w[i] < n
    ensures Ranks(w, Unmtf(Identity(n), w), n)
  {
    hide Unmtf, Identity, Recency, Ahead;
    RecencyStart(n);
    UnmtfRanks(Identity(n), w, [], n);
    var v := Unmtf(Identity(n), w);
    forall i | 0 <= i < |v| ensures [] + v[..i] == v[..i] { }
  }

  lemma MtfMeans(v: seq<nat>, n: nat)
    requires Within(v, Identity(n))
    ensures Ranks(Mtf(Identity(n), v), v, n)
  {
    hide Mtf, Unmtf, Ahead;
    MtfBounds(Identity(n), v);
    MtfRoundTrip(Identity(n), v);
    UnmtfMeans(Mtf(Identity(n), v), n);
  }

  /** Replaces each value by its position in a list whose front is the latest value, in place. */
  method MoveToFrontTransform(v: array<nat>)
    requires forall k :: 0 <= k < v.Length ==> v[k] < 256
    modifies v
    ensures Within(old(v[..]), Identity(256)) && v[..] == Mtf(Identity(256), old(v[..]))
    ensures Ranks(v[..], old(v[..]), 256)
  {
    ghost var orig: seq<nat> := v[..];
    IdentityWithin(orig, 256);
    MtfMeans(orig, 256);
    if v.Length == 0 { return; }
    hide Mtf, Within, Identity, Ranks;
    var maxVal := MaxOf(v);
    IdentityWithin(orig, maxVal + 1);
    ReplaceAll(v, maxVal);
    MtfLonger(Identity(maxVal + 1), Identity(256)[maxVal + 1..], orig);
    IdentitySplit(maxVal + 1);
  }

  /** The same with a list of the values up to the largest, padded with zeros that are never reached. */
  method ReplaceAll(v: array<nat>, maxVal: nat)
    requires maxVal < 256 && Within(v[..], Identity(maxVal + 1))
    modifies v
    ensures Within(old(v[..]), Identity(maxVal + 1)) && v[..] == Mtf(Identity(maxVal + 1), old(v[..]))
  {
    hide Mtf, Front, Find, Fronted, Within, Identity, Zeros;
    ghost var orig: seq<nat> := v[..];
    ghost var tail, l, l0 := Zeros(255 - maxVal), Identity(maxVal + 1), Identity(maxVal + 1);
    var mtf: seq<nat> := Identity(maxVal + 1) + Zeros(255 - maxVal);
    FrontedNone(orig, l0);
    for i := 0 to v.Length
      invariant v.Length == |orig| && mtf == l + tail && Fronted(v[..], orig, i, l, l0)
    {
      var pos := ReplaceAt(v, i, mtf, orig, l, tail, l0);
      mtf := Front(mtf, pos);
      l := Front(l, pos);
    }
    FrontedAll(v[..], orig, l, l0);
  }

  /** Replaces one value by its position in the list. */
  method ReplaceAt(v: array<nat>, i: nat, mtf: seq<nat>, ghost orig: seq<nat>, ghost l: seq<nat>, ghost tail: seq<nat>,
                   ghost l0: seq<nat>) returns (pos: nat)
    requires i < v.Length == |orig| && mtf == l + tail && Fronted(v[..], orig, i, l, l0)
    modifies v
    ensures pos < |l| && Front(mtf, pos) == Front(l, pos) + tail && Fronted(v[..], orig, i + 1, Front(l, pos), l0)
  {
    hide Mtf, Front, Find, Fronted;
    FrontedNext(v[..], orig, i, l, l0);
    FindLonger(l, tail, v[i]);
    pos := Search(mtf, v[i], l, tail);
    v[i] := pos;
  }

  lemma IdentitySplit(n: nat)
    requires n <= 256
    ensures Identity(256) == Identity(n) + Identity(256)[n..]
  {
  }

  /** The first i values have been replaced. */
  ghost predicate Fronted(v: seq<nat>, orig: seq<nat>, i: nat, l: seq<nat>, l0: seq<nat>) {
    && |v| == |orig| && i <= |orig| && Within(orig[i..], l) && Within(orig, l0) && v[i..] == orig[i..]
    && v[..i] + Mtf(l, orig[i..]) == Mtf(l0, orig)
  }

  lemma FrontedNone(v: seq<nat>, l: seq<nat>)
    requires Within(v, l)
    ensures Fronted(v, v, 0, l, l)
  {
    assert v[0..] == v && v[..0] == [];
  }

  lemma FrontedNext(v: seq<nat>, orig: seq<nat>, i: nat, l: seq<nat>, l0: seq<nat>)
    requires Fronted(v, orig, i, l, l0) && i < |orig|
    ensures i < |v| && v[i] in l && Fronted(v[i := Find(l, v[i])], orig, i + 1, Front(l, Find(l, v[i])), l0)
  {
    hide Mtf, Front, Find;
    var rest := orig[i..];
    MtfNext(l, rest);
    assert v[i] == v[i..][0] == rest[0];
    assert rest[1..] == orig[i + 1..];
    var v' := v[i := Find(l, v[i])];
    assert v'[..i + 1] == v[..i] + [Find(l, v[i])];
    assert v'[i + 1..] == v[i..][1..] == orig[i + 1..];
  }

  lemma FrontedAll(v: seq<nat>, orig: seq<nat>, l: seq<nat>, l0: seq<nat>)
    requires Fronted(v, orig, |orig|, l, l0)
    ensures Within(orig, l0) && v == Mtf(l0, orig)
  {
    assert v[..|orig|] == v && orig[|orig|..] == [];
  }

  lemma MtfNext(l: seq<nat>, v: seq<nat>)
    requires Within(v, l) && v != []
    ensures v[0] in l && Within(v[1..], Front(l, Find(l, v[0])))
            && Mtf(l, v) == [Find(l, v[0])] + Mtf(Front(l, Find(l, v[0])), v[1..])
  {
    WithinFront(l, v);
  }

  lemma IdentityWithin(v: seq<nat>, n: nat)
    requires forall k :: 0 <= k < |v| ==> v[k] < n
    ensures Within(v, Identity(n))
  {
    forall k | 0 <= k < |v| ensures v[k] in Identity(n) { assert Identity(n)[v[k]] == v[k]; }
  }

  method Search(mtf: seq<nat>, x: nat, ghost l: seq<nat>, ghost tail: seq<nat>) returns (pos: nat)
    requires x in l && mtf == l + tail
    ensures pos == Find(l, x)
  {
    FindLonger(l, tail, x);
    pos := 0;
    while mtf[pos] != x
      invariant pos <= Find(l, x) < |mtf|
      decreases Find(l, x) - pos
    {
      pos := pos + 1;
    }
  }

  method MaxOf(v: array<nat>) returns (m: nat)
    requires v.Length > 0 && forall k :: 0 <= k < v.Length ==> v[k] < 256
    ensures m < 256 && forall k :: 0 <= k < v.Length ==> v[k] < m + 1
  {
    m := v[0];
    for i := 1 to v.Length
      invariant m < 256 && forall k :: 0 <= k < i ==> v[k] < m + 1
    {
      if v[i] > m { m := v[i]; }
    }
  }

  /** Puts the values back, in place. */
  method InverseMoveToFrontTransform(v: array<nat>)
    requires forall k :: 0 <= k < v.Length ==> v[k] < 256
    modifies v
    ensures v[..] == Unmtf(Identity(256), old(v[..])) && Ranks(old(v[..]), v[..], 256)
  {
    hide Ranks;
    ghost var orig: seq<nat> := v[..];
    UnmtfMeans(orig, 256);
    var list: seq<nat> := Identity(256);
    var i := 0;
    assert orig[0..] == orig;
    while i < v.Length
      invariant i <= v.Length == |orig| && |list| == 256 && v[i..] == orig[i..]
                && forall k :: 0 <= k < |orig| ==> orig[k] < 256
      invariant v[..i] + Unmtf(list, orig[i..]) == Unmtf(Identity(256), orig)
    {
      hide Front;
      ghost var rest := orig[i..];
      var idx := v[i];
      assert idx == v[i..][0] == rest[0];
      assert rest[1..] == orig[i + 1..];
      ghost var head := v[..i];
      v[i] := list[idx];
      assert v[..i + 1] == head + [list[idx]];
      assert v[i + 1..] == orig[i + 1..] by { assert forall k :: i < k < v.Length ==> v[k] == orig[k]; }
      list := Front(list, idx);
      i := i + 1;
    }
    assert v[..v.Length] == v[..];
  }

  // ---------- Zero runs ----------

  /** A word holds a symbol in its low nine bits and extra bits above. */
  function Word(symbol: nat, extra: nat): nat { symbol + 512 * extra }
  function SymbolOf(w: nat): nat { w % 512 }
  function ExtraOf(w: nat): nat { w / 512 }

  /** What a word stands for when the symbols 1 .. p are zero runs. */
  ghost function Meaning(w: nat, p: nat): seq<nat> {
    if SymbolOf(w) == 0 then [0]
    else if SymbolOf(w) > p then [SymbolOf(w) - p]
    else Zeros(Pow2(SymbolOf(w)) + ExtraOf(w))
  }

  ghost function Expand(words: seq<nat>, p: nat): seq<nat> {
    if words == [] then [] else Expand(words[..|words| - 1], p) + Meaning(words[|words| - 1], p)
  }

  lemma ExpandNext(words: seq<nat>, w: nat, p: nat)
    ensures Expand(words + [w], p) == Expand(words, p) + Meaning(w, p)
  {
    assert (words + [w])[..|words|] == words;
  }

  /** The extra bits of a run fit the run's symbol, and other words have none. */
  ghost predicate WellFormed(w: nat, p: nat) {
    if 0 < SymbolOf(w) <= p then ExtraOf(w) < Pow2(SymbolOf(w)) else ExtraOf(w) == 0
  }

  lemma RunMeans(s: nat, extra: nat, p: nat)
    requires s <= p <= MAX_PREFIX && extra < Pow2(s)
    ensures Meaning(Word(s, extra), p) == Zeros(Pow2(s) + extra) && WellFormed(Word(s, extra), p)
  {
    hide SymbolOf, ExtraOf, Meaning, WellFormed, Pow2, Word;
    WordParts(s, extra);
    RunMeaning(Word(s, extra), p);
  }

  lemma RunMeaning(w: nat, p: nat)
    requires SymbolOf(w) <= p && ExtraOf(w) < Pow2(SymbolOf(w))
    ensures Meaning(w, p) == Zeros(Pow2(SymbolOf(w)) + ExtraOf(w)) && WellFormed(w, p)
  {
    assert Pow2(0) == 1;
    hide SymbolOf, ExtraOf, Pow2;
    assert Zeros(1) == [0];
  }

  lemma WordParts(s: nat, extra: nat)
    requires s < 512
    ensures SymbolOf(Word(s, extra)) == s && ExtraOf(Word(s, extra)) == extra
  {
  }

  lemma ValueMeans(x: nat, p: nat)
    requires 0 < x < 256 && p <= MAX_PREFIX
    ensures Meaning(x + p, p) == [x] && WellFormed(x + p, p)
  {
  }

  /** The first i values have been coded into the first n words, in place. */
  ghost predicate Coded(v: seq<nat>, orig: seq<nat>, p: nat, n: nat, i: nat, reps: nat) {
    && |v| == |orig| && n + reps <= i <= |v|
    && (forall k :: i <= k < |v| ==> v[k] == orig[k])
    && Expand(v[..n], p) + Zeros(reps) == orig[..i]
    && (forall k :: 0 <= k < n ==> WellFormed(v[k], p))
  }

  lemma CodeValue(v: seq<nat>, orig: seq<nat>, p: nat, n: nat, i: nat)
    requires Coded(v, orig, p, n, i, 0) && i < |v| && 0 < v[i] < 256 && p <= MAX_PREFIX
    ensures Coded(v[n := v[i] + p], orig, p, n + 1, i + 1, 0)
  {
    hide Expand, Meaning, WellFormed;
    ValueMeans(v[i], p);
    var v' := v[n := v[i] + p];
    assert v'[..n + 1] == v[..n] + [v[i] + p];
    ExpandNext(v[..n], v[i] + p, p);
    assert orig[..i + 1] == orig[..i] + [orig[i]];
    assert Zeros(0) == [];
    assert forall k :: 0 <= k < n ==> v'[k] == v[k];
  }

  lemma CodeZeros(v: seq<nat>, orig: seq<nat>, p: nat, n: nat, i: nat, j: nat)
    requires Coded(v, orig, p, n, i, 0) && i <= j <= |v| && forall k :: i <= k < j ==> v[k] == 0
    ensures Coded(v, orig, p, n, j, j - i)
  {
    hide Expand;
    assert orig[..j] == orig[..i] + Zeros(j - i);
    assert Zeros(0) == [];
  }

  lemma CodeRun(v: seq<nat>, orig: seq<nat>, p: nat, n: nat, i: nat, reps: nat, s: nat, extra: nat)
    requires Coded(v, orig, p, n, i, reps) && s <= p <= MAX_PREFIX && extra < Pow2(s) && Pow2(s) + extra <= reps
    ensures n < |v| && Coded(v[n := Word(s, extra)], orig, p, n + 1, i, reps - (Pow2(s) + extra))
  {
    hide Expand, Meaning, WellFormed, Pow2, Word;
    var w := Word(s, extra);
    RunMeans(s, extra, p);
    var v' := v[n := w];
    assert v'[..n + 1] == v[..n] + [w];
    ExpandNext(v[..n], w, p);
    assert Zeros(Pow2(s) + extra) + Zeros(reps - (Pow2(s) + extra)) == Zeros(reps);
    assert forall k :: 0 <= k < n ==> v'[k] == v[k];
  }

  // ---------- The fewest words ----------

  /** The number of zeros at the end. */
  ghost function Trail(v: seq<nat>): nat { if v == [] || v[|v| - 1] != 0 then 0 else 1 + Trail(v[..|v| - 1]) }

  /** n / m rounded up. */
  ghost function Ceil(n: nat, m: nat): nat requires m > 0 { (n + m - 1) / m }

  /** The number of words for what comes before the zeros at the end, if m zeros are the most for one word. */
  ghost function WordsBefore(v: seq<nat>, m: nat): nat
    requires m > 0
  {
    if v == [] then 0
    else
      var u := v[..|v| - 1];
      if v[|v| - 1] == 0 then WordsBefore(u, m) else WordsBefore(u, m) + Ceil(Trail(u), m) + 1
  }

  /** The least number of words that expand to v: one for each value that is not zero, and for each run of zeros as
      many as its length needs. */
  ghost function Fewest(v: seq<nat>, m: nat): nat requires m > 0 { WordsBefore(v, m) + Ceil(Trail(v), m) }

  lemma {:induction false} TrailZeros(v: seq<nat>, n: nat, m: nat)
    requires m > 0
    ensures Trail(v + Zeros(n)) == Trail(v) + n && WordsBefore(v + Zeros(n), m) == WordsBefore(v, m)
  {
    hide Ceil;
    if n > 0 {
      TrailZeros(v, n - 1, m);
      assert (v + Zeros(n))[..|v| + n - 1] == v + Zeros(n - 1);
    } else {
      assert v + Zeros(0) == v;
    }
  }

  lemma TrailValue(v: seq<nat>, x: nat, m: nat)
    requires m > 0 && x > 0
    ensures Trail(v + [x]) == 0 && Fewest(v + [x], m) == Fewest(v, m) + 1
  {
    assert (v + [x])[..|v|] == v;
    CeilBounds(0, m);
    hide Ceil;
  }

  lemma CeilBounds(n: nat, m: nat)
    requires m > 0
    ensures Times(Ceil(n, m), m) >= n && (n > 0 ==> Ceil(n, m) > 0 && Times(Ceil(n, m) - 1, m) < n)
            && (n == 0 ==> Ceil(n, m) == 0)
  {
    var q := (n + m - 1) / m;
    assert n + m - 1 == q * m + (n + m - 1) % m;
    if n == 0 && q > 0 { LessTimes(1, q, m); }
  }

  lemma CeilIs(n: nat, m: nat, q: nat)
    requires m > 0 && Times(q, m) >= n && (q > 0 ==> Times(q - 1, m) < n)
    ensures Ceil(n, m) == q
  {
    CeilBounds(n, m);
    var c := Ceil(n, m);
    if c < q { LessTimes(c, q - 1, m); }
    if q < c { LessTimes(q, c - 1, m); }
  }

  /** At most m zeros more need at most one word more. */
  lemma CeilGrows(t: nat, r: nat, m: nat)
    requires m > 0 && r <= m
    ensures Ceil(t + r, m) <= Ceil(t, m) + 1
  {
    CeilBounds(t, m);
    CeilBounds(t + r, m);
    var c, d := Ceil(t, m), Ceil(t + r, m);
    TimesStep(c + 1, m);
    if d > c + 1 { LessTimes(c + 1, d - 1, m); }
  }

  /** No words that expand to the same values are fewer. */
  lemma {:induction false} FewestWords(words: seq<nat>, p: nat)
    requires forall k :: 0 <= k < |words| ==> WellFormed(words[k], p)
    ensures 2 * Pow2(p) - 1 > 0 && Fewest(Expand(words, p), 2 * Pow2(p) - 1) <= |words|
  {
    var m: nat := 2 * Pow2(p) - 1;
    if words == [] {
      CeilBounds(0, m);
    } else {
      var n := |words| - 1;
      FewestWords(words[..n], p);
      WordIs(words[n], p);
      hide Meaning, WellFormed, Fewest;
      FewestNext(Expand(words[..n], p), Meaning(words[n], p), m);
    }
  }

  lemma FewestNext(v: seq<nat>, e: seq<nat>, m: nat)
    requires m > 0 && ((e == Zeros(|e|) && |e| <= m) || (|e| == 1 && e[0] > 0))
    ensures Fewest(v + e, m) <= Fewest(v, m) + 1
  {
    if |e| == 1 && e[0] > 0 {
      assert e == [e[0]];
      TrailValue(v, e[0], m);
    } else {
      TrailZeros(v, |e|, m);
      CeilGrows(Trail(v), |e|, m);
    }
  }

  /** A word is a value or up to 2^(p + 1) - 1 zeros. */
  lemma WordIs(w: nat, p: nat)
    requires WellFormed(w, p)
    ensures var e := Meaning(w, p); (e == Zeros(|e|) && |e| <= 2 * Pow2(p) - 1) || (|e| == 1 && e[0] > 0)
  {
    if 0 < SymbolOf(w) <= p { Pow2Monotone(SymbolOf(w), p); }
    if SymbolOf(w) == 0 { assert Meaning(w, p) == Zeros(1); }
  }

  /** All of v[s .. s + n - 1] is zero. */
  ghost predicate ZeroRun(v: seq<nat>, s: nat, n: nat) {
    s + n <= |v| && forall k :: s <= k < s + n ==> v[k] == 0
  }

  /** m is the length of the longest zero run. */
  ghost predicate Longest(v: seq<nat>, m: nat) {
    (exists s: nat :: ZeroRun(v, s, m)) && forall s: nat, n: nat :: ZeroRun(v, s, n) ==> n <= m
  }

  /** The longest zero run, found by looking at one maximal run after the other. */
  method LongestRun(v: array<nat>) returns (m: nat)
    ensures Longest(v[..], m)
  {
    m := 0;
    ghost var s := v[..];
    ghost var at: nat := 0;
    var i := 0;
    while i < v.Length
      invariant i <= v.Length && s == v[..] && ZeroRun(s, at, m)
      invariant forall b: nat, n: nat :: ZeroRun(s, b, n) && b + n <= i ==> n <= m
      invariant 0 < i < v.Length ==> v[i] != 0
    {
      ghost var i0 := i;
      while i < v.Length && v[i] != 0
        invariant i0 <= i <= v.Length && forall k :: i0 <= k < i ==> s[k] != 0
      {
        i := i + 1;
      }
      var start := i;
      while i < v.Length && v[i] == 0
        invariant start <= i <= v.Length && forall k :: start <= k < i ==> s[k] == 0
      {
        i := i + 1;
      }
      ghost var was := m;
      if i - start > m { m, at := i - start, start; }
      forall b: nat, n: nat | ZeroRun(s, b, n) && b + n <= i
        ensures n <= m
      {
        RunInside(s, b, n, i0, start, i, was);
      }
    }
  }

  /** A zero run up to i lies before i0, or inside the last maximal run. */
  lemma RunInside(s: seq<nat>, b: nat, n: nat, i0: nat, start: nat, i: nat, m: nat)
    requires ZeroRun(s, b, n) && b + n <= i <= |s| && i0 <= start <= i && (forall k :: i0 <= k < start ==> s[k] != 0)
    requires (i0 == 0 || (i0 < |s| && s[i0] != 0))
             && forall b: nat, n: nat :: ZeroRun(s, b, n) && b + n <= i0 ==> n <= m
    ensures n <= m || n <= i - start
  {
    if b + n > i0 && b < start && n > 0 { ZeroAt(s, b, n, if b <= i0 then i0 else b); }
  }

  lemma ZeroAt(s: seq<nat>, b: nat, n: nat, k: nat)
    requires ZeroRun(s, b, n) && b <= k < b + n
    ensures s[k] == 0
  {
  }

  /** Codes zero runs in place and returns the number of words and the largest run symbol. */
  method RunLengthCodeZeros(v: array<nat>) returns (n: nat, p: nat)
    requires forall k :: 0 <= k < v.Length ==> v[k] < 256
    modifies v
    ensures n <= v.Length && p <= 6 && Expand(v[..n], p) == old(v[..])
            && forall k :: 0 <= k < n ==> WellFormed(v[k], p)
    ensures exists m: nat :: Longest(old(v[..]), m)
                             && (m == 0 ==> p == 0) && (m > 0 ==> Pow2(p) <= m && (p == 6 || m < Pow2(p + 1)))
    ensures 2 * Pow2(p) - 1 > 0 && n == Fewest(old(v[..]), 2 * Pow2(p) - 1)
  {
    hide Expand, WellFormed, Len, Pow2, ZeroRun;
    ghost var orig: seq<nat> := v[..];
    var m := LongestRun(v);
    p := 0;
    DoublePow2(0);
    assert Pow2(0) == 1 by { PowerZero(); }
    if m > 0 {
      LenBounds(m);
      p := Len(m) - 1;
    }
    if p > MAX_PREFIX {
      Pow2Monotone(MAX_PREFIX, p);
      p := MAX_PREFIX;
    }
    n := CodeAll(v, p, orig);
    assert orig[..|orig|] == orig;
    assert Zeros(0) == [];
  }

  lemma PowerZero()
    ensures Pow2(0) == 1
  {
  }

  /** All values, one after the other. */
  method CodeAll(v: array<nat>, p: nat, ghost orig: seq<nat>) returns (n: nat)
    requires orig == v[..] && p <= MAX_PREFIX && forall k :: 0 <= k < v.Length ==> v[k] < 256
    modifies v
    ensures n <= v.Length == |orig| && Expand(v[..n], p) + Zeros(0) == orig[..|orig|]
            && forall k :: 0 <= k < n ==> WellFormed(v[k], p)
    ensures 2 * Pow2(p) - 1 > 0 && n == Fewest(orig, 2 * Pow2(p) - 1)
  {
    hide Expand, WellFormed, Len, Pow2, WordsBefore, Trail, Ceil, Fewest;
    ghost var m: nat := 2 * Pow2(p) - 1;
    n := 0;
    var i := 0;
    CodeNone(orig, p);
    FewestNone(orig, m);
    while i < v.Length
      invariant Coded(v[..], orig, p, n, i, 0) && |orig| == v.Length
      invariant n == Fewest(orig[..i], m) && (i < |orig| && orig[i] == 0 ==> Trail(orig[..i]) == 0)
    {
      hide Coded;
      CodedInside(v[..], orig, p, n, i, 0);
      if v[i] != 0 {
        CodeValue(v[..], orig, p, n, i);
        TrailValue(orig[..i], orig[i], m);
        assert orig[..i + 1] == orig[..i] + [orig[i]];
        v[n] := v[i] + p;
        i := i + 1;
        n := n + 1;
      } else {
        var j := i;
        while j < v.Length && v[j] == 0
          invariant i <= j <= v.Length && (j == i ==> v[i] == 0) && forall k :: i <= k < j ==> v[k] == 0
        {
          j := j + 1;
        }
        CodeZeros(v[..], orig, p, n, i, j);
        RunFewest(orig, i, j, m);
        var reps := j - i;
        i := j;
        n := CodeReps(v, p, n, i, reps, orig);
      }
    }
    assert orig[..i] == orig;
  }

  lemma FewestNone(v: seq<nat>, m: nat)
    requires m > 0
    ensures Fewest(v[..0], m) == 0 && Trail(v[..0]) == 0
  {
    CeilBounds(0, m);
  }

  lemma RunFewest(v: seq<nat>, i: nat, j: nat, m: nat)
    requires i <= j <= |v| && m > 0 && Trail(v[..i]) == 0 && forall k :: i <= k < j ==> v[k] == 0
    ensures Fewest(v[..j], m) == Fewest(v[..i], m) + Ceil(j - i, m)
  {
    CeilBounds(0, m);
    hide Ceil;
    assert v[..j] == v[..i] + Zeros(j - i);
    TrailZeros(v[..i], j - i, m);
  }

  /** The words of one zero run: as many full ones as needed, and a last one. */
  method CodeReps(v: array<nat>, p: nat, n0: nat, i: nat, reps0: nat, ghost orig: seq<nat>) returns (n: nat)
    requires Coded(v[..], orig, p, n0, i, reps0) && p <= MAX_PREFIX
    modifies v
    ensures Coded(v[..], orig, p, n, i, 0) && 2 * Pow2(p) - 1 > 0 && n == n0 + Ceil(reps0, 2 * Pow2(p) - 1)
  {
    hide Coded, Len, Pow2, Ceil;
    ghost var m: nat := 2 * Pow2(p) - 1;
    CeilBounds(reps0, m);
    TimesNone(m);
    n := n0;
    var reps: nat := reps0;
    while reps != 0
      invariant Coded(v[..], orig, p, n, i, reps) && n >= n0 && reps0 == Times(n - n0, m) + reps
      invariant reps0 > 0 ==> reps > 0
    {
      DoublePow2(p);
      TimesStep(n - n0 + 1, m);
      if reps < 2 * Pow2(p) {
        LenBounds(reps);
        var s := Len(reps) - 1;
        DoublePow2(s);
        if s > p { Pow2Monotone(p + 1, s); DoublePow2(p); }
        var extra := reps - Pow2(s);
        CodeRun(v[..], orig, p, n, i, reps, s, extra);
        v[n] := Word(s, extra);
        n := n + 1;
        CeilIs(reps0, m, n - n0);
        return;
      }
      CodeRun(v[..], orig, p, n, i, reps, p, Pow2(p) - 1);
      v[n] := Word(p, Pow2(p) - 1);
      reps := reps - (2 * Pow2(p) - 1);
      n := n + 1;
    }
  }

  lemma DoublePow2(p: nat)
    ensures Pow2(p + 1) == 2 * Pow2(p)
  {
  }

  lemma TimesNone(m: nat)
    ensures Times(0, m) == 0
  {
  }

  lemma CodeNone(orig: seq<nat>, p: nat)
    ensures Coded(orig, orig, p, 0, 0, 0)
  {
    assert orig[..0] == [];
  }

  lemma CodedInside(v: seq<nat>, orig: seq<nat>, p: nat, n: nat, i: nat, reps: nat)
    requires Coded(v, orig, p, n, i, reps)
    ensures |v| == |orig| && n + reps <= i <= |v| && forall k :: i <= k < |v| ==> v[k] == orig[k]
  {
  }

  // ---------- Decoding ----------

  datatype Status = Done | NeedsMoreInput | Overflow

  /** Fills the map from symbols and extra bits; a run past the end of the map is an error. */
  method DecodeSymbols(words: seq<nat>, contextMap: array<nat>, p: nat) returns (status: Status, used: nat)
    modifies contextMap
    ensures used <= |words|
    ensures status == Done ==> Expand(words[..used], p) == contextMap[..]
    ensures status == NeedsMoreInput ==> used == |words| && |Expand(words, p)| < contextMap.Length
    ensures status == Overflow ==>
            used > 0 && |Expand(words[..used - 1], p)| < contextMap.Length < |Expand(words[..used], p)|
  {
    hide Expand, Pow2;
    var index: nat := 0;
    used := 0;
    ExpandNone(p);
    while index < contextMap.Length
      invariant index <= contextMap.Length && used <= |words| && Expand(words[..used], p) == contextMap[..index]
      decreases |words| - used
    {
      if used == |words| {
        assert words[..used] == words;
        return NeedsMoreInput, used;
      }
      var w := words[used];
      ExpandNext(words[..used], w, p);
      assert words[..used + 1] == words[..used] + [w];
      used := used + 1;
      var code := SymbolOf(w);
      if code == 0 {
        contextMap[index] := 0;
        index := index + 1;
      } else if code > p {
        contextMap[index] := code - p;
        index := index + 1;
      } else {
        var reps := ExtraOf(w) + Pow2(code);
        if index + reps > contextMap.Length { return Overflow, used; }
        ghost var head := contextMap[..index];
        forall k | index <= k < index + reps { contextMap[k] := 0; }
        assert contextMap[..index + reps] == head + Zeros(reps);
        index := index + reps;
      }
    }
    assert contextMap[..contextMap.Length] == contextMap[..];
    status := Done;
  }

  lemma ExpandNone(p: nat)
    ensures Expand([], p) == []
  {
  }

  /** Every map with values below 256 comes back: coded in place, then decoded and transformed back. */
  method RoundTrip(v: array<nat>) returns (decoded: array<nat>, status: Status)
    requires forall k :: 0 <= k < v.Length ==> v[k] < 256
    ensures status == Done && decoded[..] == v[..]
  {
    hide Expand, Mtf, Unmtf, WellFormed, Longest, Len;
    var rle := new nat[v.Length](k requires 0 <= k < v.Length reads v => v[k]);
    assert rle[..] == v[..];
    ghost var orig: seq<nat> := v[..];
    MoveToFrontTransform(rle);
    MtfBounds(Identity(256), orig);
    var n, p := RunLengthCodeZeros(rle);
    var words := rle[..n];
    decoded := new nat[v.Length];
    var used;
    status, used := DecodeSymbols(words, decoded, p);
    DecodeAll(words, used, status, p, decoded[..], Mtf(Identity(256), orig));
    MtfRoundTrip(Identity(256), orig);
    InverseMoveToFrontTransform(decoded);
  }

  lemma {:induction false} ExpandShorter(words: seq<nat>, n: nat, p: nat)
    requires n <= |words|
    ensures |Expand(words[..n], p)| + (|words| - n) <= |Expand(words, p)| && Expand(words[..n], p) <= Expand(words, p)
    decreases |words| - n
  {
    hide Pow2;
    if n < |words| {
      assert words[..n + 1][..n] == words[..n];
      ExpandShorter(words, n + 1, p);
    } else {
      assert words[..n] == words;
    }
  }

  /** Words that expand to as many values as the map has are all used. */
  lemma DecodeAll(words: seq<nat>, used: nat, status: Status, p: nat, result: seq<nat>, all: seq<nat>)
    requires used <= |words| && Expand(words, p) == all && |result| == |all|
    requires status == Done ==> Expand(words[..used], p) == result
    requires status == NeedsMoreInput ==> used == |words| && |Expand(words, p)| < |result|
    requires status == Overflow ==> used > 0 && |result| < |Expand(words[..used], p)|
    ensures status == Done && result == all
  {
    hide Expand;
    ExpandShorter(words, used, p);
  }

  // ---------- The trivial map ----------

  /** The words for n types: the type's own symbol, and a run over its other contexts. */
  ghost function TrivialWords(n: nat, contextBits: nat): seq<nat>
    requires contextBits >= 2
  {
    if n == 0 then [] else TrivialWords(n - 1, contextBits) + [TypeWord(n - 1, contextBits), RunWord(contextBits)]
  }

  function TypeWord(i: nat, contextBits: nat): nat
    requires contextBits >= 1
  {
    if i > 0 then i + contextBits - 1 else 0
  }

  function RunWord(contextBits: nat): nat
    requires contextBits >= 1
  {
    Word(contextBits - 1, Pow2(contextBits - 1) - 1)
  }

  /** The symbols of the types lo .. hi - 1: for each its number and m - 1 zeros. */
  ghost function Segments(lo: nat, hi: nat, m: nat): seq<nat>
    requires lo <= hi && m > 0
    decreases hi - lo
  {
    if lo == hi then [] else [lo] + (Zeros(m - 1) + Segments(lo + 1, hi, m))
  }

  lemma {:induction false} SegmentsNext(lo: nat, hi: nat, m: nat)
    requires lo <= hi && m > 0
    ensures Segments(lo, hi + 1, m) == Segments(lo, hi, m) + [hi] + Zeros(m - 1)
    decreases hi - lo
  {
    if lo < hi {
      SegmentsNext(lo + 1, hi, m);
    } else {
      assert Segments(hi, hi + 1, m) == [hi] + (Zeros(m - 1) + []);
    }
  }

  lemma TrivialNext(n: nat, contextBits: nat)
    requires n > 0 && contextBits >= 2
    ensures TrivialWords(n, contextBits) ==
            TrivialWords(n - 1, contextBits) + [TypeWord(n - 1, contextBits)] + [RunWord(contextBits)]
  {
  }

  /** The meaning of one type's two words. */
  lemma TypeMeans(i: nat, contextBits: nat)
    requires i < 256 && 2 <= contextBits <= MAX_PREFIX
    ensures Meaning(TypeWord(i, contextBits), contextBits - 1) == [i]
    ensures Meaning(RunWord(contextBits), contextBits - 1) == Zeros(Pow2(contextBits) - 1)
  {
    hide Meaning, Pow2, WellFormed, Word, Zeros;
    var p := contextBits - 1;
    FullRun(p);
    if i > 0 {
      ValueMeans(i, p);
    } else {
      ZeroMeans(p);
    }
  }

  /** A run symbol with all extra bits set. */
  lemma FullRun(p: nat)
    requires p < MAX_PREFIX
    ensures Meaning(Word(p, Pow2(p) - 1), p) == Zeros(Pow2(p + 1) - 1)
  {
    hide Meaning, Pow2, WellFormed, Word, Zeros;
    DoublePow2(p);
    RunMeans(p, Pow2(p) - 1, p);
    assert Pow2(p) + (Pow2(p) - 1) == Pow2(p + 1) - 1;
  }

  lemma {:induction false} TrivialExpands(n: nat, contextBits: nat, m: nat)
    requires n <= 256 && 2 <= contextBits <= MAX_PREFIX && m == Pow2(contextBits)
    ensures Expand(TrivialWords(n, contextBits), contextBits - 1) == Segments(0, n, m)
  {
    if n > 0 {
      TypeMeans(n - 1, contextBits);
      TrivialNext(n, contextBits);
      hide Expand, Meaning, Pow2, TypeWord, RunWord, TrivialWords, Segments, Zeros;
      var p := contextBits - 1;
      TrivialExpands(n - 1, contextBits, m);
      SegmentsNext(0, n - 1, m);
      var words := TrivialWords(n - 1, contextBits);
      ExpandNext(words, TypeWord(n - 1, contextBits), p);
      ExpandNext(words + [TypeWord(n - 1, contextBits)], RunWord(contextBits), p);
    }
  }

  lemma ZeroMeans(p: nat)
    ensures Meaning(0, p) == [0]
  {
  }

  /** The decoder's list after i types have been seen in order. */
  ghost function ListAfter(i: nat): (l: seq<nat>)
    requires i <= 256
    ensures |l| == 256
  {
    seq(256, k => if k < i then i - 1 - k else k)
  }

  lemma {:induction false} UnmtfZeros(l: seq<nat>, m: nat, rest: seq<nat>)
    requires |l| > 0 && forall i :: 0 <= i < |rest| ==> rest[i] < |l|
    ensures Unmtf(l, Zeros(m) + rest) == seq(m, _ => l[0]) + Unmtf(l, rest)
    decreases m
  {
    if m > 0 {
      UnmtfZeros(l, m - 1, rest);
      assert (Zeros(m) + rest)[1..] == Zeros(m - 1) + rest;
      assert Front(l, 0) == l;
      assert seq(m, _ => l[0]) == [l[0]] + seq(m - 1, _ => l[0]);
    } else {
      assert Zeros(0) + rest == rest;
    }
  }

  /** Each type, once for each of its m contexts. */
  ghost function Blocks(lo: nat, hi: nat, m: nat): seq<nat>
    requires lo <= hi
    decreases hi - lo
  {
    if lo == hi then [] else seq(m, _ => lo) + Blocks(lo + 1, hi, m)
  }

  /** All values are below 256. */
  ghost predicate Small(v: seq<nat>) { forall i :: 0 <= i < |v| ==> v[i] < 256 }

  lemma {:induction false} SegmentsSmall(lo: nat, hi: nat, m: nat)
    requires lo <= hi <= 256 && m > 0
    ensures Small(Segments(lo, hi, m))
    decreases hi - lo
  {
    if lo < hi { SegmentsSmall(lo + 1, hi, m); }
  }

  /** One type: its number at position i of the list, then zeros. */
  lemma UnmtfSegment(l: seq<nat>, i: nat, m: nat, rest: seq<nat>)
    requires |l| == 256 && i < 256 && m > 0 && Small(rest)
    ensures Small([i] + (Zeros(m - 1) + rest))
    ensures Unmtf(l, [i] + (Zeros(m - 1) + rest)) == seq(m, _ => l[i]) + Unmtf(Front(l, i), rest)
  {
    var w := [i] + (Zeros(m - 1) + rest);
    assert w[1..] == Zeros(m - 1) + rest && Front(l, i)[0] == l[i];
    hide Front;
    UnmtfZeros(Front(l, i), m - 1, rest);
    assert seq(m, _ => l[i]) == [l[i]] + seq(m - 1, _ => l[i]);
  }

  lemma ListNext(i: nat)
    requires i < 256
    ensures Front(ListAfter(i), i) == ListAfter(i + 1) && ListAfter(i)[i] == i
  {
  }

  lemma {:induction false} SegmentsDecode(lo: nat, hi: nat, m: nat)
    requires lo <= hi <= 256 && m > 0
    ensures Small(Segments(lo, hi, m)) && Unmtf(ListAfter(lo), Segments(lo, hi, m)) == Blocks(lo, hi, m)
    decreases hi - lo
  {
    if lo < hi {
      hide Front, ListAfter, Unmtf;
      SegmentsDecode(lo + 1, hi, m);
      ListNext(lo);
      UnmtfSegment(ListAfter(lo), lo, m, Segments(lo + 1, hi, m));
    }
  }

  /** The trivial map decodes to the block type in every context, for any number of types. */
  lemma TrivialMapDecodes(n: nat, contextBits: nat)
    requires n <= 256 && 2 <= contextBits <= MAX_PREFIX
    ensures Small(Expand(TrivialWords(n, contextBits), contextBits - 1))
    ensures Unmtf(Identity(256), Expand(TrivialWords(n, contextBits), contextBits - 1)) ==
            Blocks(0, n, Pow2(contextBits))
  {
    hide Expand, Segments, Pow2;
    TrivialExpands(n, contextBits, Pow2(contextBits));
    SegmentsDecode(0, n, Pow2(contextBits));
    assert ListAfter(0) == Identity(256);
  }

  /** The symbols that the encoder writes for a trivial map. */
  method StoreTrivialContextMap(numTypes: nat, contextBits: nat) returns (words: seq<nat>)
    requires 1 <= numTypes <= 256 && 2 <= contextBits <= MAX_PREFIX
    ensures numTypes == 1 ==> words == []
    ensures numTypes > 1 ==> words == TrivialWords(numTypes, contextBits)
  {
    words := [];
    if numTypes > 1 {
      for i := 0 to numTypes
        invariant words == TrivialWords(i, contextBits)
      {
        words := words + [if i > 0 then i + contextBits - 1 else 0];
        words := words + [Word(contextBits - 1, Pow2(contextBits - 1) - 1)];
      }
    }
  }
}
