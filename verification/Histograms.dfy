/** Histograms over a fixed alphabet, and their sums. */
module Histograms {
  import opened Arithmetic

  type Hist = seq<nat>

  function Add(g: Hist, h: Hist): (r: Hist)
    requires |g| == |h|
    ensures |r| == |g|
  {
    seq(|g|, i requires 0 <= i < |g| => g[i] + h[i])
  }

  function Total(h: Hist): nat { if h == [] then 0 else h[0] + Total(h[1..]) }

  lemma {:induction false} TotalAdd(g: Hist, h: Hist)
    requires |g| == |h|
    ensures Total(Add(g, h)) == Total(g) + Total(h)
  {
    if g != [] {
      TotalAdd(g[1..], h[1..]);
      assert Add(g, h)[1..] == Add(g[1..], h[1..]);
    }
  }

  lemma {:induction false} TotalZero(h: Hist)
    requires Total(h) == 0
    ensures h == Zeros(|h|)
  {
    if h != [] {
      TotalZero(h[1..]);
      assert h == [h[0]] + h[1..];
    }
  }

  lemma AddZero(h: Hist)
    ensures Add(h, Zeros(|h|)) == h && Add(Zeros(|h|), h) == h
  {
  }

  lemma AddSwaps(g: Hist, h: Hist)
    requires |g| == |h|
    ensures Add(g, h) == Add(h, g)
  {
  }

  lemma AddAssociates(f: Hist, g: Hist, h: Hist)
    requires |f| == |g| == |h|
    ensures Add(Add(f, g), h) == Add(f, Add(g, h))
  {
  }

  /** One more occurrence of s. */
  function Bump(h: Hist, s: nat): (r: Hist)
    requires s < |h|
    ensures |r| == |h|
  {
    h[s := h[s] + 1]
  }

  lemma AddBump(g: Hist, h: Hist, s: nat)
    requires |g| == |h| && s < |h|
    ensures Bump(Add(g, h), s) == Add(g, Bump(h, s))
  {
  }
}
