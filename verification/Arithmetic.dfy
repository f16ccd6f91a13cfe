/** Small arithmetic that several components share. */
module Arithmetic {

  function Min(a: nat, b: nat): nat { if a <= b then a else b }

  function Max(a: nat, b: nat): nat { if a <= b then b else a }

  function MinReal(a: real, b: real): real { if a <= b then a else b }

  function MaxReal(a: real, b: real): real { if a >= b then a else b }

  function Zeros(n: nat): (r: seq<nat>)
    ensures |r| == n
  {
    seq(n, _ => 0)
  }

  /** A product under a name, so that proofs can leave it alone. */
  function Times(a: nat, b: nat): nat { a * b }

  lemma TimesStep(a: nat, b: nat)
    requires a > 0
    ensures Times(a, b) == Times(a - 1, b) + b
  {
  }

  lemma LessTimes(a: nat, b: nat, c: nat)
    requires a <= b
    ensures a * c <= b * c
  {
  }

  lemma RemainderIs(k: nat, size: nat, r: nat, n: nat)
    requires r < size && n == k * size + r
    ensures n % size == r
  {
    var q := n / size;
    if q < k { LessTimes(q + 1, k, size); }
    if k < q { LessTimes(k + 1, q, size); }
  }

  lemma Associate<T>(a: seq<T>, b: seq<T>, c: seq<T>)
    ensures (a + b) + c == a + (b + c)
  {
  }
}
