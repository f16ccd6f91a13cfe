/** Powers of two, bit fields of natural numbers, and their reversal. */
module Bits {

  type byte = x: nat | x < 256

  function Pow2(n: nat): (p: nat)
    ensures p > 0
  {
    if n == 0 then 1 else 2 * Pow2(n - 1)
  }

  lemma {:induction false} Pow2Add(a: nat, b: nat)
    ensures Pow2(a + b) == Pow2(a) * Pow2(b)
  {
    if a > 0 {
      Pow2Add(a - 1, b);
      assert a + b - 1 == a - 1 + b;
      DoubleTimes(Pow2(a - 1), Pow2(b));
    }
  }

  lemma DoubleTimes(x: nat, y: nat)
    ensures 2 * (x * y) == (2 * x) * y
  {
  }

  lemma {:induction false} Pow2Monotone(a: nat, b: nat)
    requires a <= b
    ensures Pow2(a) <= Pow2(b)
    ensures a < b ==> 2 * Pow2(a) <= Pow2(b)
    decreases b - a
  {
    if a < b { Pow2Monotone(a + 1, b); }
  }

  lemma Powers()
    ensures Pow2(0) == 1 && Pow2(1) == 2 && Pow2(2) == 4 && Pow2(3) == 8 && Pow2(4) == 16 && Pow2(5) == 32
    ensures Pow2(6) == 64 && Pow2(7) == 128 && Pow2(8) == 256 && Pow2(9) == 512 && Pow2(10) == 1024
    ensures Pow2(11) == 2048 && Pow2(12) == 4096 && Pow2(14) == 0x4000 && Pow2(15) == 0x8000 && Pow2(24) == 0x100_0000
  {
    assert Pow2(6) == 64;
    Pow2Add(6, 1);
    Pow2Add(6, 2);
    Pow2Add(6, 3);
    Pow2Add(6, 4);
    Pow2Add(6, 5);
    Pow2Add(6, 6);
    Pow2Add(6, 8);
    Pow2Add(7, 8);
    Pow2Add(12, 12);
  }

  /** x >> n. */
  function High(x: nat, n: nat): nat
    decreases n
  {
    if n == 0 then x else High(x / 2, n - 1)
  }

  /** x & (2^n - 1). */
  function Low(x: nat, n: nat): nat
    decreases n
  {
    if n == 0 then 0 else x % 2 + 2 * Low(x / 2, n - 1)
  }

  lemma {:induction false} HighLow(x: nat, n: nat)
    ensures x == High(x, n) * Pow2(n) + Low(x, n)
    ensures Low(x, n) < Pow2(n)
    decreases n
  {
    if n > 0 {
      HighLow(x / 2, n - 1);
      DoubleTimes'(High(x, n), Pow2(n - 1));
    }
  }

  lemma DoubleTimes'(x: nat, y: nat)
    ensures x * (2 * y) == 2 * (x * y)
  {
  }

  /** A sum of a multiple of 2^n and a smaller number splits into its parts. */
  lemma {:induction false} SplitSum(n: nat, m: nat, r: nat)
    requires r < Pow2(n)
    ensures High(m * Pow2(n) + r, n) == m && Low(m * Pow2(n) + r, n) == r
    decreases n
  {
    if n > 0 {
      var x := m * Pow2(n) + r;
      DoubleTimes'(m, Pow2(n - 1));
      assert x / 2 == m * Pow2(n - 1) + r / 2 && x % 2 == r % 2;
      SplitSum(n - 1, m, r / 2);
    }
  }

  lemma {:induction false} LowSmall(x: nat, n: nat)
    requires x < Pow2(n)
    ensures Low(x, n) == x && High(x, n) == 0
    decreases n
  {
    if n > 0 { LowSmall(x / 2, n - 1); }
  }

  lemma {:induction false} LowLow(x: nat, a: nat, b: nat)
    requires a <= b
    ensures Low(Low(x, b), a) == Low(x, a)
    decreases a
  {
    if a > 0 { LowLow(x / 2, a - 1, b - 1); }
  }

  /** Shifting after masking is masking after shifting. */
  lemma {:induction false} HighOfLow(x: nat, a: nat, b: nat)
    ensures High(Low(x, a + b), a) == Low(High(x, a), b)
    decreases a
  {
    if a > 0 {
      assert a + b - 1 == a - 1 + b;
      HighOfLow(x / 2, a - 1, b);
    }
  }

  lemma {:induction false} HighHigh(x: nat, a: nat, b: nat)
    ensures High(High(x, a), b) == High(x, a + b)
    decreases a
  {
    if a > 0 {
      assert a + b - 1 == a - 1 + b;
      HighHigh(x / 2, a - 1, b);
    }
  }

  /** The low n bits of x in reverse order. */
  function Rev(n: nat, x: nat): nat
  {
    if n == 0 then 0 else (if x % 2 == 1 then Pow2(n - 1) else 0) + Rev(n - 1, x / 2)
  }

  lemma RevUnfold(n: nat, x: nat)
    requires n > 0
    ensures Rev(n, x) == (x % 2) * Pow2(n - 1) + Rev(n - 1, x / 2)
  {
    assert x % 2 == 0 || x % 2 == 1;
  }

  lemma {:induction false} RevBound(n: nat, x: nat)
    ensures Rev(n, x) < Pow2(n)
  {
    if n > 0 { RevBound(n - 1, x / 2); }
  }

  /** Reversing a + b bits: the reversed low a bits come on top. */
  lemma {:induction false} RevSplit(a: nat, b: nat, x: nat)
    ensures Rev(a + b, x) == Rev(a, x) * Pow2(b) + Rev(b, High(x, a))
    decreases a
  {
    if a > 0 {
      assert a + b - 1 == a - 1 + b;
      RevSplit(a - 1, b, x / 2);
      Pow2Add(a - 1, b);
      SumTimes(if x % 2 == 1 then Pow2(a - 1) else 0, Rev(a - 1, x / 2), Pow2(b));
    }
  }

  lemma SumTimes(x: int, y: int, z: int)
    ensures (x + y) * z == x * z + y * z
  {
  }

  /** Hence the top a bits of the reversal are the reversed low a bits. */
  lemma RevParts(a: nat, b: nat, x: nat)
    ensures High(Rev(a + b, x), b) == Rev(a, x) && Low(Rev(a + b, x), b) == Rev(b, High(x, a))
  {
    RevSplit(a, b, x);
    RevBound(b, High(x, a));
    SplitSum(b, Rev(a, x), Rev(b, High(x, a)));
  }

  lemma {:induction false} RevOfLow(n: nat, m: nat, x: nat)
    requires n <= m
    ensures Rev(n, Low(x, m)) == Rev(n, x)
    decreases n
  {
    if n > 0 { RevOfLow(n - 1, m - 1, x / 2); }
  }

  /** The top bit of a field becomes the lowest bit of its reversal. */
  lemma RevTop(n: nat, d: nat, y: nat)
    requires d <= 1 && y < Pow2(n)
    ensures Rev(n + 1, d * Pow2(n) + y) == 2 * Rev(n, y) + d
  {
    var r := d * Pow2(n) + y;
    SplitSum(n, d, y);
    RevSplit(n, 1, r);
    RevOfLow(n, n, r);
    assert Pow2(1) == 2 * Pow2(0) && Rev(1, d) == d;
  }

  /** Reversing twice gives the low bits back. */
  lemma {:induction false} RevRev(n: nat, x: nat)
    ensures Rev(n, Rev(n, x)) == Low(x, n)
    decreases n
  {
    if n > 0 {
      hide Rev;
      RevRev(n - 1, x / 2);
      RevBound(n - 1, x / 2);
      RevUnfold(n, x);
      RevTop(n - 1, x % 2, Rev(n - 1, x / 2));
    } else {
      assert Rev(0, x) == 0;
    }
  }

  lemma {:induction false} RevZero(n: nat)
    ensures Rev(n, 0) == 0
  {
    if n > 0 { RevZero(n - 1); }
  }

  /** Reversal is one-to-one on n-bit fields. */
  lemma RevInjective(n: nat, x: nat, y: nat)
    requires Rev(n, x) == Rev(n, y)
    ensures Low(x, n) == Low(y, n)
  {
    RevRev(n, x);
    RevRev(n, y);
  }

  /** The number of binary digits. */
  function Len(x: nat): nat { if x == 0 then 0 else 1 + Len(x / 2) }

  lemma {:induction false} LenBounds(x: nat)
    requires x > 0
    ensures Len(x) > 0 && Pow2(Len(x) - 1) <= x < Pow2(Len(x))
  {
    if x > 1 { LenBounds(x / 2); }
  }

  lemma LenRange(x: nat, a: nat, b: nat)
    requires 0 < a <= b && Pow2(a - 1) <= x < Pow2(b)
    ensures a <= Len(x) <= b
  {
    LenBounds(x);
    if Len(x) < a { Pow2Monotone(Len(x), a - 1); }
    if Len(x) > b { Pow2Monotone(b, Len(x) - 1); }
  }

  /** The two top digits and the rest. */
  lemma {:induction false} TopTwo(x: nat)
    requires x >= 2
    ensures Len(x) >= 2 && 2 <= High(x, Len(x) - 2) <= 3
    ensures x == High(x, Len(x) - 2) * Pow2(Len(x) - 2) + Low(x, Len(x) - 2) && Low(x, Len(x) - 2) < Pow2(Len(x) - 2)
  {
    if x >= 4 {
      TopTwo(x / 2);
      assert High(x, Len(x) - 2) == High(x / 2, Len(x / 2) - 2);
    } else {
      assert Len(x) == 2 by { assert Len(1) == 1; }
      assert High(x, 0) == x;
    }
    HighLow(x, Len(x) - 2);
  }
}
