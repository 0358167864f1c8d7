/** Shifts and `|` on natural numbers, bit by bit, for the C expressions in the models. */
module Bits {
  function Pow2(k: nat): (p: nat)
    ensures p > 0
  {
    if k == 0 then 1 else 2 * Pow2(k - 1)
  }

  /** `a << k`, without a limit on the width. */
  function Shl(a: nat, k: nat): nat {
    if k == 0 then a else 2 * Shl(a, k - 1)
  }

  /** `a >> k` */
  function Shr(a: nat, k: nat): nat {
    if k == 0 then a else Shr(a / 2, k - 1)
  }

  /** `a | b` */
  function Or(a: nat, b: nat): nat
    decreases a + b
  {
    if a == 0 && b == 0 then 0
    else (if a % 2 == 1 || b % 2 == 1 then 1 else 0) + 2 * Or(a / 2, b / 2)
  }

  /** The k low bits. */
  function Low(a: nat, k: nat): nat {
    if k == 0 then 0 else a % 2 + 2 * Low(a / 2, k - 1)
  }

  lemma {:induction false} LowBound(a: nat, k: nat)
    ensures Low(a, k) < Pow2(k)
  {
    if k > 0 {
      LowBound(a / 2, k - 1);
    }
  }

  lemma {:induction false} ShlBound(a: nat, n: nat, k: nat)
    requires a < Pow2(k)
    ensures Shl(a, n) < Pow2(n + k)
  {
    if n > 0 {
      ShlBound(a, n - 1, k);
    }
  }

  lemma {:induction false} ShrBound(a: nat, j: nat, k: nat)
    requires a < Pow2(k) && j <= k
    ensures Shr(a, j) < Pow2(k - j)
  {
    if j > 0 {
      ShrBound(a / 2, j - 1, k - 1);
    }
  }

  /** Numbers without a common bit: low bits, and bits above them. */
  lemma {:induction false} OrIsSum(a: nat, b: nat, k: nat)
    requires a < Pow2(k)
    ensures Or(a, Shl(b, k)) == a + Shl(b, k)
    decreases k, b
  {
    if k > 0 {
      OrIsSum(a / 2, b, k - 1);
    } else if b > 0 {
      OrIsSum(0, b / 2, 0);
    }
  }

  lemma {:induction false} ShlSum(a: nat, b: nat, i: nat, n: nat)
    ensures Shl(a + Shl(b, i), n) == Shl(a, n) + Shl(b, i + n)
  {
    if n > 0 {
      ShlSum(a, b, i, n - 1);
    }
  }

  lemma {:induction false} ShrSum(a: nat, b: nat, i: nat, j: nat)
    requires j <= i
    ensures Shr(a + Shl(b, i), j) == Shr(a, j) + Shl(b, i - j)
  {
    if j > 0 {
      assert (a + Shl(b, i)) / 2 == a / 2 + Shl(b, i - 1);
      ShrSum(a / 2, b, i - 1, j - 1);
    }
  }

  lemma {:induction false} LowSum(a: nat, b: nat, i: nat, k: nat)
    requires k <= i
    ensures Low(a + Shl(b, i), k) == Low(a, k)
  {
    if k > 0 {
      assert (a + Shl(b, i)) / 2 == a / 2 + Shl(b, i - 1);
      assert (a + Shl(b, i)) % 2 == a % 2;
      LowSum(a / 2, b, i - 1, k - 1);
    }
  }

  lemma {:induction false} LowAndHigh(a: nat, k: nat)
    ensures a == Low(a, k) + Shl(Shr(a, k), k)
  {
    if k > 0 {
      LowAndHigh(a / 2, k - 1);
    }
  }

  lemma SevenBits(a: nat)
    ensures Shl(a, 7) == 128 * a && Shl(a, 8) == 256 * a && Pow2(7) == 128 && Pow2(8) == 256
  {
    assert Shl(a, 1) == 2 * a && Shl(a, 2) == 2 * Shl(a, 1) && Shl(a, 3) == 2 * Shl(a, 2);
    assert Shl(a, 4) == 2 * Shl(a, 3) && Shl(a, 5) == 2 * Shl(a, 4) && Shl(a, 6) == 2 * Shl(a, 5);
    assert Pow2(2) == 4 && Pow2(4) == 16 && Pow2(6) == 64;
  }
}
