/**
 Bitwise operators on natural numbers, as Python's unbounded integers have them.
 */
module BitOps {
  import opened BitArith

  /** `a | b`. */
  function BitOr(a: nat, b: nat): nat
    decreases a + b
  {
    if a == 0 && b == 0 then 0 else (if a % 2 == 1 || b % 2 == 1 then 1 else 0) + 2 * BitOr(a / 2, b / 2)
  }

  /** `a & b`. */
  function BitAnd(a: nat, b: nat): (r: nat)
    ensures r <= a
  {
    if a == 0 then 0 else (if a % 2 == 1 && b % 2 == 1 then 1 else 0) + 2 * BitAnd(a / 2, b / 2)
  }

  /** `a << k`. */
  function Shl(a: nat, k: nat): nat {
    if k == 0 then a else 2 * Shl(a, k - 1)
  }

  /** `a >> k`. */
  function Shr(a: nat, k: nat): nat {
    if k == 0 then a else Shr(a / 2, k - 1)
  }

  lemma {:induction false} OrBits(a: nat, b: nat, i: nat)
    ensures Bit(BitOr(a, b), i) == (Bit(a, i) || Bit(b, i))
    decreases i
  {
    ZeroHasNoBits(i);
    if (a != 0 || b != 0) && i > 0 {
      OrBits(a / 2, b / 2, i - 1);
    }
  }

  lemma {:induction false} AndBits(a: nat, b: nat, i: nat)
    ensures Bit(BitAnd(a, b), i) == (Bit(a, i) && Bit(b, i))
    decreases i
  {
    ZeroHasNoBits(i);
    if a != 0 && i > 0 {
      AndBits(a / 2, b / 2, i - 1);
    }
  }

  lemma {:induction false} ShlBits(a: nat, k: nat, i: nat)
    ensures Bit(Shl(a, k), i) == (i >= k && Bit(a, i - k))
    decreases k
  {
    if k > 0 && i > 0 {
      ShlBits(a, k - 1, i - 1);
    }
  }

  lemma {:induction false} ShrBits(a: nat, k: nat, i: nat)
    ensures Bit(Shr(a, k), i) == Bit(a, i + k)
    decreases k
  {
    if k > 0 {
      ShrBits(a / 2, k - 1, i);
    }
  }

  /** The digits of `(1 << n) - (1 << l)`. */
  lemma {:induction false} MaskBits(n: nat, l: nat, i: nat)
    requires l <= n
    ensures Pow2(l) <= Pow2(n)
    ensures Bit(Pow2(n) - Pow2(l), i) == (l <= i < n)
    decreases i
  {
    Pow2Monotone(l, n);
    if l == n {
      ZeroHasNoBits(i);
    } else if l > 0 {
      Pow2Monotone(l - 1, n - 1);
      assert (Pow2(n) - Pow2(l)) / 2 == Pow2(n - 1) - Pow2(l - 1);
      if i > 0 {
        MaskBits(n - 1, l - 1, i - 1);
      }
    } else {
      assert (Pow2(n) - 1) / 2 == Pow2(n - 1) - 1;
      if i > 0 {
        MaskBits(n - 1, 0, i - 1);
      }
    }
  }

  lemma {:induction false} HighBitsClear(a: nat, n: nat, i: nat)
    requires a < Pow2(n) && i >= n
    ensures !Bit(a, i)
    decreases n
  {
    if n == 0 {
      ZeroHasNoBits(i);
    } else {
      HighBitsClear(a / 2, n - 1, i - 1);
    }
  }

  /** Numbers without high digits are small. */
  lemma {:induction false} BitsBound(a: nat, n: nat)
    requires forall i: nat | i >= n :: !Bit(a, i)
    ensures a < Pow2(n)
    decreases a
  {
    if a > 0 && n > 0 {
      forall i: nat | i >= n - 1 ensures !Bit(a / 2, i) {
        assert !Bit(a, i + 1);
      }
      BitsBound(a / 2, n - 1);
    } else if a > 0 {
      forall i: nat ensures !Bit(a / 2, i) {
        assert !Bit(a, i + 1);
      }
      BitsBound(a / 2, 0);
      assert !Bit(a, 0);
    }
  }
}
