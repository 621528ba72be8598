/**
 Powers of two and the binary digits of natural numbers, as Python's unbounded
 integers have them.
 */
module BitArith {

  function Pow2(n: nat): (p: nat)
    ensures p > 0
  {
    if n == 0 then 1 else 2 * Pow2(n - 1)
  }

  /** Whether digit `i` of `x` is set, i.e. `(x >> i) & 1`. */
  predicate Bit(x: nat, i: nat) {
    if i == 0 then x % 2 == 1 else Bit(x / 2, i - 1)
  }

  lemma Pow2Monotone(a: nat, b: nat)
    requires a <= b
    ensures Pow2(a) <= Pow2(b)
    decreases b - a
  {
    if a < b {
      Pow2Monotone(a + 1, b);
    }
  }

  lemma {:induction false} Pow2Add(a: nat, b: nat)
    ensures Pow2(a + b) == Pow2(a) * Pow2(b)
  {
    if b > 0 {
      Pow2Add(a, b - 1);
      assert Pow2(a + b) == 2 * Pow2(a + b - 1);
    }
  }

  lemma QuotientIs(x: nat, d: nat, q: nat, r: nat)
    requires d > 0 && x == r + d * q && r < d
    ensures x / d == q && x % d == r
  {
    var p := x / d;
    assert x == p * d + x % d;
    assert d * q == q * d;
    if p > q {
      MulMonotone(q + 1, p, d);
    } else if p < q {
      MulMonotone(p + 1, q, d);
    }
  }

  /** Adding a fresh power of two to a smaller number sets one digit and no other. */
  lemma {:induction false} BitOfSum(a: nat, p: nat, i: nat)
    requires a < Pow2(p)
    ensures Bit(a + Pow2(p), i) == (i == p || Bit(a, i))
    ensures i >= p ==> !Bit(a, i)
  {
    if p == 0 {
      ZeroHasNoBits(i);
      if i > 0 {
        ZeroHasNoBits(i - 1);
      }
    } else if i > 0 {
      assert (a + Pow2(p)) / 2 == a / 2 + Pow2(p - 1);
      BitOfSum(a / 2, p - 1, i - 1);
    }
  }

  lemma ZeroHasNoBits(i: nat)
    ensures !Bit(0, i)
  {}

  /** Rounding-up integer division, Python's `int(math.ceil(float(a) / m))` on exact quotients. */
  function CeilDiv(a: nat, m: nat): (q: nat)
    requires m > 0
    ensures a <= q * m < a + m
  {
    CeilDivBound(a, m);
    (a + m - 1) / m
  }

  lemma CeilDivBound(a: nat, m: nat)
    requires m > 0
    ensures a <= (a + m - 1) / m * m < a + m
  {
    var x := a + m - 1;
    assert x == x / m * m + x % m;
  }

  lemma MulMonotone(a: nat, b: nat, m: nat)
    requires a <= b
    ensures a * m <= b * m
  {}

  /** The quotient is the least `q` with `a <= q * m`. */
  lemma CeilDivLeast(a: nat, m: nat, q: nat)
    requires m > 0 && a <= q * m
    ensures CeilDiv(a, m) <= q
  {
    if CeilDiv(a, m) > q {
      MulMonotone(q + 1, CeilDiv(a, m), m);
    }
  }

  /** Small numbers with the same binary digits are equal. */
  lemma {:induction false} BitsDetermine(a: nat, b: nat, n: nat)
    requires a < Pow2(n) && b < Pow2(n)
    requires forall i: nat | i < n :: Bit(a, i) == Bit(b, i)
    ensures a == b
  {
    if n > 0 {
      forall i: nat | i < n - 1 ensures Bit(a / 2, i) == Bit(b / 2, i) {
        assert Bit(a, i + 1) == Bit(b, i + 1);
      }
      BitsDetermine(a / 2, b / 2, n - 1);
      assert Bit(a, 0) == Bit(b, 0);
    }
  }

  lemma DivideTwice(x: nat, p: nat) returns (t: nat)
    requires p > 0
    ensures x == x % (2 * p) + 2 * t && x % (2 * p) / 2 == x / 2 % p
  {
    var q, r := x / 2 / p, x / 2 % p;
    t := p * q;
    assert x / 2 == t + r;
    assert 2 * p * q == 2 * t;
    QuotientIs(x, 2 * p, q, 2 * r + x % 2);
  }

  /** Remainders by powers of two keep the low digits. */
  lemma {:induction false} BitOfRemainder(x: nat, n: nat, i: nat)
    requires i < n
    ensures Bit(x % Pow2(n), i) == Bit(x, i)
  {
    var t := DivideTwice(x, Pow2(n - 1));
    if i > 0 {
      BitOfRemainder(x / 2, n - 1, i - 1);
    }
  }

  /** A digit by division. */
  lemma {:induction false} BitIsDigit(x: nat, k: nat)
    ensures Bit(x, k) <==> x / Pow2(k) % 2 == 1
  {
    if k > 0 {
      BitIsDigit(x / 2, k - 1);
      DivideFurther(x, Pow2(k - 1));
    }
  }

  lemma DivideFurther(x: nat, p: nat)
    requires p > 0
    ensures x / (2 * p) == x / 2 / p
  {
    var q, r := x / 2 / p, x / 2 % p;
    assert x / 2 == p * q + r;
    assert 2 * p * q == 2 * (p * q);
    QuotientIs(x, 2 * p, q, 2 * r + x % 2);
  }

  lemma HalveQuotient(x: nat, p: nat)
    requires p > 0
    ensures x / (2 * p) == x / p / 2
  {
    var q, r := x / p, x % p;
    var half := q / 2;
    assert x == p * q + r;
    assert q == 2 * half || q == 2 * half + 1;
    assert p * (2 * half) == 2 * p * half;
    if q == 2 * half {
      QuotientIs(x, 2 * p, half, r);
    } else {
      assert p * (2 * half + 1) == p * (2 * half) + p;
      QuotientIs(x, 2 * p, half, p + r);
    }
  }
}
