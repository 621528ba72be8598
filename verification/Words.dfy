/**
 Fixed-width words of bits, with the SystemVerilog operators that the generated
 circuits use: bitwise exclusive-or, masking with a constant, and the reduction
 operators `^` and `|`.
 */
module Words {
  import opened BitArith

  type Word = seq<bool>

  function Zero(n: nat): Word {
    seq(n, _ => false)
  }

  /** The word with bit `i` set and no other. */
  function Unit(n: nat, i: nat): Word {
    seq(n, j => j == i)
  }

  function Xor(a: Word, b: Word): Word
    requires |a| == |b|
  {
    seq(|a|, i requires 0 <= i < |a| => a[i] != b[i])
  }

  function And(w: Word, mask: nat): Word {
    seq(|w|, i requires 0 <= i < |w| => w[i] && Bit(mask, i))
  }

  /** The reduction operator `^w`. */
  predicate RedXor(w: Word) {
    |w| > 0 && RedXor(w[..|w| - 1]) != w[|w| - 1]
  }

  /** The reduction operator `|w`. */
  predicate RedOr(w: Word) {
    exists i :: 0 <= i < |w| && w[i]
  }

  /** `$countones(w)`. */
  function Weight(w: Word): nat {
    if |w| == 0 then 0 else Weight(w[..|w| - 1]) + (if w[|w| - 1] then 1 else 0)
  }

  /** The unsigned number that the word denotes, bit 0 least significant. */
  function Value(w: Word): nat {
    if |w| == 0 then 0 else Value(w[..|w| - 1]) + (if w[|w| - 1] then Pow2(|w| - 1) else 0)
  }

  /** `^(w & mask)`. */
  predicate MaskParity(w: Word, mask: nat) {
    RedXor(And(w, mask))
  }

  lemma {:induction false} RedXorLinear(a: Word, b: Word)
    requires |a| == |b|
    ensures RedXor(Xor(a, b)) == (RedXor(a) != RedXor(b))
  {
    if |a| > 0 {
      var n := |a| - 1;
      assert Xor(a, b)[..n] == Xor(a[..n], b[..n]);
      RedXorLinear(a[..n], b[..n]);
    }
  }

  lemma MaskParityLinear(a: Word, b: Word, mask: nat)
    requires |a| == |b|
    ensures MaskParity(Xor(a, b), mask) == (MaskParity(a, mask) != MaskParity(b, mask))
  {
    assert And(Xor(a, b), mask) == Xor(And(a, mask), And(b, mask));
    RedXorLinear(And(a, mask), And(b, mask));
  }

  lemma {:induction false} RedXorZero(n: nat)
    ensures !RedXor(Zero(n))
  {
    if n > 0 {
      assert Zero(n)[..n - 1] == Zero(n - 1);
      RedXorZero(n - 1);
    }
  }

  lemma {:induction false} RedXorUnit(n: nat, i: nat)
    requires i < n
    ensures RedXor(Unit(n, i))
  {
    if i == n - 1 {
      assert Unit(n, i)[..n - 1] == Zero(n - 1);
      RedXorZero(n - 1);
    } else {
      assert Unit(n, i)[..n - 1] == Unit(n - 1, i);
      RedXorUnit(n - 1, i);
    }
  }

  lemma MaskParityUnit(n: nat, i: nat, mask: nat)
    requires i < n
    ensures MaskParity(Unit(n, i), mask) == Bit(mask, i)
  {
    if Bit(mask, i) {
      assert And(Unit(n, i), mask) == Unit(n, i);
      RedXorUnit(n, i);
    } else {
      assert And(Unit(n, i), mask) == Zero(n);
      RedXorZero(n);
    }
  }

  /** A masked parity depends on the selected bits only. */
  lemma MaskParityAgree(a: Word, b: Word, mask: nat)
    requires |a| == |b|
    requires forall i :: 0 <= i < |a| && Bit(mask, i) ==> a[i] == b[i]
    ensures MaskParity(a, mask) == MaskParity(b, mask)
  {
    assert And(a, mask) == And(b, mask);
  }

  lemma {:induction false} WeightZero(w: Word)
    ensures Weight(w) == 0 <==> w == Zero(|w|)
  {
    if |w| > 0 {
      var n := |w| - 1;
      WeightZero(w[..n]);
      assert w == w[..n] + [w[n]];
      assert Zero(|w|) == Zero(n) + [false];
    }
  }

  /** A word of weight one is a unit word. */
  lemma {:induction false} WeightOne(w: Word) returns (i: nat)
    requires Weight(w) == 1
    ensures i < |w| && w == Unit(|w|, i)
  {
    var n := |w| - 1;
    assert w == w[..n] + [w[n]];
    if w[n] {
      i := n;
      WeightZero(w[..n]);
      assert w == Unit(|w|, i);
    } else {
      i := WeightOne(w[..n]);
      assert w == Unit(|w|, i);
    }
  }

  /** A word of weight two is the sum of two different unit words. */
  lemma {:induction false} WeightTwo(w: Word) returns (i: nat, j: nat)
    requires Weight(w) == 2
    ensures i < j < |w| && w == Xor(Unit(|w|, i), Unit(|w|, j))
  {
    var n := |w| - 1;
    assert w == w[..n] + [w[n]];
    if w[n] {
      i := WeightOne(w[..n]);
      j := n;
    } else {
      i, j := WeightTwo(w[..n]);
    }
    assert w == Xor(Unit(|w|, i), Unit(|w|, j));
  }

  lemma {:induction false} ValueBits(w: Word)
    ensures Value(w) < Pow2(|w|)
    ensures forall i: nat :: Bit(Value(w), i) == (i < |w| && w[i])
  {
    if |w| == 0 {
      forall i: nat ensures !Bit(0, i) {
        ZeroHasNoBits(i);
      }
    } else {
      var n := |w| - 1;
      ValueBits(w[..n]);
      forall i: nat ensures Bit(Value(w), i) == (i < |w| && w[i]) {
        BitOfSum(Value(w[..n]), n, i);
        if i < n {
          assert w[..n][i] == w[i];
        }
      }
    }
  }

  /** Words of one width are equal when their values are. */
  lemma ValueInjective(a: Word, b: Word)
    requires |a| == |b| && Value(a) == Value(b)
    ensures a == b
  {
    ValueBits(a);
    ValueBits(b);
    forall i | 0 <= i < |a| ensures a[i] == b[i] {
      assert Bit(Value(a), i) == a[i];
      assert Bit(Value(b), i) == b[i];
    }
  }

  /** The low part of a word counts as it is, the high part behind it. */
  lemma {:induction false} ValueConcat(a: Word, b: Word)
    ensures Value(a + b) == Value(a) + Pow2(|a|) * Value(b)
  {
    if |b| == 0 {
      assert a + b == a;
    } else {
      var n := |b| - 1;
      assert (a + b)[..|a| + n] == a + b[..n];
      ValueConcat(a, b[..n]);
      Pow2Add(|a|, n);
      if b[n] {
        Distribute(Pow2(|a|), Value(b[..n]), Pow2(n));
      }
    }
  }

  lemma Distribute(a: nat, b: nat, c: nat)
    ensures a * (b + c) == a * b + a * c
  {}

  /** Cutting a word is division with remainder. */
  lemma ValueParts(w: Word, k: nat)
    requires k <= |w|
    ensures Value(w[..k]) == Value(w) % Pow2(k) && Value(w[k..]) == Value(w) / Pow2(k)
  {
    assert w == w[..k] + w[k..];
    ValueConcat(w[..k], w[k..]);
    ValueBits(w[..k]);
    QuotientIs(Value(w), Pow2(k), Value(w[k..]), Value(w[..k]));
  }

  /** A bit of a word as a digit of its value. */
  lemma ValueDigit(w: Word, k: nat)
    requires k < |w|
    ensures Value(w) / Pow2(k) % 2 == (if w[k] then 1 else 0)
  {
    ValueParts(w, k);
    ValueParts(w[k..], 1);
    assert w[k..][..1] == [w[k]];
  }
}
