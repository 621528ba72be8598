/**
 The Hamming matrix generator, and exactly when its circuits correct single and
 detect double errors.
 */
module HammingCode {
  import opened BitArith
  import opened BitOps
  import opened Words
  import opened SecdedCircuit
  import opened HsiaoCode

  predicate IsPow2(n: nat) {
    n != 0 && BitAnd(n, n - 1) == 0
  }

  lemma {:induction false} BitAndSelf(a: nat)
    ensures BitAnd(a, a) == a
  {
    if a > 0 {
      BitAndSelf(a / 2);
    }
  }

  lemma IsPow2Odd(n: nat)
    requires n % 2 == 1
    ensures IsPow2(n) <==> n == 1
  {
    BitAndSelf(n / 2);
    assert (n - 1) / 2 == n / 2 && (n - 1) % 2 == 0;
    assert BitAnd(n, n - 1) == 2 * (n / 2);
  }

  lemma IsPow2Even(n: nat)
    requires n % 2 == 0 && n > 0
    ensures IsPow2(n) <==> IsPow2(n / 2)
  {
    assert (n - 1) / 2 == n / 2 - 1;
    assert BitAnd(n, n - 1) == 2 * BitAnd(n / 2, n / 2 - 1);
  }

  lemma {:induction false} Pow2IsPow2(p: nat)
    ensures IsPow2(Pow2(p))
  {
    if p == 0 {
      IsPow2Odd(1);
    } else {
      Pow2IsPow2(p - 1);
      IsPow2Even(Pow2(p));
    }
  }

  lemma {:induction false} IsPow2Exponent(n: nat) returns (p: nat)
    requires IsPow2(n)
    ensures n == Pow2(p)
  {
    if n % 2 == 1 {
      IsPow2Odd(n);
      p := 0;
    } else {
      IsPow2Even(n);
      p := IsPow2Exponent(n / 2);
      p := p + 1;
    }
  }

  /** The bit trick tests exactly for powers of two. */
  lemma IsPow2Exact(n: nat)
    ensures IsPow2(n) <==> exists p: nat :: n == Pow2(p)
  {
    if IsPow2(n) {
      var p := IsPow2Exponent(n);
    }
    if p: nat :| n == Pow2(p) {
      Pow2IsPow2(p);
    }
  }

  /** The parity bits that cover position `pos`; the last one covers everything. */
  function HammingRow(pos: nat, m: nat): Row {
    set p | 0 <= p < m && (Bit(pos, p) || p == m - 1)
  }

  /** The data positions below `n`: those that are not a power of two. */
  function DataPositions(n: nat): seq<nat> {
    if n <= 1 then []
    else DataPositions(n - 1) + if IsPow2(n - 1) then [] else [n - 1]
  }

  function RowsAt(positions: seq<nat>, m: nat): seq<Row> {
    seq(|positions|, i requires 0 <= i < |positions| => HammingRow(positions[i], m))
  }

  /** Data rows, then `m - 1` rows that make the last parity bit cover the other parity bits. */
  function HammingCodes(n: nat, m: nat): (codes: seq<Row>)
    requires m >= 1
  {
    RowsAt(DataPositions(n), m) + Copies({m - 1}, m - 1)
  }

  function Copies(c: Row, t: nat): seq<Row> {
    if t == 0 then [] else Copies(c, t - 1) + [c]
  }

  lemma CopiesCount(c: Row, t: nat)
    ensures |Copies(c, t)| == t && forall d <- Copies(c, t) :: d == c
  {}

  /** Rounding down to a multiple and dividing is dividing. */
  lemma RoundedQuotient(x: nat, b: nat)
    requires b > 0
    ensures (x - x % b) / b == x / b
  {
    assert x - x % b == x / b * b;
    QuotientOfMultiple(x / b, b);
  }

  lemma {:induction false} ShiftedDigit(x: nat, p: nat)
    ensures (x / Pow2(p)) % 2 == 1 <==> Bit(x, p)
  {
    if p > 0 {
      ShiftedDigit(x / 2, p - 1);
      HalveFirst(x, Pow2(p - 1));
    }
  }

  lemma QuotientOfMultiple(q: nat, b: nat)
    requires b > 0
    ensures q * b / b == q
  {
    QuotientUnique(q * b, b, q, 0);
  }

  lemma HalveFirst(x: nat, b: nat)
    requires b > 0
    ensures x / (2 * b) == (x / 2) / b
  {
    var q, r := (x / 2) / b, (x / 2) % b;
    assert x / 2 == q * b + r;
    assert x == q * (2 * b) + (2 * r + x % 2);
    QuotientUnique(x, 2 * b, q, 2 * r + x % 2);
  }

  lemma QuotientUnique(x: nat, d: nat, q: nat, r: nat)
    requires d > 0 && x == q * d + r && r < d
    ensures x / d == q
  {
    var q', r' := x / d, x % d;
    assert x == q' * d + r';
    if q' < q {
      MulMonotone(q' + 1, q, d);
    } else if q' > q {
      MulMonotone(q + 1, q', d);
    }
  }

  /** `hamming_code`. */
  method GenerateHamming(n: nat, m: nat) returns (codes: seq<Row>)
    requires m >= 1
    ensures codes == HammingCodes(n, m)
  {
    codes := [];
    for pos := 1 to n + 1
      invariant codes == RowsAt(DataPositions(if pos <= n then pos else n), m)
    {
      if IsPow2(pos) || pos == n {
        continue;
      }
      var code: Row := {};
      for p := 0 to m
        invariant code == set q | 0 <= q < p && (Bit(pos, q) || q == m - 1)
      {
        var parityPos := Pow2(p);
        var parityChk := (pos - pos % parityPos) / parityPos;
        RoundedQuotient(pos, parityPos);
        ShiftedDigit(pos, p);
        if parityChk % 2 > 0 || p == m - 1 {
          code := code + {p};
        }
      }
      assert code == HammingRow(pos, m);
      codes := codes + [code];
    }
    ghost var data := codes;
    for p := 0 to m - 1
      invariant codes == data + Copies({m - 1}, p)
    {
      codes := codes + [{m - 1}];
    }
  }

  // ---------- How many data rows there are ----------

  /** The number of powers of two below `n`. */
  ghost function PowersBelow(n: nat): nat {
    if n <= 1 then 0 else PowersBelow(n - 1) + if IsPow2(n - 1) then 1 else 0
  }

  lemma {:induction false} PositionsSplit(n: nat)
    requires n >= 1
    ensures |DataPositions(n)| + PowersBelow(n) == n - 1
  {
    if n > 1 {
      PositionsSplit(n - 1);
    }
  }

  lemma Pow2Strict(a: nat, b: nat)
    requires a < b
    ensures Pow2(a) < Pow2(b)
  {
    Pow2Monotone(a + 1, b);
  }

  /** There are `c` powers of two below `n` exactly when `n` lies between the last one and the next. */
  lemma {:induction false} PowersBelowCount(n: nat, c: nat)
    requires n >= 1 && n <= Pow2(c) && (c > 0 ==> Pow2(c - 1) < n)
    ensures PowersBelow(n) == c
  {
    if n > 1 {
      IsPow2Exact(n - 1);
      if c > 0 && n - 1 == Pow2(c - 1) {
        if c > 1 {
          Pow2Strict(c - 2, c - 1);
        }
        PowersBelowCount(n - 1, c - 1);
      } else {
        if exists p: nat :: n - 1 == Pow2(p) {
          var p: nat :| n - 1 == Pow2(p);
          if p >= c {
            Pow2Monotone(c, p);
          } else {
            Pow2Monotone(p, c - 1);
          }
        }
        PowersBelowCount(n - 1, c);
      }
    }
  }

  lemma SomePower(n: nat) returns (c: nat)
    requires n >= 1
    ensures n <= Pow2(c) && (c > 0 ==> Pow2(c - 1) < n)
  {
    c := 0;
    while Pow2(c) < n
      invariant c > 0 ==> Pow2(c - 1) < n
      decreases n - Pow2(c)
    {
      c := c + 1;
    }
  }

  /** With enough parity bits, exactly `k` positions carry data iff the parity size is not too large. */
  lemma DataCount(k: nat, m: nat)
    requires m >= 2 && Pow2(m - 1) >= k + m
    ensures |DataPositions(k + m)| >= k
    ensures |DataPositions(k + m)| == k <==> Pow2(m - 2) < k + m
  {
    var n := k + m;
    PositionsSplit(n);
    var c := SomePower(n);
    PowersBelowCount(n, c);
    if c > m - 1 {
      Pow2Monotone(m - 1, c - 1);
    } else if c < m - 1 {
      Pow2Monotone(c, m - 2);
    }
  }

  // ---------- Columns ----------

  lemma {:induction false} PositionsIncrease(n: nat)
    ensures forall i | 0 <= i < |DataPositions(n)| :: 0 < DataPositions(n)[i] < n && !IsPow2(DataPositions(n)[i])
    ensures forall i, j | 0 <= i < j < |DataPositions(n)| :: DataPositions(n)[i] < DataPositions(n)[j]
  {
    if n > 1 {
      PositionsIncrease(n - 1);
    }
  }

  /** The code position behind word bit `i`: its data position, its power of two, or none. */
  ghost function ColumnPosition(k: nat, m: nat, i: nat): nat
    requires |DataPositions(k + m)| == k && i < k + m
  {
    if i < k then DataPositions(k + m)[i]
    else if i < k + m - 1 then Pow2(i - k)
    else 0
  }

  lemma ColumnPositionsDiffer(k: nat, m: nat, i: nat, i': nat)
    requires |DataPositions(k + m)| == k && i < i' < k + m
    ensures ColumnPosition(k, m, i) != ColumnPosition(k, m, i')
  {
    PositionsIncrease(k + m);
    if i < k <= i' < k + m - 1 {
      Pow2IsPow2(i' - k);
    } else if k <= i && i' < k + m - 1 {
      Pow2Strict(i - k, i' - k);
    }
  }

  lemma ColumnPositionBound(k: nat, m: nat, i: nat)
    requires |DataPositions(k + m)| == k && i < k + m && m >= 2 && Pow2(m - 1) >= k + m
    ensures ColumnPosition(k, m, i) < Pow2(m - 1)
  {
    PositionsIncrease(k + m);
    if k <= i < k + m - 1 {
      Pow2Strict(i - k, m - 1);
    }
  }

  lemma RowsDetermine(a: nat, b: nat, m: nat)
    requires m >= 1 && a < Pow2(m - 1) && b < Pow2(m - 1)
    requires RowWord(HammingRow(a, m), m) == RowWord(HammingRow(b, m), m)
    ensures a == b
  {
    forall i: nat | i < m - 1 ensures Bit(a, i) == Bit(b, i) {
      assert RowWord(HammingRow(a, m), m)[i] == RowWord(HammingRow(b, m), m)[i];
    }
    BitsDetermine(a, b, m - 1);
  }

  lemma {:induction false} BitOfPow2(p: nat, i: nat)
    ensures Bit(Pow2(p), i) == (i == p)
  {
    BitOfSum(0, p, i);
    ZeroHasNoBits(i);
  }

  /** A row list mentions `j` only below `k` iff its mask is a `k`-bit number; here the tail adds nothing. */
  lemma MaskSumTail(data: seq<Row>, c: Row, t: nat, j: nat)
    requires j !in c
    ensures MaskSum(data + Copies(c, t), j) == MaskSum(data, j)
  {
    var all := data + Copies(c, t);
    if t == 0 {
      assert all == data;
    } else {
      assert all[..|all| - 1] == data + Copies(c, t - 1);
      MaskSumTail(data, c, t - 1, j);
    }
  }

  /** Every row takes part in the last parity bit. */
  lemma LastParityCoversAll(n: nat, m: nat)
    requires m >= 1
    ensures |HammingCodes(n, m)| == |DataPositions(n)| + m - 1
    ensures forall c <- HammingCodes(n, m) :: m - 1 in c
  {
    CopiesCount({m - 1}, m - 1);
    forall i | 0 <= i < |DataPositions(n)| ensures m - 1 in RowsAt(DataPositions(n), m)[i] {
      assert m - 1 in HammingRow(DataPositions(n)[i], m);
    }
  }

  /** The digits of the mask of parity bit `j`. */
  lemma HammingMaskBits(k: nat, m: nat, j: nat, i: nat)
    requires m >= 2 && |DataPositions(k + m)| == k && j < m && i < k + m
    ensures var mask := MaskSum(HammingCodes(k + m, m), j);
      && mask < Pow2(k + j)
      && Bit(mask, i) == if j == m - 1 then i < k + m - 1 else i < k && Bit(DataPositions(k + m)[i], j)
  {
    var data, codes := RowsAt(DataPositions(k + m), m), HammingCodes(k + m, m);
    if j == m - 1 {
      LastParityCoversAll(k + m, m);
      MaskSumBits(codes, j);
      assert i < |codes| ==> codes[i] in codes;
    } else {
      MaskSumTail(data, {m - 1}, m - 1, j);
      MaskSumBits(data, j);
      Pow2Monotone(k, k + j);
    }
  }

  lemma HammingDecBits(k: nat, m: nat, j: nat, i: nat)
    requires m >= 2 && |DataPositions(k + m)| == k && j < m && i < k + m
    ensures var codes := HammingCodes(k + m, m);
      Bit(Masks(k, m, codes, true)[j], i) == (i == k + j || Bit(Masks(k, m, codes, false)[j], i))
  {
    HammingMaskBits(k, m, j, i);
    BitOfSum(MaskSum(HammingCodes(k + m, m), j), k + j, i);
  }

  lemma HammingColumns(k: nat, m: nat)
    requires m >= 2 && |DataPositions(k + m)| == k
    ensures var codes := HammingCodes(k + m, m);
      && Systematic(k, Masks(k, m, codes, false), Masks(k, m, codes, true))
      && forall i | 0 <= i < k + m ::
        Column(Masks(k, m, codes, true), i) == RowWord(HammingRow(ColumnPosition(k, m, i), m), m)
  {
    var codes := HammingCodes(k + m, m);
    var enc, dec := Masks(k, m, codes, false), Masks(k, m, codes, true);
    forall j, i | 0 <= j < m && k + j <= i < k + m ensures !Bit(enc[j], i) {
      HammingMaskBits(k, m, j, i);
    }
    forall j, i | 0 <= j < m && 0 <= i < k + m ensures Bit(dec[j], i) == (i == k + j || Bit(enc[j], i)) {
      HammingDecBits(k, m, j, i);
    }
    forall i | 0 <= i < k + m ensures Column(dec, i) == RowWord(HammingRow(ColumnPosition(k, m, i), m), m) {
      forall j | 0 <= j < m ensures Column(dec, i)[j] == (Bit(ColumnPosition(k, m, i), j) || j == m - 1) {
        HammingMaskBits(k, m, j, i);
        HammingDecBits(k, m, j, i);
        if k <= i < k + m - 1 {
          BitOfPow2(i - k, j);
        } else if i == k + m - 1 {
          ZeroHasNoBits(j);
        }
      }
    }
  }

  lemma ColumnsDiffer(k: nat, m: nat, i: nat, i': nat)
    requires m >= 2 && Pow2(m - 1) >= k + m && |DataPositions(k + m)| == k && i < i' < k + m
    ensures RowWord(HammingRow(ColumnPosition(k, m, i), m), m) != RowWord(HammingRow(ColumnPosition(k, m, i'), m), m)
  {
    var a, b := ColumnPosition(k, m, i), ColumnPosition(k, m, i');
    ColumnPositionBound(k, m, i);
    ColumnPositionBound(k, m, i');
    ColumnPositionsDiffer(k, m, i, i');
    if RowWord(HammingRow(a, m), m) == RowWord(HammingRow(b, m), m) {
      RowsDetermine(a, b, m);
    }
  }

  lemma RowMarked(position: nat, m: nat)
    requires m >= 1
    ensures Marker(Hamming, RowWord(HammingRow(position, m), m))
  {
    assert m - 1 in HammingRow(position, m);
  }

  /** The columns meet the condition under which a code is SECDED. */
  lemma HammingColumnsGood(k: nat, m: nat)
    requires m >= 2 && Pow2(m - 1) >= k + m && |DataPositions(k + m)| == k
    requires |HammingCodes(k + m, m)| >= k
    requires forall i | 0 <= i < k :: HammingCodes(k + m, m)[i] == HammingRow(ColumnPosition(k, m, i), m)
    ensures GoodColumns(k, m, HammingCodes(k + m, m), Hamming)
  {
    var codes := HammingCodes(k + m, m);
    HammingColumns(k, m);
    forall i, i' | 0 <= i < i' < k + m
      ensures Column(Masks(k, m, codes, true), i) != Column(Masks(k, m, codes, true), i')
    {
      ColumnsDiffer(k, m, i, i');
    }
    forall i | 0 <= i < k + m ensures Marker(Hamming, Column(Masks(k, m, codes, true), i)) {
      RowMarked(ColumnPosition(k, m, i), m);
    }
    forall i | 0 <= i < k ensures Value(Column(Masks(k, m, codes, true), i)) == RowValue(codes[i], m) {
      RowWordValue(codes[i], m);
    }
  }

  /** With exactly `k` data positions the Hamming code is SECDED. */
  lemma HammingGood(k: nat, m: nat)
    requires m >= 2 && Pow2(m - 1) >= k + m && |DataPositions(k + m)| == k
    ensures |HammingCodes(k + m, m)| == k + m - 1
    ensures Secded(k, m, HammingCodes(k + m, m), Hamming)
  {
    LastParityCoversAll(k + m, m);
    HammingColumns(k, m);
    HammingColumnsGood(k, m);
    GoodColumnsAreSecded(k, m, HammingCodes(k + m, m), Hamming);
  }

  // ---------- A parity size that is too large ----------

  lemma {:induction false} FullMask(codes: seq<Row>, j: nat)
    requires forall c <- codes :: j in c
    ensures MaskSum(codes, j) == Pow2(|codes|) - 1
  {
    if |codes| > 0 {
      FullMask(codes[..|codes| - 1], j);
      assert codes[|codes| - 1] in codes;
    }
  }

  /** With surplus data rows, the carry clears the last check's own bit. */
  lemma LastCheckMissesItself(k: nat, m: nat)
    requires m >= 1 && |DataPositions(k + m)| > k
    ensures !Bit(Masks(k, m, HammingCodes(k + m, m), true)[m - 1], k + m - 1)
  {
    var codes := HammingCodes(k + m, m);
    LastParityCoversAll(k + m, m);
    FullMask(codes, m - 1);
    CarryClears(k + m - 1, |codes|);
    assert Masks(k, m, codes, true)[m - 1] == Pow2(|codes|) - 1 + Pow2(k + m - 1);
  }

  /** Adding a bit to ones that reach over it clears the bit. */
  lemma CarryClears(p: nat, n: nat)
    requires n > p
    ensures !Bit(Pow2(n) - 1 + Pow2(p), p)
  {
    Pow2Monotone(p, n);
    BitOfSum(Pow2(p) - 1, n, p);
    BitOfSum(Pow2(p) - 1, p, p);
  }

  /** Then flipping the last parity bit leaves `err_o[0]` as it is, so the code is not SECDED. */
  lemma SurplusRowsFail(k: nat, m: nat)
    requires m >= 1 && |DataPositions(k + m)| > k
    ensures |HammingCodes(k + m, m)| >= k
    ensures !Secded(k, m, HammingCodes(k + m, m), Hamming)
  {
    var n, codes := k + m, HammingCodes(k + m, m);
    var data, e := Zero(k), Unit(n, n - 1);
    var out := Encode(k, m, codes, data);
    LastCheckMissesItself(k, m);
    MaskParityAgree(Xor(out, e), Xor(out, Zero(n)), Masks(k, m, codes, true)[m - 1]);
    WeightZero(Zero(n));
    UnitWeight(n, n - 1);
    if Decode(k, m, codes, Hamming, Xor(out, e)).err0 {
      assert !AssertionsHold(k, m, codes, Hamming, data, Zero(n));
    } else {
      assert !AssertionsHold(k, m, codes, Hamming, data, e);
    }
  }

  lemma UnitWeight(n: nat, i: nat)
    requires i < n
    ensures Weight(Unit(n, i)) == 1
  {
    if i == n - 1 {
      assert Unit(n, i)[..n - 1] == Zero(n - 1);
      WeightZero(Zero(n - 1));
    } else {
      assert Unit(n, i)[..n - 1] == Unit(n - 1, i);
      UnitWeight(n - 1, i);
    }
  }

  /**
   For every parity size the tool accepts, the Hamming circuits are SECDED if and
   only if the position of the last proper parity bit is within the word.
   */
  lemma HammingSecdedExactly(k: nat, m: nat)
    requires MinParity(k) != -1 && m >= MinParity(k)
    ensures |HammingCodes(k + m, m)| >= k
    ensures Secded(k, m, HammingCodes(k + m, m), Hamming) <==> Pow2(m - 2) < k + m
  {
    ParitySizeSuffices(k, m);
    DataCount(k, m);
    if Pow2(m - 2) < k + m {
      HammingGood(k, m);
    } else {
      SurplusRowsFail(k, m);
    }
  }

  /** At the tool's own parity size the Hamming code has `k` data rows and is SECDED. */
  lemma HammingSecded(k: nat, m: nat)
    requires MinParity(k) != -1 && m == MinParity(k)
    ensures |DataPositions(k + m)| == k
    ensures |HammingCodes(k + m, m)| == k + m - 1
    ensures Secded(k, m, HammingCodes(k + m, m), Hamming)
  {
    MinParityFromLeast(k, 2);
    ParitySizeSuffices(k, m);
    assert m > 3 ==> Pow2(m - 2) < k + m;
    assert m == 3 ==> Pow2(m - 2) == 2;
    DataCount(k, m);
    HammingGood(k, m);
  }

  /** A larger parity size that the tool accepts, for which the claim fails: k = 2, m = 5. */
  lemma LargerParityCanFail()
    ensures MinParity(2) == 4 && !Secded(2, 5, HammingCodes(7, 5), Hamming)
  {
    assert Pow2(2) == 4 && Pow2(3) == 8;
    assert MinParityFrom(2, 3) == 4;
    assert MinParityFrom(2, 2) == 4;
    HammingSecdedExactly(2, 5);
  }
}
