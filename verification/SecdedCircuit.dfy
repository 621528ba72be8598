/**
 The encoder and decoder that the generator emits for a list of code rows, and
 the condition on the rows under which the pair corrects every single error and
 detects every double error.
 */
module SecdedCircuit {
  import opened BitArith
  import opened Words

  /** A code tuple: the parity bits that one data bit takes part in. */
  type Row = set<nat>

  datatype CodeType = Hsiao | Hamming

  datatype Decoded = Decoded(d: Word, syndrome: Word, err0: bool, err1: bool)

  /** The sum of `2**x` over the elements `x < m` of a code tuple. */
  function RowValue(c: Row, m: nat): nat {
    if m == 0 then 0 else RowValue(c, m - 1) + (if m - 1 in c then Pow2(m - 1) else 0)
  }

  /** Sum of `1 << i` over the rows that mention parity bit `j`. */
  function MaskSum(codes: seq<Row>, j: nat): nat {
    if |codes| == 0 then 0
    else
      var n := |codes| - 1;
      MaskSum(codes[..n], j) + (if j in codes[n] then Pow2(n) else 0)
  }

  /** The mask of one parity bit, with the check bit itself for the decoder. */
  function MaskAt(k: nat, codes: seq<Row>, dec: bool, j: nat): nat {
    MaskSum(codes, j) + (if dec then Pow2(k + j) else 0)
  }

  /** The mask constants of the encoder, or of the decoder. */
  function Masks(k: nat, m: nat, codes: seq<Row>, dec: bool): (masks: seq<nat>) {
    seq(m, j requires 0 <= j => MaskAt(k, codes, dec, j))
  }

  method CalcSyndrome(code: Row, m: nat) returns (value: nat)
    requires forall x <- code :: x < m
    ensures value == RowValue(code, m)
    ensures forall i: nat :: Bit(value, i) == (i in code)
  {
    value := 0;
    for x := 0 to m
      invariant value == RowValue(code, x)
    {
      if x in code {
        value := value + Pow2(x);
      }
    }
    RowValueBits(code, m);
  }

  method CalcBitmasks(k: nat, m: nat, codes: seq<Row>, dec: bool) returns (faninMasks: seq<nat>)
    requires forall c <- codes, x <- c :: x < m
    ensures faninMasks == Masks(k, m, codes, dec)
  {
    faninMasks := seq(m, _ => 0);
    for i := 0 to |codes|
      invariant |faninMasks| == m
      invariant forall j | 0 <= j < m :: faninMasks[j] == MaskSum(codes[..i], j)
    {
      ghost var before := faninMasks;
      var rest := codes[i];
      while rest != {}
        invariant rest <= codes[i] && |faninMasks| == m
        invariant forall j | 0 <= j < m ::
          faninMasks[j] == before[j] + (if j in codes[i] && j !in rest then Pow2(i) else 0)
        decreases rest
      {
        var j :| j in rest;
        assert codes[i] in codes;
        rest := rest - {j};
        faninMasks := faninMasks[j := faninMasks[j] + Pow2(i)];
      }
      assert codes[..i + 1][..i] == codes[..i];
    }
    assert codes[..|codes|] == codes;
    if dec {
      for j := 0 to m
        invariant |faninMasks| == m
        invariant forall a | 0 <= a < m ::
          faninMasks[a] == MaskSum(codes, a) + (if a < j then Pow2(k + a) else 0)
      {
        faninMasks := faninMasks[j := faninMasks[j] + Pow2(k + j)];
      }
    }
  }

  // ---------- The emitted circuits ----------

  /** `out[j + k] = ^(out & mask)` for each mask from `j` on, in order. */
  function EncodeFrom(k: nat, masks: seq<nat>, out: Word, j: nat): (r: Word)
    requires j <= |masks| && k + |masks| <= |out|
    ensures |r| == |out|
    decreases |masks| - j
  {
    if j == |masks| then out
    else EncodeFrom(k, masks, out[k + j := MaskParity(out, masks[j])], j + 1)
  }

  /** The `p_encode` block: widen the data, then compute the parity bits in sequence. */
  function Encode(k: nat, m: nat, codes: seq<Row>, data: Word): (out: Word)
    requires |data| == k
    ensures |out| == k + m
  {
    EncodeFrom(k, Masks(k, m, codes, false), data + Zero(m), 0)
  }

  function Syndrome(masks: seq<nat>, w: Word): Word {
    seq(|masks|, j requires 0 <= j < |masks| => MaskParity(w, masks[j]))
  }

  /** The decoder's corrected output and error flags. */
  function Decode(k: nat, m: nat, codes: seq<Row>, codeType: CodeType, w: Word): Decoded
    requires |w| == k + m && k <= |codes| && m >= 1
  {
    var s := Syndrome(Masks(k, m, codes, true), w);
    var d := seq(k, i requires 0 <= i < k => (Value(s) == RowValue(codes[i], m)) != w[i]);
    match codeType
    case Hsiao => Decoded(d, s, RedXor(s), !RedXor(s) && RedOr(s))
    case Hamming => Decoded(d, s, s[m - 1], RedOr(s[..m - 1]) && !s[m - 1])
  }

  /** The assertions generated for formal verification of the pair, under an injected error. */
  ghost predicate AssertionsHold(k: nat, m: nat, codes: seq<Row>, codeType: CodeType, data: Word, error: Word)
    requires |data| == k && |error| == k + m && k <= |codes| && m >= 1
  {
    var r := Decode(k, m, codes, codeType, Xor(Encode(k, m, codes, data), error));
    && (Weight(error) == 1 <==> r.err0)
    && (Weight(error) == 2 <==> r.err1)
    && (Weight(error) < 2 ==> r.d == data)
    && (Weight(error) > 0 <==> RedOr(r.syndrome))
  }

  /** For every data word and at most two injected errors the assertions hold. */
  ghost predicate Secded(k: nat, m: nat, codes: seq<Row>, codeType: CodeType)
    requires k <= |codes| && m >= 1
  {
    forall data: Word, error: Word | |data| == k && |error| == k + m && Weight(error) <= 2 ::
      AssertionsHold(k, m, codes, codeType, data, error)
  }

  // ---------- What makes a list of rows a SECDED code ----------

  /** The check column of word bit `i`: the syndrome bits that it flips. */
  function Column(masks: seq<nat>, i: nat): Word {
    seq(|masks|, j requires 0 <= j < |masks| => Bit(masks[j], i))
  }

  /** The functional that tells single from double errors; linear in the syndrome. */
  predicate Marker(codeType: CodeType, s: Word)
    requires |s| >= 1
  {
    match codeType
    case Hsiao => RedXor(s)
    case Hamming => s[|s| - 1]
  }

  /** Each parity bit is computed from earlier bits, and the decoder checks exactly those and itself. */
  ghost predicate Systematic(k: nat, enc: seq<nat>, dec: seq<nat>)
  {
    && |enc| == |dec|
    && (forall j, i | 0 <= j < |enc| && k + j <= i < k + |enc| :: !Bit(enc[j], i))
    && (forall j, i | 0 <= j < |enc| && 0 <= i < k + |enc| :: Bit(dec[j], i) == (i == k + j || Bit(enc[j], i)))
  }

  /** Columns are pairwise different and all marked; data columns are what the decoder compares with. */
  ghost predicate GoodColumns(k: nat, m: nat, codes: seq<Row>, codeType: CodeType)
    requires k <= |codes| && m >= 1
  {
    var dec := Masks(k, m, codes, true);
    && (forall i | 0 <= i < k + m :: Marker(codeType, Column(dec, i)))
    && (forall i, h | 0 <= i < h < k + m :: Column(dec, i) != Column(dec, h))
    && (forall i | 0 <= i < k :: Value(Column(dec, i)) == RowValue(codes[i], m))
  }

  lemma SyndromeLinear(masks: seq<nat>, a: Word, b: Word)
    requires |a| == |b|
    ensures Syndrome(masks, Xor(a, b)) == Xor(Syndrome(masks, a), Syndrome(masks, b))
  {
    forall j | 0 <= j < |masks|
      ensures Syndrome(masks, Xor(a, b))[j] == Xor(Syndrome(masks, a), Syndrome(masks, b))[j]
    {
      MaskParityLinear(a, b, masks[j]);
    }
  }

  lemma SyndromeUnit(masks: seq<nat>, n: nat, i: nat)
    requires i < n
    ensures Syndrome(masks, Unit(n, i)) == Column(masks, i)
  {
    forall j | 0 <= j < |masks| ensures Syndrome(masks, Unit(n, i))[j] == Bit(masks[j], i) {
      MaskParityUnit(n, i, masks[j]);
    }
  }

  /** Later steps leave the bits below `k + j` alone, and each step stores its own parity. */
  lemma {:induction false} EncodeFromStores(k: nat, masks: seq<nat>, out: Word, j: nat)
    requires j <= |masks| && k + |masks| == |out|
    requires forall t, i | 0 <= t < |masks| && k + t <= i < k + |masks| :: !Bit(masks[t], i)
    ensures var r := EncodeFrom(k, masks, out, j);
      && r[..k + j] == out[..k + j]
      && forall t | j <= t < |masks| :: r[k + t] == MaskParity(r, masks[t])
    decreases |masks| - j
  {
    if j < |masks| {
      var next := out[k + j := MaskParity(out, masks[j])];
      EncodeFromStores(k, masks, next, j + 1);
      var r := EncodeFrom(k, masks, next, j + 1);
      assert r[k + j] == r[..k + j + 1][k + j] == next[k + j];
      forall i | 0 <= i < k + j ensures r[i] == out[i] {
        assert r[i] == r[..k + j + 1][i] == next[i];
      }
      MaskParityAgree(r, out, masks[j]);
    }
  }

  /** Adding a bit that was not selected to a mask adds that bit to the parity. */
  lemma MaskParityExtra(w: Word, enc: nat, dec: nat, p: nat)
    requires p < |w| && !Bit(enc, p)
    requires forall i | 0 <= i < |w| :: Bit(dec, i) == (i == p || Bit(enc, i))
    ensures MaskParity(w, dec) == (MaskParity(w, enc) != w[p])
  {
    var wp := if w[p] then Unit(|w|, p) else Zero(|w|);
    assert And(w, dec) == Xor(And(w, enc), wp);
    RedXorLinear(And(w, enc), wp);
    if w[p] {
      RedXorUnit(|w|, p);
    } else {
      RedXorZero(|w|);
    }
  }

  /** Encoding keeps the data bits, and a code word has syndrome zero. */
  lemma CodewordSyndromeZero(k: nat, m: nat, codes: seq<Row>, data: Word)
    requires |data| == k
    requires Systematic(k, Masks(k, m, codes, false), Masks(k, m, codes, true))
    ensures Encode(k, m, codes, data)[..k] == data
    ensures Syndrome(Masks(k, m, codes, true), Encode(k, m, codes, data)) == Zero(m)
  {
    var enc, dec := Masks(k, m, codes, false), Masks(k, m, codes, true);
    var out := Encode(k, m, codes, data);
    EncodeFromStores(k, enc, data + Zero(m), 0);
    assert (data + Zero(m))[..k] == data;
    forall j | 0 <= j < m ensures !Syndrome(dec, out)[j] {
      MaskParityExtra(out, enc[j], dec[j], k + j);
    }
  }

  lemma MarkerLinear(codeType: CodeType, a: Word, b: Word)
    requires |a| == |b| >= 1
    ensures Marker(codeType, Xor(a, b)) == (Marker(codeType, a) != Marker(codeType, b))
    ensures !Marker(codeType, Zero(|a|))
  {
    RedXorLinear(a, b);
    RedXorZero(|a|);
  }

  /** The two error flags in terms of the syndrome, for both code types. */
  lemma FlagsOfSyndrome(k: nat, m: nat, codes: seq<Row>, codeType: CodeType, w: Word)
    requires |w| == k + m && k <= |codes| && m >= 1
    ensures var r := Decode(k, m, codes, codeType, w);
      && |r.syndrome| == m
      && r.err0 == Marker(codeType, r.syndrome)
      && r.err1 == (!Marker(codeType, r.syndrome) && RedOr(r.syndrome))
  {
    var s := Syndrome(Masks(k, m, codes, true), w);
    if codeType == Hamming && !s[m - 1] {
      if RedOr(s) {
        var i :| 0 <= i < m && s[i];
        assert s[..m - 1][i];
      }
      if RedOr(s[..m - 1]) {
        var i :| 0 <= i < m - 1 && s[..m - 1][i];
        assert s[i];
      }
    }
  }

  lemma RedOrZero(s: Word)
    ensures RedOr(s) <==> s != Zero(|s|)
  {
    if !RedOr(s) {
      assert s == Zero(|s|);
    }
  }

  lemma RedOrXor(a: Word, b: Word)
    requires |a| == |b|
    ensures RedOr(Xor(a, b)) <==> a != b
  {
    if a != b {
      var j :| 0 <= j < |a| && a[j] != b[j];
      assert Xor(a, b)[j];
    }
  }

  /** What the decoder sees is the syndrome of the error alone. */
  lemma ReceivedSyndrome(k: nat, m: nat, codes: seq<Row>, data: Word, error: Word)
    requires |data| == k && |error| == k + m
    requires Systematic(k, Masks(k, m, codes, false), Masks(k, m, codes, true))
    ensures var dec := Masks(k, m, codes, true);
      Syndrome(dec, Xor(Encode(k, m, codes, data), error)) == Syndrome(dec, error)
  {
    var dec := Masks(k, m, codes, true);
    var out := Encode(k, m, codes, data);
    CodewordSyndromeZero(k, m, codes, data);
    SyndromeLinear(dec, out, error);
    assert Xor(Zero(m), Syndrome(dec, error)) == Syndrome(dec, error);
  }

  lemma NoError(k: nat, m: nat, codes: seq<Row>, codeType: CodeType, data: Word)
    requires |data| == k <= |codes| && m >= 1
    requires Systematic(k, Masks(k, m, codes, false), Masks(k, m, codes, true))
    requires GoodColumns(k, m, codes, codeType)
    ensures AssertionsHold(k, m, codes, codeType, data, Zero(k + m))
  {
    var error, dec := Zero(k + m), Masks(k, m, codes, true);
    var out := Encode(k, m, codes, data);
    WeightZero(error);
    assert Xor(out, error) == out;
    CodewordSyndromeZero(k, m, codes, data);
    FlagsOfSyndrome(k, m, codes, codeType, out);
    RedOrZero(Zero(m));
    MarkerLinear(codeType, Zero(m), Zero(m));
    var r := Decode(k, m, codes, codeType, out);
    forall i | 0 <= i < k ensures r.d[i] == data[i] {
      if Value(Zero(m)) == RowValue(codes[i], m) {
        ValueInjective(Zero(m), Column(dec, i));
        assert false;
      }
      assert out[i] == out[..k][i];
    }
  }

  /** The syndrome of a single error is the column of the wrong bit. */
  lemma SingleErrorSyndrome(k: nat, m: nat, codes: seq<Row>, codeType: CodeType, data: Word, e: nat)
    requires |data| == k <= |codes| && m >= 1 && e < k + m
    requires Systematic(k, Masks(k, m, codes, false), Masks(k, m, codes, true))
    ensures Decode(k, m, codes, codeType, Xor(Encode(k, m, codes, data), Unit(k + m, e))).syndrome ==
      Column(Masks(k, m, codes, true), e)
  {
    ReceivedSyndrome(k, m, codes, data, Unit(k + m, e));
    SyndromeUnit(Masks(k, m, codes, true), k + m, e);
  }

  lemma DataBitCorrected(k: nat, m: nat, codes: seq<Row>, codeType: CodeType, data: Word, e: nat, i: nat)
    requires |data| == k <= |codes| && m >= 1 && e < k + m && i < k
    requires Systematic(k, Masks(k, m, codes, false), Masks(k, m, codes, true))
    requires GoodColumns(k, m, codes, codeType)
    ensures Decode(k, m, codes, codeType, Xor(Encode(k, m, codes, data), Unit(k + m, e))).d[i] == data[i]
  {
    var out, dec := Encode(k, m, codes, data), Masks(k, m, codes, true);
    SingleErrorSyndrome(k, m, codes, codeType, data, e);
    CodewordSyndromeZero(k, m, codes, data);
    assert out[i] == out[..k][i];
    if Value(Column(dec, e)) == RowValue(codes[i], m) {
      ValueInjective(Column(dec, e), Column(dec, i));
    }
  }

  /** The syndrome of a single error singles out the wrong data bit, if it is a data bit. */
  lemma SingleErrorCorrected(k: nat, m: nat, codes: seq<Row>, codeType: CodeType, data: Word, e: nat)
    requires |data| == k <= |codes| && m >= 1 && e < k + m
    requires Systematic(k, Masks(k, m, codes, false), Masks(k, m, codes, true))
    requires GoodColumns(k, m, codes, codeType)
    ensures var r := Decode(k, m, codes, codeType, Xor(Encode(k, m, codes, data), Unit(k + m, e)));
      r.d == data && r.syndrome == Column(Masks(k, m, codes, true), e)
  {
    var r := Decode(k, m, codes, codeType, Xor(Encode(k, m, codes, data), Unit(k + m, e)));
    SingleErrorSyndrome(k, m, codes, codeType, data, e);
    assert |r.d| == |data|;
    forall i | 0 <= i < k
      ensures r.d[i] == data[i]
    {
      DataBitCorrected(k, m, codes, codeType, data, e, i);
    }
  }

  lemma SingleError(k: nat, m: nat, codes: seq<Row>, codeType: CodeType, data: Word, e: nat)
    requires |data| == k <= |codes| && m >= 1 && e < k + m
    requires Systematic(k, Masks(k, m, codes, false), Masks(k, m, codes, true))
    requires GoodColumns(k, m, codes, codeType)
    requires Weight(Unit(k + m, e)) == 1
    ensures AssertionsHold(k, m, codes, codeType, data, Unit(k + m, e))
  {
    SingleErrorCorrected(k, m, codes, codeType, data, e);
    FlagsOfSyndrome(k, m, codes, codeType, Xor(Encode(k, m, codes, data), Unit(k + m, e)));
    RedOrZero(Column(Masks(k, m, codes, true), e));
    MarkerLinear(codeType, Zero(m), Zero(m));
  }

  /** Two errors flip two different marked columns: the sum is unmarked and not zero. */
  lemma DoubleSyndrome(k: nat, m: nat, codes: seq<Row>, codeType: CodeType, e: nat, f: nat)
    requires k <= |codes| && m >= 1 && e < f < k + m
    requires GoodColumns(k, m, codes, codeType)
    ensures var s := Syndrome(Masks(k, m, codes, true), Xor(Unit(k + m, e), Unit(k + m, f)));
      !Marker(codeType, s) && RedOr(s)
  {
    var n, dec := k + m, Masks(k, m, codes, true);
    SyndromeLinear(dec, Unit(n, e), Unit(n, f));
    SyndromeUnit(dec, n, e);
    SyndromeUnit(dec, n, f);
    MarkerLinear(codeType, Column(dec, e), Column(dec, f));
    RedOrXor(Column(dec, e), Column(dec, f));
  }

  lemma DoubleError(k: nat, m: nat, codes: seq<Row>, codeType: CodeType, data: Word, e: nat, f: nat)
    requires |data| == k <= |codes| && m >= 1 && e < f < k + m
    requires Systematic(k, Masks(k, m, codes, false), Masks(k, m, codes, true))
    requires GoodColumns(k, m, codes, codeType)
    requires Weight(Xor(Unit(k + m, e), Unit(k + m, f))) == 2
    ensures AssertionsHold(k, m, codes, codeType, data, Xor(Unit(k + m, e), Unit(k + m, f)))
  {
    var error := Xor(Unit(k + m, e), Unit(k + m, f));
    ReceivedSyndrome(k, m, codes, data, error);
    DoubleSyndrome(k, m, codes, codeType, e, f);
    FlagsOfSyndrome(k, m, codes, codeType, Xor(Encode(k, m, codes, data), error));
  }

  /** Systematic masks with distinct, marked columns make a SECDED code. */
  lemma GoodColumnsAreSecded(k: nat, m: nat, codes: seq<Row>, codeType: CodeType)
    requires k <= |codes| && m >= 1
    requires Systematic(k, Masks(k, m, codes, false), Masks(k, m, codes, true))
    requires GoodColumns(k, m, codes, codeType)
    ensures Secded(k, m, codes, codeType)
  {
    forall data: Word, error: Word | |data| == k && |error| == k + m && Weight(error) <= 2
      ensures AssertionsHold(k, m, codes, codeType, data, error)
    {
      if Weight(error) == 0 {
        WeightZero(error);
        NoError(k, m, codes, codeType, data);
      } else if Weight(error) == 1 {
        var e := WeightOne(error);
        SingleError(k, m, codes, codeType, data, e);
      } else {
        var e, f := WeightTwo(error);
        DoubleError(k, m, codes, codeType, data, e, f);
      }
    }
  }

  /** Digit `i` of a mask sum says whether row `i` mentions the parity bit. */
  lemma {:induction false} MaskSumBits(codes: seq<Row>, j: nat)
    ensures MaskSum(codes, j) < Pow2(|codes|)
    ensures forall i: nat :: Bit(MaskSum(codes, j), i) == (i < |codes| && j in codes[i])
  {
    if |codes| == 0 {
      forall i: nat ensures !Bit(0, i) {
        ZeroHasNoBits(i);
      }
    } else {
      var n := |codes| - 1;
      MaskSumBits(codes[..n], j);
      forall i: nat ensures Bit(MaskSum(codes, j), i) == (i < |codes| && j in codes[i]) {
        BitOfSum(MaskSum(codes[..n], j), n, i);
        if i < n {
          assert codes[..n][i] == codes[i];
        }
      }
    }
  }

  lemma {:induction false} RowValueBits(c: Row, m: nat)
    ensures RowValue(c, m) < Pow2(m)
    ensures forall i: nat :: Bit(RowValue(c, m), i) == (i < m && i in c)
  {
    if m == 0 {
      forall i: nat ensures !Bit(0, i) {
        ZeroHasNoBits(i);
      }
    } else {
      RowValueBits(c, m - 1);
      forall i: nat ensures Bit(RowValue(c, m), i) == (i < m && i in c) {
        BitOfSum(RowValue(c, m - 1), m - 1, i);
      }
    }
  }

  /** The word of a row, and its value. */
  function RowWord(c: Row, m: nat): Word {
    seq(m, j => j in c)
  }

  lemma {:induction false} RowWordValue(c: Row, m: nat)
    ensures Value(RowWord(c, m)) == RowValue(c, m)
  {
    if m > 0 {
      assert RowWord(c, m)[..m - 1] == RowWord(c, m - 1);
      RowWordValue(c, m - 1);
    }
  }
}
