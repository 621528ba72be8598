/**
 The Hsiao matrix generator: fill whole levels of odd-weight rows, then draw the
 rest from one level by shuffling until no parity bit exceeds the ideal fan-in.
 */
module HsiaoCode {
  import opened Common
  import opened BitArith
  import opened Words
  import opened SecdedCircuit
  import opened Combinations

  // ---------- Number of parity bits ----------

  /** The loop of `min_paritysize` from `m` on. */
  function MinParityFrom(k: nat, m: nat): int
    decreases 10 - m
  {
    if m >= 10 then -1
    else if Pow2(m) >= k + m + 1 then m + 1
    else MinParityFrom(k, m + 1)
  }

  function MinParity(k: nat): int {
    MinParityFrom(k, 2)
  }

  method MinParitySize(k: nat) returns (m: int)
    ensures m == MinParity(k)
  {
    for i := 2 to 10
      invariant MinParity(k) == MinParityFrom(k, i)
    {
      if Pow2(i) >= k + i + 1 {
        return i + 1;
      }
    }
    return -1;
  }

  lemma {:induction false} MinParityFromLeast(k: nat, from: nat)
    requires from <= 10
    ensures var m := MinParityFrom(k, from);
      if m == -1 then forall i: nat | from <= i < 10 :: Pow2(i) < k + i + 1
      else from < m <= 10 && Pow2(m - 1) >= k + m && forall i: nat | from <= i < m - 1 :: Pow2(i) < k + i + 1
    decreases 10 - from
  {
    if from < 10 {
      MinParityFromLeast(k, from + 1);
    }
  }

  lemma Pow2Exceeds(a: nat, b: nat, k: nat)
    requires 2 <= a <= b && Pow2(a) >= k + a + 1
    ensures Pow2(b) >= k + b + 1
    decreases b - a
  {
    if a < b {
      Pow2Exceeds(a + 1, b, k);
    }
  }

  /** The tool's parity size, and every larger one, leaves room for `k` data columns. */
  lemma ParitySizeSuffices(k: nat, m: nat)
    requires MinParity(k) != -1 && m >= MinParity(k)
    ensures m >= 3 && Pow2(m - 1) >= k + m
  {
    MinParityFromLeast(k, 2);
    Pow2Exceeds(MinParity(k) - 1, m - 1, k);
  }

  // ---------- Ideal fan-in ----------

  /** The loop of `ideal_fanin` from `select` on. */
  function IdealFrom(needed: nat, m: nat, select: nat): nat
    requires select >= 1
    decreases m + 2 - select
  {
    if select > m || needed == 0 then 0
    else
      var size := |Level(m, select)|;
      if size <= needed then CeilDiv(size * select, m) + IdealFrom(needed - size, m, select + 2)
      else CeilDiv(needed * select, m)
  }

  function IdealFanin(k: nat, m: nat): nat {
    IdealFrom(k, m, 3)
  }

  method ComputeIdealFanin(k: nat, m: nat) returns (fanin: nat)
    ensures fanin == IdealFanin(k, m)
  {
    fanin := 0;
    var needed: nat, select: nat := k, 3;
    while select <= m
      invariant fanin + IdealFrom(needed, m, select) == IdealFanin(k, m)
      decreases m + 2 - select
    {
      var combinations := Level(m, select);
      if |combinations| <= needed {
        fanin := fanin + CeilDiv(|combinations| * select, m);
        needed := needed - |combinations|;
      } else {
        fanin := fanin + CeilDiv(needed * select, m);
        needed := 0;
      }
      if needed == 0 {
        break;
      }
      select := select + 2;
    }
  }

  function Fanins(codes: seq<Row>, m: nat): seq<nat> {
    seq(m, j requires 0 <= j => FanIn(codes, j))
  }

  method CalcFanin(width: nat, codes: seq<Row>) returns (fanins: seq<nat>)
    requires forall c <- codes :: Within(c, 0, width)
    ensures fanins == Fanins(codes, width)
  {
    fanins := seq(width, _ => 0);
    for i := 0 to |codes|
      invariant fanins == Fanins(codes[..i], width)
    {
      ghost var before := fanins;
      var rest := codes[i];
      assert codes[i] in codes;
      while rest != {}
        invariant rest <= codes[i] && |fanins| == width
        invariant forall j | 0 <= j < width ::
          fanins[j] == before[j] + (if j in codes[i] && j !in rest then 1 else 0)
        decreases rest
      {
        var e :| e in rest;
        rest := rest - {e};
        fanins := fanins[e := fanins[e] + 1];
      }
      assert codes[..i + 1][..i] == codes[..i];
    }
    assert codes[..|codes|] == codes;
  }

  // ---------- The generator ----------

  /** Which levels are used whole, and how many rows are then drawn from which level. */
  datatype Plan = Plan(full: seq<Row>, step: nat, rem: nat)

  function PlanFrom(required: nat, m: nat, step: nat): Plan
    decreases m + 2 - step
  {
    if required == 0 || step > m then Plan([], step, 0)
    else
      var level := Level(m, step);
      if |level| <= required then
        var p := PlanFrom(required - |level|, m, step + 2);
        p.(full := level + p.full)
      else Plan([], step, required)
  }

  function HsiaoPlan(k: nat, m: nat): Plan {
    PlanFrom(k, m, 3)
  }

  /** The matrices the generator may return: whole levels, then distinct rows of the next one. */
  ghost predicate HsiaoMatrix(k: nat, m: nat, codes: seq<Row>) {
    var p := HsiaoPlan(k, m);
    var n := |p.full|;
    && |codes| == n + p.rem
    && codes[..n] == p.full
    && Distinct(codes[n..])
    && forall c <- codes[n..] :: c in Level(m, p.step)
  }

  /** The retry loop's test of a shuffled candidate list. */
  ghost predicate Accepts(k: nat, m: nat, candidate: seq<Row>) {
    var p := HsiaoPlan(k, m);
    && p.rem <= |candidate|
    && forall j | 0 <= j < m :: FanIn(p.full, j) + FanIn(candidate[..p.rem], j) <= IdealFanin(k, m)
  }

  /** `random.shuffle` as an oracle: the t-th call may permute its list in any way. */
  ghost predicate IsShuffler(shuffle: (nat, seq<Row>) -> seq<Row>) {
    forall t, rows :: multiset(shuffle(t, rows)) == multiset(rows)
  }

  /** The candidate list after `t` shuffles in place. */
  ghost function Shuffled(shuffle: (nat, seq<Row>) -> seq<Row>, rows: seq<Row>, t: nat): seq<Row> {
    if t == 0 then rows else shuffle(t - 1, Shuffled(shuffle, rows, t - 1))
  }

  /** A prefix of a shuffled list of distinct rows has distinct rows of that list. */
  lemma PrefixOfShuffle(rows: seq<Row>, shuffled: seq<Row>, r: nat)
    requires Distinct(rows) && multiset(shuffled) == multiset(rows) && r <= |rows|
    ensures |shuffled| == |rows| && Distinct(shuffled)
    ensures forall c <- shuffled[..r] :: c in rows
  {
    assert |shuffled| == |multiset(shuffled)| == |multiset(rows)| == |rows|;
    forall c <- shuffled ensures c in rows {
      assert c in multiset(shuffled);
    }
    forall i, j | 0 <= i < j < |shuffled| ensures shuffled[i] != shuffled[j] {
      if shuffled[i] == shuffled[j] {
        RepeatedCounts(shuffled, i, j);
        DistinctCountsOnce(rows, shuffled[i]);
      }
    }
  }

  lemma RepeatedCounts(rows: seq<Row>, i: nat, j: nat)
    requires i < j < |rows| && rows[i] == rows[j]
    ensures multiset(rows)[rows[i]] >= 2
  {
    assert rows == rows[..j] + [rows[j]] + rows[j + 1..];
    assert rows[i] in rows[..j];
    assert rows[i] in multiset(rows[..j]);
  }

  lemma {:induction false} DistinctCountsOnce(rows: seq<Row>, c: Row)
    requires Distinct(rows)
    ensures multiset(rows)[c] == if c in rows then 1 else 0
  {
    if |rows| > 0 {
      var n := |rows| - 1;
      assert rows == rows[..n] + [rows[n]];
      DistinctCountsOnce(rows[..n], c);
    }
  }

  /** Where the generator's loop stands: rows so far, rows still required, level. */
  ghost predicate OnPlan(k: nat, m: nat, codes: seq<Row>, required: nat, step: nat) {
    var p := PlanFrom(required, m, step);
    HsiaoPlan(k, m) == Plan(codes + p.full, p.step, p.rem)
  }

  lemma WholeLevelStep(k: nat, m: nat, codes: seq<Row>, required: nat, step: nat)
    requires OnPlan(k, m, codes, required, step)
    requires 0 < required && step <= m && |Level(m, step)| <= required
    ensures OnPlan(k, m, codes + Level(m, step), required - |Level(m, step)|, step + 2)
  {
    var level := Level(m, step);
    var rest := PlanFrom(required - |level|, m, step + 2).full;
    assert codes + (level + rest) == (codes + level) + rest;
  }

  lemma MatrixOfParts(k: nat, m: nat, subset: seq<Row>)
    requires |subset| == HsiaoPlan(k, m).rem && Distinct(subset)
    requires forall c <- subset :: c in Level(m, HsiaoPlan(k, m).step)
    ensures HsiaoMatrix(k, m, HsiaoPlan(k, m).full + subset)
  {
    var p := HsiaoPlan(k, m);
    assert (p.full + subset)[..|p.full|] == p.full;
    assert (p.full + subset)[|p.full|..] == subset;
  }

  /**
   `hsiao_code`, giving up after `tries` shuffles where the tool would go on.
   `shuffle` stands for the random generator.
   */
  method GenerateHsiao(k: nat, m: nat, shuffle: (nat, seq<Row>) -> seq<Row>, tries: nat)
    returns (r: Option<seq<Row>>)
    requires k >= 1
    requires IsShuffler(shuffle)
    ensures r.Some? ==> HsiaoMatrix(k, m, r.value)
    ensures r.Some? ==> forall j | 0 <= j < m :: FanIn(r.value, j) <= IdealFanin(k, m)
    ensures r.None? ==> HsiaoPlan(k, m).rem > 0
    ensures r.None? ==> forall t | 1 <= t <= tries ::
      !Accepts(k, m, Shuffled(shuffle, Level(m, HsiaoPlan(k, m).step), t))
  {
    var faninIdeal := ComputeIdealFanin(k, m);
    var requiredRow: nat := k;
    var codes: seq<Row> := [];
    var step: nat := 3;
    assert [] + PlanFrom(k, m, 3).full == HsiaoPlan(k, m).full;
    while step <= m
      invariant requiredRow >= 1 && step >= 3
      invariant OnPlan(k, m, codes, requiredRow, step)
      invariant forall c <- codes :: Within(c, 0, m)
      decreases m + 2 - step
    {
      var candidate := Level(m, step);
      LevelIsAllCombinations(m, step);
      if |candidate| <= requiredRow {
        WholeLevelStep(k, m, codes, requiredRow, step);
        codes := codes + candidate;
        requiredRow := requiredRow - |candidate|;
      } else {
        assert codes + [] == codes;
        var subset := DrawSubset(k, m, codes, faninIdeal, candidate, requiredRow, shuffle, tries);
        if subset.None? {
          return None;
        }
        codes := codes + subset.value;
        MatrixOfParts(k, m, subset.value);
        forall j | 0 <= j < m ensures FanIn(codes, j) <= IdealFanin(k, m) {
          FanInConcat(HsiaoPlan(k, m).full, subset.value, j);
        }
        return Some(codes);
      }
      if requiredRow == 0 {
        break;
      }
      step := step + 2;
    }
    assert codes + [] == codes;
    MatrixOfParts(k, m, []);
    FullLevelsAreIdeal(k, m);
    return Some(codes);
  }

  /** Whether no parity bit would exceed the ideal fan-in. */
  method FitsIdeal(m: nat, fanins: seq<nat>, subsetFanins: seq<nat>, faninIdeal: nat) returns (ideal: bool)
    requires |fanins| == |subsetFanins| == m
    ensures ideal <==> forall j | 0 <= j < m :: fanins[j] + subsetFanins[j] <= faninIdeal
  {
    ideal := true;
    for i := 0 to m
      invariant ideal
      invariant forall j | 0 <= j < i :: fanins[j] + subsetFanins[j] <= faninIdeal
    {
      if fanins[i] + subsetFanins[i] > faninIdeal {
        ideal := false;
        break;
      }
    }
  }

  /** The retry loop: shuffle until the first `requiredRow` candidates fit the ideal fan-in. */
  method DrawSubset(k: nat, m: nat, codes: seq<Row>, faninIdeal: nat, level: seq<Row>, requiredRow: nat,
          shuffle: (nat, seq<Row>) -> seq<Row>, tries: nat)
    returns (r: Option<seq<Row>>)
    requires HsiaoPlan(k, m).full == codes && HsiaoPlan(k, m).rem == requiredRow
    requires faninIdeal == IdealFanin(k, m)
    requires requiredRow <= |level| && Distinct(level)
    requires forall c <- codes :: Within(c, 0, m)
    requires forall c <- level :: Within(c, 0, m)
    requires IsShuffler(shuffle)
    ensures r.Some? ==> |r.value| == requiredRow && Distinct(r.value) && (forall c <- r.value :: c in level)
    ensures r.Some? ==> forall j | 0 <= j < m :: FanIn(codes, j) + FanIn(r.value, j) <= faninIdeal
    ensures r.None? ==> forall t | 1 <= t <= tries :: !Accepts(k, m, Shuffled(shuffle, level, t))
  {
    var fanins := CalcFanin(m, codes);
    var candidate, attempt := level, 0;
    while attempt < tries
      invariant attempt <= tries
      invariant candidate == Shuffled(shuffle, level, attempt)
      invariant multiset(candidate) == multiset(level)
      invariant forall t | 1 <= t <= attempt :: !Accepts(k, m, Shuffled(shuffle, level, t))
    {
      candidate := shuffle(attempt, candidate);
      attempt := attempt + 1;
      PrefixOfShuffle(level, candidate, requiredRow);
      var subset := candidate[..requiredRow];
      var subsetFanins := CalcFanin(m, subset);
      var ideal := FitsIdeal(m, fanins, subsetFanins, faninIdeal);
      if ideal {
        assert forall j | 0 <= j < m :: fanins[j] == FanIn(codes, j) && subsetFanins[j] == FanIn(subset, j);
        return Some(subset);
      }
      assert !Accepts(k, m, candidate);
    }
    return None;
  }

  // ---------- Fan-in of whole levels ----------

  function Sum(f: seq<nat>): nat {
    if |f| == 0 then 0 else Sum(f[..|f| - 1]) + f[|f| - 1]
  }

  /** The number of ones in the matrix. */
  ghost function TotalWeight(codes: seq<Row>): nat {
    if |codes| == 0 then 0 else TotalWeight(codes[..|codes| - 1]) + |codes[|codes| - 1]|
  }

  lemma {:induction false} TotalWeightConcat(a: seq<Row>, b: seq<Row>)
    ensures TotalWeight(a + b) == TotalWeight(a) + TotalWeight(b)
  {
    if |b| == 0 {
      assert a + b == a;
    } else {
      assert (a + b)[..|a + b| - 1] == a + b[..|b| - 1];
      TotalWeightConcat(a, b[..|b| - 1]);
    }
  }

  lemma {:induction false} TotalWeightUniform(codes: seq<Row>, s: nat)
    requires forall c <- codes :: |c| == s
    ensures TotalWeight(codes) == |codes| * s
  {
    if |codes| > 0 {
      TotalWeightUniform(codes[..|codes| - 1], s);
      assert codes[|codes| - 1] in codes;
    }
  }

  /** Sums of two lists that differ by the indicator of a set. */
  lemma {:induction false} SumIndicator(f: seq<nat>, g: seq<nat>, c: Row)
    requires |f| == |g| && Within(c, 0, |f|)
    requires forall j | 0 <= j < |f| :: g[j] == f[j] + (if j in c then 1 else 0)
    ensures Sum(g) == Sum(f) + |c|
  {
    if |f| == 0 {
      assert c == {};
    } else {
      var n := |f| - 1;
      SumIndicator(f[..n], g[..n], c - {n});
    }
  }

  /** Double counting: the fan-ins sum to the number of ones. */
  lemma {:induction false} FaninsSum(codes: seq<Row>, m: nat)
    requires forall c <- codes :: Within(c, 0, m)
    ensures Sum(Fanins(codes, m)) == TotalWeight(codes)
  {
    if |codes| == 0 {
      SumConstant(Fanins(codes, m), 0);
    } else {
      var n := |codes| - 1;
      FaninsSum(codes[..n], m);
      assert codes[n] in codes;
      SumIndicator(Fanins(codes[..n], m), Fanins(codes, m), codes[n]);
    }
  }

  lemma {:induction false} SumConstant(f: seq<nat>, v: nat)
    requires forall j | 0 <= j < |f| :: f[j] == v
    ensures Sum(f) == |f| * v
  {
    if |f| > 0 {
      SumConstant(f[..|f| - 1], v);
      assert |f| * v == (|f| - 1) * v + v;
    }
  }

  /** Each whole level adds `C(m-1, s-1)` to every parity bit, with nothing lost to rounding. */
  lemma LevelFanIn(m: nat, s: nat)
    requires 1 <= s <= m
    ensures forall j | 0 <= j < m :: FanIn(Level(m, s), j) == Choose(m - 1, s - 1)
    ensures CeilDiv(|Level(m, s)| * s, m) == Choose(m - 1, s - 1)
  {
    forall j | 0 <= j < m ensures FanIn(Level(m, s), j) == Choose(m - 1, s - 1) {
      CombsFanIn(m, s, j);
    }
    LevelIsAllCombinations(m, s);
    FaninsSum(Level(m, s), m);
    SumConstant(Fanins(Level(m, s), m), Choose(m - 1, s - 1));
    TotalWeightUniform(Level(m, s), s);
    CeilDivExact(|Level(m, s)| * s, m, Choose(m - 1, s - 1));
  }

  lemma CeilDivExact(a: nat, m: nat, q: nat)
    requires m > 0 && a == m * q
    ensures CeilDiv(a, m) == q
  {
    CeilDivLeast(a, m, q);
    if CeilDiv(a, m) < q {
      MulMonotone(CeilDiv(a, m) + 1, q, m);
    }
  }

  /** What the whole levels of a plan contribute to every parity bit. */
  ghost function FullFanin(required: nat, m: nat, step: nat): nat
    requires step >= 1
    decreases m + 2 - step
  {
    if required == 0 || step > m || |Level(m, step)| > required then 0
    else Choose(m - 1, step - 1) + FullFanin(required - |Level(m, step)|, m, step + 2)
  }

  lemma {:induction false} PlanFanin(required: nat, m: nat, step: nat)
    requires step >= 1
    ensures var p := PlanFrom(required, m, step);
      && (forall j | 0 <= j < m :: FanIn(p.full, j) == FullFanin(required, m, step))
      && (p.rem > 0 ==> m > 0)
      && IdealFrom(required, m, step) == FullFanin(required, m, step) +
        if p.rem > 0 then CeilDiv(p.rem * p.step, m) else 0
    decreases m + 2 - step
  {
    if required > 0 && step <= m {
      var level := Level(m, step);
      if |level| <= required {
        var p := PlanFrom(required - |level|, m, step + 2);
        PlanFanin(required - |level|, m, step + 2);
        LevelFanIn(m, step);
        forall j | 0 <= j < m ensures FanIn(level + p.full, j) == FullFanin(required, m, step) {
          FanInConcat(level, p.full, j);
        }
      }
    }
  }

  /** Without a partial level the ideal fan-in is met exactly. */
  lemma FullLevelsAreIdeal(k: nat, m: nat)
    ensures var p := HsiaoPlan(k, m);
      p.rem == 0 ==> forall j | 0 <= j < m :: FanIn(p.full, j) == IdealFanin(k, m)
  {
    PlanFanin(k, m, 3);
  }

  // ---------- The rows of the generated matrix ----------

  ghost predicate OddRow(c: Row, m: nat) {
    Within(c, 0, m) && |c| % 2 == 1 && |c| >= 3
  }

  lemma CardinalityBound(c: Row, m: nat)
    requires Within(c, 0, m)
    ensures |c| <= m
  {
    if m == 0 {
      assert c == {};
    } else {
      CardinalityBound(c - {m - 1}, m - 1);
    }
  }

  lemma DistinctConcat(a: seq<Row>, b: seq<Row>)
    requires Distinct(a) && Distinct(b) && forall c <- a :: c !in b
    ensures Distinct(a + b)
  {
    forall i, j | 0 <= i < j < |a + b| ensures (a + b)[i] != (a + b)[j] {
      if i < |a| <= j {
        assert (a + b)[i] in a && (a + b)[j] in b;
      }
    }
  }

  /** `rows` holds, once each, the odd-weight rows of weight `lo` up to below `hi`. */
  ghost predicate OddLevels(rows: seq<Row>, m: nat, lo: nat, hi: nat) {
    && Distinct(rows)
    && forall c: Row :: c in rows <==> Within(c, 0, m) && |c| % 2 == 1 && lo <= |c| < hi
  }

  lemma AddLevel(rows: seq<Row>, m: nat, step: nat, hi: nat)
    requires OddLevels(rows, m, step + 2, hi) && step % 2 == 1 && step < hi
    ensures OddLevels(Level(m, step) + rows, m, step, hi)
  {
    var level := Level(m, step);
    var all := level + rows;
    LevelIsAllCombinations(m, step);
    forall c: Row ensures c in all <==> Within(c, 0, m) && |c| % 2 == 1 && step <= |c| < hi {
      assert c in all <==> c in level || c in rows;
    }
    DistinctConcat(level, rows);
  }

  /** The whole levels of a plan hold every odd row lighter than the level where it stops. */
  lemma {:induction false} PlanRows(required: nat, m: nat, step: nat)
    requires step % 2 == 1
    ensures var p := PlanFrom(required, m, step);
      && p.step % 2 == 1 && p.step >= step
      && OddLevels(p.full, m, step, p.step)
      && (p.rem > 0 ==> p.rem < |Level(m, p.step)|)
      && |p.full| + p.rem == if required <= Capacity(m, step) then required else Capacity(m, step)
    decreases m + 2 - step
  {
    if required > 0 && step <= m {
      var level := Level(m, step);
      CombsCount(0, m, step);
      if |level| <= required {
        PlanRows(required - |level|, m, step + 2);
        var q := PlanFrom(required - |level|, m, step + 2);
        AddLevel(q.full, m, step, q.step);
      }
    }
  }

  /**
   Every matrix the generator may return has `k` rows, or all there are; they are
   pairwise distinct and of odd weight at least three.
   */
  lemma HsiaoRows(k: nat, m: nat, codes: seq<Row>)
    requires m >= 1 && HsiaoMatrix(k, m, codes)
    ensures |codes| == if k + m <= Pow2(m - 1) then k else Pow2(m - 1) - m
    ensures Distinct(codes)
    ensures forall c <- codes :: OddRow(c, m)
  {
    PlanRows(k, m, 3);
    OddCapacity(m);
    var p := HsiaoPlan(k, m);
    var n := |p.full|;
    LevelIsAllCombinations(m, p.step);
    var last := codes[n..];
    assert codes == p.full + last;
    assert forall c <- last :: OddRow(c, m) && |c| == p.step;
    assert forall c <- p.full :: OddRow(c, m) && |c| < p.step;
    DistinctConcat(p.full, last);
  }

  // ---------- Correctness of the code ----------

  lemma {:induction false} RowWordParity(c: Row, m: nat)
    requires Within(c, 0, m)
    ensures RedXor(RowWord(c, m)) == (|c| % 2 == 1)
  {
    if m == 0 {
      assert c == {};
    } else {
      assert RowWord(c, m)[..m - 1] == RowWord(c - {m - 1}, m - 1);
      RowWordParity(c - {m - 1}, m - 1);
      if m - 1 in c {
        assert |c - {m - 1}| == |c| - 1;
      } else {
        assert c - {m - 1} == c;
      }
    }
  }

  /** The row behind each column: a code row, or the unit row of a parity bit. */
  ghost function ColumnRow(k: nat, codes: seq<Row>, i: nat): Row
    requires k <= |codes|
  {
    if i < k then codes[i] else {i - k}
  }

  /** The digits of both masks of parity bit `j`, when there are exactly `k` rows. */
  lemma HsiaoMaskBits(k: nat, m: nat, codes: seq<Row>, j: nat, i: nat)
    requires |codes| == k && j < m
    ensures Bit(Masks(k, m, codes, false)[j], i) == (i < k && j in codes[i])
    ensures Bit(Masks(k, m, codes, true)[j], i) == (i == k + j || (i < k && j in codes[i]))
  {
    MaskSumBits(codes, j);
    Pow2Monotone(k, k + j);
    BitOfSum(MaskSum(codes, j), k + j, i);
  }

  lemma ColumnsOfRows(k: nat, m: nat, codes: seq<Row>)
    requires |codes| == k
    ensures Systematic(k, Masks(k, m, codes, false), Masks(k, m, codes, true))
    ensures forall i | 0 <= i < k + m ::
      Column(Masks(k, m, codes, true), i) == RowWord(ColumnRow(k, codes, i), m)
  {
    var enc, dec := Masks(k, m, codes, false), Masks(k, m, codes, true);
    forall j, i | 0 <= j < m && k + j <= i < k + m ensures !Bit(enc[j], i) {
      HsiaoMaskBits(k, m, codes, j, i);
    }
    forall j, i | 0 <= j < m && 0 <= i < k + m ensures Bit(dec[j], i) == (i == k + j || Bit(enc[j], i)) {
      HsiaoMaskBits(k, m, codes, j, i);
    }
    forall i | 0 <= i < k + m ensures Column(dec, i) == RowWord(ColumnRow(k, codes, i), m) {
      forall j | 0 <= j < m ensures Column(dec, i)[j] == (j in ColumnRow(k, codes, i)) {
        HsiaoMaskBits(k, m, codes, j, i);
      }
    }
  }

  lemma RowWordInjective(c: Row, c': Row, m: nat)
    requires Within(c, 0, m) && Within(c', 0, m) && RowWord(c, m) == RowWord(c', m)
    ensures c == c'
  {
    forall x ensures x in c <==> x in c' {
      if x in c || x in c' {
        assert RowWord(c, m)[x] == RowWord(c', m)[x];
      }
    }
  }

  /** Distinct odd-weight rows give single error correction and double error detection. */
  lemma OddRowsAreSecded(k: nat, m: nat, codes: seq<Row>)
    requires |codes| == k && m >= 1
    requires Distinct(codes) && forall c <- codes :: OddRow(c, m)
    ensures Secded(k, m, codes, Hsiao)
  {
    ColumnsOfRows(k, m, codes);
    var dec := Masks(k, m, codes, true);
    forall i | 0 <= i < k + m
      ensures Within(ColumnRow(k, codes, i), 0, m) && Marker(Hsiao, Column(dec, i))
    {
      var row := ColumnRow(k, codes, i);
      assert i < k ==> codes[i] in codes;
      RowWordParity(row, m);
    }
    forall i, i' | 0 <= i < i' < k + m ensures Column(dec, i) != Column(dec, i') {
      var row, row' := ColumnRow(k, codes, i), ColumnRow(k, codes, i');
      assert i < k ==> codes[i] in codes && |row| >= 3;
      if Column(dec, i) == Column(dec, i') {
        RowWordInjective(row, row', m);
      }
    }
    forall i | 0 <= i < k ensures Value(Column(dec, i)) == RowValue(codes[i], m) {
      RowWordValue(codes[i], m);
    }
    GoodColumnsAreSecded(k, m, codes, Hsiao);
  }

  /** With at least the tool's own parity size, whatever the shuffles, the Hsiao code is SECDED. */
  lemma HsiaoSecded(k: nat, m: nat, codes: seq<Row>)
    requires MinParity(k) != -1 && m >= MinParity(k)
    requires HsiaoMatrix(k, m, codes)
    ensures |codes| == k
    ensures Secded(k, m, codes, Hsiao)
  {
    ParitySizeSuffices(k, m);
    HsiaoRows(k, m, codes);
    OddRowsAreSecded(k, m, codes);
  }
}
