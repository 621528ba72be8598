/**
 Fan-in of Hsiao matrices: no choice of distinct odd-weight rows beats the ideal
 fan-in, and the retry loop can always reach it.
 */
module HsiaoFanin {
  import opened Common
  import opened BitArith
  import opened SecdedCircuit
  import opened Combinations
  import opened HsiaoCode

  // ---------- The ideal fan-in is a lower bound ----------

  /** How far the rows lighter than `t` stay below weight `t`, in total. */
  ghost function Slack(rows: seq<Row>, t: nat): nat {
    if |rows| == 0 then 0
    else Slack(rows[..|rows| - 1], t) + RowSlack(rows[|rows| - 1], t)
  }

  ghost function RowSlack(c: Row, t: nat): nat {
    if |c| < t then t - |c| else 0
  }

  lemma {:induction false} SlackConcat(a: seq<Row>, b: seq<Row>, t: nat)
    ensures Slack(a + b, t) == Slack(a, t) + Slack(b, t)
  {
    if |b| == 0 {
      assert a + b == a;
    } else {
      assert (a + b)[..|a + b| - 1] == a + b[..|b| - 1];
      SlackConcat(a, b[..|b| - 1], t);
    }
  }

  lemma SlackRemove(rows: seq<Row>, i: nat, t: nat)
    requires i < |rows|
    ensures Slack(rows, t) == Slack(rows[..i] + rows[i + 1..], t) + RowSlack(rows[i], t)
  {
    assert rows == (rows[..i] + [rows[i]]) + rows[i + 1..];
    SlackConcat(rows[..i] + [rows[i]], rows[i + 1..], t);
    SlackConcat(rows[..i], [rows[i]], t);
    SlackConcat(rows[..i], rows[i + 1..], t);
    assert Slack([rows[i]], t) == RowSlack(rows[i], t);
  }

  /** Distinct rows have at most the slack of any list that has all their light rows. */
  lemma {:induction false} SlackBound(rows: seq<Row>, pool: seq<Row>, t: nat)
    requires Distinct(rows)
    requires forall c <- rows :: |c| < t ==> c in pool
    ensures Slack(rows, t) <= Slack(pool, t)
  {
    if |rows| > 0 {
      var n := |rows| - 1;
      var c := rows[n];
      assert c in rows;
      if |c| < t {
        var i :| 0 <= i < |pool| && pool[i] == c;
        var rest := pool[..i] + pool[i + 1..];
        forall d <- rows[..n] | |d| < t ensures d in rest {
          var i' :| 0 <= i' < |pool| && pool[i'] == d;
          assert d == if i' < i then rest[i'] else rest[i' - 1];
        }
        SlackBound(rows[..n], rest, t);
        SlackRemove(pool, i, t);
      } else {
        SlackBound(rows[..n], pool, t);
      }
    }
  }

  /** Weight and slack complement each other up to `t` per row. */
  lemma {:induction false} WeightPlusSlack(rows: seq<Row>, t: nat)
    ensures TotalWeight(rows) + Slack(rows, t) >= |rows| * t
    ensures (forall c <- rows :: |c| <= t) ==> TotalWeight(rows) + Slack(rows, t) == |rows| * t
  {
    if |rows| > 0 {
      WeightPlusSlack(rows[..|rows| - 1], t);
      assert |rows| * t == (|rows| - 1) * t + t;
      assert rows[|rows| - 1] in rows;
    }
  }

  /** `k` distinct odd rows have at least as many ones as the plan's. */
  lemma PlanIsLightest(k: nat, m: nat, rows: seq<Row>)
    requires |rows| == k && Distinct(rows) && forall c <- rows :: OddRow(c, m)
    ensures var p := HsiaoPlan(k, m);
      TotalWeight(rows) >= TotalWeight(p.full) + p.rem * p.step
  {
    var p := HsiaoPlan(k, m);
    PlanRows(k, m, 3);
    SlackBound(rows, p.full, p.step);
    WeightPlusSlack(rows, p.step);
    WeightPlusSlack(p.full, p.step);
    AtLeastPlanned(|p.full|, p.rem, k, p.step);
  }

  lemma AtLeastPlanned(full: nat, rem: nat, k: nat, step: nat)
    requires full + rem <= k
    ensures k * step >= full * step + rem * step
  {
    MulMonotone(full + rem, k, step);
  }

  lemma {:induction false} SumBelow(f: seq<nat>, v: nat)
    requires forall j | 0 <= j < |f| :: f[j] <= v
    ensures Sum(f) <= |f| * v
  {
    if |f| > 0 {
      SumBelow(f[..|f| - 1], v);
      assert |f| * v == (|f| - 1) * v + v;
    }
  }

  lemma PlanWeight(k: nat, m: nat)
    ensures TotalWeight(HsiaoPlan(k, m).full) == m * FullFanin(k, m, 3)
  {
    var p := HsiaoPlan(k, m);
    PlanFanin(k, m, 3);
    PlanRows(k, m, 3);
    FaninsSum(p.full, m);
    SumConstant(Fanins(p.full, m), FullFanin(k, m, 3));
  }

  lemma WeightBelow(rows: seq<Row>, m: nat, bound: nat)
    requires forall c <- rows :: Within(c, 0, m)
    requires forall j | 0 <= j < m :: FanIn(rows, j) <= bound
    ensures TotalWeight(rows) <= m * bound
  {
    FaninsSum(rows, m);
    SumBelow(Fanins(rows, m), bound);
  }

  /** Whatever `k` distinct odd-weight rows are chosen, some parity bit has at least the ideal fan-in. */
  lemma IdealIsLowerBound(k: nat, m: nat, rows: seq<Row>)
    requires m >= 1 && |rows| == k && Distinct(rows) && forall c <- rows :: OddRow(c, m)
    ensures exists j | 0 <= j < m :: FanIn(rows, j) >= IdealFanin(k, m)
  {
    var p, ideal, full := HsiaoPlan(k, m), IdealFanin(k, m), FullFanin(k, m, 3);
    PlanFanin(k, m, 3);
    PlanIsLightest(k, m, rows);
    PlanWeight(k, m);
    if ideal == 0 {
      assert FanIn(rows, 0) >= ideal;
    } else {
      PigeonholeGap(m, full, ideal - full, p.rem * p.step);
      if forall j | 0 <= j < m :: FanIn(rows, j) <= ideal - 1 {
        WeightBelow(rows, m, ideal - 1);
        assert false;
      }
      var j :| 0 <= j < m && FanIn(rows, j) > ideal - 1;
    }
  }

  /** One less than the ideal on every parity bit holds too few ones. */
  lemma PigeonholeGap(m: nat, full: nat, part: nat, ones: nat)
    requires m >= 1 && full + part >= 1 && part * m < ones + m
    ensures m * (full + part - 1) < m * full + ones
  {
    assert m * (full + part - 1) == m * full + part * m - m;
  }

  /** The returned matrix has the least possible maximal fan-in. */
  lemma HsiaoIsOptimal(k: nat, m: nat, codes: seq<Row>, other: seq<Row>)
    requires m >= 1
    requires forall j | 0 <= j < m :: FanIn(codes, j) <= IdealFanin(k, m)
    requires |other| == k && Distinct(other) && forall c <- other :: OddRow(c, m)
    ensures exists j | 0 <= j < m :: forall i | 0 <= i < m :: FanIn(codes, i) <= FanIn(other, j)
  {
    IdealIsLowerBound(k, m, other);
    var j :| 0 <= j < m && FanIn(other, j) >= IdealFanin(k, m);
    assert forall i | 0 <= i < m :: FanIn(codes, i) <= FanIn(other, j);
  }

  // ---------- A subset within the ideal fan-in always exists ----------

  function SumOfSquares(f: seq<nat>): nat {
    if |f| == 0 then 0 else SumOfSquares(f[..|f| - 1]) + f[|f| - 1] * f[|f| - 1]
  }

  lemma {:induction false} SumOfSquaresUpdate(f: seq<nat>, i: nat, v: nat)
    requires i < |f|
    ensures SumOfSquares(f[i := v]) == SumOfSquares(f) - f[i] * f[i] + v * v
  {
    var n := |f| - 1;
    if i == n {
      assert f[i := v][..n] == f[..n];
    } else {
      assert f[i := v][..n] == f[..n][i := v];
      SumOfSquaresUpdate(f[..n], i, v);
    }
  }

  /** Moving one unit from a larger to a much smaller entry lowers the sum of squares. */
  lemma MoveLowersSquares(f: seq<nat>, a: nat, b: nat)
    requires a < |f| && b < |f| && f[a] >= f[b] + 2
    ensures SumOfSquares(f[a := f[a] - 1][b := f[b] + 1]) < SumOfSquares(f)
  {
    var g := f[a := f[a] - 1];
    SumOfSquaresUpdate(f, a, f[a] - 1);
    SumOfSquaresUpdate(g, b, f[b] + 1);
    SquareOfSuccessor(f[a] - 1);
    SquareOfSuccessor(f[b]);
  }

  lemma SquareOfSuccessor(x: nat)
    ensures (x + 1) * (x + 1) == x * x + 2 * x + 1
  {}

  lemma {:induction false} FanInUpdate(rows: seq<Row>, i: nat, c: Row, j: nat)
    requires i < |rows|
    ensures FanIn(rows[i := c], j) ==
      FanIn(rows, j) - (if j in rows[i] then 1 else 0) + (if j in c then 1 else 0)
  {
    var n := |rows| - 1;
    if i == n {
      assert rows[i := c][..n] == rows[..n];
    } else {
      assert rows[i := c][..n] == rows[..n][i := c];
      FanInUpdate(rows[..n], i, c, j);
    }
  }

  /** The rows with `a` but not `b`. */
  ghost function Only(rows: seq<Row>, a: nat, b: nat): set<Row> {
    set c <- rows | a in c && b !in c
  }

  lemma OnlyStep(rows: seq<Row>, a: nat, b: nat)
    requires Distinct(rows) && |rows| > 0
    ensures var n := |rows| - 1;
      |Only(rows, a, b)| == |Only(rows[..n], a, b)| + if a in rows[n] && b !in rows[n] then 1 else 0
  {
    var c, rest := rows[|rows| - 1], rows[..|rows| - 1];
    assert forall d :: d in rows <==> d in rest || d == c;
    assert c !in rest;
    assert Only(rows, a, b) == Only(rest, a, b) + if a in c && b !in c then {c} else {};
  }

  /** How often `a` is mentioned more than `b` is a difference of two disjoint classes. */
  lemma {:induction false} FanInDifference(rows: seq<Row>, a: nat, b: nat)
    requires Distinct(rows)
    ensures FanIn(rows, a) - FanIn(rows, b) == |Only(rows, a, b)| - |Only(rows, b, a)|
  {
    if |rows| > 0 {
      FanInDifference(rows[..|rows| - 1], a, b);
      OnlyStep(rows, a, b);
      OnlyStep(rows, b, a);
    }
  }

  function Swap(c: Row, a: nat, b: nat): Row {
    c - {a} + {b}
  }

  /** Swapping maps rows with `a` but not `b` injectively. */
  lemma {:induction false} SwapInjective(x: set<Row>, y: set<Row>, a: nat, b: nat)
    requires a != b
    requires forall c <- x :: a in c && b !in c && Swap(c, a, b) in y
    ensures |x| <= |y|
  {
    if x != {} {
      var c :| c in x;
      forall d <- x - {c} ensures Swap(d, a, b) in y - {Swap(c, a, b)} {
        assert Swap(Swap(c, a, b), b, a) == c && Swap(Swap(d, a, b), b, a) == d;
      }
      SwapInjective(x - {c}, y - {Swap(c, a, b)}, a, b);
    }
  }

  /** If `a` is mentioned more often than `b`, some row can trade `a` for `b`. */
  lemma TradableRow(rows: seq<Row>, a: nat, b: nat) returns (i: nat)
    requires Distinct(rows) && FanIn(rows, a) > FanIn(rows, b)
    ensures i < |rows| && a in rows[i] && b !in rows[i] && Swap(rows[i], a, b) !in rows
  {
    var x, y := Only(rows, a, b), Only(rows, b, a);
    FanInDifference(rows, a, b);
    if forall c <- x :: Swap(c, a, b) in y {
      SwapInjective(x, y, a, b);
      assert false;
    }
    var c :| c in x && Swap(c, a, b) !in y;
    i :| 0 <= i < |rows| && rows[i] == c;
  }

  /** An overloaded parity bit leaves some other one at least two below it. */
  lemma SomeBitIsLow(rows: seq<Row>, m: nat, s: nat, a: nat) returns (b: nat)
    requires a < m && forall c <- rows :: Within(c, 0, m) && |c| == s
    requires FanIn(rows, a) > CeilDiv(|rows| * s, m)
    ensures b < m && FanIn(rows, a) >= FanIn(rows, b) + 2
  {
    var q := CeilDiv(|rows| * s, m);
    if forall j | 0 <= j < m :: FanIn(rows, j) >= q {
      NoneIsHigh(rows, m, s, q, a);
      assert false;
    }
    b :| 0 <= b < m && FanIn(rows, b) < q;
  }

  /** If no parity bit lies below a bound that suffices on average, none lies above it. */
  lemma NoneIsHigh(rows: seq<Row>, m: nat, s: nat, q: nat, a: nat)
    requires a < m && (forall c <- rows :: Within(c, 0, m) && |c| == s) && |rows| * s <= m * q
    requires forall j | 0 <= j < m :: FanIn(rows, j) >= q
    ensures FanIn(rows, a) <= q
  {
    FaninsSum(rows, m);
    TotalWeightUniform(rows, s);
    NoneAbove(Fanins(rows, m), q, a);
  }

  lemma NoneAbove(f: seq<nat>, v: nat, a: nat)
    requires a < |f| && (forall j | 0 <= j < |f| :: f[j] >= v) && Sum(f) <= |f| * v
    ensures f[a] <= v
  {
    if f[a] > v {
      SumAbove(f, v, a);
    }
  }

  lemma {:induction false} SumAbove(f: seq<nat>, v: nat, a: nat)
    requires a < |f| && f[a] > v && forall j | 0 <= j < |f| :: f[j] >= v
    ensures Sum(f) > |f| * v
  {
    var n := |f| - 1;
    assert |f| * v == n * v + v;
    if a < n {
      SumAbove(f[..n], v, a);
    } else {
      SumAtLeast(f[..n], v);
    }
  }

  lemma {:induction false} SumAtLeast(f: seq<nat>, v: nat)
    requires forall j | 0 <= j < |f| :: f[j] >= v
    ensures Sum(f) >= |f| * v
  {
    if |f| > 0 {
      SumAtLeast(f[..|f| - 1], v);
      assert |f| * v == (|f| - 1) * v + v;
    }
  }

  /** `rows` are distinct combinations of one level. */
  ghost predicate PartOfLevel(rows: seq<Row>, m: nat, s: nat) {
    Distinct(rows) && forall c <- rows :: Within(c, 0, m) && |c| == s
  }

  /** One trade: still part of the level, and a smaller sum of squares. */
  lemma Trade(rows: seq<Row>, m: nat, s: nat, a: nat, b: nat) returns (traded: seq<Row>)
    requires PartOfLevel(rows, m, s) && a < m && b < m && FanIn(rows, a) >= FanIn(rows, b) + 2
    ensures |traded| == |rows| && PartOfLevel(traded, m, s)
    ensures SumOfSquares(Fanins(traded, m)) < SumOfSquares(Fanins(rows, m))
  {
    var i := TradableRow(rows, a, b);
    var c := Swap(rows[i], a, b);
    traded := rows[i := c];
    assert rows[i] in rows && |c| == |rows[i] - {a}| + 1 == s;
    forall d <- traded ensures Within(d, 0, m) && |d| == s {
      assert d == c || d in rows;
    }
    var f := Fanins(rows, m);
    forall j | 0 <= j < m ensures FanIn(traded, j) == f[a := f[a] - 1][b := f[b] + 1][j] {
      FanInUpdate(rows, i, c, j);
    }
    assert Fanins(traded, m) == f[a := f[a] - 1][b := f[b] + 1];
    MoveLowersSquares(f, a, b);
  }

  /** Trading until no parity bit is overloaded. */
  lemma {:induction false} Balance(rows: seq<Row>, m: nat, s: nat) returns (balanced: seq<Row>)
    requires m >= 1 && PartOfLevel(rows, m, s)
    ensures |balanced| == |rows| && PartOfLevel(balanced, m, s)
    ensures forall j | 0 <= j < m :: FanIn(balanced, j) <= CeilDiv(|rows| * s, m)
    decreases SumOfSquares(Fanins(rows, m))
  {
    if a: nat :| a < m && FanIn(rows, a) > CeilDiv(|rows| * s, m) {
      var b := SomeBitIsLow(rows, m, s, a);
      var traded := Trade(rows, m, s, a, b);
      balanced := Balance(traded, m, s);
    } else {
      balanced := rows;
    }
  }

  /** The rows of a list that are not in another one, in order. */
  ghost function Without(rows: seq<Row>, taken: seq<Row>): seq<Row> {
    if |rows| == 0 then []
    else
      var n := |rows| - 1;
      Without(rows[..n], taken) + if rows[n] in taken then [] else [rows[n]]
  }

  lemma {:induction false} WithoutCounts(rows: seq<Row>, taken: seq<Row>, c: Row)
    ensures multiset(Without(rows, taken))[c] == if c in taken then 0 else multiset(rows)[c]
  {
    if |rows| > 0 {
      var n := |rows| - 1;
      WithoutCounts(rows[..n], taken, c);
      LastCounts(rows, c);
      LastWithout(rows, taken, c);
    }
  }

  lemma LastCounts(rows: seq<Row>, c: Row)
    requires |rows| > 0
    ensures multiset(rows)[c] == multiset(rows[..|rows| - 1])[c] + if c == rows[|rows| - 1] then 1 else 0
  {
    assert rows == rows[..|rows| - 1] + [rows[|rows| - 1]];
  }

  lemma LastWithout(rows: seq<Row>, taken: seq<Row>, c: Row)
    requires |rows| > 0
    ensures var init, last := rows[..|rows| - 1], rows[|rows| - 1];
      multiset(Without(rows, taken))[c] == multiset(Without(init, taken))[c] + if c == last && c !in taken then 1 else 0
  {
    var init, last := rows[..|rows| - 1], rows[|rows| - 1];
    if last in taken {
      assert Without(rows, taken) == Without(init, taken);
    } else {
      assert Without(rows, taken) == Without(init, taken) + [last];
    }
  }

  /** Distinct rows of a level can be shuffled to its front. */
  lemma MoveToFront(level: seq<Row>, front: seq<Row>) returns (shuffled: seq<Row>)
    requires Distinct(level) && Distinct(front) && forall c <- front :: c in level
    ensures multiset(shuffled) == multiset(level)
    ensures |front| <= |shuffled| && shuffled[..|front|] == front
  {
    shuffled := front + Without(level, front);
    forall c ensures multiset(shuffled)[c] == multiset(level)[c] {
      WithoutCounts(level, front, c);
      DistinctCountsOnce(level, c);
      DistinctCountsOnce(front, c);
      assert multiset(shuffled) == multiset(front) + multiset(Without(level, front));
    }
  }

  /** The retry loop is never hopeless: some order of the candidates passes its test. */
  lemma SomeOrderIsAccepted(k: nat, m: nat) returns (shuffled: seq<Row>)
    requires HsiaoPlan(k, m).rem > 0
    ensures multiset(shuffled) == multiset(Level(m, HsiaoPlan(k, m).step))
    ensures Accepts(k, m, shuffled)
  {
    var p := HsiaoPlan(k, m);
    var level := Level(m, p.step);
    LevelIsAllCombinations(m, p.step);
    PlanRows(k, m, 3);
    PlanFanin(k, m, 3);
    var balanced := Balance(level[..p.rem], m, p.step);
    shuffled := MoveToFront(level, balanced);
  }

  /** A random generator under which `hsiao_code` leaves its retry loop at the first shuffle. */
  lemma SomeShufflerSucceeds(k: nat, m: nat) returns (shuffle: (nat, seq<Row>) -> seq<Row>)
    ensures IsShuffler(shuffle)
    ensures HsiaoPlan(k, m).rem > 0 ==> Accepts(k, m, Shuffled(shuffle, Level(m, HsiaoPlan(k, m).step), 1))
  {
    var good: seq<Row> := [];
    if HsiaoPlan(k, m).rem > 0 {
      good := SomeOrderIsAccepted(k, m);
    }
    shuffle := (t: nat, rows: seq<Row>) => if multiset(rows) == multiset(good) then good else rows;
    var level := Level(m, HsiaoPlan(k, m).step);
    assert Shuffled(shuffle, level, 1) == shuffle(0, Shuffled(shuffle, level, 0));
  }
}
