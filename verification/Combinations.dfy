/**
 The combinations of `s` indices below `m`, in the lexicographic order of
 `itertools.combinations`, and how many there are.
 */
module Combinations {
  import opened Common
  import opened BitArith
  import opened SecdedCircuit

  function Choose(n: nat, s: nat): nat {
    if s == 0 then 1
    else if n == 0 then 0
    else Choose(n - 1, s - 1) + Choose(n - 1, s)
  }

  function AddToAll(x: nat, rows: seq<Row>): seq<Row> {
    seq(|rows|, i requires 0 <= i < |rows| => {x} + rows[i])
  }

  /** Combinations of `s` indices out of `lo..m`: first those with `lo`, then those without. */
  function Combs(lo: nat, m: nat, s: nat): seq<Row>
    requires lo <= m
    decreases m - lo
  {
    if s == 0 then [{}]
    else if lo == m then []
    else AddToAll(lo, Combs(lo + 1, m, s - 1)) + Combs(lo + 1, m, s)
  }

  /** `list(itertools.combinations(range(m), s))`. */
  function Level(m: nat, s: nat): seq<Row> {
    Combs(0, m, s)
  }

  ghost predicate Within(c: Row, lo: nat, m: nat) {
    forall x <- c :: lo <= x < m
  }

  lemma {:induction false} CombsCount(lo: nat, m: nat, s: nat)
    requires lo <= m
    ensures |Combs(lo, m, s)| == Choose(m - lo, s)
    decreases m - lo
  {
    if s > 0 && lo < m {
      CombsCount(lo + 1, m, s - 1);
      CombsCount(lo + 1, m, s);
    }
  }

  lemma {:induction false} CombsAreCombinations(lo: nat, m: nat, s: nat)
    requires lo <= m
    ensures forall c <- Combs(lo, m, s) :: Within(c, lo, m) && |c| == s
    decreases m - lo
  {
    if s > 0 && lo < m {
      CombsAreCombinations(lo + 1, m, s - 1);
      CombsAreCombinations(lo + 1, m, s);
      var with := Combs(lo + 1, m, s - 1);
      forall c <- Combs(lo, m, s) ensures Within(c, lo, m) && |c| == s {
        if c !in Combs(lo + 1, m, s) {
          var i :| 0 <= i < |with| && c == {lo} + with[i];
          assert with[i] in with;
        }
      }
    }
  }

  lemma {:induction false} CombinationIsListed(lo: nat, m: nat, s: nat, c: Row)
    requires lo <= m && Within(c, lo, m) && |c| == s
    ensures c in Combs(lo, m, s)
    decreases m - lo
  {
    if s == 0 {
      assert c == {};
    } else if lo == m {
      assert false;
    } else if lo in c {
      var rest := c - {lo};
      CombinationIsListed(lo + 1, m, s - 1, rest);
      var with := Combs(lo + 1, m, s - 1);
      var i :| 0 <= i < |with| && with[i] == rest;
      assert AddToAll(lo, with)[i] == {lo} + rest == c;
    } else {
      CombinationIsListed(lo + 1, m, s, c);
    }
  }

  lemma {:induction false} CombsDistinct(lo: nat, m: nat, s: nat)
    requires lo <= m
    ensures Distinct(Combs(lo, m, s))
    decreases m - lo
  {
    if s > 0 && lo < m {
      CombsDistinct(lo + 1, m, s - 1);
      CombsDistinct(lo + 1, m, s);
      CombsAreCombinations(lo + 1, m, s - 1);
      CombsAreCombinations(lo + 1, m, s);
      var with, without := Combs(lo + 1, m, s - 1), Combs(lo + 1, m, s);
      var all := AddToAll(lo, with) + without;
      forall i, j | 0 <= i < j < |all| ensures all[i] != all[j] {
        if j < |with| {
          assert with[i] in with && with[j] in with;
          assert all[i] - {lo} == with[i] && all[j] - {lo} == with[j];
        } else if i < |with| {
          assert without[j - |with|] in without;
          assert lo in all[i];
        }
      }
    }
  }

  /** The combinations of a level, exactly once each. */
  lemma LevelIsAllCombinations(m: nat, s: nat)
    ensures |Level(m, s)| == Choose(m, s)
    ensures Distinct(Level(m, s))
    ensures forall c: Row :: c in Level(m, s) <==> Within(c, 0, m) && |c| == s
  {
    CombsCount(0, m, s);
    CombsDistinct(0, m, s);
    CombsAreCombinations(0, m, s);
    forall c: Row | Within(c, 0, m) && |c| == s ensures c in Level(m, s) {
      CombinationIsListed(0, m, s, c);
    }
  }

  // ---------- Fan-in ----------

  /** How many of the rows mention parity bit `j`. */
  function FanIn(codes: seq<Row>, j: nat): nat {
    if |codes| == 0 then 0
    else FanIn(codes[..|codes| - 1], j) + (if j in codes[|codes| - 1] then 1 else 0)
  }

  lemma {:induction false} FanInConcat(a: seq<Row>, b: seq<Row>, j: nat)
    ensures FanIn(a + b, j) == FanIn(a, j) + FanIn(b, j)
  {
    if |b| == 0 {
      assert a + b == a;
    } else {
      assert (a + b)[..|a + b| - 1] == a + b[..|b| - 1];
      FanInConcat(a, b[..|b| - 1], j);
    }
  }

  lemma {:induction false} FanInAddToAll(x: nat, rows: seq<Row>, j: nat)
    ensures FanIn(AddToAll(x, rows), j) == if j == x then |rows| else FanIn(rows, j)
  {
    if |rows| > 0 {
      var n := |rows| - 1;
      assert AddToAll(x, rows)[..n] == AddToAll(x, rows[..n]);
      FanInAddToAll(x, rows[..n], j);
    }
  }

  lemma {:induction false} FanInOutside(rows: seq<Row>, j: nat)
    requires forall c <- rows :: j !in c
    ensures FanIn(rows, j) == 0
  {
    if |rows| > 0 {
      FanInOutside(rows[..|rows| - 1], j);
    }
  }

  lemma FanInLater(lo: nat, m: nat, s: nat, j: nat)
    requires lo < j < m && s >= 1
    ensures FanIn(Combs(lo, m, s), j) == FanIn(Combs(lo + 1, m, s - 1), j) + FanIn(Combs(lo + 1, m, s), j)
  {
    var with, without := Combs(lo + 1, m, s - 1), Combs(lo + 1, m, s);
    FanInConcat(AddToAll(lo, with), without, j);
    FanInAddToAll(lo, with, j);
  }

  lemma FanInBelow(lo: nat, m: nat, s: nat, j: nat)
    requires j < lo <= m
    ensures FanIn(Combs(lo, m, s), j) == 0
  {
    CombsAreCombinations(lo, m, s);
    FanInOutside(Combs(lo, m, s), j);
  }

  lemma FanInFirst(lo: nat, m: nat, s: nat)
    requires lo < m && s >= 1
    ensures FanIn(Combs(lo, m, s), lo) == Choose(m - lo - 1, s - 1)
  {
    var with, without := Combs(lo + 1, m, s - 1), Combs(lo + 1, m, s);
    FanInConcat(AddToAll(lo, with), without, lo);
    FanInAddToAll(lo, with, lo);
    CombsCount(lo + 1, m, s - 1);
    FanInBelow(lo + 1, m, s, lo);
  }

  /** The load on the t-th of `d` indices, by the recurrence of the enumeration. */
  ghost function Load(d: nat, s: nat, t: nat): nat
    requires t < d
  {
    if s == 0 then 0
    else if t == 0 then Choose(d - 1, s - 1)
    else Load(d - 1, s - 1, t - 1) + Load(d - 1, s, t - 1)
  }

  lemma {:induction false} LoadIsUniform(d: nat, s: nat, t: nat)
    requires t < d && s >= 1
    ensures Load(d, s, t) == Choose(d - 1, s - 1)
  {
    if t > 0 {
      LoadIsUniform(d - 1, s, t - 1);
      if s > 1 {
        LoadIsUniform(d - 1, s - 1, t - 1);
      }
    }
  }

  /** The number of rows with `j` among the combinations from `lo` on is its load. */
  ghost predicate IsLoad(lo: nat, m: nat, s: nat, j: nat)
    requires lo <= j < m
  {
    FanIn(Combs(lo, m, s), j) == Load(m - lo, s, j - lo)
  }

  lemma IsLoadLater(lo: nat, m: nat, s: nat, j: nat)
    requires lo < j < m && s >= 1
    requires IsLoad(lo + 1, m, s - 1, j) && IsLoad(lo + 1, m, s, j)
    ensures IsLoad(lo, m, s, j)
  {
    FanInLater(lo, m, s, j);
  }

  lemma IsLoadFirst(lo: nat, m: nat, s: nat)
    requires lo < m
    ensures IsLoad(lo, m, s, lo)
  {
    if s > 0 {
      FanInFirst(lo, m, s);
    } else {
      EmptyRowFanIn(lo);
    }
  }

  lemma {:induction false} FanInIsLoad(lo: nat, m: nat, s: nat, j: nat)
    requires lo <= j < m
    ensures IsLoad(lo, m, s, j)
    decreases m - lo
  {
    if s == 0 {
      EmptyRowFanIn(j);
    } else if j == lo {
      IsLoadFirst(lo, m, s);
    } else {
      FanInIsLoad(lo + 1, m, s - 1, j);
      FanInIsLoad(lo + 1, m, s, j);
      IsLoadLater(lo, m, s, j);
    }
  }

  /** A whole level loads every parity bit alike. */
  lemma CombsFanIn(m: nat, s: nat, j: nat)
    requires j < m && s >= 1
    ensures FanIn(Level(m, s), j) == Choose(m - 1, s - 1)
  {
    FanInIsLoad(0, m, s, j);
    LoadIsUniform(m, s, j);
  }

  lemma EmptyRowFanIn(j: nat)
    ensures FanIn([{}], j) == 0
  {}

  // ---------- Counting the odd levels ----------

  /** `C(n, s) + C(n, s + 1) + ... + C(n, n)`. */
  function ChooseTail(n: nat, s: nat): nat
    decreases n + 1 - s
  {
    if s > n then 0 else Choose(n, s) + ChooseTail(n, s + 1)
  }

  /** The number of rows on the levels `step`, `step + 2`, ... up to `m`. */
  function Capacity(m: nat, step: nat): nat
    decreases m + 1 - step
  {
    if step > m then 0 else Choose(m, step) + Capacity(m, step + 2)
  }

  lemma {:induction false} ChooseAbove(n: nat, s: nat)
    requires s > n
    ensures Choose(n, s) == 0
  {
    if n > 0 {
      ChooseAbove(n - 1, s - 1);
      ChooseAbove(n - 1, s);
    }
  }

  lemma {:induction false} ChooseTailPascal(n: nat, s: nat)
    requires n >= 1 && s >= 1
    ensures ChooseTail(n, s) == ChooseTail(n - 1, s - 1) + ChooseTail(n - 1, s)
    decreases n + 1 - s
  {
    if s == n {
      ChooseAbove(n - 1, s);
    } else if s < n {
      ChooseTailPascal(n, s + 1);
    }
  }

  lemma {:induction false} ChooseTailAll(n: nat)
    ensures ChooseTail(n, 0) == Pow2(n)
  {
    if n > 0 {
      ChooseTailAll(n - 1);
      ChooseTailPascal(n, 1);
      assert ChooseTail(n, 0) == 1 + ChooseTail(n, 1);
      assert ChooseTail(n - 1, 0) == 1 + ChooseTail(n - 1, 1);
    }
  }

  lemma {:induction false} CapacityIsTail(m: nat, step: nat)
    requires m >= 1 && step >= 1
    ensures Capacity(m, step) == ChooseTail(m - 1, step - 1)
    decreases m + 1 - step
  {
    if step == m {
      ChooseAbove(m - 1, m);
    } else if step < m {
      CapacityIsTail(m, step + 2);
    }
  }

  lemma {:induction false} ChooseOne(m: nat)
    ensures Choose(m, 1) == m
  {
    if m > 0 {
      ChooseOne(m - 1);
    }
  }

  /** The odd levels from three on hold `2^(m-1) - m` rows. */
  lemma OddCapacity(m: nat)
    requires m >= 1
    ensures Capacity(m, 3) + m == Pow2(m - 1)
  {
    CapacityIsTail(m, 1);
    ChooseTailAll(m - 1);
    ChooseOne(m);
  }

  // ---------- The order ----------

  /** Up to the least index that only one of them has, the two agree, and it belongs to `a`. */
  ghost predicate Precedes(a: Row, b: Row) {
    exists x :: PrecedesBy(a, b, x)
  }

  ghost predicate PrecedesBy(a: Row, b: Row, x: nat) {
    x in a && x !in b && forall y: nat | y < x :: y in a <==> y in b
  }

  ghost predicate InOrder(rows: seq<Row>) {
    forall i, j | 0 <= i < j < |rows| :: Precedes(rows[i], rows[j])
  }

  lemma PrecedesWith(lo: nat, a: Row, b: Row)
    requires Precedes(a, b) && lo !in a && lo !in b
    ensures Precedes({lo} + a, {lo} + b)
  {
    var x :| PrecedesBy(a, b, x);
    assert PrecedesBy({lo} + a, {lo} + b, x);
  }

  lemma PrecedesWithout(lo: nat, a: Row, b: Row)
    requires (forall x <- a :: x > lo) && (forall x <- b :: x > lo)
    ensures Precedes({lo} + a, b)
  {
    assert PrecedesBy({lo} + a, b, lo);
  }

  lemma AddedInOrder(lo: nat, rows: seq<Row>)
    requires InOrder(rows) && forall c <- rows :: lo !in c
    ensures InOrder(AddToAll(lo, rows))
  {
    forall i, j | 0 <= i < j < |rows| ensures Precedes({lo} + rows[i], {lo} + rows[j]) {
      PrecedesWith(lo, rows[i], rows[j]);
    }
  }

  lemma JoinedInOrder(a: seq<Row>, b: seq<Row>)
    requires InOrder(a) && InOrder(b)
    requires forall i, j | 0 <= i < |a| && 0 <= j < |b| :: Precedes(a[i], b[j])
    ensures InOrder(a + b)
  {}

  /** The list is in the lexicographic order of the sorted combinations. */
  lemma {:induction false} LexicographicOrder(lo: nat, m: nat, s: nat)
    requires lo <= m
    ensures InOrder(Combs(lo, m, s))
    decreases m - lo
  {
    if s > 0 && lo < m {
      var first, second := Combs(lo + 1, m, s - 1), Combs(lo + 1, m, s);
      LexicographicOrder(lo + 1, m, s - 1);
      LexicographicOrder(lo + 1, m, s);
      CombsAreCombinations(lo + 1, m, s - 1);
      CombsAreCombinations(lo + 1, m, s);
      AddedInOrder(lo, first);
      forall i, j | 0 <= i < |first| && 0 <= j < |second| ensures Precedes(AddToAll(lo, first)[i], second[j]) {
        assert first[i] in first && second[j] in second;
        PrecedesWithout(lo, first[i], second[j]);
      }
      JoinedInOrder(AddToAll(lo, first), second);
    }
  }
}
