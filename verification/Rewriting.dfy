/**
 Step relations in which different steps from one point can be joined again by one
 step each: the order of steps does not matter.
 */
module Rewriting {

  ghost predicate ReachesIn<T(!new)>(step: (T, T) -> bool, n: nat, s: T, r: T)
    decreases n
  {
    if n == 0 then s == r else exists t :: step(s, t) && ReachesIn(step, n - 1, t, r)
  }

  ghost predicate Final<T(!new)>(step: (T, T) -> bool, s: T) {
    forall t :: !step(s, t)
  }

  ghost predicate Joins<T(!new)>(step: (T, T) -> bool, t: T, u: T) {
    exists z :: step(t, z) && step(u, z)
  }

  lemma JoinsEither<T(!new)>(step: (T, T) -> bool, t: T, u: T)
    requires Joins(step, t, u)
    ensures Joins(step, u, t)
  {
    var z :| step(t, z) && step(u, z);
    assert step(u, z) && step(t, z);
  }

  ghost predicate Diamond<T(!new)>(step: (T, T) -> bool) {
    forall s, t, u | step(s, t) && step(s, u) && t != u :: Joins(step, t, u)
  }

  /** Every element but the first is a step away from the one before. */
  ghost predicate Trace<T(!new)>(step: (T, T) -> bool, trace: seq<T>) {
    |trace| > 0 && forall k | 0 < k < |trace| :: step(trace[k - 1], trace[k])
  }

  lemma {:induction false} TraceReaches<T(!new)>(step: (T, T) -> bool, trace: seq<T>)
    requires Trace(step, trace)
    ensures ReachesIn(step, |trace| - 1, trace[0], trace[|trace| - 1])
    decreases |trace|
  {
    if |trace| > 1 {
      TraceReaches(step, trace[1..]);
      assert step(trace[0], trace[1]);
    }
  }

  lemma TwoStepsReach<T(!new)>(step: (T, T) -> bool, s: T, t: T, r: T)
    requires step(s, t) && step(t, r)
    ensures ReachesIn(step, 2, s, r)
  {
    assert ReachesIn(step, 0, r, r) && ReachesIn(step, 1, t, r);
  }

  ghost predicate Kept<T(!new)>(step: (T, T) -> bool, inv: T -> bool) {
    forall t, u | step(t, u) && inv(t) :: inv(u)
  }

  /** What every step keeps is so wherever steps lead. */
  lemma {:induction false} KeptAllAlong<T(!new)>(step: (T, T) -> bool, inv: T -> bool, n: nat, s: T, r: T)
    requires Kept(step, inv) && inv(s) && ReachesIn(step, n, s, r)
    ensures inv(r)
    decreases n
  {
    if n > 0 {
      var t :| step(s, t) && ReachesIn(step, n - 1, t, r);
      KeptAllAlong(step, inv, n - 1, t, r);
    }
  }

  /** Any first step is as good as any other. */
  lemma {:induction false} AnyFirstStep<T(!new)>(step: (T, T) -> bool, n: nat, s: T, r: T, t: T)
    requires Diamond(step) && ReachesIn(step, n, s, r) && Final(step, r) && step(s, t)
    ensures n > 0 && ReachesIn(step, n - 1, t, r)
    decreases n
  {
    if n > 0 {
      var q :| step(s, q) && ReachesIn(step, n - 1, q, r);
      if q != t {
        assert Joins(step, q, t);
        var z :| step(q, z) && step(t, z);
        AnyFirstStep(step, n - 1, q, r, z);
      }
    }
  }

  /** From any point on the way to a final one, the rest of the steps lead there. */
  lemma {:induction false} AnyBeginning<T(!new)>(step: (T, T) -> bool, n: nat, k: nat, s: T, r: T, t: T)
    requires Diamond(step) && ReachesIn(step, n, s, r) && Final(step, r) && ReachesIn(step, k, s, t)
    ensures k <= n && ReachesIn(step, n - k, t, r)
    decreases k
  {
    if k > 0 {
      var q :| step(s, q) && ReachesIn(step, k - 1, q, t);
      AnyFirstStep(step, n, s, r, q);
      AnyBeginning(step, n - 1, k - 1, q, r, t);
    }
  }

  /** Only one final point can be reached. */
  lemma OneFinal<T(!new)>(step: (T, T) -> bool, n: nat, k: nat, s: T, a: T, b: T)
    requires Diamond(step) && ReachesIn(step, n, s, a) && Final(step, a) && ReachesIn(step, k, s, b) && Final(step, b)
    ensures a == b && n == k
  {
    AnyBeginning(step, n, k, s, a, b);
    AnyBeginning(step, k, n, s, b, a);
  }

  /** What holds on any way from the beginning, and is kept, holds at the final point. */
  lemma KeptToTheEnd<T(!new)>(step: (T, T) -> bool, inv: T -> bool, n: nat, s: T, r: T, k: nat, t: T)
    requires Diamond(step) && ReachesIn(step, n, s, r) && Final(step, r)
    requires Kept(step, inv) && ReachesIn(step, k, s, t) && inv(t)
    ensures inv(r)
  {
    AnyBeginning(step, n, k, s, r, t);
    KeptAllAlong(step, inv, n - k, t, r);
  }

  /** A point to which more steps lead than to another one shows that the other one is not final. */
  lemma LongerWay<T(!new)>(step: (T, T) -> bool, n: nat, k: nat, s: T, r: T, t: T)
    requires Diamond(step) && ReachesIn(step, n, s, r) && ReachesIn(step, k, s, t) && k > n
    ensures !Final(step, r)
  {
    if Final(step, r) {
      AnyBeginning(step, n, k, s, r, t);
    }
  }
}
