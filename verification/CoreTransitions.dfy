/**
 What the transition counters count: over a whole token, each state that is left,
 and never twice.
 */
module CoreTransitions {
  import opened CoreTokens
  import opened CoreState

  /** The machine only moves on: no state is entered again. */
  function Rank(state: State): nat {
    match state
    case Start => 0
    case S1 => 1
    case Int => 2
    case Float => 3
    case S2 => 4
    case Exponent => 5
    case Scientific => 6
    case Invalid => 7
  }

  lemma MovesOn(state: State, c: Byte)
    ensures Delta(state, c) == state || Rank(Delta(state, c)) > Rank(state)
  {}

  /** Reading the token, the machine leaves the state with byte `k`. */
  ghost predicate LeavesAt(t: seq<Byte>, state: State, k: nat) {
    k < |t| && Run(t[..k]) == state != Run(t[..k + 1])
  }

  ghost predicate Leaves(t: seq<Byte>, state: State) {
    exists k: nat :: LeavesAt(t, state, k)
  }

  /** The states before and after byte `k` of a longer token. */
  lemma StatesAt(t: seq<Byte>, c: Byte, k: nat)
    requires k <= |t|
    ensures Run((t + [c])[..k]) == Run(t[..k])
    ensures Run((t + [c])[..k + 1]) == if k < |t| then Run(t[..k + 1]) else Delta(Run(t), c)
  {
    var u := t + [c];
    assert u[..k] == t[..k];
    if k < |t| {
      assert u[..k + 1] == t[..k + 1];
    } else {
      assert u[..k + 1] == u && t[..k] == t;
      RunMore(t, c);
    }
  }

  lemma LeavesEarlier(t: seq<Byte>, c: Byte, state: State, k: nat)
    requires k < |t|
    ensures LeavesAt(t + [c], state, k) <==> LeavesAt(t, state, k)
  {
    StatesAt(t, c, k);
  }

  lemma LeavesLast(t: seq<Byte>, c: Byte, state: State)
    ensures LeavesAt(t + [c], state, |t|) <==> Run(t) == state && Delta(state, c) != state
  {
    StatesAt(t, c, |t|);
    assert t[..|t|] == t;
  }

  lemma LeavesMore(t: seq<Byte>, c: Byte, state: State)
    ensures Leaves(t + [c], state) <==> Leaves(t, state) || (Run(t) == state && Delta(state, c) != state)
  {
    LeavesLast(t, c, state);
    if k: nat :| LeavesAt(t + [c], state, k) && k < |t| {
      LeavesEarlier(t, c, state, k);
    }
    if k: nat :| LeavesAt(t, state, k) {
      LeavesEarlier(t, c, state, k);
    }
  }

  /** What has been left is behind. */
  lemma {:induction false} LeftBehind(t: seq<Byte>, state: State)
    ensures Leaves(t, state) ==> Rank(Run(t)) > Rank(state)
  {
    if t != [] {
      var init, c := t[..|t| - 1], t[|t| - 1];
      assert t == init + [c];
      LeftBehind(init, state);
      LeavesMore(init, c, state);
      RunMore(init, c);
      MovesOn(Run(init), c);
    }
  }

  /** The counter of a state is raised once if the token leaves it, and only then; SCIENTIFIC is not counted. */
  lemma {:induction false} RaisesExactly(t: seq<Byte>, state: State)
    requires state != Invalid
    ensures Raises(t, Index(state)) == if state != Scientific && Leaves(t, state) then 1 else 0
  {
    if t != [] {
      var init, c := t[..|t| - 1], t[|t| - 1];
      assert t == init + [c];
      RaisesExactly(init, state);
      RaisesMore(init, c, Index(state));
      LeavesMore(init, c, state);
      LeftBehind(init, state);
    }
  }

  /** The token is rejected by byte `k` from the start or from within a number in scientific notation. */
  ghost predicate RejectsAt(t: seq<Byte>, k: nat) {
    k < |t| && (Run(t[..k]) == Start || Run(t[..k]) == Scientific) && Run(t[..k + 1]) == Invalid
  }

  ghost predicate Rejects(t: seq<Byte>) {
    exists k: nat :: RejectsAt(t, k)
  }

  lemma RejectsEarlier(t: seq<Byte>, c: Byte, k: nat)
    requires k < |t|
    ensures RejectsAt(t + [c], k) <==> RejectsAt(t, k)
  {
    StatesAt(t, c, k);
  }

  lemma RejectsLast(t: seq<Byte>, c: Byte)
    ensures RejectsAt(t + [c], |t|) <==>
      (Run(t) == Start || Run(t) == Scientific) && Delta(Run(t), c) == Invalid
  {
    StatesAt(t, c, |t|);
    assert t[..|t|] == t;
  }

  lemma RejectsMore(t: seq<Byte>, c: Byte)
    ensures Rejects(t + [c]) <==>
      Rejects(t) || ((Run(t) == Start || Run(t) == Scientific) && Delta(Run(t), c) == Invalid)
  {
    RejectsLast(t, c);
    if k: nat :| RejectsAt(t + [c], k) && k < |t| {
      RejectsEarlier(t, c, k);
    }
    if k: nat :| RejectsAt(t, k) {
      RejectsEarlier(t, c, k);
    }
  }

  lemma {:induction false} StaysRejected(t: seq<Byte>)
    ensures Rejects(t) ==> Run(t) == Invalid
  {
    if t != [] {
      var init, c := t[..|t| - 1], t[|t| - 1];
      assert t == init + [c];
      StaysRejected(init);
      RejectsMore(init, c);
      RunMore(init, c);
    }
  }

  /** The counter of INVALID is raised once by such a rejection, and not by one from another state. */
  lemma {:induction false} InvalidRaisesExactly(t: seq<Byte>)
    ensures Raises(t, Index(Invalid)) == if Rejects(t) then 1 else 0
  {
    if t != [] {
      var init, c := t[..|t| - 1], t[|t| - 1];
      assert t == init + [c];
      InvalidRaisesExactly(init);
      RaisesMore(init, c, Index(Invalid));
      RejectsMore(init, c);
      StaysRejected(init);
    }
  }
}
