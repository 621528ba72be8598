/**
 The number formats that the CoreMark state machine tells apart, as languages,
 and the proof that its transitions accept exactly those.
 */
module CoreTokens {
  import opened Common

  /** An unsigned byte. */
  type Byte = x: int | 0 <= x < 256

  const COMMA: Byte := 0x2C
  const PLUS: Byte := 0x2B
  const MINUS: Byte := 0x2D
  const POINT: Byte := 0x2E

  datatype State = Start | Invalid | S1 | S2 | Int | Float | Exponent | Scientific

  predicate IsDigit(c: Byte) {
    0x30 <= c <= 0x39
  }

  predicate IsSign(c: Byte) {
    c == PLUS || c == MINUS
  }

  predicate IsE(c: Byte) {
    c == 0x45 || c == 0x65
  }

  // The languages.

  ghost predicate Digits(t: seq<Byte>) {
    forall c <- t :: IsDigit(c)
  }

  /** What follows an optional sign. */
  function Unsigned(t: seq<Byte>): seq<Byte> {
    if t != [] && IsSign(t[0]) then t[1..] else t
  }

  /** A point at the given place among digits. */
  ghost predicate PointAt(u: seq<Byte>, k: nat) {
    k < |u| && u[k] == POINT && Digits(u[..k]) && Digits(u[k + 1..])
  }

  ghost predicate IsFloat(t: seq<Byte>) {
    exists k: nat :: PointAt(Unsigned(t), k)
  }

  /** A float followed by `e` or `E`. */
  ghost predicate IsMantissa(t: seq<Byte>) {
    t != [] && IsFloat(t[..|t| - 1]) && IsE(t[|t| - 1])
  }

  ghost predicate IsScale(t: seq<Byte>) {
    t != [] && IsMantissa(t[..|t| - 1]) && IsSign(t[|t| - 1])
  }

  ghost predicate IsScientificAt(t: seq<Byte>, k: nat) {
    k < |t| && IsScale(t[..k]) && Digits(t[k..])
  }

  ghost predicate IsScientific(t: seq<Byte>) {
    exists k: nat :: IsScientificAt(t, k)
  }

  /** The tokens that end in each of the states. */
  ghost predicate InLanguage(state: State, t: seq<Byte>) {
    match state
    case Start => t == []
    case S1 => |t| == 1 && IsSign(t[0])
    case Int => Unsigned(t) != [] && Digits(Unsigned(t))
    case Float => IsFloat(t)
    case S2 => IsMantissa(t)
    case Exponent => IsScale(t)
    case Scientific => IsScientific(t)
    case Invalid => false
  }

  /** A beginning of a number in scientific notation, the longest of the formats. */
  ghost predicate Viable(t: seq<Byte>) {
    exists rest :: IsScientific(t + rest)
  }

  // The machine.

  function Delta(state: State, c: Byte): State {
    match state
    case Start => if IsDigit(c) then Int else if IsSign(c) then S1 else if c == POINT then Float else Invalid
    case S1 => if IsDigit(c) then Int else if c == POINT then Float else Invalid
    case Int => if c == POINT then Float else if !IsDigit(c) then Invalid else Int
    case Float => if IsE(c) then S2 else if !IsDigit(c) then Invalid else Float
    case S2 => if IsSign(c) then Exponent else Invalid
    case Exponent => if IsDigit(c) then Scientific else Invalid
    case Scientific => if !IsDigit(c) then Invalid else Scientific
    case Invalid => Invalid
  }

  function Run(t: seq<Byte>): State {
    if t == [] then Start else Delta(Run(t[..|t| - 1]), t[|t| - 1])
  }

  lemma RunMore(t: seq<Byte>, c: Byte)
    ensures Run(t + [c]) == Delta(Run(t), c)
  {
    assert (t + [c])[..|t|] == t;
  }

  lemma UnsignedMore(t: seq<Byte>, c: Byte)
    ensures t != [] || !IsSign(c) ==> Unsigned(t + [c]) == Unsigned(t) + [c]
  {}

  lemma PointMore(u: seq<Byte>, k: nat, c: Byte)
    ensures IsDigit(c) && PointAt(u, k) ==> PointAt(u + [c], k)
    ensures PointAt(u + [c], k) && k < |u| ==> PointAt(u, k) && IsDigit(c)
  {
    if k < |u| {
      assert (u + [c])[..k] == u[..k] && (u + [c])[k + 1..] == u[k + 1..] + [c];
      assert u[k + 1..] + [c] == (u + [c])[k + 1..];
      if PointAt(u + [c], k) {
        assert c in (u + [c])[k + 1..];
        forall d <- u[k + 1..] ensures IsDigit(d) {
          assert d in (u + [c])[k + 1..];
        }
      }
    }
  }

  /** A step of the machine leads from language to language. */
  lemma Forward(state: State, t: seq<Byte>, c: Byte)
    requires InLanguage(state, t) && Delta(state, c) != Invalid
    ensures InLanguage(Delta(state, c), t + [c])
  {
    UnsignedMore(t, c);
    assert (t + [c])[..|t|] == t;
    match state {
      case Start => ForwardToPoint(t, c);
      case S1 => ForwardToPoint(t, c);
      case Int => ForwardToPoint(t, c);
      case Float =>
        if IsDigit(c) {
          var k: nat :| PointAt(Unsigned(t), k);
          PointMore(Unsigned(t), k, c);
        }
      case S2 =>
      case Exponent => assert IsScientificAt(t + [c], |t|);
      case Scientific => ForwardScientific(t, c);
      case Invalid =>
    }
  }

  lemma ForwardToPoint(t: seq<Byte>, c: Byte)
    requires Digits(Unsigned(t))
    ensures c == POINT ==> InLanguage(Float, t + [c])
    ensures IsDigit(c) ==> InLanguage(Int, t + [c])
  {
    var u := Unsigned(t);
    UnsignedMore(t, c);
    if c == POINT {
      assert (u + [c])[..|u|] == u;
      assert PointAt(Unsigned(t + [c]), |u|);
    }
  }

  lemma ForwardScientific(t: seq<Byte>, c: Byte)
    requires IsScientific(t) && IsDigit(c)
    ensures IsScientific(t + [c])
  {
    var k: nat :| IsScientificAt(t, k);
    assert (t + [c])[..k] == t[..k] && (t + [c])[k..] == t[k..] + [c];
    assert IsScientificAt(t + [c], k);
  }

  /** A nonempty token of a language comes from a step of the machine. */
  lemma Backward(state: State, t: seq<Byte>, c: Byte) returns (before: State)
    requires InLanguage(state, t + [c])
    ensures InLanguage(before, t) && Delta(before, c) == state
  {
    assert (t + [c])[..|t|] == t;
    UnsignedMore(t, c);
    var u := Unsigned(t);
    match state {
      case Start =>
      case S1 => before := Start;
      case Int => before := BackwardInt(t, c);
      case Float => before := BackwardFloat(t, c);
      case S2 => before := Float;
      case Exponent => before := S2;
      case Scientific => before := BackwardScientific(t, c);
      case Invalid =>
    }
  }

  /** What can stand before a digit or the point. */
  lemma BeforeMore(t: seq<Byte>) returns (before: State)
    requires Digits(Unsigned(t))
    ensures before == Start || before == S1 || before == Int
    ensures InLanguage(before, t)
  {
    before := if t == [] then Start else if Unsigned(t) == [] then S1 else Int;
  }

  lemma BackwardInt(t: seq<Byte>, c: Byte) returns (before: State)
    requires InLanguage(Int, t + [c])
    ensures InLanguage(before, t) && Delta(before, c) == Int
  {
    UnsignedMore(t, c);
    var u := Unsigned(t);
    assert t != [] || !IsSign(c);
    assert c in u + [c];
    forall d <- u ensures IsDigit(d) {
      assert d in u + [c];
    }
    before := BeforeMore(t);
  }

  lemma BackwardFloat(t: seq<Byte>, c: Byte) returns (before: State)
    requires InLanguage(Float, t + [c])
    ensures InLanguage(before, t) && Delta(before, c) == Float
  {
    var k: nat :| PointAt(Unsigned(t + [c]), k);
    UnsignedMore(t, c);
    var u := Unsigned(t);
    if k < |u| {
      PointMore(u, k, c);
      before := Float;
    } else {
      assert (u + [c])[..k] == u;
      before := BeforeMore(t);
    }
  }

  lemma BackwardScientific(t: seq<Byte>, c: Byte) returns (before: State)
    requires InLanguage(Scientific, t + [c])
    ensures InLanguage(before, t) && Delta(before, c) == Scientific
  {
    var k: nat :| IsScientificAt(t + [c], k);
    assert (t + [c])[..k] == t[..k] && (t + [c])[k..] == t[k..] + [c];
    assert c in t[k..] + [c];
    if k < |t| {
      forall d <- t[k..] ensures IsDigit(d) {
        assert d in t[k..] + [c];
      }
      assert IsScientificAt(t, k);
      before := Scientific;
    } else {
      assert t[..k] == t;
      before := Exponent;
    }
  }

  /** The machine ends in a state exactly for the tokens of its language. */
  lemma {:induction false} RunExactly(t: seq<Byte>, state: State)
    requires state != Invalid
    ensures Run(t) == state <==> InLanguage(state, t)
  {
    if t == [] {
      EmptyToken(state);
    } else {
      var init, c := t[..|t| - 1], t[|t| - 1];
      assert t == init + [c];
      if Run(t) == state {
        RunExactly(init, Run(init));
        Forward(Run(init), init, c);
      }
      if InLanguage(state, t) {
        var before := Backward(state, init, c);
        RunExactly(init, before);
      }
    }
  }

  lemma EmptyToken(state: State)
    ensures InLanguage(state, []) <==> state == Start
  {}

  /** Every token that the machine has not rejected can still become a number. */
  lemma ViableExactly(t: seq<Byte>)
    ensures Viable(t) <==> Run(t) != Invalid
  {
    if Run(t) != Invalid {
      var rest := Completion(t, Run(t));
    }
    if Viable(t) {
      var rest :| IsScientific(t + rest);
      RunExactly(t + rest, Scientific);
      InvalidStays(t, rest);
    }
  }

  lemma {:induction false} InvalidStays(t: seq<Byte>, rest: seq<Byte>)
    ensures Run(t) == Invalid ==> Run(t + rest) == Invalid
  {
    if rest == [] {
      assert t + rest == t;
    } else {
      InvalidStays(t, rest[..|rest| - 1]);
      assert t + rest == (t + rest[..|rest| - 1]) + [rest[|rest| - 1]];
      RunMore(t + rest[..|rest| - 1], rest[|rest| - 1]);
    }
  }

  /** How far a state is from scientific notation. */
  function Distance(state: State): nat {
    match state
    case Start => 5
    case S1 => 5
    case Int => 4
    case Float => 3
    case S2 => 2
    case Exponent => 1
    case _ => 0
  }

  /** A byte on the way there. */
  function Nearer(state: State): (c: Byte)
    ensures 0 < Distance(state) ==> Delta(state, c) != Invalid && Distance(Delta(state, c)) < Distance(state)
  {
    match state
    case Float => 0x65
    case S2 => PLUS
    case Exponent => 0x30
    case _ => POINT
  }

  lemma {:induction false} Completion(t: seq<Byte>, state: State) returns (rest: seq<Byte>)
    requires Run(t) == state && state != Invalid
    ensures IsScientific(t + rest)
    decreases Distance(state)
  {
    if state == Scientific {
      rest := [];
      assert t + rest == t;
      RunExactly(t, Scientific);
    } else {
      var c := Nearer(state);
      RunMore(t, c);
      var more := Completion(t + [c], Delta(state, c));
      rest := [c] + more;
      Associate(t, [c], more);
    }
  }
}
