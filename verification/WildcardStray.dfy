/**
 Stray braces: the computed name that the docstring of the expander gives as an
 example, and a value with stray braces of both sides with which the loop never ends.
 */
module WildcardStray {
  import opened Common
  import opened Rewriting
  import opened WildcardLex
  import opened WildcardText
  import opened Wildcards

  // A computed name: `{a}b}` where `a` stands for `a {` and `b` for `bee`.

  function ComputedContext(): Context {
    Context(map["a" := Str("a {"), "b" := Str("bee")], map[], [], false)
  }

  lemma Plain(setup: Setup, seen: seq<string>, s: string)
    requires '}' !in s
    ensures InertText(setup, s) && Rewrites(setup, seen, s, Done(s))
  {
    forall i: nat, name ensures !Occurs(s, i, name) {
      if Occurs(s, i, name) {
        OccursChars(s, i, name);
      }
    }
    assert ReachesIn(Steps(setup, seen), 0, s, s);
  }

  lemma PlainGiven(setup: Setup, seen: seq<string>, name: string)
    requires setup.Live(name) && name !in seen && '}' !in Render(setup.values[name])
    ensures Gives(setup, seen, name, Render(setup.values[name]))
  {
    Plain(setup, seen + [name], Render(setup.values[name]));
  }

  lemma OneStep(setup: Setup, seen: seq<string>, a: string, name: string, b: string)
    requires IsName(name) && setup.Live(name) && name !in seen && '}' !in Render(setup.values[name])
    ensures Step(setup, seen, a + Spelled(Wild(name)) + b, a + Render(setup.values[name]) + b)
  {
    PlainGiven(setup, seen, name);
    ReplaceAt(setup, seen, a, name, b, Render(setup.values[name]));
  }

  lemma TwoSteps(setup: Setup, seen: seq<string>, s: string, t: string, r: string)
    requires Step(setup, seen, s, t) && Step(setup, seen, t, r) && InertText(setup, r)
    ensures Rewrites(setup, seen, s, Done(r))
  {
    assert Steps(setup, seen)(s, t) && Steps(setup, seen)(t, r);
    TwoStepsReach(Steps(setup, seen), s, t, r);
  }

  lemma ComputedValues()
    ensures var setup := ComputedContext().Tokens();
      && IsName("a") && setup.Live("a") && Render(setup.values["a"]) == "a " + "{"
      && IsName("b") && setup.Live("b") && Render(setup.values["b"]) == "bee"
  {
    TokensLexed(ComputedContext());
    assert ComputedContext().Defines("a") && ComputedContext().Defines("b") && "a " + "{" == "a {";
  }

  lemma ComputedParts(first: string, value: string, name: string)
    ensures "" + Spelled(Wild(first)) + (name + "}") == Spelled(Wild(first)) + (name + "}")
    ensures "" + (value + "{") + (name + "}") == value + Spelled(Wild(name)) + ""
  {}

  lemma ComputedSteps(setup: Setup, first: string, value: string, name: string, result: string)
    requires IsName(first) && setup.Live(first) && Render(setup.values[first]) == value + "{" && '}' !in value
    requires IsName(name) && setup.Live(name) && Render(setup.values[name]) == result && '}' !in result
    ensures Step(setup, [], Spelled(Wild(first)) + (name + "}"), value + Spelled(Wild(name)) + "")
    ensures Step(setup, [], value + Spelled(Wild(name)) + "", value + result + "")
  {
    ComputedParts(first, value, name);
    OneStep(setup, [], "", first, name + "}");
    OneStep(setup, [], value, name, "");
  }

  /** A name put together from the value of another one. */
  lemma ComputedRewrites(setup: Setup, first: string, value: string, name: string, result: string)
    requires IsName(first) && setup.Live(first) && Render(setup.values[first]) == value + "{" && '}' !in value
    requires IsName(name) && setup.Live(name) && Render(setup.values[name]) == result && '}' !in result
    ensures Rewrites(setup, [], Spelled(Wild(first)) + (name + "}"), Done(value + result + ""))
  {
    ComputedSteps(setup, first, value, name, result);
    Plain(setup, [], value + result + "");
    TwoSteps(setup, [], Spelled(Wild(first)) + (name + "}"), value + Spelled(Wild(name)) + "", value + result + "");
  }

  lemma ComputedEnds()
    ensures Ends(ComputedContext().Tokens(), Closing, "{a}b}")
  {
    Stray("a ");
    PlainTame(Closing, "bee");
    TameContextEnds(ComputedContext(), Closing, "{a}b}");
  }

  lemma Stray(value: string)
    requires '{' !in value && '}' !in value
    ensures Tame(Closing, value + "{")
  {
    PlainTame(Closing, value);
    assert "{"[1..] == "";
    TameJoin(Closing, value, "{");
  }

  lemma ComputedResult()
    ensures Rewrites(ComputedContext().Tokens(), [], Spelled(Wild("a")) + ("b" + "}"), Done("a " + "bee" + ""))
  {
    ComputedValues();
    ComputedRewrites(ComputedContext().Tokens(), "a", "a ", "b", "bee");
  }

  /** The result is `a bee`, as documented; no value has a stray closing brace, so the loop ends. */
  lemma ComputedName()
    ensures Ends(ComputedContext().Tokens(), Closing, "{a}b}")
    ensures Rewrites(ComputedContext().Tokens(), [], "{a}b}", Done("a bee"))
  {
    ComputedEnds();
    ComputedResult();
    assert Spelled(Wild("a")) + ("b" + "}") == "{a}b}" && "a " + "bee" + "" == "a bee";
  }

  // Stray braces of both sides: `{c{c}` where `c` stands for `}}{c{c`.

  const GROWING := "}}{c{c"

  /** One turn of the loop when the value of every wildcard is GROWING, which holds no wildcard itself. */
  function Turn(text: string): string {
    GrownAt(text, Search(text))
  }

  function GrownAt(text: string, m: Match): string {
    if m.Match? && m.start <= m.end <= |text| then text[..m.start] + GROWING + text[m.end..] else text
  }

  function Turns(n: nat, text: string): string {
    if n == 0 then text else Turns(n - 1, Turn(text))
  }

  function Braces(k: nat): string {
    if k == 0 then "" else "}" + Braces(k - 1)
  }

  function Shifted(m: Match, n: nat): Match {
    if m.Match? then Match(n + m.start, n + m.end, m.name) else NoMatch
  }

  lemma SearchShifts(s: string)
    requires Search(s).Match?
    ensures Search("}" + s) == Shifted(Search(s), 1)
  {
    assert ("}" + s)[1..] == s;
  }

  lemma SearchAfterOne(b: string, s: string)
    requires Search(s).Match? && Search(b + s) == Shifted(Search(s), |b|)
    ensures Search(("}" + b) + s) == Shifted(Search(s), |b| + 1)
  {
    SearchShifts(b + s);
    Associate("}", b, s);
  }

  lemma {:induction false} SearchAfterBraces(k: nat, s: string)
    requires Search(s).Match?
    ensures Search(Braces(k) + s) == Shifted(Search(s), |Braces(k)|)
  {
    if k == 0 {
      assert Braces(0) + s == s;
    } else {
      SearchAfterBraces(k - 1, s);
      SearchAfterOne(Braces(k - 1), s);
    }
  }

  lemma GrownAfter(a: string, s: string, m: Match)
    requires m.Match? && m.start <= m.end <= |s|
    ensures GrownAt(a + s, Shifted(m, |a|)) == a + GrownAt(s, m)
  {
    var pre, post := s[..m.start], s[m.end..];
    assert (a + s)[..|a| + m.start] == a + pre && (a + s)[|a| + m.end..] == post;
    assert (a + pre) + GROWING + post == a + (pre + GROWING + post);
  }

  lemma TurnAfterBraces(k: nat, s: string)
    requires Search(s).Match?
    ensures Turn(Braces(k) + s) == Braces(k) + Turn(s)
  {
    SearchAfterBraces(k, s);
    GrownAfter(Braces(k), s, Search(s));
  }

  lemma SearchAtHead(t: string)
    ensures Search("{c}" + t) == Match(0, 3, "c")
  {
    var s := "{c}" + t;
    assert s[1..][1..] == "}" + t;
    assert NameLength(s[1..][1..]) == 0;
    assert NameLength(s[1..]) == 1;
    assert s[1..2] == "c";
  }

  lemma SearchSecond(t: string)
    ensures Search("{c{c}" + t) == Match(2, 5, "c")
  {
    var s := "{c{c}" + t;
    assert s[1..][1..] == "{c}" + t;
    assert NameLength(s[1..][1..]) == 0;
    assert NameLength(s[1..]) == 1 && !WildcardHead(s) && !WildcardHead(s[1..]);
    SearchAtHead(t);
    assert Search(s[1..]) == Match(1, 4, "c");
  }

  lemma FirstTurn(t: string)
    ensures Turn("{c{c}" + t) == "{c}" + ("}{c{c" + t)
  {
    SearchSecond(t);
    var s := "{c{c}" + t;
    assert s[..2] == "{c" && s[5..] == t;
    assert "{c" + GROWING + t == "{c}" + ("}{c{c" + t);
  }

  lemma SecondTurn(t: string)
    ensures Turn("{c}" + ("}{c{c" + t)) == "}}" + ("{c{c}" + ("{c{c" + t))
  {
    SearchAtHead("}{c{c" + t);
    var s := "{c}" + ("}{c{c" + t);
    assert s[..0] == "" && s[3..] == "}{c{c" + t;
    assert "" + GROWING + ("}{c{c" + t) == "}}" + ("{c{c}" + ("{c{c" + t));
  }

  ghost predicate FindsC(text: string) {
    Search(text).Match? && Search(text).name == "c"
  }

  /** Two turns later the text has only grown. */
  lemma TwoTurns(k: nat, t: string)
    ensures FindsC(Braces(k) + ("{c{c}" + t)) && FindsC(Turn(Braces(k) + ("{c{c}" + t)))
    ensures Turn(Turn(Braces(k) + ("{c{c}" + t))) == Braces(k + 2) + ("{c{c}" + ("{c{c" + t))
  {
    var s, s1 := "{c{c}" + t, "{c}" + ("}{c{c" + t);
    FirstTurn(t);
    SecondTurn(t);
    SearchSecond(t);
    SearchAtHead("}{c{c" + t);
    SearchAfterBraces(k, s);
    TurnAfterBraces(k, s);
    SearchAfterBraces(k, s1);
    TurnAfterBraces(k, s1);
    BracesMore(k);
    Associate(Braces(k), "}}", "{c{c}" + ("{c{c" + t));
  }

  lemma {:induction false} BracesMore(k: nat)
    ensures Braces(k) + "}}" == Braces(k + 2)
  {
    if k > 0 {
      BracesMore(k - 1);
    } else {
      assert Braces(1) == "}" && Braces(2) == "}" + Braces(1);
    }
  }

  lemma {:induction false} GrowsForever(n: nat, k: nat, t: string)
    ensures FindsC(Turns(n, Braces(k) + ("{c{c}" + t)))
  {
    TwoTurns(k, t);
    if n >= 2 {
      GrowsForever(n - 2, k + 2, "{c{c" + t);
    }
  }

  function GrowingContext(): Context {
    Context(map["c" := Str(GROWING)], map[], [COMMAND], true)
  }

  lemma GrowingAlone()
    ensures Search(GROWING).NoMatch?
  {
    assert GROWING[1..] == "}{c{c" && GROWING[1..][1..] == "{c{c" && "{c{c"[1..] == "c{c" && "c{c"[1..] == "{c" &&
      "{c"[1..] == "c";
    assert Search("c").NoMatch?;
    assert Search("{c").NoMatch?;
    assert Search("c{c").NoMatch?;
    assert Search("{c{c").NoMatch?;
  }

  lemma GrowingValue()
    ensures var setup := GrowingContext().Tokens();
      setup.Live("c") && Render(setup.values["c"]) == GROWING && setup.values.Keys == {"c"} && InertText(setup, GROWING)
  {
    TokensLexed(GrowingContext());
    assert GrowingContext().Defines("c");
    GrowingAlone();
    SearchFindsFirst(GROWING);
  }

  lemma GrowingGiven()
    ensures Gives(GrowingContext().Tokens(), [], "c", GROWING)
  {
    GrowingValue();
    assert ReachesIn(Steps(GrowingContext().Tokens(), [] + ["c"]), 0, GROWING, GROWING);
  }

  /** A turn of the loop is a replacement. */
  lemma TurnIsStep(text: string)
    requires FindsC(text)
    ensures Step(GrowingContext().Tokens(), [], text, Turn(text))
  {
    GrowingGiven();
    SearchFindsFirst(text);
    var m := Search(text);
    assert Replaces(GrowingContext().Tokens(), [], text, m.start, "c", GROWING, Turn(text));
  }

  lemma {:induction false} LastTurn(n: nat, text: string)
    ensures Turns(n + 1, text) == Turn(Turns(n, text))
  {
    if n > 0 {
      LastTurn(n - 1, Turn(text));
    }
  }

  function TurnsFrom(n: nat, text: string): seq<string> {
    seq(n + 1, k requires 0 <= k => Turns(k, text))
  }

  /** Turns are replacements. */
  ghost predicate Turning(setup: Setup) {
    forall s | FindsC(s) :: Step(setup, [], s, Turn(s))
  }

  lemma GrowingTurns()
    ensures Turning(GrowingContext().Tokens())
  {
    forall s | FindsC(s) ensures Step(GrowingContext().Tokens(), [], s, Turn(s)) {
      TurnIsStep(s);
    }
  }

  lemma TurnsTraced(setup: Setup, n: nat, text: string)
    requires Turning(setup) && forall k | 0 <= k < n :: FindsC(Turns(k, text))
    ensures Trace(Steps(setup, []), TurnsFrom(n, text))
  {
    var trace := TurnsFrom(n, text);
    forall k | 0 < k < |trace| ensures Step(setup, [], trace[k - 1], trace[k]) {
      assert FindsC(Turns(k - 1, text));
      LastTurn(k - 1, text);
    }
  }

  lemma TurnsReach(setup: Setup, n: nat, text: string)
    requires Turning(setup) && forall k | 0 <= k < n :: FindsC(Turns(k, text))
    ensures ReachesIn(Steps(setup, []), n, text, Turns(n, text))
  {
    TurnsTraced(setup, n, text);
    TraceReaches(Steps(setup, []), TurnsFrom(n, text));
  }

  /** Nothing stands in the way in this context. */
  lemma NothingHinders(name: string, error: Error)
    ensures !Hinders(GrowingContext().Tokens(), [], name, error)
  {
    var setup := GrowingContext().Tokens();
    GrowingValue();
    assert COMMAND in GrowingContext().ignored;
    if Hinders(setup, [], name, error) {
      assert name == "c" && [] + [name] == ["c"];
      GrowingGiven();
      GivesOrHinders(setup, [], name, GROWING, error);
    }
  }

  lemma NeverStops(s: string, error: Error)
    ensures !StopsAt(GrowingContext().Tokens(), [], s, error)
  {
    forall name ensures !Hinders(GrowingContext().Tokens(), [], name, error) {
      NothingHinders(name, error);
    }
  }

  lemma NotInert(setup: Setup, n: nat, k: nat, text: string, r: string, q: string)
    requires ReachesIn(Steps(setup, []), n, text, r) && ReachesIn(Steps(setup, []), k, text, q) && k > n
    ensures !InertText(setup, r)
  {
    DiamondOfSteps(setup, []);
    LongerWay(Steps(setup, []), n, k, text, r, q);
    if InertText(setup, r) {
      InertIsFinal(setup, [], r);
    }
  }

  /** What goes on turning for ever has no result. */
  lemma NeverDone(setup: Setup, text: string, r: string)
    requires Turning(setup) && forall k: nat :: FindsC(Turns(k, text))
    ensures !Rewrites(setup, [], text, Done(r))
  {
    forall n: nat | ReachesIn(Steps(setup, []), n, text, r) ensures !InertText(setup, r) {
      TurnsReach(setup, n + 1, text);
      NotInert(setup, n, n + 1, text, r, Turns(n + 1, text));
    }
  }

  lemma AlwaysFinds(k: nat)
    ensures FindsC(Turns(k, "{c{c}"))
  {
    assert Braces(0) + ("{c{c}" + "") == "{c{c}";
    GrowsForever(k, 0, "");
  }

  /** With a value that has stray braces of both sides, the text has no outcome: the loop goes on for ever. */
  lemma StrayBracesNeverEnd(outcome: TextOutcome)
    ensures !Rewrites(GrowingContext().Tokens(), [], "{c{c}", outcome)
    ensures forall side :: !Tame(side, GROWING)
  {
    match outcome {
      case Done(r) =>
        GrowingTurns();
        forall k: nat ensures FindsC(Turns(k, "{c{c}")) {
          AlwaysFinds(k);
        }
        NeverDone(GrowingContext().Tokens(), "{c{c}", r);
      case Raised(error) =>
        forall r ensures !StopsAt(GrowingContext().Tokens(), [], r, error) {
          NeverStops(r, error);
        }
    }
    forall side: Side ensures !Tame(side, GROWING) {
      GrowingStray(side);
    }
  }

  lemma GrowingStray(side: Side)
    ensures !Tame(side, GROWING)
  {
    GrowingAlone();
    SearchFindsFirst(GROWING);
    if Tame(side, GROWING) {
      BraceBelongs(side, GROWING, if side.Opening? then 2 else 0);
    }
  }
}
