/**
 The wildcard expander: recursive expansion of `{name}` in a string with
 detection of circular definitions. The meaning of an expansion is defined on
 token lists here; WildcardText.dfy does it on strings.
 */
module Wildcards {
  import opened Common

  datatype Token = Lit(c: char) | Wild(name: string)

  /** What stops an expansion; at a wildcard that runs a command it is the model that stops. */
  datatype Error = Circular(name: string) | Unknown(name: string) | Command

  datatype Outcome = Expanded(text: seq<Token>) | Failed(error: Error)

  /**
   The defined names and their values, the names to be left alone, whether undefined
   names are an error, and the name that runs a command.
   */
  datatype Setup = Setup(values: map<string, seq<Token>>, ignored: set<string>, ignoreError: bool, command: string) {

    /** A wildcard that is to be replaced by its value. */
    predicate Live(name: string) {
      name !in ignored && name != command && name in values
    }

    /** A wildcard that may stay in the result. */
    predicate MayStay(name: string) {
      name in ignored || (name != command && name !in values && ignoreError)
    }

    /** A wildcard that stops the expansion: an undefined one, or the one that runs a command. */
    predicate Stops(name: string) {
      name !in ignored && (name == command || (name !in values && !ignoreError))
    }

    function StopOf(name: string): Error {
      if name == command then Command else Unknown(name)
    }
  }

  /** Left-to-right expansion of a text inside the expansions of the names in `seen`. */
  function Expand(setup: Setup, text: seq<Token>, seen: seq<string>): Outcome
    decreases setup.values.Keys - (set n <- seen), |text|
  {
    if text == [] then Expanded([])
    else if text[0].Lit? || text[0].name in setup.ignored then Before([text[0]], Expand(setup, text[1..], seen))
    else
      var name := text[0].name;
      if name in seen then Failed(Circular(name))
      else if name == setup.command then Failed(Command)
      else if name !in setup.values then
        if setup.ignoreError then Before([text[0]], Expand(setup, text[1..], seen)) else Failed(Unknown(name))
      else
        assert name in setup.values.Keys - (set n <- seen) && name !in setup.values.Keys - (set n <- seen + [name]);
        match Expand(setup, setup.values[name], seen + [name])
        case Failed(error) => Failed(error)
        case Expanded(value) => Before(value, Expand(setup, text[1..], seen))
  }

  function Before(text: seq<Token>, rest: Outcome): Outcome {
    match rest
    case Expanded(tail) => Expanded(text + tail)
    case Failed(error) => Failed(error)
  }

  /** Only wildcards that may stay. */
  ghost predicate Inert(setup: Setup, text: seq<Token>) {
    forall t <- text :: t.Wild? ==> setup.MayStay(t.name)
  }

  /** What comes out holds ignored or undefined wildcards only. */
  lemma {:induction false} ExpandedIsInert(setup: Setup, text: seq<Token>, seen: seq<string>)
    requires Expand(setup, text, seen).Expanded?
    ensures Inert(setup, Expand(setup, text, seen).text)
    decreases setup.values.Keys - (set n <- seen), |text|
  {
    if text != [] {
      ExpandedIsInert(setup, text[1..], seen);
      if text[0].Wild? && setup.Live(text[0].name) {
        var name := text[0].name;
        assert name in setup.values.Keys - (set n <- seen) && name !in setup.values.Keys - (set n <- seen + [name]);
        ExpandedIsInert(setup, setup.values[name], seen + [name]);
      }
    }
  }

  /** No name that is being expanded may stay as undefined. */
  ghost predicate Proper(setup: Setup, seen: seq<string>) {
    forall n <- seen :: setup.Live(n)
  }

  /** Text that has been expanded is skipped over when it is scanned again. */
  lemma {:induction false} InertPrefix(setup: Setup, text: seq<Token>, rest: seq<Token>, seen: seq<string>)
    requires Inert(setup, text) && Proper(setup, seen)
    ensures Expand(setup, text + rest, seen) == Before(text, Expand(setup, rest, seen))
  {
    if text == [] {
      assert text + rest == rest;
      match Expand(setup, rest, seen) {
        case Expanded(t) => assert [] + t == t;
        case Failed(_) =>
      }
    } else {
      var all := text + rest;
      assert all[0] == text[0] && all[1..] == text[1..] + rest && all[0] in text;
      InertPrefix(setup, text[1..], rest, seen);
      match Expand(setup, rest, seen) {
        case Expanded(t) => assert [text[0]] + (text[1..] + t) == text + t;
        case Failed(_) =>
      }
    }
  }

  /** Expanding the result again changes nothing. */
  lemma ExpandIdempotent(setup: Setup, text: seq<Token>)
    requires Expand(setup, text, []).Expanded?
    ensures Expand(setup, Expand(setup, text, []).text, []) == Expand(setup, text, [])
  {
    var result := Expand(setup, text, []).text;
    ExpandedIsInert(setup, text, []);
    InertPrefix(setup, result, [], []);
    assert result + [] == result;
  }

  // Full substitution, without any order of expansion: all wildcards are replaced at once, again and again.

  function Replaced(setup: Setup, t: Token): seq<Token> {
    if t.Wild? && setup.Live(t.name) then setup.values[t.name] else [t]
  }

  /** Replace every live wildcard by its value, once and at the same time. */
  function Round(setup: Setup, text: seq<Token>): seq<Token> {
    if text == [] then [] else Replaced(setup, text[0]) + Round(setup, text[1..])
  }

  function Rounds(setup: Setup, text: seq<Token>, n: nat): seq<Token>
    decreases n
  {
    if n == 0 then text else Rounds(setup, Round(setup, text), n - 1)
  }

  lemma {:induction false} RoundConcat(setup: Setup, a: seq<Token>, b: seq<Token>)
    ensures Round(setup, a + b) == Round(setup, a) + Round(setup, b)
  {
    if a == [] {
      assert a + b == b;
    } else {
      assert (a + b)[0] == a[0] && (a + b)[1..] == a[1..] + b;
      RoundConcat(setup, a[1..], b);
    }
  }

  lemma {:induction false} RoundsConcat(setup: Setup, a: seq<Token>, b: seq<Token>, n: nat)
    ensures Rounds(setup, a + b, n) == Rounds(setup, a, n) + Rounds(setup, b, n)
    decreases n
  {
    if n > 0 {
      RoundConcat(setup, a, b);
      RoundsConcat(setup, Round(setup, a), Round(setup, b), n - 1);
    }
  }

  lemma {:induction false} RoundsOfDead(setup: Setup, t: Token, n: nat)
    requires t.Lit? || !setup.Live(t.name)
    ensures Rounds(setup, [t], n) == [t]
  {
    if n > 0 {
      RoundsOfDead(setup, t, n - 1);
      assert Round(setup, [t]) == [t];
    }
  }

  lemma RoundsOfLive(setup: Setup, t: Token, n: nat)
    requires t.Wild? && setup.Live(t.name) && n > 0
    ensures Rounds(setup, [t], n) == Rounds(setup, setup.values[t.name], n - 1)
  {
    assert Round(setup, [t]) == setup.values[t.name];
  }

  lemma {:induction false} RoundsOfEmpty(setup: Setup, n: nat)
    ensures Rounds(setup, [], n) == []
  {
    if n > 0 {
      RoundsOfEmpty(setup, n - 1);
    }
  }

  /** How many names can still be expanded inside the ones in `seen`. */
  ghost function Left(setup: Setup, seen: seq<string>): nat {
    |setup.values.Keys - (set n <- seen)|
  }

  lemma FewerLeft(setup: Setup, seen: seq<string>, name: string)
    requires name in setup.values && name !in seen
    ensures Left(setup, seen) == Left(setup, seen + [name]) + 1
  {
    var before, after := setup.values.Keys - (set n <- seen), setup.values.Keys - (set n <- seen + [name]);
    assert before == after + {name} && name !in after;
  }

  /** What a successful expansion makes of its first token. */
  ghost function Head(setup: Setup, text: seq<Token>, seen: seq<string>): seq<Token>
    requires text != [] && Expand(setup, text, seen).Expanded?
  {
    var t := text[0];
    if t.Wild? && setup.Live(t.name) then Expand(setup, setup.values[t.name], seen + [t.name]).text else [t]
  }

  lemma HeadAndRest(setup: Setup, text: seq<Token>, seen: seq<string>)
    requires text != [] && Expand(setup, text, seen).Expanded?
    ensures Expand(setup, text[1..], seen).Expanded?
    ensures Expand(setup, text, seen).text == Head(setup, text, seen) + Expand(setup, text[1..], seen).text
    ensures text[0].Wild? && setup.Live(text[0].name) ==>
      text[0].name !in seen && Expand(setup, setup.values[text[0].name], seen + [text[0].name]).Expanded?
  {}

  /** When the expansion succeeds it is full substitution: enough rounds give it, and more do not change it. */
  lemma {:induction false} ExpandIsSubstitution(setup: Setup, text: seq<Token>, seen: seq<string>, n: nat)
    requires Expand(setup, text, seen).Expanded? && n >= Left(setup, seen)
    ensures Rounds(setup, text, n) == Expand(setup, text, seen).text
    decreases Left(setup, seen), |text|
  {
    if text == [] {
      RoundsOfEmpty(setup, n);
    } else {
      var t, rest := text[0], text[1..];
      HeadAndRest(setup, text, seen);
      assert text == [t] + rest;
      RoundsConcat(setup, [t], rest, n);
      ExpandIsSubstitution(setup, rest, seen, n);
      assert Rounds(setup, [t], n) == Head(setup, text, seen) by {
        if t.Wild? && setup.Live(t.name) {
          FewerLeft(setup, seen, t.name);
          ExpandIsSubstitution(setup, setup.values[t.name], seen + [t.name], n - 1);
          RoundsOfLive(setup, t, n);
        } else {
          RoundsOfDead(setup, t, n);
        }
      }
    }
  }

  // When it fails.

  /** A chain of live wildcards: the first in the text, each other one in the value of the one before. */
  ghost predicate Chain(setup: Setup, text: seq<Token>, path: seq<string>)
    decreases |path|
  {
    path == [] || (Wild(path[0]) in text && setup.Live(path[0]) && Chain(setup, setup.values[path[0]], path[1..]))
  }

  /** The text at the end of a chain. */
  ghost function Reached(setup: Setup, text: seq<Token>, path: seq<string>): seq<Token>
    requires Chain(setup, text, path)
    decreases |path|
  {
    if path == [] then text else Reached(setup, setup.values[path[0]], path[1..])
  }

  lemma {:induction false} ChainEnd(setup: Setup, text: seq<Token>, path: seq<string>)
    requires Chain(setup, text, path) && path != []
    ensures setup.Live(path[|path| - 1]) && Reached(setup, text, path) == setup.values[path[|path| - 1]]
    decreases |path|
  {
    if |path| > 1 {
      ChainEnd(setup, setup.values[path[0]], path[1..]);
    }
  }

  lemma {:induction false} ChainMore(setup: Setup, text: seq<Token>, path: seq<string>, name: string)
    requires Chain(setup, text, path) && Wild(name) in Reached(setup, text, path) && setup.Live(name)
    ensures Chain(setup, text, path + [name])
    decreases |path|
  {
    if path == [] {
      assert path + [name] == [name];
    } else {
      ChainMore(setup, setup.values[path[0]], path[1..], name);
      assert (path + [name])[1..] == path[1..] + [name];
    }
  }

  /** The chain ends with the name. */
  ghost predicate LeadsTo(setup: Setup, text: seq<Token>, path: seq<string>, name: string) {
    path != [] && path[|path| - 1] == name && Chain(setup, text, path)
  }

  /** The names whose values an expansion of the text may meet. */
  ghost function Reachable(setup: Setup, text: seq<Token>): set<string> {
    set name | name in setup.values && exists path :: LeadsTo(setup, text, path, name)
  }

  lemma ReachableMore(setup: Setup, text: seq<Token>, path: seq<string>, name: string)
    requires Chain(setup, text, path) && Wild(name) in Reached(setup, text, path) && setup.Live(name)
    ensures name in Reachable(setup, text)
  {
    ChainMore(setup, text, path, name);
    assert LeadsTo(setup, text, path + [name], name);
  }

  /** The chain leads to a wildcard that is neither ignored nor defined, or that runs a command. */
  ghost predicate LeadsToStop(setup: Setup, text: seq<Token>, path: seq<string>, name: string) {
    Chain(setup, text, path) && Wild(name) in Reached(setup, text, path) && setup.Stops(name)
  }

  lemma {:induction false} EachExpands(setup: Setup, text: seq<Token>, seen: seq<string>, name: string)
    requires Expand(setup, text, seen).Expanded? && Wild(name) in text && Proper(setup, seen)
    ensures !setup.Stops(name)
    ensures setup.Live(name) ==> name !in seen && Expand(setup, setup.values[name], seen + [name]).Expanded?
  {
    if text[0] != Wild(name) {
      EachExpands(setup, text[1..], seen, name);
    }
  }

  /** A successful expansion follows no chain into a circle, to a missing name or to a command. */
  lemma {:induction false} ExpandedChains(setup: Setup, text: seq<Token>, seen: seq<string>, path: seq<string>)
    requires Expand(setup, text, seen).Expanded? && Proper(setup, seen) && Chain(setup, text, path)
    ensures Distinct(path) && forall n <- path :: n !in seen
    ensures forall name | Wild(name) in Reached(setup, text, path) :: !setup.Stops(name)
    decreases |path|
  {
    if path == [] {
      forall name | Wild(name) in text
        ensures !setup.Stops(name)
      {
        EachExpands(setup, text, seen, name);
      }
    } else {
      EachExpands(setup, text, seen, path[0]);
      ExpandedChains(setup, setup.values[path[0]], seen + [path[0]], path[1..]);
      forall i | 0 < i < |path|
        ensures path[i] !in seen && path[i] != path[0]
      {
        assert path[i] == path[1..][i - 1] && path[i] !in seen + [path[0]];
      }
    }
  }

  /** What a failure proves: a chain into a circle, to the missing name, or to the command. */
  ghost predicate Blames(setup: Setup, text: seq<Token>, seen: seq<string>, path: seq<string>, error: Error) {
    match error
    case Circular(name) => Chain(setup, text, path) && path != [] && path[|path| - 1] == name &&
      name in seen + path[..|path| - 1]
    case Unknown(name) => LeadsToStop(setup, text, path, name) && name != setup.command
    case Command => LeadsToStop(setup, text, path, setup.command)
  }

  lemma {:induction false} FailureHasCause(setup: Setup, text: seq<Token>, seen: seq<string>)
    returns (path: seq<string>)
    requires Expand(setup, text, seen).Failed? && Proper(setup, seen)
    ensures Blames(setup, text, seen, path, Expand(setup, text, seen).error)
    decreases setup.values.Keys - (set n <- seen), |text|
  {
    var name := if text[0].Wild? then text[0].name else "";
    if text[0].Wild? && setup.Live(name) && name in seen {
      path := [name];
    } else if text[0].Wild? && setup.Stops(name) {
      path := [];
    } else if text[0].Wild? && setup.Live(name) && Expand(setup, setup.values[name], seen + [name]).Failed? {
      assert name in setup.values.Keys - (set n <- seen) && name !in setup.values.Keys - (set n <- seen + [name]);
      var inner := FailureHasCause(setup, setup.values[name], seen + [name]);
      path := [name] + inner;
    } else {
      path := FailureHasCause(setup, text[1..], seen);
    }
  }

  /** No chain leads into a circle, to a command or, unless errors are ignored, to an undefined name. */
  ghost predicate WellFounded(setup: Setup, text: seq<Token>) {
    && (forall path | Chain(setup, text, path) :: Distinct(path))
    && (forall path, name :: !LeadsToStop(setup, text, path, name))
  }

  /** The expansion succeeds exactly for texts without circles, missing names and commands. */
  lemma ExpandsExactly(setup: Setup, text: seq<Token>)
    ensures Expand(setup, text, []).Expanded? <==> WellFounded(setup, text)
  {
    if Expand(setup, text, []).Expanded? {
      forall path | Chain(setup, text, path)
        ensures Distinct(path) && forall name | Wild(name) in Reached(setup, text, path) :: !setup.Stops(name)
      {
        ExpandedChains(setup, text, [], path);
      }
    } else {
      var path := FailureHasCause(setup, text, []);
      match Expand(setup, text, []).error {
        case Circular(name) =>
          assert name in path[..|path| - 1];
          assert !Distinct(path);
        case Unknown(name) => assert LeadsToStop(setup, text, path, name);
        case Command => assert LeadsToStop(setup, text, path, setup.command);
      }
    }
  }

  /**
   With errors ignored it fails exactly when a circle or a command can be reached, and
   a circle is reported as one.
   */
  lemma CircularExactly(setup: Setup, text: seq<Token>)
    requires setup.ignoreError
    ensures Expand(setup, text, []).Failed? <==>
      (exists path :: Chain(setup, text, path) && !Distinct(path)) ||
        exists path :: LeadsToStop(setup, text, path, setup.command)
    ensures Expand(setup, text, []).Failed? ==>
      Expand(setup, text, []).error.Circular? || Expand(setup, text, []).error.Command?
    ensures (forall path :: !LeadsToStop(setup, text, path, setup.command)) && Expand(setup, text, []).Failed? ==>
      Expand(setup, text, []).error.Circular?
  {
    ExpandsExactly(setup, text);
    if Expand(setup, text, []).Failed? {
      var path := FailureHasCause(setup, text, []);
    }
  }

  // Expansion in any order.

  lemma FewerLeftOver(setup: Setup, seen: seq<string>, name: string)
    requires name in setup.values && name !in seen
    ensures setup.values.Keys - (set n <- seen + [name]) < setup.values.Keys - (set n <- seen)
  {
    assert name in setup.values.Keys - (set n <- seen) && name !in setup.values.Keys - (set n <- seen + [name]);
  }

  lemma BeforeNothing(rest: Outcome)
    ensures Before([], rest) == rest
  {
    if rest.Expanded? {
      assert [] + rest.text == rest.text;
    }
  }

  lemma BeforeBefore(a: seq<Token>, b: seq<Token>, rest: Outcome)
    ensures Before(a, Before(b, rest)) == Before(a + b, rest)
  {
    if rest.Expanded? {
      assert a + (b + rest.text) == a + b + rest.text;
    }
  }

  /** First one outcome, then another. */
  function Then(first: Outcome, second: Outcome): Outcome {
    match first
    case Failed(error) => Failed(error)
    case Expanded(text) => Before(text, second)
  }

  lemma BeforeThen(a: seq<Token>, first: Outcome, second: Outcome)
    ensures Before(a, Then(first, second)) == Then(Before(a, first), second)
  {
    if first.Expanded? {
      BeforeBefore(a, first.text, second);
    }
  }

  lemma {:induction false} ExpandConcat(setup: Setup, a: seq<Token>, b: seq<Token>, seen: seq<string>)
    ensures Expand(setup, a + b, seen) == Then(Expand(setup, a, seen), Expand(setup, b, seen))
  {
    if a == [] {
      assert a + b == b;
      BeforeNothing(Expand(setup, b, seen));
    } else {
      assert (a + b)[0] == a[0] && (a + b)[1..] == a[1..] + b;
      ExpandConcat(setup, a[1..], b, seen);
      BeforeThen(FirstPart(setup, a, seen), Expand(setup, a[1..], seen), Expand(setup, b, seen));
    }
  }

  /** What the first token becomes, if its expansion succeeds. */
  ghost function FirstPart(setup: Setup, text: seq<Token>, seen: seq<string>): seq<Token>
    requires text != []
  {
    var t := text[0];
    if t.Wild? && setup.Live(t.name) && t.name !in seen &&
      Expand(setup, setup.values[t.name], seen + [t.name]).Expanded?
    then Expand(setup, setup.values[t.name], seen + [t.name]).text
    else [t]
  }

  /** A wildcard that can be replaced by the expansion of its value. */
  ghost predicate Replaceable(setup: Setup, seen: seq<string>, name: string) {
    setup.Live(name) && name !in seen && Expand(setup, setup.values[name], seen + [name]).Expanded?
  }

  ghost function ExpandedValue(setup: Setup, seen: seq<string>, name: string): seq<Token>
    requires Replaceable(setup, seen, name)
  {
    Expand(setup, setup.values[name], seen + [name]).text
  }

  /** Replacing any wildcard of a text by its expansion does not change what becomes of the text. */
  lemma ExpandInPlace(setup: Setup, pre: seq<Token>, name: string, post: seq<Token>, seen: seq<string>)
    requires Proper(setup, seen) && Replaceable(setup, seen, name)
    ensures Expand(setup, pre + [Wild(name)] + post, seen) ==
      Expand(setup, pre + ExpandedValue(setup, seen, name) + post, seen)
  {
    var value := ExpandedValue(setup, seen, name);
    ExpandedIsInert(setup, setup.values[name], seen + [name]);
    InertPrefix(setup, value, [], seen);
    assert value + [] == value && Expand(setup, [Wild(name)], seen) == Expand(setup, value, seen);
    ExpandConcat(setup, pre, [Wild(name)], seen);
    ExpandConcat(setup, pre, value, seen);
    ExpandConcat(setup, pre + [Wild(name)], post, seen);
    ExpandConcat(setup, pre + value, post, seen);
  }

  /** Why a wildcard cannot be expanded. */
  ghost predicate Blocked(setup: Setup, seen: seq<string>, name: string, error: Error) {
    if name in setup.ignored then false
    else if name in seen then error == Circular(name)
    else if setup.Stops(name) then error == setup.StopOf(name)
    else setup.Live(name) && Expand(setup, setup.values[name], seen + [name]) == Failed(error)
  }

  /** A blocked wildcard behind inert text stops the expansion, with its own error. */
  lemma BlockedExpansion(setup: Setup, pre: seq<Token>, name: string, post: seq<Token>, seen: seq<string>, error: Error)
    requires Proper(setup, seen) && Inert(setup, pre) && Blocked(setup, seen, name, error)
    ensures Expand(setup, pre + [Wild(name)] + post, seen) == Failed(error)
  {
    assert pre + [Wild(name)] + post == pre + ([Wild(name)] + post);
    InertPrefix(setup, pre, [Wild(name)] + post, seen);
    assert ([Wild(name)] + post)[1..] == post;
  }
}
