/**
 The wildcard expander on strings: searching, splicing and rescanning. Whatever the
 braces in text and values, what the loop can arrive at does not depend on the order
 in which wildcards are replaced. The loop ends where opening, or closing, braces
 belong to wildcards throughout the values; if they do so in the text as well, it
 computes the expansion of Wildcards.dfy.
 */
module WildcardText {
  import opened Common
  import opened Rewriting
  import opened WildcardLex
  import opened Wildcards
  import opened Decimals

  // Values.

  datatype Value = Str(s: string) | Int(i: int) | Bool(b: bool) | Items(items: seq<Value>)

  /** Strings as they are, booleans as 0 or 1, the items of a list separated by spaces. */
  function Stringify(value: Value): string
  {
    match value
    case Str(s) => s
    case Int(i) => Decimal(i)
    case Bool(b) => Decimal(if b then 1 else 0)
    case Items(items) => Joined(items)
  }

  function Joined(items: seq<Value>): string {
    if items == [] then ""
    else if |items| == 1 then Stringify(items[0])
    else Stringify(items[0]) + " " + Joined(items[1..])
  }

  /** All strings in a value are tame. */
  ghost predicate TameValue(side: Side, value: Value) {
    match value
    case Str(s) => Tame(side, s)
    case Int(_) => true
    case Bool(_) => true
    case Items(items) => forall v <- items :: TameValue(side, v)
  }

  lemma {:induction false} DigitsPlain(n: nat)
    ensures '{' !in Digits(n) && '}' !in Digits(n)
  {
    if n >= 10 {
      DigitsPlain(n / 10);
    }
  }

  lemma DecimalTame(side: Side, i: int)
    ensures Tame(side, Decimal(i))
  {
    DigitsPlain(if i < 0 then -i else i);
    PlainTame(side, Decimal(i));
  }

  /** Numbers, booleans and lists of tame strings become tame strings. */
  lemma {:induction false} StringifyTame(side: Side, value: Value)
    requires TameValue(side, value)
    ensures Tame(side, Stringify(value))
  {
    match value {
      case Str(_) =>
      case Int(i) => DecimalTame(side, i);
      case Bool(b) => DecimalTame(side, if b then 1 else 0);
      case Items(items) => JoinedTame(side, items);
    }
  }

  lemma {:induction false} JoinedTame(side: Side, items: seq<Value>)
    requires forall v <- items :: TameValue(side, v)
    ensures Tame(side, Joined(items))
  {
    if items != [] {
      StringifyTame(side, items[0]);
      if |items| > 1 {
        JoinedTame(side, items[1..]);
        PlainTame(side, " ");
        TameJoin(side, Stringify(items[0]), " ");
        TameJoin(side, Stringify(items[0]) + " ", Joined(items[1..]));
      }
    }
  }

  /** The wildcard that runs a command, unless it is ignored. */
  const COMMAND := "eval_cmd"

  /** Where values come from: the dictionary, then the environment. */
  datatype Context = Context(mdict: map<string, Value>, env: map<string, string>, ignored: seq<string>,
          ignoreError: bool) {

    predicate Defines(name: string) {
      name in mdict || name in env
    }

    function Text(name: string): string
      requires Defines(name)
    {
      if name in mdict then Stringify(mdict[name]) else env[name]
    }

    /** The context in tokens. */
    ghost function Tokens(): Setup {
      var values := map name | name in mdict.Keys + env.Keys :: Lex(Text(name));
      Setup(values, (set name <- ignored), ignoreError, COMMAND)
    }
  }

  datatype TextOutcome = Done(text: string) | Raised(error: Error)

  /** The outcome on strings is the expansion of the tokens. */
  ghost predicate Computes(outcome: TextOutcome, expected: Outcome) {
    match outcome
    case Done(text) => expected == Expanded(Lex(text))
    case Raised(error) => expected == Failed(error)
  }

  // Replacing wildcards one after the other, in any order.

  /** The names that can still be expanded. */
  ghost function Fresh(setup: Setup, seen: seq<string>): set<string> {
    setup.values.Keys - (set n <- seen)
  }

  /** The value of the name expands to the text. */
  ghost predicate Gives(setup: Setup, seen: seq<string>, name: string, v: string)
    decreases Fresh(setup, seen), 0
  {
    && setup.Live(name) && name !in seen
    && (FewerLeftOver(setup, seen, name);
        Rewrites(setup, seen + [name], Render(setup.values[name]), Done(v)))
  }

  /** Why a wildcard cannot be expanded. */
  ghost predicate Hinders(setup: Setup, seen: seq<string>, name: string, error: Error)
    decreases Fresh(setup, seen), 0
  {
    if name in setup.ignored then false
    else if name in seen then error == Circular(name)
    else if setup.Stops(name) then error == setup.StopOf(name)
    else
      && setup.Live(name)
      && (FewerLeftOver(setup, seen, name);
          Rewrites(setup, seen + [name], Render(setup.values[name]), Raised(error)))
  }

  /** The wildcard at a place is replaced by an expansion of its value. */
  ghost predicate Replaces(setup: Setup, seen: seq<string>, s: string, i: nat, name: string, v: string, t: string)
    decreases Fresh(setup, seen), 1
  {
    Occurs(s, i, name) && Gives(setup, seen, name, v) && t == s[..i] + v + s[i + |name| + 2..]
  }

  ghost predicate Step(setup: Setup, seen: seq<string>, s: string, t: string)
    decreases Fresh(setup, seen), 2
  {
    exists i: nat, name, v :: Replaces(setup, seen, s, i, name, v, t)
  }

  ghost function Steps(setup: Setup, seen: seq<string>): (string, string) -> bool
    decreases Fresh(setup, seen), 3
  {
    (s: string, t: string) => Step(setup, seen, s, t)
  }

  /** All wildcards of the string may stay. */
  ghost predicate InertText(setup: Setup, s: string) {
    InertTo(setup, s, |s|)
  }

  /** All wildcards that begin in front of a place may stay. */
  ghost predicate InertTo(setup: Setup, s: string, k: nat) {
    forall i: nat, name | i < k && Occurs(s, i, name) :: setup.MayStay(name)
  }

  /** The first wildcard that may not stay cannot be expanded either. */
  ghost predicate StopsAt(setup: Setup, seen: seq<string>, s: string, error: Error)
    decreases Fresh(setup, seen), 1
  {
    exists i: nat, name :: Occurs(s, i, name) && Hinders(setup, seen, name, error) && InertTo(setup, s, i)
  }

  /** The outcome is what some order of replacements leads to: no wildcard left to replace, or one in the way. */
  ghost predicate Rewrites(setup: Setup, seen: seq<string>, text: string, outcome: TextOutcome)
    decreases Fresh(setup, seen), 4
  {
    match outcome
    case Done(r) => InertText(setup, r) && exists n: nat :: ReachesIn(Steps(setup, seen), n, text, r)
    case Raised(error) =>
      exists n: nat, r :: ReachesIn(Steps(setup, seen), n, text, r) && StopsAt(setup, seen, r, error)
  }

  lemma ReplaceAt(setup: Setup, seen: seq<string>, a: string, name: string, b: string, v: string)
    requires IsName(name) && Gives(setup, seen, name, v)
    ensures Replaces(setup, seen, a + Spelled(Wild(name)) + b, |a|, name, v, a + v + b)
  {
    OccursAfter(a, name, b);
    var s := a + Spelled(Wild(name)) + b;
    assert s[..|a|] == a && s[|a| + |name| + 2..] == b;
  }

  lemma Regroup(a: string, w: string, b: string, x: string, c: string)
    ensures a + w + (b + x + c) == (a + w + b) + x + c
  {}

  /** Replacements at two places can be made in either order. */
  lemma EitherOrder(setup: Setup, seen: seq<string>, a: string, m: string, v: string, b: string, n: string, v': string,
          c: string)
    returns (z: string)
    requires IsName(m) && Gives(setup, seen, m, v) && IsName(n) && Gives(setup, seen, n, v')
    ensures Step(setup, seen, a + v + (b + Spelled(Wild(n)) + c), z)
    ensures Step(setup, seen, (a + Spelled(Wild(m)) + b) + v' + c, z)
  {
    var w, w' := Spelled(Wild(m)), Spelled(Wild(n));
    z := (a + v + b) + v' + c;
    ReplaceAt(setup, seen, a + v + b, n, c, v');
    ReplaceAt(setup, seen, a, m, b + v' + c, v);
    Regroup(a, v, b, w', c);
    Regroup(a, v, b, v', c);
    Regroup(a, w, b, v', c);
  }

  lemma Between(s: string, i: nat, m: string, j: nat, n: string)
    requires Occurs(s, i, m) && Occurs(s, j, n) && i + |m| + 2 <= j
    ensures var b, c := s[i + |m| + 2..j], s[j + |n| + 2..];
      s[i + |m| + 2..] == b + Spelled(Wild(n)) + c && s[..j] == s[..i] + Spelled(Wild(m)) + b
  {}

  lemma BothReplaced(setup: Setup, seen: seq<string>, s: string, i: nat, m: string, v: string, s1: string, j: nat,
          n: string, v': string, s2: string)
    requires Replaces(setup, seen, s, i, m, v, s1) && Replaces(setup, seen, s, j, n, v', s2) && i < j
    ensures Joins(Steps(setup, seen), s1, s2)
  {
    WildcardsApart(s, i, m, j, n);
    Between(s, i, m, j, n);
    var z := EitherOrder(setup, seen, s[..i], m, v, s[i + |m| + 2..j], n, v', s[j + |n| + 2..]);
    assert Steps(setup, seen)(s1, z) && Steps(setup, seen)(s2, z);
  }

  /** No name that is being expanded, and one more. */
  lemma ProperMore(setup: Setup, seen: seq<string>, name: string)
    requires Proper(setup, seen) && setup.Live(name)
    ensures Proper(setup, seen + [name])
  {}

  /** A name has one expansion. */
  lemma OneValue(setup: Setup, seen: seq<string>, name: string, v: string, v': string)
    requires Proper(setup, seen) && Gives(setup, seen, name, v) && Gives(setup, seen, name, v')
    ensures v == v'
    decreases Fresh(setup, seen), 0
  {
    FewerLeftOver(setup, seen, name);
    ProperMore(setup, seen, name);
    OneResult(setup, seen + [name], Render(setup.values[name]), Done(v), Done(v'));
  }

  /** A name that has an expansion is no obstacle. */
  lemma GivesOrHinders(setup: Setup, seen: seq<string>, name: string, v: string, error: Error)
    requires Proper(setup, seen) && Gives(setup, seen, name, v)
    ensures !Hinders(setup, seen, name, error)
    decreases Fresh(setup, seen), 0
  {
    FewerLeftOver(setup, seen, name);
    ProperMore(setup, seen, name);
    if Hinders(setup, seen, name, error) {
      OneResult(setup, seen + [name], Render(setup.values[name]), Done(v), Raised(error));
    }
  }

  lemma StepsJoin(setup: Setup, seen: seq<string>, s: string, s1: string, s2: string)
    requires Proper(setup, seen) && Step(setup, seen, s, s1) && Step(setup, seen, s, s2) && s1 != s2
    ensures Joins(Steps(setup, seen), s1, s2)
    decreases Fresh(setup, seen), 1
  {
    var i: nat, m, v :| Replaces(setup, seen, s, i, m, v, s1);
    var j: nat, n, v' :| Replaces(setup, seen, s, j, n, v', s2);
    if i < j {
      BothReplaced(setup, seen, s, i, m, v, s1, j, n, v', s2);
    } else if j < i {
      BothReplaced(setup, seen, s, j, n, v', s2, i, m, v, s1);
      JoinsEither(Steps(setup, seen), s2, s1);
    } else {
      OccursOnce(s, i, m, n);
      OneValue(setup, seen, m, v, v');
    }
  }

  lemma DiamondOfSteps(setup: Setup, seen: seq<string>)
    requires Proper(setup, seen)
    ensures Diamond(Steps(setup, seen))
    decreases Fresh(setup, seen), 2
  {
    forall s, t, u | Steps(setup, seen)(s, t) && Steps(setup, seen)(s, u) && t != u
      ensures Joins(Steps(setup, seen), t, u)
    {
      StepsJoin(setup, seen, s, t, u);
    }
  }

  lemma InertIsFinal(setup: Setup, seen: seq<string>, s: string)
    requires InertText(setup, s)
    ensures Final(Steps(setup, seen), s)
  {
    forall t ensures !Step(setup, seen, s, t) {
      forall i: nat, name, v ensures !Replaces(setup, seen, s, i, name, v, t) {
        NotReplaced(setup, seen, s, i, name, v, t);
      }
    }
  }

  lemma NotReplaced(setup: Setup, seen: seq<string>, s: string, i: nat, name: string, v: string, t: string)
    requires InertText(setup, s)
    ensures !Replaces(setup, seen, s, i, name, v, t)
  {
    if Gives(setup, seen, name, v) {
      assert !setup.MayStay(name);
    }
  }

  /** A wildcard behind a replaced one moves, one in front of it stays. */
  lemma OccursStill(s: string, i: nat, name: string, j: nat, n: string, v: string) returns (i': nat)
    requires Occurs(s, i, name) && Occurs(s, j, n) && i != j
    ensures Occurs(s[..j] + v + s[j + |n| + 2..], i', name)
  {
    var t := s[..j] + v + s[j + |n| + 2..];
    if i < j {
      WildcardsApart(s, i, name, j, n);
      assert s[..j] == t[..j];
      OccursWithin(s, t, j, i, name);
      i' := i;
    } else {
      var k, k' := j + |n| + 2, j + |v|;
      WildcardsApart(s, j, n, i, name);
      assert s[k..] == t[k'..];
      i' := k' + (i - k);
      OccursShift(s, k, i, name);
      OccursShift(t, k', i', name);
    }
  }

  ghost predicate HasHindered(setup: Setup, seen: seq<string>, s: string) {
    exists i: nat, name, error :: Occurs(s, i, name) && Hinders(setup, seen, name, error)
  }

  /** A wildcard that cannot be expanded does not go away. */
  lemma StillHindered(setup: Setup, seen: seq<string>, s: string, t: string)
    requires Proper(setup, seen) && HasHindered(setup, seen, s) && Step(setup, seen, s, t)
    ensures HasHindered(setup, seen, t)
    decreases Fresh(setup, seen), 1
  {
    var i: nat, name, error :| Occurs(s, i, name) && Hinders(setup, seen, name, error);
    var j: nat, n, v :| Replaces(setup, seen, s, j, n, v, t);
    if i == j {
      OccursOnce(s, i, name, n);
      GivesOrHinders(setup, seen, n, v, error);
      assert false;
    }
    var i' := OccursStill(s, i, name, j, n, v);
  }

  ghost function HinderedIn(setup: Setup, seen: seq<string>): string -> bool {
    (s: string) => HasHindered(setup, seen, s)
  }

  lemma HinderedForever(setup: Setup, seen: seq<string>)
    requires Proper(setup, seen)
    ensures Kept(Steps(setup, seen), HinderedIn(setup, seen))
    decreases Fresh(setup, seen), 2
  {
    forall t, u | Steps(setup, seen)(t, u) && HinderedIn(setup, seen)(t) ensures HinderedIn(setup, seen)(u) {
      StillHindered(setup, seen, t, u);
    }
  }

  lemma HindersMoves(setup: Setup, seen: seq<string>, name: string, error: Error)
    requires Proper(setup, seen) && Hinders(setup, seen, name, error)
    ensures !setup.MayStay(name)
  {}

  lemma NoneHindered(setup: Setup, seen: seq<string>, s: string)
    requires Proper(setup, seen) && InertText(setup, s)
    ensures !HinderedIn(setup, seen)(s)
  {
    forall i: nat, name, error | Occurs(s, i, name) ensures !Hinders(setup, seen, name, error) {
      if Hinders(setup, seen, name, error) {
        HindersMoves(setup, seen, name, error);
      }
    }
  }

  /** A text that can be expanded never leads to one with a wildcard in the way. */
  lemma NeverHindered(setup: Setup, seen: seq<string>, text: string, n: nat, r: string, k: nat, q: string)
    requires Proper(setup, seen) && ReachesIn(Steps(setup, seen), n, text, r) && InertText(setup, r)
    requires ReachesIn(Steps(setup, seen), k, text, q)
    ensures !HinderedIn(setup, seen)(q)
    decreases Fresh(setup, seen), 3
  {
    InertIsFinal(setup, seen, r);
    DiamondOfSteps(setup, seen);
    HinderedForever(setup, seen);
    NoneHindered(setup, seen, r);
    if HinderedIn(setup, seen)(q) {
      KeptToTheEnd(Steps(setup, seen), HinderedIn(setup, seen), n, text, r, k, q);
    }
  }

  lemma StopIsHindered(setup: Setup, seen: seq<string>, s: string, error: Error)
    requires StopsAt(setup, seen, s, error)
    ensures HinderedIn(setup, seen)(s)
  {}

  lemma BothDone(setup: Setup, seen: seq<string>, text: string, n: nat, a: string, k: nat, b: string)
    requires Proper(setup, seen) && InertText(setup, a) && InertText(setup, b)
    requires ReachesIn(Steps(setup, seen), n, text, a) && ReachesIn(Steps(setup, seen), k, text, b)
    ensures a == b
    decreases Fresh(setup, seen), 3
  {
    InertIsFinal(setup, seen, a);
    InertIsFinal(setup, seen, b);
    DiamondOfSteps(setup, seen);
    OneFinal(Steps(setup, seen), n, k, text, a, b);
  }

  /**
   For every text and all values, stray braces or not, the order of replacements
   matters to neither success nor result.
   */
  lemma OneResult(setup: Setup, seen: seq<string>, text: string, a: TextOutcome, b: TextOutcome)
    requires Proper(setup, seen) && Rewrites(setup, seen, text, a) && Rewrites(setup, seen, text, b) && a.Done?
    ensures a == b
    decreases Fresh(setup, seen), 4
  {
    var n: nat :| ReachesIn(Steps(setup, seen), n, text, a.text);
    match b {
      case Done(r) =>
        var k: nat :| ReachesIn(Steps(setup, seen), k, text, r);
        BothDone(setup, seen, text, n, a.text, k, r);
      case Raised(error) =>
        var k: nat, q :| ReachesIn(Steps(setup, seen), k, text, q) && StopsAt(setup, seen, q, error);
        StopIsHindered(setup, seen, q, error);
        NeverHindered(setup, seen, text, n, a.text, k, q);
    }
  }

  // Where braces of one side belong to wildcards, the outcome is that of the expansion of the tokens.

  /** The tokens of the values are those of their texts. */
  ghost predicate Lexed(setup: Setup) {
    forall name <- setup.values :: Lex(Render(setup.values[name])) == setup.values[name]
  }

  /** All wildcards of the text that are to be replaced are of the given names. */
  ghost predicate Within(setup: Setup, text: seq<Token>, scope: set<string>) {
    forall name | Wild(name) in text && setup.Live(name) :: name in scope
  }

  /** The values of the names are tame, and lead to no other names. */
  ghost predicate Scoped(setup: Setup, side: Side, scope: set<string>) {
    forall name | name in scope && setup.Live(name) ::
      TameTokens(side, setup.values[name]) && Within(setup, setup.values[name], scope)
  }

  /** The text is tame and leads to the given names only. */
  ghost predicate TameIn(setup: Setup, side: Side, scope: set<string>, s: string) {
    Tame(side, s) && Within(setup, Lex(s), scope)
  }

  lemma InertTokens(setup: Setup, s: string)
    requires InertText(setup, s)
    ensures Inert(setup, Lex(s))
  {
    forall t <- Lex(s) | t.Wild? ensures setup.MayStay(t.name) {
      var i := TokenOccurs(s, t.name);
    }
  }

  lemma InertPart(setup: Setup, pre: string, rest: string)
    requires InertTo(setup, pre + rest, |pre|)
    ensures InertText(setup, pre)
  {
    forall i: nat, name | i < |pre| && Occurs(pre, i, name) ensures setup.MayStay(name) {
      OccursWithin(pre, pre + rest, |pre|, i, name);
    }
  }

  lemma AroundTame(setup: Setup, side: Side, scope: set<string>, pre: string, name: string, post: string)
    requires IsName(name) && TameIn(setup, side, scope, pre + Spelled(Wild(name)) + post)
    ensures TameIn(setup, side, scope, pre) && TameIn(setup, side, scope, post)
    ensures setup.Live(name) ==> name in scope
  {
    LexAround(pre, name, post);
    var all := Lex(pre) + [Wild(name)] + Lex(post);
    assert forall t <- Lex(pre) :: t in all;
    assert forall t <- Lex(post) :: t in all;
    assert Wild(name) in all;
  }

  lemma JoinedTameIn(setup: Setup, side: Side, scope: set<string>, pre: string, v: string, post: string)
    requires TameIn(setup, side, scope, pre) && TameIn(setup, side, scope, v) && TameIn(setup, side, scope, post)
    ensures TameIn(setup, side, scope, pre + v + post)
    ensures Lex(pre + v + post) == Lex(pre) + Lex(v) + Lex(post)
  {
    TameJoin(side, pre, v);
    TameJoin(side, pre + v, post);
  }

  lemma InertTameIn(setup: Setup, side: Side, scope: set<string>, v: string)
    requires Tame(side, v) && Inert(setup, Lex(v))
    ensures TameIn(setup, side, scope, v)
  {}

  /** What the outcome for a tame text is: that of the tokens, and tame. */
  ghost predicate Agrees(side: Side, outcome: TextOutcome, expected: Outcome) {
    Computes(outcome, expected) && (outcome.Done? ==> Tame(side, outcome.text))
  }

  /** The conditions under which texts and tokens agree. */
  ghost predicate Orderly(setup: Setup, side: Side, scope: set<string>, seen: seq<string>) {
    Lexed(setup) && Scoped(setup, side, scope) && Proper(setup, seen)
  }

  lemma ValueAgrees(setup: Setup, side: Side, scope: set<string>, seen: seq<string>, name: string, outcome: TextOutcome)
    requires Orderly(setup, side, scope, seen) && name in scope && setup.Live(name) && name !in seen
    requires Rewrites(setup, seen + [name], Render(setup.values[name]), outcome)
    ensures Agrees(side, outcome, Expand(setup, setup.values[name], seen + [name]))
    decreases Fresh(setup, seen), 0
  {
    FewerLeftOver(setup, seen, name);
    ProperMore(setup, seen, name);
    TextAgrees(setup, side, scope, seen + [name], Render(setup.values[name]), outcome);
  }

  /** The expansion of a value in scope, as tokens. */
  lemma GivesValue(setup: Setup, side: Side, scope: set<string>, seen: seq<string>, name: string, v: string)
    requires Orderly(setup, side, scope, seen) && name in scope && Gives(setup, seen, name, v)
    ensures Replaceable(setup, seen, name) && ExpandedValue(setup, seen, name) == Lex(v)
    ensures TameIn(setup, side, scope, v) && Inert(setup, Lex(v))
    decreases Fresh(setup, seen), 1
  {
    ValueAgrees(setup, side, scope, seen, name, Done(v));
    ExpandedIsInert(setup, setup.values[name], seen + [name]);
    InertTameIn(setup, side, scope, v);
  }

  lemma ReplaceAgrees(setup: Setup, side: Side, scope: set<string>, seen: seq<string>, pre: string, name: string,
          post: string, v: string)
    requires Orderly(setup, side, scope, seen) && IsName(name) && Gives(setup, seen, name, v)
    requires TameIn(setup, side, scope, pre + Spelled(Wild(name)) + post)
    ensures TameIn(setup, side, scope, pre + v + post)
    ensures Expand(setup, Lex(pre + v + post), seen) == Expand(setup, Lex(pre + Spelled(Wild(name)) + post), seen)
    decreases Fresh(setup, seen), 2
  {
    AroundTame(setup, side, scope, pre, name, post);
    GivesValue(setup, side, scope, seen, name, v);
    JoinedTameIn(setup, side, scope, pre, v, post);
    LexAround(pre, name, post);
    ExpandInPlace(setup, Lex(pre), name, Lex(post), seen);
  }

  /** A replacement in a tame text. */
  lemma StepAgrees(setup: Setup, side: Side, scope: set<string>, seen: seq<string>, s: string, t: string)
    requires Orderly(setup, side, scope, seen) && TameIn(setup, side, scope, s) && Step(setup, seen, s, t)
    ensures TameIn(setup, side, scope, t) && Expand(setup, Lex(t), seen) == Expand(setup, Lex(s), seen)
    decreases Fresh(setup, seen), 3
  {
    var i: nat, name, v :| Replaces(setup, seen, s, i, name, v, t);
    SplitAt(s, i, name);
    ReplaceAgrees(setup, side, scope, seen, s[..i], name, s[i + |name| + 2..], v);
  }

  ghost predicate ExpandsTo(setup: Setup, side: Side, scope: set<string>, seen: seq<string>, expected: Outcome,
          s: string)
  {
    TameIn(setup, side, scope, s) && Expand(setup, Lex(s), seen) == expected
  }

  lemma ReachAgrees(setup: Setup, side: Side, scope: set<string>, seen: seq<string>, n: nat, s: string, r: string)
    requires Orderly(setup, side, scope, seen) && TameIn(setup, side, scope, s)
    requires ReachesIn(Steps(setup, seen), n, s, r)
    ensures TameIn(setup, side, scope, r) && Expand(setup, Lex(r), seen) == Expand(setup, Lex(s), seen)
    decreases Fresh(setup, seen), 4
  {
    var expected := Expand(setup, Lex(s), seen);
    var inv: string -> bool := t => ExpandsTo(setup, side, scope, seen, expected, t);
    assert Kept(Steps(setup, seen), inv) by {
      forall t, u | Steps(setup, seen)(t, u) && inv(t) ensures inv(u) {
        StepAgrees(setup, side, scope, seen, t, u);
      }
    }
    KeptAllAlong(Steps(setup, seen), inv, n, s, r);
  }

  lemma HindersIsBlocked(setup: Setup, side: Side, scope: set<string>, seen: seq<string>, name: string, error: Error)
    requires Orderly(setup, side, scope, seen) && Hinders(setup, seen, name, error)
    requires setup.Live(name) ==> name in scope
    ensures Blocked(setup, seen, name, error)
    decreases Fresh(setup, seen), 1
  {
    if name !in setup.ignored && name !in seen && !setup.Stops(name) {
      ValueAgrees(setup, side, scope, seen, name, Raised(error));
    }
  }

  lemma StopAgrees(setup: Setup, side: Side, scope: set<string>, seen: seq<string>, s: string, error: Error)
    requires Orderly(setup, side, scope, seen) && TameIn(setup, side, scope, s) && StopsAt(setup, seen, s, error)
    ensures Expand(setup, Lex(s), seen) == Failed(error)
    decreases Fresh(setup, seen), 2
  {
    var i: nat, name :| Occurs(s, i, name) && Hinders(setup, seen, name, error) && InertTo(setup, s, i);
    var pre, post := s[..i], s[i + |name| + 2..];
    SplitAt(s, i, name);
    Associate(pre, Spelled(Wild(name)), post);
    AroundTame(setup, side, scope, pre, name, post);
    InertPart(setup, pre, Spelled(Wild(name)) + post);
    InertTokens(setup, pre);
    HindersIsBlocked(setup, side, scope, seen, name, error);
    BlockedExpansion(setup, Lex(pre), name, Lex(post), seen, error);
  }

  lemma InertExpands(setup: Setup, seen: seq<string>, r: string)
    requires Proper(setup, seen) && InertText(setup, r)
    ensures Expand(setup, Lex(r), seen) == Expanded(Lex(r))
  {
    InertTokens(setup, r);
    InertPrefix(setup, Lex(r), [], seen);
    assert Lex(r) + [] == Lex(r);
  }

  lemma TextAgrees(setup: Setup, side: Side, scope: set<string>, seen: seq<string>, text: string, outcome: TextOutcome)
    requires Orderly(setup, side, scope, seen) && TameIn(setup, side, scope, text)
    requires Rewrites(setup, seen, text, outcome)
    ensures Agrees(side, outcome, Expand(setup, Lex(text), seen))
    decreases Fresh(setup, seen), 5
  {
    match outcome {
      case Done(r) =>
        var n: nat :| ReachesIn(Steps(setup, seen), n, text, r);
        ReachAgrees(setup, side, scope, seen, n, text, r);
        InertExpands(setup, seen, r);
      case Raised(error) =>
        var n: nat, r :| ReachesIn(Steps(setup, seen), n, text, r) && StopsAt(setup, seen, r, error);
        ReachAgrees(setup, side, scope, seen, n, text, r);
        StopAgrees(setup, side, scope, seen, r, error);
    }
  }

  // When the loop ends.

  /**
   No brace of the side can be stray in what the loop meets: the values of the names in
   scope have none, and either the text has none and leads to those names only, or all
   names are in scope.
   */
  ghost predicate Held(setup: Setup, side: Side, scope: set<string>, s: string) {
    && Scoped(setup, side, scope)
    && (TameIn(setup, side, scope, s) || forall name <- setup.values | setup.Live(name) :: name in scope)
  }

  lemma HeldName(setup: Setup, side: Side, scope: set<string>, s: string, i: nat, name: string)
    requires Held(setup, side, scope, s) && Occurs(s, i, name) && setup.Live(name)
    ensures name in scope
  {
    SplitAt(s, i, name);
    assert Wild(name) in Lex(s);
  }

  lemma HeldValue(setup: Setup, side: Side, scope: set<string>, s: string, name: string)
    requires Held(setup, side, scope, s) && Lexed(setup) && name in scope && setup.Live(name)
    ensures Held(setup, side, scope, Render(setup.values[name]))
  {}

  /** A replacement keeps the scope and uses up a brace. */
  lemma HeldNext(setup: Setup, side: Side, scope: set<string>, seen: seq<string>, s: string, i: nat, name: string,
          v: string, t: string)
    requires Held(setup, side, scope, s) && Orderly(setup, side, scope, seen)
    requires Replaces(setup, seen, s, i, name, v, t)
    ensures Held(setup, side, scope, t) && PendingIn(setup, side, t) < PendingIn(setup, side, s)
  {
    HeldName(setup, side, scope, s, i, name);
    GivesValue(setup, side, scope, seen, name, v);
    SplitAt(s, i, name);
    ReplacedPendsLess(setup, side, s[..i], name, s[i + |name| + 2..], v);
    if TameIn(setup, side, scope, s) {
      StepAgrees(setup, side, scope, seen, s, t);
    }
  }

  // The scan.

  /** The scan has passed this place, which is the start or behind a wildcard, and all before it may stay. */
  ghost predicate Passed(setup: Setup, s: string, idx: nat) {
    idx <= |s| && (idx > 0 ==> s[idx - 1] == '}') && InertTo(setup, s, idx)
  }

  /** What the search finds behind the place that the scan has reached. */
  lemma FoundBehind(s: string, idx: nat, m: Match)
    requires idx <= |s| && m == Search(s[idx..])
    ensures m.Match? ==>
      Occurs(s, idx + m.start, m.name) && m.end == m.start + |m.name| + 2 && s[idx + m.end - 1] == '}'
    ensures forall i: nat, name | idx <= i < idx + (if m.Match? then m.start else |s| - idx) :: !Occurs(s, i, name)
  {
    SearchFindsFirst(s[idx..]);
    if m.Match? {
      OccursShift(s, idx, idx + m.start, m.name);
      OccursChars(s, idx + m.start, m.name);
    }
    forall i: nat, name | idx <= i < idx + (if m.Match? then m.start else |s| - idx) ensures !Occurs(s, i, name) {
      OccursShift(s, idx, i, name);
    }
  }

  lemma InertUpTo(setup: Setup, s: string, k: nat, name: string)
    requires Occurs(s, k, name) && setup.MayStay(name) && InertTo(setup, s, k)
    ensures InertTo(setup, s, k + |name| + 2)
  {
    forall i: nat, n | i < k + |name| + 2 && Occurs(s, i, n) ensures setup.MayStay(n) {
      if i == k {
        OccursOnce(s, i, n, name);
      } else if i > k {
        WildcardsApart(s, k, name, i, n);
      }
    }
  }

  /** What has been passed stays passed when something behind it changes. */
  lemma PassedStays(setup: Setup, s: string, t: string, idx: nat)
    requires Passed(setup, s, idx) && idx <= |t| && s[..idx] == t[..idx]
    ensures Passed(setup, t, idx)
  {
    assert idx > 0 ==> t[idx - 1] == s[..idx][idx - 1];
    forall i: nat, name | i < idx && Occurs(t, i, name) ensures setup.MayStay(name) {
      EndsByBrace(t, i, name, idx);
      OccursWithin(t, s, idx, i, name);
    }
  }

  /** The loop's state: replacements have led from the text to the result, and the scan has reached `idx`. */
  ghost predicate Scanning(setup: Setup, seen: seq<string>, text: string, trace: seq<string>, result: string, idx: nat)
  {
    && Trace(Steps(setup, seen), trace) && trace[0] == text && trace[|trace| - 1] == result
    && Passed(setup, result, idx)
  }

  lemma ScanStarts(setup: Setup, seen: seq<string>, text: string)
    ensures Scanning(setup, seen, text, [text], text, 0)
  {}

  lemma ScanSkips(setup: Setup, seen: seq<string>, text: string, trace: seq<string>, result: string, idx: nat, m: Match)
    requires Scanning(setup, seen, text, trace, result, idx) && m == Search(result[idx..]) && m.Match?
    requires setup.MayStay(m.name)
    ensures idx < idx + m.end <= |result| && Scanning(setup, seen, text, trace, result, idx + m.end)
  {
    FoundBehind(result, idx, m);
    assert InertTo(setup, result, idx + m.start);
    InertUpTo(setup, result, idx + m.start, m.name);
  }

  lemma ScanStops(setup: Setup, seen: seq<string>, text: string, trace: seq<string>, result: string, idx: nat, m: Match,
          error: Error)
    requires Scanning(setup, seen, text, trace, result, idx) && m == Search(result[idx..]) && m.Match?
    requires Hinders(setup, seen, m.name, error)
    ensures Rewrites(setup, seen, text, Raised(error))
  {
    FoundBehind(result, idx, m);
    assert InertTo(setup, result, idx + m.start);
    assert StopsAt(setup, seen, result, error);
    TraceReaches(Steps(setup, seen), trace);
  }

  lemma ScanEnds(setup: Setup, seen: seq<string>, text: string, trace: seq<string>, result: string, idx: nat)
    requires Scanning(setup, seen, text, trace, result, idx) && Search(result[idx..]).NoMatch?
    ensures Rewrites(setup, seen, text, Done(result))
  {
    FoundBehind(result, idx, NoMatch);
    assert InertText(setup, result);
    TraceReaches(Steps(setup, seen), trace);
  }

  /** The text with the match replaced by the value. */
  function Spliced(text: string, idx: nat, m: Match, value: string): string
    requires m.Match? && m.start <= m.end && idx + m.end <= |text|
  {
    text[..idx] + text[idx..][..m.start] + value + text[idx..][m.end..]
  }

  lemma SplicedParts(s: string, idx: nat, m: Match, value: string)
    requires m.Match? && m.start <= m.end && idx + m.end <= |s|
    ensures var t := Spliced(s, idx, m, value);
      t == s[..idx + m.start] + value + s[idx + m.end..] && idx <= |t| && t[..idx] == s[..idx]
  {}

  /** The scan with its scope. */
  ghost predicate ScanningIn(setup: Setup, side: Side, scope: set<string>, seen: seq<string>, text: string,
          trace: seq<string>, result: string, idx: nat)
  {
    Scanning(setup, seen, text, trace, result, idx) && Held(setup, side, scope, result)
  }

  /** Splicing in an expansion is a replacement, leaves alone what was passed, and uses up a brace. */
  lemma ScanSplices(setup: Setup, side: Side, scope: set<string>, seen: seq<string>, text: string, trace: seq<string>,
          result: string, idx: nat, m: Match, value: string)
    requires ScanningIn(setup, side, scope, seen, text, trace, result, idx) && Orderly(setup, side, scope, seen)
    requires m == Search(result[idx..]) && m.Match? && Gives(setup, seen, m.name, value)
    ensures var t := Spliced(result, idx, m, value);
      && idx <= |t| && ScanningIn(setup, side, scope, seen, text, trace + [t], t, idx)
      && PendingIn(setup, side, t) < PendingIn(setup, side, result)
  {
    var t := Spliced(result, idx, m, value);
    SplicedParts(result, idx, m, value);
    FoundBehind(result, idx, m);
    assert Replaces(setup, seen, result, idx + m.start, m.name, value, t);
    HeldNext(setup, side, scope, seen, result, idx + m.start, m.name, value, t);
    PassedStays(setup, result, t, idx);
    TraceMore(setup, seen, trace, t);
  }

  lemma TraceMore(setup: Setup, seen: seq<string>, trace: seq<string>, t: string)
    requires Trace(Steps(setup, seen), trace) && Step(setup, seen, trace[|trace| - 1], t)
    ensures Trace(Steps(setup, seen), trace + [t])
  {}

  lemma TokensLexed(ctx: Context)
    ensures Lexed(ctx.Tokens())
    ensures forall name | ctx.Defines(name) :: Render(ctx.Tokens().values[name]) == ctx.Text(name)
  {
    forall name | ctx.Defines(name) ensures Render(Lex(ctx.Text(name))) == ctx.Text(name) {
      RenderLex(ctx.Text(name));
    }
  }

  /** What is to be done with a wildcard: leave it, put a text in its place, or give up. */
  datatype Decision = Leave | Put(value: string) | GiveUp(error: Error)

  /** The decision is the right one. */
  ghost predicate Decides(setup: Setup, seen: seq<string>, name: string, decision: Decision) {
    match decision
    case Leave => setup.MayStay(name)
    case Put(value) => Gives(setup, seen, name, value)
    case GiveUp(error) => Hinders(setup, seen, name, error)
  }

  /** What the tests on a name say about it. */
  lemma NameFate(ctx: Context, seen: seq<string>, name: string)
    requires Proper(ctx.Tokens(), seen)
    ensures name in ctx.ignored ==> ctx.Tokens().MayStay(name)
    ensures name !in ctx.ignored && name in seen ==> Hinders(ctx.Tokens(), seen, name, Circular(name))
    ensures name !in ctx.ignored && name !in seen && name == COMMAND ==> Hinders(ctx.Tokens(), seen, name, Command)
    ensures name !in ctx.ignored && name !in seen && name != COMMAND && !ctx.Defines(name) ==>
      if ctx.ignoreError then ctx.Tokens().MayStay(name) else Hinders(ctx.Tokens(), seen, name, Unknown(name))
    ensures name !in ctx.ignored && name !in seen && name != COMMAND && ctx.Defines(name) ==> ctx.Tokens().Live(name)
  {}

  /** Expand every wildcard from left to right; `seen` are the wildcards whose expansion led here. */
  method SubstWorker(text: string, ctx: Context, seen: seq<string>, ghost side: Side, ghost scope: set<string>)
    returns (outcome: TextOutcome)
    requires Proper(ctx.Tokens(), seen) && Held(ctx.Tokens(), side, scope, text)
    ensures Rewrites(ctx.Tokens(), seen, text, outcome)
    decreases Fresh(ctx.Tokens(), seen), 1
  {
    ghost var setup := ctx.Tokens();
    TokensLexed(ctx);
    ScanStarts(setup, seen, text);
    var result, idx: nat := text, 0;
    ghost var trace := [text];
    while true
      invariant idx <= |result| && ScanningIn(setup, side, scope, seen, text, trace, result, idx)
      decreases PendingIn(setup, side, result), |result| - idx
    {
      var m := Search(result[idx..]);
      if m.NoMatch? {
        ScanEnds(setup, seen, text, trace, result, idx);
        return Done(result);
      }
      FoundBehind(result, idx, m);
      var decision := Decide(m.name, ctx, seen, result, idx + m.start, side, scope);
      match decision {
        case Leave =>
          ScanSkips(setup, seen, text, trace, result, idx, m);
          idx := idx + m.end;
        case Put(value) =>
          ScanSplices(setup, side, scope, seen, text, trace, result, idx, m, value);
          result := Spliced(result, idx, m, value);
          trace := trace + [result];
        case GiveUp(error) =>
          ScanStops(setup, seen, text, trace, result, idx, m, error);
          return Raised(error);
      }
    }
  }

  /** The tests on the name found, and the expansion of its value. */
  method Decide(name: string, ctx: Context, seen: seq<string>, ghost result: string, ghost place: nat,
          ghost side: Side, ghost scope: set<string>)
    returns (decision: Decision)
    requires Proper(ctx.Tokens(), seen) && Held(ctx.Tokens(), side, scope, result) && Occurs(result, place, name)
    ensures Decides(ctx.Tokens(), seen, name, decision)
    decreases Fresh(ctx.Tokens(), seen), 0
  {
    NameFate(ctx, seen, name);
    if name in ctx.ignored {
      return Leave;
    }
    if name in seen {
      return GiveUp(Circular(name));
    }
    if name == COMMAND {
      return GiveUp(Command);
    }
    if !ctx.Defines(name) {
      return if ctx.ignoreError then Leave else GiveUp(Unknown(name));
    }
    HeldName(ctx.Tokens(), side, scope, result, place, name);
    var value := ExpandValue(name, ctx, seen, result, side, scope);
    return if value.Done? then Put(value.text) else GiveUp(value.error);
  }

  /** The expansion of the value of a name in scope. */
  method ExpandValue(name: string, ctx: Context, seen: seq<string>, ghost result: string, ghost side: Side,
          ghost scope: set<string>)
    returns (value: TextOutcome)
    requires Proper(ctx.Tokens(), seen) && Held(ctx.Tokens(), side, scope, result)
    requires ctx.Tokens().Live(name) && name !in seen && name in scope
    ensures value.Done? ==> Gives(ctx.Tokens(), seen, name, value.text)
    ensures value.Raised? ==> Hinders(ctx.Tokens(), seen, name, value.error)
    decreases Fresh(ctx.Tokens(), seen), 0, 0
  {
    TokensLexed(ctx);
    FewerLeftOver(ctx.Tokens(), seen, name);
    ProperMore(ctx.Tokens(), seen, name);
    HeldValue(ctx.Tokens(), side, scope, result, name);
    value := SubstWorker(ctx.Text(name), ctx, seen + [name], side, scope);
  }

  /** No brace of the side is stray in the text, nor in any value that it leads to. */
  ghost predicate TameFrom(setup: Setup, side: Side, text: string) {
    forall path | Chain(setup, Lex(text), path) :: TameTokens(side, Reached(setup, Lex(text), path))
  }

  /** No brace of the side is stray in any value. */
  ghost predicate TameValues(setup: Setup, side: Side) {
    forall name <- setup.values :: TameTokens(side, setup.values[name])
  }

  /**
   Where the loop is sure to end: on one side, no brace is stray in any value, or none
   is in the text and the values that it leads to.
   */
  ghost predicate Ends(setup: Setup, side: Side, text: string) {
    TameValues(setup, side) || TameFrom(setup, side, text)
  }

  lemma ReachableTame(setup: Setup, side: Side, text: string)
    requires TameFrom(setup, side, text)
    ensures var scope := Reachable(setup, Lex(text)); Scoped(setup, side, scope) && TameIn(setup, side, scope, text)
  {
    var tokens, scope := Lex(text), Reachable(setup, Lex(text));
    assert Chain(setup, tokens, []) && Reached(setup, tokens, []) == tokens;
    forall name | Wild(name) in tokens && setup.Live(name) ensures name in scope {
      ReachableMore(setup, tokens, [], name);
    }
    forall name | name in scope && setup.Live(name)
      ensures TameTokens(side, setup.values[name]) && Within(setup, setup.values[name], scope)
    {
      ReachableValueTame(setup, side, text, name);
    }
  }

  lemma ReachableValueTame(setup: Setup, side: Side, text: string, name: string)
    requires TameFrom(setup, side, text) && name in Reachable(setup, Lex(text)) && setup.Live(name)
    ensures TameTokens(side, setup.values[name])
    ensures Within(setup, setup.values[name], Reachable(setup, Lex(text)))
  {
    var path :| LeadsTo(setup, Lex(text), path, name);
    ChainEnd(setup, Lex(text), path);
    forall n | Wild(n) in setup.values[name] && setup.Live(n) ensures n in Reachable(setup, Lex(text)) {
      ReachableMore(setup, Lex(text), path, n);
    }
  }

  lemma EndsHeld(setup: Setup, side: Side, text: string) returns (scope: set<string>)
    requires Ends(setup, side, text)
    ensures Held(setup, side, scope, text)
  {
    if TameFrom(setup, side, text) {
      ReachableTame(setup, side, text);
      scope := Reachable(setup, Lex(text));
    } else {
      scope := setup.values.Keys;
    }
  }

  /** A dictionary and an environment of strings that are tame on one side. */
  lemma TameContextEnds(ctx: Context, side: Side, text: string)
    requires forall name <- ctx.mdict :: TameValue(side, ctx.mdict[name])
    requires forall name <- ctx.env :: Tame(side, ctx.env[name])
    ensures Ends(ctx.Tokens(), side, text)
  {
    forall name | ctx.Defines(name) ensures Tame(side, ctx.Text(name)) {
      if name in ctx.mdict {
        StringifyTame(side, ctx.mdict[name]);
      }
    }
  }

  /**
   Without stray braces of one side in the text and the values that it leads to, the
   outcome is that of the expansion of the tokens, errors included, and success means
   that no circle, missing name or command can be reached.
   */
  lemma TameComputes(ctx: Context, side: Side, text: string, outcome: TextOutcome)
    requires TameFrom(ctx.Tokens(), side, text) && Rewrites(ctx.Tokens(), [], text, outcome)
    ensures Computes(outcome, Expand(ctx.Tokens(), Lex(text), []))
    ensures outcome.Done? <==> WellFounded(ctx.Tokens(), Lex(text))
  {
    var setup := ctx.Tokens();
    ReachableTame(setup, side, text);
    TokensLexed(ctx);
    TextAgrees(setup, side, Reachable(setup, Lex(text)), [], text, outcome);
    ExpandsExactly(setup, Lex(text));
  }

  /** The call from outside: it ends, in the outcome that replacing wildcards in any order leads to. */
  method SubstWildcards(text: string, ctx: Context) returns (outcome: TextOutcome)
    requires exists side :: Ends(ctx.Tokens(), side, text)
    ensures Rewrites(ctx.Tokens(), [], text, outcome)
    ensures forall side | TameFrom(ctx.Tokens(), side, text) ::
      && Computes(outcome, Expand(ctx.Tokens(), Lex(text), []))
      && (outcome.Done? <==> WellFounded(ctx.Tokens(), Lex(text)))
  {
    ghost var side :| Ends(ctx.Tokens(), side, text);
    ghost var scope := EndsHeld(ctx.Tokens(), side, text);
    outcome := SubstWorker(text, ctx, [], side, scope);
    forall side | TameFrom(ctx.Tokens(), side, text)
      ensures Computes(outcome, Expand(ctx.Tokens(), Lex(text), []))
      ensures outcome.Done? <==> WellFounded(ctx.Tokens(), Lex(text))
    {
      TameComputes(ctx, side, text, outcome);
    }
  }
}
