/**
 What a single name stands for: where its value is looked up, which wildcards stay or
 stop the expansion, and how values are printed.
 */
module WildcardLookup {
  import opened Common
  import opened Rewriting
  import opened WildcardLex
  import opened WildcardText
  import opened Wildcards
  import opened Decimals

  /** Letters, digits and the underscore, by their codes. */
  lemma NameCodes(name: string)
    ensures IsName(name) <==>
      name != "" && forall c <- name ::
        48 <= c as int <= 57 || 65 <= c as int <= 90 || c as int == 95 || 97 <= c as int <= 122
  {
    forall c <- name ensures NameChar(c) <==>
      48 <= c as int <= 57 || 65 <= c as int <= 90 || c as int == 95 || 97 <= c as int <= 122 {}
  }

  // ---------- Lookups ----------

  /** Contexts that differ at most in environment variables that the dictionary hides. */
  ghost predicate SameButHidden(a: Context, b: Context) {
    && a.mdict == b.mdict && a.ignored == b.ignored && a.ignoreError == b.ignoreError
    && forall name | name !in a.mdict ::
      (name in a.env <==> name in b.env) && (name in a.env && name in b.env ==> a.env[name] == b.env[name])
  }

  /** The dictionary comes first: a variable of the environment that it hides changes no outcome of any text. */
  lemma HiddenNeverMatters(a: Context, b: Context, text: string, outcome: TextOutcome)
    requires SameButHidden(a, b)
    ensures Rewrites(a.Tokens(), [], text, outcome) <==> Rewrites(b.Tokens(), [], text, outcome)
  {
    forall name ensures a.Defines(name) <==> b.Defines(name) {}
    forall name | a.Defines(name) ensures a.Text(name) == b.Text(name) {}
    assert a.Tokens() == b.Tokens();
  }

  lemma InPlace(setup: Setup, seen: seq<string>, text: string)
    requires InertText(setup, text)
    ensures Rewrites(setup, seen, text, Done(text))
  {
    assert ReachesIn(Steps(setup, seen), 0, text, text);
  }

  lemma StepReaches(setup: Setup, s: string, t: string)
    requires Step(setup, [], s, t) && InertText(setup, t)
    ensures Rewrites(setup, [], s, Done(t))
  {
    assert Steps(setup, [])(s, t);
    assert ReachesIn(Steps(setup, []), 0, t, t);
    assert ReachesIn(Steps(setup, []), 1, s, t);
  }

  /** A wildcard alone becomes the value of its name, if that leaves nothing to expand. */
  lemma BecomesValue(setup: Setup, name: string, value: string)
    requires IsName(name) && setup.Live(name) && Render(setup.values[name]) == value && InertText(setup, value)
    ensures Rewrites(setup, [], Spelled(Wild(name)), Done(value))
  {
    InPlace(setup, [name], value);
    assert [] + [name] == [name];
    assert Gives(setup, [], name, value);
    ReplaceAt(setup, [], "", name, "", value);
    assert "" + Spelled(Wild(name)) + "" == Spelled(Wild(name)) && "" + value + "" == value;
    assert Step(setup, [], Spelled(Wild(name)), value);
    StepReaches(setup, Spelled(Wild(name)), value);
  }

  lemma OnlyItself(name: string, i: nat, other: string)
    requires IsName(name) && Occurs(Spelled(Wild(name)), i, other)
    ensures i == 0 && other == name
  {
    var s := Spelled(Wild(name));
    assert "" + s + "" == s;
    OccursAfter("", name, "");
    if i > 0 {
      WildcardsApart(s, 0, name, i, other);
    } else {
      OccursOnce(s, 0, name, other);
    }
  }

  /** A wildcard alone that may stay does so. */
  lemma Stays(setup: Setup, name: string)
    requires IsName(name) && setup.MayStay(name)
    ensures Rewrites(setup, [], Spelled(Wild(name)), Done(Spelled(Wild(name))))
  {
    forall i: nat, other | Occurs(Spelled(Wild(name)), i, other) ensures setup.MayStay(other) {
      OnlyItself(name, i, other);
    }
    InPlace(setup, [], Spelled(Wild(name)));
  }

  /** A wildcard alone that stops the expansion raises its error. */
  lemma Raises(setup: Setup, name: string)
    requires IsName(name) && setup.Stops(name)
    ensures Rewrites(setup, [], Spelled(Wild(name)), Raised(setup.StopOf(name)))
  {
    var s := Spelled(Wild(name));
    OccursAfter("", name, "");
    assert "" + s + "" == s;
    assert Occurs(s, 0, name) && Hinders(setup, [], name, setup.StopOf(name)) && InertTo(setup, s, 0);
    assert StopsAt(setup, [], s, setup.StopOf(name));
    assert ReachesIn(Steps(setup, []), 0, s, s);
  }

  /** It raises nothing else, because it cannot be replaced. */
  lemma RaisesOnly(setup: Setup, name: string, error: Error)
    requires IsName(name) && setup.Stops(name) && Rewrites(setup, [], Spelled(Wild(name)), Raised(error))
    ensures error == setup.StopOf(name)
  {
    var s := Spelled(Wild(name));
    var n: nat, r :| ReachesIn(Steps(setup, []), n, s, r) && StopsAt(setup, [], r, error);
    if n > 0 {
      var t :| Steps(setup, [])(s, t) && ReachesIn(Steps(setup, []), n - 1, t, r);
      NeverReplaced(setup, name, t);
    }
    var i: nat, other :| Occurs(r, i, other) && Hinders(setup, [], other, error) && InertTo(setup, r, i);
    OnlyItself(name, i, other);
  }

  lemma NeverReplaced(setup: Setup, name: string, t: string)
    requires IsName(name) && setup.Stops(name)
    ensures !Step(setup, [], Spelled(Wild(name)), t)
  {
    forall i: nat, other, v ensures !Replaces(setup, [], Spelled(Wild(name)), i, other, v, t) {
      if Occurs(Spelled(Wild(name)), i, other) {
        OnlyItself(name, i, other);
      }
    }
  }

  lemma OnlyOutcome(setup: Setup, name: string, a: TextOutcome, b: TextOutcome)
    requires IsName(name) && (a.Raised? ==> setup.Stops(name) && a.error == setup.StopOf(name))
    requires Rewrites(setup, [], Spelled(Wild(name)), a) && Rewrites(setup, [], Spelled(Wild(name)), b)
    ensures a == b
  {
    if a.Done? {
      OneResult(setup, [], Spelled(Wild(name)), a, b);
    } else if b.Done? {
      OneResult(setup, [], Spelled(Wild(name)), b, a);
    } else {
      RaisesOnly(setup, name, b.error);
    }
  }

  /** What the tests on a name come to, in their order, if its value has nothing to expand. */
  ghost function Fate(ctx: Context, name: string): TextOutcome {
    if name in ctx.ignored then Done("{" + name + "}")
    else if name == "eval_cmd" then Raised(Command)
    else if name in ctx.mdict then Done(Stringify(ctx.mdict[name]))
    else if name in ctx.env then Done(ctx.env[name])
    else if ctx.ignoreError then Done("{" + name + "}")
    else Raised(Unknown(name))
  }

  /** The text of a single wildcard has this outcome and no other. */
  lemma SingleWildcard(ctx: Context, name: string, outcome: TextOutcome)
    requires IsName(name) && (ctx.Tokens().Live(name) ==> InertText(ctx.Tokens(), ctx.Text(name)))
    ensures Rewrites(ctx.Tokens(), [], "{" + name + "}", outcome) <==> outcome == Fate(ctx, name)
  {
    var setup := ctx.Tokens();
    if setup.Live(name) {
      RenderLex(ctx.Text(name));
      BecomesValue(setup, name, ctx.Text(name));
    } else if setup.MayStay(name) {
      Stays(setup, name);
    } else {
      Raises(setup, name);
    }
    if Rewrites(setup, [], "{" + name + "}", outcome) {
      OnlyOutcome(setup, name, Fate(ctx, name), outcome);
    }
  }

  // ---------- Values ----------

  /** The parts of a string between its spaces. */
  function Split(s: string): (parts: seq<string>)
    ensures |parts| > 0
  {
    if s == "" then [""]
    else
      var rest := Split(s[1..]);
      if s[0] == ' ' then [""] + rest else [[s[0]] + rest[0]] + rest[1..]
  }

  lemma SplitFront(c: char, s: string)
    requires c != ' '
    ensures Split([c] + s) == [[c] + Split(s)[0]] + Split(s)[1..]
  {
    assert ([c] + s)[1..] == s;
  }

  lemma {:induction false} SplitBehind(part: string, s: string)
    requires ' ' !in part
    ensures Split(part + s) == [part + Split(s)[0]] + Split(s)[1..]
  {
    if part == "" {
      assert part + s == s && part + Split(s)[0] == Split(s)[0];
    } else {
      var c, more := part[0], part[1..];
      assert part == [c] + more && c in part;
      SplitBehind(more, s);
      Associate([c], more, s);
      SplitFront(c, more + s);
      Associate([c], more, Split(s)[0]);
    }
  }

  /** The items of a list are printed one behind the other with a space between two: splitting gives them back. */
  lemma {:induction false} ItemsReadBack(items: seq<Value>)
    requires items != [] && forall v <- items :: ' ' !in Stringify(v)
    ensures |Split(Stringify(Items(items)))| == |items|
    ensures forall i | 0 <= i < |items| :: Split(Stringify(Items(items)))[i] == Stringify(items[i])
  {
    var first, rest := Stringify(items[0]), items[1..];
    if rest == [] {
      assert Joined(items) == first + "";
      SplitBehind(first, "");
    } else {
      ItemsReadBack(rest);
      SplitBehind(first, " " + Joined(rest));
      assert (" " + Joined(rest))[1..] == Joined(rest);
      Associate(first, " ", Joined(rest));
      assert first + "" == first;
    }
  }

  /** Strings stay as they are, numbers are printed in decimal, and booleans as the digits 1 and 0. */
  lemma PrintedValues(s: string, i: int)
    ensures Stringify(Str(s)) == s && Stringify(Int(i)) == Decimal(i)
    ensures i < 0 ==> Decimal(i) == "-" + Decimal(-i)
    ensures Stringify(Bool(true)) == "1" && Stringify(Bool(false)) == "0"
  {}
}
