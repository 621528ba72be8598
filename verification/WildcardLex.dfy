/**
 Strings and their tokens: any string is read as wildcards and single characters. A
 string without stray opening, or without stray closing, braces can be joined to
 another one of its kind without making wildcards across the seam.
 */
module WildcardLex {
  import opened Common
  import opened Wildcards

  // A string and its tokens.

  predicate NameChar(c: char) {
    'A' <= c <= 'Z' || 'a' <= c <= 'z' || '0' <= c <= '9' || c == '_'
  }

  /** How many characters of a name the string begins with. */
  function NameLength(s: string): (n: nat)
    ensures n <= |s|
  {
    if s == "" || !NameChar(s[0]) then 0 else 1 + NameLength(s[1..])
  }

  /** Whether the string begins with a wildcard: a name of at least one character in braces. */
  predicate WildcardHead(s: string) {
    && |s| > 0 && s[0] == '{'
    && NameLength(s[1..]) > 0
    && 1 + NameLength(s[1..]) < |s| && s[1 + NameLength(s[1..])] == '}'
  }

  function HeadName(s: string): string
    requires WildcardHead(s)
  {
    s[1..1 + NameLength(s[1..])]
  }

  function HeadLength(s: string): (n: nat)
    requires WildcardHead(s)
    ensures 2 < n <= |s|
  {
    2 + NameLength(s[1..])
  }

  predicate IsName(name: string) {
    name != "" && forall c <- name :: NameChar(c)
  }

  /** Wildcards, and characters that belong to none, stray braces among them. */
  function Lex(s: string): (text: seq<Token>) {
    if s == "" then []
    else if WildcardHead(s) then [Wild(HeadName(s))] + Lex(s[HeadLength(s)..])
    else [Lit(s[0])] + Lex(s[1..])
  }

  function Spelled(t: Token): string {
    match t
    case Lit(c) => [c]
    case Wild(name) => "{" + name + "}"
  }

  function Render(text: seq<Token>): string {
    if text == [] then "" else Spelled(text[0]) + Render(text[1..])
  }

  lemma RenderCons(t: Token, rest: seq<Token>)
    ensures Render([t] + rest) == Spelled(t) + Render(rest)
  {
    assert ([t] + rest)[1..] == rest;
  }

  /** The wildcard stands in the string at that place. */
  predicate Occurs(s: string, i: nat, name: string) {
    IsName(name) && i + |name| + 2 <= |s| && s[i..i + |name| + 2] == Spelled(Wild(name))
  }

  lemma {:induction false} NameLengthChars(s: string)
    ensures forall k | 0 <= k < NameLength(s) :: NameChar(s[k])
    ensures NameLength(s) < |s| ==> !NameChar(s[NameLength(s)])
  {
    if s != "" && NameChar(s[0]) {
      NameLengthChars(s[1..]);
      assert forall k | 0 < k < NameLength(s) :: s[k] == s[1..][k - 1];
    }
  }

  lemma {:induction false} NameLengthIs(name: string, rest: string)
    requires (forall c <- name :: NameChar(c)) && (rest == "" || !NameChar(rest[0]))
    ensures NameLength(name + rest) == |name|
  {
    if name == "" {
      assert name + rest == rest;
    } else {
      NameLengthIs(name[1..], rest);
      assert (name + rest)[0] == name[0] && (name + rest)[1..] == name[1..] + rest;
    }
  }

  lemma HeadOccurs(s: string)
    requires WildcardHead(s)
    ensures Occurs(s, 0, HeadName(s)) && HeadLength(s) == |HeadName(s)| + 2
  {
    var name := HeadName(s);
    NameLengthChars(s[1..]);
    forall c <- name ensures NameChar(c) {
      var k :| 0 <= k < |name| && name[k] == c;
      assert name[k] == s[1..][k];
    }
    assert s[0..|name| + 2] == "{" + name + "}";
  }

  lemma OccursChars(s: string, i: nat, name: string)
    requires Occurs(s, i, name)
    ensures s[i] == '{' && s[i + |name| + 1] == '}'
    ensures forall k | i < k <= i + |name| :: s[k] == name[k - i - 1] && NameChar(s[k])
    ensures s == s[..i] + Spelled(Wild(name)) + s[i + |name| + 2..]
  {
    var w := s[i..i + |name| + 2];
    assert w == "{" + name + "}";
    assert w[0] == s[i] && w[|name| + 1] == s[i + |name| + 1];
    forall k | i < k <= i + |name| ensures s[k] == name[k - i - 1] && NameChar(s[k]) {
      assert w[k - i] == s[k];
      assert name[k - i - 1] in name;
    }
  }

  lemma OccursHead(s: string, name: string)
    requires Occurs(s, 0, name)
    ensures WildcardHead(s) && HeadName(s) == name && HeadLength(s) == |name| + 2
  {
    OccursChars(s, 0, name);
    var rest := s[|name| + 1..];
    NameLengthIs(name, rest);
    assert s[1..] == name + rest;
  }

  lemma OccursShift(s: string, k: nat, i: nat, name: string)
    requires k <= i && k <= |s|
    ensures Occurs(s, i, name) <==> Occurs(s[k..], i - k, name)
  {
    if i + |name| + 2 <= |s| {
      assert s[k..][i - k..i - k + |name| + 2] == s[i..i + |name| + 2];
    }
  }

  /** A wildcard within a part of the string. */
  lemma OccursWithin(s: string, t: string, k: nat, i: nat, name: string)
    requires k <= |s| && k <= |t| && s[..k] == t[..k] && i + |name| + 2 <= k
    ensures Occurs(s, i, name) <==> Occurs(t, i, name)
  {
    assert s[i..i + |name| + 2] == s[..k][i..i + |name| + 2] == t[i..i + |name| + 2];
  }

  lemma OccursAfter(a: string, name: string, b: string)
    requires IsName(name)
    ensures Occurs(a + Spelled(Wild(name)) + b, |a|, name)
  {
    var s := a + Spelled(Wild(name)) + b;
    assert s[|a|..|a| + |name| + 2] == Spelled(Wild(name));
  }

  lemma OccursOnce(s: string, i: nat, m: string, n: string)
    requires Occurs(s, i, m) && Occurs(s, i, n)
    ensures m == n
  {
    OccursShift(s, i, i, m);
    OccursShift(s, i, i, n);
    OccursHead(s[i..], m);
    OccursHead(s[i..], n);
  }

  /** Different wildcards of a string do not overlap. */
  lemma WildcardsApart(s: string, i: nat, m: string, j: nat, n: string)
    requires Occurs(s, i, m) && Occurs(s, j, n) && i < j
    ensures i + |m| + 2 <= j
  {
    OccursChars(s, i, m);
    OccursChars(s, j, n);
    assert s[j] == '{';
  }

  /** A wildcard does not reach over a closing brace. */
  lemma EndsByBrace(s: string, i: nat, name: string, k: nat)
    requires Occurs(s, i, name) && i < k <= |s| && s[k - 1] == '}'
    ensures i + |name| + 2 <= k
  {
    OccursChars(s, i, name);
    assert s[k - 1] == '}';
  }

  /** Taking the first token off. */
  lemma FirstToken(s: string) returns (t: Token, rest: string)
    requires s != ""
    ensures s == Spelled(t) + rest && Lex(s) == [t] + Lex(rest) && rest == s[|Spelled(t)|..]
    ensures if t.Wild? then IsName(t.name) else !WildcardHead(s)
  {
    if WildcardHead(s) {
      t, rest := Wild(HeadName(s)), s[HeadLength(s)..];
      HeadOccurs(s);
      OccursChars(s, 0, HeadName(s));
    } else {
      t, rest := Lit(s[0]), s[1..];
    }
  }

  /** No character is lost: strings with the same tokens are the same. */
  lemma {:induction false} RenderLex(s: string)
    ensures Render(Lex(s)) == s
    decreases |s|
  {
    if s != "" {
      var t, rest := FirstToken(s);
      RenderCons(t, Lex(rest));
      RenderLex(rest);
    }
  }

  lemma AtFront(name: string, rest: string)
    requires IsName(name)
    ensures Occurs(Spelled(Wild(name)) + rest, 0, name)
  {
    assert "" + Spelled(Wild(name)) + rest == Spelled(Wild(name)) + rest;
    OccursAfter("", name, rest);
  }

  /** Putting a wildcard in front. */
  lemma WildLex(name: string, s: string)
    requires IsName(name)
    ensures Lex(Spelled(Wild(name)) + s) == [Wild(name)] + Lex(s)
  {
    var all := Spelled(Wild(name)) + s;
    AtFront(name, s);
    OccursHead(all, name);
    assert all[|name| + 2..] == s;
  }

  /** Putting a character in front that begins no wildcard. */
  lemma CharLex(c: char, s: string)
    requires !WildcardHead([c] + s)
    ensures Lex([c] + s) == [Lit(c)] + Lex(s)
  {
    assert ([c] + s)[1..] == s;
  }

  // Joining strings.

  /** No wildcard of the joined string lies across the seam. */
  ghost predicate NoneAcross(a: string, b: string) {
    forall i: nat, name | i < |a| && Occurs(a + b, i, name) :: i + |name| + 2 <= |a|
  }

  lemma NoneAcrossRest(t: Token, rest: string, b: string)
    requires NoneAcross(Spelled(t) + rest, b)
    ensures NoneAcross(rest, b)
  {
    var h := |Spelled(t)|;
    Associate(Spelled(t), rest, b);
    assert (Spelled(t) + (rest + b))[h..] == rest + b;
    forall i: nat, name | i < |rest| && Occurs(rest + b, i, name) ensures i + |name| + 2 <= |rest| {
      OccursShift((Spelled(t) + rest) + b, h, i + h, name);
    }
  }

  lemma HeadOfJoined(a: string, b: string)
    requires a != "" && NoneAcross(a, b) && WildcardHead(a + b)
    ensures WildcardHead(a)
  {
    HeadOccurs(a + b);
    OccursWithin(a + b, a, |a|, 0, HeadName(a + b));
    OccursHead(a, HeadName(a + b));
  }

  lemma JoinStep(t: Token, rest: string, b: string)
    requires t.Wild? ==> IsName(t.name)
    requires t.Lit? ==> !WildcardHead((Spelled(t) + rest) + b)
    ensures Lex((Spelled(t) + rest) + b) == [t] + Lex(rest + b)
  {
    Associate(Spelled(t), rest, b);
    match t {
      case Lit(c) => CharLex(c, rest + b);
      case Wild(name) => WildLex(name, rest + b);
    }
  }

  lemma {:induction false} LexJoin(a: string, b: string)
    requires NoneAcross(a, b)
    ensures Lex(a + b) == Lex(a) + Lex(b)
    decreases |a|
  {
    if a == "" {
      assert a + b == b;
    } else {
      var t, rest := FirstToken(a);
      if t.Lit? && WildcardHead(a + b) {
        HeadOfJoined(a, b);
      }
      JoinStep(t, rest, b);
      NoneAcrossRest(t, rest, b);
      LexJoin(rest, b);
      Associate([t], Lex(rest), Lex(b));
    }
  }

  lemma BeforeOpening(a: string, b: string)
    requires b != "" && b[0] == '{'
    ensures NoneAcross(a, b)
  {
    forall i: nat, name | i < |a| && Occurs(a + b, i, name) ensures i + |name| + 2 <= |a| {
      OccursChars(a + b, i, name);
      assert (a + b)[|a|] == '{';
    }
  }

  lemma AfterClosing(a: string, b: string)
    requires a != "" && a[|a| - 1] == '}'
    ensures NoneAcross(a, b)
  {
    forall i: nat, name | i < |a| && Occurs(a + b, i, name) ensures i + |name| + 2 <= |a| {
      assert (a + b)[|a| - 1] == '}';
      EndsByBrace(a + b, i, name, |a|);
    }
  }

  /** A wildcard is a token of every string that it stands in, between those of the two sides. */
  lemma LexAround(pre: string, name: string, post: string)
    requires IsName(name)
    ensures Lex(pre + Spelled(Wild(name)) + post) == Lex(pre) + [Wild(name)] + Lex(post)
  {
    WildLex(name, post);
    BeforeOpening(pre, Spelled(Wild(name)) + post);
    LexJoin(pre, Spelled(Wild(name)) + post);
    Associate(pre, Spelled(Wild(name)), post);
    Associate(Lex(pre), [Wild(name)], Lex(post));
  }

  lemma SplitAt(s: string, i: nat, name: string)
    requires Occurs(s, i, name)
    ensures s == s[..i] + Spelled(Wild(name)) + s[i + |name| + 2..]
    ensures Lex(s) == Lex(s[..i]) + [Wild(name)] + Lex(s[i + |name| + 2..])
  {
    OccursChars(s, i, name);
    LexAround(s[..i], name, s[i + |name| + 2..]);
  }

  /** A wildcard behind the first token. */
  lemma InFrontOf(t: Token, rest: string, i: nat, name: string)
    requires Occurs(rest, i, name)
    ensures Occurs(Spelled(t) + rest, i + |Spelled(t)|, name)
  {
    assert (Spelled(t) + rest)[|Spelled(t)|..] == rest;
    OccursShift(Spelled(t) + rest, |Spelled(t)|, i + |Spelled(t)|, name);
  }

  /** Every wildcard token of a string stands somewhere in it. */
  lemma {:induction false} TokenOccurs(s: string, name: string) returns (i: nat)
    requires Wild(name) in Lex(s)
    ensures Occurs(s, i, name)
    decreases |s|
  {
    var t, rest := FirstToken(s);
    if t == Wild(name) {
      AtFront(name, rest);
      i := 0;
    } else {
      var k := TokenOccurs(rest, name);
      InFrontOf(t, rest, k, name);
      i := k + |Spelled(t)|;
    }
  }

  // Stray braces.

  datatype Side = Opening | Closing

  function Brace(side: Side): char {
    if side.Opening? then '{' else '}'
  }

  /** No brace of this side is a token of its own. */
  ghost predicate TameTokens(side: Side, text: seq<Token>) {
    Lit(Brace(side)) !in text
  }

  /** Every opening, or every closing, brace of the string belongs to a wildcard. */
  ghost predicate Tame(side: Side, s: string) {
    TameTokens(side, Lex(s))
  }

  function BraceOf(side: Side, j: nat, name: string): nat {
    if side.Opening? then j else j + |name| + 1
  }

  lemma FirstAndRestTame(side: Side, t: Token, rest: seq<Token>)
    requires TameTokens(side, [t] + rest)
    ensures t != Lit(Brace(side)) && TameTokens(side, rest)
  {
    assert ([t] + rest)[0] == t;
  }

  lemma BraceOfWild(side: Side, name: string, s: string, k: nat)
    requires Occurs(s, 0, name) && k < |name| + 2 && s[k] == Brace(side)
    ensures k == BraceOf(side, 0, name)
  {
    OccursChars(s, 0, name);
  }

  lemma BraceOfFirst(side: Side, t: Token, rest: string, k: nat)
    requires (t.Wild? ==> IsName(t.name)) && k < |Spelled(t)| && (Spelled(t) + rest)[k] == Brace(side)
    requires t != Lit(Brace(side))
    ensures Belongs(side, Spelled(t) + rest, k)
  {
    if t.Wild? {
      AtFront(t.name, rest);
      BraceOfWild(side, t.name, Spelled(t) + rest, k);
    }
  }

  ghost predicate Belongs(side: Side, s: string, k: nat) {
    exists j: nat, name :: Occurs(s, j, name) && k == BraceOf(side, j, name)
  }

  lemma BelongsBehind(side: Side, t: Token, rest: string, k: nat)
    requires Belongs(side, rest, k)
    ensures Belongs(side, Spelled(t) + rest, k + |Spelled(t)|)
  {
    var j: nat, name :| Occurs(rest, j, name) && k == BraceOf(side, j, name);
    InFrontOf(t, rest, j, name);
  }

  /** Every brace of a tame string belongs to a wildcard. */
  lemma {:induction false} BraceBelongs(side: Side, s: string, k: nat)
    requires Tame(side, s) && k < |s| && s[k] == Brace(side)
    ensures Belongs(side, s, k)
    decreases |s|
  {
    var t, rest := FirstToken(s);
    FirstAndRestTame(side, t, Lex(rest));
    if k < |Spelled(t)| {
      BraceOfFirst(side, t, rest, k);
    } else {
      BraceBelongs(side, rest, k - |Spelled(t)|);
      BelongsBehind(side, t, rest, k - |Spelled(t)|);
    }
  }

  lemma TameNoneAcross(side: Side, a: string, b: string)
    requires Tame(side, a) && Tame(side, b)
    ensures NoneAcross(a, b)
  {
    forall i: nat, name | i < |a| && Occurs(a + b, i, name) ensures i + |name| + 2 <= |a| {
      if i + |name| + 2 > |a| {
        SeamBelongs(side, a, b, i, name);
      }
    }
  }

  /** A wildcard across the seam would have a brace that belongs to a wildcard of one of the two parts. */
  lemma SeamBelongs(side: Side, a: string, b: string, i: nat, name: string)
    requires Tame(side, a) && Tame(side, b) && Occurs(a + b, i, name) && i < |a|
    ensures i + |name| + 2 <= |a|
  {
    if side.Opening? {
      SeamOpens(a, b, i, name);
    } else if i + |name| + 2 > |a| {
      SeamCloses(a, b, i, name);
    }
  }

  lemma SeamOpens(a: string, b: string, i: nat, name: string)
    requires Tame(Opening, a) && Occurs(a + b, i, name) && i < |a|
    ensures i + |name| + 2 <= |a|
  {
    OccursChars(a + b, i, name);
    assert a[i] == (a + b)[i];
    BraceBelongs(Opening, a, i);
    var j: nat, n :| Occurs(a, j, n) && i == BraceOf(Opening, j, n);
    assert (a + b)[..|a|] == a[..|a|];
    OccursWithin(a, a + b, |a|, i, n);
    OccursOnce(a + b, i, name, n);
  }

  lemma SeamCloses(a: string, b: string, i: nat, name: string)
    requires Tame(Closing, b) && Occurs(a + b, i, name) && i < |a|
    ensures i + |name| + 2 <= |a|
  {
    OccursChars(a + b, i, name);
    if i + |name| + 2 > |a| {
      var k := i + |name| + 1 - |a|;
      assert b[k] == (a + b)[i + |name| + 1];
      BraceBelongs(Closing, b, k);
      var j: nat, n :| Occurs(b, j, n) && k == BraceOf(Closing, j, n);
      LaterPart(a, b, j, n);
      WildcardsApart(a + b, i, name, |a| + j, n);
    }
  }

  lemma LaterPart(a: string, b: string, j: nat, n: string)
    requires Occurs(b, j, n)
    ensures Occurs(a + b, |a| + j, n)
  {
    assert (a + b)[|a|..] == b;
    OccursShift(a + b, |a|, |a| + j, n);
  }

  /** Tame strings join without new wildcards. */
  lemma TameJoin(side: Side, a: string, b: string)
    requires Tame(side, a) && Tame(side, b)
    ensures Lex(a + b) == Lex(a) + Lex(b) && Tame(side, a + b)
  {
    TameNoneAcross(side, a, b);
    LexJoin(a, b);
  }

  lemma LexSpelled(t: Token)
    requires t.Wild? ==> IsName(t.name)
    ensures Lex(Spelled(t)) == [t]
  {
    match t {
      case Lit(c) => CharLex(c, "");
      case Wild(name) => WildLex(name, "");
    }
    assert Spelled(t) + "" == Spelled(t);
  }

  /** The tokens of the text of tame tokens are those tokens. */
  lemma {:induction false} LexRender(side: Side, text: seq<Token>)
    requires TameTokens(side, text) && forall t <- text :: t.Wild? ==> IsName(t.name)
    ensures Lex(Render(text)) == text
  {
    if text != [] {
      assert text == [text[0]] + text[1..];
      LexRender(side, text[1..]);
      LexSpelled(text[0]);
      TameJoin(side, Spelled(text[0]), Render(text[1..]));
    }
  }

  /** A string without opening braces is its characters. */
  lemma {:induction false} PlainLex(s: string)
    requires '{' !in s
    ensures |Lex(s)| == |s| && forall i | 0 <= i < |s| :: Lex(s)[i] == Lit(s[i])
  {
    if s != "" {
      PlainLex(s[1..]);
    }
  }

  lemma PlainTame(side: Side, s: string)
    requires '{' !in s && Brace(side) !in s
    ensures Tame(side, s)
  {
    PlainLex(s);
  }

  // How many braces are left.

  /** The tokens that still have a brace of this side to give: stray ones, and wildcards that may not stay. */
  predicate Counts(setup: Setup, side: Side, t: Token) {
    match t
    case Lit(c) => c == Brace(side)
    case Wild(name) => !setup.MayStay(name)
  }

  function Pending(setup: Setup, side: Side, text: seq<Token>): nat {
    if text == [] then 0 else (if Counts(setup, side, text[0]) then 1 else 0) + Pending(setup, side, text[1..])
  }

  lemma {:induction false} PendingConcat(setup: Setup, side: Side, a: seq<Token>, b: seq<Token>)
    ensures Pending(setup, side, a + b) == Pending(setup, side, a) + Pending(setup, side, b)
  {
    if a == [] {
      assert a + b == b;
    } else {
      assert (a + b)[0] == a[0] && (a + b)[1..] == a[1..] + b;
      PendingConcat(setup, side, a[1..], b);
    }
  }

  lemma {:induction false} PendingSome(setup: Setup, side: Side, text: seq<Token>, t: Token)
    requires t in text && Counts(setup, side, t)
    ensures Pending(setup, side, text) >= 1
  {
    if text[0] != t {
      PendingSome(setup, side, text[1..], t);
    }
  }

  lemma {:induction false} PendingNone(setup: Setup, side: Side, text: seq<Token>)
    requires TameTokens(side, text) && Inert(setup, text)
    ensures Pending(setup, side, text) == 0
  {
    if text != [] {
      assert text[0] in text;
      PendingNone(setup, side, text[1..]);
    }
  }

  function PendingIn(setup: Setup, side: Side, s: string): nat {
    Pending(setup, side, Lex(s))
  }

  lemma PendingAround(setup: Setup, side: Side, pre: string, name: string, post: string)
    requires IsName(name)
    ensures PendingIn(setup, side, pre + Spelled(Wild(name)) + post) ==
      PendingIn(setup, side, pre) + (if setup.MayStay(name) then 0 else 1) + PendingIn(setup, side, post)
  {
    LexAround(pre, name, post);
    PendingConcat(setup, side, Lex(pre) + [Wild(name)], Lex(post));
    PendingConcat(setup, side, Lex(pre), [Wild(name)]);
    assert [Wild(name)][1..] == [];
  }

  lemma HeadCloses(s: string)
    requires WildcardHead(s)
    ensures '}' in s[1..]
  {
    assert s[1..][NameLength(s[1..])] == '}';
  }

  lemma StrayOpening(x: string)
    requires forall c <- x :: NameChar(c)
    ensures Lit('{') in Lex("{" + x)
  {
    assert ("{" + x)[1..] == x;
    if WildcardHead("{" + x) {
      HeadCloses("{" + x);
    }
  }

  /** The part of a wildcard in front of the seam: a stray opening brace. */
  lemma PendingFront(setup: Setup, side: Side, a: string, x: string)
    requires forall c <- x :: NameChar(c)
    ensures PendingIn(setup, side, a + ("{" + x)) >= PendingIn(setup, side, a) + (if side.Opening? then 1 else 0)
  {
    var s := "{" + x;
    BeforeOpening(a, s);
    LexJoin(a, s);
    PendingConcat(setup, side, Lex(a), Lex(s));
    if side.Opening? {
      StrayOpening(x);
      PendingSome(setup, side, Lex(s), Lit('{'));
    }
  }

  /** The part behind the seam: a stray closing brace. */
  lemma PendingBack(setup: Setup, side: Side, y: string, b: string)
    requires forall c <- y :: NameChar(c)
    ensures PendingIn(setup, side, (y + "}") + b) >= (if side.Closing? then 1 else 0) + PendingIn(setup, side, b)
  {
    var s := y + "}";
    AfterClosing(s, b);
    LexJoin(s, b);
    PendingConcat(setup, side, Lex(s), Lex(b));
    if side.Closing? {
      PlainLex(s);
      assert Lex(s)[|y|] == Lit('}');
      PendingSome(setup, side, Lex(s), Lit('}'));
    }
  }

  lemma PendingAcross(setup: Setup, side: Side, a: string, x: string, y: string, b: string)
    requires IsName(x + y)
    ensures PendingIn(setup, side, a + Spelled(Wild(x + y)) + b) <=
      PendingIn(setup, side, a + ("{" + x)) + PendingIn(setup, side, (y + "}") + b)
  {
    forall c <- x ensures NameChar(c) {
      assert c in x + y;
    }
    forall c <- y ensures NameChar(c) {
      assert c in x + y;
    }
    PendingAround(setup, side, a, x + y, b);
    PendingFront(setup, side, a, x);
    PendingBack(setup, side, y, b);
  }

  lemma CutAcross(a: string, b: string, i: nat, name: string)
    requires Occurs(a + b, i, name) && i < |a| < i + |name| + 2
    ensures var x, y := name[..|a| - i - 1], name[|a| - i - 1..];
      && a == a[..i] + ("{" + x) && b == (y + "}") + b[i + |name| + 2 - |a|..] && x + y == name
      && a + b == a[..i] + Spelled(Wild(x + y)) + b[i + |name| + 2 - |a|..]
  {
    OccursChars(a + b, i, name);
    var s, k := a + b, |a| - i - 1;
    assert name[..k] + name[k..] == name;
    assert s[..i] == a[..i] && s[i + |name| + 2..] == b[i + |name| + 2 - |a|..];
    assert forall n | i < n < |a| :: a[n] == s[n] == name[n - i - 1];
    assert forall n | 0 <= n < i + |name| + 2 - |a| :: b[n] == s[n + |a|];
  }

  /** Joining strings makes no pending braces. */
  lemma PendingJoin(setup: Setup, side: Side, a: string, b: string)
    ensures PendingIn(setup, side, a + b) <= PendingIn(setup, side, a) + PendingIn(setup, side, b)
  {
    if NoneAcross(a, b) {
      LexJoin(a, b);
      PendingConcat(setup, side, Lex(a), Lex(b));
    } else {
      var i: nat, name :| i < |a| && Occurs(a + b, i, name) && i + |name| + 2 > |a|;
      CutAcross(a, b, i, name);
      var k := |a| - i - 1;
      PendingAcross(setup, side, a[..i], name[..k], name[k..], b[i + |name| + 2 - |a|..]);
    }
  }

  /**
   A replacement uses up a brace: a wildcard that may not stay gives way to a tame text
   in which all may.
   */
  lemma ReplacedPendsLess(setup: Setup, side: Side, pre: string, name: string, post: string, v: string)
    requires IsName(name) && !setup.MayStay(name) && Tame(side, v) && Inert(setup, Lex(v))
    ensures PendingIn(setup, side, pre + v + post) < PendingIn(setup, side, pre + Spelled(Wild(name)) + post)
  {
    PendingAround(setup, side, pre, name, post);
    PendingNone(setup, side, Lex(v));
    PendingJoin(setup, side, pre + v, post);
    PendingJoin(setup, side, pre, v);
  }

  // The search for the leftmost wildcard.

  datatype Match = NoMatch | Match(start: nat, end: nat, name: string)

  function Search(s: string): (m: Match)
    ensures m.Match? ==> m.start < m.end <= |s|
  {
    if s == "" then NoMatch
    else if WildcardHead(s) then Match(0, HeadLength(s), HeadName(s))
    else match Search(s[1..])
      case NoMatch => NoMatch
      case Match(start, end, name) => Match(start + 1, end + 1, name)
  }

  ghost predicate NoneBefore(s: string, k: nat) {
    forall i: nat, name | i < k :: !Occurs(s, i, name)
  }

  /** The search finds the leftmost wildcard of any string, or there is none. */
  lemma {:induction false} SearchFindsFirst(s: string)
    ensures var m := Search(s);
      if m.Match? then Occurs(s, m.start, m.name) && m.end == m.start + |m.name| + 2 && NoneBefore(s, m.start)
      else NoneBefore(s, |s|)
  {
    if WildcardHead(s) {
      HeadOccurs(s);
    } else if s != "" {
      SearchFindsFirst(s[1..]);
      forall i: nat, name | Occurs(s, i, name) ensures i > 0 && Occurs(s[1..], i - 1, name) {
        if i == 0 {
          OccursHead(s, name);
        }
        OccursShift(s, 1, i, name);
      }
      if Search(s[1..]).Match? {
        OccursShift(s, 1, Search(s).start, Search(s).name);
      }
    }
  }
}
