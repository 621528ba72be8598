/**
 What the patterns of the filled buffer are, in terms of the number formats, and the
 tokens that the benchmark reads from it.
 */
module CorePatterns {
  import opened Common
  import opened CoreTokens
  import opened CoreState
  import opened CoreBuffer

  // ---------- Reading byte by byte ----------

  /** The kinds of the tokens read so far, and the state within the token at hand. */
  datatype Reading = Reading(kinds: seq<State>, state: State)

  /** A comma ends the token at hand, and so does the byte that makes it invalid. */
  function Read(r: Reading, c: Byte): Reading {
    if c == COMMA then Reading(r.kinds + [r.state], Start)
    else if Delta(r.state, c) == Invalid then Reading(r.kinds + [Invalid], Start)
    else Reading(r.kinds, Delta(r.state, c))
  }

  function ReadText(r: Reading, text: seq<Byte>): Reading
    decreases |text|
  {
    if text == [] then r else ReadText(Read(r, text[0]), text[1..])
  }

  /** With the token at hand counted, if there is one. */
  function Finished(r: Reading): seq<State> {
    if r.state == Start then r.kinds else r.kinds + [r.state]
  }

  lemma {:induction false} ReadOn(r: Reading, a: seq<Byte>, b: seq<Byte>)
    ensures ReadText(r, a + b) == ReadText(ReadText(r, a), b)
    decreases |a|
  {
    if a == [] {
      assert a + b == b;
    } else {
      assert (a + b)[1..] == a[1..] + b;
      ReadOn(Read(r, a[0]), a[1..], b);
    }
  }

  /** No byte leads back to the start. */
  lemma NeverStart(t: seq<Byte>)
    ensures Run(t) == Start <==> t == []
  {}

  lemma CommaCuts(t: seq<Byte>, rest: seq<Byte>)
    requires Commaless(t) && Run(t) != Invalid
    ensures Tokens(t + [COMMA] + rest) == [Run(t)] + Tokens(rest)
  {
    var text := t + [COMMA] + rest;
    assert text[..|t|] == t && text[|t| + 1..] == rest;
    NotYetInvalid(t);
    assert t != [] ==> text[..|t| - 1] == t[..|t| - 1];
    CutFromReaches(text, 0, |t|);
  }

  lemma NotYetInvalid(t: seq<Byte>)
    requires Run(t) != Invalid
    ensures t != [] ==> Run(t[..|t| - 1]) != Invalid
  {}

  lemma InvalidCuts(t: seq<Byte>, c: Byte, rest: seq<Byte>)
    requires Commaless(t) && c != COMMA && Run(t) != Invalid && Run(t + [c]) == Invalid
    ensures Tokens(t + [c] + rest) == [Invalid] + Tokens(rest)
  {
    var text := t + [c] + rest;
    var n := |t| + 1;
    assert text[..n] == t + [c] && text[..n - 1] == t && text[n..] == rest;
    CutFromReaches(text, 0, n);
  }

  lemma EndCuts(t: seq<Byte>)
    requires Commaless(t) && Run(t) != Invalid && t != []
    ensures Tokens(t) == [Run(t)]
  {
    assert t[..|t|] == t && t[|t|..] == [];
    NotYetInvalid(t);
    CutFromReaches(t, 0, |t|);
  }

  /** Reading on inside a token, of which `t` has been read. */
  lemma {:induction false} ReadsTokens(kinds: seq<State>, t: seq<Byte>, text: seq<Byte>)
    requires Commaless(t) && Run(t) != Invalid
    ensures Finished(ReadText(Reading(kinds, Run(t)), text)) == kinds + Tokens(t + text)
    decreases |text|
  {
    NeverStart(t);
    if text == [] {
      assert t + text == t;
      if t != [] {
        EndCuts(t);
      }
    } else {
      var c, rest := text[0], text[1..];
      assert t + text == t + [c] + rest;
      RunMore(t, c);
      if c == COMMA {
        CommaCuts(t, rest);
        ReadsTokens(kinds + [Run(t)], [], rest);
        TakenOver(kinds, Run(t), rest);
      } else if Run(t + [c]) == Invalid {
        InvalidCuts(t, c, rest);
        ReadsTokens(kinds + [Invalid], [], rest);
        TakenOver(kinds, Invalid, rest);
      } else {
        ReadsTokens(kinds, t + [c], rest);
      }
    }
  }

  lemma TakenOver(kinds: seq<State>, kind: State, rest: seq<Byte>)
    ensures kinds + [kind] + Tokens([] + rest) == kinds + ([kind] + Tokens(rest))
  {
    assert [] + rest == rest;
  }

  /** The tokens of a text are those that a single pass over its bytes counts. */
  lemma OnePass(text: seq<Byte>)
    ensures Tokens(text) == Finished(ReadText(Reading([], Start), text))
  {
    ReadsTokens([], [], text);
    assert [] + text == text && [] + Tokens(text) == Tokens(text);
  }

  // ---------- The patterns ----------

  function RunFrom(state: State, t: seq<Byte>): State
    decreases |t|
  {
    if t == [] then state else RunFrom(Delta(state, t[0]), t[1..])
  }

  lemma {:induction false} RunsOn(a: seq<Byte>, b: seq<Byte>)
    ensures Run(a + b) == RunFrom(Run(a), b)
    decreases |b|
  {
    if b == [] {
      assert a + b == a;
    } else {
      assert a + b == (a + [b[0]]) + b[1..];
      RunMore(a, b[0]);
      RunsOn(a + [b[0]], b[1..]);
    }
  }

  lemma RunOne(state: State, c: Byte, rest: seq<Byte>)
    ensures RunFrom(state, [c] + rest) == RunFrom(Delta(state, c), rest)
  {
    assert ([c] + rest)[1..] == rest;
  }

  lemma Run4(state: State, a: Byte, b: Byte, c: Byte, d: Byte)
    ensures RunFrom(state, [a, b, c, d]) == Delta(Delta(Delta(Delta(state, a), b), c), d)
  {
    RunOne(state, a, [b, c, d]);
    RunOne(Delta(state, a), b, [c, d]);
    RunOne(Delta(Delta(state, a), b), c, [d]);
    RunOne(Delta(Delta(Delta(state, a), b), c), d, []);
    assert [a] + [b, c, d] == [a, b, c, d] && [b] + [c, d] == [b, c, d] && [c] + [d] == [c, d] && [d] + [] == [d];
  }

  lemma ReadOne(r: Reading, c: Byte, rest: seq<Byte>)
    ensures ReadText(r, [c] + rest) == ReadText(Read(r, c), rest)
  {
    assert ([c] + rest)[1..] == rest;
  }

  lemma Read4(r: Reading, a: Byte, b: Byte, c: Byte, d: Byte)
    ensures ReadText(r, [a, b, c, d]) == Read(Read(Read(Read(r, a), b), c), d)
  {
    ReadOne(r, a, [b, c, d]);
    ReadOne(Read(r, a), b, [c, d]);
    ReadOne(Read(Read(r, a), b), c, [d]);
    ReadOne(Read(Read(Read(r, a), b), c), d, []);
    assert [a] + [b, c, d] == [a, b, c, d] && [b] + [c, d] == [b, c, d] && [c] + [d] == [c, d] && [d] + [] == [d];
  }

  lemma Bytes4(s: string, i: nat)
    requires i + 4 <= |s|
    ensures Ascii(s)[i..i + 4] == [Code(s[i]), Code(s[i + 1]), Code(s[i + 2]), Code(s[i + 3])]
  {}

  function RunFour(state: State, s: string, i: nat): State
    requires i + 4 <= |s|
  {
    Delta(Delta(Delta(Delta(state, Code(s[i])), Code(s[i + 1])), Code(s[i + 2])), Code(s[i + 3]))
  }

  lemma RunPart(state: State, s: string, i: nat)
    requires i + 4 <= |s|
    ensures RunFrom(state, Ascii(s)[i..i + 4]) == RunFour(state, s, i)
  {
    Bytes4(s, i);
    Run4(state, Code(s[i]), Code(s[i + 1]), Code(s[i + 2]), Code(s[i + 3]));
  }

  lemma RunShort(s: string)
    requires |s| == 4
    ensures Run(Ascii(s)) == RunFour(Start, s, 0)
  {
    RunPart(Start, s, 0);
    assert Ascii(s)[0..4] == Ascii(s) == [] + Ascii(s);
    RunsOn([], Ascii(s));
  }

  lemma RunLong(s: string)
    requires |s| == 8
    ensures Run(Ascii(s)) == RunFour(RunFour(Start, s, 0), s, 4)
  {
    var a, b := Ascii(s)[0..4], Ascii(s)[4..8];
    assert Ascii(s) == a + b && [] + a == a;
    RunsOn([], a);
    RunPart(Start, s, 0);
    RunsOn(a, b);
    RunPart(Run(a), s, 4);
  }

  /** Digits, with a sign or without. */
  lemma IntPattern(seed: int)
    requires seed % 8 < 3
    ensures |Pattern(seed)| == 4 && Run(Pattern(seed)) == Int
    ensures Pattern(seed)[0] == Code("51-+"[seed / 8 % 4])
  {
    RunShort(PatternText(seed));
  }

  lemma FloatPattern(seed: int)
    requires 3 <= seed % 8 < 5
    ensures |Pattern(seed)| == 8 && Run(Pattern(seed)) == Float
    ensures Pattern(seed)[0] == Code("3.-+"[seed / 8 % 4])
  {
    RunLong(PatternText(seed));
  }

  /** One of the four examples has no point. */
  lemma ScientificPattern(seed: int)
    requires 5 <= seed % 8 < 7
    ensures |Pattern(seed)| == 8 && Run(Pattern(seed)) == if seed / 8 % 4 == 2 then Invalid else Scientific
    ensures Pattern(seed)[0] == Code("5--+"[seed / 8 % 4])
  {
    RunLong(PatternText(seed));
  }

  lemma InvalidPattern(seed: int)
    requires seed % 8 == 7
    ensures |Pattern(seed)| == 8 && Run(Pattern(seed)) == Invalid
    ensures Pattern(seed)[0] == Code("T-13"[seed / 8 % 4])
  {
    RunLong(PatternText(seed));
  }

  /** Each kind of pattern is of the format that it stands for, but for the scientific one without a point. */
  lemma PatternLanguages(seed: int)
    ensures seed % 8 < 3 ==> InLanguage(Int, Pattern(seed))
    ensures 3 <= seed % 8 < 5 ==> InLanguage(Float, Pattern(seed))
    ensures 5 <= seed % 8 < 7 ==> (InLanguage(Scientific, Pattern(seed)) <==> seed / 8 % 4 != 2)
    ensures seed % 8 == 7 || (5 <= seed % 8 && seed / 8 % 4 == 2) ==> !Viable(Pattern(seed))
  {
    ViableExactly(Pattern(seed));
    if seed % 8 < 3 {
      IntPattern(seed);
      RunExactly(Pattern(seed), Int);
    } else if seed % 8 < 5 {
      FloatPattern(seed);
      RunExactly(Pattern(seed), Float);
    } else if seed % 8 < 7 {
      ScientificPattern(seed);
      RunExactly(Pattern(seed), Scientific);
    } else {
      InvalidPattern(seed);
    }
  }

  // ---------- The tokens of a filled buffer ----------

  /** The tokens that the machine reads where the pattern of a seed and its comma stand. */
  function KindsOf(seed: int): seq<State> {
    var kind, example := seed % 8, seed / 8 % 4;
    if kind < 3 then [Int]
    else if kind < 5 then [Float]
    else if kind < 7 then if example == 2 then [Invalid, Int] else [Scientific]
    else if example == 1 then [Invalid, Invalid, Invalid, Invalid, Invalid, Start]
    else if example == 2 then [Invalid, Invalid, Invalid, Start]
    else [Invalid, Invalid, Start]
  }

  function ReadFour(r: Reading, s: string, i: nat): Reading
    requires i + 4 <= |s|
  {
    Read(Read(Read(Read(r, Code(s[i])), Code(s[i + 1])), Code(s[i + 2])), Code(s[i + 3]))
  }

  lemma ReadPart(r: Reading, s: string, i: nat)
    requires i + 4 <= |s|
    ensures ReadText(r, Ascii(s)[i..i + 4]) == ReadFour(r, s, i)
  {
    Bytes4(s, i);
    Read4(r, Code(s[i]), Code(s[i + 1]), Code(s[i + 2]), Code(s[i + 3]));
  }

  lemma ReadShort(r: Reading, s: string)
    requires |s| == 4
    ensures ReadText(r, Ascii(s)) == ReadFour(r, s, 0)
  {
    ReadPart(r, s, 0);
    assert Ascii(s)[0..4] == Ascii(s);
  }

  lemma ReadLong(r: Reading, s: string)
    requires |s| == 8
    ensures ReadText(r, Ascii(s)) == ReadFour(ReadFour(r, s, 0), s, 4)
  {
    var a, b := Ascii(s)[0..4], Ascii(s)[4..8];
    assert Ascii(s) == a + b;
    ReadOn(r, a, b);
    ReadPart(r, s, 0);
    ReadPart(ReadText(r, a), s, 4);
  }

  /** Reading an example of eight characters and its comma. */
  ghost predicate ReadsAs(s: string, kinds: seq<State>) {
    && |s| == 8
    && Read(ReadFour(ReadFour(Reading([], Start), s, 0), s, 4), COMMA) == Reading(kinds, Start)
  }

  lemma FloatsRead(s: string)
    requires s in PATTERNS[1]
    ensures ReadsAs(s, [Float])
  {
    var half := ReadFour(Reading([], Start), s, 0);
    assert half == Reading([], Float) || half == Reading([], Int);
  }

  lemma ScientificsRead(s: string)
    requires s in PATTERNS[2] && s != PATTERNS[2][2]
    ensures ReadsAs(s, [Scientific])
  {
    assert ReadFour(Reading([], Start), s, 0) == Reading([], Float);
  }

  lemma PointlessRead(s: string)
    requires s == PATTERNS[2][2]
    ensures ReadsAs(s, [Invalid, Int])
  {
    assert ReadFour(Reading([], Start), s, 0) == Reading([Invalid], Start);
  }

  lemma FirstInvalidRead(s: string)
    requires s == PATTERNS[3][0]
    ensures ReadsAs(s, [Invalid, Invalid, Start])
  {
    assert ReadFour(Reading([], Start), s, 0) == Reading([Invalid], Float);
  }

  lemma SecondInvalidRead(s: string)
    requires s == PATTERNS[3][1]
    ensures ReadsAs(s, [Invalid, Invalid, Invalid, Invalid, Invalid, Start])
  {
    assert ReadFour(Reading([], Start), s, 0) == Reading([Invalid, Invalid], Start);
  }

  lemma ThirdInvalidRead(s: string)
    requires s == PATTERNS[3][2]
    ensures ReadsAs(s, [Invalid, Invalid, Invalid, Start])
  {
    assert ReadFour(Reading([], Start), s, 0) == Reading([Invalid], Float);
  }

  lemma FourthInvalidRead(s: string)
    requires s == PATTERNS[3][3]
    ensures ReadsAs(s, [Invalid, Invalid, Start])
  {
    assert ReadFour(Reading([], Start), s, 0) == Reading([], Float);
  }

  lemma InvalidsRead(s: string, example: nat, kinds: seq<State>)
    requires example < 4 && s == PATTERNS[3][example] && kinds == KindsOf(7 + 8 * example)
    ensures ReadsAs(s, kinds)
  {
    if example == 0 {
      FirstInvalidRead(s);
    } else if example == 1 {
      SecondInvalidRead(s);
    } else if example == 2 {
      ThirdInvalidRead(s);
    } else {
      FourthInvalidRead(s);
    }
  }

  lemma LongRead(seed: int)
    requires seed % 8 >= 3
    ensures ReadsAs(PatternText(seed), KindsOf(seed))
  {
    var s := PatternText(seed);
    if seed % 8 < 5 {
      FloatsRead(s);
    } else if seed % 8 < 7 {
      if seed / 8 % 4 == 2 {
        PointlessRead(s);
      } else {
        ScientificsRead(s);
      }
    } else {
      InvalidsRead(s, seed / 8 % 4, KindsOf(seed));
    }
  }

  lemma ReadPattern(seed: int)
    ensures Read(ReadText(Reading([], Start), Pattern(seed)), COMMA) == Reading(KindsOf(seed), Start)
  {
    if seed % 8 < 3 {
      ReadShort(Reading([], Start), PatternText(seed));
    } else {
      LongRead(seed);
      ReadLong(Reading([], Start), PatternText(seed));
    }
  }

  lemma {:induction false} ReadBehind(kinds: seq<State>, r: Reading, t: seq<Byte>)
    ensures ReadText(Reading(kinds + r.kinds, r.state), t) ==
      Reading(kinds + ReadText(r, t).kinds, ReadText(r, t).state)
    decreases |t|
  {
    if t != [] {
      var next := Read(r, t[0]);
      ReadOneBehind(kinds, r, t[0]);
      ReadBehind(kinds, next, t[1..]);
    }
  }

  lemma ReadOneBehind(kinds: seq<State>, r: Reading, c: Byte)
    ensures Read(Reading(kinds + r.kinds, r.state), c) == Reading(kinds + Read(r, c).kinds, Read(r, c).state)
  {
    Associate(kinds, r.kinds, [r.state]);
    Associate(kinds, r.kinds, [Invalid]);
  }

  lemma ReadItem(kinds: seq<State>, seed: int)
    ensures ReadText(Reading(kinds, Start), Pattern(seed) + [COMMA]) == Reading(kinds + KindsOf(seed), Start)
  {
    var r := Reading([], Start);
    ReadPattern(seed);
    ReadOn(r, Pattern(seed), [COMMA]);
    assert ReadText(ReadText(r, Pattern(seed)), [COMMA]) == Read(ReadText(r, Pattern(seed)), COMMA) by {
      ReadOne(ReadText(r, Pattern(seed)), COMMA, []);
      assert [COMMA] + [] == [COMMA];
    }
    ReadBehind(kinds, r, Pattern(seed) + [COMMA]);
    assert kinds + [] == kinds;
  }

  /** The kinds that stand in a buffer: those for one seed after the other, while there is room for the pattern. */
  function Kinds(seed: int, room: int): seq<State>
    decreases room
  {
    var n := if seed % 8 < 3 then 5 else 9;
    if n < room then KindsOf(seed) + Kinds(Wrap16(seed + 1), room - n) else []
  }

  lemma PatternLength(seed: int)
    ensures |Pattern(seed)| == if seed % 8 < 3 then 4 else 8
  {
    if seed % 8 < 3 {
      IntPattern(seed);
    } else if seed % 8 < 5 {
      FloatPattern(seed);
    } else if seed % 8 < 7 {
      ScientificPattern(seed);
    } else {
      InvalidPattern(seed);
    }
  }

  lemma {:induction false} ReadItems(kinds: seq<State>, seed: int, room: int)
    ensures ReadText(Reading(kinds, Start), ItemsFrom(seed, room)) == Reading(kinds + Kinds(seed, room), Start)
    decreases room
  {
    PatternLength(seed);
    var n := |Pattern(seed)| + 1;
    if n < room {
      var next := Wrap16(seed + 1);
      ReadItem(kinds, seed);
      ItemsFromStep(seed, room);
      ReadOn(Reading(kinds, Start), Pattern(seed) + [COMMA], ItemsFrom(next, room - n));
      ReadItems(kinds + KindsOf(seed), next, room - n);
      Associate(kinds, KindsOf(seed), Kinds(next, room - n));
    } else {
      assert kinds + [] == kinds;
    }
  }

  lemma {:induction false} TextBeforeZeros(t: seq<Byte>, n: nat)
    requires 0 !in t
    ensures TextOf(t + Zeros(n)) == t
  {
    if t == [] {
      assert t + Zeros(n) == Zeros(n);
    } else {
      assert (t + Zeros(n))[1..] == t[1..] + Zeros(n) && t[0] in t;
      TextBeforeZeros(t[1..], n);
    }
  }

  lemma NoZeroInside(seed: int, room: int)
    ensures 0 !in ItemsFrom(seed, room)
  {
    forall c | c in "012345678+-.eTFqz^" ensures Code(c) != 0 {}
  }

  /** The text in a filled buffer is its items. */
  lemma FilledText(size: nat, seed: int)
    requires size > 0
    ensures TextOf(Content(size, seed)) == ItemsFrom(Wrap16(seed + 1), size - 1)
  {
    var items := ItemsFrom(Wrap16(seed + 1), size - 1);
    assert Items(seed, size - 1) == items;
    NoZeroInside(Wrap16(seed + 1), size - 1);
    TextBeforeZeros(items, size - |items|);
  }

  lemma ItemTokens(seed: int, room: int)
    ensures Tokens(ItemsFrom(seed, room)) == Kinds(seed, room)
  {
    OnePass(ItemsFrom(seed, room));
    ReadItems([], seed, room);
    assert [] + Kinds(seed, room) == Kinds(seed, room);
  }

  /**
   The machine reads from a filled buffer the kinds of the patterns for the seeds after
   the given one, in their order.
   */
  lemma FilledTokens(size: nat, seed: int)
    requires size > 0
    ensures Tokens(TextOf(Content(size, seed))) == Kinds(Wrap16(seed + 1), size - 1)
  {
    FilledText(size, seed);
    ItemTokens(Wrap16(seed + 1), size - 1);
  }
}
