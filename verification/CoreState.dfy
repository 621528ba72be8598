/**
 The scanner of the CoreMark state-machine benchmark: cutting a zero-terminated
 buffer into tokens and counting them and the machine's transitions.
 */
module CoreState {
  import opened CoreTokens

  /** 32-bit unsigned arithmetic. */
  function U32(x: int): (r: nat)
    ensures r < 0x1_0000_0000
  {
    x % 0x1_0000_0000
  }

  function Index(state: State): (i: nat)
    ensures i < 8
  {
    match state
    case Start => 0
    case Invalid => 1
    case S1 => 2
    case S2 => 3
    case Int => 4
    case Float => 5
    case Exponent => 6
    case Scientific => 7
  }

  /** The states in the order in which the program numbers them. */
  const STATES := [Start, Invalid, S1, S2, Int, Float, Exponent, Scientific]

  lemma IndexIsPlace(state: State, i: nat)
    requires i < 8
    ensures Index(state) == i <==> STATES[i] == state
  {}

  // Cutting off a token.

  /** Where the machine stops that has read `k` bytes of the text, and in which state. */
  function CutFrom(text: seq<Byte>, k: nat): (cut: (nat, State))
    requires k <= |text|
    ensures k <= cut.0 <= |text|
    decreases |text| - k
  {
    var state := Run(text[..k]);
    if k == |text| || state == Invalid then (k, state)
    else if text[k] == COMMA then (k + 1, state)
    else CutFrom(text, k + 1)
  }

  function Cut(text: seq<Byte>): (cut: (nat, State))
    ensures cut.0 <= |text| && (text != [] ==> cut.0 > 0)
  {
    CutFrom(text, 0)
  }

  ghost predicate Commaless(t: seq<Byte>) {
    COMMA !in t
  }

  /**
   What a token is: up to a comma or the end of the text, of the language of its
   state; or invalid, up to the first byte that leaves every viable beginning.
   */
  ghost predicate Classified(text: seq<Byte>, n: nat, state: State) {
    n <= |text| &&
    if state == Invalid then n > 0 && Commaless(text[..n]) && Viable(text[..n - 1]) && !Viable(text[..n])
    else
      || (n == |text| && Commaless(text) && InLanguage(state, text))
      || (n > 0 && text[n - 1] == COMMA && Commaless(text[..n - 1]) && InLanguage(state, text[..n - 1]))
  }

  lemma {:induction false} CutFromClassifies(text: seq<Byte>, k: nat)
    requires k <= |text| && Commaless(text[..k])
    requires Run(text[..k]) == Invalid ==> k > 0 && Run(text[..k - 1]) != Invalid
    ensures Classified(text, CutFrom(text, k).0, CutFrom(text, k).1)
    decreases |text| - k
  {
    var state := Run(text[..k]);
    if state == Invalid {
      ViableExactly(text[..k - 1]);
      ViableExactly(text[..k]);
    } else if k == |text| {
      assert text[..k] == text;
      RunExactly(text, state);
    } else if text[k] == COMMA {
      RunExactly(text[..k], state);
    } else {
      assert text[..k + 1] == text[..k] + [text[k]];
      CutFromClassifies(text, k + 1);
    }
  }

  /** The machine classifies the token it cuts off. */
  lemma CutClassifies(text: seq<Byte>)
    ensures Classified(text, Cut(text).0, Cut(text).1)
  {
    CutFromClassifies(text, 0);
  }

  lemma {:induction false} CutFromReaches(text: seq<Byte>, k: nat, b: nat)
    requires k <= b <= |text| && Commaless(text[..b]) && (b > 0 ==> Run(text[..b - 1]) != Invalid)
    ensures CutFrom(text, k) == CutFrom(text, b)
    decreases b - k
  {
    if k < b {
      InvalidStays(text[..k], text[k..b - 1]);
      assert text[..k] + text[k..b - 1] == text[..b - 1];
      assert text[..b][k] == text[k];
      CutFromReaches(text, k + 1, b);
    }
  }

  lemma InvalidOnce(text: seq<Byte>, n: nat)
    requires Classified(text, n, Invalid)
    ensures Cut(text) == (n, Invalid)
  {
    ViableExactly(text[..n - 1]);
    ViableExactly(text[..n]);
    CutFromReaches(text, 0, n);
  }

  /** A token of a language that ends at the end of the text or at a comma. */
  lemma ValidOnce(text: seq<Byte>, b: nat, state: State)
    requires b <= |text| && Commaless(text[..b]) && (b < |text| ==> text[b] == COMMA)
    requires state != Invalid && InLanguage(state, text[..b])
    ensures Cut(text) == (if b == |text| then b else b + 1, state)
  {
    RunExactly(text[..b], state);
    if b > 0 {
      assert text[..b] == text[..b - 1] + [text[b - 1]];
      RunMore(text[..b - 1], text[b - 1]);
    }
    CutFromReaches(text, 0, b);
  }

  /** And no other cut and no other state classify the text. */
  lemma ClassifiedOnce(text: seq<Byte>, n: nat, state: State)
    requires Classified(text, n, state)
    ensures Cut(text) == (n, state)
  {
    if state == Invalid {
      InvalidOnce(text, n);
    } else if n == |text| && Commaless(text) && InLanguage(state, text) {
      assert text[..n] == text;
      ValidOnce(text, n, state);
    } else {
      ValidOnce(text, n - 1, state);
    }
  }

  /** How often counter `i` is raised when a byte is read: on leaving a state, and on some ways to INVALID. */
  function Raised(state: State, c: Byte, i: nat): nat {
    (if i == Index(state) && state != Scientific && Delta(state, c) != state then 1 else 0) +
    (if i == Index(Invalid) && Delta(state, c) == Invalid && (state == Start || state == Scientific) then 1 else 0)
  }

  /** How often counter `i` is raised by a token without its comma. */
  function Raises(t: seq<Byte>, i: nat): nat {
    if t == [] then 0 else Raises(t[..|t| - 1], i) + Raised(Run(t[..|t| - 1]), t[|t| - 1], i)
  }

  function Body(text: seq<Byte>): seq<Byte> {
    var n := Cut(text).0;
    if n > 0 && text[n - 1] == COMMA then text[..n - 1] else text[..n]
  }

  /** Eight unsigned 32-bit counters. */
  predicate Counters(counts: seq<nat>) {
    |counts| == 8 && forall i | 0 <= i < 8 :: counts[i] < 0x1_0000_0000
  }

  /** The growth goes `k` times round the counter. */
  ghost predicate Turns(before: nat, after: nat, growth: int, k: int) {
    before + growth - after == k * 0x1_0000_0000
  }

  /** The counter has grown by the number, in 32 bits. */
  ghost predicate Plus(before: nat, after: nat, growth: int) {
    exists k :: Turns(before, after, growth, k)
  }

  /** For a 32-bit counter this is the remainder. */
  lemma PlusExactly(before: nat, after: nat, growth: int)
    requires after < 0x1_0000_0000
    ensures Plus(before, after, growth) <==> after == U32(before + growth)
  {
    var x := before + growth;
    assert x == x / 0x1_0000_0000 * 0x1_0000_0000 + x % 0x1_0000_0000;
    if after == U32(x) {
      assert Turns(before, after, growth, x / 0x1_0000_0000);
    }
  }

  lemma PlusNothing(x: nat)
    ensures Plus(x, x, 0)
  {
    assert Turns(x, x, 0, 0);
  }

  lemma PlusPlus(a: nat, b: nat, c: nat, first: int, second: int, sum: int)
    requires Plus(a, b, first) && Plus(b, c, second) && sum == first + second
    ensures Plus(a, c, sum)
  {
    var k :| Turns(a, b, first, k);
    var l :| Turns(b, c, second, l);
    assert Turns(a, c, sum, k + l);
  }

  ghost predicate CountedByte(before: seq<nat>, after: seq<nat>, state: State, c: Byte) {
    Counters(before) && Counters(after) && forall i | 0 <= i < 8 :: Plus(before[i], after[i], Raised(state, c, i))
  }

  ghost predicate CountedToken(before: seq<nat>, after: seq<nat>, t: seq<Byte>) {
    Counters(before) && Counters(after) && forall i | 0 <= i < 8 :: Plus(before[i], after[i], Raises(t, i))
  }

  lemma CountedNothing(counts: seq<nat>)
    requires Counters(counts)
    ensures CountedToken(counts, counts, [])
  {
    forall i | 0 <= i < 8 ensures Plus(counts[i], counts[i], Raises([], i)) {
      PlusNothing(counts[i]);
    }
  }

  lemma RaisesMore(t: seq<Byte>, c: Byte, i: nat)
    ensures Raises(t + [c], i) == Raises(t, i) + Raised(Run(t), c, i)
  {
    assert (t + [c])[..|t|] == t;
  }

  lemma CountedMore(before: seq<nat>, middle: seq<nat>, after: seq<nat>, t: seq<Byte>, c: Byte)
    requires CountedToken(before, middle, t) && CountedByte(middle, after, Run(t), c)
    ensures CountedToken(before, after, t + [c])
  {
    forall i | 0 <= i < 8 ensures Plus(before[i], after[i], Raises(t + [c], i)) {
      RaisesMore(t, c, i);
      PlusPlus(before[i], middle[i], after[i], Raises(t, i), Raised(Run(t), c, i), Raises(t + [c], i));
    }
  }

  function Raised1(counts: seq<nat>, state: State): seq<nat>
    requires |counts| == 8
  {
    counts[Index(state) := U32(counts[Index(state)] + 1)]
  }

  lemma RaisedOne(counts: seq<nat>, state: State)
    requires Counters(counts)
    ensures Counters(Raised1(counts, state))
    ensures forall i | 0 <= i < 8 :: Plus(counts[i], Raised1(counts, state)[i], if i == Index(state) then 1 else 0)
  {
    forall i | 0 <= i < 8 ensures Plus(counts[i], Raised1(counts, state)[i], if i == Index(state) then 1 else 0) {
      PlusNothing(counts[i]);
      PlusExactly(counts[i], U32(counts[i] + 1), 1);
    }
  }

  /** The counters after a byte: INVALID raised on its two ways, then the state that is left. */
  function AfterByte(counts: seq<nat>, state: State, c: Byte): seq<nat>
    requires |counts| == 8
  {
    var refusing := Delta(state, c) == Invalid && (state == Start || state == Scientific);
    var refused := if refusing then Raised1(counts, Invalid) else counts;
    if state != Scientific && Delta(state, c) != state then Raised1(refused, state) else refused
  }

  lemma AfterByteCounted(counts: seq<nat>, state: State, c: Byte)
    requires Counters(counts)
    ensures CountedByte(counts, AfterByte(counts, state, c), state, c)
  {
    var refusing := Delta(state, c) == Invalid && (state == Start || state == Scientific);
    var leaving := state != Scientific && Delta(state, c) != state;
    var refused := if refusing then Raised1(counts, Invalid) else counts;
    RaisedOne(counts, Invalid);
    RaisedOne(refused, state);
    forall i | 0 <= i < 8 ensures Plus(counts[i], AfterByte(counts, state, c)[i], Raised(state, c, i)) {
      PlusNothing(counts[i]);
      PlusNothing(refused[i]);
      var first := if refusing && i == Index(Invalid) then 1 else 0;
      var second := if leaving && i == Index(state) then 1 else 0;
      PlusPlus(counts[i], refused[i], AfterByte(counts, state, c)[i], first, second, Raised(state, c, i));
    }
  }

  /** Raise a counter, as an unsigned 32-bit number. */
  method Raise(counts: array<nat>, state: State)
    requires counts.Length == 8
    modifies counts
    ensures counts[..] == Raised1(old(counts[..]), state)
  {
    counts[Index(state)] := U32(counts[Index(state)] + 1);
  }

  /** The transition for one byte, with its counters. */
  method Next(state: State, c: Byte, counts: array<nat>) returns (next: State)
    requires Counters(counts[..]) && state != Invalid
    modifies counts
    ensures next == Delta(state, c)
    ensures CountedByte(old(counts[..]), counts[..], state, c)
  {
    AfterByteCounted(counts[..], state, c);
    next := Switch(state, c, counts);
  }

  /** The switch over the states. */
  method Switch(state: State, c: Byte, counts: array<nat>) returns (next: State)
    requires counts.Length == 8 && state != Invalid
    modifies counts
    ensures next == Delta(state, c) && counts[..] == AfterByte(old(counts[..]), state, c)
  {
    next := state;
    match state {
      case Start =>
        if IsDigit(c) {
          next := Int;
        } else if c == PLUS || c == MINUS {
          next := S1;
        } else if c == POINT {
          next := Float;
        } else {
          next := Invalid;
          Raise(counts, Invalid);
        }
        Raise(counts, Start);
      case S1 =>
        if IsDigit(c) {
          next := Int;
          Raise(counts, S1);
        } else if c == POINT {
          next := Float;
          Raise(counts, S1);
        } else {
          next := Invalid;
          Raise(counts, S1);
        }
      case Int =>
        if c == POINT {
          next := Float;
          Raise(counts, Int);
        } else if !IsDigit(c) {
          next := Invalid;
          Raise(counts, Int);
        }
      case Float =>
        if IsE(c) {
          next := S2;
          Raise(counts, Float);
        } else if !IsDigit(c) {
          next := Invalid;
          Raise(counts, Float);
        }
      case S2 =>
        if c == PLUS || c == MINUS {
          next := Exponent;
          Raise(counts, S2);
        } else {
          next := Invalid;
          Raise(counts, S2);
        }
      case Exponent =>
        if IsDigit(c) {
          next := Scientific;
          Raise(counts, Exponent);
        } else {
          next := Invalid;
          Raise(counts, Exponent);
        }
      case Scientific =>
        if !IsDigit(c) {
          next := Invalid;
          Raise(counts, Invalid);
        }
      case Invalid =>
    }
  }

  /** The text runs to the first zero byte. */
  ghost predicate TextAt(s: seq<Byte>, p: nat, end: nat) {
    p <= end < |s| && s[end] == 0 && forall i | p <= i < end :: s[i] != 0
  }

  lemma CutFromStep(text: seq<Byte>, k: nat)
    requires k < |text| && Run(text[..k]) != Invalid && text[k] != COMMA
    ensures CutFrom(text, k) == CutFrom(text, k + 1)
    ensures text[..k + 1] == text[..k] + [text[k]] && Run(text[..k + 1]) == Delta(Run(text[..k]), text[k])
  {
    assert text[..k + 1][..k] == text[..k];
  }

  /** The state of the loop after `k` bytes of the text. */
  ghost predicate ReadTo(text: seq<Byte>, k: nat, state: State, before: seq<nat>, after: seq<nat>) {
    && k <= |text| && state == Run(text[..k]) && Commaless(text[..k]) && CutFrom(text, k) == Cut(text)
    && CountedToken(before, after, text[..k])
  }

  lemma ReadToStart(text: seq<Byte>, counts: seq<nat>)
    requires Counters(counts)
    ensures ReadTo(text, 0, Start, counts, counts)
  {
    assert text[..0] == [];
    CountedNothing(counts);
  }

  lemma ReadToNext(text: seq<Byte>, k: nat, state: State, before: seq<nat>, middle: seq<nat>, after: seq<nat>)
    requires ReadTo(text, k, state, before, middle) && k < |text| && text[k] != COMMA && state != Invalid
    requires CountedByte(middle, after, state, text[k])
    ensures ReadTo(text, k + 1, Delta(state, text[k]), before, after)
  {
    CutFromStep(text, k);
    CountedMore(before, middle, after, text[..k], text[k]);
  }

  lemma ReadToComma(text: seq<Byte>, k: nat, state: State, before: seq<nat>, after: seq<nat>)
    requires ReadTo(text, k, state, before, after) && k < |text| && text[k] == COMMA && state != Invalid
    ensures Cut(text) == (k + 1, state) && CountedToken(before, after, Body(text))
  {}

  lemma ReadToEndOfToken(text: seq<Byte>, k: nat, state: State, before: seq<nat>, after: seq<nat>)
    requires ReadTo(text, k, state, before, after) && (k == |text| || state == Invalid)
    ensures Cut(text) == (k, state) && CountedToken(before, after, Body(text))
  {
    assert k > 0 ==> text[k - 1] in text[..k];
  }

  /** One call of the state machine: it moves the pointer past one token and names the token's kind. */
  method Transition(mem: array<Byte>, p: nat, ghost end: nat, counts: array<nat>) returns (next: nat, state: State)
    requires TextAt(mem[..], p, end) && Counters(counts[..])
    modifies counts
    ensures mem[..] == old(mem[..])
    ensures (next - p, state) == Cut(mem[p..end])
    ensures CountedToken(old(counts[..]), counts[..], Body(mem[p..end]))
  {
    ghost var text := mem[p..end];
    next, state := p, Start;
    ReadToStart(text, counts[..]);
    while mem[next] != 0 && state != Invalid
      invariant p <= next <= end && mem[..] == old(mem[..])
      invariant ReadTo(text, next - p, state, old(counts[..]), counts[..])
      decreases end - next
    {
      var symbol := mem[next];
      if symbol == COMMA {
        ReadToComma(text, next - p, state, old(counts[..]), counts[..]);
        next := next + 1;
        return;
      }
      ghost var before, kind := counts[..], state;
      state := Next(state, symbol, counts);
      ReadToNext(text, next - p, kind, old(counts[..]), before, counts[..]);
      next := next + 1;
    }
    ReadToEndOfToken(text, next - p, state, old(counts[..]), counts[..]);
  }

  // The whole text.

  /** The kinds of the tokens of a text, in order. */
  function Tokens(text: seq<Byte>): seq<State> {
    if text == [] then [] else [Cut(text).1] + Tokens(text[Cut(text).0..])
  }

  function Occurrences(states: seq<State>, i: nat): nat {
    if states == [] then 0 else (if Index(states[0]) == i then 1 else 0) + Occurrences(states[1..], i)
  }

  /** How often counter `i` is raised on the way through a text. */
  function TextRaises(text: seq<Byte>, i: nat): nat {
    if text == [] then 0 else Raises(Body(text), i) + TextRaises(text[Cut(text).0..], i)
  }

  /** All the counters that a list of final states gives. */
  function Tally(states: seq<State>): seq<nat> {
    seq(8, i requires 0 <= i => Occurrences(states, i))
  }

  function TextTally(text: seq<Byte>): seq<nat> {
    seq(8, i requires 0 <= i => TextRaises(text, i))
  }

  /** The counters have grown by these numbers, in 32 bits. */
  ghost predicate GrownBy(before: seq<nat>, after: seq<nat>, growth: seq<nat>) {
    && Counters(before) && Counters(after) && |growth| == 8
    && forall i | 0 <= i < 8 :: Plus(before[i], after[i], growth[i])
  }

  function SumTo(counts: nat -> nat, n: nat): nat {
    if n == 0 then 0 else SumTo(counts, n - 1) + counts(n - 1)
  }

  /** The final counters sum to the number of tokens. */
  lemma {:induction false} OccurrencesSum(states: seq<State>)
    ensures SumTo(i => Occurrences(states, i), 8) == |states|
  {
    if states == [] {
      NoOccurrences(8);
    } else {
      OccurrencesSum(states[1..]);
      OneMoreOccurrence(states, 8);
    }
  }

  lemma {:induction false} NoOccurrences(n: nat)
    ensures SumTo(i => Occurrences([], i), n) == 0
  {
    if n > 0 {
      NoOccurrences(n - 1);
    }
  }

  lemma {:induction false} OneMoreOccurrence(states: seq<State>, n: nat)
    requires states != []
    ensures SumTo(i => Occurrences(states, i), n) ==
            SumTo(i => Occurrences(states[1..], i), n) + if Index(states[0]) < n then 1 else 0
  {
    if n > 0 {
      OneMoreOccurrence(states, n - 1);
    }
  }

  /** The counters have grown by what the whole gives less what is left to come. */
  ghost predicate Shifted(before: seq<nat>, after: seq<nat>, all: seq<nat>, left: seq<nat>) {
    && Counters(before) && Counters(after) && |all| == |left| == 8
    && forall i | 0 <= i < 8 :: Plus(before[i], after[i], all[i] as int - left[i])
  }

  lemma ShiftedMore(before: seq<nat>, middle: seq<nat>, after: seq<nat>, all: seq<nat>, left: seq<nat>, now: seq<nat>,
          left': seq<nat>)
    requires Shifted(before, middle, all, left) && GrownBy(middle, after, now)
    requires |left'| == 8 && forall i | 0 <= i < 8 :: left[i] == now[i] + left'[i]
    ensures Shifted(before, after, all, left')
  {
    forall i | 0 <= i < 8 ensures Plus(before[i], after[i], all[i] as int - left'[i]) {
      PlusPlus(before[i], middle[i], after[i], all[i] as int - left[i], now[i], all[i] as int - left'[i]);
    }
  }

  /** The final counters when the text up to `rest` has been read. */
  ghost predicate ReadFinals(before: seq<nat>, after: seq<nat>, text: seq<Byte>, rest: seq<Byte>) {
    Shifted(before, after, Tally(Tokens(text)), Tally(Tokens(rest)))
  }

  /** The transition counters when the text up to `rest` has been read. */
  ghost predicate ReadTracks(before: seq<nat>, after: seq<nat>, text: seq<Byte>, rest: seq<Byte>) {
    Shifted(before, after, TextTally(text), TextTally(rest))
  }

  lemma FirstOccurrence(text: seq<Byte>, i: nat)
    requires text != []
    ensures Occurrences(Tokens(text), i) == (if Index(Cut(text).1) == i then 1 else 0) +
      Occurrences(Tokens(text[Cut(text).0..]), i)
  {
    assert Tokens(text)[1..] == Tokens(text[Cut(text).0..]) && Tokens(text)[0] == Cut(text).1;
  }

  function One(state: State): seq<nat> {
    seq(8, i requires 0 <= i => if i == Index(state) then 1 else 0)
  }

  lemma FirstTally(rest: seq<Byte>)
    requires rest != []
    ensures forall i | 0 <= i < 8 ::
      Tally(Tokens(rest))[i] == One(Cut(rest).1)[i] + Tally(Tokens(rest[Cut(rest).0..]))[i]
  {
    forall i | 0 <= i < 8
      ensures Tally(Tokens(rest))[i] == One(Cut(rest).1)[i] + Tally(Tokens(rest[Cut(rest).0..]))[i]
    {
      FirstOccurrence(rest, i);
    }
  }

  lemma FinalsMore(before: seq<nat>, after: seq<nat>, text: seq<Byte>, rest: seq<Byte>)
    requires ReadFinals(before, after, text, rest) && rest != []
    ensures ReadFinals(before, Raised1(after, Cut(rest).1), text, rest[Cut(rest).0..])
  {
    var (n, state) := Cut(rest);
    RaisedOne(after, state);
    FirstTally(rest);
    ShiftedMore(before, after, Raised1(after, state), Tally(Tokens(text)), Tally(Tokens(rest)), One(state),
      Tally(Tokens(rest[n..])));
  }

  function RaisesAll(t: seq<Byte>): seq<nat> {
    seq(8, i requires 0 <= i => Raises(t, i))
  }

  lemma CountedGrown(before: seq<nat>, after: seq<nat>, t: seq<Byte>)
    requires CountedToken(before, after, t)
    ensures GrownBy(before, after, RaisesAll(t))
  {}

  lemma FirstRaises(rest: seq<Byte>)
    requires rest != []
    ensures forall i | 0 <= i < 8 ::
      TextTally(rest)[i] == RaisesAll(Body(rest))[i] + TextTally(rest[Cut(rest).0..])[i]
  {}

  lemma TracksMore(before: seq<nat>, middle: seq<nat>, after: seq<nat>, text: seq<Byte>, rest: seq<Byte>)
    requires ReadTracks(before, middle, text, rest) && rest != [] && CountedToken(middle, after, Body(rest))
    ensures ReadTracks(before, after, text, rest[Cut(rest).0..])
  {
    CountedGrown(middle, after, Body(rest));
    FirstRaises(rest);
    ShiftedMore(before, middle, after, TextTally(text), TextTally(rest), RaisesAll(Body(rest)),
      TextTally(rest[Cut(rest).0..]));
  }

  lemma ReadNothing(counts: seq<nat>, text: seq<Byte>)
    requires Counters(counts)
    ensures ReadFinals(counts, counts, text, text) && ReadTracks(counts, counts, text, text)
  {
    forall i | 0 <= i < 8 ensures Plus(counts[i], counts[i], 0) {
      PlusNothing(counts[i]);
    }
  }

  lemma ShiftedAll(before: seq<nat>, after: seq<nat>, all: seq<nat>, left: seq<nat>)
    requires Shifted(before, after, all, left) && forall i | 0 <= i < 8 :: left[i] == 0
    ensures GrownBy(before, after, all)
  {
    forall i | 0 <= i < 8 ensures Plus(before[i], after[i], all[i]) {
      assert all[i] as int - left[i] == all[i];
    }
  }

  lemma ReadToEnd(finals0: seq<nat>, finals: seq<nat>, tracks0: seq<nat>, tracks: seq<nat>, text: seq<Byte>)
    requires ReadFinals(finals0, finals, text, []) && ReadTracks(tracks0, tracks, text, [])
    ensures GrownBy(finals0, finals, Tally(Tokens(text))) && GrownBy(tracks0, tracks, TextTally(text))
  {
    ShiftedAll(finals0, finals, Tally(Tokens(text)), Tally(Tokens([])));
    ShiftedAll(tracks0, tracks, TextTally(text), TextTally([]));
  }

  /** Run the state machine over the whole text. */
  method ReadAll(mem: array<Byte>, ghost end: nat, finals: array<nat>, tracks: array<nat>)
    requires TextAt(mem[..], 0, end) && finals != tracks && Counters(finals[..]) && Counters(tracks[..])
    modifies finals, tracks
    ensures mem[..] == old(mem[..])
    ensures GrownBy(old(finals[..]), finals[..], Tally(Tokens(mem[..end])))
    ensures GrownBy(old(tracks[..]), tracks[..], TextTally(mem[..end]))
  {
    var p := 0;
    ghost var text, finals0, tracks0 := mem[..end], finals[..], tracks[..];
    assert mem[0..end] == text;
    ReadNothing(finals0, text);
    ReadNothing(tracks0, text);
    while mem[p] != 0
      invariant 0 <= p <= end && mem[..] == old(mem[..])
      invariant ReadFinals(finals0, finals[..], text, mem[p..end])
      invariant ReadTracks(tracks0, tracks[..], text, mem[p..end])
      decreases end - p
    {
      p := ReadOne(mem, p, end, finals, tracks, text, finals0, tracks0);
    }
    assert mem[p..end] == [];
    ReadToEnd(finals0, finals[..], tracks0, tracks[..], text);
  }

  /** One turn of the loop over the text. */
  method ReadOne(mem: array<Byte>, p: nat, ghost end: nat, finals: array<nat>, tracks: array<nat>,
          ghost text: seq<Byte>, ghost finals0: seq<nat>, ghost tracks0: seq<nat>)
    returns (next: nat)
    requires TextAt(mem[..], p, end) && finals != tracks && p < end
    requires ReadFinals(finals0, finals[..], text, mem[p..end]) && ReadTracks(tracks0, tracks[..], text, mem[p..end])
    modifies finals, tracks
    ensures mem[..] == old(mem[..]) && p < next <= end
    ensures ReadFinals(finals0, finals[..], text, mem[next..end]) &&
      ReadTracks(tracks0, tracks[..], text, mem[next..end])
  {
    ghost var rest, finals1, tracks1 := mem[p..end], finals[..], tracks[..];
    var state;
    next, state := Transition(mem, p, end, tracks);
    assert finals[..] == finals1 && rest[Cut(rest).0..] == mem[next..end];
    FinalsMore(finals0, finals1, text, rest);
    TracksMore(tracks0, tracks1, tracks[..], text, rest);
    Raise(finals, state);
  }
}
