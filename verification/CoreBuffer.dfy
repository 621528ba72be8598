/**
 The buffer of the CoreMark state-machine benchmark: how it is filled, corrupted
 and repaired, and the whole benchmark function.
 */
module CoreBuffer {
  import opened BitArith
  import opened Common
  import opened CoreTokens
  import opened CoreState
  import C = CoreCrc
  import W = Words

  // Exclusive-or of bytes.

  function BitsOf(n: nat): W.Word {
    seq(8, i requires 0 <= i => Bit(n, i))
  }

  function XorByte(a: Byte, b: Byte): Byte {
    W.ValueBits(W.Xor(BitsOf(a), BitsOf(b)));
    assert Pow2(8) == 256;
    W.Value(W.Xor(BitsOf(a), BitsOf(b)))
  }

  lemma XorByteBits(a: Byte, b: Byte, i: nat)
    ensures Bit(XorByte(a, b), i) == (i < 8 && Bit(a, i) != Bit(b, i))
  {
    W.ValueBits(W.Xor(BitsOf(a), BitsOf(b)));
  }

  /** A second exclusive-or undoes the first exactly when it is with the same byte. */
  lemma XorTwice(a: Byte, s: Byte, t: Byte)
    ensures XorByte(XorByte(a, s), t) == a <==> s == t
  {
    assert Pow2(8) == 256;
    forall i: nat
      ensures Bit(XorByte(XorByte(a, s), t), i) == (i < 8 && (Bit(a, i) != Bit(s, i)) != Bit(t, i))
    {
      XorByteBits(XorByte(a, s), t, i);
      XorByteBits(a, s, i);
    }
    if s == t {
      BitsDetermine(XorByte(XorByte(a, s), t), a, 8);
    }
    if XorByte(XorByte(a, s), t) == a {
      forall i: nat | i < 8 ensures Bit(s, i) == Bit(t, i) {
        assert Bit(XorByte(XorByte(a, s), t), i) == Bit(a, i);
      }
      BitsDetermine(s, t, 8);
    }
  }

  // Corruption.

  predicate Stepped(i: int, step: nat)
    requires step > 0
  {
    i % step == 0
  }

  /** The buffer when every step-th byte has been changed, commas excepted. */
  ghost function Corrupted(s: seq<Byte>, seed: Byte, step: nat): (t: seq<Byte>)
    requires step > 0
    ensures |t| == |s|
  {
    seq(|s|, i requires 0 <= i < |s| => if Stepped(i, step) && s[i] != COMMA then XorByte(s[i], seed) else s[i])
  }

  method Corrupt(mem: array<Byte>, seed: Byte, step: nat)
    requires step > 0
    modifies mem
    ensures mem[..] == Corrupted(old(mem[..]), seed, step)
  {
    var p := 0;
    ghost var n := 0;
    while p < mem.Length
      invariant p == n * step
      invariant forall i | 0 <= i < mem.Length && i < p :: mem[i] == Corrupted(old(mem[..]), seed, step)[i]
      invariant forall i | p <= i < mem.Length :: mem[i] == old(mem[i])
    {
      if mem[p] != COMMA {
        mem[p] := XorByte(mem[p], seed);
      }
      NoneBetween(n, step);
      p := p + step;
      n := n + 1;
    }
  }

  lemma NoneBetween(n: nat, step: nat)
    requires step > 0
    ensures Stepped(n * step, step) && (n + 1) * step == n * step + step
    ensures forall i | n * step < i < n * step + step :: !Stepped(i, step)
  {
    forall i | n * step <= i < n * step + step
      ensures i % step == i - n * step
    {
      Remainder(i, n, step);
    }
  }

  lemma Remainder(i: nat, n: nat, step: nat)
    requires 0 < step && n * step <= i < n * step + step
    ensures i % step == i - n * step
  {
    var q, r := i / step, i % step;
    assert i == q * step + r;
    if q < n {
      MulMonotone(q + 1, n, step);
    } else if n < q {
      MulMonotone(n + 1, q, step);
    }
  }

  /**
   The second pass restores the buffer exactly when the seeds agree wherever
   they are used and no changed byte has become a comma.
   */
  lemma RepairExactly(s: seq<Byte>, seed1: Byte, seed2: Byte, step: nat)
    requires step > 0
    ensures Corrupted(Corrupted(s, seed1, step), seed2, step) == s <==>
      forall i | 0 <= i < |s| && Stepped(i, step) && s[i] != COMMA :: seed1 == seed2 && XorByte(s[i], seed1) != COMMA
  {
    var once := Corrupted(s, seed1, step);
    var twice := Corrupted(once, seed2, step);
    forall i | 0 <= i < |s|
      ensures twice[i] == s[i] <==> (Stepped(i, step) && s[i] != COMMA ==>
        seed1 == seed2 && XorByte(s[i], seed1) != COMMA)
    {
      XorTwice(s[i], seed1, seed2);
    }
  }

  lemma XorZero(b: Byte)
    ensures XorByte(0, b) == b
  {
    assert Pow2(8) == 256;
    forall i: nat | i < 8 ensures Bit(XorByte(0, b), i) == Bit(b, i) {
      XorByteBits(0, b, i);
      ZeroHasNoBits(i);
    }
    BitsDetermine(XorByte(0, b), b, 8);
  }

  // Filling the buffer.

  function Code(c: char): Byte {
    if c as int < 128 then c as int else 0
  }

  function Ascii(s: string): (t: seq<Byte>)
    ensures |t| == |s|
  {
    seq(|s|, i requires 0 <= i < |s| => Code(s[i]))
  }

  const PATTERNS: seq<seq<string>> := [
    ["5012", "1234", "-874", "+122"],
    ["35.54400", ".1234500", "-110.700", "+0.64400"],
    ["5.500e+3", "-.123e-2", "-87e+832", "+0.6e-12"],
    ["T0.3e-1F", "-T.T++Tq", "1T3.4e4z", "34.0e-T^"]]

  /** The seed counts on in sixteen bits. */
  lemma SeedWraps(seed: int)
    requires -0x8000 <= seed < 0x8000
    ensures Wrap16(seed + 1) == if seed == 0x7FFF then -0x8000 else seed + 1
  {}

  /** Bits 0 to 2 of the seed choose the kind of number, bits 3 and 4 the example. */
  function PatternText(seed: int): (s: string)
    ensures 4 <= |s| <= 8 && forall c <- s :: c in "012345678+-.eTFqz^"
  {
    var kind := if seed % 8 < 3 then 0 else if seed % 8 < 5 then 1 else if seed % 8 < 7 then 2 else 3;
    PATTERNS[kind][seed / 8 % 4]
  }

  function Pattern(seed: int): (t: seq<Byte>)
    ensures 4 <= |t| <= 8 && forall b <- t :: PatternByte(b)
  {
    PatternBytes(PatternText(seed));
    Ascii(PatternText(seed))
  }

  /** The bytes that a filled buffer holds besides commas and zeros. */
  predicate PatternByte(b: Byte) {
    exists c <- "012345678+-.eTFqz^" :: b == Code(c)
  }

  lemma PatternBytes(s: string)
    requires forall c <- s :: c in "012345678+-.eTFqz^"
    ensures forall b <- Ascii(s) :: PatternByte(b)
  {
    forall i | 0 <= i < |s| ensures PatternByte(Ascii(s)[i]) {
      assert s[i] in s;
    }
  }

  /** Patterns for the seeds after this one, each with a comma, while they leave a byte of room. */
  function Items(seed: int, room: int): seq<Byte>
    decreases room
  {
    ItemsFrom(Wrap16(seed + 1), room)
  }

  function ItemsFrom(seed: int, room: int): (t: seq<Byte>)
    ensures |t| < room || t == []
    ensures forall b <- t :: b == COMMA || PatternByte(b)
    decreases room
  {
    var p := Pattern(seed);
    if |p| + 1 < room then p + [COMMA] + ItemsFrom(Wrap16(seed + 1), room - |p| - 1) else []
  }

  function Zeros(n: nat): seq<Byte> {
    seq(n, _ => 0)
  }

  /** The buffer as the benchmark starts with it. */
  function Content(size: nat, seed: int): (t: seq<Byte>)
    requires size > 0
    ensures |t| == size
  {
    Items(seed, size - 1) + Zeros(size - |Items(seed, size - 1)|)
  }

  /** Whether the part filled so far and the pattern in hand, if any, lead to the whole. */
  ghost predicate Filling(seed0: int, room: int, done: seq<Byte>, seed: int, buf: seq<Byte>) {
    if buf == [] then done == [] && seed == seed0
    else
      && buf == Pattern(seed) && |done| <= room
      && Items(seed0, room) == done + ItemsFrom(seed, room - |done|)
  }

  lemma FillsMore(seed0: int, room: int, done: seq<Byte>, seed: int, buf: seq<Byte>)
    requires Filling(seed0, room, done, seed, buf) && |done| + |buf| + 1 < room
    ensures Filling(seed0, room, if buf == [] then done else done + buf + [COMMA], Wrap16(seed + 1),
      Pattern(Wrap16(seed + 1)))
  {
    if buf == [] {
      NothingBefore(ItemsFrom(Wrap16(seed0 + 1), room));
    } else {
      ItemsFromStep(seed, room - |done|);
      Associate(done, buf + [COMMA], ItemsFrom(Wrap16(seed + 1), room - |done| - |buf| - 1));
      Associate(done, buf, [COMMA]);
    }
  }

  lemma ItemsFromStep(seed: int, room: int)
    requires |Pattern(seed)| + 1 < room
    ensures ItemsFrom(seed, room) == Pattern(seed) + [COMMA] + ItemsFrom(Wrap16(seed + 1), room - |Pattern(seed)| - 1)
  {}

  lemma NothingBefore(t: seq<Byte>)
    ensures [] + t == t
  {}

  lemma Filled(seed0: int, room: int, done: seq<Byte>, seed: int, buf: seq<Byte>)
    requires Filling(seed0, room, done, seed, buf) && |done| + |buf| + 1 >= room
    ensures done == Items(seed0, room)
  {}

  method InitState(size: nat, seed0: int, mem: array<Byte>)
    requires 0 < size <= mem.Length
    modifies mem
    ensures mem[..size] == Content(size, seed0)
    ensures forall i | size <= i < mem.Length :: mem[i] == old(mem[i])
  {
    var room := size - 1;
    var total, next, seed, buf := 0, 0, seed0, [];
    while total + next + 1 < room
      invariant 0 <= total < size && next == |buf|
      invariant Filling(seed0, room, mem[..total], seed, buf)
      invariant forall i | size <= i < mem.Length :: mem[i] == old(mem[i])
      decreases room - total + (if next == 0 then 1 else 0)
    {
      FillsMore(seed0, room, mem[..total], seed, buf);
      if next > 0 {
        PutItem(mem, total, buf);
        total := total + next + 1;
      }
      seed := Wrap16(seed + 1);
      buf := Pattern(seed);
      next := |buf|;
    }
    Filled(seed0, room, mem[..total], seed, buf);
    FillZeros(mem, total, size);
  }

  /** Copy a pattern and a comma. */
  method PutItem(mem: array<Byte>, total: nat, buf: seq<Byte>)
    requires total + |buf| < mem.Length
    modifies mem
    ensures mem[..total + |buf| + 1] == old(mem[..total]) + buf + [COMMA]
    ensures forall i | total + |buf| < i < mem.Length :: mem[i] == old(mem[i])
  {
    for i := 0 to |buf|
      invariant mem[..total + i] == old(mem[..total]) + buf[..i]
      invariant forall k | total + i <= k < mem.Length :: mem[k] == old(mem[k])
    {
      mem[total + i] := buf[i];
    }
    mem[total + |buf|] := COMMA;
  }

  method FillZeros(mem: array<Byte>, total: nat, size: nat)
    requires total <= size <= mem.Length
    modifies mem
    ensures mem[..size] == old(mem[..total]) + Zeros(size - total)
    ensures forall i | size <= i < mem.Length :: mem[i] == old(mem[i])
  {
    for i := total to size
      invariant mem[..i] == old(mem[..total]) + Zeros(i - total)
      invariant forall k | i <= k < mem.Length :: mem[k] == old(mem[k])
    {
      mem[i] := 0;
    }
  }

  /** At least two zeros end the buffer, so corruption with a step of two or more leaves one. */
  lemma ZeroRemains(size: nat, seed: int, seed1: Byte, step: nat)
    requires size >= 2 && step >= 2
    ensures Content(size, seed)[size - 2] == Content(size, seed)[size - 1] == 0
    ensures 0 in Corrupted(Content(size, seed), seed1, step)
  {
    var s := Content(size, seed);
    assert s[size - 1] == 0 && s[size - 2] == 0;
    var t := Corrupted(s, seed1, step);
    if Stepped(size - 1, step) {
      NotBoth(size - 2, step);
      assert t[size - 2] == 0;
    } else {
      assert t[size - 1] == 0;
    }
  }

  lemma NotBoth(i: nat, step: nat)
    requires step >= 2
    ensures !(Stepped(i, step) && Stepped(i + 1, step))
  {
    var n := i / step;
    if Stepped(i, step) {
      assert i == n * step;
      NoneBetween(n, step);
    }
  }

  lemma XorMakesZero(a: Byte, seed: Byte)
    ensures XorByte(a, seed) == 0 <==> a == seed
  {
    XorZero(seed);
    XorTwice(0, seed, a);
    XorCommutes(a, seed);
  }

  lemma XorCommutes(a: Byte, b: Byte)
    ensures XorByte(a, b) == XorByte(b, a)
  {
    assert W.Xor(BitsOf(a), BitsOf(b)) == W.Xor(BitsOf(b), BitsOf(a));
  }

  /**
   After corruption a byte is zero: it was and is not on a step, or it is on a step, no
   comma, and the seed itself.
   */
  ghost predicate ZeroedAt(s: seq<Byte>, seed: Byte, step: nat, i: nat)
    requires step > 0 && i < |s|
  {
    if Stepped(i, step) then s[i] == seed && s[i] != COMMA else s[i] == 0
  }

  /** Exactly when corruption leaves the text an end, for every buffer, seed and step. */
  lemma ZeroSurvivesExactly(s: seq<Byte>, seed: Byte, step: nat)
    requires step > 0
    ensures 0 in Corrupted(s, seed, step) <==> exists i | 0 <= i < |s| :: ZeroedAt(s, seed, step, i)
  {
    var t := Corrupted(s, seed, step);
    forall i | 0 <= i < |s| ensures t[i] == 0 <==> ZeroedAt(s, seed, step, i) {
      XorMakesZero(s[i], seed);
    }
  }

  /** With a step of one the end of the text is lost unless some byte that is no comma equals the seed. */
  lemma StepOneLosesZero(s: seq<Byte>, seed: Byte)
    ensures 0 !in Corrupted(s, seed, 1) <==> seed == COMMA || seed !in s
  {
    ZeroSurvivesExactly(s, seed, 1);
    if seed in s && seed != COMMA {
      var i :| 0 <= i < |s| && s[i] == seed;
      assert ZeroedAt(s, seed, 1, i);
    }
  }

  /** Equal seeds need not repair it: the seed ',' turns the zero at the start of a buffer of two bytes into a comma. */
  lemma EqualSeedsNeedNotRepair(seed: int, step: nat)
    requires step > 0
    ensures Corrupted(Corrupted(Content(2, seed), COMMA, step), COMMA, step) != Content(2, seed)
  {
    RepairExactly(Content(2, seed), COMMA, COMMA, step);
    XorZero(COMMA);
    assert Stepped(0, step) && Content(2, seed)[0] == 0;
  }

  /**
   Equal seeds repair a filled buffer unless the seed turns one of its bytes
   into a comma.
   */
  lemma FilledBufferRepaired(size: nat, seed: int, s: Byte, step: nat)
    requires size > 0 && step > 0
    requires XorByte(0, s) != COMMA && forall b: Byte | PatternByte(b) :: XorByte(b, s) != COMMA
    ensures Corrupted(Corrupted(Content(size, seed), s, step), s, step) == Content(size, seed)
  {
    RepairExactly(Content(size, seed), s, s, step);
    var t := Content(size, seed);
    forall i | 0 <= i < |t| && t[i] != COMMA
      ensures XorByte(t[i], s) != COMMA
    {
      if i < |Items(seed, size - 1)| {
        assert t[i] in Items(seed, size - 1);
      }
    }
  }

  // The whole benchmark.

  /** What stands before the first zero. */
  function TextOf(s: seq<Byte>): (t: seq<Byte>)
    ensures |t| <= |s| && t == s[..|t|]
    ensures 0 in s ==> |t| < |s| && s[|t|] == 0
    ensures 0 !in t
  {
    if s == [] || s[0] == 0 then [] else [s[0]] + TextOf(s[1..])
  }

  /** The counters of two readings together, in 32 bits. */
  function Sums(first: seq<nat>, second: seq<nat>): seq<nat>
    requires |first| == |second| == 8
  {
    seq(8, i requires 0 <= i < 8 => U32(first[i] + second[i]))
  }

  /** A counter as a 32-bit word. */
  function CountBits(x: nat): C.Full {
    seq(32, i requires 0 <= i => Bit(x, i))
  }

  function CountHalves(x: nat): seq<C.Half> {
    C.Halves(CountBits(x))
  }

  /** The 16-bit words over which the checksum runs: the counters of each state, low halves first. */
  function CountWords(finals: seq<nat>, tracks: seq<nat>): seq<C.Half>
    requires |finals| == |tracks|
  {
    if finals == [] then []
    else
      var n := |finals| - 1;
      CountWords(finals[..n], tracks[..n]) + CountHalves(finals[n]) + CountHalves(tracks[n])
  }

  /** For each state four words: its final counter and its transition counter, each with the low half first. */
  lemma {:induction false} CountWordsAt(finals: seq<nat>, tracks: seq<nat>, i: nat)
    requires i < |finals| == |tracks| && finals[i] < 0x1_0000_0000 && tracks[i] < 0x1_0000_0000
    ensures var words := CountWords(finals, tracks);
      && |words| == 4 * |finals|
      && W.Value(words[4 * i]) == finals[i] % 65536 && W.Value(words[4 * i + 1]) == finals[i] / 65536
      && W.Value(words[4 * i + 2]) == tracks[i] % 65536 && W.Value(words[4 * i + 3]) == tracks[i] / 65536
  {
    var n := |finals| - 1;
    CountWordsLength(finals[..n], tracks[..n]);
    if i < n {
      CountWordsAt(finals[..n], tracks[..n], i);
    } else {
      HalvesValue(finals[n]);
      HalvesValue(tracks[n]);
    }
  }

  lemma {:induction false} CountWordsLength(finals: seq<nat>, tracks: seq<nat>)
    requires |finals| == |tracks|
    ensures |CountWords(finals, tracks)| == 4 * |finals|
  {
    if finals != [] {
      var n := |finals| - 1;
      CountWordsLength(finals[..n], tracks[..n]);
    }
  }

  lemma HalvesValue(x: nat)
    requires x < 0x1_0000_0000
    ensures |CountHalves(x)| == 2
    ensures W.Value(CountHalves(x)[0]) == x % 65536 && W.Value(CountHalves(x)[1]) == x / 65536
  {
    CountValue(x);
    W.ValueParts(CountBits(x), 16);
    assert Pow2(8) == 256 && Pow2(16) == 65536;
  }

  lemma CountValue(x: nat)
    requires x < 0x1_0000_0000
    ensures W.Value(CountBits(x)) == x
  {
    assert Pow2(8) == 256 && Pow2(16) == 65536 && Pow2(24) == 0x100_0000 && Pow2(32) == 0x1_0000_0000;
    W.ValueBits(CountBits(x));
    BitsDetermine(W.Value(CountBits(x)), x, 32);
  }

  lemma TextEnds(s: seq<Byte>)
    requires 0 in s
    ensures TextAt(s, 0, |TextOf(s)|)
  {
    forall i | 0 <= i < |TextOf(s)| ensures s[i] != 0 {
      assert TextOf(s)[i] == s[i];
    }
  }

  lemma GrownTwice(zero: seq<nat>, one: seq<nat>, two: seq<nat>, first: seq<nat>, second: seq<nat>)
    requires |zero| == 8 && forall i | 0 <= i < 8 :: zero[i] == 0
    requires GrownBy(zero, one, first) && GrownBy(one, two, second)
    ensures two == Sums(first, second)
  {
    forall i | 0 <= i < 8 ensures two[i] == U32(first[i] + second[i]) {
      PlusPlus(zero[i], one[i], two[i], first[i], second[i], first[i] + second[i]);
      PlusExactly(zero[i], two[i], first[i] + second[i]);
    }
  }

  method Checksum(finals: array<nat>, tracks: array<nat>, crc0: C.Half) returns (crc: C.Half)
    requires finals.Length == tracks.Length == 8
    ensures crc == C.CrcFold(CountWords(finals[..], tracks[..]), crc0)
  {
    crc := crc0;
    for i := 0 to 8
      invariant crc == C.CrcFold(CountWords(finals[..i], tracks[..i]), crc0)
    {
      ChecksumMore(finals[..], tracks[..], i, crc0);
      assert finals[..][..i] == finals[..i] && tracks[..][..i] == tracks[..i];
      assert finals[..][..i + 1] == finals[..i + 1] && tracks[..][..i + 1] == tracks[..i + 1];
      crc := C.Crcu32(CountBits(finals[i]), crc);
      crc := C.Crcu32(CountBits(tracks[i]), crc);
    }
    assert finals[..8] == finals[..] && tracks[..8] == tracks[..];
  }

  lemma ChecksumMore(finals: seq<nat>, tracks: seq<nat>, i: nat, crc0: C.Half)
    requires i < |finals| == |tracks|
    ensures C.CrcFold(CountWords(finals[..i + 1], tracks[..i + 1]), crc0) ==
            C.CrcFold(CountHalves(tracks[i]),
                      C.CrcFold(CountHalves(finals[i]), C.CrcFold(CountWords(finals[..i], tracks[..i]), crc0)))
  {
    var words, f, t := CountWords(finals[..i], tracks[..i]), CountHalves(finals[i]), CountHalves(tracks[i]);
    assert finals[..i + 1][..i] == finals[..i] && tracks[..i + 1][..i] == tracks[..i];
    C.FoldAppend(words + f, t, crc0);
    C.FoldAppend(words, f, crc0);
  }

  /** Read the text, corrupt it, read it again, repair it, and fold all counters into the checksum. */
  method BenchState(mem: array<Byte>, seed1: Byte, seed2: Byte, step: nat, crc0: C.Half) returns (crc: C.Half)
    requires step > 0 && 0 in mem[..] && 0 in Corrupted(mem[..], seed1, step)
    modifies mem
    ensures mem[..] == Corrupted(Corrupted(old(mem[..]), seed1, step), seed2, step)
    ensures var a, b := TextOf(old(mem[..])), TextOf(Corrupted(old(mem[..]), seed1, step));
      crc == C.CrcFold(CountWords(Sums(Tally(Tokens(a)), Tally(Tokens(b))), Sums(TextTally(a), TextTally(b))), crc0)
  {
    ghost var s, t := mem[..], Corrupted(mem[..], seed1, step);
    ghost var a, b := TextOf(s), TextOf(t);
    TextEnds(s);
    TextEnds(t);
    var finals, tracks := new nat[8], new nat[8];
    for i := 0 to 8
      invariant mem[..] == s && forall k | 0 <= k < i :: finals[k] == tracks[k] == 0
    {
      tracks[i] := 0;
      finals[i] := tracks[i];
    }
    ghost var finals0, tracks0 := finals[..], tracks[..];
    ReadAll(mem, |a|, finals, tracks);
    ghost var finals1, tracks1 := finals[..], tracks[..];
    Corrupt(mem, seed1, step);
    ReadAll(mem, |b|, finals, tracks);
    GrownTwice(finals0, finals1, finals[..], Tally(Tokens(a)), Tally(Tokens(b)));
    GrownTwice(tracks0, tracks1, tracks[..], TextTally(a), TextTally(b));
    Corrupt(mem, seed2, step);
    crc := Checksum(finals, tracks, crc0);
  }
}
