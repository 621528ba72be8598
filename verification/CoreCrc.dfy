/**
 The 16-bit CRC of CoreMark: the bitwise routine computes sixteen steps of a
 reflected shift register, and folding it over words is linear and invertible.
 */
module CoreCrc {
  import opened BitArith
  import opened Words

  type Octet = w: Word | |w| == 8 witness Zero(8)
  type Half = w: Word | |w| == 16 witness Zero(16)
  type Full = w: Word | |w| == 32 witness Zero(32)

  /** The word with exactly the listed bits set. */
  function Bits16(bits: set<nat>): Half {
    seq(16, i => i in bits)
  }

  const POLYNOMIAL: Half := Bits16({0, 13, 15})  // 0xA001
  const TAPS: Half := Bits16({1, 14})  // 0x4002

  function ShiftRight(w: Word): Word
    requires |w| > 0
  {
    w[1..] + [false]
  }

  /** One step of the reflected shift register with polynomial 0xA001. */
  function Step(c: Half): Half {
    if c[0] then Xor(ShiftRight(c), POLYNOMIAL) else ShiftRight(c)
  }

  function Steps(c: Half, n: nat): Half {
    if n == 0 then c else Step(Steps(c, n - 1))
  }

  /** The CRC update as algebra: absorb the word, then sixteen steps. */
  function Crc(word: Half, crc: Half): Half {
    Steps(Xor(crc, word), 16)
  }

  lemma StepLinear(a: Half, b: Half)
    ensures Step(Xor(a, b)) == Xor(Step(a), Step(b))
  {}

  lemma {:induction false} StepsLinear(a: Half, b: Half, n: nat)
    ensures Steps(Xor(a, b), n) == Xor(Steps(a, n), Steps(b, n))
  {
    if n > 0 {
      StepsLinear(a, b, n - 1);
      StepLinear(Steps(a, n - 1), Steps(b, n - 1));
    }
  }

  lemma {:induction false} StepsAdd(c: Half, a: nat, b: nat)
    ensures Steps(Steps(c, a), b) == Steps(c, a + b)
  {
    if b > 0 {
      StepsAdd(c, a, b - 1);
    }
  }

  /** The top bit tells whether the polynomial was added, so a step can be undone. */
  lemma StepInjective(a: Half, b: Half)
    requires Step(a) == Step(b)
    ensures a == b
  {
    assert Step(a)[15] == a[0] && Step(b)[15] == b[0];
    forall i | 1 <= i < 16 ensures a[i] == b[i] {
      assert Step(a)[i - 1] == (a[i] != (a[0] && POLYNOMIAL[i - 1]));
      assert Step(b)[i - 1] == (b[i] != (b[0] && POLYNOMIAL[i - 1]));
    }
  }

  lemma {:induction false} StepsInjective(a: Half, b: Half, n: nat)
    requires Steps(a, n) == Steps(b, n)
    ensures a == b
  {
    if n > 0 {
      StepInjective(Steps(a, n - 1), Steps(b, n - 1));
      StepsInjective(a, b, n - 1);
    }
  }

  /** The register state that `Step` takes to `c`. */
  function Unstep(c: Half): Half {
    [c[15]] + (if c[15] then Xor(c, POLYNOMIAL) else c)[..15]
  }

  lemma StepUnstep(c: Half)
    ensures Step(Unstep(c)) == c
  {}

  lemma {:induction false} StepsSurjective(c: Half, n: nat) returns (start: Half)
    ensures Steps(start, n) == c
    decreases n
  {
    if n == 0 {
      start := c;
    } else {
      start := StepsSurjective(Unstep(c), n - 1);
      StepUnstep(c);
    }
  }

  // ---------- The routines ----------

  /** The byte in the low half of a 16-bit word. */
  function Widen(data: Octet): Half {
    data + Zero(8)
  }

  /** The register after one round of `crcu8`, for feedback bit `x16`. */
  function Round(crc: Half, x16: bool): Half {
    if x16 then ShiftRight(Xor(crc, TAPS))[15 := true] else ShiftRight(crc)[15 := false]
  }

  /** One round of `crcu8` on the remaining data bits is a step of the combined register. */
  lemma RoundIsStep(crc: Half, rest: Octet)
    ensures Xor(Round(crc, rest[0] != crc[0]), Widen(ShiftRight(rest))) == Step(Xor(crc, Widen(rest)))
  {
    var next, goal := Xor(Round(crc, rest[0] != crc[0]), Widen(ShiftRight(rest))), Step(Xor(crc, Widen(rest)));
    forall i | 0 <= i < 16 ensures next[i] == goal[i] {
      assert i < 15 ==> Widen(rest)[i + 1] == Widen(ShiftRight(rest))[i];
    }
  }

  method Crcu8(data: Octet, crc: Half) returns (r: Half)
    ensures r == Steps(Xor(crc, Widen(data)), 8)
  {
    r := crc;
    var rest: Octet := data;
    for i := 0 to 8
      invariant Xor(r, Widen(rest)) == Steps(Xor(crc, Widen(data)), i)
      invariant rest == data[i..] + Zero(i)
    {
      var x16 := rest[0] != r[0];
      RoundIsStep(r, rest);
      rest := ShiftRight(rest);
      if x16 {
        r := Xor(r, TAPS);
        r := ShiftRight(r);
        r := r[15 := true];
      } else {
        r := ShiftRight(r);
        r := r[15 := false];
      }
    }
    assert Xor(r, Widen(rest)) == r;
  }

  /** Eight steps move a word with an empty low byte down, without feedback. */
  lemma {:induction false} StepsDown(w: Half, n: nat)
    requires n <= 8 && forall i | 0 <= i < 8 :: !w[i]
    ensures Steps(w, n) == w[n..] + Zero(n)
  {
    if n > 0 {
      StepsDown(w, n - 1);
      assert Steps(w, n - 1)[0] == w[n - 1];
    }
  }

  /** `crcu16`: the two bytes one after the other give the CRC of the whole word. */
  method Crcu16(newval: Half, crc: Half) returns (r: Half)
    ensures r == Crc(newval, crc)
  {
    r := Crcu8(newval[..8], crc);
    r := Crcu8(newval[8..], r);
    BytewiseCrc(newval, crc);
  }

  lemma BytewiseCrc(word: Half, crc: Half)
    ensures Steps(Xor(Steps(Xor(crc, Widen(word[..8])), 8), Widen(word[8..])), 8) == Crc(word, crc)
  {
    var low := Xor(crc, Widen(word[..8]));
    var high: Half := Zero(8) + word[8..];
    StepsDown(high, 8);
    assert Steps(high, 8) == Widen(word[8..]);
    StepsLinear(low, high, 8);
    assert Xor(low, high) == Xor(crc, word);
    StepsAdd(Xor(crc, word), 8, 8);
  }

  /** The two halves of a 32-bit word, the low one first. */
  function Halves(word: Full): seq<Half> {
    var low: Half, high: Half := word[..16], word[16..];
    [low, high]
  }

  /** `crcu32`: low half first. */
  method Crcu32(newval: Full, crc: Half) returns (r: Half)
    ensures r == CrcFold(Halves(newval), crc)
  {
    r := Crcu16(newval[..16], crc);
    r := Crcu16(newval[16..], r);
    FoldTwo(newval[..16], newval[16..], crc);
  }

  lemma FoldTwo(a: Half, b: Half, crc: Half)
    ensures CrcFold([a, b], crc) == Crc(b, Crc(a, crc))
  {
    assert [a, b][1..] == [b];
    assert CrcFold([b], Crc(a, crc)) == CrcFold([b][1..], Crc(b, Crc(a, crc)));
  }

  // ---------- Folding over words ----------

  function CrcFold(words: seq<Half>, crc: Half): Half {
    if |words| == 0 then crc else CrcFold(words[1..], Crc(words[0], crc))
  }

  function XorAll(a: seq<Half>, b: seq<Half>): seq<Half>
    requires |a| == |b|
  {
    seq(|a|, i requires 0 <= i < |a| => Xor(a[i], b[i]))
  }

  lemma CrcLinear(v: Half, w: Half, c: Half, d: Half)
    ensures Crc(Xor(v, w), Xor(c, d)) == Xor(Crc(v, c), Crc(w, d))
  {
    assert Xor(Xor(c, d), Xor(v, w)) == Xor(Xor(c, v), Xor(d, w));
    StepsLinear(Xor(c, v), Xor(d, w), 16);
  }

  /** The CRC of a bitwise sum of messages is the sum of the CRCs. */
  lemma {:induction false} FoldLinear(v: seq<Half>, w: seq<Half>, c: Half, d: Half)
    requires |v| == |w|
    ensures CrcFold(XorAll(v, w), Xor(c, d)) == Xor(CrcFold(v, c), CrcFold(w, d))
  {
    if |v| > 0 {
      CrcLinear(v[0], w[0], c, d);
      assert XorAll(v, w)[1..] == XorAll(v[1..], w[1..]);
      FoldLinear(v[1..], w[1..], Crc(v[0], c), Crc(w[0], d));
    }
  }

  lemma CrcInjective(v: Half, w: Half, c: Half, d: Half)
    requires Crc(v, c) == Crc(w, d)
    ensures Xor(c, v) == Xor(d, w)
  {
    StepsInjective(Xor(c, v), Xor(d, w), 16);
  }

  lemma XorCancel(a: Word, b: Word, m: Word)
    requires |a| == |b| == |m|
    ensures Xor(a, m) == Xor(b, m) ==> a == b
    ensures Xor(m, a) == Xor(m, b) ==> a == b
  {
    if Xor(a, m) == Xor(b, m) || Xor(m, a) == Xor(m, b) {
      forall i | 0 <= i < |a| ensures a[i] == b[i] {
        assert Xor(a, m)[i] == (a[i] != m[i]) && Xor(b, m)[i] == (b[i] != m[i]);
        assert Xor(m, a)[i] == (m[i] != a[i]) && Xor(m, b)[i] == (m[i] != b[i]);
      }
    }
  }

  /** For a fixed message, the final CRC determines the initial one. */
  lemma {:induction false} FoldInjective(words: seq<Half>, c: Half, d: Half)
    requires CrcFold(words, c) == CrcFold(words, d)
    ensures c == d
  {
    if |words| > 0 {
      FoldInjective(words[1..], Crc(words[0], c), Crc(words[0], d));
      CrcInjective(words[0], words[0], c, d);
      XorCancel(c, d, words[0]);
    }
  }

  /** For a fixed message, every final CRC is reached from some initial one. */
  lemma {:induction false} FoldSurjective(words: seq<Half>, r: Half) returns (c: Half)
    ensures CrcFold(words, c) == r
  {
    if |words| == 0 {
      c := r;
    } else {
      var next := FoldSurjective(words[1..], r);
      var sum := StepsSurjective(next, 16);
      c := Xor(sum, words[0]);
      assert Xor(c, words[0]) == sum;
    }
  }

  lemma {:induction false} FoldAppend(a: seq<Half>, b: seq<Half>, c: Half)
    ensures CrcFold(a + b, c) == CrcFold(b, CrcFold(a, c))
  {
    if |a| == 0 {
      assert a + b == b;
    } else {
      assert (a + b)[1..] == a[1..] + b;
      FoldAppend(a[1..], b, Crc(a[0], c));
    }
  }

  /** Messages that differ in exactly one word always have different CRCs. */
  lemma OneWordDetected(before: seq<Half>, v: Half, w: Half, after: seq<Half>, c: Half)
    requires v != w
    ensures CrcFold(before + [v] + after, c) != CrcFold(before + [w] + after, c)
  {
    var mid := CrcFold(before, c);
    FoldAppend(before + [v], after, c);
    FoldAppend(before, [v], c);
    FoldAppend(before + [w], after, c);
    FoldAppend(before, [w], c);
    if CrcFold(before + [v] + after, c) == CrcFold(before + [w] + after, c) {
      FoldInjective(after, Crc(v, mid), Crc(w, mid));
      CrcInjective(v, w, mid, mid);
      XorCancel(v, w, mid);
    }
  }

  // ---------- Numbers ----------

  function Nibble(w: Half, i: nat): nat
    requires i <= 12
  {
    (if w[i] then 1 else 0) + (if w[i + 1] then 2 else 0) + (if w[i + 2] then 4 else 0) + if w[i + 3] then 8 else 0
  }

  lemma PairValue(w: Word)
    requires |w| == 2
    ensures Value(w) == (if w[0] then 1 else 0) + if w[1] then 2 else 0
  {
    assert Value(w[..1]) == if w[0] then 1 else 0;
  }

  lemma NibbleValue(w: Half, i: nat)
    requires i <= 12
    ensures Value(w[i..i + 4]) == Nibble(w, i)
  {
    var u := w[i..i + 4];
    assert u == u[..2] + u[2..];
    ValueConcat(u[..2], u[2..]);
    PairValue(u[..2]);
    PairValue(u[2..]);
    assert Pow2(2) == 4;
  }

  lemma JoinedValue(a: Word, b: Word, c: Word, d: Word)
    requires |a| == |b| == |c| == |d| == 4
    ensures Value(a + b + c + d) == Value(a) + 16 * Value(b) + 256 * Value(c) + 4096 * Value(d)
  {
    assert Pow2(4) == 16 && Pow2(8) == 256 && Pow2(12) == 4096;
    ValueConcat(a, b);
    ValueConcat(a + b, c);
    ValueConcat(a + b + c, d);
  }

  /** A word as four hexadecimal digits. */
  lemma HexValue(w: Half)
    ensures Value(w) == Nibble(w, 0) + 16 * Nibble(w, 4) + 256 * Nibble(w, 8) + 4096 * Nibble(w, 12)
  {
    JoinedValue(w[0..4], w[4..8], w[8..12], w[12..16]);
    assert w == w[0..4] + w[4..8] + w[8..12] + w[12..16];
    NibbleValue(w, 0);
    NibbleValue(w, 4);
    NibbleValue(w, 8);
    NibbleValue(w, 12);
  }

  /** The constants of the code as numbers. */
  lemma Constants()
    ensures Value(POLYNOMIAL) == 0xA001 && Value(TAPS) == 0x4002
  {
    HexValue(POLYNOMIAL);
    HexValue(TAPS);
  }

  lemma {:induction false} ShiftedDown(k: nat, n: nat)
    requires n <= k < 16
    ensures Steps(Unit(16, k), n) == Unit(16, k - n)
  {
    if n > 0 {
      ShiftedDown(k, n - 1);
      assert Step(Unit(16, k - n + 1)) == Unit(16, k - n);
    }
  }

  /** The checksum of the word 0x8000, from a register of zeros, is 0xA001. */
  lemma KnownChecksum(w: Half)
    requires w == Unit(16, 15)
    ensures Value(w) == 0x8000 && Value(Crc(w, Zero(16))) == 0xA001
  {
    HexValue(w);
    assert Xor(Zero(16), w) == w;
    ShiftedDown(15, 15);
    LastStep(w);
    Constants();
  }

  lemma LastStep(w: Half)
    requires Steps(w, 15) == Unit(16, 0)
    ensures Steps(w, 16) == POLYNOMIAL
  {
    assert Step(Unit(16, 0)) == POLYNOMIAL;
  }
}
