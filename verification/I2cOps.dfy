/**
 I2C operations: parsing them from text or from a FIFO word, and printing them
 so that they parse again.
 */
module I2cOps {
  import opened Common
  import opened BitArith
  import opened Decimals

  datatype Op = Op(read: bool, rcont: bool, start: bool, stop: bool, nackok: bool, mvalue: bool, adr: bool,
                   size: nat, fbyte: int, tag: Option<string>)

  /** What a parse gives: an operation, with a flag for reported errors, or an uncaught exception. */
  datatype Outcome = Parsed(op: Op, err: bool) | Crashed

  datatype Number = Int(value: nat) | Bad | Crash

  predicate IsDecimal(c: char) {
    '0' <= c <= '9'
  }

  /** The base that a letter after a leading zero stands for, or 0. */
  function BaseOf(c: char): (base: nat)
    ensures base == 0 || 2 <= base <= 16
  {
    if c == 'b' || c == 'B' then 2 else if c == 'o' || c == 'O' then 8 else if c == 'x' || c == 'X' then 16 else 0
  }

  /** A validating integer conversion; two digits of which the first alone is zero get past the check and raise. */
  function CheckInt(x: string): Number {
    if x == "" then Bad
    else if x[0] == '0' && |x| > 2 then
      if BaseOf(x[1]) == 0 || !AllDigits(BaseOf(x[1]), x[2..]) then Bad
      else
        NumberNonNegative(BaseOf(x[1]), x[2..]);
        Int(NumberIn(BaseOf(x[1]), x[2..]))
    else if !AllDigits(10, x) then Bad
    else if |x| == 2 && x[0] == '0' && x[1] != '0' then Crash
    else
      NumberNonNegative(10, x);
      Int(NumberIn(10, x))
  }

  /** The character occurs more than once. */
  predicate Multiple(c: char, s: string) {
    exists i, j | 0 <= i < j < |s| :: s[i] == c && s[j] == c
  }

  /** The size in bits, start and stop included. */
  function SizeOf(op: Op): int {
    (if op.start then 1 else 0) + (if op.stop then 1 else 0)
    + if op.read then if op.mvalue then 9 * 3 + 1 else 9 * op.fbyte else 9
  }

  predicate Conflicting(op: Op) {
    (op.start && op.read) || (op.rcont && !op.read)
  }

  /** The operation with its size, and whether its flags are in conflict. */
  function Sized(op: Op, err: bool): Outcome
    requires op.fbyte >= 0
  {
    Parsed(op.(size := SizeOf(op)), err || Conflicting(op))
  }

  /** The number of characters before the first digit or quote. */
  function FirstValue(line: string): (n: nat)
    ensures n <= |line| && (n < |line| ==> IsDecimal(line[n]) || line[n] == '\'')
    ensures forall i | 0 <= i < n :: !IsDecimal(line[i]) && line[i] != '\''
  {
    if line == "" || IsDecimal(line[0]) || line[0] == '\'' then 0 else 1 + FirstValue(line[1..])
  }

  /** Everything after the opening quote but the last character. */
  function Quoted(line: string, firstVal: nat): string
    requires firstVal < |line|
  {
    if firstVal + 1 <= |line| - 1 then line[firstVal + 1..|line| - 1] else ""
  }

  predicate AnyMultiple(flags: string) {
    || Multiple('S', flags) || Multiple('P', flags) || Multiple('R', flags) || Multiple('C', flags)
    || Multiple('N', flags) || Multiple('M', flags) || Multiple('A', flags)
  }

  /** Flags, then a value, a tag in quotes, or nothing when the flag M stands for the value. */
  function ParseCode(line: string): Outcome {
    var n := FirstValue(line);
    var flags := line[..n];
    var m, a := 'M' in flags, 'A' in flags;
    var number := if n < |line| && !m && line[n] != '\'' then CheckInt(line[n..]) else Int(0);
    if number.Crash? then Crashed
    else
      var value := if number.Bad? then 0 else number.value;
      var inRange := 0 <= value <= 255 && (a ==> value <= 2);
      var err := AnyMultiple(flags) || (n == |line| && !m) || (n < |line| && m) || number.Bad? || !inRange;
      var tag := if n < |line| && !m && line[n] == '\'' then Some(Quoted(line, n)) else None;
      Sized(Op('R' in flags, 'C' in flags, 'S' in flags, 'P' in flags, 'N' in flags, m, a, 0,
        if inRange then value else 0, tag), err)
  }

  /** A word written to the FIFO: flags in bits 8 to 12, the byte below them. */
  function ParseFifoData(line: string): Outcome {
    var number := CheckInt(line);
    if number.Crash? then Crashed
    else
      var word := if number.Bad? then 0 else number.value;
      Sized(Op(Bit(word, 10), Bit(word, 11), Bit(word, 8), Bit(word, 9), Bit(word, 12), false, false, 0, word % 256,
        None), number.Bad?)
  }

  function Hex(n: nat): string {
    "0x" + DigitsIn(16, n)
  }

  function Flag(raised: bool, c: char): char {
    if raised then c else '.'
  }

  function Flags(op: Op): string {
    [Flag(op.start, 'S'), Flag(op.stop, 'P'), Flag(op.read, 'R'), Flag(op.rcont, 'C'), Flag(op.nackok, 'N'), ' ']
  }

  /** The operation as text. */
  function TextElement(op: Op): string
    requires op.fbyte >= 0
  {
    Flags(op) +
    if op.adr then "A" + Decimal(op.fbyte)
    else if op.tag.Some? && op.tag.value != "" then "'" + op.tag.value + "'"
    else if op.mvalue then "M"
    else Hex(op.fbyte)
  }

  /** What the parsers' error-free results have in common. */
  predicate WellParsed(op: Op) {
    && 0 <= op.fbyte <= 255 && op.size == SizeOf(op) && !Conflicting(op)
    && (op.adr ==> op.fbyte <= 2)
    && (op.mvalue ==> op.fbyte == 0 && op.tag == None)
    && (op.tag.Some? ==> op.fbyte == 0)
  }

  lemma ParsedAreWell(line: string)
    ensures ParseCode(line).Parsed? && !ParseCode(line).err ==> WellParsed(ParseCode(line).op)
    ensures ParseFifoData(line).Parsed? && !ParseFifoData(line).err ==> WellParsed(ParseFifoData(line).op)
  {}

  /** The text keeps the whole operation: no empty tag, and an address without tag and without M. */
  predicate Faithful(op: Op) {
    op.tag != Some("") && (op.adr ==> op.tag == None && !op.mvalue)
  }

  lemma {:induction false} FirstValueAfter(prefix: string, rest: string)
    requires forall c <- prefix :: !IsDecimal(c) && c != '\''
    ensures FirstValue(prefix + rest) == |prefix| + FirstValue(rest)
  {
    if prefix == "" {
      assert prefix + rest == rest;
    } else {
      assert (prefix + rest)[0] == prefix[0] && (prefix + rest)[1..] == prefix[1..] + rest;
      assert prefix[0] in prefix;
      FirstValueAfter(prefix[1..], rest);
    }
  }

  lemma LetterAt(f: string, c: char, k: nat)
    requires k < |f| && forall i | 0 <= i < |f| && i != k :: f[i] != c
    ensures (c in f) == (f[k] == c) && !Multiple(c, f)
  {}

  /** The character occurs exactly if it should, and not twice. */
  predicate ReadsBack(f: string, c: char, raised: bool) {
    (c in f) == raised && !Multiple(c, f)
  }

  /** What the parser looks at in the flags: every letter is read back as it was printed. */
  predicate AllReadBack(op: Op, f: string, a: bool, m: bool) {
    && ReadsBack(f, 'S', op.start) && ReadsBack(f, 'P', op.stop) && ReadsBack(f, 'R', op.read)
    && ReadsBack(f, 'C', op.rcont) && ReadsBack(f, 'N', op.nackok) && ReadsBack(f, 'A', a) && ReadsBack(f, 'M', m)
  }

  /** The flags of an operation, and perhaps a letter behind them. */
  predicate IsFlags(op: Op, f: string) {
    f == Flags(op) || f == Flags(op) + "A" || f == Flags(op) + "M"
  }

  lemma FlagsAt(op: Op, f: string)
    requires IsFlags(op, f)
    ensures 6 <= |f| <= 7 && f[0] == Flag(op.start, 'S') && f[1] == Flag(op.stop, 'P') && f[2] == Flag(op.read, 'R')
    ensures f[3] == Flag(op.rcont, 'C') && f[4] == Flag(op.nackok, 'N') && f[5] == ' '
    ensures |f| == 7 ==> f[6] == 'A' || f[6] == 'M'
  {}

  lemma FirstFlags(op: Op, f: string)
    requires IsFlags(op, f)
    ensures ReadsBack(f, 'S', op.start) && ReadsBack(f, 'P', op.stop)
  {
    FlagsAt(op, f);
    LetterAt(f, 'S', 0);
    LetterAt(f, 'P', 1);
  }

  lemma MiddleFlags(op: Op, f: string)
    requires IsFlags(op, f)
    ensures ReadsBack(f, 'R', op.read) && ReadsBack(f, 'C', op.rcont)
  {
    FlagsAt(op, f);
    LetterAt(f, 'R', 2);
    LetterAt(f, 'C', 3);
  }

  lemma LastFlags(op: Op, f: string)
    requires IsFlags(op, f)
    ensures ReadsBack(f, 'N', op.nackok)
    ensures ReadsBack(f, 'A', |f| == 7 && f[6] == 'A') && ReadsBack(f, 'M', |f| == 7 && f[6] == 'M')
  {
    FlagsAt(op, f);
    LetterAt(f, 'N', 4);
    LetterAt(f, 'A', |f| - 1);
    LetterAt(f, 'M', |f| - 1);
  }

  lemma FlagsReadBack(op: Op, f: string)
    requires IsFlags(op, f)
    ensures AllReadBack(op, f, |f| == 7 && f[6] == 'A', |f| == 7 && f[6] == 'M')
  {
    FirstFlags(op, f);
    MiddleFlags(op, f);
    LastFlags(op, f);
  }

  lemma NoValueInFlags(op: Op, f: string)
    requires IsFlags(op, f)
    ensures forall c <- f :: !IsDecimal(c) && c != '\''
  {}

  /** Where the printed text is cut into flags and value. */
  lemma CutsAt(op: Op, f: string, value: string)
    requires IsFlags(op, f)
    requires value == "" || IsDecimal(value[0]) || value[0] == '\''
    ensures FirstValue(f + value) == |f| && (f + value)[..|f|] == f && (f + value)[|f|..] == value
  {
    NoValueInFlags(op, f);
    FirstValueAfter(f, value);
  }

  lemma HexReadsBack(n: nat)
    ensures CheckInt(Hex(n)) == Int(n) && IsDecimal(Hex(n)[0])
  {
    DigitsDenote(16, n);
    assert Hex(n)[2..] == DigitsIn(16, n) && Hex(n)[1] == 'x';
  }

  lemma DigitReadsBack(n: nat)
    requires n < 10
    ensures CheckInt(Decimal(n)) == Int(n) && IsDecimal(Decimal(n)[0])
  {
    DigitsDenote(10, n);
  }

  /**
   An error-free operation is printed so that it parses again, size included, exactly
   when the text keeps all of it.
   */
  lemma RoundTripExactly(op: Op)
    requires WellParsed(op)
    ensures ParseCode(TextElement(op)) == Parsed(op, false) <==> Faithful(op)
  {
    if op.adr {
      AddressRoundTrip(op);
    } else if op.tag.Some? && op.tag.value != "" {
      TagRoundTrip(op);
    } else if op.mvalue {
      MultiRoundTrip(op);
    } else {
      ByteRoundTrip(op);
    }
  }

  lemma AddressRoundTrip(op: Op)
    requires WellParsed(op) && op.adr
    ensures ParseCode(TextElement(op)) == Parsed(op, false) <==> op.tag == None && !op.mvalue
  {
    var f := Flags(op) + "A";
    DigitReadsBack(op.fbyte);
    CutsAt(op, f, Decimal(op.fbyte));
    FlagsReadBack(op, f);
    assert TextElement(op) == f + Decimal(op.fbyte);
  }

  lemma TagRoundTrip(op: Op)
    requires WellParsed(op) && !op.adr && op.tag.Some? && op.tag.value != ""
    ensures ParseCode(TextElement(op)) == Parsed(op, false)
  {
    var f, value := Flags(op), "'" + op.tag.value + "'";
    CutsAt(op, f, value);
    FlagsReadBack(op, f);
    assert TextElement(op) == f + value;
    var line := f + value;
    assert line[|f| + 1..|line| - 1] == op.tag.value;
  }

  lemma MultiRoundTrip(op: Op)
    requires WellParsed(op) && !op.adr && op.tag == None && op.mvalue
    ensures ParseCode(TextElement(op)) == Parsed(op, false)
  {
    var f := Flags(op) + "M";
    CutsAt(op, f, "");
    FlagsReadBack(op, f);
    assert TextElement(op) == f + "";
  }

  lemma ByteRoundTrip(op: Op)
    requires WellParsed(op) && !op.adr && !op.mvalue && (op.tag == None || op.tag == Some(""))
    ensures ParseCode(TextElement(op)) == Parsed(op, false) <==> op.tag == None
  {
    var f := Flags(op);
    HexReadsBack(op.fbyte);
    CutsAt(op, f, Hex(op.fbyte));
    FlagsReadBack(op, f);
  }

  /** What either parser accepts without error is printed back faithfully, up to the two losses of the text form. */
  lemma ParsedRoundTrips(line: string)
    ensures var p := ParseCode(line);
      p.Parsed? && !p.err ==> p.op.fbyte >= 0 && (ParseCode(TextElement(p.op)) == p <==> Faithful(p.op))
    ensures var p := ParseFifoData(line);
      p.Parsed? && !p.err ==> p.op.fbyte >= 0 && ParseCode(TextElement(p.op)) == p
  {
    ParsedAreWell(line);
    var code, fifo := ParseCode(line), ParseFifoData(line);
    if code.Parsed? && !code.err {
      RoundTripExactly(code.op);
    }
    if fifo.Parsed? && !fifo.err {
      RoundTripExactly(fifo.op);
    }
  }

  /** The losses happen to parsed operations: an empty tag, an address with a tag, an address with M. */
  lemma ParsedNeedNotRoundTrip(line: string)
    requires line == "''" || line == "A'x'" || line == "AM"
    ensures var p := ParseCode(line);
      p.Parsed? && !p.err && p.op.fbyte >= 0 && !Faithful(p.op) && ParseCode(TextElement(p.op)) != p
  {
    if line == "AM" {
      assert FirstValue(line[1..]) == 1;
    } else if line == "A'x'" {
      assert FirstValue(line[1..]) == 0;
    }
    ParsedRoundTrips(line);
  }

  /** The text has a place for each flag, and a point where it is not raised. */
  lemma TextLayout(op: Op)
    requires op.fbyte >= 0
    ensures var t := TextElement(op);
      && |t| > 6 && t[..6] ==
        [if op.start then 'S' else '.', if op.stop then 'P' else '.', if op.read then 'R' else '.',
         if op.rcont then 'C' else '.', if op.nackok then 'N' else '.', ' ']
      && (op.adr ==> t[6] == 'A' && t[7..] == Decimal(op.fbyte))
      && (!op.adr && (op.tag == None || op.tag == Some("")) && !op.mvalue ==> t[6..] == "0x" + DigitsIn(16, op.fbyte))
  {
    var t, f := TextElement(op), Flags(op);
    assert t[..6] == f;
    assert op.adr ==> t[7..] == Decimal(op.fbyte);
  }

  // ---------- What the parsers read ----------

  function One(raised: bool): nat {
    if raised then 1 else 0
  }

  /**
   Every word written to the FIFO is read as its parts: five flags above the byte, and
   what lies above them is ignored. A read takes nine bits for each byte, a write nine
   in all, start and stop one each.
   */
  lemma FifoReadsBack(byte: nat, start: bool, stop: bool, read: bool, rcont: bool, nackok: bool, rest: nat)
    requires byte < 256
    ensures var word := byte + 256 * One(start) + 512 * One(stop) + 1024 * One(read) + 2048 * One(rcont) +
        4096 * One(nackok) + 8192 * rest;
      var size := One(start) + One(stop) + if read then 9 * byte else 9;
      ParseFifoData(Hex(word)) ==
        Parsed(Op(read, rcont, start, stop, nackok, false, false, size, byte, None),
               (start && read) || (rcont && !read))
  {
    var high := One(start) + 2 * One(stop) + 4 * One(read) + 8 * One(rcont) + 16 * One(nackok) + 32 * rest;
    var word := byte + 256 * high;
    assert word / 256 == high && word % 256 == byte;
    assert word == byte + 256 * One(start) + 512 * One(stop) + 1024 * One(read) + 2048 * One(rcont) +
      4096 * One(nackok) + 8192 * rest;
    WordRead(word, start, stop, read, rcont, nackok, rest);
  }

  lemma WordRead(word: nat, start: bool, stop: bool, read: bool, rcont: bool, nackok: bool, rest: nat)
    requires word / 256 ==
      One(start) + 2 * One(stop) + 4 * One(read) + 8 * One(rcont) + 16 * One(nackok) + 32 * rest
    ensures var size := One(start) + One(stop) + if read then 9 * (word % 256) else 9;
      ParseFifoData(Hex(word)) ==
        Parsed(Op(read, rcont, start, stop, nackok, false, false, size, word % 256, None),
               (start && read) || (rcont && !read))
  {
    assert Pow2(8) == 256;
    FlagDigits(word, start, stop, read, rcont, nackok, rest);
    HexReadsBack(word);
  }

  lemma FlagDigits(word: nat, start: bool, stop: bool, read: bool, rcont: bool, nackok: bool, rest: nat)
    requires word / Pow2(8) ==
      One(start) + 2 * One(stop) + 4 * One(read) + 8 * One(rcont) + 16 * One(nackok) + 32 * rest
    ensures Bit(word, 8) == start && Bit(word, 9) == stop && Bit(word, 10) == read && Bit(word, 11) == rcont
    ensures Bit(word, 12) == nackok
  {
    var h0 := word / Pow2(8);
    var h1 := NextDigit(word, 8, h0, start, One(stop) + 2 * One(read) + 4 * One(rcont) + 8 * One(nackok) + 16 * rest);
    var h2 := NextDigit(word, 9, h1, stop, One(read) + 2 * One(rcont) + 4 * One(nackok) + 8 * rest);
    var h3 := NextDigit(word, 10, h2, read, One(rcont) + 2 * One(nackok) + 4 * rest);
    var h4 := NextDigit(word, 11, h3, rcont, One(nackok) + 2 * rest);
    var _ := NextDigit(word, 12, h4, nackok, rest);
  }

  /** Taking the lowest digit off what is left of a word. */
  lemma NextDigit(word: nat, k: nat, high: nat, digit: bool, rest: nat) returns (next: nat)
    requires high == word / Pow2(k) == One(digit) + 2 * rest
    ensures Bit(word, k) == digit && next == word / Pow2(k + 1) == rest
  {
    BitIsDigit(word, k);
    HalveQuotient(word, Pow2(k));
    next := rest;
  }

  /** Some flag letter stands there twice. */
  ghost predicate Repeats(flags: string) {
    exists i, j | 0 <= i < j < |flags| :: flags[i] == flags[j] && flags[i] in "SPRCNMA"
  }

  /** A line of flags and a byte: each letter raises its flag; a repeated letter or a conflict is reported. */
  lemma CodeReadsBack(flags: string, byte: nat)
    requires byte < 256 && 'M' !in flags && 'A' !in flags
    requires forall c <- flags :: !('0' <= c <= '9') && c != '\''
    ensures var start, stop, read, rcont := 'S' in flags, 'P' in flags, 'R' in flags, 'C' in flags;
      var size := One(start) + One(stop) + if read then 9 * byte else 9;
      ParseCode(flags + Hex(byte)) ==
        Parsed(Op(read, rcont, start, stop, 'N' in flags, false, false, size, byte, None),
               Repeats(flags) || (start && read) || (rcont && !read))
  {
    HexReadsBack(byte);
    ByteLine(flags, Hex(byte), byte);
    RepeatedLetters(flags);
  }

  lemma ByteLine(flags: string, value: string, byte: nat)
    requires byte < 256 && 'M' !in flags && 'A' !in flags && forall c <- flags :: !IsDecimal(c) && c != '\''
    requires value != "" && IsDecimal(value[0]) && CheckInt(value) == Int(byte)
    ensures ParseCode(flags + value) ==
      Sized(Op('R' in flags, 'C' in flags, 'S' in flags, 'P' in flags, 'N' in flags, false, false, 0, byte, None),
            AnyMultiple(flags))
  {
    FirstValueAfter(flags, value);
    assert (flags + value)[..|flags|] == flags && (flags + value)[|flags|..] == value;
  }

  lemma RepeatedLetters(flags: string)
    ensures AnyMultiple(flags) <==> Repeats(flags)
  {
    forall c | c in "SPRCNMA" && Multiple(c, flags) ensures Repeats(flags) {
      var i, j :| 0 <= i < j < |flags| && flags[i] == c && flags[j] == c;
    }
    if Repeats(flags) {
      var i, j :| 0 <= i < j < |flags| && flags[i] == flags[j] && flags[i] in "SPRCNMA";
      assert Multiple(flags[i], flags);
    }
  }

  /** With M in place of the value a read takes 28 bits. */
  lemma ManyBytesRead(flags: string)
    requires 'M' in flags && 'A' !in flags && forall c <- flags :: !('0' <= c <= '9') && c != '\''
    ensures var start, stop, read, rcont := 'S' in flags, 'P' in flags, 'R' in flags, 'C' in flags;
      var size := One(start) + One(stop) + if read then 28 else 9;
      ParseCode(flags) ==
        Parsed(Op(read, rcont, start, stop, 'N' in flags, true, false, size, 0, None),
               Repeats(flags) || (start && read) || (rcont && !read))
  {
    FirstValueAfter(flags, "");
    assert flags + "" == flags && flags[..|flags|] == flags;
    RepeatedLetters(flags);
  }

  /** Numbers are read in decimal, and behind a prefix in either case in binary, octal and hexadecimal. */
  lemma NumbersReadBack(n: nat)
    ensures CheckInt(Digits(n)) == Int(n)
    ensures CheckInt("0b" + DigitsIn(2, n)) == Int(n) == CheckInt("0B" + DigitsIn(2, n))
    ensures CheckInt("0o" + DigitsIn(8, n)) == Int(n) == CheckInt("0O" + DigitsIn(8, n))
    ensures CheckInt("0x" + DigitsIn(16, n)) == Int(n) == CheckInt("0X" + DigitsIn(16, n))
  {
    PrefixReadsBack('b', 2, n);
    PrefixReadsBack('B', 2, n);
    PrefixReadsBack('o', 8, n);
    PrefixReadsBack('O', 8, n);
    PrefixReadsBack('x', 16, n);
    PrefixReadsBack('X', 16, n);
    DigitsDenote(10, n);
    NoLeadingZero(n);
  }

  lemma PrefixReadsBack(c: char, base: nat, n: nat)
    requires base == BaseOf(c) > 0
    ensures CheckInt(['0', c] + DigitsIn(base, n)) == Int(n)
  {
    DigitsDenote(base, n);
    assert (['0', c] + DigitsIn(base, n))[2..] == DigitsIn(base, n);
  }

  lemma {:induction false} NoLeadingZero(n: nat)
    ensures n > 0 ==> Digits(n)[0] != '0'
    ensures n == 0 ==> Digits(n) == "0"
  {
    if n >= 10 {
      NoLeadingZero(n / 10);
    }
  }

  /** A number that is refused counts as zero, and as an error. */
  lemma RefusedReadsAsZero(line: string, flags: string)
    requires CheckInt(line) == Bad && (line != "" ==> IsDecimal(line[0]))
    ensures ParseFifoData(line) == Parsed(Op(false, false, false, false, false, false, false, 9, 0, None), true)
    ensures 'M' !in flags && (forall c <- flags :: !('0' <= c <= '9') && c != '\'') ==>
      ParseCode(flags + line).Parsed? && ParseCode(flags + line).err && ParseCode(flags + line).op.fbyte == 0
  {
    forall i: nat ensures !Bit(0, i) {
      ZeroHasNoBits(i);
    }
    if 'M' !in flags && forall c <- flags :: !('0' <= c <= '9') && c != '\'' {
      FirstValueAfter(flags, line);
      assert (flags + line)[..|flags|] == flags && (flags + line)[|flags|..] == line;
    }
  }

  /** Anything else behind a leading zero is refused, and so is a digit too large for its base. */
  lemma BadNumbers(c: char, digits: string)
    requires digits != ""
    ensures c !in "bBoOxX" ==> CheckInt(['0', c] + digits) == Bad
    ensures c in "bB" && (exists d <- digits :: d !in "01") ==> CheckInt(['0', c] + digits) == Bad
    ensures c in "oO" && (exists d <- digits :: d !in "01234567") ==> CheckInt(['0', c] + digits) == Bad
  {
    assert (['0', c] + digits)[2..] == digits;
    forall d: char ensures 0 <= DigitValue(d) < 2 ==> d in "01" {
      assert "01"[0] == '0' && "01"[1] == '1';
    }
    forall d: char ensures 0 <= DigitValue(d) < 8 ==> d in "01234567" {
      if 0 <= DigitValue(d) < 8 {
        assert "01234567"[DigitValue(d)] == d;
      }
    }
  }
}
