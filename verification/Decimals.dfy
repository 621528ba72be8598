/**
 Numbers in decimal and hexadecimal notation.
 */
module Decimals {

  /** The digit for a number below sixteen. */
  function DigitChar(d: nat): char
    requires d < 16
  {
    if d < 10 then ('0' as int + d) as char else ('a' as int + d - 10) as char
  }

  /** The digits of a number, without leading zeros. */
  function DigitsIn(base: nat, n: nat): (s: string)
    requires 2 <= base <= 16
    ensures s != ""
  {
    if n < base then [DigitChar(n)] else DigitsIn(base, n / base) + [DigitChar(n % base)]
  }

  function Digits(n: nat): string {
    DigitsIn(10, n)
  }

  /** `str(i)`. */
  function Decimal(i: int): string {
    if i < 0 then "-" + Digits(-i) else Digits(i)
  }

  /** The value of a digit in either case. */
  function DigitValue(c: char): (d: int)
    ensures -1 <= d < 16
  {
    if '0' <= c <= '9' then c as int - '0' as int
    else if 'a' <= c <= 'f' then c as int - 'a' as int + 10
    else if 'A' <= c <= 'F' then c as int - 'A' as int + 10
    else -1
  }

  /** Digits are written in lower case and read in either. */
  lemma DigitNames(d: nat)
    requires d < 16
    ensures DigitChar(d) == "0123456789abcdef"[d]
    ensures DigitValue("0123456789abcdef"[d]) == d == DigitValue("0123456789ABCDEF"[d])
  {}

  predicate AllDigits(base: nat, s: string) {
    forall c <- s :: 0 <= DigitValue(c) < base
  }

  /** The number that digits denote. */
  function NumberIn(base: nat, s: string): int {
    if s == "" then 0 else base * NumberIn(base, s[..|s| - 1]) + DigitValue(s[|s| - 1])
  }

  lemma {:induction false} NumberNonNegative(base: nat, s: string)
    requires AllDigits(base, s)
    ensures NumberIn(base, s) >= 0
  {
    if s != "" {
      NumberNonNegative(base, s[..|s| - 1]);
      assert s[|s| - 1] in s;
      MulNonNegative(base, NumberIn(base, s[..|s| - 1]));
    }
  }

  lemma MulNonNegative(a: nat, b: nat)
    ensures a * b >= 0
  {}

  lemma NumberMore(base: nat, init: string, last: char)
    ensures NumberIn(base, init + [last]) == base * NumberIn(base, init) + DigitValue(last)
  {
    assert (init + [last])[..|init|] == init;
  }

  lemma DivMod(n: nat, base: nat)
    requires 2 <= base
    ensures base * (n / base) + n % base == n && n % base < base
  {}

  lemma QuotientSmaller(n: nat, base: nat, q: nat, r: nat)
    requires 2 <= base && base * q + r == n && n > 0
    ensures q < n
  {
    assert base * q >= 2 * q;
  }

  lemma DigitOf(d: nat)
    requires d < 16
    ensures DigitValue(DigitChar(d)) == d
  {}

  /** Reading the digits of a number gives the number. */
  lemma {:induction false} DigitsDenote(base: nat, n: nat)
    requires 2 <= base <= 16
    ensures AllDigits(base, DigitsIn(base, n)) && NumberIn(base, DigitsIn(base, n)) == n
  {
    DivMod(n, base);
    DigitOf(n % base);
    if n > 0 {
      QuotientSmaller(n, base, n / base, n % base);
    }
    if n < base {
      DigitOf(n);
      NumberMore(base, "", DigitChar(n));
      assert "" + [DigitChar(n)] == [DigitChar(n)];
    } else {
      DigitsDenote(base, n / base);
      NumberMore(base, DigitsIn(base, n / base), DigitChar(n % base));
    }
  }

  /** Different numbers have different digits. */
  lemma DigitsInjective(a: nat, b: nat)
    requires Digits(a) == Digits(b)
    ensures a == b
  {
    DigitsDenote(10, a);
    DigitsDenote(10, b);
  }
}
