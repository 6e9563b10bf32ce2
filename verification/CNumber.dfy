/** The C library's conversions between numbers and text that ipfw relies on. */
module CNumber {

  function Digit(d: nat): char
    requires d < 16
  {
    if d < 10 then '0' + d as char else 'a' + (d - 10) as char
  }

  /** The value of a digit, 36 and more for other characters. */
  function Value(c: char): nat {
    if '0' <= c <= '9' then (c - '0') as nat
    else if 'a' <= c <= 'z' then (c - 'a') as nat + 10
    else if 'A' <= c <= 'Z' then (c - 'A') as nat + 10
    else 99
  }

  /** `%d` for numbers that are not negative. */
  function Dec(n: nat): (s: string)
    ensures |s| > 0
  {
    if n < 10 then [Digit(n)] else Dec(n / 10) + [Digit(n % 10)]
  }

  /** `0x%04x`. */
  function Hex4(n: nat): (s: string)
    requires n < 0x1_0000
  {
    "0x" + [Digit(n / 0x1000), Digit(n / 0x100 % 16), Digit(n / 16 % 16), Digit(n % 16)]
  }

  predicate IsSpace(c: char) {
    c == ' ' || ('\t' <= c <= '\r')
  }

  /** Where the digits of a number in this base end. */
  function DigitsEnd(s: string, i: nat, base: nat): (e: nat)
    requires i <= |s|
    ensures i <= e <= |s|
    decreases |s| - i
  {
    if i < |s| && Value(s[i]) < base then DigitsEnd(s, i + 1, base) else i
  }

  function Number(s: string, i: nat, e: nat, base: nat): nat
    requires i <= e <= |s|
    decreases e - i
  {
    if i == e then 0 else Number(s, i, e - 1, base) * base + Value(s[e - 1])
  }

  function SkipSpace(s: string, i: nat): (e: nat)
    requires i <= |s|
    ensures i <= e <= |s|
    decreases |s| - i
  {
    if i < |s| && IsSpace(s[i]) then SkipSpace(s, i + 1) else i
  }

  const ULONG_MAX := 0xFFFF_FFFF

  /** `strtoul` with base 0 on 32-bit longs: the value, and where the number ends (0 when there is none). */
  function Strtoul(s: string): (nat, nat) {
    var i := SkipSpace(s, 0);
    var neg := i < |s| && s[i] == '-';
    var j := if i < |s| && (s[i] == '-' || s[i] == '+') then i + 1 else i;
    var hex := j + 1 < |s| && s[j] == '0' && (s[j + 1] == 'x' || s[j + 1] == 'X');
    var base := if hex then 16 else if j < |s| && s[j] == '0' then 8 else 10;
    var start := if hex then j + 2 else j;
    var e := DigitsEnd(s, start, base);
    if e == start then (0, 0)
    else
      var n := Number(s, start, e, base);
      (if n > ULONG_MAX then ULONG_MAX else if neg && n > 0 then ULONG_MAX + 1 - n else n, e)
  }

  /** The value as an `int`. */
  function AsInt(n: nat): int {
    if n > 0x7FFF_FFFF then n - (ULONG_MAX + 1) else n
  }

  /** `atoi`. */
  function Atoi(s: string): int {
    var i := SkipSpace(s, 0);
    var j := if i < |s| && (s[i] == '-' || s[i] == '+') then i + 1 else i;
    var n := Number(s, j, DigitsEnd(s, j, 10), 10);
    if i < |s| && s[i] == '-' then (if n > 0x8000_0000 then -0x8000_0000 else -(n as int))
    else if n > 0x7FFF_FFFF then 0x7FFF_FFFF
    else n
  }

  lemma DigitValue(d: nat)
    requires d < 16
    ensures Value(Digit(d)) == d && !IsSpace(Digit(d)) && (Digit(d) == '0' <==> d == 0)
    ensures Digit(d) !in ['-', '+', 'x', 'X', ',', ':', '/', '\\', '.', ' ']
  {
  }

  /** All characters of a decimal number are digits; the first is 0 only for 0. */
  lemma {:induction false} DecDigits(n: nat)
    ensures forall i :: 0 <= i < |Dec(n)| ==>
      Value(Dec(n)[i]) < 10 && Dec(n)[i] !in ['-', '+', 'x', 'X', ',', ':', '/', '\\', '.', ' ']
    ensures Dec(n)[0] == '0' <==> n == 0
    ensures n == 0 ==> Dec(n) == "0"
    ensures !IsSpace(Dec(n)[0])
  {
    DigitValue(n % 10);
    if n >= 10 {
      DecDigits(n / 10);
      assert Dec(n)[0] == Dec(n / 10)[0];
    }
  }

  lemma {:induction false} NumberPrefix(s: string, t: string, e: nat, base: nat)
    requires e <= |s|
    ensures Number(s + t, 0, e, base) == Number(s, 0, e, base)
  {
    if e > 0 {
      NumberPrefix(s, t, e - 1, base);
    }
  }

  lemma {:induction false} NumberOfDec(n: nat)
    ensures Number(Dec(n), 0, |Dec(n)|, 10) == n
  {
    DigitValue(n % 10);
    if n >= 10 {
      NumberOfDec(n / 10);
      NumberPrefix(Dec(n / 10), [Digit(n % 10)], |Dec(n / 10)|, 10);
    } else {
      assert Number(Dec(n), 0, 0, 10) == 0;
    }
  }

  lemma {:induction false} AllDigits(s: string, i: nat, base: nat)
    requires i <= |s| && forall k :: i <= k < |s| ==> Value(s[k]) < base
    ensures DigitsEnd(s, i, base) == |s|
    decreases |s| - i
  {
    if i < |s| {
      AllDigits(s, i + 1, base);
    }
  }

  /** Decimal numbers are read back. */
  lemma StrtoulOfDec(n: nat)
    requires n <= ULONG_MAX
    ensures Strtoul(Dec(n)) == (n, |Dec(n)|)
  {
    var s := Dec(n);
    DecDigits(n);
    NumberOfDec(n);
    assert SkipSpace(s, 0) == 0;
    if n == 0 {
      assert DigitsEnd("0", 0, 8) == 1;
      assert Number("0", 0, 1, 8) == Number("0", 0, 0, 8) * 8 + 0;
    } else {
      AllDigits(s, 0, 10);
    }
  }

  lemma AtoiOfDec(n: nat)
    requires n <= 0x7FFF_FFFF
    ensures Atoi(Dec(n)) == n
  {
    DecDigits(n);
    NumberOfDec(n);
    AllDigits(Dec(n), 0, 10);
    assert SkipSpace(Dec(n), 0) == 0;
  }

  lemma FourDigits(n: nat)
    requires n < 0x1_0000
    ensures n == ((n / 0x1000 * 16 + n / 0x100 % 16) * 16 + n / 16 % 16) * 16 + n % 16
  {
    assert n / 0x100 == n / 16 / 16 && n / 0x1000 == n / 0x100 / 16;
  }

  lemma NumberOfHex(a: nat, b: nat, c: nat, d: nat)
    requires a < 16 && b < 16 && c < 16 && d < 16
    ensures var s := "0x" + [Digit(a), Digit(b), Digit(c), Digit(d)];
      && Number(s, 2, 6, 16) == ((a * 16 + b) * 16 + c) * 16 + d && DigitsEnd(s, 2, 16) == 6
      && |s| == 6 && !IsSpace(s[0]) && s[0] == '0' && s[1] == 'x'
  {
    var s := "0x" + [Digit(a), Digit(b), Digit(c), Digit(d)];
    DigitValue(a);
    DigitValue(b);
    DigitValue(c);
    DigitValue(d);
    AllDigits(s, 2, 16);
    assert Number(s, 2, 3, 16) == Number(s, 2, 2, 16) * 16 + a == a;
    assert Number(s, 2, 4, 16) == a * 16 + b;
    assert Number(s, 2, 5, 16) == (a * 16 + b) * 16 + c;
  }

  /** So are hexadecimal ones. */
  lemma StrtoulOfHex(n: nat)
    requires n < 0x1_0000
    ensures Strtoul(Hex4(n)) == (n, 6)
  {
    hide Number, DigitsEnd, Digit;
    NumberOfHex(n / 0x1000, n / 0x100 % 16, n / 16 % 16, n % 16);
    FourDigits(n);
    assert SkipSpace(Hex4(n), 0) == 0;
  }
}
