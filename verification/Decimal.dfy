/** Decimal text: `operator<<` and `QString::number` on one side, `strtol` and `atoi` on the other. */
module Decimal {

  predicate IsDigit(c: char) {
    '0' <= c <= '9'
  }

  predicate IsSpace(c: char) {
    c == ' ' || '\t' <= c <= '\r'
  }

  function DigitChar(d: nat): char
    requires d < 10
  {
    '0' + d as char
  }

  function PrintNat(n: nat): (s: string)
    ensures s != [] && forall i :: 0 <= i < |s| ==> IsDigit(s[i])
  {
    if n < 10 then [DigitChar(n)] else PrintNat(n / 10) + [DigitChar(n % 10)]
  }

  function Print(z: int): (s: string)
    ensures s != [] && forall i :: 0 <= i < |s| ==> IsDigit(s[i]) || s[i] == '-'
  {
    if z < 0 then "-" + PrintNat(-z) else PrintNat(z)
  }

  /** The value of the leading digits of `s`, continuing from `acc`. */
  function Digits(s: string, acc: nat): nat {
    if s == [] || !IsDigit(s[0]) then acc else Digits(s[1..], 10 * acc + (s[0] - '0') as nat)
  }

  function SkipSpaces(s: string): string {
    if s != [] && IsSpace(s[0]) then SkipSpaces(s[1..]) else s
  }

  function Parse(s: string): int {
    var t := SkipSpaces(s);
    if t != [] && t[0] == '-' then 0 - Digits(t[1..], 0)
    else if t != [] && t[0] == '+' then Digits(t[1..], 0)
    else Digits(t, 0)
  }

  const LONG_MAX: int := 0x7fff_ffff_ffff_ffff
  const INT_MAX: int := 0x7fff_ffff

  /** `strtol` saturates. */
  function Strtol(s: string): int {
    var z := Parse(s);
    if z > LONG_MAX then LONG_MAX else if z < -LONG_MAX - 1 then -LONG_MAX - 1 else z
  }

  /** `atoi` as the common C libraries implement it: `strtol` cut to 32 bits. */
  function Atoi(s: string): int {
    Wrap32(Strtol(s))
  }

  function Wrap32(z: int): int {
    (z + 0x8000_0000) % 0x1_0000_0000 - 0x8000_0000
  }

  lemma WrapsOutsideRange(z: int)
    ensures Wrap32(z) == z <==> -INT_MAX - 1 <= z <= INT_MAX
  {}

  lemma {:induction false} DigitsConcat(a: string, b: string, acc: nat)
    requires forall i :: 0 <= i < |a| ==> IsDigit(a[i])
    ensures Digits(a + b, acc) == Digits(b, Digits(a, acc))
    decreases |a|
  {
    if a == [] {
      assert a + b == b;
    } else {
      assert (a + b)[1..] == a[1..] + b;
      DigitsConcat(a[1..], b, 10 * acc + (a[0] - '0') as nat);
    }
  }

  lemma {:induction false} DigitsOfPrinted(n: nat)
    ensures Digits(PrintNat(n), 0) == n
  {
    if n >= 10 {
      var last := [DigitChar(n % 10)];
      DigitsConcat(PrintNat(n / 10), last, 0);
      DigitsOfPrinted(n / 10);
      assert Digits(last, n / 10) == Digits(last[1..], 10 * (n / 10) + n % 10);
    } else {
      assert PrintNat(n)[1..] == [];
    }
  }

  /** Printing loses nothing: every integer is read back. */
  lemma ParsePrint(z: int)
    ensures Parse(Print(z)) == z
  {
    DigitsOfPrinted(if z < 0 then -z else z);
    assert z < 0 ==> Print(z)[1..] == PrintNat(-z);
  }

  lemma PrintInjective(a: int, b: int)
    requires Print(a) == Print(b)
    ensures a == b
  {
    ParsePrint(a);
    ParsePrint(b);
  }

  function Pow10(k: nat): (p: nat)
    ensures p >= 1
  {
    if k == 0 then 1 else 10 * Pow10(k - 1)
  }

  lemma {:induction false} PrintedLength(n: nat, k: nat)
    requires 0 < k && n < Pow10(k)
    ensures |PrintNat(n)| <= k
  {
    if n >= 10 {
      assert k > 1;
      PrintedLength(n / 10, k - 1);
    }
  }

  /** A `long` never prints as more than twenty characters. */
  lemma LongIsShort(z: int)
    requires -LONG_MAX - 1 <= z <= LONG_MAX
    ensures |Print(z)| <= 20
  {
    assert Pow10(4) == 10000 && Pow10(8) == 100000000 && Pow10(12) == 1000000000000;
    assert Pow10(16) == 10000000000000000 && Pow10(19) == 10000000000000000000;
    PrintedLength(if z < 0 then -z else z, 19);
  }

  /** A printed `long` survives `strtol`, and survives `atoi` exactly when it fits an `int`. */
  lemma ReadBackAsInt(z: int)
    requires -LONG_MAX - 1 <= z <= LONG_MAX
    ensures Strtol(Print(z)) == z
    ensures Atoi(Print(z)) == z <==> -INT_MAX - 1 <= z <= INT_MAX
  {
    ParsePrint(z);
    WrapsOutsideRange(z);
  }

  // ----- Any text -----

  predicate AllSpaces(s: string) {
    forall i :: 0 <= i < |s| ==> IsSpace(s[i])
  }

  predicate AllZeros(s: string) {
    forall i :: 0 <= i < |s| ==> s[i] == '0'
  }

  lemma {:induction false} SpacesSkipped(spaces: string, rest: string)
    requires AllSpaces(spaces) && (rest == [] || !IsSpace(rest[0]))
    ensures SkipSpaces(spaces + rest) == rest
    decreases |spaces|
  {
    if spaces == [] {
      assert spaces + rest == rest;
    } else {
      assert (spaces + rest)[1..] == spaces[1..] + rest;
      SpacesSkipped(spaces[1..], rest);
    }
  }

  lemma {:induction false} ZerosSkipped(zeros: string, rest: string)
    requires AllZeros(zeros)
    ensures Digits(zeros + rest, 0) == Digits(rest, 0)
    decreases |zeros|
  {
    if zeros == [] {
      assert zeros + rest == rest;
    } else {
      assert (zeros + rest)[1..] == zeros[1..] + rest;
      ZerosSkipped(zeros[1..], rest);
    }
  }

  /** Leading zeros do not count, and reading stops at the first character that is no digit. */
  lemma DigitsRead(zeros: string, n: nat, rest: string)
    requires AllZeros(zeros) && (rest == [] || !IsDigit(rest[0]))
    ensures Digits(zeros + (PrintNat(n) + rest), 0) == n
    ensures Digits(zeros + rest, 0) == 0
  {
    ZerosSkipped(zeros, PrintNat(n) + rest);
    ZerosSkipped(zeros, rest);
    DigitsConcat(PrintNat(n), rest, 0);
    DigitsOfPrinted(n);
  }

  /** What stands for a sign. */
  predicate IsSign(sign: string) {
    sign == "" || sign == "+" || sign == "-"
  }

  /** Spaces, a sign, zeros and a number are read as that number, whatever follows the last digit. */
  lemma ParseExactly(spaces: string, sign: string, zeros: string, n: nat, rest: string)
    requires AllSpaces(spaces) && IsSign(sign) && AllZeros(zeros) && (rest == [] || !IsDigit(rest[0]))
    ensures Parse(spaces + (sign + (zeros + (PrintNat(n) + rest)))) == if sign == "-" then 0 - n else n
  {
    var digits := zeros + (PrintNat(n) + rest);
    DigitsRead(zeros, n, rest);
    assert IsDigit(digits[0]) by {
      assert zeros == [] ==> digits == PrintNat(n) + rest;
    }
    SignRead(spaces, sign, digits);
  }

  /** A text without digits where a number should stand is read as zero. */
  lemma NoDigitsIsZero(spaces: string, sign: string, rest: string)
    requires AllSpaces(spaces) && IsSign(sign)
    requires rest == [] || !(IsDigit(rest[0]) || (sign == "" && (IsSpace(rest[0]) || rest[0] == '-' || rest[0] == '+')))
    ensures Parse(spaces + (sign + rest)) == 0
  {
    assert [] + rest == rest;
    if sign == "" {
      assert sign + rest == rest;
      SpacesSkipped(spaces, rest);
    } else {
      SpacesSkipped(spaces, sign + rest);
      assert (sign + rest)[1..] == rest;
    }
  }

  lemma SignRead(spaces: string, sign: string, digits: string)
    requires AllSpaces(spaces) && IsSign(sign) && digits != [] && IsDigit(digits[0])
    ensures Parse(spaces + (sign + digits)) == if sign == "-" then 0 - Digits(digits, 0) else Digits(digits, 0)
  {
    SpacesSkipped(spaces, sign + digits);
    if sign == "" {
      assert sign + digits == digits;
    } else {
      assert (sign + digits)[1..] == digits;
    }
  }

  /** `strtol` gives the number read, or the nearest `long`. */
  lemma StrtolIsNearest(s: string)
    ensures -LONG_MAX - 1 <= Strtol(s) <= LONG_MAX
    ensures Parse(s) > LONG_MAX ==> Strtol(s) == LONG_MAX
    ensures Parse(s) < -LONG_MAX - 1 ==> Strtol(s) == -LONG_MAX - 1
    ensures -LONG_MAX - 1 <= Parse(s) <= LONG_MAX ==> Strtol(s) == Parse(s)
    ensures LONG_MAX == 9_223_372_036_854_775_807
  {}

  /** `atoi` gives the `int` that agrees with it in the last 32 bits. */
  lemma AtoiIsCut(s: string)
    ensures -0x8000_0000 <= Atoi(s) < 0x8000_0000
    ensures (Atoi(s) - Strtol(s)) % 0x1_0000_0000 == 0
  {}

  /** Numbers are printed in decimal, most significant digit first. */
  lemma PrintedDigits(n: int, d: int)
    requires n >= 0 && 0 <= d < 10
    ensures PrintNat(d) == ["0123456789"[d]]
    ensures n > 0 ==> PrintNat(10 * n + d) == PrintNat(n) + PrintNat(d)
    ensures n > 0 ==> Print(-n) == "-" + Print(n)
  {}
}
