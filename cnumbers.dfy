/**
 * The C library conversions that the configuration handler relies on:
 * `atoi` (decimal, used for every numeric setting) and `strtoul` in base 16
 * (used by hex_to_color), together with the unsigned truncating casts.
 */
module CNumbers {

  const UINT16_RANGE: int := 0x1_0000
  const UINT32_RANGE: int := 0x1_0000_0000
  const ULONG_RANGE: int := 0x1_0000_0000_0000_0000

  /** The C cast `(Uint16) x`: reduction modulo 2^16 (Dafny's % is never negative). */
  function ToUint16(x: int): (r: nat)
    ensures r < UINT16_RANGE
    ensures 0 <= x < UINT16_RANGE ==> r == x
  {
    x % UINT16_RANGE
  }

  /** The C conversion to `Uint32` / `unsigned int`: reduction modulo 2^32. */
  function ToUint32(x: int): (r: nat)
    ensures r < UINT32_RANGE
    ensures 0 <= x < UINT32_RANGE ==> r == x
  {
    x % UINT32_RANGE
  }

  /** `isspace` in the C locale. */
  predicate IsSpace(c: char) {
    c == ' ' || c == '\t' || c == '\n' || c == '\U{B}' || c == '\U{C}' || c == '\r'
  }

  predicate IsDigit(c: char) { '0' <= c <= '9' }

  predicate IsHexDigit(c: char) {
    IsDigit(c) || 'a' <= c <= 'f' || 'A' <= c <= 'F'
  }

  /** The value of a decimal digit (0 for any other character). */
  function DigitValue(c: char): (d: nat)
    ensures d < 10
  {
    if IsDigit(c) then c as int - '0' as int else 0
  }

  /** The value of a hexadecimal digit (0 for any other character). */
  function HexDigitValue(c: char): (d: nat)
    ensures d < 16
    ensures IsDigit(c) ==> d == DigitValue(c)
  {
    if IsDigit(c) then c as int - '0' as int
    else if 'a' <= c <= 'f' then c as int - 'a' as int + 10
    else if 'A' <= c <= 'F' then c as int - 'A' as int + 10
    else 0
  }

  /** Drops the leading white space that `atoi` and `strtoul` skip. */
  function SkipSpace(s: string): (r: string)
    ensures |r| <= |s|
    ensures r == [] || !IsSpace(r[0])
  {
    if s != [] && IsSpace(s[0]) then SkipSpace(s[1..]) else s
  }

  /** True when the (space-stripped) text starts with a minus sign. */
  predicate Negative(t: string) { t != [] && t[0] == '-' }

  /** The text after an optional `+` or `-` sign. */
  function Unsigned(t: string): (r: string)
    ensures |r| <= |t|
  {
    if t != [] && (t[0] == '-' || t[0] == '+') then t[1..] else t
  }

  /** The longest prefix made of decimal digits. */
  function DecimalPrefix(s: string): (r: string)
    ensures |r| <= |s| && r == s[..|r|]
    ensures forall i :: 0 <= i < |r| ==> IsDigit(r[i])
    ensures |r| < |s| ==> !IsDigit(s[|r|])
  {
    if s != [] && IsDigit(s[0]) then [s[0]] + DecimalPrefix(s[1..]) else []
  }

  /** The longest prefix made of hexadecimal digits. */
  function HexPrefix(s: string): (r: string)
    ensures |r| <= |s| && r == s[..|r|]
    ensures forall i :: 0 <= i < |r| ==> IsHexDigit(r[i])
    ensures |r| < |s| ==> !IsHexDigit(s[|r|])
  {
    if s != [] && IsHexDigit(s[0]) then [s[0]] + HexPrefix(s[1..]) else []
  }

  /** The value of a string of decimal digits, most significant first. */
  function DecimalValue(ds: string): nat
  {
    if ds == [] then 0 else 10 * DecimalValue(ds[..|ds| - 1]) + DigitValue(ds[|ds| - 1])
  }

  /** The value of a string of hexadecimal digits, most significant first. */
  function HexValue(ds: string): nat
  {
    if ds == [] then 0 else 16 * HexValue(ds[..|ds| - 1]) + HexDigitValue(ds[|ds| - 1])
  }

  /**
   * C `atoi`: leading white space, an optional sign, then the leading decimal
   * digits; anything after them is ignored and no digits at all give 0.
   * So a negative result needs a minus sign, and any other result than 0
   * needs a digit.
   */
  function Atoi(s: string): (r: int)
    ensures r < 0 ==> Negative(SkipSpace(s))
    ensures r != 0 ==> DecimalPrefix(Unsigned(SkipSpace(s))) != []
  {
    var t := SkipSpace(s);
    var v: int := DecimalValue(DecimalPrefix(Unsigned(t)));
    if Negative(t) then -v else v
  }

  /** Skips a `0x`/`0X` prefix, which strtoul accepts only before a hex digit. */
  function HexBody(u: string): (r: string)
    ensures |r| <= |u|
  {
    if |u| >= 3 && u[0] == '0' && (u[1] == 'x' || u[1] == 'X') && IsHexDigit(u[2]) then u[2..] else u
  }

  /**
   * `(Uint32) strtoul(text, NULL, 16)`: the unsigned long result saturates at
   * ULONG_MAX on overflow, is negated modulo 2^64 after a minus sign, and the
   * cast then keeps its low 32 bits.
   */
  function HexToUint32(text: string): (h: nat)
    ensures h < UINT32_RANGE
  {
    var t := SkipSpace(text);
    var v := HexValue(HexPrefix(HexBody(Unsigned(t))));
    var ul := if v >= ULONG_RANGE then ULONG_RANGE - 1
              else if Negative(t) then (ULONG_RANGE - v) % ULONG_RANGE
              else v;
    ToUint32(ul)
  }

  /** The decimal text of a natural number, as printf("%u") writes it. */
  function Decimal(n: nat): (s: string)
    ensures s != [] && forall i :: 0 <= i < |s| ==> IsDigit(s[i])
    decreases n
  {
    var last := ['0' + ((n % 10) as char)];
    if n < 10 then last else Decimal(n / 10) + last
  }

  lemma {:induction false} DecimalValueOfDecimal(n: nat)
    ensures DecimalValue(Decimal(n)) == n
    decreases n
  {
    var s := Decimal(n);
    if n >= 10 {
      DecimalValueOfDecimal(n / 10);
      assert s[..|s| - 1] == Decimal(n / 10);
    }
  }

  lemma {:induction false} DecimalPrefixOfDigits(s: string)
    requires forall i :: 0 <= i < |s| ==> IsDigit(s[i])
    ensures DecimalPrefix(s) == s
    decreases |s|
  {
    if s != [] {
      DecimalPrefixOfDigits(s[1..]);
    }
  }

  /** A string of digits has no white space, no sign and no trailing garbage for atoi to skip. */
  lemma DigitsNeedNoSkipping(d: string)
    requires d != [] && forall i :: 0 <= i < |d| ==> IsDigit(d[i])
    ensures SkipSpace(d) == d && Unsigned(d) == d && !Negative(d) && DecimalPrefix(d) == d
  {
    assert !IsSpace(d[0]);
    DecimalPrefixOfDigits(d);
  }

  /** atoi of a text that needs no skipping, whose sign is followed by digits only. */
  lemma AtoiOfParts(s: string, u: string)
    requires SkipSpace(s) == s && Unsigned(s) == u && DecimalPrefix(u) == u
    ensures Atoi(s) == if Negative(s) then -(DecimalValue(u) as int) else DecimalValue(u)
  {
  }

  /** atoi of a string made of digits only is the value of those digits. */
  lemma AtoiOfDigits(d: string)
    requires d != [] && forall i :: 0 <= i < |d| ==> IsDigit(d[i])
    ensures Atoi(d) == DecimalValue(d)
  {
    DigitsNeedNoSkipping(d);
    AtoiOfParts(d, d);
  }

  /** A leading sign is read and then the digits after it. */
  lemma AtoiOfSignedDigits(sign: char, d: string)
    requires sign == '-' || sign == '+'
    requires d != [] && forall i :: 0 <= i < |d| ==> IsDigit(d[i])
    ensures Atoi([sign] + d) == if sign == '-' then -(DecimalValue(d) as int) else DecimalValue(d)
  {
    SignNeedsNoSkipping(sign, d);
    DecimalPrefixOfDigits(d);
    AtoiOfParts([sign] + d, d);
  }

  lemma SignNeedsNoSkipping(sign: char, d: string)
    requires sign == '-' || sign == '+'
    ensures var s := [sign] + d; SkipSpace(s) == s && Unsigned(s) == d && (Negative(s) <==> sign == '-')
  {
    var s := [sign] + d;
    assert !IsSpace(s[0]);
    assert s[1..] == d;
  }

  /** atoi reads back what printf("%d") writes: Atoi is a left inverse of Decimal, for both signs. */
  lemma AtoiOfDecimal(n: nat)
    ensures Atoi(Decimal(n)) == n
    ensures Atoi("-" + Decimal(n)) == -(n as int)
    ensures Atoi("+" + Decimal(n)) == n
  {
    var d := Decimal(n);
    DecimalValueOfDecimal(n);
    AtoiOfDigits(d);
    AtoiOfSignedDigits('-', d);
    AtoiOfSignedDigits('+', d);
  }
}
