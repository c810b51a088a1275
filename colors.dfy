/**
 * hex_to_color: parsing a colour setting written as 6 or 8 hexadecimal digits
 * into the red, green and blue channels of an SDL_Color.
 */
module Colors {
  import opened CNumbers

  type Byte = x: int | 0 <= x < 256

  /** SDL_Color. */
  datatype Color = Color(r: Byte, g: Byte, b: Byte, a: Byte)

  /** What hex_to_color reports (its bool result) and the colour it leaves behind. */
  datatype Parsed = Parsed(ok: bool, color: Color)

  /**
   * hex_to_color(text, &c). The text is parsed with strtoul in base 16 and cast
   * to Uint32. The call fails, leaving `c` alone, when the parsed value is 0 or
   * the text is not 6 or 8 characters long. Each of the two zero checks fires
   * for every text but its own literal, so together they reject "000000" and
   * "00000000" too. Eight characters give r, g, b from the top three bytes, six
   * from the low three. Alpha is never written.
   */
  function HexToColor(text: string, c: Color): (p: Parsed)
    ensures p.ok <==> (|text| == 6 || |text| == 8) && HexToUint32(text) != 0
    ensures !p.ok ==> p.color == c
    ensures p.color.a == c.a
  {
    var length := |text|;
    var hex := HexToUint32(text);
    if (hex == 0 && text != "00000000") || (hex == 0 && text != "000000") || (length != 6 && length != 8) then
      Parsed(false, c)
    else if length == 8 then
      Parsed(true, c.(r := (hex / 0x100_0000) % 256, g := (hex / 0x1_0000) % 256, b := (hex / 0x100) % 256))
    else
      Parsed(true, c.(r := (hex / 0x1_0000) % 256, g := (hex / 0x100) % 256, b := hex % 256))
  }

  predicate AllHexDigits(t: string) {
    forall i :: 0 <= i < |t| ==> IsHexDigit(t[i])
  }

  function Pow16(n: nat): (p: nat)
    ensures p >= 1
  {
    if n == 0 then 1 else 16 * Pow16(n - 1)
  }

  lemma {:induction false} HexValueBound(s: string)
    ensures HexValue(s) < Pow16(|s|)
    decreases |s|
  {
    if s != [] {
      HexValueBound(s[..|s| - 1]);
    }
  }

  /** Appending digits shifts the value of the digits before them. */
  lemma {:induction false} HexValueAppend(a: string, b: string)
    ensures HexValue(a + b) == HexValue(a) * Pow16(|b|) + HexValue(b)
    decreases |b|
  {
    if b == [] {
      assert a + b == a;
    } else {
      var b' := b[..|b| - 1];
      var d := HexDigitValue(b[|b| - 1]);
      assert (a + b)[..|a + b| - 1] == a + b';
      assert (a + b)[|a + b| - 1] == b[|b| - 1];
      HexValueAppend(a, b');
      var x, p, y := HexValue(a), Pow16(|b'|), HexValue(b');
      assert HexValue(a + b) == 16 * (x * p + y) + d;
      assert Pow16(|b|) == 16 * p;
      assert HexValue(b) == 16 * y + d;
      assert x * (16 * p) == 16 * (x * p) by { MulShift(x, p); }
    }
  }

  lemma MulShift(x: int, p: int)
    ensures x * (16 * p) == 16 * (x * p)
  {
  }

  /** Two hex digits, the way a colour channel is written. */
  function ChannelOf(t: string): (v: Byte)
    requires |t| == 2
  {
    HexValueBound(t);
    HexValue(t)
  }

  /** Six digits are three channels, most significant first. */
  lemma HexValueOfSix(t: string)
    requires |t| == 6
    ensures HexValue(t) == ChannelOf(t[..2]) * 0x1_0000 + ChannelOf(t[2..4]) * 0x100 + ChannelOf(t[4..])
  {
    assert t == t[..2] + t[2..4] + t[4..];
    HexValueAppend(t[..2] + t[2..4], t[4..]);
    HexValueAppend(t[..2], t[2..4]);
    assert t[..4] == t[..2] + t[2..4];
  }

  /** Eight digits are four channels, most significant first. */
  lemma HexValueOfEight(t: string)
    requires |t| == 8
    ensures HexValue(t) == (ChannelOf(t[..2]) * 0x1_0000 + ChannelOf(t[2..4]) * 0x100 + ChannelOf(t[4..6])) * 0x100 + ChannelOf(t[6..])
  {
    var six := t[..6];
    assert t == six + t[6..];
    HexValueAppend(six, t[6..]);
    assert Pow16(2) == 0x100;
    HexValueOfSix(six);
    assert six[..2] == t[..2] && six[2..4] == t[2..4] && six[4..] == t[4..6];
  }

  /** A string of hex digits needs none of strtoul's skipping and fits in 32 bits when at most 8 long. */
  lemma {:induction false} HexPrefixOfDigits(s: string)
    requires AllHexDigits(s)
    ensures HexPrefix(s) == s
    decreases |s|
  {
    if s != [] {
      HexPrefixOfDigits(s[1..]);
    }
  }

  lemma DigitsNeedNoStrtoulSkipping(t: string)
    requires t != [] && AllHexDigits(t)
    ensures SkipSpace(t) == t && Unsigned(t) == t && !Negative(t) && HexBody(t) == t && HexPrefix(t) == t
  {
    assert !IsSpace(t[0]);
    HexPrefixOfDigits(t);
  }

  lemma HexToUint32OfDigits(t: string)
    requires 1 <= |t| <= 8 && AllHexDigits(t)
    ensures HexToUint32(t) == HexValue(t)
  {
    DigitsNeedNoStrtoulSkipping(t);
    HexValueBound(t);
    assert Pow16(|t|) <= Pow16(8) by { Pow16Monotone(|t|, 8); }
    assert Pow16(8) == UINT32_RANGE;
  }

  lemma {:induction false} Pow16Monotone(m: nat, n: nat)
    requires m <= n
    ensures Pow16(m) <= Pow16(n)
    decreases n
  {
    if m < n {
      Pow16Monotone(m, n - 1);
    }
  }

  /** The three bytes of a 24-bit value, as the shifts and masks of hex_to_color extract them. */
  lemma SplitBytes(hi: int, mid: int, lo: int)
    requires 0 <= hi < 256 && 0 <= mid < 256 && 0 <= lo < 256
    ensures var h := hi * 0x1_0000 + mid * 0x100 + lo;
      (h / 0x1_0000) % 256 == hi && (h / 0x100) % 256 == mid && h % 256 == lo
  {
    var h := hi * 0x1_0000 + mid * 0x100 + lo;
    assert h / 0x100 == hi * 0x100 + mid;
    assert h / 0x1_0000 == hi;
  }

  /** The same for the top three bytes of a 32-bit value. */
  lemma SplitTopBytes(hi: int, mid: int, lo: int, low: int)
    requires 0 <= hi < 256 && 0 <= mid < 256 && 0 <= lo < 256 && 0 <= low < 256
    ensures var h := (hi * 0x1_0000 + mid * 0x100 + lo) * 0x100 + low;
      (h / 0x100_0000) % 256 == hi && (h / 0x1_0000) % 256 == mid && (h / 0x100) % 256 == lo
  {
    var top := hi * 0x1_0000 + mid * 0x100 + lo;
    var h := top * 0x100 + low;
    assert h / 0x100 == top;
    assert h / 0x1_0000 == top / 0x100;
    assert h / 0x100_0000 == top / 0x1_0000;
    SplitBytes(hi, mid, lo);
  }

  /** Six characters with a nonzero value: the low three bytes are the channels. */
  lemma SixCharacterShape(t: string, c: Color)
    requires |t| == 6 && HexToUint32(t) != 0
    ensures var h := HexToUint32(t);
      HexToColor(t, c) == Parsed(true, c.(r := (h / 0x1_0000) % 256, g := (h / 0x100) % 256, b := h % 256))
  {
  }

  /** Eight characters with a nonzero value: the top three bytes are the channels. */
  lemma EightCharacterShape(t: string, c: Color)
    requires |t| == 8 && HexToUint32(t) != 0
    ensures var h := HexToUint32(t);
      HexToColor(t, c) == Parsed(true, c.(r := (h / 0x100_0000) % 256, g := (h / 0x1_0000) % 256, b := (h / 0x100) % 256))
  {
  }

  /** The low three bytes of six digits are their three digit pairs. */
  lemma SixDigitBytes(t: string)
    requires |t| == 6 && AllHexDigits(t)
    ensures var h := HexToUint32(t);
      && (h / 0x1_0000) % 256 == ChannelOf(t[..2])
      && (h / 0x100) % 256 == ChannelOf(t[2..4])
      && h % 256 == ChannelOf(t[4..])
  {
    var hi: int, mid: int, lo: int := ChannelOf(t[..2]), ChannelOf(t[2..4]), ChannelOf(t[4..]);
    HexToUint32OfDigits(t);
    HexValueOfSix(t);
    SplitBytes(hi, mid, lo);
  }

  /** The top three bytes of eight digits are their first three digit pairs. */
  lemma EightDigitBytes(t: string)
    requires |t| == 8 && AllHexDigits(t)
    ensures var h := HexToUint32(t);
      && (h / 0x100_0000) % 256 == ChannelOf(t[..2])
      && (h / 0x1_0000) % 256 == ChannelOf(t[2..4])
      && (h / 0x100) % 256 == ChannelOf(t[4..6])
  {
    var hi: int, mid: int, lo: int, low: int := ChannelOf(t[..2]), ChannelOf(t[2..4]), ChannelOf(t[4..6]), ChannelOf(t[6..]);
    HexToUint32OfDigits(t);
    HexValueOfEight(t);
    SplitTopBytes(hi, mid, lo, low);
  }

  /**
   * "RRGGBB": on success red, green and blue are the three digit pairs and
   * alpha keeps its previous value.
   */
  lemma SixDigitColor(t: string, c: Color)
    requires |t| == 6 && AllHexDigits(t) && HexValue(t) != 0
    ensures HexToColor(t, c) == Parsed(true, c.(r := ChannelOf(t[..2]), g := ChannelOf(t[2..4]), b := ChannelOf(t[4..])))
  {
    HexToUint32OfDigits(t);
    SixDigitBytes(t);
    SixCharacterShape(t, c);
  }

  /**
   * "RRGGBBAA": red, green and blue come from the first six digits; the last
   * two are parsed but alpha keeps its previous value.
   */
  lemma EightDigitColor(t: string, c: Color)
    requires |t| == 8 && AllHexDigits(t) && HexValue(t) != 0
    ensures HexToColor(t, c) == Parsed(true, c.(r := ChannelOf(t[..2]), g := ChannelOf(t[2..4]), b := ChannelOf(t[4..6])))
  {
    HexToUint32OfDigits(t);
    EightDigitBytes(t);
    EightCharacterShape(t, c);
  }

  /** The value of a digit string is zero exactly when every digit is '0'. */
  lemma {:induction false} HexValueZero(s: string)
    requires AllHexDigits(s)
    ensures HexValue(s) == 0 <==> forall i :: 0 <= i < |s| ==> s[i] == '0'
    decreases |s|
  {
    if s != [] {
      var s' := s[..|s| - 1];
      HexValueZero(s');
      assert forall i :: 0 <= i < |s'| ==> s'[i] == s[i];
    }
  }

  /**
   * On 6 or 8 hex digits the parse succeeds exactly when some digit is not '0':
   * an all-zero colour is refused even though the comment beside the check
   * says it is meant to be accepted.
   */
  lemma AcceptedIffNonzeroDigit(t: string, c: Color)
    requires (|t| == 6 || |t| == 8) && AllHexDigits(t)
    ensures HexToColor(t, c).ok <==> exists i :: 0 <= i < |t| && t[i] != '0'
  {
    HexToUint32OfDigits(t);
    HexValueZero(t);
  }

  /** The two literals the zero checks name are both rejected and leave the colour untouched. */
  lemma AllZeroLiteralsRejected(c: Color)
    ensures HexToColor("000000", c) == Parsed(false, c)
    ensures HexToColor("00000000", c) == Parsed(false, c)
  {
    ZeroDigitsValue("000000");
    ZeroDigitsValue("00000000");
  }

  /** A run of up to eight '0' digits parses to zero. */
  lemma ZeroDigitsValue(t: string)
    requires 1 <= |t| <= 8 && forall i :: 0 <= i < |t| ==> t[i] == '0'
    ensures HexToUint32(t) == 0
  {
    HexToUint32OfDigits(t);
    HexValueZero(t);
  }
}
