/** RGB triples and their `#rrggbb` rendering: Python's `format(n, "02x")`
    (also `"%02x" % n`) per channel. */
module Hex {
  import opened Wrappers

  /** A value of `random.randint(0, 255)`. */
  type Byte = x: int | 0 <= x < 256

  /** A character of `"0123456789abcdef"`, a value of `random.choice` over that list. */
  type HexChar = c: char | IsHexDigit(c) witness '0'

  datatype RGB = RGB(r: int, g: int, b: int)

  const Digits: string := "0123456789abcdef"

  /** One of the characters of `Digits`. */
  predicate IsHexDigit(ch: char) {
    '0' <= ch <= '9' || 'a' <= ch <= 'f'
  }

  predicate ValidRGB(c: RGB) {
    0 <= c.r < 256 && 0 <= c.g < 256 && 0 <= c.b < 256
  }

  predicate AllValid(cs: seq<RGB>) {
    forall i :: 0 <= i < |cs| ==> ValidRGB(cs[i])
  }

  function HexDigit(d: int): (ch: char)
    requires 0 <= d < 16
    ensures IsHexDigit(ch)
  {
    Digits[d]
  }

  /** `format(n, "x")`: lower-case hexadecimal digits without leading zeros. */
  function ToHex(n: nat): (s: string)
    ensures |s| >= 1
    ensures forall i :: 0 <= i < |s| ==> IsHexDigit(s[i])
  {
    if n < 16 then [HexDigit(n)] else ToHex(n / 16) + [HexDigit(n % 16)]
  }

  /** `format(n, "02x")`: at least two characters, zero-padded; a negative value
      keeps its sign, which already makes two characters. */
  function Format02x(n: int): (s: string)
    ensures |s| >= 2
    ensures s[0] == '-' <==> n < 0
  {
    if n < 0 then "-" + ToHex(-n)
    else
      var h := ToHex(n);
      if |h| < 2 then "0" + h else h
  }

  /** `rgb_to_hex` of main.py and `'#%02x%02x%02x' % rgb` of the functions module. */
  function RgbToHex(c: RGB): (s: string)
    ensures |s| >= 7 && s[0] == '#'
  {
    "#" + Format02x(c.r) + Format02x(c.g) + Format02x(c.b)
  }

  /** A `#` followed by six lower-case hexadecimal digits. */
  predicate IsHexColor(s: string) {
    |s| == 7 && s[0] == '#' && forall i :: 1 <= i < 7 ==> IsHexDigit(s[i])
  }

  /** The value of a hexadecimal digit character. */
  function DigitValue(ch: char): (d: nat)
    requires IsHexDigit(ch)
    ensures d < 16
  {
    if '0' <= ch <= '9' then ch as int - '0' as int
    else ch as int - 'a' as int + 10
  }

  /** Reads a `#rrggbb` string back into its triple. */
  function ParseHexColor(s: string): (r: Option<RGB>)
    ensures r.Some? <==> IsHexColor(s)
    ensures r.Some? ==> ValidRGB(r.value)
  {
    if !IsHexColor(s) then None
    else Some(RGB(16 * DigitValue(s[1]) + DigitValue(s[2]),
                  16 * DigitValue(s[3]) + DigitValue(s[4]),
                  16 * DigitValue(s[5]) + DigitValue(s[6])))
  }

  lemma DigitValueOfHexDigit(d: int)
    requires 0 <= d < 16
    ensures IsHexDigit(HexDigit(d))
    ensures DigitValue(HexDigit(d)) == d
  {
    if d < 10 {
      assert HexDigit(d) as int == '0' as int + d;
    } else {
      assert HexDigit(d) as int == 'a' as int + d - 10;
    }
  }

  /** For a channel value 0..255, `format(n, "02x")` is the high and the low nibble. */
  lemma Format02xByte(n: int)
    requires 0 <= n < 256
    ensures Format02x(n) == [HexDigit(n / 16), HexDigit(n % 16)]
  {
    if n >= 16 {
      assert ToHex(n / 16) == [HexDigit(n / 16)];
    }
  }

  /** For channels in 0..255 the colour is `#` and six lower-case hex digits,
      two per channel, in R, G, B order. */
  lemma RgbToHexShape(c: RGB)
    requires ValidRGB(c)
    ensures IsHexColor(RgbToHex(c))
    ensures RgbToHex(c) == ['#', HexDigit(c.r / 16), HexDigit(c.r % 16),
                                 HexDigit(c.g / 16), HexDigit(c.g % 16),
                                 HexDigit(c.b / 16), HexDigit(c.b % 16)]
  {
    Format02xByte(c.r);
    Format02xByte(c.g);
    Format02xByte(c.b);
  }

  /** Reading a rendered colour back gives the triple (channels 0..255). */
  lemma ParseRgbToHex(c: RGB)
    requires ValidRGB(c)
    ensures ParseHexColor(RgbToHex(c)) == Some(c)
  {
    RgbToHexShape(c);
    ParseNibbles(c, RgbToHex(c));
  }

  lemma ParseNibbles(c: RGB, s: string)
    requires ValidRGB(c) && IsHexColor(s)
    requires s == ['#', HexDigit(c.r / 16), HexDigit(c.r % 16),
                        HexDigit(c.g / 16), HexDigit(c.g % 16),
                        HexDigit(c.b / 16), HexDigit(c.b % 16)]
    ensures ParseHexColor(s) == Some(c)
  {
    ChannelRoundTrip(s[1], s[2], c.r);
    ChannelRoundTrip(s[3], s[4], c.g);
    ChannelRoundTrip(s[5], s[6], c.b);
    ParseChars(s, c.r, c.g, c.b);
  }

  /** The parse of a colour string, channel by channel. */
  lemma ParseChars(s: string, r: int, g: int, b: int)
    requires IsHexColor(s)
    requires 16 * DigitValue(s[1]) + DigitValue(s[2]) == r
    requires 16 * DigitValue(s[3]) + DigitValue(s[4]) == g
    requires 16 * DigitValue(s[5]) + DigitValue(s[6]) == b
    ensures ParseHexColor(s) == Some(RGB(r, g, b))
  {
  }

  lemma ChannelRoundTrip(hi: char, lo: char, n: int)
    requires 0 <= n < 256
    requires hi == HexDigit(n / 16) && lo == HexDigit(n % 16)
    ensures IsHexDigit(hi) && IsHexDigit(lo)
    ensures 16 * DigitValue(hi) + DigitValue(lo) == n
  {
    DigitValueOfHexDigit(n / 16);
    DigitValueOfHexDigit(n % 16);
  }

  /** Distinct triples give distinct colour strings. */
  lemma RgbToHexInjective(c1: RGB, c2: RGB)
    requires ValidRGB(c1) && ValidRGB(c2)
    requires RgbToHex(c1) == RgbToHex(c2)
    ensures c1 == c2
  {
    ParseRgbToHex(c1);
    ParseRgbToHex(c2);
  }
}
