/**
 * The stroke-colour encoder: an (r, g, b) triple becomes the string '#rrggbb'
 * through Python's '{:02x}' format, and a decoder that reads such a string back.
 */
module HexColour {
  import opened Pixels

  datatype Option<T> = None | Some(value: T)

  /** The lower-case hexadecimal digit of value d. */
  function HexDigit(d: int): (c: char)
    requires 0 <= d < 16
  {
    if d < 10 then ('0' as int + d) as char else ('a' as int + d - 10) as char
  }

  predicate IsHexDigit(c: char)
  {
    '0' <= c <= '9' || 'a' <= c <= 'f'
  }

  /** The value of a lower-case hexadecimal digit; the inverse of HexDigit. */
  function DigitValue(c: char): (d: int)
    requires IsHexDigit(c)
    ensures 0 <= d < 16 && HexDigit(d) == c
  {
    if c <= '9' then c as int - '0' as int else c as int - 'a' as int + 10
  }

  lemma DigitValueOfHexDigit(d: int)
    requires 0 <= d < 16
    ensures IsHexDigit(HexDigit(d)) && DigitValue(HexDigit(d)) == d
  {
  }

  /** The hexadecimal digits of n without padding, as Python's format(n, 'x') for n >= 0. */
  function Hex(n: nat): (s: string)
    decreases n
  {
    if n < 16 then [HexDigit(n)] else Hex(n / 16) + [HexDigit(n % 16)]
  }

  /** Hex(n) has one digit below 16, two digits below 256, and more from 256 on. */
  lemma {:induction false} HexLength(n: nat)
    ensures |Hex(n)| >= 1
    ensures |Hex(n)| == 1 <==> n < 16
    ensures |Hex(n)| <= 2 <==> n < 256
    decreases n
  {
    if n >= 16 {
      HexLength(n / 16);
    }
  }

  /**
   * Python's '{:02x}'.format(n): the digits of n padded with '0' to width 2; a
   * negative n is '-' followed by the digits of -n, which already fills the width.
   */
  function Format02x(n: int): string
  {
    if n < 0 then "-" + Hex(-n)
    else if n < 16 then "0" + Hex(n)
    else Hex(n)
  }

  /** A channel in 0..255 becomes exactly two hexadecimal digits, high nibble first. */
  lemma Format02xOfByte(n: int)
    requires 0 <= n < 256
    ensures Format02x(n) == [HexDigit(n / 16), HexDigit(n % 16)]
  {
    if n >= 16 {
      assert Hex(n / 16) == [HexDigit(n / 16)];
    }
  }

  /** A channel outside 0..255 is either longer than two characters or starts with '-'. */
  lemma Format02xOutOfRange(n: int)
    requires n < 0 || 256 <= n
    ensures |Format02x(n)| >= 3 || Format02x(n)[0] == '-'
  {
    if n >= 256 {
      HexLength(n);
    }
  }

  /** convert_to_hex: '#' followed by the three channels, each formatted with '{:02x}'. */
  function ConvertToHex(r: int, g: int, b: int): (s: string)
    ensures |s| >= 7 && s[0] == '#'
  {
    assert forall n :: |Format02x(n)| >= 2 by {
      forall n ensures |Format02x(n)| >= 2 {
        if n < 0 { HexLength(-n); } else { HexLength(n); }
      }
    }
    "#" + Format02x(r) + Format02x(g) + Format02x(b)
  }

  /** A string of the form '#rrggbb' with lower-case hexadecimal digits. */
  predicate IsHexColour(s: string)
  {
    |s| == 7 && s[0] == '#' && forall k | 1 <= k < 7 :: IsHexDigit(s[k])
  }

  /** The value of two hexadecimal digits, high nibble first. */
  function PairValue(hi: char, lo: char): (v: Byte)
    requires IsHexDigit(hi) && IsHexDigit(lo)
  {
    DigitValue(hi) * 16 + DigitValue(lo)
  }

  /** Reads '#rrggbb' back into a colour; anything else is rejected. */
  function DecodeHexColour(s: string): (c: Option<Rgb>)
    ensures c.Some? <==> IsHexColour(s)
  {
    if IsHexColour(s) then
      Some(Rgb(PairValue(s[1], s[2]), PairValue(s[3], s[4]), PairValue(s[5], s[6])))
    else
      None
  }

  /** For channels in 0..255 the encoding is '#' and six lower-case hex digits, R then G then B. */
  lemma ConvertToHexOfColour(c: Rgb)
    ensures var s := ConvertToHex(c.r, c.g, c.b);
      && IsHexColour(s)
      && s[1..3] == [HexDigit(c.r / 16), HexDigit(c.r % 16)]
      && s[3..5] == [HexDigit(c.g / 16), HexDigit(c.g % 16)]
      && s[5..7] == [HexDigit(c.b / 16), HexDigit(c.b % 16)]
  {
    Format02xOfByte(c.r);
    Format02xOfByte(c.g);
    Format02xOfByte(c.b);
    var s := ConvertToHex(c.r, c.g, c.b);
    assert s == ['#', HexDigit(c.r / 16), HexDigit(c.r % 16), HexDigit(c.g / 16), HexDigit(c.g % 16),
                 HexDigit(c.b / 16), HexDigit(c.b % 16)];
  }

  /** Decoding the encoding of a colour gives the colour back. */
  lemma DecodeConvertToHex(c: Rgb)
    ensures DecodeHexColour(ConvertToHex(c.r, c.g, c.b)) == Some(c)
  {
    ConvertToHexOfColour(c);
    DigitValueOfHexDigit(c.r / 16);
    DigitValueOfHexDigit(c.r % 16);
    DigitValueOfHexDigit(c.g / 16);
    DigitValueOfHexDigit(c.g % 16);
    DigitValueOfHexDigit(c.b / 16);
    DigitValueOfHexDigit(c.b % 16);
  }

  /** Every '#rrggbb' string is the encoding of the colour it decodes to. */
  lemma ConvertToHexDecode(s: string)
    requires IsHexColour(s)
    ensures DecodeHexColour(s).Some?
    ensures var c := DecodeHexColour(s).value; ConvertToHex(c.r, c.g, c.b) == s
  {
    var c := DecodeHexColour(s).value;
    ConvertToHexOfColour(c);
    assert c.r / 16 == DigitValue(s[1]) && c.r % 16 == DigitValue(s[2]);
    assert c.g / 16 == DigitValue(s[3]) && c.g % 16 == DigitValue(s[4]);
    assert c.b / 16 == DigitValue(s[5]) && c.b % 16 == DigitValue(s[6]);
    var t := ConvertToHex(c.r, c.g, c.b);
    assert t[1..3] == s[1..3] && t[3..5] == s[3..5] && t[5..7] == s[5..7];
    assert forall k | 0 <= k < 7 :: t[k] == s[k] by {
      forall k | 0 <= k < 7 ensures t[k] == s[k] {
        if k == 1 || k == 2 { assert t[k] == t[1..3][k - 1]; }
        else if k == 3 || k == 4 { assert t[k] == t[3..5][k - 3]; }
        else if k == 5 || k == 6 { assert t[k] == t[5..7][k - 5]; }
      }
    }
  }

  /** The encoding is a '#rrggbb' string exactly when every channel lies in 0..255. */
  lemma {:induction false} ConvertToHexIsColourIff(r: int, g: int, b: int)
    ensures IsHexColour(ConvertToHex(r, g, b)) <==> (0 <= r < 256 && 0 <= g < 256 && 0 <= b < 256)
  {
    if 0 <= r < 256 && 0 <= g < 256 && 0 <= b < 256 {
      ConvertToHexOfColour(Rgb(r, g, b));
    } else {
      var fr, fg, fb := Format02x(r), Format02x(g), Format02x(b);
      var s := ConvertToHex(r, g, b);
      assert s == "#" + fr + fg + fb;
      assert |fr| >= 2 && |fg| >= 2 && |fb| >= 2 by {
        if r < 0 { HexLength(-r); } else { HexLength(r); }
        if g < 0 { HexLength(-g); } else { HexLength(g); }
        if b < 0 { HexLength(-b); } else { HexLength(b); }
      }
      if |s| == 7 {
        if !(0 <= r < 256) {
          Format02xOutOfRange(r);
          assert s[1] == fr[0];
        } else if !(0 <= g < 256) {
          Format02xOutOfRange(g);
          assert s[1 + |fr|] == fg[0];
        } else {
          Format02xOutOfRange(b);
          assert s[1 + |fr| + |fg|] == fb[0];
        }
      }
    }
  }
}
