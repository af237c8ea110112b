/** Pixels of a decoded frame and the colour text written into a colour tag. */
module Pixels {
  import opened Outcomes

  newtype Byte = x: int | 0 <= x < 256

  /** One pixel: four 8-bit channels; equality is channel-wise. */
  datatype Pixel = Pixel(r: Byte, g: Byte, b: Byte, a: Byte)

  predicate IsHexDigit(c: char) {
    '0' <= c <= '9' || 'A' <= c <= 'F'
  }

  /** The upper-case hexadecimal digit of a value below 16. */
  function HexDigit(n: int): (c: char)
    requires 0 <= n < 16
    ensures IsHexDigit(c) && HexValue(c) == n
  {
    if n < 10 then ('0' as int + n) as char else ('A' as int + n - 10) as char
  }

  /** The value of an upper-case hexadecimal digit. */
  function HexValue(c: char): (n: int)
    requires IsHexDigit(c)
    ensures 0 <= n < 16
  {
    if c <= '9' then c as int - '0' as int else c as int - 'A' as int + 10
  }

  /** `ToString("X2")` of one channel: two upper-case hex digits, high digit first. */
  function Hex2(v: Byte): (s: string)
    ensures |s| == 2 && IsHexDigit(s[0]) && IsHexDigit(s[1])
    ensures 16 * HexValue(s[0]) + HexValue(s[1]) == v as int
  {
    [HexDigit(v as int / 16), HexDigit(v as int % 16)]
  }

  /** The `#RRGGBBAA` text of a pixel, channels in R, G, B, A order. */
  function ColorString(p: Pixel): (s: string)
    ensures |s| == 9 && s[0] == '#'
  {
    "#" + Hex2(p.r) + Hex2(p.g) + Hex2(p.b) + Hex2(p.a)
  }

  /** After the `#`, a colour text holds only upper-case hex digits. */
  lemma ColorStringDigits(p: Pixel)
    ensures forall k :: 1 <= k < 9 ==> IsHexDigit(ColorString(p)[k])
  {
    var s := ColorString(p);
    var hr, hg, hb, ha := Hex2(p.r), Hex2(p.g), Hex2(p.b), Hex2(p.a);
    assert s == "#" + hr + hg + hb + ha;
    assert s[1] == hr[0] && s[2] == hr[1];
    assert s[3] == hg[0] && s[4] == hg[1];
    assert s[5] == hb[0] && s[6] == hb[1];
    assert s[7] == ha[0] && s[8] == ha[1];
  }

  /** Reads back the channel at digit offset k of a `#RRGGBBAA` text. */
  function ChannelAt(s: string, k: nat): Byte
    requires k + 1 < |s| && IsHexDigit(s[k]) && IsHexDigit(s[k + 1])
  {
    (16 * HexValue(s[k]) + HexValue(s[k + 1])) as Byte
  }

  /** The inverse of ColorString: a pixel when the text is `#` and eight hex digits. */
  function ParseColor(s: string): Option<Pixel>
  {
    if |s| == 9 && s[0] == '#' && forall k :: 1 <= k < 9 ==> IsHexDigit(s[k]) then
      Some(Pixel(ChannelAt(s, 1), ChannelAt(s, 3), ChannelAt(s, 5), ChannelAt(s, 7)))
    else None
  }

  /** A channel written with Hex2 at offset k reads back as itself. */
  lemma ChannelAtHex2(s: string, k: nat, v: Byte)
    requires k + 1 < |s| && s[k] == Hex2(v)[0] && s[k + 1] == Hex2(v)[1]
    ensures ChannelAt(s, k) == v
  {
  }

  /** Reading a colour text back gives the pixel it was written from. */
  lemma ParseColorString(p: Pixel)
    ensures ParseColor(ColorString(p)) == Some(p)
  {
    var s := ColorString(p);
    var hr, hg, hb, ha := Hex2(p.r), Hex2(p.g), Hex2(p.b), Hex2(p.a);
    assert s == "#" + hr + hg + hb + ha;
    assert s[1] == hr[0] && s[2] == hr[1];
    assert s[3] == hg[0] && s[4] == hg[1];
    assert s[5] == hb[0] && s[6] == hb[1];
    assert s[7] == ha[0] && s[8] == ha[1];
    ColorStringDigits(p);
    ChannelAtHex2(s, 1, p.r);
    ChannelAtHex2(s, 3, p.g);
    ChannelAtHex2(s, 5, p.b);
    ChannelAtHex2(s, 7, p.a);
  }

  /** Distinct pixels get distinct colour texts, so a colour tag names its pixel. */
  lemma ColorStringInjective(p: Pixel, q: Pixel)
    requires ColorString(p) == ColorString(q)
    ensures p == q
  {
    ParseColorString(p);
    ParseColorString(q);
    assert Some(p) == ParseColor(ColorString(p)) == ParseColor(ColorString(q)) == Some(q);
  }
}
