/**
 * The per-call numbers of the frame conversion: the glyph size written into
 * `<size=N%>`, the width a frame is resampled to, and the scaled hue threshold.
 * The source computes these in floating point; here they are exact reals and
 * integers, which can differ from the source at rounding and comparison
 * boundaries (README, "Left out", lists where).
 */
module Sizing {

  /** More source pixels than this abort the conversion. */
  const PixelLimit: nat := 3000
  /** An average side above this clamps the size formula's input ... */
  const ClampAverage: nat := 60
  /** ... to this value. */
  const ClampDimension: nat := 45
  /** The range of a 32-bit signed integer, outside which `Convert.ToInt32` throws. */
  const Int32Min: int := -0x8000_0000
  const Int32Max: int := 0x7FFF_FFFF

  predicate InInt32(n: int) {
    Int32Min <= n <= Int32Max
  }

  /** `Convert.ToInt32` of a floating value: the nearest integer, ties to the even one. */
  function RoundHalfEven(x: real): (r: int)
    ensures -0.5 <= x - r as real <= 0.5
    ensures (x - r as real == 0.5 || r as real - x == 0.5) ==> r % 2 == 0
  {
    var f := x.Floor;
    var frac := x - f as real;
    if frac < 0.5 then f
    else if frac > 0.5 then f + 1
    else if f % 2 == 0 then f else f + 1
  }

  /** The two properties of RoundHalfEven determine it: any integer that has them is that one. */
  lemma RoundHalfEvenUnique(x: real, r: int)
    requires -0.5 <= x - r as real <= 0.5
    requires (x - r as real == 0.5 || r as real - x == 0.5) ==> r % 2 == 0
    ensures r == RoundHalfEven(x)
  {
    var e := RoundHalfEven(x);
    assert -1.0 <= (r - e) as real <= 1.0;
  }

  /** An integer-valued input is returned unchanged. */
  lemma RoundHalfEvenOfInt(n: int)
    ensures RoundHalfEven(n as real) == n
  {
    RoundHalfEvenUnique(n as real, n);
  }

  /**
   * Automatic glyph size (used when scale is 0): floor(-0.47 * d + 28.72), where d
   * is the integer average side, clamped to 45 when that average exceeds 60.
   */
  function AutoSize(width: nat, height: nat): (r: int)
    ensures var avg := (width + height) / 2;
            var d := if avg > ClampAverage then ClampDimension else avg;
            r as real <= -0.47 * d as real + 28.72 < (r + 1) as real
    ensures 0 <= r <= 28
    ensures (width + height) / 2 > ClampAverage ==> r == 7
    ensures (width + height) / 2 == ClampAverage ==> r == 0
  {
    var avg := (width + height) / 2;
    var d := if avg > ClampAverage then ClampDimension else avg;
    (2872 - 47 * d) / 100
  }

  /** Up to the clamp, a larger image never gets a larger automatic glyph size. */
  lemma AutoSizeNonIncreasing(w1: nat, h1: nat, w2: nat, h2: nat)
    requires (w1 + h1) / 2 <= (w2 + h2) / 2 <= ClampAverage
    ensures AutoSize(w2, h2) <= AutoSize(w1, h1)
  {
  }

  /**
   * The size the conversion uses: `Convert.ToInt32` of the explicit scale, or of the
   * automatic formula when scale is 0.
   */
  function GlyphSize(scale: real, width: nat, height: nat): (r: int)
    ensures scale == 0.0 ==> 0 <= r <= 28
    ensures scale != 0.0 ==> -0.5 <= scale - r as real <= 0.5
    ensures scale != 0.0 && (scale - r as real == 0.5 || r as real - scale == 0.5) ==> r % 2 == 0
  {
    if scale == 0.0 then
      RoundHalfEvenOfInt(AutoSize(width, height));
      RoundHalfEven(AutoSize(width, height) as real)
    else RoundHalfEven(scale)
  }

  /** With scale 0 the result is exactly the automatic size (the rounding does nothing). */
  lemma GlyphSizeAuto(width: nat, height: nat)
    ensures GlyphSize(0.0, width, height) == AutoSize(width, height)
  {
    RoundHalfEvenOfInt(AutoSize(width, height));
  }

  /**
   * Shape-correction width: `Convert.ToInt32(width * (1 + 0.03 * size))`, the
   * rounded value before the 32-bit range check (`Conversion.FrameWidth` fails
   * with Overflow outside that range).
   */
  function CorrectedWidth(width: nat, size: int): (r: int)
    ensures -0.5 <= width as real * (1.0 + 0.03 * size as real) - r as real <= 0.5
    ensures size >= 0 ==> r >= width
  {
    var x := width as real * (1.0 + 0.03 * size as real);
    assert size >= 0 ==> x >= width as real;
    RoundHalfEven(x)
  }

  /** A threshold other than 0 is divided by 10 before any comparison. */
  function ScaleThreshold(threshold: real): (r: real)
    ensures r * 10.0 == threshold
    ensures (r == 0.0) == (threshold == 0.0)
  {
    if threshold != 0.0 then threshold / 10.0 else threshold
  }

  predicate IsDecimalDigit(c: char) {
    '0' <= c <= '9'
  }

  /** Decimal digits of a natural number, most significant first, no leading zeros. */
  function Digits(n: nat): (s: string)
    ensures |s| > 0 && forall k :: 0 <= k < |s| ==> IsDecimalDigit(s[k])
    ensures n > 0 ==> s[0] != '0'
  {
    if n < 10 then [('0' as int + n) as char]
    else Digits(n / 10) + [('0' as int + n % 10) as char]
  }

  /** The number a string of decimal digits denotes. */
  function DigitsValue(s: string): nat
    requires forall k :: 0 <= k < |s| ==> IsDecimalDigit(s[k])
  {
    if s == [] then 0
    else
      assert IsDecimalDigit(s[|s| - 1]);
      10 * DigitsValue(s[..|s| - 1]) + (s[|s| - 1] as int - '0' as int)
  }

  /** Reading the digits back gives the number. */
  lemma {:induction false} DigitsRoundTrip(n: nat)
    ensures DigitsValue(Digits(n)) == n
  {
    if n >= 10 {
      DigitsRoundTrip(n / 10);
      var s := Digits(n);
      assert s[..|s| - 1] == Digits(n / 10);
    }
  }

  /** How the glyph size appears in `<size=N%>`: an optional minus sign, then its digits. */
  function Decimal(n: int): (s: string)
    ensures |s| > 0
    ensures forall k :: 0 <= k < |s| ==> IsDecimalDigit(s[k]) || s[k] == '-'
  {
    if n < 0 then "-" + Digits(-n) else Digits(n)
  }

  /** Decimal is injective: the value can be read back from its text. */
  lemma DecimalRoundTrip(n: int)
    ensures Decimal(n)[0] == '-' <==> n < 0
    ensures n < 0 ==> DigitsValue(Decimal(n)[1..]) == -n
    ensures n >= 0 ==> DigitsValue(Decimal(n)) == n
  {
    if n < 0 {
      DigitsRoundTrip(-n);
      assert Decimal(n)[1..] == Digits(-n);
    } else {
      DigitsRoundTrip(n);
    }
  }
}
