/**
 * Two concrete frames: a 2 x 1 red frame written out in full, and a row of
 * four pixels on which a larger threshold gives more colour tags, not fewer.
 */
module Instances {
  import opened Outcomes
  import opened Pixels
  import opened Sizing
  import opened Markup
  import opened Encoding
  import opened FrameFacts
  import opened MergeFacts

  const Red: Pixel := Pixel(255, 0, 0, 255)

  lemma RedColorString()
    ensures ColorString(Red) == "#FF0000FF"
  {
    assert HexDigit(15) == 'F' && HexDigit(0) == '0';
    assert Hex2(255) == "FF";
    assert Hex2(0) == "00";
  }

  lemma SizeOpenTen()
    ensures SizeOpen(10) == "<size=10%>"
  {
    assert Digits(1) == "1";
    assert Digits(10) == "10";
  }

  /** Two equal pixels in one row: one tag, two glyphs, one row end, whatever the threshold. */
  lemma RedRowTokens(hue: Pixel -> real, thr: real)
    ensures Scan([Red, Red], 2, hue, thr, 2).toks == [Open(Red), Glyph, Glyph, NewLine]
  {
    var px := [Red, Red];
    assert Scan(px, 2, hue, thr, 1) == ScanState(Some(Red), [Open(Red), Glyph], [Red]);
    assert EndsRow(2, 2);
  }

  lemma RedRowText()
    ensures Render([Open(Red), Glyph, Glyph, NewLine]) == "<color=#FF0000FF>██\\n"
  {
    var open := [Open(Red)];
    var rest := [Glyph, Glyph, NewLine];
    assert [Open(Red), Glyph, Glyph, NewLine] == open + rest;
    RenderConcat(open, rest);
    RenderOne(Open(Red));
    RedColorString();
    assert rest == [Glyph] + [Glyph] + [NewLine];
    RenderConcat([Glyph] + [Glyph], [NewLine]);
    RenderConcat([Glyph], [Glyph]);
    RenderOne(Glyph);
    RenderOne(NewLine);
  }

  lemma RedMarkup()
    ensures "<size=10%>" + "<color=#FF0000FF>██\\n" + "</color>" + SizeClose
         == "<size=10%><color=#FF0000FF>██\\n</color></size>"
  {
  }

  lemma RedFrameText(hue: Pixel -> real, thr: real)
    ensures FrameText(10, [Red, Red], 2, hue, thr) == "<size=10%><color=#FF0000FF>██\\n</color></size>"
  {
    ClosingTag(10, [Red, Red], 2, hue, thr);
    RedRowTokens(hue, thr);
    RedRowText();
    SizeOpenTen();
    RedMarkup();
  }

  /** A 2 x 1 red frame at size 10, with any threshold, is exactly this markup. */
  lemma RedFrame(hue: Pixel -> real, thr: real)
    ensures Encode(10, [Red, Red], 2, hue, thr) == Ok("<size=10%><color=#FF0000FF>██\\n</color></size>")
  {
    RedFrameText(hue, thr);
  }

  /** An opaque pixel with full red, no blue, and green g: an orange between red and yellow. */
  function Warm(g: Byte): Pixel {
    Pixel(255, g, 0, 255)
  }

  /**
   * The HSV hue of a pixel whose largest channel is red and whose smallest
   * is blue: 60 * (g - b) / (r - b). For the Warm pixels this is 60 * g / 255.
   */
  function WarmHue(p: Pixel): real {
    if p.r > p.b then 60.0 * (p.g as real - p.b as real) / (p.r as real - p.b as real) else 0.0
  }

  /** Four pixels in one row with hues 0, about 7.06, about 11.06 and about 2.12. */
  const Row: seq<Pixel> := [Warm(0), Warm(30), Warm(47), Warm(9)]

  /** At scaled threshold 5 the last two pixels merge into the second: two runs. */
  lemma RowAtFive()
    ensures Scan(Row, 4, WarmHue, 5.0, 4).cells == [Warm(0), Warm(30), Warm(30), Warm(30)]
  {
    var s1 := Scan(Row, 4, WarmHue, 5.0, 1);
    assert s1.cells == [Warm(0)];
    var s2 := Scan(Row, 4, WarmHue, 5.0, 2);
    assert s2.cells == [Warm(0), Warm(30)];
    var s3 := Scan(Row, 4, WarmHue, 5.0, 3);
    assert s3.cells == [Warm(0), Warm(30), Warm(30)];
  }

  /** At scaled threshold 8 the second pixel merges into the first, the others open tags: three runs. */
  lemma RowAtEight()
    ensures Scan(Row, 4, WarmHue, 8.0, 4).cells == [Warm(0), Warm(0), Warm(47), Warm(9)]
  {
    var s1 := Scan(Row, 4, WarmHue, 8.0, 1);
    assert s1.cells == [Warm(0)];
    var s2 := Scan(Row, 4, WarmHue, 8.0, 2);
    assert s2.cells == [Warm(0), Warm(0)];
    var s3 := Scan(Row, 4, WarmHue, 8.0, 3);
    assert s3.cells == [Warm(0), Warm(0), Warm(47)];
  }

  /** Four cells with the runs a | b b b: two runs. */
  lemma TwoRuns(a: Pixel, b: Pixel)
    requires a != b
    ensures RunStarts([a, b, b, b]) == 2
  {
    RunStartsAppend([], a);
    assert [] + [a] == [a];
    RunStartsAppend([a], b);
    assert [a] + [b] == [a, b];
    RunStartsAppend([a, b], b);
    assert [a, b] + [b] == [a, b, b];
    RunStartsAppend([a, b, b], b);
    assert [a, b, b] + [b] == [a, b, b, b];
  }

  /** Four cells with the runs a a | c | d: three runs. */
  lemma ThreeRuns(a: Pixel, c: Pixel, d: Pixel)
    requires a != c && c != d
    ensures RunStarts([a, a, c, d]) == 3
  {
    RunStartsAppend([], a);
    assert [] + [a] == [a];
    RunStartsAppend([a], a);
    assert [a] + [a] == [a, a];
    RunStartsAppend([a, a], c);
    assert [a, a] + [c] == [a, a, c];
    RunStartsAppend([a, a, c], d);
    assert [a, a, c] + [d] == [a, a, c, d];
  }

  /**
   * Raising the threshold does not always reduce the number of colour tags:
   * on Row, a threshold of 50 (scaled to 5) gives two tags and 80 (scaled
   * to 8) gives three.
   */
  lemma ThresholdNotMonotone()
    ensures Opens(Scan(Row, 4, WarmHue, ScaleThreshold(50.0), 4).toks) == 2
    ensures Opens(Scan(Row, 4, WarmHue, ScaleThreshold(80.0), 4).toks) == 3
  {
    assert ScaleThreshold(50.0) == 5.0 && ScaleThreshold(80.0) == 8.0;
    RowAtFive();
    TagsAreRuns(Row, 4, WarmHue, 5.0);
    TwoRuns(Warm(0), Warm(30));
    RowAtEight();
    TagsAreRuns(Row, 4, WarmHue, 8.0);
    ThreeRuns(Warm(0), Warm(47), Warm(9));
  }
}
