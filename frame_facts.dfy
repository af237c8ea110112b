/**
 * Properties of a whole frame's markup: where the closing tags go, how many
 * glyphs, row ends and tags the text holds, and how the colour runs of the
 * text relate to the pixels and to the grid as the encoder leaves it.
 */
module FrameFacts {
  import opened Outcomes
  import opened Seqs
  import opened Pixels
  import opened Sizing
  import opened Arith
  import opened Markup
  import opened Encoding
  import opened EncodingFacts

  /** A string does not end with a suffix when some character from the end differs. */
  lemma NotEndsWith(s: string, suffix: string, k: nat)
    requires 1 <= k <= |suffix|
    requires k <= |s| ==> s[|s| - k] != suffix[|suffix| - k]
    ensures !EndsWith(s, suffix)
  {
    if |suffix| <= |s| {
      assert s[|s| - |suffix|..][|suffix| - k] == s[|s| - k];
    }
  }

  /** The text of a nonempty token sequence ends with its last token's text. */
  lemma RenderLast(ts: seq<Token>)
    requires |ts| > 0
    ensures Render(ts) == Render(ts[..|ts| - 1]) + TokenText(ts[|ts| - 1])
  {
    assert ts == ts[..|ts| - 1] + [ts[|ts| - 1]];
    RenderConcat(ts[..|ts| - 1], [ts[|ts| - 1]]);
    RenderOne(ts[|ts| - 1]);
  }

  /** The text of a well-nested token sequence ends with a glyph, or with a glyph and a row end. */
  lemma RenderEnd(ts: seq<Token>)
    requires TagShape(ts) && |ts| > 0 && ts[|ts| - 1] in {Glyph, NewLine}
    ensures var r := Render(ts);
      && (ts[|ts| - 1] == Glyph ==> |r| >= 1 && r[|r| - 1] == '█')
      && (ts[|ts| - 1] == NewLine ==> |r| >= 3 && r[|r| - 3] == '█' && r[|r| - 2] == '\\' && r[|r| - 1] == 'n')
  {
    RenderLast(ts);
    if ts[|ts| - 1] == NewLine {
      var init := ts[..|ts| - 1];
      assert init[|init| - 1] == ts[|ts| - 2] == Glyph;
      RenderLast(init);
    }
  }

  /** What the last three characters must rule out for neither closing suffix to match. */
  lemma NotClosed(s: string)
    requires |s| >= 1
    requires s[|s| - 1] != '>' || (|s| >= 2 && s[|s| - 2] != 'r')
    requires s[|s| - 1] != 'n' || (|s| >= 3 && s[|s| - 3] != '>')
    ensures !EndsWith(s, "</color>\\n") && !EndsWith(s, "</color>")
  {
    if s[|s| - 1] == 'n' {
      NotEndsWith(s, "</color>\\n", 3);
    } else {
      NotEndsWith(s, "</color>\\n", 1);
    }
    if s[|s| - 1] == '>' {
      NotEndsWith(s, "</color>", 2);
    } else {
      NotEndsWith(s, "</color>", 1);
    }
  }

  /** The size tag ends with `%>`. */
  lemma SizeOpenEnd(size: int)
    ensures var s := SizeOpen(size); |s| >= 2 && s[|s| - 2] == '%' && s[|s| - 1] == '>'
  {
    var d := Decimal(size);
    assert SizeOpen(size) == "<size=" + d + "%>";
  }

  /** The last characters of x + r are those of r. */
  lemma LastChars(x: string, r: string, k: nat)
    requires 1 <= k <= |r|
    ensures (x + r)[|x + r| - k] == r[|r| - k]
  {
  }

  /** Text ending with a well-nested token sequence ends with a glyph, or with a glyph and a row end. */
  lemma LastTokenChars(x: string, ts: seq<Token>)
    requires TagShape(ts) && |ts| > 0 && ts[|ts| - 1] in {Glyph, NewLine}
    ensures var b := x + Render(ts);
      |b| >= 1 && (b[|b| - 1] == '█' || (|b| >= 3 && b[|b| - 3] == '█' && b[|b| - 1] == 'n'))
  {
    RenderEnd(ts);
    var r := Render(ts);
    LastChars(x, r, 1);
    if ts[|ts| - 1] == NewLine {
      LastChars(x, r, 3);
    }
  }

  /** A nonempty grid's body ends with a glyph, or with a glyph and a row end. */
  lemma NonEmptyBodyEnd(size: int, px: seq<Pixel>, w: nat, hue: Pixel -> real, thr: real)
    requires |px| > 0
    ensures var b := Body(size, px, w, hue, thr);
      |b| >= 1 && (b[|b| - 1] == '█' || (|b| >= 3 && b[|b| - 3] == '█' && b[|b| - 1] == 'n'))
  {
    ScanTagShape(px, w, hue, thr, |px|);
    LastTokenChars(SizeOpen(size), Scan(px, w, hue, thr, |px|).toks);
  }

  /** An empty grid's body is the size tag alone. */
  lemma EmptyBody(size: int, px: seq<Pixel>, w: nat, hue: Pixel -> real, thr: real)
    requires |px| == 0
    ensures Body(size, px, w, hue, thr) == SizeOpen(size)
  {
    assert Render(Scan(px, w, hue, thr, |px|).toks) == [];
  }

  /** The closing-tag test never finds a `</color>` at the end of the body. */
  lemma BodyNotClosed(size: int, px: seq<Pixel>, w: nat, hue: Pixel -> real, thr: real)
    ensures var body := Body(size, px, w, hue, thr);
      !EndsWith(body, "</color>\\n") && !EndsWith(body, "</color>")
  {
    if |px| == 0 {
      EmptyBody(size, px, w, hue, thr);
      SizeOpenEnd(size);
    } else {
      NonEmptyBodyEnd(size, px, w, hue, thr);
    }
    NotClosed(Body(size, px, w, hue, thr));
  }

  /**
   * The final `</color>` is always appended: it comes after the last row
   * end, and only `</size>` follows it.
   */
  lemma ClosingTag(size: int, px: seq<Pixel>, w: nat, hue: Pixel -> real, thr: real)
    ensures FrameText(size, px, w, hue, thr) == Body(size, px, w, hue, thr) + "</color>" + SizeClose
  {
    BodyNotClosed(size, px, w, hue, thr);
  }

  /** In a full grid the last token is the last row's end. */
  lemma LastRowEnd(px: seq<Pixel>, w: nat, h: nat, hue: Pixel -> real, thr: real)
    requires w > 0 && h > 0 && |px| == h * w
    ensures var ts := Scan(px, w, hue, thr, |px|).toks;
      TagShape(ts) && |ts| > 0 && ts[|ts| - 1] == NewLine
  {
    MulMono(1, h, w);
    RowsOfFullGrid(h, w);
    assert EndsRow(|px|, w);
    ScanNext(px, w, hue, thr, |px| - 1, |px|);
    StepNewLine(Scan(px, w, hue, thr, |px| - 1), px[|px| - 1], |px| - 1 == 0, hue, thr);
    ScanTagShape(px, w, hue, thr, |px|);
  }

  /** A text that ends with a glyph and a row end, followed by both closing tags. */
  lemma EndAfterRowEnd(body: string, t: string)
    requires |body| >= 3 && body[|body| - 3] == '█' && body[|body| - 2] == '\\' && body[|body| - 1] == 'n'
    requires t == body + "</color>" + SizeClose
    ensures && |t| >= 18
      && t[|t| - 18] == '█' && t[|t| - 17] == '\\' && t[|t| - 16] == 'n'
      && t[|t| - 15..|t| - 7] == "</color>"
      && t[|t| - 7..] == SizeClose
  {
    assert t[|t| - 18..|t| - 15] == body[|body| - 3..];
  }

  /** Text ending with a row end token ends with a glyph, a backslash and `n`. */
  lemma RowEndChars(x: string, ts: seq<Token>)
    requires TagShape(ts) && |ts| > 0 && ts[|ts| - 1] == NewLine
    ensures var b := x + Render(ts);
      |b| >= 3 && b[|b| - 3] == '█' && b[|b| - 2] == '\\' && b[|b| - 1] == 'n'
  {
    RenderEnd(ts);
    var r := Render(ts);
    LastChars(x, r, 1);
    LastChars(x, r, 2);
    LastChars(x, r, 3);
  }

  /** A full grid's body ends with the last glyph and its row end. */
  lemma BodyEnd(size: int, px: seq<Pixel>, w: nat, h: nat, hue: Pixel -> real, thr: real)
    requires w > 0 && h > 0 && |px| == h * w
    ensures var b := Body(size, px, w, hue, thr);
      |b| >= 3 && b[|b| - 3] == '█' && b[|b| - 2] == '\\' && b[|b| - 1] == 'n'
  {
    LastRowEnd(px, w, h, hue, thr);
    RowEndChars(SizeOpen(size), Scan(px, w, hue, thr, |px|).toks);
  }

  /**
   * A full grid's frame ends with the last glyph and its row end, then
   * `</color>`, then `</size>`.
   */
  lemma FrameEnd(size: int, px: seq<Pixel>, w: nat, h: nat, hue: Pixel -> real, thr: real)
    requires w > 0 && h > 0 && |px| == h * w
    ensures var t := FrameText(size, px, w, hue, thr);
      && |t| >= 18
      && t[|t| - 18] == '█' && t[|t| - 17] == '\\' && t[|t| - 16] == 'n'
      && t[|t| - 15..|t| - 7] == "</color>"
      && t[|t| - 7..] == SizeClose
  {
    ClosingTag(size, px, w, hue, thr);
    BodyEnd(size, px, w, h, hue, thr);
    EndAfterRowEnd(Body(size, px, w, hue, thr), FrameText(size, px, w, hue, thr));
  }

  /** The size tag holds none of the marker characters. */
  lemma SizeOpenUnmarked(size: int)
    ensures NoMarkers(SizeOpen(size))
  {
    var d := Decimal(size);
    var s := SizeOpen(size);
    var pre, post := "<size=", "%>";
    assert s == pre + d + post;
    forall k | 0 <= k < |s|
      ensures !IsMarker(s[k])
    {
      if k < |pre| {
        assert s[k] == pre[k];
      } else if k < |pre| + |d| {
        assert s[k] == d[k - |pre|];
      } else {
        assert s[k] == post[k - |pre| - |d|];
      }
    }
  }

  /** `</size>` holds one `/` and no other marker. */
  lemma SizeCloseCounts()
    ensures Count(SizeClose, '█') == 0 && Count(SizeClose, '\\') == 0
    ensures Count(SizeClose, '#') == 0 && Count(SizeClose, '/') == 1
  {
    var pre, post := "<", "size>";
    assert NoMarkers(pre) && NoMarkers(post);
    assert SizeClose == pre + ['/'] + post;
    MarkerCounts(SizeClose, pre, '/', post);
  }

  /** A character's occurrences in a frame, piece by piece. */
  lemma FrameCharCount(size: int, px: seq<Pixel>, w: nat, hue: Pixel -> real, thr: real, c: char)
    ensures Count(FrameText(size, px, w, hue, thr), c)
         == Count(SizeOpen(size), c) + Count(Render(Scan(px, w, hue, thr, |px|).toks), c)
          + Count(TokenText(Close), c) + Count(SizeClose, c)
  {
    ClosingTag(size, px, w, hue, thr);
    var a, r, b := SizeOpen(size), Render(Scan(px, w, hue, thr, |px|).toks), TokenText(Close);
    assert FrameText(size, px, w, hue, thr) == a + r + b + SizeClose;
    CountConcat(a + r + b, SizeClose, c);
    CountConcat(a + r, b, c);
    CountConcat(a, r, c);
  }

  /** Outside the rendered tokens, a frame holds only the two `/` of the closing tags among the markers. */
  lemma FrameMarkerCount(size: int, px: seq<Pixel>, w: nat, hue: Pixel -> real, thr: real, c: char)
    requires IsMarker(c)
    ensures Count(FrameText(size, px, w, hue, thr), c)
         == Count(Render(Scan(px, w, hue, thr, |px|).toks), c) + (if c == '/' then 2 else 0)
  {
    FrameCharCount(size, px, w, hue, thr, c);
    SizeOpenUnmarked(size);
    UnmarkedCounts(SizeOpen(size));
    CloseTextCounts();
    SizeCloseCounts();
  }

  /**
   * A frame of a grid w cells wide holds one glyph per pixel, one row end
   * per completed row, one `#` per colour tag, and one `/` per close: one
   * fewer closes than tags inside the body, then the final `</color>` and
   * `</size>` (an empty grid has no tag, yet still gets both).
   */
  lemma FrameCounts(size: int, px: seq<Pixel>, w: nat, hue: Pixel -> real, thr: real)
    requires w > 0
    ensures var t := FrameText(size, px, w, hue, thr);
      var opens := Opens(Scan(px, w, hue, thr, |px|).toks);
      && Count(t, '█') == |px|
      && Count(t, '\\') == |px| / w
      && Count(t, '#') == opens
      && Count(t, '/') == opens + (if |px| > 0 then 1 else 2)
  {
    FrameMarkerCount(size, px, w, hue, thr, '█');
    FrameMarkerCount(size, px, w, hue, thr, '\\');
    FrameMarkerCount(size, px, w, hue, thr, '#');
    FrameMarkerCount(size, px, w, hue, thr, '/');
    RenderCounts(Scan(px, w, hue, thr, |px|).toks);
    ScanCounts(px, w, hue, thr, |px|);
  }

  /**
   * A frame of h rows of w pixels shows h * w glyphs and h row ends, and
   * when it has a row, one more `/` than `#`: every tag is closed and
   * `</size>` adds one.
   */
  lemma GridCounts(size: int, px: seq<Pixel>, w: nat, h: nat, hue: Pixel -> real, thr: real)
    requires w > 0 && h > 0 && |px| == h * w
    ensures var t := FrameText(size, px, w, hue, thr);
      && Count(t, '█') == h * w
      && Count(t, '\\') == h
      && Count(t, '/') == Count(t, '#') + 1
  {
    FrameCounts(size, px, w, hue, thr);
    RowsOfFullGrid(h, w);
    MulMono(1, h, w);
  }
}
