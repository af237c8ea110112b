/**
 * The raster encoder: one frame's pixel grid becomes one markup string
 * `<size=N%><color=#RRGGBBAA>█…\n…</color></size>`, while pixels merged into a
 * colour run are overwritten in the grid.
 *
 * The encoder is specified by Scan, a function over the frame's pixels in
 * raster order that gives the markup tokens emitted so far, the `pastPixel`
 * cursor and the (possibly merged) values of the cells scanned so far.
 * EncodeBitmap is the double loop over the grid, proved to produce
 * exactly Encode of the grid's original raster.
 */
module Encoding {
  import opened Outcomes
  import opened Pixels
  import opened Sizing
  import opened Arith
  import opened Markup
  import opened Seqs

  /** No frame's markup may be longer than this. */
  const MaxTextLength: nat := 32768

  /** The circular distance between two hue angles (degrees). */
  function HueDistance(h1: real, h2: real): (r: real)
    ensures 0.0 <= h1 < 360.0 && 0.0 <= h2 < 360.0 ==> 0.0 <= r <= 180.0
  {
    var d := if h1 >= h2 then h1 - h2 else h2 - h1;
    if d > 180.0 then 360.0 - d else d
  }

  /** The encoder's state after a prefix of the raster. */
  datatype ScanState = ScanState(
    past: Option<Pixel>,   // `pastPixel`; None is the sentinel no pixel equals
    toks: seq<Token>,      // what has been appended after `<size=N%>`
    cells: seq<Pixel>)     // the scanned cells as the grid now holds them

  /**
   * One cell of the scan: p is the cell's pixel, `first` says it is cell (0, 0),
   * `eol` that it is in the last column. `thr` is the already scaled threshold.
   */
  function Step(s: ScanState, p: Pixel, first: bool, eol: bool, hue: Pixel -> real, thr: real): (r: ScanState)
    requires !first ==> s.past.Some?
    ensures |r.cells| == |s.cells| + 1 && |r.toks| > |s.toks|
  {
    var s' :=
      if s.past == Some(p) then
        ScanState(s.past, s.toks + [Glyph], s.cells + [p])
      else if thr == 0.0 || first then
        ScanState(Some(p), s.toks + (if first then [] else [Close]) + [Open(p), Glyph], s.cells + [p])
      else if HueDistance(hue(p), hue(s.past.value)) > thr then
        ScanState(Some(p), s.toks + [Close, Open(p), Glyph], s.cells + [p])
      else
        // merged: the cell takes the cursor's colour and the run goes on
        ScanState(s.past, s.toks + [Glyph], s.cells + [s.past.value]);
    if eol then s'.(toks := s'.toks + [NewLine]) else s'
  }

  /** Whether the n-th cell in raster order is the last of a row w cells wide. */
  predicate EndsRow(n: nat, w: nat) {
    w > 0 && n % w == 0
  }

  /** The state after the first n cells of the raster px of a grid w cells wide. */
  function Scan(px: seq<Pixel>, w: nat, hue: Pixel -> real, thr: real, n: nat): (s: ScanState)
    requires n <= |px|
    ensures |s.cells| == n
    ensures s.past.Some? <==> n > 0
    ensures n > 0 ==> s.past == Some(s.cells[n - 1])
  {
    if n == 0 then ScanState(None, [], [])
    else Step(Scan(px, w, hue, thr, n - 1), px[n - 1], n == 1, EndsRow(n, w), hue, thr)
  }

  /**
   * Scanning one more cell is one Step. The successor count is passed as
   * `next` so that callers' terms match Scan(…, next) syntactically, which
   * keeps the prover from having to equate n + 1 with it.
   */
  lemma ScanNext(px: seq<Pixel>, w: nat, hue: Pixel -> real, thr: real, n: nat, next: nat)
    requires next == n + 1 <= |px|
    ensures Scan(px, w, hue, thr, next) == Step(Scan(px, w, hue, thr, n), px[n], n == 0, EndsRow(next, w), hue, thr)
  {
  }

  /** At the end of a row, Step appends a NewLine token and changes nothing else. */
  lemma StepNewLine(s: ScanState, p: Pixel, first: bool, hue: Pixel -> real, thr: real)
    requires !first ==> s.past.Some?
    ensures Step(s, p, first, true, hue, thr).toks == Step(s, p, first, false, hue, thr).toks + [NewLine]
    ensures Step(s, p, first, true, hue, thr).past == Step(s, p, first, false, hue, thr).past
    ensures Step(s, p, first, true, hue, thr).cells == Step(s, p, first, false, hue, thr).cells
  {
  }

  /** The opening size tag. */
  function SizeOpen(size: int): (r: string)
    ensures |r| == |Decimal(size)| + 8
    ensures forall k :: 0 <= k < |Decimal(size)| ==> r[6 + k] == Decimal(size)[k]
  {
    "<size=" + Decimal(size) + "%>"
  }

  const SizeClose: string := "</size>"

  function EndsWith(s: string, suffix: string): bool {
    |suffix| <= |s| && s[|s| - |suffix|..] == suffix
  }

  /** The frame's markup before the closing tags: the size tag, then the scan's tokens. */
  function Body(size: int, px: seq<Pixel>, w: nat, hue: Pixel -> real, thr: real): string {
    SizeOpen(size) + Render(Scan(px, w, hue, thr, |px|).toks)
  }

  /** The frame's markup before the length guard: scan, close the last tag if needed, close the size tag. */
  function FrameText(size: int, px: seq<Pixel>, w: nat, hue: Pixel -> real, thr: real): (r: string)
    ensures |r| >= |Body(size, px, w, hue, thr)| + |SizeClose|
  {
    var body := Body(size, px, w, hue, thr);
    var closed :=
      if !EndsWith(body, "</color>\\n") && !EndsWith(body, "</color>") then body + "</color>" else body;
    closed + SizeClose
  }

  /** One frame's result: its markup, or OutputTooLarge when that exceeds the limit. */
  function Encode(size: int, px: seq<Pixel>, w: nat, hue: Pixel -> real, thr: real): (r: Result<string>)
    ensures r.Ok? <==> |FrameText(size, px, w, hue, thr)| <= MaxTextLength
    ensures r.Ok? ==> r.value == FrameText(size, px, w, hue, thr) && |r.value| <= MaxTextLength
    ensures r.Err? ==> r.error == OutputTooLarge
  {
    var text := FrameText(size, px, w, hue, thr);
    if |text| > MaxTextLength then Err(OutputTooLarge) else Ok(text)
  }

  /** The cell at flat raster index k: row k / width, column k % width. */
  ghost function CellAt(a: array2<Pixel>, k: nat): Pixel
    requires k < a.Length0 * a.Length1
    reads a
  {
    RowOfIndex(k, a.Length0, a.Length1);
    a[k / a.Length1, k % a.Length1]
  }

  /** The grid in raster order: left to right, then top to bottom. */
  ghost function Raster(a: array2<Pixel>): (s: seq<Pixel>)
    reads a
    ensures |s| == a.Length0 * a.Length1
  {
    seq(a.Length0 * a.Length1, k requires 0 <= k < a.Length0 * a.Length1 reads a => CellAt(a, k))
  }

  /** Writing one cell changes the raster at that cell's index only. */
  method WriteCell(a: array2<Pixel>, i: nat, j: nat, v: Pixel)
    requires i < a.Length0 && j < a.Length1
    modifies a
    ensures i * a.Length1 + j < a.Length0 * a.Length1
    ensures Raster(a) == old(Raster(a))[i * a.Length1 + j := v]
  {
    IndexInGrid(i, j, a.Length0, a.Length1);
    ghost var before := Raster(a);
    a[i, j] := v;
    forall k | 0 <= k < |before|
      ensures Raster(a)[k] == (if k == i * a.Length1 + j then v else before[k])
    {
      CellOfIndex(k, i, j, a.Length0, a.Length1);
      assert Raster(a)[k] == CellAt(a, k);
      assert before[k] == old(CellAt(a, k));
    }
  }

  /**
   * The colour decision for cell (i, j), whose pixel is px[n]: append a glyph
   * to the run, open a new colour tag, or merge the pixel into the run by
   * overwriting it with the cursor colour. Returns the text and the cell's
   * (possibly merged) pixel, which becomes the new cursor.
   */
  method EmitPixel(
    bitmap: array2<Pixel>, hue: Pixel -> real, threshold: real,
    ghost px: seq<Pixel>, ghost n: nat, ghost s: ScanState, ghost head: string,
    i: nat, j: nat, text: string, pastPixel: Option<Pixel>)
    returns (text': string, pixel: Pixel, ghost mid: ScanState)
    requires i < bitmap.Length0 && j < bitmap.Length1 && n == i * bitmap.Length1 + j && n < |px|
    requires bitmap[i, j] == px[n]
    requires (i == 0 && j == 0) == (n == 0) && (n > 0 ==> s.past.Some?) && |s.cells| == n
    requires text == head + Render(s.toks) && pastPixel == s.past
    requires Raster(bitmap) == s.cells + px[n..]
    modifies bitmap
    ensures mid == Step(s, px[n], i == 0 && j == 0, false, hue, threshold)
    ensures text' == head + Render(mid.toks) && Some(pixel) == mid.past
    ensures Raster(bitmap) == mid.cells + px[n + 1..]
  {
    pixel := bitmap[i, j];
    assert Raster(bitmap) == (s.cells + [pixel]) + px[n + 1..] by {
      assert px[n..] == [pixel] + px[n + 1..];
    }
    var colorString := ColorString(pixel);
    var first := i == 0 && j == 0;
    if Some(pixel) != pastPixel {
      if threshold == 0.0 || first {
        var run := (if first then "" else "</color>") + "<color=" + colorString + ">█";
        ghost var more := (if first then [] else [Close]) + [Open(pixel), Glyph];
        mid := ScanState(Some(pixel), s.toks + more, s.cells + [pixel]);
        assert text + run == head + Render(mid.toks) by {
          RenderOpenRun(first, pixel);
          AppendRendered(head, s.toks, more, run);
        }
        text' := text + run;
      } else {
        var d := if hue(pixel) >= hue(pastPixel.value) then hue(pixel) - hue(pastPixel.value)
                 else hue(pastPixel.value) - hue(pixel);
        var diff := if d > 180.0 then 360.0 - d else d;
        assert diff == HueDistance(hue(pixel), hue(s.past.value));
        if diff > threshold {
          var run := (if first then "" else "</color>") + "<color=" + colorString + ">█";
          mid := ScanState(Some(pixel), s.toks + [Close, Open(pixel), Glyph], s.cells + [pixel]);
          assert text + run == head + Render(mid.toks) by {
            RenderOpenRun(first, pixel);
            assert [Close] + [Open(pixel), Glyph] == [Close, Open(pixel), Glyph];
            AppendRendered(head, s.toks, [Close, Open(pixel), Glyph], run);
          }
          text' := text + run;
        } else {
          mid := ScanState(s.past, s.toks + [Glyph], s.cells + [s.past.value]);
          WriteCell(bitmap, i, j, pastPixel.value);
          assert Raster(bitmap) == mid.cells + px[n + 1..] by {
            assert Raster(bitmap) == (s.cells + px[n..])[n := pastPixel.value];
            UpdateAfterPrefix(s.cells, px[n..], pastPixel.value);
            assert px[n..][1..] == px[n + 1..];
          }
          pixel := pastPixel.value;
          assert text + "█" == head + Render(mid.toks) by {
            RenderOne(Glyph);
            AppendRendered(head, s.toks, [Glyph], "█");
          }
          text' := text + "█";
        }
      }
    } else {
      mid := ScanState(s.past, s.toks + [Glyph], s.cells + [pixel]);
      assert text + "█" == head + Render(mid.toks) by {
        RenderOne(Glyph);
        AppendRendered(head, s.toks, [Glyph], "█");
      }
      text' := text + "█";
    }
  }

  /**
   * One cell (i, j) of the encoder loop, the n-th in raster order: the colour
   * decision, the cursor update, and the newline token after the last column.
   */
  method ScanCell(
    bitmap: array2<Pixel>, hue: Pixel -> real, threshold: real,
    // `next` (== n + 1) only names the successor count, so that the prover matches Scan(…, next) as is
    ghost px: seq<Pixel>, ghost n: nat, ghost next: nat, ghost s: ScanState, ghost head: string,
    i: nat, j: nat, text: string, pastPixel: Option<Pixel>)
    returns (text': string, pastPixel': Option<Pixel>, ghost s': ScanState)
    requires i < bitmap.Length0 && j < bitmap.Length1 && n == i * bitmap.Length1 + j && next == n + 1 && n <= |px|
    requires s == Scan(px, bitmap.Length1, hue, threshold, n)
    requires text == head + Render(s.toks) && pastPixel == s.past
    requires Raster(bitmap) == s.cells + px[n..]
    modifies bitmap
    ensures next <= |px| && s' == Scan(px, bitmap.Length1, hue, threshold, next)
    ensures text' == head + Render(s'.toks) && pastPixel' == s'.past
    ensures Raster(bitmap) == s'.cells + px[next..]
  {
    var width := bitmap.Length1;
    CellPosition(n, next, i, j, bitmap.Length0, width);
    assert Raster(bitmap)[n] == CellAt(bitmap, n) == bitmap[i, j];
    var pixel;
    ghost var mid;
    text', pixel, mid := EmitPixel(bitmap, hue, threshold, px, n, s, head, i, j, text, pastPixel);
    pastPixel' := Some(pixel);
    s' := Step(s, px[n], n == 0, EndsRow(next, width), hue, threshold);
    ScanNext(px, width, hue, threshold, n, next);
    if j == width - 1 {
      RenderOne(NewLine);
      AppendRendered(head, mid.toks, [NewLine], "\\n");
      text' := text' + "\\n";
      StepNewLine(s, px[n], n == 0, hue, threshold);
    }
  }

  /** One row i of the encoder loop, columns left to right; n = i * width cells precede it. */
  method EncodeRow(
    bitmap: array2<Pixel>, hue: Pixel -> real, threshold: real,
    // `next` (== n + width) only names the count after the row, so that the prover matches Scan(…, next) as is
    ghost px: seq<Pixel>, ghost n: nat, ghost next: nat, ghost s: ScanState, ghost head: string,
    i: nat, text: string, pastPixel: Option<Pixel>)
    returns (text': string, pastPixel': Option<Pixel>, ghost s': ScanState)
    requires i < bitmap.Length0 && n == i * bitmap.Length1 && next == n + bitmap.Length1 && n <= |px|
    requires s == Scan(px, bitmap.Length1, hue, threshold, n)
    requires text == head + Render(s.toks) && pastPixel == s.past
    requires Raster(bitmap) == s.cells + px[n..]
    modifies bitmap
    ensures next <= |px| && s' == Scan(px, bitmap.Length1, hue, threshold, next)
    ensures text' == head + Render(s'.toks) && pastPixel' == s'.past
    ensures Raster(bitmap) == s'.cells + px[next..]
  {
    var width := bitmap.Length1;
    text', pastPixel', s' := text, pastPixel, s;
    var j := 0;
    ghost var m := n;
    while j < width
      invariant 0 <= j <= width && m == n + j && m <= |px|
      invariant s' == Scan(px, bitmap.Length1, hue, threshold, m)
      invariant text' == head + Render(s'.toks) && pastPixel' == s'.past
      invariant Raster(bitmap) == s'.cells + px[m..]
    {
      ghost var next := m + 1;
      text', pastPixel', s' := ScanCell(bitmap, hue, threshold, px, m, next, s', head, i, j, text', pastPixel');
      j, m := j + 1, next;
    }
  }

  /**
   * The encoder loop: rows top to bottom, columns left to right, appending to
   * the text and overwriting merged cells with the cursor colour. `threshold`
   * is the already scaled threshold; `hue` is the colour library's hue angle.
   */
  method EncodeBitmap(bitmap: array2<Pixel>, size: int, hue: Pixel -> real, threshold: real)
    returns (res: Result<string>)
    modifies bitmap
    ensures res == Encode(size, old(Raster(bitmap)), bitmap.Length1, hue, threshold)
    ensures Raster(bitmap)
         == Scan(old(Raster(bitmap)), bitmap.Length1, hue, threshold, bitmap.Length0 * bitmap.Length1).cells
  {
    ghost var px := Raster(bitmap);
    var height, width := bitmap.Length0, bitmap.Length1;
    ghost var head := SizeOpen(size);
    var text := SizeOpen(size);
    var pastPixel: Option<Pixel> := None;
    ghost var s := Scan(px, bitmap.Length1, hue, threshold, 0);
    assert px[0..] == px;
    ghost var n := 0;
    var i := 0;
    while i < height
      invariant 0 <= i <= height && n == i * width && n <= |px|
      invariant s == Scan(px, bitmap.Length1, hue, threshold, n)
      invariant text == head + Render(s.toks) && pastPixel == s.past
      invariant Raster(bitmap) == s.cells + px[n..]
    {
      ghost var next := n + width;
      text, pastPixel, s := EncodeRow(bitmap, hue, threshold, px, n, next, s, head, i, text, pastPixel);
      NextRow(i, width);
      n := next;
      i := i + 1;
    }
    assert n == |px| && px[|px|..] == [];
    if !EndsWith(text, "</color>\\n") && !EndsWith(text, "</color>") {
      text := text + "</color>";
    }
    text := text + SizeClose;
    if |text| > MaxTextLength {
      return Err(OutputTooLarge);
    }
    return Ok(text);
  }
}
