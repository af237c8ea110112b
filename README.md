# Image-to-text frame conversion, modelled in Dafny

This project models the core of the image-to-rich-text converter in
`Images/API.cs` (`_BitmapToText`). Each frame of an image becomes one
markup string of the form

    <size=N%><color=#RRGGBBAA>██…\n…</color>…</size>

The markup uses one block glyph per pixel, a backslash-`n` at the end of
every row, and a `<color=…>` tag for each run of pixels of one colour.
Neighbouring pixels whose hues lie within a threshold are merged into the
current run. A merged pixel is also overwritten in the bitmap. The model
covers these parts:

- **Per call** (`Conversion`):
  - The threshold is divided by 10.
  - The glyph size starts at 0.
  - At a frame that finds the size still 0, the size is computed behind the
    3000-pixel guard. A computed size of 0 is therefore computed again at
    the next frame.
  - When shape correction is on, each frame is resampled to the
    shape-corrected width `Convert.ToInt32(W * (1 + 0.03 * size))`, which
    rounds ties to even and throws (`Overflow`) outside the 32-bit range.
    Otherwise its width is unchanged.
- **Sizes and widths** (`Sizing`): the automatic size
  `floor(-0.47 * d + 28.72)`, where `d` is the integer average side,
  clamped to 45 above 60. Also the rounding, the threshold scaling and the
  decimal text of the size.
- **The raster encoder** (`Encoding`), specified by a function `Scan` over
  the pixels in raster order. `Encoding.EncodeBitmap` is the double loop
  over a mutable `array2`. It is proved to return exactly `Encode` of the
  bitmap's original raster, and to leave in the bitmap the cells `Scan`
  computes. It keeps the source's details:
  - the `pastPixel` cursor, whose initial value no pixel equals;
  - the first-cell rule;
  - the circular hue distance;
  - the closing-tag test;
  - `</size>`;
  - the 32768-character limit.
- **Properties** (`EncodingFacts`, `FrameFacts`, `MergeFacts`, `Instances`):
  - glyph, row-end, tag and close counts;
  - how tags nest;
  - where the closing tags go;
  - what merging does to the grid;
  - idempotence of encoding the merged grid;
  - tags as maximal runs;
  - two concrete frames.

The markup is described by tokens (`Markup.Token`: a close, a colour tag, a
glyph, a row end). `Markup.Render` produces the text.

Observations the proofs make precise:

- **The last row end comes before the final `</color>`.** The closing-tag
  test at line 157 never succeeds: the text before it always ends with a
  glyph, or with a glyph and `\n`. So `</color>` is always appended, after
  the last row end (`FrameFacts.ClosingTag`, `FrameFacts.FrameEnd`).
- **The threshold is not monotone.** Take one row of four orange pixels
  (255, G, 0) with G = 0, 30, 47, 9. Their HSV hues are 60·G/255: about
  0, 7.06, 11.06 and 2.12. A threshold of 50 (scaled to 5) gives two
  colour tags, and 80 (scaled to 8) gives three
  (`Instances.ThresholdNotMonotone`). Merging compares each pixel with the
  run's colour, not with its neighbour.
- **The automatic size is not monotone either.** An average side of 60
  gives size 0, and 61 gives 7 (`Sizing.AutoSize`). A size of 0 is never
  cached.

## Model

| member | source | states |
|---|---|---|
| Sizing.ScaleThreshold | Images/API.cs:95 | the scaled threshold times 10 is the given one; it is 0 exactly when the given one is 0 |
| Sizing.RoundHalfEven | Images/API.cs:108 | the result is within 1/2 of the input, and even when the input is exactly halfway |
| Sizing.RoundHalfEvenUnique | Images/API.cs:108 | any integer with those two properties is the rounded value (rounding is fully specified) |
| Sizing.AutoSize | Images/API.cs:108 | r is floor(-0.47 d + 28.72), with d the integer average side clamped to 45 above 60; r lies in 0..28; average above 60 gives 7; average exactly 60 gives 0 |
| Sizing.AutoSizeNonIncreasing | Images/API.cs:108 | up to the clamp, a larger average side never gives a larger automatic size |
| Sizing.GlyphSize | Images/API.cs:108 | scale 0 gives a size in 0..28; any other scale gives an integer within 1/2 of it, the even one when the scale is exactly halfway |
| Sizing.GlyphSizeAuto | Images/API.cs:108 | with scale 0 the size is exactly the automatic formula (the rounding does nothing) |
| Sizing.CorrectedWidth | Images/API.cs:112 | the rounded width is within 1/2 of W(1 + 0.03 size), and at least W when the size is not negative; the 32-bit range check is Conversion.FrameWidth's |
| Sizing.Decimal | Images/API.cs:115 | the size's text is nonempty and holds only decimal digits and `-`; Sizing.DecimalRoundTrip reads it back |
| Sizing.DecimalRoundTrip | Images/API.cs:115 | the size's decimal text starts with `-` exactly for negative sizes, and its digits read back as the size |
| Pixels.Hex2 | Images/API.cs:126 | two hex digits whose value is the channel |
| Pixels.ColorString | Images/API.cs:126 | the colour text is `#` and 8 characters |
| Pixels.ParseColorString | Images/API.cs:126 | parsing the colour text gives back the pixel (R, G, B, A in that order) |
| Pixels.ColorStringInjective | Images/API.cs:126 | different pixels get different colour texts |
| Encoding.HueDistance | Images/API.cs:133-134 | for hues in [0, 360), the circular distance lies in 0..180 |
| Encoding.Step | Images/API.cs:124-153 | the definition of one cell: the colour decision, the merge write, the cursor update and the row end; its contract says it adds one cell and at least one token; EncodingFacts.RunCounts, EncodingFacts.StepCounts and MergeFacts.StepCell state what it appends and writes |
| Encoding.Scan | Images/API.cs:117-154 | after n cells, n cells have been scanned and the cursor is the last scanned cell (none before the first) |
| Encoding.StepNewLine | Images/API.cs:153 | at the end of a row a row-end token is appended and nothing else changes |
| Encoding.SizeOpen | Images/API.cs:115 | the size tag is the size's decimal text plus 8 characters, with that text from position 6 on (after `<size=`) |
| Encoding.FrameText | Images/API.cs:157-159 | the definition of the closing test and closing tags; its contract says the frame is at least the body plus `</size>`; FrameFacts.ClosingTag and FrameFacts.FrameEnd state that `</color>` is always appended, followed only by `</size>` |
| Encoding.Encode | Images/API.cs:161 | the result is the frame text exactly when it has at most 32768 characters; otherwise it is OutputTooLarge |
| Encoding.WriteCell | Images/API.cs:139 | writing cell (i, j) changes the raster at index i*W + j only |
| Encoding.EmitPixel | Images/API.cs:124-151 | one colour decision appends the text of one Step, sets the cursor to the step's cursor, and leaves the grid as the step's cells followed by the unscanned pixels |
| Encoding.ScanCell | Images/API.cs:122-153 | one inner-loop iteration, including the row end, moves text, cursor and grid from Scan(n) to Scan(n + 1) |
| Encoding.EncodeRow | Images/API.cs:122-154 | one row moves text, cursor and grid from Scan(iW) to Scan(iW + W) |
| Encoding.EncodeBitmap | Images/API.cs:115-161 | the result is Encode of the bitmap's original raster, and the bitmap holds the scanned (merged) cells |
| EncodingFacts.RunCounts | Images/API.cs:128-149 | each pixel appends one glyph; a tag is opened exactly when the pixel is not the cursor and either threshold is 0, or it is the first cell, or the hue distance exceeds the threshold; a close comes with every tag except the first cell's |
| EncodingFacts.StepCounts | Images/API.cs:128-153 | one cell adds one glyph, a row end exactly at the last column, and its decision's tags and closes |
| EncodingFacts.ScanCounts | Images/API.cs:120-155 | after n cells of a W-wide grid: n glyphs, n / W row ends, and one more tag than closes when n > 0 |
| EncodingFacts.StepTagShape | Images/API.cs:128-153 | one cell keeps the tokens well nested and ends them with a glyph or a row end |
| EncodingFacts.ScanTagShape | Images/API.cs:117-155 | the tokens are always well nested: the first is the first pixel's tag; each later tag follows a close; a close follows a glyph or row end and precedes a tag; a tag precedes a glyph; a row end follows a glyph; the last is a glyph or a row end |
| Markup.TokenTextCounts | Images/API.cs:126-153 | a token's text holds one `█` if it is a glyph, one backslash if a row end, one `#` if a tag, one `/` if a close, and none otherwise |
| Markup.RenderCounts | Images/API.cs:130-153 | a rendered token sequence holds as many `█`, backslashes, `#` and `/` as it has glyphs, row ends, tags and closes |
| FrameFacts.BodyNotClosed | Images/API.cs:157 | neither closing suffix ever matches the text before the closing test |
| FrameFacts.ClosingTag | Images/API.cs:157-159 | the frame is always the size tag, the rendered tokens, `</color>` and `</size>` |
| FrameFacts.LastRowEnd | Images/API.cs:153 | in a full H x W grid the last token is a row end |
| FrameFacts.FrameEnd | Images/API.cs:153-159 | a full grid's frame ends with `█`, `\n`, `</color>`, `</size>` |
| FrameFacts.SizeCloseCounts | Images/API.cs:159 | `</size>` holds one `/` and no other marker character |
| FrameFacts.FrameCounts | Images/API.cs:115-159 | a frame holds one `█` per pixel, one backslash per completed row, one `#` per tag, and one `/` per close plus the final two (two extra for an empty grid) |
| FrameFacts.GridCounts | Images/API.cs:120-159 | an H x W frame has H*W glyphs, H row ends, and one more `/` than `#` |
| MergeFacts.StepCell | Images/API.cs:128-151 | one cell appends exactly one cell to the grid: the pixel itself, or (threshold not 0, not the first cell) the cursor colour, which differs from the pixel but is within the threshold of its hue; a tag opens exactly when the new cell differs from the previous one |
| MergeFacts.ScanMerges | Images/API.cs:133-142 | every scanned cell is its pixel, or the previous cell, which differs from the pixel and is within the threshold of its hue |
| MergeFacts.ScanRuns | Images/API.cs:128-151 | after n cells the tags opened equal the number of maximal runs of equal scanned cells |
| MergeFacts.RunColours | Images/API.cs:130-151 | a cell that starts a run keeps its own pixel (a run never starts at a merged cell) |
| MergeFacts.ZeroThreshold | Images/API.cs:130 | with threshold 0 the grid is unchanged and the tags are exactly the maximal runs of identical pixels |
| MergeFacts.RescanStep | Images/API.cs:128-151 | feeding a cell its own written value, with the same threshold or 0, reproduces the step |
| MergeFacts.Rescan | Images/API.cs:139-142 | scanning the merged grid, with the same threshold or 0, goes through the same states as scanning the original |
| MergeFacts.EncodeMerged | Images/API.cs:139-142 | encoding is idempotent: the merged grid encodes to the same result and is left unchanged |
| MergeFacts.TagsAreRuns | Images/API.cs:128-151 | the tags of a frame count the maximal runs of the merged grid |
| Instances.RedFrame | Images/API.cs:115-159 | a 2 x 1 red frame at size 10 is `<size=10%><color=#FF0000FF>██\n</color></size>` whatever the threshold |
| Instances.RowAtFive | Images/API.cs:133-142 | orange pixels with G = 0, 30, 47, 9 (HSV hues about 0, 7.06, 11.06, 2.12) at scaled threshold 5 leave cells with G = 0, 30, 30, 30 |
| Instances.RowAtEight | Images/API.cs:133-142 | the same row at scaled threshold 8 leaves cells with G = 0, 0, 47, 9 |
| Instances.ThresholdNotMonotone | Images/API.cs:95 | source thresholds 50 and 80, scaled by ScaleThreshold, give two and three tags on that row: more threshold, more tags |
| Conversion.NextSize | Images/API.cs:105-109 | a nonzero size is kept; a zero size fails with ImageTooLarge exactly when the frame has more than 3000 pixels, and otherwise is computed |
| Conversion.TargetWidth | Images/API.cs:112-113 | with shape correction, within 1/2 of W(1 + 0.03 size), as Sizing.CorrectedWidth computes it; without, W unchanged; never below W for a size that is not negative |
| Conversion.FrameWidth | Images/API.cs:112-113 | Overflow exactly when the width is shape-corrected and outside the 32-bit range; otherwise InvalidBitmapSize exactly when it is not positive; otherwise the width, which then fits in 32 bits when shape-corrected |
| Conversion.CorrectedWidthOverflows | Images/API.cs:112 | a frame whose shape-corrected width W(1 + 0.03 size) is above 2^31 - 1/2 stops the call with Overflow |
| Conversion.LargeScaleOverflows | Images/API.cs:108-112 | an explicit scale of 10^9 gives size 10^9, a 100-pixel-wide frame a shape-corrected width of 3000000100, and so Overflow |
| Conversion.UncorrectedWidth | Images/API.cs:112-113 | at size 0 a frame within the pixel limit keeps its own width, corrected or not |
| Conversion.FrameSizes | Images/API.cs:101-113 | on success there is one size per frame |
| Conversion.SizeCached | Images/API.cs:105 | once the size is not 0, every frame whose resampling width is valid (FrameWidth succeeds) uses it and the pixel guard never fires |
| Conversion.FirstFrameFixesSize | Images/API.cs:105-108 | a first frame within the limit whose size is not 0 fixes every frame's size, when every resampling width is valid |
| Conversion.ZeroSizeRecomputed | Images/API.cs:105-107 | a computed size of 0 is not cached: after a first frame of at least one row, a later frame over 3000 pixels still fails |
| Conversion.FrameSizesStep | Images/API.cs:101-113 | the sizes of a frame sequence are the first frame's size or error, then the rest's |
| Conversion.Converter.constructor | Images/API.cs:95-97 | the threshold is scaled and the size starts at 0 |
| Conversion.Converter.BeginFrame | Images/API.cs:105-113 | the size becomes NextSize's; ImageTooLarge leaves it unchanged; otherwise the result is FrameWidth's: the resampling width, Overflow, or InvalidBitmapSize |
| Conversion.Converter.SizeFrames | Images/API.cs:101-113 | running BeginFrame over the frames gives FrameSizes, and the size ends as the last frame's |
| Conversion.Converter.EncodeFrame | Images/API.cs:115-161 | a frame encodes to Encode of its resampled raster with the current size and scaled threshold, and its merged cells are written back |

## Left out

- Reading frames, the coroutine, the handle callback, the wait and
  `Dispose` (lines 99-103 and 163-168) are I/O and scheduling. They are not
  modelled. Each frame's result is returned instead of passed to `handle`.
- The null-image check (line 93) is left out. The model has no null image.
- The resampling by the graphics library (lines 111-113) is left out. The
  caller supplies the already resampled bitmap to
  `Conversion.Converter.EncodeFrame`. `BeginFrame` gives the width to
  resample to.
- `Color.GetHue` is a parameter `hue`, because its floating-point colour
  conversion is outside the model. Pixel equality is equality of the four
  channels. The initial `pastPixel` (`new Color()`) equals no bitmap pixel,
  and is modelled as `None`.
- Floating-point arithmetic is modelled with exact reals.
  - The automatic size is not affected. `-0.47 d + 28.72` is never an
    integer for `d` in 0..60, so its floor is far from any rounding error.
  - An explicit scale is a `float` widened exactly to `double`, so its ties
    are exact in the source too, and `Sizing.GlyphSize` rounds them to even
    as the source does.
  - The threshold is divided by 10 in `float`, and hue differences are
    `float`. Both are exact reals here, so `diff > threshold` can decide
    differently at the boundary. Example: threshold 3 becomes 0.30000001f
    in the source. The pixels (0, 200, 0) and (0, 200, 1) have hues 120
    and 120.30000305f, so the source opens a new tag. With exact hues 120
    and 120.3 and threshold 0.3, `Encoding.Step` merges the second pixel.
- `Sizing.CorrectedWidth`: computes `W * (1 + 0.03 * size)` exactly, not in
  `double`. When `3 * W * size / 100` ends in .5, the model's width can be
  one less or one more than the source's. Example: a 50 x 57 image
  (2850 pixels, automatic size 3). In `double`, 50 * (1 + 0.03 * 3) is
  54.500000000000007, so the source resamples to 55 columns. The exact
  value is the tie 54.5, so the model gives 54.
- `Sizing.GlyphSize`: does not model the overflow of `Convert.ToInt32` for
  scales outside the 32-bit range.
- `Conversion.NextSize`: does not model 32-bit overflow of
  `Height * Width`, because dimensions are unbounded naturals here.
- `Encoding.SizeOpen`: the source stores the size in a `float` and writes
  it with `float.ToString()`. The model keeps an unbounded integer and
  writes all its digits. So two source effects are not modelled, and both
  need an explicit scale at least this large:
  - a size above 2^24 loses precision when stored (16777217 becomes
    16777216);
  - a size of 10^7 or more may be printed in exponent form (`1E+07`).
- `Encoding.EncodeBitmap`: `EndsWith` is modelled as ordinal suffix
  comparison, not the culture-sensitive comparison the source's default
  overload uses. The size's text is the invariant decimal form.
- `EncodingFacts.ScanCounts`: requires a grid at least one cell wide. Its
  row-end count divides by the width.
- `FrameFacts.FrameCounts`: requires a grid at least one cell wide, for the
  same reason.
- `Conversion.Converter.SizeFrames`: does not state the size after a
  failing frame, because the source throws there and the call ends.
- `Conversion.Converter.SizeFrames`: covers only the sizing half of the
  frame loop. Encoding each frame is `EncodeFrame`, because the resampled
  bitmaps come from outside the model.
