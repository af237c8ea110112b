/**
 * One conversion call: the threshold is scaled once, the glyph size starts
 * at 0 and is computed (behind the 3000-pixel guard) at the first frame that
 * finds it still 0, and every frame is resampled (to the shape-corrected
 * width when shape correction is on) and encoded.
 */
module Conversion {
  import opened Outcomes
  import opened Pixels
  import opened Sizing
  import opened Encoding

  /** The size a frame uses when it starts with `size`: the cached one, or a freshly computed one. */
  function NextSize(size: int, scale: real, width: nat, height: nat): (r: Result<int>)
    ensures size != 0 ==> r == Ok(size)
    ensures r.Err? <==> size == 0 && width * height > PixelLimit
    ensures r.Err? ==> r.error == ImageTooLarge
  {
    if size != 0 then Ok(size)
    else if width * height > PixelLimit then Err(ImageTooLarge)
    else Ok(GlyphSize(scale, width, height))
  }

  /** The width a frame of the given width is resampled to: shape-corrected, or unchanged. */
  function TargetWidth(shapeCorrection: bool, width: nat, size: int): (r: int)
    ensures !shapeCorrection ==> r == width
    ensures shapeCorrection ==> -0.5 <= width as real * (1.0 + 0.03 * size as real) - r as real <= 0.5
    ensures size >= 0 ==> r >= width
  {
    if shapeCorrection then CorrectedWidth(width, size) else width
  }

  /**
   * The width a frame is resampled to, or why it cannot be: `Convert.ToInt32`
   * throws when the shape-corrected width is outside the 32-bit range, and the
   * bitmap cannot be built with no columns. Without shape correction the frame
   * keeps its own (32-bit) width, so only the second check applies.
   */
  function FrameWidth(shapeCorrection: bool, width: nat, size: int): (r: Result<nat>)
    ensures r == Err(Overflow) <==> shapeCorrection && !InInt32(TargetWidth(shapeCorrection, width, size))
    ensures r == Err(InvalidBitmapSize) <==>
      (shapeCorrection ==> InInt32(TargetWidth(shapeCorrection, width, size)))
      && TargetWidth(shapeCorrection, width, size) <= 0
    ensures r.Ok? ==> r.value == TargetWidth(shapeCorrection, width, size) > 0
    ensures r.Ok? && shapeCorrection ==> r.value <= Int32Max
  {
    var target := TargetWidth(shapeCorrection, width, size);
    if shapeCorrection && !InInt32(target) then Err(Overflow)
    else if target <= 0 then Err(InvalidBitmapSize)
    else Ok(target)
  }

  /**
   * The glyph size of each frame, given each frame's source dimensions, or
   * the first error: the pixel guard when the size is computed, then the
   * resampling width's overflow or emptiness.
   */
  function FrameSizes(size: int, scale: real, shapeCorrection: bool, dims: seq<(nat, nat)>): (r: Result<seq<int>>)
    ensures r.Ok? ==> |r.value| == |dims|
    decreases |dims|
  {
    if dims == [] then Ok([])
    else
      match NextSize(size, scale, dims[0].0, dims[0].1)
      case Err(e) => Err(e)
      case Ok(s) =>
        match FrameWidth(shapeCorrection, dims[0].0, s)
        case Err(e) => Err(e)
        case Ok(_) =>
          match FrameSizes(s, scale, shapeCorrection, dims[1..])
          case Err(e) => Err(e)
          case Ok(rest) => Ok([s] + rest)
  }

  /**
   * A shape-corrected width that rounds above 2^31 - 1 stops the call with
   * Overflow, whichever frame it is and whatever the size was computed from.
   */
  lemma CorrectedWidthOverflows(size: int, scale: real, width: nat, height: nat)
    requires size != 0
    requires width as real * (1.0 + 0.03 * size as real) > Int32Max as real + 0.5
    ensures FrameSizes(size, scale, true, [(width, height)]) == Err(Overflow)
  {
  }

  /**
   * An explicit scale of 10^9 makes a frame 100 pixels wide 3000000100 wide
   * when shape-corrected, so the first frame stops the call.
   */
  lemma LargeScaleOverflows()
    ensures GlyphSize(1000000000.0, 100, 1) == 1000000000
    ensures TargetWidth(true, 100, 1000000000) == 3000000100
    ensures FrameSizes(0, 1000000000.0, true, [(100, 1)]) == Err(Overflow)
  {
    RoundHalfEvenOfInt(1000000000);
    RoundHalfEvenOfInt(3000000100);
  }

  /** A result with prefix put in front of its sizes; errors pass through. */
  function Prefixed(prefix: seq<int>, r: Result<seq<int>>): Result<seq<int>> {
    match r
    case Ok(v) => Ok(prefix + v)
    case Err(e) => Err(e)
  }

  /** Once the size is not 0, every later frame uses it and the pixel guard never fires again. */
  lemma {:induction false} SizeCached(size: int, scale: real, shapeCorrection: bool, dims: seq<(nat, nat)>)
    requires size != 0
    requires forall k :: 0 <= k < |dims| ==> FrameWidth(shapeCorrection, dims[k].0, size).Ok?
    ensures var r := FrameSizes(size, scale, shapeCorrection, dims);
      r.Ok? && forall k :: 0 <= k < |dims| ==> r.value[k] == size
  {
    if dims != [] {
      assert FrameWidth(shapeCorrection, dims[0].0, size).Ok?;
      forall k | 0 <= k < |dims[1..]|
        ensures FrameWidth(shapeCorrection, dims[1..][k].0, size).Ok?
      {
        assert dims[1..][k] == dims[k + 1];
      }
      SizeCached(size, scale, shapeCorrection, dims[1..]);
    }
  }

  /**
   * A first frame within the pixel limit whose computed size is not 0 fixes
   * the size for the whole call, whatever the later frames' heights, as long
   * as every frame's resampling width is valid.
   */
  lemma FirstFrameFixesSize(scale: real, shapeCorrection: bool, dims: seq<(nat, nat)>)
    requires |dims| > 0 && dims[0].0 * dims[0].1 <= PixelLimit
    requires GlyphSize(scale, dims[0].0, dims[0].1) != 0
    requires forall k :: 0 <= k < |dims| ==>
      FrameWidth(shapeCorrection, dims[k].0, GlyphSize(scale, dims[0].0, dims[0].1)).Ok?
    ensures var r := FrameSizes(0, scale, shapeCorrection, dims);
      r.Ok? && forall k :: 0 <= k < |dims| ==> r.value[k] == GlyphSize(scale, dims[0].0, dims[0].1)
  {
    var g := GlyphSize(scale, dims[0].0, dims[0].1);
    forall k | 0 <= k < |dims[1..]|
      ensures FrameWidth(shapeCorrection, dims[1..][k].0, g).Ok?
    {
      assert dims[1..][k] == dims[k + 1];
    }
    SizeCached(g, scale, shapeCorrection, dims[1..]);
  }

  /**
   * A computed size of 0 is not cached: the next frame computes it again and
   * runs the pixel guard again, so a later, larger frame stops the call.
   */
  lemma ZeroSizeRecomputed(scale: real, shapeCorrection: bool, w1: nat, h1: nat, w2: nat, h2: nat)
    requires w1 > 0 && h1 > 0 && w1 * h1 <= PixelLimit && GlyphSize(scale, w1, h1) == 0
    requires w2 * h2 > PixelLimit
    ensures FrameSizes(0, scale, shapeCorrection, [(w1, h1), (w2, h2)]) == Err(ImageTooLarge)
  {
    var dims := [(w1, h1), (w2, h2)];
    assert NextSize(0, scale, w1, h1) == Ok(0);
    UncorrectedWidth(shapeCorrection, w1, h1);
    assert NextSize(0, scale, w2, h2) == Err(ImageTooLarge);
    assert dims[1..] == [(w2, h2)];
    assert FrameSizes(0, scale, shapeCorrection, dims[1..]) == Err(ImageTooLarge);
  }

  /** At size 0 a frame within the pixel limit keeps its own width. */
  lemma UncorrectedWidth(shapeCorrection: bool, width: nat, height: nat)
    requires width > 0 && height > 0 && width * height <= PixelLimit
    ensures FrameWidth(shapeCorrection, width, 0) == Ok(width)
  {
    assert width <= PixelLimit by {
      assert width * 1 <= width * height;
    }
    assert CorrectedWidth(width, 0) == width by {
      assert width as real * (1.0 + 0.03 * 0 as real) == width as real;
      RoundHalfEvenOfInt(width);
    }
  }

  /** FrameSizes of a nonempty sequence is one frame's step followed by the rest. */
  lemma FrameSizesStep(size: int, scale: real, shapeCorrection: bool, dims: seq<(nat, nat)>, prefix: seq<int>)
    requires |dims| > 0
    ensures var n := NextSize(size, scale, dims[0].0, dims[0].1);
      && (n.Err? ==> Prefixed(prefix, FrameSizes(size, scale, shapeCorrection, dims)) == Err(n.error))
      && (n.Ok? && FrameWidth(shapeCorrection, dims[0].0, n.value).Err? ==>
            Prefixed(prefix, FrameSizes(size, scale, shapeCorrection, dims))
            == Err(FrameWidth(shapeCorrection, dims[0].0, n.value).error))
      && (n.Ok? && FrameWidth(shapeCorrection, dims[0].0, n.value).Ok? ==>
            (Prefixed(prefix, FrameSizes(size, scale, shapeCorrection, dims))
             == Prefixed(prefix + [n.value], FrameSizes(n.value, scale, shapeCorrection, dims[1..]))))
  {
    var n := NextSize(size, scale, dims[0].0, dims[0].1);
    if n.Ok? && FrameWidth(shapeCorrection, dims[0].0, n.value).Ok? {
      match FrameSizes(n.value, scale, shapeCorrection, dims[1..])
      case Ok(rest) =>
        assert prefix + ([n.value] + rest) == prefix + [n.value] + rest;
      case Err(_) =>
    }
  }

  /** The per-call state of one conversion. */
  class Converter {
    const scale: real
    const shapeCorrection: bool
    /** The threshold as compared against hue distances (already divided by 10). */
    const threshold: real
    const hue: Pixel -> real
    /** The glyph size; 0 until a frame computes one that is not 0. */
    var size: int

    constructor(scale: real, shapeCorrection: bool, threshold: real, hue: Pixel -> real)
      ensures this.scale == scale && this.shapeCorrection == shapeCorrection
      ensures this.threshold == ScaleThreshold(threshold) && this.hue == hue
      ensures size == 0
    {
      this.scale := scale;
      this.shapeCorrection := shapeCorrection;
      this.threshold := ScaleThreshold(threshold);
      this.hue := hue;
      size := 0;
    }

    /**
     * The start of a frame of width x height source pixels: the size is
     * computed if it is still 0 (failing when the frame has more than 3000
     * pixels), and the result is the width to resample the frame to, which
     * must fit in 32 bits when shape-corrected and must be positive.
     */
    method BeginFrame(width: nat, height: nat) returns (r: Result<nat>)
      modifies this
      ensures NextSize(old(size), scale, width, height).Err? ==> r == Err(ImageTooLarge) && size == old(size)
      ensures NextSize(old(size), scale, width, height).Ok? ==>
        size == NextSize(old(size), scale, width, height).value && r == FrameWidth(shapeCorrection, width, size)
    {
      if size == 0 {
        if width * height > PixelLimit {
          return Err(ImageTooLarge);
        }
        size := GlyphSize(scale, width, height);
      }
      var target := if shapeCorrection then CorrectedWidth(width, size) else width;
      if shapeCorrection && !(Int32Min <= target <= Int32Max) {
        return Err(Overflow);
      }
      if target <= 0 {
        return Err(InvalidBitmapSize);
      }
      r := Ok(target);
    }

    /**
     * The sizing part of the frame loop: BeginFrame for each frame in turn,
     * stopping at the first error; the result is the size each frame used.
     */
    method SizeFrames(dims: seq<(nat, nat)>) returns (r: Result<seq<int>>)
      modifies this
      ensures r == FrameSizes(old(size), scale, shapeCorrection, dims)
      ensures r.Ok? && |dims| > 0 ==> size == r.value[|dims| - 1]
      ensures r.Ok? && |dims| == 0 ==> size == old(size)
    {
      var sizes: seq<int> := [];
      var i := 0;
      assert dims[i..] == dims;
      match FrameSizes(size, scale, shapeCorrection, dims) {
        case Ok(v) => assert sizes + v == v;
        case Err(_) =>
      }
      while i < |dims|
        invariant 0 <= i <= |dims| && |sizes| == i
        invariant Prefixed(sizes, FrameSizes(size, scale, shapeCorrection, dims[i..]))
               == FrameSizes(old(size), scale, shapeCorrection, dims)
        invariant i > 0 ==> size == sizes[i - 1]
        invariant i == 0 ==> size == old(size)
      {
        FrameSizesStep(size, scale, shapeCorrection, dims[i..], sizes);
        var b := BeginFrame(dims[i].0, dims[i].1);
        if b.Err? {
          return Err(b.error);
        }
        assert dims[i..][1..] == dims[i + 1..];
        sizes := sizes + [size];
        i := i + 1;
      }
      assert FrameSizes(size, scale, shapeCorrection, dims[i..]) == Ok([]);
      assert sizes + [] == sizes;
      r := Ok(sizes);
    }

    /**
     * Encodes a frame already resampled into bitmap, with the current size;
     * merged pixels are overwritten in bitmap.
     */
    method EncodeFrame(bitmap: array2<Pixel>) returns (r: Result<string>)
      modifies bitmap
      ensures r == Encode(size, old(Raster(bitmap)), bitmap.Length1, hue, threshold)
      ensures Raster(bitmap)
           == Scan(old(Raster(bitmap)), bitmap.Length1, hue, threshold, bitmap.Length0 * bitmap.Length1).cells
    {
      r := EncodeBitmap(bitmap, size, hue, threshold);
    }
  }
}
