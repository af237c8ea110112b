/**
 * What merging does to the grid and to the colour runs: every colour tag
 * starts a maximal run of equal cells in the grid as the encoder leaves it,
 * a cell changes only by taking the colour of the run it joins, and encoding
 * that grid again (with the same threshold, or with 0) gives the same markup
 * and changes nothing.
 */
module MergeFacts {
  import opened Outcomes
  import opened Pixels
  import opened Markup
  import opened Encoding
  import opened EncodingFacts

  /** The number of maximal runs of equal neighbouring cells. */
  function RunStarts(cs: seq<Pixel>): nat {
    if cs == [] then 0
    else RunStarts(cs[..|cs| - 1]) + (if |cs| == 1 || cs[|cs| - 1] != cs[|cs| - 2] then 1 else 0)
  }

  /** One more cell starts a new run exactly when it differs from the cell before it. */
  lemma RunStartsAppend(cs: seq<Pixel>, c: Pixel)
    ensures RunStarts(cs + [c]) == RunStarts(cs) + (if cs == [] || c != cs[|cs| - 1] then 1 else 0)
  {
    assert (cs + [c])[..|cs|] == cs;
  }

  /**
   * What one Step does to the grid: it appends one cell, which is the pixel
   * itself unless the pixel is merged; a merged cell takes the cursor's
   * colour, which differs from the pixel but is within the threshold of its
   * hue. A tag is opened exactly when the new cell differs from the one
   * before it.
   */
  lemma StepCell(s: ScanState, p: Pixel, first: bool, eol: bool, hue: Pixel -> real, thr: real)
    requires first <==> s.cells == []
    requires first ==> s.past.None?
    requires !first ==> s.past == Some(s.cells[|s.cells| - 1])
    ensures var s' := Step(s, p, first, eol, hue, thr);
      var c := s'.cells[|s.cells|];
      && |s'.cells| == |s.cells| + 1 && s'.cells == s.cells + [c] && s'.cells[..|s.cells|] == s.cells
      && (c == p || (!first && thr != 0.0 && c == s.past.value && c != p && HueDistance(hue(p), hue(c)) <= thr))
      && Opens(Run(s, p, first, hue, thr)) == (if first || c != s.cells[|s.cells| - 1] then 1 else 0)
  {
    var s' := Step(s, p, first, eol, hue, thr);
    RunCounts(s, p, first, hue, thr);
    assert s'.cells[..|s.cells|] == s.cells;
  }

  /**
   * Cell k of the grid cs as the encoder leaves it is pixel k, or pixel k
   * merged: it repeats the cell before it, which differs from the pixel but
   * is within the threshold of its hue.
   */
  predicate CellFrom(px: seq<Pixel>, cs: seq<Pixel>, hue: Pixel -> real, thr: real, k: nat)
    requires k < |cs| && k < |px|
  {
    || cs[k] == px[k]
    || (0 < k && thr != 0.0 && cs[k] == cs[k - 1] && cs[k - 1] != px[k]
        && HueDistance(hue(px[k]), hue(cs[k - 1])) <= thr)
  }

  /** After n cells, every scanned cell is its pixel or that pixel merged. */
  lemma {:induction false} ScanMerges(px: seq<Pixel>, w: nat, hue: Pixel -> real, thr: real, n: nat)
    requires n <= |px|
    ensures forall k :: 0 <= k < n ==> CellFrom(px, Scan(px, w, hue, thr, n).cells, hue, thr, k)
  {
    if n > 0 {
      ScanMerges(px, w, hue, thr, n - 1);
      ScanPast(px, w, hue, thr, n - 1, n == 1);
      var s := Scan(px, w, hue, thr, n - 1);
      var s' := Scan(px, w, hue, thr, n);
      StepCell(s, px[n - 1], n == 1, EndsRow(n, w), hue, thr);
      forall k | 0 <= k < n
        ensures CellFrom(px, s'.cells, hue, thr, k)
      {
        if k < n - 1 {
          assert CellFrom(px, s.cells, hue, thr, k);
          assert s'.cells[k] == s.cells[k];
          assert 0 < k ==> s'.cells[k - 1] == s.cells[k - 1];
        }
      }
    }
  }

  /** One Step keeps the tags opened equal to the runs of the scanned cells. */
  lemma StepRuns(s: ScanState, p: Pixel, first: bool, eol: bool, hue: Pixel -> real, thr: real)
    requires first <==> s.cells == []
    requires first ==> s.past.None?
    requires !first ==> s.past == Some(s.cells[|s.cells| - 1])
    requires Opens(s.toks) == RunStarts(s.cells)
    ensures var s' := Step(s, p, first, eol, hue, thr); Opens(s'.toks) == RunStarts(s'.cells)
  {
    var s' := Step(s, p, first, eol, hue, thr);
    StepCell(s, p, first, eol, hue, thr);
    RunStartsAppend(s.cells, s'.cells[|s.cells|]);
    StepCounts(s, p, first, eol, hue, thr);
  }

  /** The cursor after m cells is the last scanned cell, or the sentinel before the first. */
  lemma ScanPast(px: seq<Pixel>, w: nat, hue: Pixel -> real, thr: real, m: nat, first: bool)
    requires m <= |px| && first == (m == 0)
    ensures var s := Scan(px, w, hue, thr, m);
      && (first <==> s.cells == [])
      && (first ==> s.past.None?)
      && (!first ==> s.past == Some(s.cells[|s.cells| - 1]))
  {
  }

  /** After n cells, the tags opened so far count the runs of the scanned cells. */
  lemma {:induction false} ScanRuns(px: seq<Pixel>, w: nat, hue: Pixel -> real, thr: real, n: nat)
    requires n <= |px|
    ensures var s := Scan(px, w, hue, thr, n); Opens(s.toks) == RunStarts(s.cells)
  {
    if n > 0 {
      ScanRuns(px, w, hue, thr, n - 1);
      ScanPast(px, w, hue, thr, n - 1, n == 1);
      StepRuns(Scan(px, w, hue, thr, n - 1), px[n - 1], n == 1, EndsRow(n, w), hue, thr);
    }
  }

  /** The colour of every run is the pixel that opened it: a run never starts at a merged cell. */
  lemma RunColours(px: seq<Pixel>, w: nat, hue: Pixel -> real, thr: real, k: nat)
    requires k < |px|
    ensures var cs := Scan(px, w, hue, thr, |px|).cells;
      (k == 0 || cs[k] != cs[k - 1]) ==> cs[k] == px[k]
  {
    ScanMerges(px, w, hue, thr, |px|);
    assert CellFrom(px, Scan(px, w, hue, thr, |px|).cells, hue, thr, k);
  }

  /**
   * With threshold 0 nothing is merged: the grid keeps its pixels and the
   * tags are exactly the maximal runs of identical pixels.
   */
  lemma ZeroThreshold(px: seq<Pixel>, w: nat, hue: Pixel -> real, n: nat)
    requires n <= |px|
    ensures var s := Scan(px, w, hue, 0.0, n);
      s.cells == px[..n] && Opens(s.toks) == RunStarts(px[..n])
  {
    var s := Scan(px, w, hue, 0.0, n);
    ScanMerges(px, w, hue, 0.0, n);
    ScanRuns(px, w, hue, 0.0, n);
    forall k | 0 <= k < n
      ensures s.cells[k] == px[k]
    {
      assert CellFrom(px, s.cells, hue, 0.0, k);
    }
  }

  /** The cells after n steps are the first n cells after any later step. */
  lemma {:induction false} CellsPrefix(px: seq<Pixel>, w: nat, hue: Pixel -> real, thr: real, n: nat, m: nat)
    requires n <= m <= |px|
    ensures Scan(px, w, hue, thr, n).cells == Scan(px, w, hue, thr, m).cells[..n]
  {
    if n < m {
      CellsPrefix(px, w, hue, thr, n, m - 1);
      var s := Scan(px, w, hue, thr, m - 1);
      assert Scan(px, w, hue, thr, m).cells[..m - 1] == s.cells;
    }
  }

  /**
   * Feeding a Step the cell it wrote, instead of the pixel, with the same
   * threshold or with 0, gives the same state.
   */
  lemma RescanStep(s: ScanState, p: Pixel, first: bool, eol: bool, hue: Pixel -> real, thr: real, thr2: real)
    requires thr2 == 0.0 || thr2 == thr
    requires !first ==> s.past.Some?
    ensures var s' := Step(s, p, first, eol, hue, thr);
      |s'.cells| == |s.cells| + 1 && Step(s, s'.cells[|s.cells|], first, eol, hue, thr2) == s'
  {
  }

  /**
   * Encoding the grid as the encoder leaves it, with the same threshold or
   * with 0, goes through the same states.
   */
  lemma {:induction false} Rescan(px: seq<Pixel>, w: nat, hue: Pixel -> real, thr: real, thr2: real, n: nat)
    requires thr2 == 0.0 || thr2 == thr
    requires n <= |px|
    ensures var merged := Scan(px, w, hue, thr, |px|).cells;
      Scan(merged, w, hue, thr2, n) == Scan(px, w, hue, thr, n)
  {
    if n > 0 {
      var merged := Scan(px, w, hue, thr, |px|).cells;
      Rescan(px, w, hue, thr, thr2, n - 1);
      CellsPrefix(px, w, hue, thr, n, |px|);
      var s := Scan(px, w, hue, thr, n - 1);
      RescanStep(s, px[n - 1], n == 1, EndsRow(n, w), hue, thr, thr2);
      assert merged[n - 1] == Scan(px, w, hue, thr, n).cells[n - 1];
    }
  }

  /**
   * Encoding is idempotent: the merged grid encodes, with the same threshold
   * or with 0, to the same frame, and is left as it is.
   */
  lemma EncodeMerged(size: int, px: seq<Pixel>, w: nat, hue: Pixel -> real, thr: real, thr2: real)
    requires thr2 == 0.0 || thr2 == thr
    ensures var merged := Scan(px, w, hue, thr, |px|).cells;
      && Scan(merged, w, hue, thr2, |merged|).cells == merged
      && Encode(size, merged, w, hue, thr2) == Encode(size, px, w, hue, thr)
  {
    Rescan(px, w, hue, thr, thr2, |px|);
  }

  /**
   * Every colour tag of a frame starts a maximal run of equal cells in the
   * merged grid.
   */
  lemma TagsAreRuns(px: seq<Pixel>, w: nat, hue: Pixel -> real, thr: real)
    ensures var s := Scan(px, w, hue, thr, |px|);
      Opens(s.toks) == RunStarts(s.cells)
  {
    ScanRuns(px, w, hue, thr, |px|);
  }
}
