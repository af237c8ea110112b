/**
 * What the encoder's output looks like, proved about the Scan specification:
 * how many glyphs and row ends it holds and where, how colour tags nest,
 * which cells a merge overwrites, and how the finished frame is framed.
 */
module EncodingFacts {
  import opened Outcomes
  import opened Pixels
  import opened Sizing
  import opened Arith
  import opened Markup
  import opened Encoding

  /** The tokens the colour decision for pixel p appends (before any row end). */
  function Run(s: ScanState, p: Pixel, first: bool, hue: Pixel -> real, thr: real): seq<Token>
    requires !first ==> s.past.Some?
  {
    if s.past == Some(p) then [Glyph]
    else if thr == 0.0 || first then (if first then [] else [Close]) + [Open(p), Glyph]
    else if HueDistance(hue(p), hue(s.past.value)) > thr then [Close, Open(p), Glyph]
    else [Glyph]
  }

  /** One Step appends its colour decision's tokens, then the row end when `eol`. */
  lemma StepAppends(s: ScanState, p: Pixel, first: bool, eol: bool, hue: Pixel -> real, thr: real)
    requires !first ==> s.past.Some?
    ensures Step(s, p, first, eol, hue, thr).toks == s.toks + Run(s, p, first, hue, thr) + (if eol then [NewLine] else [])
  {
  }

  /**
   * A colour decision appends one glyph and no row end; it opens a tag exactly
   * when the pixel is not the cursor and is not merged, and it closes one
   * exactly when it opens one, except at the first cell.
   */
  lemma RunCounts(s: ScanState, p: Pixel, first: bool, hue: Pixel -> real, thr: real)
    requires !first ==> s.past.Some?
    requires first ==> s.past.None?
    ensures var r := Run(s, p, first, hue, thr);
      && multiset(r)[Glyph] == 1 && multiset(r)[NewLine] == 0
      && Opens(r) == multiset(r)[Close] + (if first then 1 else 0)
      && Opens(r) == (if s.past != Some(p) && (thr == 0.0 || first || HueDistance(hue(p), hue(s.past.value)) > thr) then 1 else 0)
  {
    var r := Run(s, p, first, hue, thr);
    OpensOne(Glyph);
    if s.past == Some(p) {
      assert r == [Glyph];
    } else if first {
      assert r == [Open(p)] + [Glyph];
      OpensOne(Open(p));
      OpensConcat([Open(p)], [Glyph]);
    } else if thr == 0.0 || HueDistance(hue(p), hue(s.past.value)) > thr {
      assert r == [Close] + [Open(p)] + [Glyph];
      OpensOne(Close);
      OpensOne(Open(p));
      OpensConcat([Close], [Open(p)]);
      OpensConcat([Close] + [Open(p)], [Glyph]);
    } else {
      assert r == [Glyph];
    }
  }

  /** One Step adds one glyph, one row end exactly when `eol`, and its decision's tags. */
  lemma StepCounts(s: ScanState, p: Pixel, first: bool, eol: bool, hue: Pixel -> real, thr: real)
    requires !first ==> s.past.Some?
    requires first ==> s.past.None?
    ensures var t := Step(s, p, first, eol, hue, thr).toks;
      var r := Run(s, p, first, hue, thr);
      && multiset(t)[Glyph] == multiset(s.toks)[Glyph] + 1
      && multiset(t)[NewLine] == multiset(s.toks)[NewLine] + (if eol then 1 else 0)
      && multiset(t)[Close] == multiset(s.toks)[Close] + multiset(r)[Close]
      && Opens(t) == Opens(s.toks) + Opens(r)
  {
    var nl: seq<Token> := if eol then [NewLine] else [];
    assert multiset(nl)[Glyph] == 0 && multiset(nl)[Close] == 0 && Opens(nl) == 0;
    assert multiset(nl)[NewLine] == (if eol then 1 else 0);
    var r := Run(s, p, first, hue, thr);
    RunCounts(s, p, first, hue, thr);
    StepAppends(s, p, first, eol, hue, thr);
    assert multiset(s.toks + r + nl) == multiset(s.toks) + multiset(r) + multiset(nl);
    OpensConcat(s.toks, r);
    OpensConcat(s.toks + r, nl);
  }

  /**
   * After n cells the tokens hold n glyphs and one row end per completed row,
   * and every tag but the first is matched by a close.
   */
  lemma {:induction false} ScanCounts(px: seq<Pixel>, w: nat, hue: Pixel -> real, thr: real, n: nat)
    requires n <= |px| && w > 0
    ensures var ts := Scan(px, w, hue, thr, n).toks;
      && multiset(ts)[Glyph] == n
      && multiset(ts)[NewLine] == n / w
      && Opens(ts) == multiset(ts)[Close] + (if n > 0 then 1 else 0)
  {
    if n > 0 {
      ScanCounts(px, w, hue, thr, n - 1);
      var s := Scan(px, w, hue, thr, n - 1);
      StepCounts(s, px[n - 1], n == 1, EndsRow(n, w), hue, thr);
      RunCounts(s, px[n - 1], n == 1, hue, thr);
      CompletedRowsStep(n, w);
    }
  }

  /**
   * How the tokens nest: a sequence starts with a colour tag, every later tag
   * is preceded by exactly one close, every close comes after a glyph or a
   * row end and is followed by a tag, every tag is followed by a glyph, and
   * every row end comes right after a glyph.
   */
  ghost predicate TagShape(ts: seq<Token>) {
    && (|ts| > 0 ==> ts[0].Open?)
    && (forall k :: 0 < k < |ts| && ts[k].Open? ==> ts[k - 1] == Close)
    && (forall k :: 0 <= k < |ts| && ts[k] == Close ==> 0 < k < |ts| - 1 && ts[k - 1] in {Glyph, NewLine} && ts[k + 1].Open?)
    && (forall k :: 0 <= k < |ts| && ts[k].Open? ==> k < |ts| - 1 && ts[k + 1] == Glyph)
    && (forall k :: 0 <= k < |ts| && ts[k] == NewLine ==> 0 < k && ts[k - 1] == Glyph)
  }

  /** Appending a well-nested piece that starts with a close or a glyph keeps the shape. */
  lemma TagShapeAppend(a: seq<Token>, b: seq<Token>)
    requires TagShape(a) && |a| > 0 && a[|a| - 1] in {Glyph, NewLine}
    requires |b| > 0 && b[0] in {Close, Glyph}
    requires forall k :: 0 < k < |b| && b[k].Open? ==> b[k - 1] == Close
    requires forall k :: 0 <= k < |b| && b[k] == Close ==> k < |b| - 1 && b[k + 1].Open?
    requires forall k :: 0 <= k < |b| && b[k].Open? ==> k < |b| - 1 && b[k + 1] == Glyph
    requires forall k :: 0 <= k < |b| && b[k] == NewLine ==> 0 < k && b[k - 1] == Glyph
    requires forall k :: 0 < k < |b| && b[k] == Close ==> b[k - 1] in {Glyph, NewLine}
    ensures TagShape(a + b)
  {
  }

  /** The pieces one Step appends are well nested on their own. */
  lemma RunShape(s: ScanState, p: Pixel, first: bool, eol: bool, hue: Pixel -> real, thr: real)
    requires !first ==> s.past.Some?
    ensures var b := Run(s, p, first, hue, thr) + (if eol then [NewLine] else []);
      && |b| > 0 && b[0] in {Close, Glyph, Open(p)} && (b[0].Open? ==> first)
      && b[|b| - 1] in {Glyph, NewLine}
      && (forall k :: 0 < k < |b| && b[k].Open? ==> b[k - 1] == Close)
      && (forall k :: 0 <= k < |b| && b[k] == Close ==> k < |b| - 1 && b[k + 1].Open?)
      && (forall k :: 0 <= k < |b| && b[k].Open? ==> k < |b| - 1 && b[k + 1] == Glyph)
      && (forall k :: 0 <= k < |b| && b[k] == NewLine ==> 0 < k && b[k - 1] == Glyph)
      && (forall k :: 0 < k < |b| && b[k] == Close ==> b[k - 1] in {Glyph, NewLine})
  {
  }

  /** The first cell's tokens: its tag, its glyph, and a row end if the grid is one cell wide. */
  lemma FirstRunShape(p: Pixel, eol: bool)
    ensures TagShape([Open(p), Glyph] + (if eol then [NewLine] else []))
  {
    if eol {
      assert [Open(p), Glyph] + [NewLine] == [Open(p), Glyph, NewLine];
    } else {
      assert [Open(p), Glyph] + [] == [Open(p), Glyph];
    }
  }

  /** One Step keeps the tokens well nested. */
  lemma StepTagShape(s: ScanState, p: Pixel, first: bool, eol: bool, hue: Pixel -> real, thr: real)
    requires !first ==> s.past.Some?
    requires first ==> s.past.None?
    requires TagShape(s.toks) && (first <==> s.toks == [])
    requires s.toks != [] ==> s.toks[|s.toks| - 1] in {Glyph, NewLine}
    ensures var ts := Step(s, p, first, eol, hue, thr).toks;
      && TagShape(ts) && |ts| > 0 && ts[|ts| - 1] in {Glyph, NewLine}
      && ts[0] == (if first then Open(p) else s.toks[0])
  {
    var b := Run(s, p, first, hue, thr) + (if eol then [NewLine] else []);
    assert Step(s, p, first, eol, hue, thr).toks == s.toks + b by {
      StepAppends(s, p, first, eol, hue, thr);
    }
    RunShape(s, p, first, eol, hue, thr);
    if first {
      assert Run(s, p, first, hue, thr) == [Open(p), Glyph];
      FirstRunShape(p, eol);
      assert s.toks + b == b;
    } else {
      TagShapeAppend(s.toks, b);
    }
  }

  /**
   * The scan's tokens are well nested after every cell; the first token is
   * the tag of the first pixel, and the last is a glyph or a row end.
   */
  lemma {:induction false} ScanTagShape(px: seq<Pixel>, w: nat, hue: Pixel -> real, thr: real, n: nat)
    requires n <= |px|
    ensures var ts := Scan(px, w, hue, thr, n).toks;
      && TagShape(ts)
      && (n > 0 ==> |ts| > 0 && ts[0] == Open(px[0]) && ts[|ts| - 1] in {Glyph, NewLine})
  {
    if n > 0 {
      ScanTagShape(px, w, hue, thr, n - 1);
      StepTagShape(Scan(px, w, hue, thr, n - 1), px[n - 1], n == 1, EndsRow(n, w), hue, thr);
    }
  }
}
