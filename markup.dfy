/** The markup a frame is written in, as a sequence of tokens, and its text. */
module Markup {
  import opened Pixels
  import opened Seqs

  /** The pieces the encoder appends, in the order it appends them. */
  datatype Token =
    | Close          // `</color>`
    | Open(colour: Pixel)  // `<color=#RRGGBBAA>`
    | Glyph          // one block glyph
    | NewLine        // the two characters backslash and `n`

  function TokenText(t: Token): string {
    match t
    case Close => "</color>"
    case Open(p) => "<color=" + ColorString(p) + ">"
    case Glyph => "█"
    case NewLine => "\\n"
  }

  /** The texts of the tokens, one per token. */
  function Texts(ts: seq<Token>): (r: seq<string>)
    ensures |r| == |ts| && forall k :: 0 <= k < |ts| ==> r[k] == TokenText(ts[k])
  {
    seq(|ts|, k requires 0 <= k < |ts| => TokenText(ts[k]))
  }

  /** The text of a token sequence. */
  function Render(ts: seq<Token>): string {
    Flatten(Texts(ts))
  }

  /** The number of colour tags opened in a token sequence. */
  function Opens(ts: seq<Token>): nat {
    if ts == [] then 0 else Opens(ts[..|ts| - 1]) + (if ts[|ts| - 1].Open? then 1 else 0)
  }

  lemma {:induction false} OpensConcat(a: seq<Token>, b: seq<Token>)
    ensures Opens(a + b) == Opens(a) + Opens(b)
  {
    if b != [] {
      assert (a + b)[..|a + b| - 1] == a + b[..|b| - 1];
      OpensConcat(a, b[..|b| - 1]);
    } else {
      assert a + b == a;
    }
  }

  lemma OpensOne(t: Token)
    ensures Opens([t]) == (if t.Open? then 1 else 0)
  {
    assert [t][..0] == [];
  }

  lemma RenderConcat(a: seq<Token>, b: seq<Token>)
    ensures Render(a + b) == Render(a) + Render(b)
  {
    assert Texts(a + b) == Texts(a) + Texts(b);
    FlattenConcat(Texts(a), Texts(b));
  }

  lemma RenderOne(t: Token)
    ensures Render([t]) == TokenText(t)
  {
    assert Texts([t]) == [TokenText(t)];
    FlattenOne(TokenText(t));
  }

  /** The text appended when a pixel opens a colour run: an optional close, the tag, one glyph. */
  lemma RenderOpenRun(first: bool, p: Pixel)
    ensures Render((if first then [] else [Close]) + [Open(p), Glyph])
         == (if first then "" else "</color>") + "<color=" + ColorString(p) + ">█"
  {
    RenderOne(Close);
    RenderOne(Open(p));
    RenderOne(Glyph);
    RenderConcat([Open(p)], [Glyph]);
    assert [Open(p)] + [Glyph] == [Open(p), Glyph];
    var run := "<color=" + ColorString(p) + ">█";
    assert Render([Open(p), Glyph]) == run;
    if first {
      assert [] + [Open(p), Glyph] == [Open(p), Glyph];
    } else {
      RenderConcat([Close], [Open(p), Glyph]);
      assert Render([Close] + [Open(p), Glyph]) == "</color>" + run;
    }
  }

  /** Appending the text of more tokens to a rendered prefix renders the longer sequence. */
  lemma AppendRendered(head: string, ts: seq<Token>, more: seq<Token>, piece: string)
    requires piece == Render(more)
    ensures head + Render(ts) + piece == head + Render(ts + more)
  {
    RenderConcat(ts, more);
  }

  /** The characters whose occurrences count tokens: glyph, backslash, `#` and `/`. */
  predicate IsMarker(c: char) {
    c == '█' || c == '\\' || c == '#' || c == '/'
  }

  ghost predicate NoMarkers(s: string) {
    forall k :: 0 <= k < |s| ==> !IsMarker(s[k])
  }

  /** A string without markers holds none of the four marker characters. */
  lemma UnmarkedCounts(s: string)
    requires NoMarkers(s)
    ensures Count(s, '█') == 0 && Count(s, '\\') == 0 && Count(s, '#') == 0 && Count(s, '/') == 0
  {
    CountAbsent(s, '█');
    CountAbsent(s, '\\');
    CountAbsent(s, '#');
    CountAbsent(s, '/');
  }

  /** The occurrences of a character in a piece made of a prefix, one character, and a rest. */
  lemma PieceCount(pre: string, c: char, post: string, d: char)
    ensures Count(pre + [c] + post, d) == Count(pre, d) + (if c == d then 1 else 0) + Count(post, d)
  {
    CountConcat(pre + [c], post, d);
    CountConcat(pre, [c], d);
    CountOne(c, d);
  }

  /** The marker characters of a piece made of a prefix, one marker, and a rest without markers. */
  lemma MarkerCounts(s: string, pre: string, c: char, post: string)
    requires s == pre + [c] + post && NoMarkers(pre) && NoMarkers(post)
    ensures Count(s, '█') == (if c == '█' then 1 else 0)
    ensures Count(s, '\\') == (if c == '\\' then 1 else 0)
    ensures Count(s, '#') == (if c == '#' then 1 else 0)
    ensures Count(s, '/') == (if c == '/' then 1 else 0)
  {
    UnmarkedCounts(pre);
    UnmarkedCounts(post);
    PieceCount(pre, c, post, '█');
    PieceCount(pre, c, post, '\\');
    PieceCount(pre, c, post, '#');
    PieceCount(pre, c, post, '/');
  }

  /** The text of a colour tag holds one `#` and no other marker. */
  lemma OpenTextCounts(p: Pixel)
    ensures var s := TokenText(Open(p));
      Count(s, '█') == 0 && Count(s, '\\') == 0 && Count(s, '#') == 1 && Count(s, '/') == 0
  {
    var cs := ColorString(p);
    ColorStringDigits(p);
    var post := cs[1..] + ">";
    assert NoMarkers(post) by {
      forall k | 0 <= k < |post|
        ensures !IsMarker(post[k])
      {
        if k < |post| - 1 {
          assert IsHexDigit(cs[k + 1]);
        }
      }
    }
    assert NoMarkers("<color=");
    assert TokenText(Open(p)) == "<color=" + ['#'] + post;
    MarkerCounts(TokenText(Open(p)), "<color=", '#', post);
  }

  /** A close holds one `/` and no other marker. */
  lemma CloseTextCounts()
    ensures var s := TokenText(Close);
      Count(s, '█') == 0 && Count(s, '\\') == 0 && Count(s, '#') == 0 && Count(s, '/') == 1
  {
    assert NoMarkers("<") && NoMarkers("color>");
    MarkerCounts("</color>", "<", '/', "color>");
  }

  /** A glyph is the one glyph marker. */
  lemma GlyphTextCounts()
    ensures var s := TokenText(Glyph);
      Count(s, '█') == 1 && Count(s, '\\') == 0 && Count(s, '#') == 0 && Count(s, '/') == 0
  {
    MarkerCounts("█", "", '█', "");
  }

  /** A row end holds one backslash and no other marker. */
  lemma NewLineTextCounts()
    ensures var s := TokenText(NewLine);
      Count(s, '█') == 0 && Count(s, '\\') == 1 && Count(s, '#') == 0 && Count(s, '/') == 0
  {
    assert NoMarkers("n");
    MarkerCounts("\\n", "", '\\', "n");
  }

  /**
   * How often the four marker characters occur in one token's text: the
   * glyph, the backslash of a row end, the `#` of a colour tag and the `/`
   * of a close.
   */
  lemma TokenTextCounts(t: Token)
    ensures var s := TokenText(t);
      && Count(s, '█') == (if t == Glyph then 1 else 0)
      && Count(s, '\\') == (if t == NewLine then 1 else 0)
      && Count(s, '#') == (if t.Open? then 1 else 0)
      && Count(s, '/') == (if t == Close then 1 else 0)
  {
    match t
    case Open(p) => OpenTextCounts(p);
    case Close => CloseTextCounts();
    case Glyph => GlyphTextCounts();
    case NewLine => NewLineTextCounts();
  }

  /** Appending a token adds its text's occurrences of a character. */
  lemma RenderAppendCount(init: seq<Token>, last: Token, c: char)
    ensures Count(Render(init + [last]), c) == Count(Render(init), c) + Count(TokenText(last), c)
  {
    RenderConcat(init, [last]);
    RenderOne(last);
    CountConcat(Render(init), TokenText(last), c);
  }

  /** Appending a token adds one occurrence of it. */
  lemma TokenAppendCount(init: seq<Token>, last: Token, t: Token)
    ensures multiset(init + [last])[t] == multiset(init)[t] + (if last == t then 1 else 0)
  {
    assert multiset(init + [last]) == multiset(init) + multiset{last};
  }

  /**
   * The marker characters of a rendered sequence count its tokens: glyphs,
   * row ends, colour tags and closes.
   */
  lemma {:induction false} RenderCounts(ts: seq<Token>)
    ensures var r := Render(ts);
      && Count(r, '█') == multiset(ts)[Glyph]
      && Count(r, '\\') == multiset(ts)[NewLine]
      && Count(r, '#') == Opens(ts)
      && Count(r, '/') == multiset(ts)[Close]
  {
    if ts == [] {
      assert Render(ts) == [];
    } else {
      var init, last := ts[..|ts| - 1], ts[|ts| - 1];
      assert ts == init + [last];
      RenderCounts(init);
      TokenTextCounts(last);
      RenderAppendCount(init, last, '█');
      RenderAppendCount(init, last, '\\');
      RenderAppendCount(init, last, '#');
      RenderAppendCount(init, last, '/');
      TokenAppendCount(init, last, Glyph);
      TokenAppendCount(init, last, NewLine);
      TokenAppendCount(init, last, Close);
    }
  }
}
