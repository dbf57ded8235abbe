/**
 * The report: every flagged stretch of a paragraph is wrapped in colour
 * markup, the rest is copied as is, and a paragraph with at least one
 * flagged stretch joins the error list.
 */
module Report {
  import opened Wrappers
  import opened Text
  import opened Seqs
  import opened Options
  import opened Classifier
  import opened Normalizer
  import opened Detector

  /** The colour `add_color` uses unless told otherwise. */
  const DefaultColor: string := "red"

  const OpenTagStart: string := "<font color="
  const CloseTag: string := "</font>"

  /** The opening tag for `color`. */
  function OpenTag(color: string): string {
    OpenTagStart + color + ">"
  }

  /** An opening and a closing tag to put around a highlighted stretch. */
  datatype Markup = Markup(open: string, close: string)

  /** The comment between the two tags of `m`. */
  function Highlight(comment: string, m: Markup): string {
    m.open + comment + m.close
  }

  /** The font tags for `color`. */
  function FontTags(color: string): Markup {
    Markup(OpenTag(color), CloseTag)
  }

  /** `add_color`: the comment between the opening tag for `color` and the closing tag. */
  function AddColor(comment: string, color: string): string {
    Highlight(comment, FontTags(color))
  }

  /** Removes the markup `AddColor` puts around a comment, if it is there. */
  function Unwrap(s: string, color: string): (r: Option<string>)
    ensures r.Some? ==> |r.value| + |OpenTag(color)| + |CloseTag| == |s|
  {
    var a := |OpenTag(color)|;
    var b := |CloseTag|;
    if a + b <= |s| && s[..a] == OpenTag(color) && s[|s| - b..] == CloseTag then Some(s[a..|s| - b])
    else None
  }

  /** `Unwrap` inverts `AddColor`, and everything it accepts was produced by `AddColor`. */
  lemma ColorRoundTrip(comment: string, color: string, s: string)
    ensures Unwrap(AddColor(comment, color), color) == Some(comment)
    ensures Unwrap(s, color).Some? ==> AddColor(Unwrap(s, color).value, color) == s
  {
    var w := AddColor(comment, color);
    var a := |OpenTag(color)|;
    assert w[..a] == OpenTag(color);
    assert w[|w| - |CloseTag|..] == CloseTag;
    assert w[a..|w| - |CloseTag|] == comment;
    if Unwrap(s, color).Some? {
      var m := s[a..|s| - |CloseTag|];
      assert s == s[..a] + m + s[|s| - |CloseTag|..];
    }
  }

  /** A stretch of the report: copied from the paragraph, or copied and highlighted. */
  datatype Piece = Plain(text: string) | Marked(text: string)

  /** The report text of one piece, highlighted pieces wrapped in `m`. */
  function RenderPiece(x: Piece, m: Markup): string {
    if x.Marked? then Highlight(x.text, m) else x.text
  }

  /** The report text of a sequence of pieces. */
  function Render(ps: seq<Piece>, m: Markup): string {
    if ps == [] then [] else RenderPiece(ps[0], m) + Render(ps[1..], m)
  }

  /** The markup the report uses: `add_color`'s font tags in its default colour. */
  const ReportMarkup := FontTags(DefaultColor)

  /** The paragraph text behind a sequence of pieces, markup removed. */
  function Unmark(ps: seq<Piece>): string {
    if ps == [] then [] else ps[0].text + Unmark(ps[1..])
  }

  /** The texts of the highlighted pieces, in order. */
  function MarkedTexts(ps: seq<Piece>): seq<string> {
    if ps == [] then []
    else (if ps[0].Marked? then [ps[0].text] else []) + MarkedTexts(ps[1..])
  }

  lemma {:induction false} RenderConcat(a: seq<Piece>, b: seq<Piece>, m: Markup)
    ensures Render(a + b, m) == Render(a, m) + Render(b, m)
    decreases |a|
  {
    if a == [] {
      assert a + b == b;
    } else {
      assert (a + b)[1..] == a[1..] + b;
      RenderConcat(a[1..], b, m);
      AppendAssoc(RenderPiece(a[0], m), Render(a[1..], m), Render(b, m));
    }
  }

  /**
   * The pieces the assembly loop produces from span `i` on, the previous span
   * having ended before `start`: for each span the text before it, then the
   * span itself highlighted; finally the rest of the paragraph. Slices follow
   * Python's clamping.
   */
  function PiecesAt(p: string, spans: seq<Span>, i: nat, start: nat): seq<Piece>
    requires i <= |spans|
    decreases |spans| - i
  {
    if i == |spans| then [Plain(PySlice(p, start, |p|))]
    else
      var s := spans[i];
      [Plain(PySlice(p, start, s.first)), Marked(PySlice(p, s.first, s.last + 1))]
        + PiecesAt(p, spans, i + 1, s.last + 1)
  }

  /** The pieces of a whole paragraph. */
  function Pieces(p: string, spans: seq<Span>): seq<Piece> {
    PiecesAt(p, spans, 0, 0)
  }

  /** Markup removed, two pieces in front of `rest` contribute their texts in order. */
  lemma UnmarkPair(x: Piece, y: Piece, rest: seq<Piece>)
    ensures Unmark([x, y] + rest) == x.text + (y.text + Unmark(rest))
  {
    assert ([x, y] + rest)[1..] == [y] + rest;
    assert ([y] + rest)[1..] == rest;
  }

  /** Of two pieces in front of `rest`, the second alone is highlighted. */
  lemma MarkedPair(a: string, b: string, rest: seq<Piece>)
    ensures MarkedTexts([Plain(a), Marked(b)] + rest) == [b] + MarkedTexts(rest)
  {
    assert ([Plain(a), Marked(b)] + rest)[1..] == [Marked(b)] + rest;
    assert ([Marked(b)] + rest)[1..] == rest;
  }

  /** Two pieces in front of `rest` render one after the other. */
  lemma RenderPair(x: Piece, y: Piece, rest: seq<Piece>, m: Markup)
    ensures Render([x, y] + rest, m) == RenderPiece(x, m) + RenderPiece(y, m) + Render(rest, m)
  {
    assert ([x, y] + rest)[1..] == [y] + rest;
    assert ([y] + rest)[1..] == rest;
    AppendAssoc(RenderPiece(x, m), RenderPiece(y, m), Render(rest, m));
  }

  /** The stretch of `p` a span covers, both ends included. */
  function Covers(p: string, s: Span): string
    requires s.first <= s.last < |p|
  {
    PySlice(p, s.first, s.last + 1)
  }

  /** Every span is non-empty and inside the paragraph. */
  predicate InParagraph(spans: seq<Span>, p: string) {
    forall j :: 0 <= j < |spans| ==> spans[j].first <= spans[j].last < |p|
  }

  /**
   * From span `i` on: if the pieces after span `i` spell the paragraph after
   * it, the pieces from `start` spell the paragraph from `start`.
   */
  lemma SpellStep(p: string, spans: seq<Span>, i: nat, start: nat)
    requires i < |spans| && start <= spans[i].first <= spans[i].last < |p|
    requires Unmark(PiecesAt(p, spans, i + 1, spans[i].last + 1)) == p[spans[i].last + 1..]
    ensures Unmark(PiecesAt(p, spans, i, start)) == p[start..]
  {
    var s := spans[i];
    var rest := PiecesAt(p, spans, i + 1, s.last + 1);
    assert PiecesAt(p, spans, i, start)
      == [Plain(PySlice(p, start, s.first)), Marked(PySlice(p, s.first, s.last + 1))] + rest;
    UnmarkPair(Plain(PySlice(p, start, s.first)), Marked(PySlice(p, s.first, s.last + 1)), rest);
    SplitSuffix(p, start, s.first, s.last + 1);
  }

  /** After the last span, the one remaining piece is the rest of the paragraph. */
  lemma SpellTail(p: string, spans: seq<Span>, start: nat)
    requires start <= |p|
    ensures Unmark(PiecesAt(p, spans, |spans|, start)) == p[start..]
  {
    var ps := PiecesAt(p, spans, |spans|, start);
    assert ps[1..] == [];
  }

  /** Without the markup, the pieces spell out the paragraph from `start` on. */
  lemma {:induction false} PiecesSpellParagraph(p: string, spans: seq<Span>, i: nat, start: nat)
    requires Ordered(spans) && InParagraph(spans, p)
    requires i <= |spans| && start <= |p| && (i < |spans| ==> start <= spans[i].first)
    ensures Unmark(PiecesAt(p, spans, i, start)) == p[start..]
    decreases |spans| - i
  {
    if i == |spans| {
      SpellTail(p, spans, start);
    } else {
      var s := spans[i];
      assert s.first <= s.last < |p|;
      if i + 1 < |spans| {
        assert s.last < spans[i + 1].first;
      }
      PiecesSpellParagraph(p, spans, i + 1, s.last + 1);
      SpellStep(p, spans, i, start);
    }
  }

  /** The stretches spans `i` onwards cover, in order. */
  function CoveredFrom(p: string, spans: seq<Span>, i: nat): (r: seq<string>)
    requires InParagraph(spans, p) && i <= |spans|
    ensures |r| == |spans| - i
    decreases |spans| - i
  {
    if i == |spans| then [] else [Covers(p, spans[i])] + CoveredFrom(p, spans, i + 1)
  }

  /** Every span from `i` on has its stretch among `CoveredFrom(p, spans, i)`. */
  lemma {:induction false} CoveredFromHas(p: string, spans: seq<Span>, i: nat, j: nat)
    requires InParagraph(spans, p) && i <= j < |spans|
    ensures Covers(p, spans[j]) in CoveredFrom(p, spans, i)
    decreases j - i
  {
    if i < j {
      CoveredFromHas(p, spans, i + 1, j);
    }
  }

  /** From span `i` on, the first highlighted text is the stretch span `i` covers. */
  lemma MarkedStep(p: string, spans: seq<Span>, i: nat, start: nat)
    requires InParagraph(spans, p) && i < |spans|
    ensures MarkedTexts(PiecesAt(p, spans, i, start))
      == [Covers(p, spans[i])] + MarkedTexts(PiecesAt(p, spans, i + 1, spans[i].last + 1))
  {
    var s := spans[i];
    var rest := PiecesAt(p, spans, i + 1, s.last + 1);
    assert PiecesAt(p, spans, i, start)
      == [Plain(PySlice(p, start, s.first)), Marked(PySlice(p, s.first, s.last + 1))] + rest;
    MarkedPair(PySlice(p, start, s.first), PySlice(p, s.first, s.last + 1), rest);
  }

  /** After the last span only the plain tail is left, and nothing in it is highlighted. */
  lemma MarkedAtEnd(p: string, spans: seq<Span>, start: nat)
    ensures MarkedTexts(PiecesAt(p, spans, |spans|, start)) == []
  {
    var ps := PiecesAt(p, spans, |spans|, start);
    assert ps == [Plain(PySlice(p, start, |p|))] && ps[1..] == [];
    assert MarkedTexts(ps) == [] + MarkedTexts([]);
  }

  /** The highlighted pieces are exactly the stretches the spans cover, one per span, in order. */
  lemma {:induction false} MarkedAreSpans(p: string, spans: seq<Span>, i: nat, start: nat)
    requires InParagraph(spans, p) && i <= |spans|
    ensures MarkedTexts(PiecesAt(p, spans, i, start)) == CoveredFrom(p, spans, i)
    decreases |spans| - i
  {
    if i == |spans| {
      MarkedAtEnd(p, spans, start);
    } else {
      var s := spans[i];
      MarkedStep(p, spans, i, start);
      MarkedAreSpans(p, spans, i + 1, s.last + 1);
      assert CoveredFrom(p, spans, i) == [Covers(p, s)] + CoveredFrom(p, spans, i + 1);
    }
  }

  /** One turn of the assembly loop: the text before span `i` and the span highlighted come next. */
  lemma AssemblyStep(r: string, p: string, spans: seq<Span>, i: nat, start: nat, m: Markup)
    requires i < |spans|
    ensures r + Render(PiecesAt(p, spans, i, start), m)
      == (r + (PySlice(p, start, spans[i].first) + Highlight(PySlice(p, spans[i].first, spans[i].last + 1), m)))
         + Render(PiecesAt(p, spans, i + 1, spans[i].last + 1), m)
  {
    var s := spans[i];
    var piece := PySlice(p, start, s.first) + Highlight(PySlice(p, s.first, s.last + 1), m);
    var later := Render(PiecesAt(p, spans, i + 1, s.last + 1), m);
    assert PiecesAt(p, spans, i, start)
      == [Plain(PySlice(p, start, s.first)), Marked(PySlice(p, s.first, s.last + 1))] + PiecesAt(p, spans, i + 1, s.last + 1);
    RenderPair(Plain(PySlice(p, start, s.first)), Marked(PySlice(p, s.first, s.last + 1)),
               PiecesAt(p, spans, i + 1, s.last + 1), m);
    AppendAssoc(r, piece, later);
  }

  /**
   * The assembly loop: copies the text before each span, appends the span
   * wrapped in the markup, moves past it, and finally copies the tail. The
   * report runs it with `ReportMarkup`, that is, with `add_color`.
   */
  method Assemble(p: string, spans: seq<Span>, m: Markup) returns (r: string)
    ensures r == Render(Pieces(p, spans), m)
  {
    r := "";
    var start: nat := 0;
    var i := 0;
    while i < |spans|
      invariant 0 <= i <= |spans|
      invariant r + Render(PiecesAt(p, spans, i, start), m) == Render(Pieces(p, spans), m)
    {
      AssemblyStep(r, p, spans, i, start, m);
      r := r + (PySlice(p, start, spans[i].first) + Highlight(PySlice(p, spans[i].first, spans[i].last + 1), m));
      start := spans[i].last + 1;
      i := i + 1;
    }
    assert Render(PiecesAt(p, spans, i, start), m) == PySlice(p, start, |p|);
    r := r + PySlice(p, start, |p|);
  }

  /** The chunks of the normalised paragraph lie inside its offset list. */
  lemma ChunksInsideOffsets(p: string, o: Options, ws: set<char>)
    ensures var f := PreProcessParagraph(p, o);
      InsideOffsets(Chunks(f.text, ws), f.offsets) && Separated(Chunks(f.text, ws))
  {
    var f := PreProcessParagraph(p, o);
    ChunksWithin(f.text, ws, 0);
    ChunksSeparated(f.text, ws, 0);
  }

  /** Some chunk of the normalised paragraph passes the detector's test. */
  predicate SomeChunkFlagged(p: string, o: Options, seg: string -> seq<string>, ws: set<char>) {
    var cs := Chunks(PreProcessParagraph(p, o).text, ws);
    exists k :: 0 <= k < |cs| && Flagged(seg(cs[k].text), o.whiteTables)
  }

  /** The spans the position-reading detector reports for paragraph `p`: some exactly when a chunk is flagged. */
  function FlaggedSpans(p: string, o: Options, seg: string -> seq<string>, ws: set<char>): (spans: seq<Span>)
    ensures spans != [] <==> SomeChunkFlagged(p, o, seg, ws)
  {
    var f := PreProcessParagraph(p, o);
    var cs := Chunks(f.text, ws);
    ChunksInsideOffsets(p, o, ws);
    DetectReportsFlaggedChunks(cs, f.offsets, seg, o.whiteTables);
    var spans := Detect(cs, f.offsets, seg, o.whiteTables);
    assert spans != [] ==> spans[0] in spans;
    spans
  }

  /**
   * `check_single_paragraph`, with each flagged chunk's span read at the
   * chunk's true position: the paragraph with every flagged stretch
   * highlighted, or nothing when no chunk is flagged.
   */
  function CheckSingleParagraph(p: string, o: Options, seg: string -> seq<string>, ws: set<char>)
    : (r: Option<string>)
    ensures r.Some? <==> SomeChunkFlagged(p, o, seg, ws)
  {
    var spans := FlaggedSpans(p, o, seg, ws);
    if spans == [] then None else Some(Render(Pieces(p, spans), ReportMarkup))
  }

  /**
   * The spans the as-written running counter reads for paragraph `p`: one
   * per flagged chunk, so some exactly when a chunk is flagged.
   */
  function FlaggedSpansAsWritten(p: string, o: Options, seg: string -> seq<string>, ws: set<char>)
    : (spans: seq<Span>)
    ensures spans != [] <==> SomeChunkFlagged(p, o, seg, ws)
  {
    var f := PreProcessParagraph(p, o);
    var cs := Chunks(f.text, ws);
    ChunksWithin(f.text, ws, 0);
    ChunksFit(f.text, ws, 0);
    DetectAsWrittenReadsCounter(cs, f.offsets, 0, seg, o.whiteTables);
    DetectAsWritten(cs, f.offsets, 0, seg, o.whiteTables)
  }

  /** `check_single_paragraph` as written, offsets read at the running counter. */
  function CheckSingleParagraphAsWritten(p: string, o: Options, seg: string -> seq<string>, ws: set<char>)
    : (r: Option<string>)
    ensures r.Some? <==> SomeChunkFlagged(p, o, seg, ws)
  {
    var spans := FlaggedSpansAsWritten(p, o, seg, ws);
    if spans == [] then None else Some(Render(Pieces(p, spans), ReportMarkup))
  }

  /** Every span the detector reports is ordered and inside the paragraph. */
  lemma SpansInParagraph(p: string, o: Options, seg: string -> seq<string>, ws: set<char>)
    ensures Ordered(FlaggedSpans(p, o, seg, ws)) && InParagraph(FlaggedSpans(p, o, seg, ws), p)
  {
    var f := PreProcessParagraph(p, o);
    var cs := Chunks(f.text, ws);
    var spans := FlaggedSpans(p, o, seg, ws);
    ChunksInsideOffsets(p, o, ws);
    OffsetsIncrease(p, o);
    DetectOrdered(cs, f.offsets, seg, o.whiteTables);
    DetectReportsFlaggedChunks(cs, f.offsets, seg, o.whiteTables);
    forall j | 0 <= j < |spans|
      ensures spans[j].last < |p|
    {
      assert spans[j] in Detect(cs, f.offsets, seg, o.whiteTables);
      var k :| 0 <= k < |cs| && Flagged(seg(cs[k].text), o.whiteTables) && spans[j] == SpanOf(cs[k], f.offsets);
    }
  }

  /** Every span the as-written counter reads is ordered and inside the paragraph too. */
  lemma AsWrittenSpansInParagraph(p: string, o: Options, seg: string -> seq<string>, ws: set<char>)
    ensures Ordered(FlaggedSpansAsWritten(p, o, seg, ws)) && InParagraph(FlaggedSpansAsWritten(p, o, seg, ws), p)
  {
    var f := PreProcessParagraph(p, o);
    var cs := Chunks(f.text, ws);
    ChunksWithin(f.text, ws, 0);
    ChunksFit(f.text, ws, 0);
    var spans := FlaggedSpansAsWritten(p, o, seg, ws);
    OffsetsIncrease(p, o);
    DetectAsWrittenOrdered(cs, f.offsets, 0, seg, o.whiteTables);
    DetectAsWrittenReadsOffsets(cs, f.offsets, 0, seg, o.whiteTables);
    forall j | 0 <= j < |spans|
      ensures spans[j].last < |p|
    {
      assert spans[j] in spans;
      var k :| 0 <= k < |f.offsets| && f.offsets[k] == spans[j].last;
    }
  }

  /**
   * Offset fidelity for a stretch of the normalised text: the stretch of the
   * paragraph between its first and last kept offsets normalises back to it.
   */
  lemma StretchNormalizes(p: string, o: Options, c: Chunk)
    requires |c.text| > 0 && c.at + |c.text| <= |PreProcessParagraph(p, o).text|
    requires PreProcessParagraph(p, o).text[c.at..c.at + |c.text|] == c.text
    ensures var f := PreProcessParagraph(p, o);
      && SpanOf(c, f.offsets).first <= SpanOf(c, f.offsets).last < |p|
      && PreProcessParagraph(Covers(p, SpanOf(c, f.offsets)), o).text == c.text
  {
    var f := PreProcessParagraph(p, o);
    var j := c.at + |c.text|;
    var lo, last := NormalizeSpan(p, o, c.at, j);
    CoversSlice(p, c, f.offsets, j, lo, last);
  }

  /** The span of a chunk whose first and last offsets are `lo` and `last` covers the slice between them. */
  lemma CoversSlice(p: string, c: Chunk, offsets: seq<nat>, j: nat, lo: nat, last: nat)
    requires |c.text| > 0 && j == c.at + |c.text| <= |offsets|
    requires lo == offsets[c.at] && last == offsets[j - 1] && lo <= last < |p|
    ensures SpanOf(c, offsets) == Span(lo, last)
    ensures Covers(p, SpanOf(c, offsets)) == p[lo..last + 1]
  {
  }

  /** Offset fidelity for one chunk of the normalised paragraph. */
  lemma ChunkStretchNormalizes(p: string, o: Options, ws: set<char>, k: nat)
    requires k < |Chunks(PreProcessParagraph(p, o).text, ws)|
    ensures var f := PreProcessParagraph(p, o);
      var c := Chunks(f.text, ws)[k];
      && |c.text| > 0 && c.at + |c.text| <= |f.offsets|
      && SpanOf(c, f.offsets).first <= SpanOf(c, f.offsets).last < |p|
      && PreProcessParagraph(Covers(p, SpanOf(c, f.offsets)), o).text == c.text
  {
    ChunkIsSlice(PreProcessParagraph(p, o).text, ws, k);
    StretchNormalizes(p, o, Chunks(PreProcessParagraph(p, o).text, ws)[k]);
  }

  /**
   * Every highlighted stretch, normalised, is a chunk the segmenter leaves as
   * one token that is not white-listed and contains an ideograph; so a
   * white-listed word is never highlighted on its own.
   */
  lemma HighlightsAreFlaggedChunks(p: string, o: Options, seg: string -> seq<string>, ws: set<char>)
    ensures var spans := FlaggedSpans(p, o, seg, ws);
      InParagraph(spans, p) &&
      forall j :: 0 <= j < |spans| ==>
        Flagged(seg(PreProcessParagraph(Covers(p, spans[j]), o).text), o.whiteTables)
  {
    var f := PreProcessParagraph(p, o);
    var cs := Chunks(f.text, ws);
    var spans := FlaggedSpans(p, o, seg, ws);
    SpansInParagraph(p, o, seg, ws);
    ChunksInsideOffsets(p, o, ws);
    DetectReportsFlaggedChunks(cs, f.offsets, seg, o.whiteTables);
    forall j | 0 <= j < |spans|
      ensures Flagged(seg(PreProcessParagraph(Covers(p, spans[j]), o).text), o.whiteTables)
    {
      assert spans[j] in Detect(cs, f.offsets, seg, o.whiteTables);
      var k :| 0 <= k < |cs| && Flagged(seg(cs[k].text), o.whiteTables) && spans[j] == SpanOf(cs[k], f.offsets);
      ChunkStretchNormalizes(p, o, ws, k);
    }
  }

  /** Every flagged chunk's stretch of the paragraph is among the highlighted texts. */
  lemma FlaggedChunksAreHighlighted(p: string, o: Options, seg: string -> seq<string>, ws: set<char>, k: nat)
    requires k < |Chunks(PreProcessParagraph(p, o).text, ws)|
    requires Flagged(seg(Chunks(PreProcessParagraph(p, o).text, ws)[k].text), o.whiteTables)
    ensures var f := PreProcessParagraph(p, o);
      var c := Chunks(f.text, ws)[k];
      && |c.text| > 0 && c.at + |c.text| <= |f.offsets|
      && var s := SpanOf(c, f.offsets);
      && s.first <= s.last < |p|
      && CheckSingleParagraph(p, o, seg, ws).Some?
      && Covers(p, s) in MarkedTexts(Pieces(p, FlaggedSpans(p, o, seg, ws)))
  {
    var f := PreProcessParagraph(p, o);
    var cs := Chunks(f.text, ws);
    var spans := FlaggedSpans(p, o, seg, ws);
    assert |cs[k].text| > 0 && cs[k].at + |cs[k].text| <= |f.offsets| by {
      ChunkStretchNormalizes(p, o, ws, k);
    }
    var s := SpanOf(cs[k], f.offsets);
    assert s.first <= s.last < |p| by {
      ChunkStretchNormalizes(p, o, ws, k);
    }
    assert s in spans by {
      ChunksInsideOffsets(p, o, ws);
      DetectReportsFlaggedChunks(cs, f.offsets, seg, o.whiteTables);
    }
    var j :| 0 <= j < |spans| && spans[j] == s;
    assert Covers(p, s) in MarkedTexts(Pieces(p, spans)) by {
      SpansInParagraph(p, o, seg, ws);
      MarkedAreSpans(p, spans, 0, 0);
      CoveredFromHas(p, spans, 0, j);
    }
  }

  /**
   * A paragraph is reported exactly when one of its chunks is flagged, and
   * the report, markup removed, is the paragraph itself, with one
   * highlighted stretch per span.
   */
  lemma ReportedIffFlagged(p: string, o: Options, seg: string -> seq<string>, ws: set<char>)
    ensures var cs := Chunks(PreProcessParagraph(p, o).text, ws);
      CheckSingleParagraph(p, o, seg, ws).Some? <==>
        exists k :: 0 <= k < |cs| && Flagged(seg(cs[k].text), o.whiteTables)
    ensures CheckSingleParagraph(p, o, seg, ws).Some? ==>
      var spans := FlaggedSpans(p, o, seg, ws);
      && CheckSingleParagraph(p, o, seg, ws).value == Render(Pieces(p, spans), ReportMarkup)
      && Unmark(Pieces(p, spans)) == p
      && spans != [] && InParagraph(spans, p)
      && MarkedTexts(Pieces(p, spans)) == CoveredFrom(p, spans, 0)
  {
    var spans := FlaggedSpans(p, o, seg, ws);
    if spans != [] {
      assert Unmark(Pieces(p, spans)) == p by {
        SpansInParagraph(p, o, seg, ws);
        PiecesSpellParagraph(p, spans, 0, 0);
      }
      assert InParagraph(spans, p) && MarkedTexts(Pieces(p, spans)) == CoveredFrom(p, spans, 0) by {
        SpansInParagraph(p, o, seg, ws);
        MarkedAreSpans(p, spans, 0, 0);
      }
    }
  }

  /**
   * The check as written reports a paragraph exactly when one of its chunks
   * is flagged, and its report, markup removed, is the paragraph itself, with
   * one highlighted stretch per span the counter reads.
   */
  lemma AsWrittenReportedIffFlagged(p: string, o: Options, seg: string -> seq<string>, ws: set<char>)
    ensures var cs := Chunks(PreProcessParagraph(p, o).text, ws);
      CheckSingleParagraphAsWritten(p, o, seg, ws).Some? <==>
        exists k :: 0 <= k < |cs| && Flagged(seg(cs[k].text), o.whiteTables)
    ensures CheckSingleParagraphAsWritten(p, o, seg, ws).Some? ==>
      var spans := FlaggedSpansAsWritten(p, o, seg, ws);
      && CheckSingleParagraphAsWritten(p, o, seg, ws).value == Render(Pieces(p, spans), ReportMarkup)
      && Unmark(Pieces(p, spans)) == p
      && spans != [] && InParagraph(spans, p)
      && MarkedTexts(Pieces(p, spans)) == CoveredFrom(p, spans, 0)
  {
    var spans := FlaggedSpansAsWritten(p, o, seg, ws);
    if spans != [] {
      assert Unmark(Pieces(p, spans)) == p by {
        AsWrittenSpansInParagraph(p, o, seg, ws);
        PiecesSpellParagraph(p, spans, 0, 0);
      }
      assert InParagraph(spans, p) && MarkedTexts(Pieces(p, spans)) == CoveredFrom(p, spans, 0) by {
        AsWrittenSpansInParagraph(p, o, seg, ws);
        MarkedAreSpans(p, spans, 0, 0);
      }
    }
  }

  /**
   * When the normalised paragraph has no leading and no repeated whitespace,
   * the as-written running counter reads the same spans as the true
   * positions, so both versions of the check produce the same report.
   */
  lemma AsWrittenAgreesWhenSingleSpaced(p: string, o: Options, seg: string -> seq<string>, ws: set<char>)
    requires SingleSpaced(PreProcessParagraph(p, o).text, ws)
    ensures FlaggedSpansAsWritten(p, o, seg, ws) == FlaggedSpans(p, o, seg, ws)
    ensures CheckSingleParagraphAsWritten(p, o, seg, ws) == CheckSingleParagraph(p, o, seg, ws)
  {
    var f := PreProcessParagraph(p, o);
    CounterTracksPositions(f.text, ws, f.offsets, seg, o.whiteTables);
  }

  /** The segmenter that leaves every chunk whole. */
  function WholeChunk(s: string): seq<string> {
    [s]
  }

  /** The fields of the default options the example reads. */
  lemma DefaultOptionsFields()
    ensures DefaultOptions.ignoreChars == DefaultIgnoreChars
    ensures DefaultOptions.splitPunctuations == DefaultSplitPunctuations
    ensures DefaultOptions.whiteTables == []
  {
  }

  /** The default options keep the ideographs `好` and `坏` as they are. */
  lemma DefaultKeepsIdeograph(c: char)
    requires c == '好' || c == '坏'
    ensures Kept(c, DefaultOptions) && Emitted(c, DefaultOptions) == c
  {
    DefaultOptionsFields();
  }

  /** The default options keep the full-width question and exclamation marks, as spaces. */
  lemma DefaultSplitsMark(c: char)
    requires c == '？' || c == '！'
    ensures Kept(c, DefaultOptions) && Emitted(c, DefaultOptions) == ' '
  {
    DefaultOptionsFields();
    assert DefaultSplitPunctuations[2] == '？' && DefaultSplitPunctuations[0] == '！';
  }

  /** `好？！坏` normalises to `好  坏`: both marks become spaces. */
  lemma DriftExampleNormalizes(p: string)
    requires p == "好？！坏"
    ensures PreProcessParagraph(p, DefaultOptions) == Filtered([0, 1, 2, 3], "好  坏")
  {
    assert |p| == 4 && p[0] == '好' && p[1] == '？' && p[2] == '！' && p[3] == '坏';
    DefaultKeepsIdeograph(p[0]);
    DefaultSplitsMark(p[1]);
    DefaultSplitsMark(p[2]);
    DefaultKeepsIdeograph(p[3]);
    FourKept(p, DefaultOptions);
  }

  /** Four characters, all kept, normalise to their emitted forms at offsets 0 to 3. */
  lemma FourKept(p: string, o: Options)
    requires |p| == 4 && Kept(p[0], o) && Kept(p[1], o) && Kept(p[2], o) && Kept(p[3], o)
    ensures PreProcessParagraph(p, o)
         == Filtered([0, 1, 2, 3], [Emitted(p[0], o), Emitted(p[1], o), Emitted(p[2], o), Emitted(p[3], o)])
  {
    assert PreProcessParagraph(p[..0], o) == Filtered([], []);
    KeptStep(p, 0, o, [], []);
    KeptStep(p, 1, o, [0], [Emitted(p[0], o)]);
    KeptStep(p, 2, o, [0, 1], [Emitted(p[0], o), Emitted(p[1], o)]);
    KeptStep(p, 3, o, [0, 1, 2], [Emitted(p[0], o), Emitted(p[1], o), Emitted(p[2], o)]);
    assert p[..4] == p;
  }

  /** Keeping the character at `k` extends the normalised prefix by its emitted form at offset `k`. */
  lemma KeptStep(p: string, k: nat, o: Options, offsets: seq<nat>, text: string)
    requires k < |p| && Kept(p[k], o)
    requires PreProcessParagraph(p[..k], o) == Filtered(offsets, text)
    ensures PreProcessParagraph(p[..k + 1], o) == Filtered(offsets + [k], text + [Emitted(p[k], o)])
  {
    assert p[..k + 1] == p[..k] + [p[k]];
    PreProcessSnoc(p[..k], p[k], o);
  }

  /** `好  坏` splits into `好` at 0 and `坏` at 3. */
  lemma DriftExampleChunks()
    ensures Chunks("好  坏", {' '}) == [Chunk(0, "好"), Chunk(3, "坏")]
  {
    var t := "好  坏";
    var ws := {' '};
    assert Word(t, ws, 1) == [];
    assert Word(t, ws, 0) == "好";
    assert SkipSpace(t, ws, 0) == 0;
    assert Word(t, ws, 4) == [];
    assert Word(t, ws, 3) == "坏";
    assert SkipSpace(t, ws, 2) == 3;
    assert ChunksFrom(t, ws, 2) == [Chunk(3, "坏")];
  }

  /** Both chunks of the example are flagged: each is one ideograph the segmenter leaves whole. */
  lemma DriftExampleFlagged()
    ensures Flagged(WholeChunk("好"), DefaultOptions.whiteTables)
    ensures Flagged(WholeChunk("坏"), DefaultOptions.whiteTables)
  {
    assert DefaultOptions.whiteTables == [];
    assert IsCjkNarrow("好"[0]) && IsCjkNarrow("坏"[0]);
  }

  /** The example normalises to two one-character chunks, `好` at 0 and `坏` at 3, both flagged. */
  lemma DriftExampleChunksFlagged(p: string)
    requires p == "好？！坏"
    ensures PreProcessParagraph(p, DefaultOptions) == Filtered([0, 1, 2, 3], "好  坏")
    ensures Chunks(PreProcessParagraph(p, DefaultOptions).text, {' '}) == [Chunk(0, "好"), Chunk(3, "坏")]
    ensures Flagged(WholeChunk("好"), DefaultOptions.whiteTables) && Flagged(WholeChunk("坏"), DefaultOptions.whiteTables)
  {
    DriftExampleNormalizes(p);
    DriftExampleChunks();
    DriftExampleFlagged();
  }

  /** Reading true positions, the spans of the example are those of `好` and `坏`. */
  lemma DriftExampleSpans(p: string)
    requires p == "好？！坏"
    ensures FlaggedSpans(p, DefaultOptions, WholeChunk, {' '}) == [Span(0, 0), Span(3, 3)]
  {
    DriftExampleChunksFlagged(p);
    var cs := [Chunk(0, "好"), Chunk(3, "坏")];
    assert cs[1..] == [Chunk(3, "坏")] && cs[1..][1..] == [];
    assert Detect(cs, [0, 1, 2, 3], WholeChunk, DefaultOptions.whiteTables) == [Span(0, 0), Span(3, 3)];
  }

  /** The as-written counter reads the second span one place early, at 2. */
  lemma DriftExampleSpansAsWritten(p: string)
    requires p == "好？！坏"
    ensures FlaggedSpansAsWritten(p, DefaultOptions, WholeChunk, {' '}) == [Span(0, 0), Span(2, 2)]
  {
    DriftExampleChunksFlagged(p);
    CounterOnExample(DefaultOptions.whiteTables);
  }

  /** On the example's two flagged chunks the running counter gives spans at 0 and at 2. */
  lemma CounterOnExample(white: seq<string>)
    requires Flagged(WholeChunk("好"), white) && Flagged(WholeChunk("坏"), white)
    ensures DetectAsWritten([Chunk(0, "好"), Chunk(3, "坏")], [0, 1, 2, 3], 0, WholeChunk, white)
         == [Span(0, 0), Span(2, 2)]
  {
    var cs := [Chunk(0, "好"), Chunk(3, "坏")];
    assert cs[1..] == [Chunk(3, "坏")] && cs[1..][1..] == [];
  }

  /** Two spans give five pieces: text, highlight, text, highlight, text. */
  lemma RenderFive(a: string, b: string, c: string, d: string, e: string, m: Markup)
    ensures Render([Plain(a), Marked(b), Plain(c), Marked(d), Plain(e)], m)
         == a + Highlight(b, m) + c + Highlight(d, m) + e
  {
    var hb, hd := Highlight(b, m), Highlight(d, m);
    var p5 := [Plain(e)];
    var p4 := [Marked(d)] + p5;
    var p3 := [Plain(c)] + p4;
    var p2 := [Marked(b)] + p3;
    var p1 := [Plain(a)] + p2;
    assert p5[1..] == [] && p4[1..] == p5 && p3[1..] == p4 && p2[1..] == p3 && p1[1..] == p2;
    assert Render(p5, m) == e;
    assert Render(p4, m) == hd + e;
    assert Render(p3, m) == c + (hd + e);
    assert Render(p2, m) == hb + (c + (hd + e));
    assert Render(p1, m) == a + (hb + (c + (hd + e)));
    assert p1 == [Plain(a), Marked(b), Plain(c), Marked(d), Plain(e)];
    AppendAssoc(a + hb + c, hd, e);
    AppendAssoc(a + hb, c, hd + e);
    AppendAssoc(a, hb, c + (hd + e));
  }

  /** Two ordered spans inside the paragraph cut it into five pieces. */
  lemma PiecesOfTwo(p: string, s0: Span, s1: Span)
    requires s0.first <= s0.last < s1.first <= s1.last < |p|
    ensures Pieces(p, [s0, s1])
         == [Plain(p[..s0.first]), Marked(p[s0.first..s0.last + 1]), Plain(p[s0.last + 1..s1.first]),
             Marked(p[s1.first..s1.last + 1]), Plain(p[s1.last + 1..])]
  {
    var spans := [s0, s1];
    var tail := [Plain(p[s1.last + 1..])];
    assert p[s1.last + 1..|p|] == p[s1.last + 1..];
    assert PiecesAt(p, spans, 2, s1.last + 1) == tail;
    assert PiecesAt(p, spans, 1, s0.last + 1)
        == [Plain(p[s0.last + 1..s1.first]), Marked(p[s1.first..s1.last + 1])] + tail;
    assert PiecesAt(p, spans, 0, 0)
        == [Plain(p[..s0.first]), Marked(p[s0.first..s0.last + 1])] + PiecesAt(p, spans, 1, s0.last + 1);
  }

  /** The report for two ordered spans: the paragraph with both stretches wrapped by `add_color`. */
  lemma ReportOfTwo(p: string, s0: Span, s1: Span)
    requires s0.first <= s0.last < s1.first <= s1.last < |p|
    ensures Render(Pieces(p, [s0, s1]), ReportMarkup)
         == p[..s0.first] + AddColor(p[s0.first..s0.last + 1], DefaultColor) + p[s0.last + 1..s1.first]
            + AddColor(p[s1.first..s1.last + 1], DefaultColor) + p[s1.last + 1..]
  {
    PiecesOfTwo(p, s0, s1);
    RenderFive(p[..s0.first], p[s0.first..s0.last + 1], p[s0.last + 1..s1.first],
               p[s1.first..s1.last + 1], p[s1.last + 1..], ReportMarkup);
  }

  /** A paragraph with two as-written spans is reported with both stretches wrapped. */
  lemma AsWrittenReportOfTwo(p: string, o: Options, seg: string -> seq<string>, ws: set<char>, s0: Span, s1: Span)
    requires FlaggedSpansAsWritten(p, o, seg, ws) == [s0, s1]
    requires s0.first <= s0.last < s1.first <= s1.last < |p|
    ensures CheckSingleParagraphAsWritten(p, o, seg, ws)
         == Some(p[..s0.first] + AddColor(p[s0.first..s0.last + 1], DefaultColor) + p[s0.last + 1..s1.first]
                 + AddColor(p[s1.first..s1.last + 1], DefaultColor) + p[s1.last + 1..])
  {
    ReportOfTwo(p, s0, s1);
  }

  /** A paragraph with two spans at their true positions is reported with both stretches wrapped. */
  lemma CorrectedReportOfTwo(p: string, o: Options, seg: string -> seq<string>, ws: set<char>, s0: Span, s1: Span)
    requires FlaggedSpans(p, o, seg, ws) == [s0, s1]
    requires s0.first <= s0.last < s1.first <= s1.last < |p|
    ensures CheckSingleParagraph(p, o, seg, ws)
         == Some(p[..s0.first] + AddColor(p[s0.first..s0.last + 1], DefaultColor) + p[s0.last + 1..s1.first]
                 + AddColor(p[s1.first..s1.last + 1], DefaultColor) + p[s1.last + 1..])
  {
    ReportOfTwo(p, s0, s1);
  }

  /**
   * With two clause marks in a row, the as-written counter falls one place
   * behind: for `好？！坏` it highlights the exclamation mark `p[2..3]` and
   * leaves `坏` plain.
   */
  lemma CounterDriftExample(p: string)
    requires p == "好？！坏"
    ensures FlaggedSpansAsWritten(p, DefaultOptions, WholeChunk, {' '}) == [Span(0, 0), Span(2, 2)]
    ensures CheckSingleParagraphAsWritten(p, DefaultOptions, WholeChunk, {' '})
         == Some(p[..0] + AddColor(p[0..1], DefaultColor) + p[1..2] + AddColor(p[2..3], DefaultColor) + p[3..])
  {
    assert |p| == 4;
    DriftExampleSpansAsWritten(p);
    AsWrittenReportOfTwo(p, DefaultOptions, WholeChunk, {' '}, Span(0, 0), Span(2, 2));
  }

  /** Reading true positions, the report for `好？！坏` highlights `好` and `坏` and nothing else. */
  lemma DriftExampleCorrected(p: string)
    requires p == "好？！坏"
    ensures FlaggedSpans(p, DefaultOptions, WholeChunk, {' '}) == [Span(0, 0), Span(3, 3)]
    ensures CheckSingleParagraph(p, DefaultOptions, WholeChunk, {' '})
         == Some(p[..0] + AddColor(p[0..1], DefaultColor) + p[1..3] + AddColor(p[3..4], DefaultColor) + p[4..])
  {
    assert |p| == 4;
    DriftExampleSpans(p);
    CorrectedReportOfTwo(p, DefaultOptions, WholeChunk, {' '}, Span(0, 0), Span(3, 3));
  }

  /**
   * Where the check reads each flagged chunk's span: at the running counter,
   * as `check_single_paragraph` is written, or at the chunk's true position.
   */
  datatype Reading = AtCounter | AtPosition

  /** `check_single_paragraph` with the chosen reading. */
  function Check(rd: Reading, p: string, o: Options, seg: string -> seq<string>, ws: set<char>)
    : (r: Option<string>)
    ensures r.Some? <==> SomeChunkFlagged(p, o, seg, ws)
  {
    match rd
    case AtCounter => CheckSingleParagraphAsWritten(p, o, seg, ws)
    case AtPosition => CheckSingleParagraph(p, o, seg, ws)
  }

  /**
   * `check_all_paragraph`'s loop: each kept paragraph is checked in turn, and
   * the report of every paragraph with a flagged chunk joins the error list.
   */
  function ErrorParagraphs(texts: seq<string>, rd: Reading, o: Options, seg: string -> seq<string>, ws: set<char>)
    : (r: seq<string>)
    ensures |r| <= |texts|
  {
    if texts == [] then []
    else
      var head := Check(rd, texts[0], o, seg, ws);
      (if head.Some? then [head.value] else []) + ErrorParagraphs(texts[1..], rd, o, seg, ws)
  }

  /**
   * The error list of two runs of paragraphs is the first run's list followed
   * by the second's: reports keep the order of their paragraphs.
   */
  lemma {:induction false} ErrorParagraphsConcat(a: seq<string>, b: seq<string>, rd: Reading, o: Options,
                                                 seg: string -> seq<string>, ws: set<char>)
    ensures ErrorParagraphs(a + b, rd, o, seg, ws)
         == ErrorParagraphs(a, rd, o, seg, ws) + ErrorParagraphs(b, rd, o, seg, ws)
    decreases |a|
  {
    if a == [] {
      assert a + b == b;
    } else {
      ConcatTail(a, b);
      ErrorParagraphsConcat(a[1..], b, rd, o, seg, ws);
      var head := Check(rd, a[0], o, seg, ws);
      var h := if head.Some? then [head.value] else [];
      AppendAssoc(h, ErrorParagraphs(a[1..], rd, o, seg, ws), ErrorParagraphs(b, rd, o, seg, ws));
    }
  }

  /** One paragraph contributes its report once when a chunk is flagged, and nothing otherwise. */
  lemma ErrorParagraphsOne(t: string, rd: Reading, o: Options, seg: string -> seq<string>, ws: set<char>)
    ensures ErrorParagraphs([t], rd, o, seg, ws)
         == if SomeChunkFlagged(t, o, seg, ws) then [Check(rd, t, o, seg, ws).value] else []
  {
  }

  /**
   * The error list holds exactly the reports of the paragraphs in which a
   * chunk is flagged, and nothing else.
   */
  lemma {:induction false} ErrorParagraphsAreReports(texts: seq<string>, rd: Reading, o: Options,
                                                     seg: string -> seq<string>, ws: set<char>, s: string)
    ensures s in ErrorParagraphs(texts, rd, o, seg, ws) <==>
      exists i :: 0 <= i < |texts| && Check(rd, texts[i], o, seg, ws) == Some(s)
    decreases |texts|
  {
    if texts != [] {
      ErrorParagraphsAreReports(texts[1..], rd, o, seg, ws, s);
      if exists i :: 0 <= i < |texts| && Check(rd, texts[i], o, seg, ws) == Some(s) {
        var i :| 0 <= i < |texts| && Check(rd, texts[i], o, seg, ws) == Some(s);
        if i > 0 {
          assert texts[1..][i - 1] == texts[i];
        }
      }
      if exists i :: 0 <= i < |texts[1..]| && Check(rd, texts[1..][i], o, seg, ws) == Some(s) {
        var i :| 0 <= i < |texts[1..]| && Check(rd, texts[1..][i], o, seg, ws) == Some(s);
        assert texts[i + 1] == texts[1..][i];
      }
    }
  }

  /**
   * The whole check: the paragraphs the scan keeps, from the initial state,
   * each checked, the reports collected in document order; at most one per
   * paragraph of the document.
   */
  function CheckAllParagraph(ps: seq<Paragraph>, rd: Reading, o: Options, seg: string -> seq<string>, ws: set<char>)
    : (r: seq<string>)
    ensures |r| <= |ps|
  {
    ErrorParagraphs(GetAllValidParagraph(ps, InitialState, o).kept, rd, o, seg, ws)
  }

  /**
   * The whole check's error list is the error list of the kept paragraphs'
   * stripped texts, taken in document order; with `ErrorParagraphsConcat` and
   * `ErrorParagraphsOne` this fixes every entry, its position and its repeats.
   */
  lemma CheckAllParagraphInOrder(ps: seq<Paragraph>, rd: Reading, o: Options, seg: string -> seq<string>,
                                 ws: set<char>)
    ensures CheckAllParagraph(ps, rd, o, seg, ws)
         == ErrorParagraphs(TextsAt(ps, ValidIndicesFrom(ps, InitialState, o, 0)), rd, o, seg, ws)
  {
    KeptAreTheValidParagraphs(ps, InitialState, o);
  }

  /**
   * Every entry of the error list is the report of a paragraph the scan kept
   * and in which a chunk is flagged; each such report is listed.
   */
  lemma ErrorsComeFromKeptParagraphs(ps: seq<Paragraph>, rd: Reading, o: Options, seg: string -> seq<string>,
                                     ws: set<char>, s: string)
    ensures s in CheckAllParagraph(ps, rd, o, seg, ws) <==>
      exists j :: 0 <= j < |ValidIndicesFrom(ps, InitialState, o, 0)| &&
        Check(rd, Strip(ps[ValidIndicesFrom(ps, InitialState, o, 0)[j]].text, KeptStripChars), o, seg, ws)
          == Some(s)
  {
    var ix := ValidIndicesFrom(ps, InitialState, o, 0);
    var kept := GetAllValidParagraph(ps, InitialState, o).kept;
    KeptAreTheValidParagraphs(ps, InitialState, o);
    ErrorParagraphsAreReports(kept, rd, o, seg, ws, s);
    assert forall j :: 0 <= j < |ix| ==> kept[j] == Strip(ps[ix[j]].text, KeptStripChars);
  }
}
