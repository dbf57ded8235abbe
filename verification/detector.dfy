/**
 * The detector: splits the normalised text on whitespace, segments every
 * chunk, and reports the chunks that come out as one lone, non-white-listed
 * token containing an ideograph, as spans of offsets into the original
 * paragraph.
 */
module Detector {
  import opened Text
  import opened Seqs

  /** A maximal run of non-whitespace characters and the position where it starts. */
  datatype Chunk = Chunk(at: nat, text: string)

  /** An anomaly: the first and the last original offset of a flagged chunk, both inclusive. */
  datatype Span = Span(first: nat, last: nat)

  /** The first position at or after `i` that is not whitespace, or the end. */
  function SkipSpace(t: string, ws: set<char>, i: nat): (r: nat)
    requires i <= |t|
    ensures i <= r <= |t|
    ensures r < |t| ==> t[r] !in ws
    decreases |t| - i
  {
    if i == |t| || t[i] !in ws then i else SkipSpace(t, ws, i + 1)
  }

  /** Everything `SkipSpace` passes over is whitespace. */
  lemma {:induction false} SkippedSpace(t: string, ws: set<char>, i: nat, q: nat)
    requires i <= q < |t| && q < SkipSpace(t, ws, i)
    ensures t[q] in ws
    decreases |t| - i
  {
    if q > i {
      SkippedSpace(t, ws, i + 1, q);
    }
  }

  /** The run of non-whitespace characters that starts at `i`. */
  function Word(t: string, ws: set<char>, i: nat): (w: string)
    requires i <= |t|
    ensures i + |w| <= |t|
    ensures i + |w| < |t| ==> t[i + |w|] in ws
    ensures i < |t| && t[i] !in ws ==> |w| > 0
    decreases |t| - i
  {
    if i == |t| || t[i] in ws then [] else [t[i]] + Word(t, ws, i + 1)
  }

  /** The run starting at `i` copies the text there, and holds no whitespace. */
  lemma {:induction false} WordChars(t: string, ws: set<char>, i: nat, q: nat)
    requires i <= |t| && q < |Word(t, ws, i)|
    ensures Word(t, ws, i)[q] == t[i + q] && t[i + q] !in ws
    decreases |t| - i
  {
    if q > 0 {
      WordChars(t, ws, i + 1, q - 1);
    }
  }

  /** The first position at or after `i` that is whitespace, or the end. */
  function SkipWord(t: string, ws: set<char>, i: nat): (r: nat)
    requires i <= |t|
    ensures i <= r <= |t|
    ensures r < |t| ==> t[r] in ws
  {
    i + |Word(t, ws, i)|
  }

  /** Chunk `c` is a maximal whitespace-free run of `t`. */
  ghost predicate IsRunOf(t: string, ws: set<char>, c: Chunk) {
    && |c.text| > 0
    && c.at + |c.text| <= |t|
    && (forall q :: 0 <= q < |c.text| ==> c.text[q] == t[c.at + q] && c.text[q] !in ws)
    && (c.at + |c.text| == |t| || t[c.at + |c.text|] in ws)
    && (c.at == 0 || t[c.at - 1] in ws)
  }

  /** Every chunk of `cs` is a maximal whitespace-free run of `t`. */
  ghost predicate AllRuns(t: string, ws: set<char>, cs: seq<Chunk>) {
    forall j :: 0 <= j < |cs| ==> IsRunOf(t, ws, cs[j])
  }

  /** Each chunk ends, and at least one whitespace character passes, before any later one starts. */
  predicate Separated(cs: seq<Chunk>) {
    forall j, k :: 0 <= j < k < |cs| ==> cs[j].at + |cs[j].text| < cs[k].at
  }

  /** Every chunk is non-empty, starts at or after `i` and ends inside `t`. */
  predicate WithinText(cs: seq<Chunk>, i: nat, n: nat) {
    forall j :: 0 <= j < |cs| ==> i <= cs[j].at && |cs[j].text| > 0 && cs[j].at + |cs[j].text| <= n
  }

  /**
   * `t.split()` from position `i` on, with each piece's position: the pieces
   * lie inside the text, in order, with whitespace between.
   */
  function ChunksFrom(t: string, ws: set<char>, i: nat): (cs: seq<Chunk>)
    requires i <= |t| && (i == 0 || t[i - 1] in ws)
    decreases |t| - i
  {
    var a := SkipSpace(t, ws, i);
    if a == |t| then []
    else
      var c := Chunk(a, Word(t, ws, a));
      var e := a + |c.text|;
      if e == |t| then [c] else [c] + ChunksFrom(t, ws, e + 1)
  }

  /** A non-empty chunk inside `[i, n)` in front of chunks inside `[j, n)`, `i <= j`, keeps them all inside `[i, n)`. */
  lemma ConsWithin(c: Chunk, rest: seq<Chunk>, i: nat, j: nat, n: nat)
    requires i <= c.at && |c.text| > 0 && c.at + |c.text| <= n
    requires i <= j && WithinText(rest, j, n)
    ensures WithinText([c] + rest, i, n)
  {
    var cs := [c] + rest;
    forall k | 0 <= k < |cs|
      ensures i <= cs[k].at && |cs[k].text| > 0 && cs[k].at + |cs[k].text| <= n
    {
      if k > 0 {
        assert cs[k] == rest[k - 1];
      }
    }
  }

  /** A chunk ending before chunks that start after it keeps separated chunks separated. */
  lemma ConsSeparated(c: Chunk, rest: seq<Chunk>, n: nat)
    requires Separated(rest) && WithinText(rest, c.at + |c.text| + 1, n)
    ensures Separated([c] + rest)
  {
    var cs := [c] + rest;
    forall j, k | 0 <= j < k < |cs|
      ensures cs[j].at + |cs[j].text| < cs[k].at
    {
      assert cs[k] == rest[k - 1];
      if j > 0 {
        assert cs[j] == rest[j - 1];
      }
    }
  }

  /** A maximal run in front of maximal runs keeps every chunk a maximal run. */
  lemma ConsRuns(t: string, ws: set<char>, c: Chunk, rest: seq<Chunk>)
    requires IsRunOf(t, ws, c) && AllRuns(t, ws, rest)
    ensures AllRuns(t, ws, [c] + rest)
  {
    var cs := [c] + rest;
    forall j | 0 <= j < |cs|
      ensures IsRunOf(t, ws, cs[j])
    {
      if j > 0 {
        assert cs[j] == rest[j - 1];
      }
    }
  }

  /**
   * `ChunksFrom` from a position where a run starts: the run up to the next
   * whitespace, then the chunks after that whitespace.
   */
  lemma ChunksFromStep(t: string, ws: set<char>, i: nat) returns (c: Chunk, e: nat)
    requires i <= |t| && (i == 0 || t[i - 1] in ws)
    requires SkipSpace(t, ws, i) < |t|
    ensures c.at == SkipSpace(t, ws, i) && e == SkipWord(t, ws, c.at) && i <= c.at < e <= |t|
    ensures c.text == Word(t, ws, c.at) && |c.text| == e - c.at
    ensures e < |t| ==> ChunksFrom(t, ws, i) == [c] + ChunksFrom(t, ws, e + 1)
    ensures e == |t| ==> ChunksFrom(t, ws, i) == [c]
  {
    var a := SkipSpace(t, ws, i);
    e := SkipWord(t, ws, a);
    c := Chunk(a, Word(t, ws, a));
  }

  /** Where the text ends after the first run, it is the only piece. */
  lemma LastRun(t: string, ws: set<char>, i: nat)
    requires i <= |t| && (i == 0 || t[i - 1] in ws)
    requires SkipSpace(t, ws, i) < |t| && SkipWord(t, ws, SkipSpace(t, ws, i)) == |t|
    ensures WithinText(ChunksFrom(t, ws, i), i, |t|) && Separated(ChunksFrom(t, ws, i))
  {
    var c, e := ChunksFromStep(t, ws, i);
    ConsWithin(c, [], i, e + 1, |t|);
    assert [c] + [] == [c];
  }

  /** If the pieces after the first run lie inside the text, so do all of them. */
  lemma WithinStep(t: string, ws: set<char>, i: nat)
    requires i <= |t| && (i == 0 || t[i - 1] in ws)
    requires SkipSpace(t, ws, i) < |t| && SkipWord(t, ws, SkipSpace(t, ws, i)) < |t|
    requires WithinText(ChunksFrom(t, ws, SkipWord(t, ws, SkipSpace(t, ws, i)) + 1),
                        SkipWord(t, ws, SkipSpace(t, ws, i)) + 1, |t|)
    ensures WithinText(ChunksFrom(t, ws, i), i, |t|)
  {
    var c, e := ChunksFromStep(t, ws, i);
    ConsWithin(c, ChunksFrom(t, ws, e + 1), i, e + 1, |t|);
  }

  /** If the pieces after the first run are separated and lie after it, all of them are separated. */
  lemma SeparatedStep(t: string, ws: set<char>, i: nat)
    requires i <= |t| && (i == 0 || t[i - 1] in ws)
    requires SkipSpace(t, ws, i) < |t| && SkipWord(t, ws, SkipSpace(t, ws, i)) < |t|
    requires WithinText(ChunksFrom(t, ws, SkipWord(t, ws, SkipSpace(t, ws, i)) + 1),
                        SkipWord(t, ws, SkipSpace(t, ws, i)) + 1, |t|)
    requires Separated(ChunksFrom(t, ws, SkipWord(t, ws, SkipSpace(t, ws, i)) + 1))
    ensures Separated(ChunksFrom(t, ws, i))
  {
    var c, e := ChunksFromStep(t, ws, i);
    ConsSeparated(c, ChunksFrom(t, ws, e + 1), |t|);
  }

  /** The pieces are non-empty and lie inside the text, at or after `i`. */
  lemma {:induction false} ChunksWithin(t: string, ws: set<char>, i: nat)
    requires i <= |t| && (i == 0 || t[i - 1] in ws)
    ensures WithinText(ChunksFrom(t, ws, i), i, |t|)
    decreases |t| - i
  {
    if SkipSpace(t, ws, i) < |t| {
      var e := SkipWord(t, ws, SkipSpace(t, ws, i));
      if e < |t| {
        ChunksWithin(t, ws, e + 1);
        WithinStep(t, ws, i);
      } else {
        LastRun(t, ws, i);
      }
    }
  }

  /** The pieces come in order, with whitespace between any two of them. */
  lemma {:induction false} ChunksSeparated(t: string, ws: set<char>, i: nat)
    requires i <= |t| && (i == 0 || t[i - 1] in ws)
    ensures Separated(ChunksFrom(t, ws, i))
    decreases |t| - i
  {
    if SkipSpace(t, ws, i) < |t| {
      var e := SkipWord(t, ws, SkipSpace(t, ws, i));
      if e < |t| {
        ChunksSeparated(t, ws, e + 1);
        ChunksWithin(t, ws, e + 1);
        SeparatedStep(t, ws, i);
      } else {
        LastRun(t, ws, i);
      }
    }
  }

  /** The chunk `ChunksFrom` produces first is a maximal whitespace-free run. */
  lemma FirstChunkIsRun(t: string, ws: set<char>, i: nat, c: Chunk, e: nat)
    requires i <= |t| && (i == 0 || t[i - 1] in ws)
    requires c.at == SkipSpace(t, ws, i) && e == SkipWord(t, ws, c.at) && i <= c.at < e <= |t|
    requires c.text == Word(t, ws, c.at)
    ensures IsRunOf(t, ws, c)
  {
    forall q | 0 <= q < |c.text|
      ensures c.text[q] == t[c.at + q] && c.text[q] !in ws
    {
      WordChars(t, ws, c.at, q);
    }
    if c.at > i {
      SkippedSpace(t, ws, i, c.at - 1);
    }
  }

  /** A first run in front of maximal runs gives maximal runs only. */
  lemma RunsStep(t: string, ws: set<char>, i: nat)
    requires i <= |t| && (i == 0 || t[i - 1] in ws)
    requires SkipSpace(t, ws, i) < |t|
    requires SkipWord(t, ws, SkipSpace(t, ws, i)) < |t| ==>
      AllRuns(t, ws, ChunksFrom(t, ws, SkipWord(t, ws, SkipSpace(t, ws, i)) + 1))
    ensures AllRuns(t, ws, ChunksFrom(t, ws, i))
  {
    var c, e := ChunksFromStep(t, ws, i);
    FirstChunkIsRun(t, ws, i, c, e);
    if e < |t| {
      ConsRuns(t, ws, c, ChunksFrom(t, ws, e + 1));
    } else {
      ConsRuns(t, ws, c, []);
      assert [c] + [] == [c];
    }
  }

  /** The pieces are exactly the maximal whitespace-free runs of `t`. */
  lemma {:induction false} ChunksAreRuns(t: string, ws: set<char>, i: nat)
    requires i <= |t| && (i == 0 || t[i - 1] in ws)
    ensures AllRuns(t, ws, ChunksFrom(t, ws, i))
    decreases |t| - i
  {
    if SkipSpace(t, ws, i) < |t| {
      var e := SkipWord(t, ws, SkipSpace(t, ws, i));
      if e < |t| {
        ChunksAreRuns(t, ws, e + 1);
      }
      RunsStep(t, ws, i);
    }
  }

  /** `t.split()` with positions. */
  function Chunks(t: string, ws: set<char>): seq<Chunk> {
    ChunksFrom(t, ws, 0)
  }

  /** Each piece of `split()` is the slice of the text at its position. */
  lemma ChunkIsSlice(t: string, ws: set<char>, k: nat)
    requires k < |Chunks(t, ws)|
    ensures var c := Chunks(t, ws)[k];
      |c.text| > 0 && c.at + |c.text| <= |t| && t[c.at..c.at + |c.text|] == c.text
  {
    ChunksAreRuns(t, ws, 0);
    var c := Chunks(t, ws)[k];
    assert IsRunOf(t, ws, c);
    assert t[c.at..c.at + |c.text|] == c.text;
  }

  /** Position `q` lies inside one of the chunks. */
  ghost predicate Covered(cs: seq<Chunk>, q: nat) {
    exists j :: 0 <= j < |cs| && cs[j].at <= q < cs[j].at + |cs[j].text|
  }

  /** Position `q` inside the first chunk, or inside one of the rest, is inside one of all of them. */
  lemma ConsCovered(c: Chunk, rest: seq<Chunk>, q: nat)
    requires c.at <= q < c.at + |c.text| || Covered(rest, q)
    ensures Covered([c] + rest, q)
  {
    var cs := [c] + rest;
    if c.at <= q < c.at + |c.text| {
      assert cs[0] == c;
    } else {
      var j :| 0 <= j < |rest| && rest[j].at <= q < rest[j].at + |rest[j].text|;
      assert cs[j + 1] == rest[j];
    }
  }

  /** A position inside the first run, or covered by the pieces after it, is covered by all of them. */
  lemma CoverStep(t: string, ws: set<char>, i: nat, q: nat)
    requires i <= |t| && (i == 0 || t[i - 1] in ws)
    requires SkipSpace(t, ws, i) <= q < |t|
    requires || q < SkipWord(t, ws, SkipSpace(t, ws, i))
             || (SkipWord(t, ws, SkipSpace(t, ws, i)) < |t|
                 && Covered(ChunksFrom(t, ws, SkipWord(t, ws, SkipSpace(t, ws, i)) + 1), q))
    ensures Covered(ChunksFrom(t, ws, i), q)
  {
    var c, e := ChunksFromStep(t, ws, i);
    if e < |t| {
      ConsCovered(c, ChunksFrom(t, ws, e + 1), q);
    } else {
      ConsCovered(c, [], q);
      assert [c] + [] == [c];
    }
  }

  /** Every non-whitespace character at or after `i` lies inside one of the chunks. */
  lemma {:induction false} ChunksCover(t: string, ws: set<char>, i: nat, q: nat)
    requires i <= q < |t| && t[q] !in ws
    requires i == 0 || t[i - 1] in ws
    ensures Covered(ChunksFrom(t, ws, i), q)
    decreases |t| - i
  {
    assert SkipSpace(t, ws, i) <= q by {
      if q < SkipSpace(t, ws, i) {
        SkippedSpace(t, ws, i, q);
      }
    }
    var e := SkipWord(t, ws, SkipSpace(t, ws, i));
    if e <= q {
      assert t[e] in ws;
      ChunksCover(t, ws, e + 1, q);
    }
    CoverStep(t, ws, i, q);
  }

  /** How far the running counter advances over `cs`: each chunk's length plus one. */
  function Width(cs: seq<Chunk>): nat {
    if cs == [] then 0 else |cs[0].text| + 1 + Width(cs[1..])
  }

  /** A chunk in front adds its length and one delimiter to the width. */
  lemma WidthCons(c: Chunk, rest: seq<Chunk>)
    ensures Width([c] + rest) == |c.text| + 1 + Width(rest)
  {
    assert ([c] + rest)[1..] == rest;
  }

  /**
   * Separated chunks inside `[i, n)` fit in it even when counted with one
   * delimiter after each.
   */
  lemma {:induction false} SeparatedWidth(cs: seq<Chunk>, i: nat, n: nat)
    requires i <= n + 1 && Separated(cs) && WithinText(cs, i, n)
    ensures Width(cs) <= n - i + 1
    decreases |cs|
  {
    if cs != [] {
      var c := cs[0];
      var rest := cs[1..];
      assert cs == [c] + rest;
      assert Separated(rest) && WithinText(rest, c.at + |c.text| + 1, n) by {
        forall j | 0 <= j < |rest|
          ensures c.at + |c.text| + 1 <= rest[j].at && |rest[j].text| > 0 && rest[j].at + |rest[j].text| <= n
        {
          assert rest[j] == cs[j + 1];
        }
        forall j, k | 0 <= j < k < |rest|
          ensures rest[j].at + |rest[j].text| < rest[k].at
        {
          assert rest[j] == cs[j + 1] && rest[k] == cs[k + 1];
        }
      }
      SeparatedWidth(rest, c.at + |c.text| + 1, n);
      WidthCons(c, rest);
    }
  }

  /**
   * The chunks of `t[i..]` fit in it even when counted with one delimiter
   * after each: the counter never runs past the end of the text.
   */
  lemma ChunksFit(t: string, ws: set<char>, i: nat)
    requires i <= |t| && (i == 0 || t[i - 1] in ws)
    ensures Width(ChunksFrom(t, ws, i)) <= |t| - i + 1
  {
    ChunksWithin(t, ws, i);
    ChunksSeparated(t, ws, i);
    SeparatedWidth(ChunksFrom(t, ws, i), i, |t|);
  }

  /**
   * The detector's test on one chunk's segmentation: exactly one token, not
   * white-listed, containing a character of the narrow ideograph range.
   */
  predicate Flagged(tokens: seq<string>, white: seq<string>) {
    && |tokens| == 1
    && tokens[0] !in white
    && exists k :: 0 <= k < |tokens[0]| && IsCjkNarrow(tokens[0][k])
  }

  /** Spans are non-empty, in increasing order and pairwise disjoint. */
  predicate Ordered(spans: seq<Span>) {
    && (forall j :: 0 <= j < |spans| ==> spans[j].first <= spans[j].last)
    && (forall j, k :: 0 <= j < k < |spans| ==> spans[j].last < spans[k].first)
  }

  /** No span starts before `b`. */
  predicate Above(spans: seq<Span>, b: int) {
    forall j :: 0 <= j < |spans| ==> b <= spans[j].first
  }

  /** A span in front of ordered spans that all start after it ends keeps them ordered. */
  lemma ConsOrdered(s: Span, rest: seq<Span>)
    requires s.first <= s.last && Ordered(rest) && Above(rest, s.last + 1)
    ensures Ordered([s] + rest) && Above([s] + rest, s.first)
  {
    var spans := [s] + rest;
    forall j, k | 0 <= j < k < |spans|
      ensures spans[j].last < spans[k].first
    {
      assert spans[k] == rest[k - 1];
      if j > 0 {
        assert spans[j] == rest[j - 1];
      }
    }
  }

  /** Every chunk is non-empty. */
  predicate NonEmpty(cs: seq<Chunk>) {
    forall j :: 0 <= j < |cs| ==> |cs[j].text| > 0
  }

  /**
   * The loop over `split()`'s pieces as written. It reads only each piece's
   * text: the span of a flagged piece is read from the offset list at a
   * running counter that advances by the piece's length plus one, whatever
   * the whitespace between pieces really was. Every offset it reads is in
   * range on every input.
   */
  function DetectAsWritten(cs: seq<Chunk>, offsets: seq<nat>, start: nat,
                           seg: string -> seq<string>, white: seq<string>): (spans: seq<Span>)
    requires NonEmpty(cs)
    requires start + Width(cs) <= |offsets| + 1
    ensures |spans| <= |cs|
    decreases |cs|
  {
    if cs == [] then []
    else
      var c := cs[0].text;
      var rest := DetectAsWritten(cs[1..], offsets, start + 1 + |c|, seg, white);
      if Flagged(seg(c), white) then [Span(offsets[start], offsets[start + |c| - 1])] + rest
      else rest
  }

  /**
   * The spans the as-written loop returns are ordered and disjoint, on every
   * input, and none starts before the counter's offset.
   */
  lemma {:induction false} DetectAsWrittenOrdered(cs: seq<Chunk>, offsets: seq<nat>, start: nat,
                                                 seg: string -> seq<string>, white: seq<string>)
    requires NonEmpty(cs)
    requires start + Width(cs) <= |offsets| + 1
    requires StrictlyIncreasing(offsets)
    ensures Ordered(DetectAsWritten(cs, offsets, start, seg, white))
    ensures DetectAsWritten(cs, offsets, start, seg, white) != [] ==>
      start < |offsets| && Above(DetectAsWritten(cs, offsets, start, seg, white), offsets[start])
    decreases |cs|
  {
    if cs != [] {
      var c := cs[0].text;
      var next := start + 1 + |c|;
      var rest := DetectAsWritten(cs[1..], offsets, next, seg, white);
      DetectAsWrittenOrdered(cs[1..], offsets, next, seg, white);
      if rest != [] {
        assert offsets[start] <= offsets[start + |c| - 1] < offsets[next];
      }
      if Flagged(seg(c), white) {
        ConsOrdered(Span(offsets[start], offsets[start + |c| - 1]), rest);
      }
    }
  }

  /** Every offset the as-written loop reports is an entry of the offset list. */
  lemma {:induction false} DetectAsWrittenReadsOffsets(cs: seq<Chunk>, offsets: seq<nat>, start: nat,
                                                      seg: string -> seq<string>, white: seq<string>)
    requires NonEmpty(cs)
    requires start + Width(cs) <= |offsets| + 1
    ensures forall s :: s in DetectAsWritten(cs, offsets, start, seg, white) ==>
      s.first in offsets && s.last in offsets
    decreases |cs|
  {
    if cs != [] {
      DetectAsWrittenReadsOffsets(cs[1..], offsets, start + 1 + |cs[0].text|, seg, white);
    }
  }

  /** The counter's value when the as-written loop reaches piece `k`. */
  function CounterAt(cs: seq<Chunk>, start: nat, k: nat): nat
    requires k <= |cs|
    decreases k
  {
    if k == 0 then start else CounterAt(cs, start, k - 1) + |cs[k - 1].text| + 1
  }

  /** The counter at piece `k` plus the width of the pieces from `k` on is the counter at the end. */
  lemma {:induction false} CounterAtWidth(cs: seq<Chunk>, start: nat, k: nat)
    requires k <= |cs|
    ensures CounterAt(cs, start, k) + Width(cs[k..]) == start + Width(cs)
    decreases k
  {
    if k == 0 {
      assert cs[0..] == cs;
    } else {
      CounterAtWidth(cs, start, k - 1);
      assert cs[k - 1..] == [cs[k - 1]] + cs[k..];
      WidthCons(cs[k - 1], cs[k..]);
    }
  }

  /** Piece `k` read at the counter: the offsets at the counter and at the counter plus its length less one. */
  function CounterSpan(cs: seq<Chunk>, offsets: seq<nat>, start: nat, k: nat): Span
    requires NonEmpty(cs) && start + Width(cs) <= |offsets| + 1 && k < |cs|
  {
    CounterAtWidth(cs, start, k);
    assert cs[k..] == [cs[k]] + cs[k + 1..];
    WidthCons(cs[k], cs[k + 1..]);
    Span(offsets[CounterAt(cs, start, k)], offsets[CounterAt(cs, start, k) + |cs[k].text| - 1])
  }

  /** The detector's verdict on every piece, in order. */
  function FlagsOf(cs: seq<Chunk>, seg: string -> seq<string>, white: seq<string>): (f: seq<bool>)
    ensures |f| == |cs|
    ensures forall k :: 0 <= k < |cs| ==> f[k] == Flagged(seg(cs[k].text), white)
  {
    seq(|cs|, k requires 0 <= k < |cs| => Flagged(seg(cs[k].text), white))
  }

  /** The counter spans of the pieces at positions `ks`, in that order. */
  function CounterSpans(cs: seq<Chunk>, offsets: seq<nat>, start: nat, ks: seq<nat>): (r: seq<Span>)
    requires NonEmpty(cs) && start + Width(cs) <= |offsets| + 1
    requires forall j :: 0 <= j < |ks| ==> ks[j] < |cs|
    ensures |r| == |ks|
  {
    if ks == [] then []
    else [CounterSpan(cs, offsets, start, ks[0])] + CounterSpans(cs, offsets, start, ks[1..])
  }

  /** The pieces from `k` on are non-empty and fit the offset list from the counter at `k`. */
  lemma SuffixFits(cs: seq<Chunk>, offsets: seq<nat>, start: nat, k: nat)
    requires NonEmpty(cs) && start + Width(cs) <= |offsets| + 1 && k <= |cs|
    ensures NonEmpty(cs[k..]) && CounterAt(cs, start, k) + Width(cs[k..]) <= |offsets| + 1
  {
    CounterAtWidth(cs, start, k);
    forall j | 0 <= j < |cs[k..]|
      ensures |cs[k..][j].text| > 0
    {
      assert cs[k..][j] == cs[k + j];
    }
  }

  /** Entry `j` of the counter spans is the counter span of piece `ks[j]`. */
  lemma {:induction false} CounterSpansAt(cs: seq<Chunk>, offsets: seq<nat>, start: nat, ks: seq<nat>, j: nat)
    requires NonEmpty(cs) && start + Width(cs) <= |offsets| + 1
    requires forall i :: 0 <= i < |ks| ==> ks[i] < |cs|
    requires j < |ks|
    ensures CounterSpans(cs, offsets, start, ks)[j] == CounterSpan(cs, offsets, start, ks[j])
    decreases j
  {
    if j > 0 {
      CounterSpansAt(cs, offsets, start, ks[1..], j - 1);
    }
  }

  /** Piece `k`'s contribution to the counter reading: its counter span when it is flagged, else nothing. */
  function CounterHead(cs: seq<Chunk>, offsets: seq<nat>, start: nat,
                       seg: string -> seq<string>, white: seq<string>, k: nat): seq<Span>
    requires NonEmpty(cs) && start + Width(cs) <= |offsets| + 1 && k < |cs|
  {
    if Flagged(seg(cs[k].text), white) then [CounterSpan(cs, offsets, start, k)] else []
  }

  /** The counter spans of the flagged pieces from `k` on: piece `k`'s contribution, then the rest. */
  lemma CounterSpansStep(cs: seq<Chunk>, offsets: seq<nat>, start: nat,
                         seg: string -> seq<string>, white: seq<string>, k: nat)
    requires NonEmpty(cs) && start + Width(cs) <= |offsets| + 1 && k < |cs|
    ensures CounterSpans(cs, offsets, start, TruePositionsFrom(FlagsOf(cs, seg, white), k))
         == CounterHead(cs, offsets, start, seg, white, k)
            + CounterSpans(cs, offsets, start, TruePositionsFrom(FlagsOf(cs, seg, white), k + 1))
  {
    var f := FlagsOf(cs, seg, white);
    var ks := TruePositionsFrom(f, k + 1);
    if f[k] {
      assert ([k] + ks)[1..] == ks;
    }
  }

  /** One turn of the as-written loop, entered at piece `k` with the counter it has reached there. */
  lemma AsWrittenTurn(cs: seq<Chunk>, offsets: seq<nat>, start: nat,
                      seg: string -> seq<string>, white: seq<string>, k: nat)
    requires NonEmpty(cs) && start + Width(cs) <= |offsets| + 1 && k < |cs|
    ensures NonEmpty(cs[k..]) && CounterAt(cs, start, k) + Width(cs[k..]) <= |offsets| + 1
    ensures NonEmpty(cs[k + 1..]) && CounterAt(cs, start, k + 1) + Width(cs[k + 1..]) <= |offsets| + 1
    ensures DetectAsWritten(cs[k..], offsets, CounterAt(cs, start, k), seg, white)
         == CounterHead(cs, offsets, start, seg, white, k)
            + DetectAsWritten(cs[k + 1..], offsets, CounterAt(cs, start, k + 1), seg, white)
  {
    SuffixFits(cs, offsets, start, k);
    SuffixFits(cs, offsets, start, k + 1);
    var at := CounterAt(cs, start, k);
    assert CounterSpan(cs, offsets, start, k) == Span(offsets[at], offsets[at + |cs[k].text| - 1]);
    assert cs[k..] == [cs[k]] + cs[k + 1..];
    DetectAsWrittenStep(cs[k], cs[k + 1..], offsets, at, seg, white);
  }

  /**
   * From piece `k` on, the as-written loop, entered with the counter it has
   * reached there, returns the counter spans of the flagged pieces from `k`
   * on, in order.
   */
  lemma {:induction false} CounterReadsFrom(cs: seq<Chunk>, offsets: seq<nat>, start: nat,
                                           seg: string -> seq<string>, white: seq<string>, k: nat)
    requires NonEmpty(cs) && start + Width(cs) <= |offsets| + 1 && k <= |cs|
    ensures NonEmpty(cs[k..]) && CounterAt(cs, start, k) + Width(cs[k..]) <= |offsets| + 1
    ensures DetectAsWritten(cs[k..], offsets, CounterAt(cs, start, k), seg, white)
         == CounterSpans(cs, offsets, start, TruePositionsFrom(FlagsOf(cs, seg, white), k))
    decreases |cs| - k
  {
    if k < |cs| {
      CounterReadsFrom(cs, offsets, start, seg, white, k + 1);
      AsWrittenTurn(cs, offsets, start, seg, white, k);
      CounterSpansStep(cs, offsets, start, seg, white, k);
    } else {
      SuffixFits(cs, offsets, start, k);
    }
  }

  /**
   * The as-written loop emits exactly one span per flagged piece, in order,
   * each read at the counter the loop has reached: so it reports something
   * exactly when some piece is flagged.
   */
  lemma DetectAsWrittenReadsCounter(cs: seq<Chunk>, offsets: seq<nat>, start: nat,
                                    seg: string -> seq<string>, white: seq<string>)
    requires NonEmpty(cs) && start + Width(cs) <= |offsets| + 1
    ensures DetectAsWritten(cs, offsets, start, seg, white)
         == CounterSpans(cs, offsets, start, TruePositionsFrom(FlagsOf(cs, seg, white), 0))
    ensures var ks := TruePositionsFrom(FlagsOf(cs, seg, white), 0);
      && |DetectAsWritten(cs, offsets, start, seg, white)| == |ks|
      && forall j :: 0 <= j < |ks| ==>
           DetectAsWritten(cs, offsets, start, seg, white)[j] == CounterSpan(cs, offsets, start, ks[j])
    ensures DetectAsWritten(cs, offsets, start, seg, white) != [] <==>
      exists k :: 0 <= k < |cs| && Flagged(seg(cs[k].text), white)
  {
    CounterReadsFrom(cs, offsets, start, seg, white, 0);
    assert cs[0..] == cs;
    var ks := TruePositionsFrom(FlagsOf(cs, seg, white), 0);
    forall j | 0 <= j < |ks|
      ensures CounterSpans(cs, offsets, start, ks)[j] == CounterSpan(cs, offsets, start, ks[j])
    {
      CounterSpansAt(cs, offsets, start, ks, j);
    }
    if exists k :: 0 <= k < |cs| && Flagged(seg(cs[k].text), white) {
      var k :| 0 <= k < |cs| && Flagged(seg(cs[k].text), white);
      assert k in ks;
    }
  }

  /** The span covering chunk `c`: its first and its last kept offset. */
  function SpanOf(c: Chunk, offsets: seq<nat>): Span
    requires |c.text| > 0 && c.at + |c.text| <= |offsets|
  {
    Span(offsets[c.at], offsets[c.at + |c.text| - 1])
  }

  /** Every chunk is non-empty and lies inside the offset list. */
  predicate InsideOffsets(cs: seq<Chunk>, offsets: seq<nat>) {
    forall j :: 0 <= j < |cs| ==> |cs[j].text| > 0 && cs[j].at + |cs[j].text| <= |offsets|
  }

  /** The detector reading each flagged chunk's span at the chunk's true position. */
  function Detect(cs: seq<Chunk>, offsets: seq<nat>, seg: string -> seq<string>, white: seq<string>)
    : (spans: seq<Span>)
    requires InsideOffsets(cs, offsets)
    ensures |spans| <= |cs|
    decreases |cs|
  {
    if cs == [] then []
    else
      var rest := Detect(cs[1..], offsets, seg, white);
      if Flagged(seg(cs[0].text), white) then [SpanOf(cs[0], offsets)] + rest else rest
  }

  /**
   * For chunks in order with gaps between them, the spans are ordered and
   * disjoint, and none starts before the first chunk's offset.
   */
  lemma {:induction false} DetectOrdered(cs: seq<Chunk>, offsets: seq<nat>, seg: string -> seq<string>, white: seq<string>)
    requires InsideOffsets(cs, offsets) && Separated(cs) && StrictlyIncreasing(offsets)
    ensures Ordered(Detect(cs, offsets, seg, white))
    ensures Detect(cs, offsets, seg, white) != [] ==>
      |cs| > 0 && Above(Detect(cs, offsets, seg, white), offsets[cs[0].at])
    decreases |cs|
  {
    if cs != [] {
      var c := cs[0];
      var rest := Detect(cs[1..], offsets, seg, white);
      DetectOrdered(cs[1..], offsets, seg, white);
      if rest != [] {
        assert cs[1..][0] == cs[1];
        assert offsets[c.at] <= offsets[c.at + |c.text| - 1] < offsets[cs[1].at];
      }
      if Flagged(seg(c.text), white) {
        ConsOrdered(SpanOf(c, offsets), rest);
      }
    }
  }

  /** Each span `Detect` reports covers a flagged chunk, and every flagged chunk has its span. */
  lemma {:induction false} DetectReportsFlaggedChunks(cs: seq<Chunk>, offsets: seq<nat>,
                                                     seg: string -> seq<string>, white: seq<string>)
    requires InsideOffsets(cs, offsets)
    ensures forall s :: s in Detect(cs, offsets, seg, white) ==>
      exists j :: 0 <= j < |cs| && Flagged(seg(cs[j].text), white) && s == SpanOf(cs[j], offsets)
    ensures forall j :: 0 <= j < |cs| && Flagged(seg(cs[j].text), white) ==>
      SpanOf(cs[j], offsets) in Detect(cs, offsets, seg, white)
    decreases |cs|
  {
    if cs != [] {
      DetectReportsFlaggedChunks(cs[1..], offsets, seg, white);
      forall s | s in Detect(cs[1..], offsets, seg, white)
        ensures exists j :: 0 <= j < |cs| && Flagged(seg(cs[j].text), white) && s == SpanOf(cs[j], offsets)
      {
        var j :| 0 <= j < |cs[1..]| && Flagged(seg(cs[1..][j].text), white) && s == SpanOf(cs[1..][j], offsets);
        assert cs[j + 1] == cs[1..][j];
      }
      forall j | 0 <= j < |cs| && Flagged(seg(cs[j].text), white)
        ensures SpanOf(cs[j], offsets) in Detect(cs, offsets, seg, white)
      {
        if j > 0 {
          assert cs[j] == cs[1..][j - 1];
        }
      }
    }
  }

  /** Whitespace at `q` and again at `q + 1`. */
  predicate DoubleSpaceAt(t: string, ws: set<char>, q: nat)
    requires q + 1 < |t|
  {
    t[q] in ws && t[q + 1] in ws
  }

  /** No leading whitespace, and no two whitespace characters in a row. */
  predicate SingleSpaced(t: string, ws: set<char>) {
    && (|t| == 0 || t[0] !in ws)
    && forall q: nat :: q + 1 < |t| ==> !DoubleSpaceAt(t, ws, q)
  }

  /** One step of the as-written loop. */
  lemma DetectAsWrittenStep(c: Chunk, rest: seq<Chunk>, offsets: seq<nat>, start: nat,
                            seg: string -> seq<string>, white: seq<string>)
    requires |c.text| > 0 && NonEmpty(rest)
    requires start + |c.text| + 1 + Width(rest) <= |offsets| + 1
    ensures NonEmpty([c] + rest) && Width([c] + rest) == |c.text| + 1 + Width(rest)
    ensures DetectAsWritten([c] + rest, offsets, start, seg, white)
         == (if Flagged(seg(c.text), white) then [Span(offsets[start], offsets[start + |c.text| - 1])] else [])
            + DetectAsWritten(rest, offsets, start + 1 + |c.text|, seg, white)
  {
    assert ([c] + rest)[1..] == rest;
  }

  /** One step of the position-reading detector. */
  lemma DetectStep(c: Chunk, rest: seq<Chunk>, offsets: seq<nat>, seg: string -> seq<string>, white: seq<string>)
    requires |c.text| > 0 && c.at + |c.text| <= |offsets|
    requires InsideOffsets([c] + rest, offsets)
    ensures InsideOffsets(rest, offsets)
    ensures Detect([c] + rest, offsets, seg, white)
         == (if Flagged(seg(c.text), white) then [SpanOf(c, offsets)] else []) + Detect(rest, offsets, seg, white)
  {
    assert ([c] + rest)[1..] == rest;
  }

  /** Each chunk starts where the running counter stands when the loop reaches it. */
  predicate Aligned(cs: seq<Chunk>, start: nat)
    decreases |cs|
  {
    cs == [] || (cs[0].at == start && Aligned(cs[1..], start + 1 + |cs[0].text|))
  }

  /** Where the counter and the true positions coincide, both detectors report the same spans. */
  lemma {:induction false} AlignedDetectorsAgree(cs: seq<Chunk>, offsets: seq<nat>, start: nat,
                                                  seg: string -> seq<string>, white: seq<string>)
    requires InsideOffsets(cs, offsets)
    requires NonEmpty(cs) && start + Width(cs) <= |offsets| + 1
    requires Aligned(cs, start)
    ensures DetectAsWritten(cs, offsets, start, seg, white) == Detect(cs, offsets, seg, white)
    decreases |cs|
  {
    if cs != [] {
      var c := cs[0];
      var rest := cs[1..];
      var next := start + 1 + |c.text|;
      assert cs == [c] + rest;
      var sp := SpanOf(c, offsets);
      var head := if Flagged(seg(c.text), white) then [sp] else [];
      assert InsideOffsets(rest, offsets)
          && Detect(cs, offsets, seg, white) == head + Detect(rest, offsets, seg, white) by {
        DetectStep(c, rest, offsets, seg, white);
      }
      assert NonEmpty(rest) && next + Width(rest) <= |offsets| + 1
          && DetectAsWritten(cs, offsets, start, seg, white)
             == head + DetectAsWritten(rest, offsets, next, seg, white) by {
        DetectAsWrittenStep(c, rest, offsets, start, seg, white);
        SpanAtCounter(c, offsets, start);
      }
      AlignedDetectorsAgree(rest, offsets, next, seg, white);
    }
  }

  /** A chunk at the counter's position has the span the counter reads. */
  lemma SpanAtCounter(c: Chunk, offsets: seq<nat>, start: nat)
    requires |c.text| > 0 && c.at + |c.text| <= |offsets| && c.at == start
    ensures SpanOf(c, offsets) == Span(offsets[start], offsets[start + |c.text| - 1])
  {
  }

  /** A run starting at `i`, in front of pieces aligned after it, gives pieces aligned from `i`. */
  lemma AlignedStep(t: string, ws: set<char>, i: nat)
    requires i < |t| && (i == 0 || t[i - 1] in ws) && SkipSpace(t, ws, i) == i
    requires SkipWord(t, ws, i) < |t| ==> Aligned(ChunksFrom(t, ws, SkipWord(t, ws, i) + 1), SkipWord(t, ws, i) + 1)
    ensures Aligned(ChunksFrom(t, ws, i), i)
  {
    var c, e := ChunksFromStep(t, ws, i);
    if e < |t| {
      ConsAligned(c, ChunksFrom(t, ws, e + 1), i, e + 1);
    } else {
      ConsAligned(c, [], i, e + 1);
      assert [c] + [] == [c];
    }
  }

  /** A chunk at the counter, in front of chunks aligned where the counter moves next, keeps them aligned. */
  lemma ConsAligned(c: Chunk, rest: seq<Chunk>, start: nat, next: nat)
    requires c.at == start && next == start + 1 + |c.text| && Aligned(rest, next)
    ensures Aligned([c] + rest, start)
  {
    assert ([c] + rest)[1..] == rest;
  }

  /** Without leading or repeated whitespace from `i` on, every piece starts at the counter. */
  lemma {:induction false} ChunksAligned(t: string, ws: set<char>, i: nat)
    requires i <= |t| && (i == 0 || t[i - 1] in ws) && (i == |t| || t[i] !in ws)
    requires forall q: nat :: i <= q && q + 1 < |t| ==> !DoubleSpaceAt(t, ws, q)
    ensures Aligned(ChunksFrom(t, ws, i), i)
    decreases |t| - i
  {
    if i < |t| {
      assert SkipSpace(t, ws, i) == i;
      var e := SkipWord(t, ws, i);
      if e < |t| {
        if e + 1 < |t| {
          assert !DoubleSpaceAt(t, ws, e);
        }
        ChunksAligned(t, ws, e + 1);
      }
      AlignedStep(t, ws, i);
    }
  }

  /**
   * When the normalised text has no leading and no repeated whitespace, the
   * running counter sits at each piece's true position, so the as-written
   * spans are exactly the first and last kept offsets of each flagged chunk.
   */
  lemma CounterTracksPositions(t: string, ws: set<char>, offsets: seq<nat>,
                               seg: string -> seq<string>, white: seq<string>)
    requires |t| == |offsets|
    requires SingleSpaced(t, ws)
    ensures var cs := Chunks(t, ws);
      && NonEmpty(cs) && InsideOffsets(cs, offsets) && Width(cs) <= |offsets| + 1
      && DetectAsWritten(cs, offsets, 0, seg, white) == Detect(cs, offsets, seg, white)
  {
    ChunksWithin(t, ws, 0);
    ChunksFit(t, ws, 0);
    ChunksAligned(t, ws, 0);
    AlignedDetectorsAgree(Chunks(t, ws), offsets, 0, seg, white);
  }
}
