/**
 * The normaliser: drops ignored symbols and ASCII punctuation from a
 * paragraph, turns clause punctuation into spaces, and records for every
 * character it keeps the offset it had in the paragraph.
 */
module Normalizer {
  import opened Text
  import opened Options
  import opened Seqs

  /** A character survives unless it is an ignored symbol or ASCII but not a letter or digit. */
  predicate Kept(c: char, o: Options) {
    c !in o.ignoreChars && !(IsAscii(c) && !IsAsciiAlnum(c))
  }

  /** What a kept character becomes in the normalised text. */
  function Emitted(c: char, o: Options): char {
    if c in o.splitPunctuations then ' ' else c
  }

  /** The kept offsets and the normalised text, position for position. */
  datatype Filtered = Filtered(offsets: seq<nat>, text: string)

  /**
   * `pre_process_paragraph`: one offset per normalised character, each
   * inside the paragraph.
   */
  function PreProcessParagraph(p: string, o: Options): (r: Filtered)
    ensures |r.offsets| == |r.text|
    ensures forall k :: 0 <= k < |r.offsets| ==> r.offsets[k] < |p|
    decreases |p|
  {
    if p == [] then Filtered([], [])
    else
      var n := |p| - 1;
      var prev := PreProcessParagraph(p[..n], o);
      if Kept(p[n], o) then Filtered(prev.offsets + [n], prev.text + [Emitted(p[n], o)]) else prev
  }

  /** Normalising one more character appends its offset and emitted form when it is kept. */
  lemma PreProcessSnoc(x: string, c: char, o: Options)
    ensures var prev := PreProcessParagraph(x, o);
      PreProcessParagraph(x + [c], o)
        == if Kept(c, o) then Filtered(prev.offsets + [|x|], prev.text + [Emitted(c, o)]) else prev
  {
    assert (x + [c])[..|x|] == x;
  }

  /**
   * Each offset is that of a kept character, and the normalised character
   * beside it is that character's emitted form.
   */
  lemma {:induction false} OffsetsAreKept(p: string, o: Options)
    ensures forall k :: 0 <= k < |PreProcessParagraph(p, o).offsets| ==>
      && Kept(p[PreProcessParagraph(p, o).offsets[k]], o)
      && PreProcessParagraph(p, o).text[k] == Emitted(p[PreProcessParagraph(p, o).offsets[k]], o)
    decreases |p|
  {
    if p != [] {
      var n := |p| - 1;
      OffsetsAreKept(p[..n], o);
      var prev := PreProcessParagraph(p[..n], o);
      var r := PreProcessParagraph(p, o);
      forall k | 0 <= k < |r.offsets|
        ensures Kept(p[r.offsets[k]], o) && r.text[k] == Emitted(p[r.offsets[k]], o)
      {
        if k < |prev.offsets| {
          var at := prev.offsets[k];
          assert r.offsets[k] == at && r.text[k] == prev.text[k];
          assert Kept(p[..n][at], o) && prev.text[k] == Emitted(p[..n][at], o);
          assert p[..n][at] == p[at];
        } else {
          assert r.offsets[k] == n && r.text[k] == Emitted(p[n], o);
        }
      }
    }
  }

  /** The offsets are strictly increasing. */
  lemma {:induction false} OffsetsIncrease(p: string, o: Options)
    ensures StrictlyIncreasing(PreProcessParagraph(p, o).offsets)
    decreases |p|
  {
    if p != [] {
      var n := |p| - 1;
      OffsetsIncrease(p[..n], o);
      var prev := PreProcessParagraph(p[..n], o).offsets;
      if Kept(p[n], o) {
        var s := prev + [n];
        forall j, k | 0 <= j < k < |s|
          ensures s[j] < s[k]
        {
          if k < |prev| {
            assert s[j] == prev[j] && s[k] == prev[k];
          } else {
            assert s[j] == prev[j];
          }
        }
      }
    }
  }

  /** Conversely, every kept character of the paragraph has its offset recorded. */
  lemma {:induction false} KeptAreRecorded(p: string, o: Options, i: nat)
    requires i < |p| && Kept(p[i], o)
    ensures i in PreProcessParagraph(p, o).offsets
    decreases |p|
  {
    if i < |p| - 1 {
      KeptAreRecorded(p[..|p| - 1], o, i);
    }
  }

  /**
   * Every ASCII character of the normalised text is a letter, a digit, or a
   * space, and every space stands for a clause punctuation mark: ASCII spaces
   * and punctuation of the paragraph never survive.
   */
  lemma NormalizedAscii(p: string, o: Options, k: nat)
    requires k < |PreProcessParagraph(p, o).text|
    ensures var f := PreProcessParagraph(p, o);
      && (IsAscii(f.text[k]) ==> IsAsciiAlnum(f.text[k]) || f.text[k] == ' ')
      && (f.text[k] == ' ' ==> p[f.offsets[k]] in o.splitPunctuations)
  {
    OffsetsAreKept(p, o);
  }

  /** Normalising a concatenation normalises each part. */
  lemma {:induction false} TextOfConcat(x: string, y: string, o: Options)
    ensures PreProcessParagraph(x + y, o).text == PreProcessParagraph(x, o).text + PreProcessParagraph(y, o).text
    decreases |y|
  {
    if y == [] {
      assert x + y == x;
    } else {
      var y' := y[..|y| - 1];
      TextOfConcat(x, y', o);
      assert (x + y)[..|x + y| - 1] == x + y';
      assert (x + y)[|x + y| - 1] == y[|y| - 1];
    }
  }

  /**
   * Normalising a prefix `p[..n]` yields a prefix of the whole result: the
   * entries whose offsets lie below `n`.
   */
  lemma {:induction false} PrefixOfResult(p: string, o: Options, n: nat)
    requires n <= |p|
    ensures var whole := PreProcessParagraph(p, o);
      var m := |PreProcessParagraph(p[..n], o).offsets|;
      && m <= |whole.offsets|
      && PreProcessParagraph(p[..n], o).offsets == whole.offsets[..m]
      && PreProcessParagraph(p[..n], o).text == whole.text[..m]
      && (forall j :: m <= j < |whole.offsets| ==> whole.offsets[j] >= n)
    decreases |p|
  {
    if n == |p| {
      assert p[..n] == p;
    } else {
      var q := p[..|p| - 1];
      PrefixOfResult(q, o, n);
      assert q[..n] == p[..n];
    }
  }

  /**
   * In a strictly increasing sequence split at `m` around the value `n`, the
   * element equal to `n` sits at `m`, and the one just below `n` sits before `m`.
   */
  lemma SplitPoint(s: seq<nat>, m: nat, n: nat, k: nat)
    requires StrictlyIncreasing(s) && m <= |s| && k < |s|
    requires forall j :: 0 <= j < m ==> s[j] < n
    requires forall j :: m <= j < |s| ==> s[j] >= n
    ensures s[k] == n ==> m == k
    ensures s[k] + 1 == n ==> m == k + 1
  {
    if m < |s| {
      assert s[m] >= n;
    }
    if k + 1 < |s| {
      assert s[k] < s[k + 1];
    }
  }

  /** The kept characters of `p[..n]` are the first `m` of `p`, and `m` splits the offsets at `n`. */
  lemma PrefixSplit(p: string, o: Options, n: nat) returns (m: nat)
    requires n <= |p|
    ensures var whole := PreProcessParagraph(p, o);
      && m == |PreProcessParagraph(p[..n], o).offsets| <= |whole.offsets|
      && PreProcessParagraph(p[..n], o).text == whole.text[..m]
      && (forall j :: 0 <= j < m ==> whole.offsets[j] < n)
      && (forall j :: m <= j < |whole.offsets| ==> whole.offsets[j] >= n)
  {
    PrefixOfResult(p, o, n);
    var part := PreProcessParagraph(p[..n], o);
    m := |part.offsets|;
    var whole := PreProcessParagraph(p, o);
    forall j | 0 <= j < m
      ensures whole.offsets[j] < n
    {
      assert whole.offsets[j] == part.offsets[j];
    }
  }

  /**
   * The kept characters strictly before the `k`-th kept offset normalise to
   * the first `k` normalised characters, and those up to it to the first `k + 1`.
   */
  lemma KeptBefore(p: string, o: Options, k: nat) returns (at: nat)
    requires k < |PreProcessParagraph(p, o).offsets|
    ensures at == PreProcessParagraph(p, o).offsets[k] && at < |p|
    ensures PreProcessParagraph(p[..at], o).text == PreProcessParagraph(p, o).text[..k]
    ensures PreProcessParagraph(p[..at + 1], o).text == PreProcessParagraph(p, o).text[..k + 1]
  {
    var whole := PreProcessParagraph(p, o);
    at := whole.offsets[k];
    OffsetsIncrease(p, o);
    var m0 := PrefixSplit(p, o, at);
    var m1 := PrefixSplit(p, o, at + 1);
    SplitPoint(whole.offsets, m0, at, k);
    SplitPoint(whole.offsets, m1, at + 1, k);
  }

  /** The stretch `p[lo..hi]` normalises to what `p[..hi]` adds to `p[..lo]`. */
  lemma NormalizeBetween(p: string, o: Options, lo: nat, hi: nat)
    requires lo <= hi <= |p|
    ensures var a := PreProcessParagraph(p[..lo], o).text;
      var b := PreProcessParagraph(p[..hi], o).text;
      |a| <= |b| && PreProcessParagraph(p[lo..hi], o).text == b[|a|..]
  {
    PrefixThenSlice(p, lo, hi);
    TextOfConcat(p[..lo], p[lo..hi], o);
  }

  /** The prefixes before the `i`-th and up to the `(j-1)`-th kept offset normalise to `text[..i]` and `text[..j]`. */
  lemma PrefixesAroundSpan(p: string, o: Options, i: nat, j: nat) returns (lo: nat, last: nat)
    requires i < j <= |PreProcessParagraph(p, o).offsets|
    ensures lo == PreProcessParagraph(p, o).offsets[i] && last == PreProcessParagraph(p, o).offsets[j - 1]
    ensures lo <= last < |p|
    ensures PreProcessParagraph(p[..lo], o).text == PreProcessParagraph(p, o).text[..i]
    ensures PreProcessParagraph(p[..last + 1], o).text == PreProcessParagraph(p, o).text[..j]
  {
    var f := PreProcessParagraph(p, o);
    OffsetsIncrease(p, o);
    IncreasingIsMonotone(f.offsets, i, j - 1);
    lo := KeptBefore(p, o, i);
    last := KeptBefore(p, o, j - 1);
  }

  /**
   * Offset fidelity: the stretch of the original paragraph from the `i`-th
   * to the `(j-1)`-th kept offset normalises to exactly `text[i..j]`.
   */
  lemma NormalizeSpan(p: string, o: Options, i: nat, j: nat) returns (lo: nat, last: nat)
    requires i < j <= |PreProcessParagraph(p, o).offsets|
    ensures lo == PreProcessParagraph(p, o).offsets[i] && last == PreProcessParagraph(p, o).offsets[j - 1]
    ensures lo <= last < |p|
    ensures PreProcessParagraph(p[lo..last + 1], o).text == PreProcessParagraph(p, o).text[i..j]
  {
    lo, last := PrefixesAroundSpan(p, o, i, j);
    NormalizeBetween(p, o, lo, last + 1);
    DifferenceOfPrefixes(PreProcessParagraph(p, o).text, PreProcessParagraph(p[..lo], o).text,
                         PreProcessParagraph(p[..last + 1], o).text, i, j);
  }
}
