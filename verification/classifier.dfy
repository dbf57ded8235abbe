/**
 * The paragraph classifier: a two-flag state machine run over the document's
 * paragraphs in order, keeping the body paragraphs that are indented, mostly
 * Chinese and end like a sentence.
 */
module Classifier {
  import opened Text
  import opened Options
  import opened Seqs

  /** A paragraph's first-line indent: absent, an integer length, or some other value. */
  datatype Indent = Absent | Integral(value: int) | NonIntegral

  datatype Paragraph = Paragraph(text: string, indent: Indent)

  /**
   * `isMainText`: between a keyword line and the references heading;
   * `hasAppearKeyWord`: a keyword line has been seen.
   */
  datatype ScanState = ScanState(isMainText: bool, hasAppearKeyWord: bool)

  /** Both flags start false. */
  const InitialState := ScanState(false, false)

  /** Whether a paragraph is kept, and the state the next paragraph sees. */
  datatype Verdict = Verdict(valid: bool, next: ScanState)

  const KeywordLabel: string := "关键词"
  const KeywordLabelAlt: string := "关键字"
  const ReferencesLabel: string := "参考文献"

  /** Newline, tab and space: stripped from marker lines and removed from candidate text. */
  const Blanks: set<char> := {'\n', '\t', ' '}

  /** The characters stripped from a kept paragraph (the blanks and the ASCII full stop). */
  const KeptStripChars: set<char> := {'\n', '\t', ' ', '.'}

  /**
   * A keyword line enters the body. `or` binds looser than `and`, so a line
   * starting with the first label always qualifies, and one starting with the
   * second label only while no keyword line has been seen.
   */
  predicate OpensBody(text: string, st: ScanState) {
    var t := Strip(text, Blanks);
    StartsWith(t, KeywordLabel) || (StartsWith(t, KeywordLabelAlt) && !st.hasAppearKeyWord)
  }

  /** A line starting with either keyword label, whatever the state. */
  predicate IsKeywordLine(text: string) {
    var t := Strip(text, Blanks);
    StartsWith(t, KeywordLabel) || StartsWith(t, KeywordLabelAlt)
  }

  /** The references heading leaves the body. */
  predicate ClosesBody(text: string) {
    Strip(text, Blanks) == ReferencesLabel
  }

  /** The text the content tests look at: the paragraph with every blank removed. */
  function Compact(text: string): string {
    RemoveAll(text, Blanks)
  }

  /** For positive denominators, `a/b >= c/d` exactly when `a*d >= c*b`. */
  lemma CrossMultiply(a: int, b: int, c: int, d: int)
    requires b > 0 && d > 0
    ensures (a as real) / (b as real) >= (c as real) / (d as real) <==> a * d >= c * b
  {
    var x := (a as real) / (b as real);
    var y := (c as real) / (d as real);
    var bd := (b as real) * (d as real);
    assert bd > 0.0;
    assert x * bd == (a * d) as real;
    assert y * bd == (c * b) as real;
    assert x >= y <==> x * bd >= y * bd;
  }

  /**
   * The Chinese-ratio test: the share of ideographs is at least the
   * threshold, the bound being inclusive. The source divides by the length,
   * so the text must not be empty.
   */
  function IsChineseParagraph(text: string, threshold: Ratio): (r: bool)
    requires |text| > 0
    ensures r <==> (CountCjk(text) as real) / (|text| as real) >= (threshold.num as real) / (threshold.den as real)
    ensures CountCjk(text) * threshold.den == threshold.num * |text| ==> r
  {
    CrossMultiply(CountCjk(text), |text|, threshold.num, threshold.den);
    !(CountCjk(text) * threshold.den < threshold.num * |text|)
  }

  /** A threshold above one rejects every text, since the share never exceeds one. */
  lemma ThresholdAboveOneRejectsAll(text: string, threshold: Ratio)
    requires |text| > 0
    requires threshold.num > threshold.den
    ensures !IsChineseParagraph(text, threshold)
  {
    var n := CountCjk(text);
    assert n * threshold.den <= |text| * threshold.den;
    assert |text| * threshold.den < |text| * threshold.num;
  }

  /** Some configured punctuation string occurs in the text (searched in list order). */
  function HasEndPunctuation(text: string, puncts: seq<string>): (r: bool)
    ensures r <==> exists k :: 0 <= k < |puncts| && Occurs(text, puncts[k])
  {
    if puncts == [] then false
    else if Find(text, puncts[0]) != -1 then true
    else
      var rest := HasEndPunctuation(text, puncts[1..]);
      assert forall k :: 1 <= k < |puncts| ==> puncts[k] == puncts[1..][k - 1];
      rest
  }

  /**
   * One step of the classifier. Marker lines are never kept; a keyword line
   * sets both flags, the references heading clears only `isMainText`, and
   * every other paragraph leaves the state alone. A paragraph is kept exactly
   * when it is in the body, carries an integer indent, and its blank-free text
   * is non-empty, Chinese enough and contains an end punctuation.
   */
  function IsValidParagraph(p: Paragraph, st: ScanState, o: Options): (v: Verdict)
    ensures OpensBody(p.text, st) ==> !v.valid && v.next == ScanState(true, true)
    ensures !OpensBody(p.text, st) && ClosesBody(p.text) ==> !v.valid && v.next == st.(isMainText := false)
    ensures !OpensBody(p.text, st) && !ClosesBody(p.text) ==> v.next == st
    ensures st.hasAppearKeyWord ==> v.next.hasAppearKeyWord
    ensures v.valid ==> st.isMainText && p.indent.Integral? && |Compact(p.text)| > 0
    ensures v.valid <==>
      && !OpensBody(p.text, st) && !ClosesBody(p.text) && st.isMainText && p.indent.Integral?
      && |Compact(p.text)| > 0
      && IsChineseParagraph(Compact(p.text), o.threshold)
      && HasEndPunctuation(Compact(p.text), o.endPunctuations)
  {
    if OpensBody(p.text, st) then Verdict(false, ScanState(true, true))
    else if ClosesBody(p.text) then Verdict(false, st.(isMainText := false))
    else if !st.isMainText then Verdict(false, st)
    else if p.indent.Absent? then Verdict(false, st)
    else if p.indent.NonIntegral? then Verdict(false, st)
    else
      var text := Compact(p.text);
      if text == [] then Verdict(false, st)
      else if !IsChineseParagraph(text, o.threshold) then Verdict(false, st)
      else if !HasEndPunctuation(text, o.endPunctuations) then Verdict(false, st)
      else Verdict(true, st)
  }

  /** The kept texts, in document order, and the state after the last paragraph. */
  datatype Collected = Collected(kept: seq<string>, final: ScanState)

  /**
   * The fold over the document: each kept paragraph contributes its text with
   * blanks and ASCII full stops stripped from both ends.
   */
  function GetAllValidParagraph(ps: seq<Paragraph>, st: ScanState, o: Options): (r: Collected)
    ensures |r.kept| <= |ps|
    ensures st.hasAppearKeyWord ==> r.final.hasAppearKeyWord
    decreases |ps|
  {
    if ps == [] then Collected([], st)
    else
      var v := IsValidParagraph(ps[0], st, o);
      var rest := GetAllValidParagraph(ps[1..], v.next, o);
      Collected((if v.valid then [Strip(ps[0].text, KeptStripChars)] else []) + rest.kept, rest.final)
  }

  /** The state the classifier is in when it reaches paragraph `i`. */
  function StateBefore(ps: seq<Paragraph>, st: ScanState, o: Options, i: nat): ScanState
    requires i <= |ps|
    decreases i
  {
    if i == 0 then st else IsValidParagraph(ps[i - 1], StateBefore(ps, st, o, i - 1), o).next
  }

  /** Paragraph `i` is kept when classified in the state the scan reaches it in. */
  predicate ValidAt(ps: seq<Paragraph>, st: ScanState, o: Options, i: nat)
    requires i < |ps|
  {
    IsValidParagraph(ps[i], StateBefore(ps, st, o, i), o).valid
  }

  /** The verdict of every paragraph, each in the state the scan reaches it in. */
  function KeptFlags(ps: seq<Paragraph>, st: ScanState, o: Options): (f: seq<bool>)
    ensures |f| == |ps|
    ensures forall i :: 0 <= i < |ps| ==> f[i] == ValidAt(ps, st, o, i)
  {
    seq(|ps|, i requires 0 <= i < |ps| => ValidAt(ps, st, o, i))
  }

  /** The positions at or after `i` of the paragraphs the scan keeps, in increasing order. */
  function ValidIndicesFrom(ps: seq<Paragraph>, st: ScanState, o: Options, i: nat): (r: seq<nat>)
    requires i <= |ps|
    ensures forall j :: 0 <= j < |r| ==> i <= r[j] < |ps| && ValidAt(ps, st, o, r[j])
    ensures StrictlyIncreasing(r)
    ensures forall n :: i <= n < |ps| && ValidAt(ps, st, o, n) ==> n in r
  {
    TruePositionsFrom(KeptFlags(ps, st, o), i)
  }

  /** The stripped texts of the paragraphs at positions `ix`. */
  function TextsAt(ps: seq<Paragraph>, ix: seq<nat>): (r: seq<string>)
    requires forall j :: 0 <= j < |ix| ==> ix[j] < |ps|
    ensures |r| == |ix|
    ensures forall j :: 0 <= j < |ix| ==> r[j] == Strip(ps[ix[j]].text, KeptStripChars)
  {
    seq(|ix|, j requires 0 <= j < |ix| => Strip(ps[ix[j]].text, KeptStripChars))
  }

  /** Peeling the first position off `ix` peels the first text off the result. */
  lemma TextsAtCons(ps: seq<Paragraph>, ix: seq<nat>)
    requires ix != [] && forall j :: 0 <= j < |ix| ==> ix[j] < |ps|
    ensures TextsAt(ps, ix) == [Strip(ps[ix[0]].text, KeptStripChars)] + TextsAt(ps, ix[1..])
  {
    var r := TextsAt(ps, ix);
    var rest := TextsAt(ps, ix[1..]);
    forall j | 1 <= j < |ix|
      ensures r[j] == rest[j - 1]
    {
      assert ix[1..][j - 1] == ix[j];
    }
  }

  lemma {:induction false} FoldFrom(ps: seq<Paragraph>, st: ScanState, o: Options, k: nat)
    requires k <= |ps|
    ensures var r := GetAllValidParagraph(ps[k..], StateBefore(ps, st, o, k), o);
      && r.kept == TextsAt(ps, ValidIndicesFrom(ps, st, o, k))
      && r.final == StateBefore(ps, st, o, |ps|)
    decreases |ps| - k
  {
    if k < |ps| {
      FoldFrom(ps, st, o, k + 1);
      assert ps[k..][1..] == ps[k + 1..];
      var f := KeptFlags(ps, st, o);
      assert f[k] == ValidAt(ps, st, o, k);
      var ix := TruePositionsFrom(f, k);
      if f[k] {
        assert ix[1..] == TruePositionsFrom(f, k + 1);
        TextsAtCons(ps, ix);
      }
    }
  }

  /**
   * The fold keeps exactly the paragraphs that are valid in the state the scan
   * reaches them in, in document order: an in-order subsequence of the
   * stripped paragraph texts.
   */
  lemma KeptAreTheValidParagraphs(ps: seq<Paragraph>, st: ScanState, o: Options)
    ensures var ix := ValidIndicesFrom(ps, st, o, 0);
      && GetAllValidParagraph(ps, st, o).kept == TextsAt(ps, ix)
      && GetAllValidParagraph(ps, st, o).final == StateBefore(ps, st, o, |ps|)
  {
    FoldFrom(ps, st, o, 0);
    assert ps[0..] == ps;
  }

  /** Before any keyword line the scan stays in its initial state. */
  lemma {:induction false} InitialUntilKeyword(ps: seq<Paragraph>, o: Options, i: nat)
    requires i <= |ps|
    requires forall j :: 0 <= j < i ==> !IsKeywordLine(ps[j].text)
    ensures StateBefore(ps, InitialState, o, i) == InitialState
  {
    if i > 0 {
      InitialUntilKeyword(ps, o, i - 1);
      InitialStep(ps, o, i - 1);
    }
  }

  /** A line that is not a keyword line, reached in the initial state, leaves the scan there. */
  lemma InitialStep(ps: seq<Paragraph>, o: Options, i: nat)
    requires i < |ps| && StateBefore(ps, InitialState, o, i) == InitialState
    requires !IsKeywordLine(ps[i].text)
    ensures StateBefore(ps, InitialState, o, i + 1) == InitialState
  {
    NonKeywordKeepsInitial(ps[i], o);
  }

  /** Outside the body, a line that is not a keyword line is not kept and leaves the state alone. */
  lemma NonKeywordKeepsInitial(p: Paragraph, o: Options)
    requires !IsKeywordLine(p.text)
    ensures IsValidParagraph(p, InitialState, o) == Verdict(false, InitialState)
  {
  }

  /**
   * Starting from the initial state, no paragraph up to and including the
   * first keyword line is kept.
   */
  lemma NothingKeptThroughFirstKeyword(ps: seq<Paragraph>, o: Options, k: nat)
    requires k < |ps|
    requires IsKeywordLine(ps[k].text)
    requires forall j :: 0 <= j < k ==> !IsKeywordLine(ps[j].text)
    ensures forall i :: 0 <= i <= k ==> !ValidAt(ps, InitialState, o, i)
    ensures forall j :: 0 <= j < |ValidIndicesFrom(ps, InitialState, o, 0)| ==>
      ValidIndicesFrom(ps, InitialState, o, 0)[j] > k
  {
    forall i | 0 <= i <= k
      ensures !ValidAt(ps, InitialState, o, i)
    {
      InitialUntilKeyword(ps, o, i);
    }
  }

  /**
   * Outside the body, and with no keyword line ahead, nothing is kept and the
   * state does not change.
   */
  lemma {:induction false} NoKeywordStaysOutside(ps: seq<Paragraph>, st: ScanState, o: Options)
    requires !st.isMainText
    requires forall i :: 0 <= i < |ps| ==> !IsKeywordLine(ps[i].text)
    ensures GetAllValidParagraph(ps, st, o).kept == []
    ensures GetAllValidParagraph(ps, st, o).final == st
    decreases |ps|
  {
    if ps != [] {
      assert !IsKeywordLine(ps[0].text);
      NoKeywordStaysOutside(ps[1..], st, o);
    }
  }
}
