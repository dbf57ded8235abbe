# PaperTextChecker proofreading core, modelled in Dafny

`PaperTextChecker` reads a thesis, keeps its body paragraphs and flags every
whitespace-separated stretch that the word segmenter (jieba) leaves as one
lone ideograph-bearing token. It then writes a report. In that report each
flagged stretch is wrapped in `<font color=red>…</font>`, and the rest of the
paragraph is copied unchanged.

This project models the pure part of that pipeline and proves its
properties. It has eight modules:

- `Wrappers`: `Option` and `Result`.
- `Text`: the Python string operations the checker uses:
  - `find`;
  - `strip`;
  - chained `replace(c, '')`;
  - the ideograph count;
  - clamped slicing.
- `Seqs`: increasing index sequences and slicing facts.
- `Options`: the option record, its built-in defaults, and how the
  constructor merges arguments with the JSON configuration.
- `Classifier`:
  - `is_chinese_paragraph` and `has_end_punctuation`;
  - the two-flag state machine `is_valid_paragraph`;
  - its fold `get_all_valid_paragraph`.
- `Normalizer`: `pre_process_paragraph`, which filters characters, turns
  clause marks into spaces, and keeps the original offset of each kept
  character.
- `Detector`:
  - `str.split()` with positions (`Chunks`);
  - the flagging test;
  - the span loop as written, with its running counter (`DetectAsWritten`);
  - the same loop reading each chunk's true position (`Detect`).
- `Report`:
  - `add_color` and its inverse;
  - the assembly loop (`Assemble`) with its functional reference (`Pieces`
    and `Render`);
  - `check_single_paragraph`;
  - the error-paragraph list collected by `check_all_paragraph`.

The following are parameters of the model:

- The segmenter is a function parameter `seg: string -> seq<string>`.
- The whitespace set used by `str.split()` is a parameter `ws`.
- The float threshold is a ratio `num / den` with `den > 0`, so the test at
  line 86 becomes a cross-multiplication. `IsChineseParagraph` states that
  this agrees with real division.

The single-paragraph check and the error list take a `Reading`. With
`AtCounter` they read each flagged chunk's span at the running counter, as
the code is written. With `AtPosition` they read it at the chunk's true
position. Every lemma about the error list holds for both readings. The two
readings are compared under "## Findings".

## Model

| member | source | states |
|---|---|---|
| Options.Resolve | paper_write_hw.py:51-72 | The options succeed exactly when the threshold actually kept (the file's value if present, else the argument) lies in [0, 1]. The white list, end punctuation, ignored characters and split punctuation each come from the file when the key is present. Otherwise the white list comes from the argument (or is empty) and the rest from the built-in defaults. |
| Options.ResolveAsWritten | paper_write_hw.py:55-62 | As written, the constructor fails exactly when the threshold ARGUMENT is outside [0, 1]. The threshold it keeps is the file's value whenever the file has one. |
| Options.ConfigThresholdEscapesValidation | paper_write_hw.py:55-62 | As written, a file threshold of 3/2 is accepted and kept. An out-of-range argument is refused even though the file overrides it. |
| Options.ResolveAgreesWithoutFileThreshold | paper_write_hw.py:55-62 | Without a threshold in the file, the corrected and as-written option handling give the same result. |
| Text.Find | paper_write_hw.py:101-103 | `find` returns -1 exactly when the substring does not occur. Otherwise it returns a position where it matches. |
| Text.FindFrom | paper_write_hw.py:101-103 | `find` from a start position returns the first match at or after it, or -1 when there is none. |
| Text.Strip | paper_write_hw.py:112 | `strip` returns the infix left after dropping leading and trailing characters of the set, and removes only such characters. The result is empty exactly when every character is in the set. |
| Text.RemoveAll | paper_write_hw.py:127 | The chained `replace(c, '')` leaves no character of the set. It keeps every other character with its multiplicity. |
| Text.RemoveAllConcat | paper_write_hw.py:127 | Removal distributes over concatenation, so the remaining characters keep their order. |
| Text.RemoveAllOne | paper_write_hw.py:127 | A single character is kept exactly when it is not in the set. With `RemoveAllConcat` this determines the result on every string. |
| Text.CountCjk | paper_write_hw.py:85 | The count of characters in U+4E00..U+9FFF is at most the length. It is zero exactly when no character is in range. |
| Text.CountCjkConcat | paper_write_hw.py:85 | The count of a concatenation is the sum of the counts. |
| Text.CountCjkOne | paper_write_hw.py:85 | A single character counts one exactly when it is in range. With `CountCjkConcat` this determines the count of every string. |
| Text.PySlice | paper_write_hw.py:223-226 | Python slicing with non-negative bounds is the ordinary slice when the bounds are in order and in range. A stop past the end is clamped to the end. The result is empty when the start is at or past the end or past the stop. |
| Classifier.IsChineseParagraph | paper_write_hw.py:77-88 | On non-empty text: true exactly when the ideograph share, as a real quotient, is at least the threshold. The bound is inclusive. |
| Classifier.ThresholdAboveOneRejectsAll | paper_write_hw.py:85-88 | A threshold above one rejects every non-empty text. |
| Classifier.HasEndPunctuation | paper_write_hw.py:90-104 | True exactly when some configured punctuation string occurs in the text. This includes the multi-character `......` of the default list. |
| Classifier.OpensBody | paper_write_hw.py:113-114 | A line opens the body when its blank-stripped text starts with `关键词`, or starts with `关键字` while no keyword line has been seen. |
| Classifier.IsValidParagraph | paper_write_hw.py:106-134 | A keyword line (the first label always, the second only before any keyword line) is not kept and sets both flags. The references heading is not kept and clears only the body flag. Every other line leaves both flags alone, and the keyword flag never returns to false. A paragraph is kept exactly when all of these hold: it is in the body, it has an integer indent, and its blank-free text is non-empty, Chinese enough and contains an end punctuation. |
| Classifier.GetAllValidParagraph | paper_write_hw.py:136-139 | The fold keeps at most one text per paragraph. Once a keyword line has been seen, the flag stays set. |
| Classifier.ValidIndicesFrom | paper_write_hw.py:136-139 | Returns the positions of exactly the paragraphs valid in the state the scan reaches them in, strictly increasing. |
| Classifier.FoldFrom | paper_write_hw.py:136-139 | Run from paragraph `k` in the state reached there, the fold keeps the stripped texts at the valid positions from `k` on and ends in the final state. |
| Classifier.KeptAreTheValidParagraphs | paper_write_hw.py:136-139 | The kept list is an in-order subsequence of the stripped paragraph texts. It holds exactly the paragraphs valid in the state the scan reaches them in. |
| Classifier.InitialUntilKeyword | paper_write_hw.py:112-122 | Before the first keyword line, the scan stays in its initial state. |
| Classifier.NothingKeptThroughFirstKeyword | paper_write_hw.py:112-122 | From the initial state, no paragraph up to and including the first keyword line is kept. Every kept position lies after it. |
| Classifier.NoKeywordStaysOutside | paper_write_hw.py:112-122 | Outside the body with no keyword line ahead, nothing is kept and the state does not change. |
| Normalizer.Kept | paper_write_hw.py:152-158 | A character is kept unless it is an ignored symbol, or ASCII and not alphanumeric. |
| Normalizer.Emitted | paper_write_hw.py:167-170 | A kept split punctuation mark becomes a space; every other kept character is copied. |
| Normalizer.PreProcessParagraph | paper_write_hw.py:141-171 | The offset list and the normalised text have equal length, and every offset lies inside the paragraph. |
| Normalizer.OffsetsAreKept | paper_write_hw.py:152-158 | Every offset is that of a kept character: not ignored, and not ASCII unless alphanumeric. The character beside it is that character, or a space when it is a split punctuation mark (lines 164-170). |
| Normalizer.OffsetsIncrease | paper_write_hw.py:164-166 | The offsets are strictly increasing. |
| Normalizer.KeptAreRecorded | paper_write_hw.py:164-166 | Every kept character of the paragraph has its offset recorded, so the filter keeps exactly the kept characters. |
| Normalizer.NormalizedAscii | paper_write_hw.py:156-168 | Every ASCII character of the normalised text is a letter, a digit or a space. Every space stands for a split punctuation mark of the paragraph. |
| Normalizer.TextOfConcat | paper_write_hw.py:163-171 | Normalising a concatenation normalises each part. |
| Normalizer.PrefixOfResult | paper_write_hw.py:163-171 | Normalising a prefix gives a prefix of the result: the entries whose offsets lie before the cut. |
| Normalizer.NormalizeSpan | paper_write_hw.py:163-171 | The stretch of the paragraph from the `i`-th to the `(j-1)`-th kept offset normalises to exactly the normalised characters `i..j`. |
| Detector.Chunks | paper_write_hw.py:211 | `split()` with the position of each piece; its partner lemmas below pin it down. |
| Detector.ChunksWithin | paper_write_hw.py:211 | Every piece of `split()` is non-empty and lies inside the text. |
| Detector.ChunksSeparated | paper_write_hw.py:211 | The pieces come in order, with at least one whitespace character between any two. |
| Detector.ChunksAreRuns | paper_write_hw.py:211 | Every piece is a maximal whitespace-free run of the text at its position. |
| Detector.ChunkIsSlice | paper_write_hw.py:211 | Every piece is the slice of the text at its position. |
| Detector.ChunksCover | paper_write_hw.py:211 | Every non-whitespace character of the text lies inside some piece. |
| Detector.ChunksFit | paper_write_hw.py:211-219 | The pieces, each counted with one delimiter after it, fit in the text. So the running counter never reads past the offset list. |
| Detector.Flagged | paper_write_hw.py:215-217 | A piece is flagged when it segments into exactly one token that is not white-listed and contains a character of U+4E00..U+9FA5. |
| Detector.DetectAsWritten | paper_write_hw.py:213-219 | The as-written loop reports at most one span per piece. Every offset it reads is in range on every input. `DetectAsWrittenReadsCounter` says which spans it reports. |
| Detector.CounterReadsFrom | paper_write_hw.py:213-219 | Entered at piece `k` with the counter it has reached there, the loop returns the counter spans of the flagged pieces from `k` on, in order. |
| Detector.DetectAsWrittenReadsCounter | paper_write_hw.py:213-219 | The as-written loop returns one span per flagged piece, in order. The `j`-th span is read at the counter of the `j`-th flagged piece: start plus each earlier piece's length and one. So it reports something exactly when some piece is flagged. |
| Detector.DetectAsWrittenOrdered | paper_write_hw.py:213-219 | On every input, the as-written spans are ordered and pairwise disjoint. |
| Detector.DetectAsWrittenReadsOffsets | paper_write_hw.py:218 | Both ends of every as-written span are entries of the offset list. |
| Detector.Detect | paper_write_hw.py:214-218 | The position-reading loop reports at most one span per piece. |
| Detector.DetectOrdered | paper_write_hw.py:214-218 | For separated pieces, the spans are ordered and pairwise disjoint. |
| Detector.DetectReportsFlaggedChunks | paper_write_hw.py:214-218 | A span is reported exactly when it belongs to a flagged piece. A piece is flagged when it segments into one token that is not white-listed and contains a character of U+4E00..U+9FA5. |
| Detector.AlignedDetectorsAgree | paper_write_hw.py:218-219 | Where every piece starts at the counter, the as-written and position-reading loops report the same spans. |
| Detector.ChunksAligned | paper_write_hw.py:211-219 | Without leading or repeated whitespace, every piece starts where the counter stands. |
| Detector.CounterTracksPositions | paper_write_hw.py:211-219 | Without leading or repeated whitespace, the as-written spans are exactly the first and last kept offsets of each flagged piece. |
| Report.AddColor | paper_write_hw.py:182-190 | The comment between the opening font tag for the colour and the closing tag; `ColorRoundTrip` inverts it. |
| Report.Unwrap | paper_write_hw.py:182-190 | Removing the font tags shortens the text by exactly the tags' length. |
| Report.ColorRoundTrip | paper_write_hw.py:182-190 | `Unwrap` inverts `add_color`, and everything it accepts was produced by `add_color`. |
| Report.Assemble | paper_write_hw.py:220-226 | The assembly loop produces the rendering of the pieces: the text before each span, the span wrapped, then the tail. |
| Report.PiecesSpellParagraph | paper_write_hw.py:221-226 | For ordered spans inside the paragraph, the pieces with the markup removed spell the paragraph exactly. |
| Report.MarkedAreSpans | paper_write_hw.py:221-226 | The highlighted pieces are exactly the stretches the spans cover, one per span, in order. |
| Report.FlaggedSpans | paper_write_hw.py:210-219 | Reading true positions, the spans are non-empty exactly when some chunk of the normalised paragraph is flagged. |
| Report.FlaggedSpansAsWritten | paper_write_hw.py:210-219 | Reading at the counter, as written, the spans are non-empty exactly when some chunk is flagged. |
| Report.CheckSingleParagraph | paper_write_hw.py:204-227 | With true positions, a paragraph gets a report exactly when some chunk is flagged. |
| Report.CheckSingleParagraphAsWritten | paper_write_hw.py:204-227 | As written, a paragraph gets a report exactly when some chunk is flagged. |
| Report.SpansInParagraph | paper_write_hw.py:210-219 | The reported spans are ordered, disjoint and inside the paragraph. |
| Report.AsWrittenSpansInParagraph | paper_write_hw.py:210-219 | The as-written spans are ordered, disjoint and inside the paragraph on every input too. |
| Report.StretchNormalizes | paper_write_hw.py:210-218 | The stretch of the paragraph between a chunk's first and last kept offsets normalises back to the chunk. |
| Report.HighlightsAreFlaggedChunks | paper_write_hw.py:210-224 | Every highlighted stretch, normalised, is a flagged chunk. So a white-listed word is never highlighted on its own. |
| Report.FlaggedChunksAreHighlighted | paper_write_hw.py:210-224 | Every flagged chunk's stretch of the paragraph is among the highlighted texts, and the paragraph is reported. |
| Report.ReportedIffFlagged | paper_write_hw.py:204-227 | With true positions, a paragraph is reported exactly when one of its chunks is flagged. The report with the markup removed is the paragraph itself, with one highlighted stretch per span. |
| Report.AsWrittenReportedIffFlagged | paper_write_hw.py:204-227 | As written, a paragraph is reported exactly when one of its chunks is flagged. The report with the markup removed is the paragraph itself, with one highlighted stretch per span the counter reads. |
| Report.AsWrittenAgreesWhenSingleSpaced | paper_write_hw.py:210-219 | When the normalised paragraph has no leading or repeated whitespace, the as-written check and the position-reading check give the same report. |
| Report.ReportOfTwo | paper_write_hw.py:220-226 | Two ordered spans give the paragraph with both stretches wrapped by `add_color`. |
| Report.CounterDriftExample | paper_write_hw.py:219 | For `好？！坏` with the default options, as written, the counter reads spans (0,0) and (2,2). The report highlights `！` and leaves `坏` plain. |
| Report.DriftExampleCorrected | paper_write_hw.py:214-226 | For the same paragraph, reading true positions gives spans (0,0) and (3,3). The report highlights `好` and `坏` and leaves `？！` plain. |
| Report.Check | paper_write_hw.py:204-227 | With either reading, a paragraph gets a report exactly when some chunk is flagged. |
| Report.ErrorParagraphs | paper_write_hw.py:177-178 | The error list has at most one entry per checked paragraph. `ErrorParagraphsConcat` and `ErrorParagraphsOne` fix its entries, their order and their repeats. |
| Report.ErrorParagraphsConcat | paper_write_hw.py:177-178 | The error list of two runs of paragraphs is the first run's list followed by the second's, so reports keep the order of their paragraphs. |
| Report.ErrorParagraphsOne | paper_write_hw.py:220-227 | One paragraph contributes its report exactly once when a chunk is flagged, and nothing otherwise. |
| Report.ErrorParagraphsAreReports | paper_write_hw.py:220-227 | With either reading, a text is in the error list exactly when it is the report of a checked paragraph in which a chunk is flagged. This is membership only; the order is given by `ErrorParagraphsConcat`. |
| Report.CheckAllParagraph | paper_write_hw.py:173-179 | The whole check lists at most one report per paragraph of the document. `CheckAllParagraphInOrder` gives the list itself. |
| Report.CheckAllParagraphInOrder | paper_write_hw.py:173-179 | The whole check's error list is the error list of the kept paragraphs' stripped texts, in document order. This is the order in which `write_report` writes them out. |
| Report.ErrorsComeFromKeptParagraphs | paper_write_hw.py:173-179 | With either reading, a text is in the whole check's error list exactly when it is the report of a paragraph the scan kept. This is membership only; the order is given by `CheckAllParagraphInOrder`. |

## Left out

- Document loading (`docx.Document`), the `.doc` conversion through Word COM (`doc2doc_x`), the GUI in `UploadAchieve.py` and the `__main__` blocks are I/O or foreign code. A paragraph is a record of its text and an indent that is absent, an integer or something else.
- `__init__`'s path handling, JSON reading and report-file opening are I/O. Only its merging and validation of option values is modelled (`Options.Resolve`).
- `write_report` writes to a file. Its sentinel text and per-paragraph heading are not modelled. The error list it writes is (`Report.ErrorParagraphs`).
- The type checks at lines 59 and 71-72 (a threshold that is not a number, a white list that is not a list) cannot arise in the typed model.
- jieba's segmentation algorithm and dictionary are foreign code. The segmenter is an arbitrary function parameter.
- The float division at line 86 is replaced by exact rational arithmetic. Floating-point rounding is not modelled.
- Python's `str.split()` whitespace is a parameter `ws` rather than the fixed Unicode whitespace table.
- Text.PySlice: only non-negative bounds are modelled. The source never slices with a negative index.
- Report.Assemble: it is proved for any markup pair. The report uses it with `add_color`'s red font tags (`ReportMarkup`).
- Classifier.IsChineseParagraph: it requires non-empty text. The source divides by the length and is called only after the empty check at line 128.

## Findings

| source | as written | input that shows it | evidently intended | confidence | as-written member | corrected member |
|---|---|---|---|---|---|---|
| paper_write_hw.py:219 | The span of a flagged piece is read at a counter that advances by the piece's length plus one. This assumes exactly one delimiter between pieces and none in front. | `好？！坏` with the default options: both marks become spaces. The counter reads (0,0) and (2,2), so `！` is highlighted and `坏` is not. | Read each piece's span at its true position in the normalised text. | high (not executed) | Report.CounterDriftExample | Report.DriftExampleCorrected |
| paper_write_hw.py:59-62 | The range check tests the threshold argument, although the threshold kept is the configuration file's value whenever it has one. | A file threshold of 3/2 with the default argument is accepted. An argument of 3/2 with a valid file threshold is refused. | Check the threshold actually kept. | high (not executed) | Options.ConfigThresholdEscapesValidation | Options.Resolve |

The counter drift is harmless when the normalised paragraph is single-spaced
(`Report.AsWrittenAgreesWhenSingleSpaced`). The as-written spans are also
always in range and ordered (`Detector.ChunksFit`,
`Report.AsWrittenSpansInParagraph`). The whole check
(`Report.CheckAllParagraph`) is stated for both readings: `AtCounter` is the
code as written and `AtPosition` the correction. The scan and the check take
any `Options` value, so every lemma about them holds for whatever
`Options.Resolve` or `Options.ResolveAsWritten` returns.

The keyword test at lines 113-114 parses as
`startswith('关键词') or (startswith('关键字') and not has_appear_key_word)`.
A line starting with `关键词` therefore re-enters the body every time it
appears. The model keeps this precedence (`Classifier.OpensBody`).
