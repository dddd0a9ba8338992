# japanese-utilities: a verified model of the text-alignment pipeline

This project models in Dafny the core of `japanese-utilities`, a pipeline that
aligns the output of a Japanese speech recogniser (Julius) with the sentences
of a source text. The model covers these parts:

- **Mappings** (`mappings.dfy`, `python/create_mappings.py`): the character
  tables. These are the punctuation set and its translation table, the
  fullwidth-to-halfwidth ASCII table and the halfwidth-to-fullwidth kana table.
- **Normalize** (`normalize.dfy`, `python/normalize.py`): the sentence
  normaliser. It applies NFKC, turns punctuation and characters outside the
  allow-list into spaces, collapses and trims whitespace, and deletes
  whitespace between non-ASCII characters. `normalize_examples.dfy` evaluates
  it on one sentence to show that the whitespace deletion is neither global
  nor idempotent.
- **FuzzyMatch** (`fuzzy_match.dfy`, `python/fuzzy_match.py`): the
  single-transcription matcher. It has these steps:
  - the sentence scanner;
  - the tab-separated transcription lines;
  - the candidate threshold;
  - the window enumeration and its `extractOne` choice;
  - `denormalize`, which maps a normalised window back onto the original
    characters;
  - `findBestMatch`.
- **NewMatch** (`new_match.dfy`, `python/new_match.py`): the sentence-level
  matcher. It has these steps:
  - the regex sentence splitter;
  - the re-derivation of candidate positions from `extractBests` answers,
    where each position is used once;
  - the weighted arg-max `judgePairs`;
  - `sentenceLevelMatch`, which intersects the surface and reading positions.
- **CallJulius** (`call_julius.dfy`, `python/call_julius.py`): the recogniser
  output handling. It covers the tag constants, the escaping of the `<s>` and
  `</s>` class names, the bad-line filter, the `CHUNK` wrapping, and the state
  machine that groups the output lines into one chunk per input file.
- **SplitAudio** (`split_audio.dfy`, `python/split_audio_on_silence.py`): the
  rule that merges short audio chunks into pieces of at least two seconds. It
  works over integer durations. The pieces are exported under consecutive
  numbers drawn from a counter shared by all files of a work.

These modules hold shared helpers:
- **Text** (`text.dfy`): Python's `str.strip`, `str.split`, `str.join` and
  `str.replace`, and `isspace`.
- **Seqs** (`seqs.dfy`): filtering, flattening and sums.
- **Wrappers** (`wrappers.dfy`): `Option` and `Result`. The exceptions the
  source raises become `Err` values: `RuntimeError`, `IndexError`,
  `ValueError` and `ZeroDivisionError`.

**Collaborators** (`collaborators.dfy`) holds the foreign libraries as
function values with the contracts their documentation promises:
- NFKC maps the empty string to itself.
- MeCab's reading is an arbitrary function.
- Scores lie in 0..100.
- `extractOne` answers exactly when it has choices, and answers with one of
  them.
- `extractBests` returns at most five pairs, whose choices are a sub-multiset
  of the choices.

Code that loops or updates state is modelled as methods with loop invariants,
each proved equal to a specification function:
- `DeleteSpacesWithinJapanese`, `YieldSentences`, `FindCandidates`,
  `Denormalize`, `RegainIndexes`, `JudgePairs` and `SentenceLevelMatch`;
- the chunk grouping of `call_julius.py`;
- the merging loop of `split_audio_on_silence.py`.

The `yieldInts` generator is a class with a mutable counter. Pure code is
modelled as functions.

## Model

| member | source | states |
|---|---|---|
| Mappings.PunctuationMapping | python/create_mappings.py:113-123 | maps exactly the characters of the punctuation set, each to a single space |
| Mappings.PunctuationSetCovers | python/create_mappings.py:113-119 | the punctuation set holds `string.punctuation` and every character of U+2010..U+2027, U+2030..U+205E and U+2E00..U+2E4F |
| Mappings.OghamSpaceMarkIsPunctuationAndSpace | python/create_mappings.py:108-117 | U+1680 is in the punctuation set and is whitespace, contrary to the comment on line 108 |
| Mappings.PunctuationIsNotSpace | python/create_mappings.py:108-119 | every other punctuation character is not whitespace |
| Mappings.AsciiPunctuationNotSpace | python/create_mappings.py:114 | no character of `string.punctuation` is whitespace |
| Mappings.FullwidthPunctuationNotSpace | python/create_mappings.py:115 | no character of the fullwidth and CJK marks is whitespace |
| Mappings.QuotationMarksNotSpace | python/create_mappings.py:116 | no quotation-mark variant is whitespace |
| Mappings.ScriptPunctuationNotSpace | python/create_mappings.py:117 | no character of the script marks other than U+1680 is whitespace |
| Mappings.CharRange | python/create_mappings.py:26-31 | `map(chr, range(lo, hi))` has `hi - lo` characters, the i-th with code point `lo + i` |
| Mappings.DictFromZip | python/create_mappings.py:22-23 | every entry of `dict(zip(ks, vs))` pairs a key of `ks` with a value of `vs` |
| Mappings.DictFromZipAt | python/create_mappings.py:22-23 | a key that does not recur later maps to the value zipped with it |
| Mappings.AsciiFullToHalfLengths | python/create_mappings.py:21-47 | both zipped sequences of the fullwidth table have 105 elements, so nothing is truncated |
| Mappings.AsciiFullSourceAt | python/create_mappings.py:24-34 | the fullwidth keys are U+3000, then U+FF01..U+FF60, U+FFE0..U+FFE6, and U+3007 |
| Mappings.AsciiFullSourcesDistinct | python/create_mappings.py:24-34 | the 105 fullwidth keys are pairwise distinct |
| Mappings.AsciiFullToHalfEntries | python/create_mappings.py:21-47 | U+3000 maps to the space, U+FF01..U+FF5E map to U+0021..U+007E (offset 0xFEE0), U+3007 maps to `0` |
| Mappings.JapHalfToFullPairs | python/create_mappings.py:64-93 | the 70 halfwidth code points pair position by position with the 70 listed targets |
| Mappings.JapHalfToFullSmallYo | python/create_mappings.py:75-78 | as written, U+FF6E maps to small yu U+30E5 just as U+FF6D does, and no key maps to small yo U+30E7 |
| Mappings.JapHalfToFullIntendedPairs | python/create_mappings.py:64-93 | the corrected table pairs the 70 code points with the corrected targets |
| Mappings.JapHalfToFullIntendedSmallKana | python/create_mappings.py:75-78 | in the corrected table the small kana U+FF67..U+FF6F map pairwise differently to the nine small fullwidth kana, U+FF6E to small yo |
| Normalize.TranslatePerChar | python/normalize.py:28 | `str.translate` with one-character values keeps the length and maps each character through the table |
| Normalize.Translate | python/normalize.py:28 | `s.translate(m)`: each character found in the table is replaced by its value, the others are kept; with one-character values the length is kept |
| Normalize.ReplacePunctuation | python/normalize.py:26-29 | keeps the length, puts a space at every punctuation character, and leaves every other character unchanged |
| Normalize.ReplacePunctuationRemovesAll | python/normalize.py:26-29 | the output holds no punctuation character |
| Normalize.ReplaceNonAllowed | python/normalize.py:35-39 | keeps the length, every output character is in the allow-list, allowed characters are kept and the others become spaces |
| Normalize.IsAllowed | python/normalize.py:35 | the allow-list class: ASCII from the space on, hiragana, katakana, the three Han ranges and U+3005, all between U+0020 and U+FA6A |
| Normalize.AllowedSpaceIsSpace | python/normalize.py:35 | the only whitespace character in the allow-list is the space |
| Normalize.CollapseSpaces | python/normalize.py:41-44 | each whitespace run becomes one space: the result is single-spaced, holds only spaces and characters of the input, and a non-empty result starts with whitespace exactly when the input does |
| Normalize.CollapseSpacesWords | python/normalize.py:41-44 | the collapse is exactly the words of the input joined by single spaces, with one space in front when the input starts with whitespace and one behind when it ends with whitespace after a word |
| Normalize.CollapseSameContent | python/normalize.py:41-44 | collapsing keeps the non-whitespace characters, in order |
| Normalize.CollapseSingleSpaced | python/normalize.py:41-44 | a single-spaced string is its own collapse |
| Normalize.DeletesKeepsSingleSpaced | python/normalize.py:47-55 | deleting whitespace from a single-spaced string keeps it single-spaced |
| Normalize.CleanWhitespace | python/normalize.py:41-45 | the result has only single spaces, none at either end, and the same non-whitespace content as the input |
| Normalize.Clean | python/normalize.py:41-45 | what `cleanWhitespace` returns: single spaces only and none at either end (definition; its consequences are the CleanWhitespace rows) |
| Normalize.CleanWhitespaceWords | python/normalize.py:41-45 | cleaning gives exactly the words of the input joined by single spaces (`" ".join(s.split())`) |
| Normalize.CleanWhitespaceIdempotent | python/normalize.py:41-45 | a clean string is unchanged, so cleaning twice equals cleaning once |
| Normalize.SpaceRunEnd | python/normalize.py:47 | the end of the maximal whitespace run at a position |
| Normalize.AfterGroup | python/normalize.py:47 | a match of `([^ -\x7F]\s+)+[^ -\x7F]` after a repetition of the group ends later, on a non-ASCII character |
| Normalize.TryGroup | python/normalize.py:47 | one more repetition of the group starts with a non-ASCII character and whitespace and ends on a non-ASCII character |
| Normalize.TryRuns | python/normalize.py:47 | trying shorter whitespace runs yields a match that ends on a non-ASCII character |
| Normalize.MatchesFrom | python/normalize.py:47-51 | the spans `finditer` yields are ordered and do not overlap, and each starts with a non-ASCII character and whitespace and ends with a non-ASCII character |
| Normalize.MatchTexts | python/normalize.py:51-52 | every matched text has at least three characters, a non-ASCII one followed by whitespace |
| Normalize.ReplaceEach | python/normalize.py:50-55 | replacing each matched text by itself without whitespace only deletes whitespace |
| Normalize.DeleteSpacesSpec | python/normalize.py:47-55 | `deleteSpacesWithinJapanese` only deletes whitespace |
| Normalize.DeleteSpacesWithinJapanese | python/normalize.py:47-55 | the loop computes the specification and only deletes whitespace |
| Normalize.Cleaned | python/normalize.py:59-64 | the stages before the whitespace deletion produce a clean string |
| Normalize.NormalizeSentence | python/normalize.py:57-66 | the normal form has only single spaces and none at either end |
| Normalize.NormalizeAllowed | python/normalize.py:57-66 | every character of the normal form is on the allow-list of line 35: ASCII from the space on, hiragana, katakana, the three Han ranges or U+3005 |
| Normalize.NormalizeKeepsChars | python/normalize.py:57-66 | the normal form is the cleaned sentence with some whitespace deleted |
| Normalize.SpaceIsNotPunctuation | python/create_mappings.py:113-119 | the space is not in the punctuation set |
| Normalize.ReplaceNonAllowedKeepsFree | python/normalize.py:63 | the allow-list step adds no punctuation |
| Normalize.CollapseKeepsFree | python/normalize.py:64 | collapsing whitespace adds no punctuation |
| Normalize.DeletesKeepsFree | python/normalize.py:65-66 | deleting whitespace adds no punctuation |
| Normalize.NormalizeHasNoPunctuation | python/normalize.py:57-66 | the normal form holds no character of the punctuation set |
| Normalize.NormalizeBlank | python/normalize.py:57-66 | a sentence whose NFKC form is all punctuation, whitespace or disallowed characters normalises to `""` |
| Normalize.AllSpacesContentEmpty | python/normalize.py:44 | an all-whitespace string has no non-whitespace content |
| Normalize.CleanEmptyContent | python/normalize.py:44 | a clean string without non-whitespace content is empty |
| NormalizeExamples.DeleteSpacesNotGlobal | python/normalize.py:47-55 | "あ い x う あ い え" becomes "あい x う あい え": the second match is gone after the first replacement |
| NormalizeExamples.DeleteSpacesNotIdempotent | python/normalize.py:47-55 | applying the whitespace deletion twice differs from applying it once |
| Text.Strip | python/normalize.py:44 | `str.strip()` is a contiguous slice of the input with no whitespace at either end, non-empty when the input has a non-whitespace character |
| Text.IsSpace | python/normalize.py:41 | `str.isspace()`, which is also what `\s` matches in a `str` pattern: tab through carriage return, U+001C through the space, U+0085, U+00A0, U+1680, U+2000-U+200A, U+2028, U+2029, U+202F, U+205F and U+3000 (definition) |
| Text.Find | python/fuzzy_match.py:49 | the first position at which `sep` occurs, `None` when there is none, as `str.split` scans for it |
| Text.Split | python/fuzzy_match.py:49 | `s.split(sep)`: at least one piece, and no piece holds `sep` |
| Text.Join | python/call_julius.py:60 | `sep.join(ps)`: `[]` for no pieces, otherwise the pieces with `sep` between neighbours (definition; partnered by JoinSplit and SplitJoin) |
| Text.ReplaceAll | python/normalize.py:54 | `s.replace(old, new)` as `new.join(s.split(old))`; replacing a text by itself changes nothing |
| Text.Words | python/normalize.py:41-45 | the words of a string (`str.split()`) are non-empty and free of whitespace, and there are none exactly when the string is all whitespace |
| Text.StripDeletes | python/normalize.py:66 | `str.strip()` only deletes whitespace |
| Text.JoinSplit | python/normalize.py:54 | joining the pieces of a split with its separator gives the string back |
| Text.SplitJoin | python/call_julius.py:59-60 | splitting the join of pieces free of a one-character separator gives the pieces back |
| Text.ReplaceDeletes | python/normalize.py:54 | `str.replace` of a text by itself without whitespace only deletes whitespace |
| FuzzyMatch.Kept | python/fuzzy_match.py:37-41 | dropping the splitting characters that arrive on an empty buffer does not lengthen the text |
| FuzzyMatch.YieldSentences | python/fuzzy_match.py:24-43 | every piece but the last is text ending in its only splitting character, none is a bare splitting character, the last holds none, and together they are the text minus the dropped splitting characters |
| FuzzyMatch.Feed | python/fuzzy_match.py:33-42 | one character: the pieces stay sentence pieces, the pending sentence holds no splitting character and is emptied exactly at a splitting character, and the text so far is kept except a splitting character arriving alone |
| FuzzyMatch.ParseLine | python/fuzzy_match.py:48-55 | both fields have no whitespace at either end, and the transcription is `""` when there is no tab |
| FuzzyMatch.ParseLineFields | python/fuzzy_match.py:49-54 | for every line with a tab, the path is the stripped text before the first tab and the transcription the stripped text up to the next tab or the end |
| FuzzyMatch.ParseLineRoundTrip | python/fuzzy_match.py:48-55 | a stripped, tab-free path and transcription written with a tab and newline parse back to themselves |
| FuzzyMatch.ParseLineNoTab | python/fuzzy_match.py:49-54 | a line without a tab is the stripped line with an empty transcription |
| FuzzyMatch.CombinedScore | python/fuzzy_match.py:76-79 | the combined score lies in [0, 1] |
| FuzzyMatch.CandidateByForms | python/fuzzy_match.py:66-82 | a sentence is kept iff both normal forms are non-empty and `(p + 0.75 q) / 175 >= 0.5` |
| FuzzyMatch.IsCandidate | python/fuzzy_match.py:66-82 | the test that keeps a sentence: both normal forms non-empty and `(p + 0.75 q) / 175 >= 0.5` |
| FuzzyMatch.CandidateThreshold | python/fuzzy_match.py:76-82 | a kept sentence has surface score at least 13, and a surface score of 88 suffices |
| FuzzyMatch.Candidates | python/fuzzy_match.py:63-85 | the candidates are at most as many as the sentences |
| FuzzyMatch.CandidatesExactly | python/fuzzy_match.py:63-85 | exactly the sentences that pass the threshold are candidates |
| FuzzyMatch.CandidatesAppend | python/fuzzy_match.py:64-83 | one more sentence appends it iff it passes, so the input order is kept |
| FuzzyMatch.CheckCandidate | python/fuzzy_match.py:66-83 | the loop body keeps a sentence iff it passes the threshold |
| FuzzyMatch.KeepIfCandidate | python/fuzzy_match.py:64-83 | one turn of the loop extends the candidates of the sentences seen by those of the next sentence |
| FuzzyMatch.FindCandidates | python/fuzzy_match.py:57-85 | the loop returns exactly the passing sentences, in order |
| FuzzyMatch.IndexOf | python/fuzzy_match.py:114 | `xs.index(x)` is the first position holding `x` |
| FuzzyMatch.NormalizeAll | python/fuzzy_match.py:104 | the i-th element is the normal form of the i-th candidate |
| FuzzyMatch.SizeRange | python/fuzzy_match.py:110-111 | the window sizes `[n - n//2, n + n//2)` are empty iff `n <= 1` and otherwise start at 1 or more and include `n` |
| FuzzyMatch.SlidesOf | python/fuzzy_match.py:117 | every window of one size, left to right, is the piece of the candidate at its position |
| FuzzyMatch.SizesOf | python/fuzzy_match.py:116-117 | every window has a size in the range |
| FuzzyMatch.SizesOfSound | python/fuzzy_match.py:116-117 | every window occurs in the candidate |
| FuzzyMatch.SizesOfHas | python/fuzzy_match.py:116-117 | every piece of a size in the range is a window |
| FuzzyMatch.WindowsFrom | python/fuzzy_match.py:113-118 | every window is tagged with a candidate position and has a size in the range |
| FuzzyMatch.WindowsFromSound | python/fuzzy_match.py:113-118 | every window is a piece of the normal form it is tagged with, tagged with the first position of that normal form |
| FuzzyMatch.WindowsFromHas | python/fuzzy_match.py:113-118 | every piece of a size in the range is listed with the first position of its normal form |
| FuzzyMatch.SurfaceWindows | python/fuzzy_match.py:113-118 | every window is tagged with a candidate position |
| FuzzyMatch.SurfaceWindowsAreWindows | python/fuzzy_match.py:113-118 | every window is a piece of a candidate's normal form of a size in the range, tagged with the first candidate having that normal form |
| FuzzyMatch.SurfaceWindowsComplete | python/fuzzy_match.py:113-118 | every piece of a normal form of a size in the range is a window |
| FuzzyMatch.NoWindowSizes | python/fuzzy_match.py:110-118 | an empty size range gives no windows |
| FuzzyMatch.Readings | python/fuzzy_match.py:120 | each reading is the stripped MeCab reading of its window |
| FuzzyMatch.BestReading | python/fuzzy_match.py:122 | the chosen reading is one of the window readings |
| FuzzyMatch.SearchWindows | python/fuzzy_match.py:100-134 | `("", -1)` exactly when `extractOne` finds nothing, otherwise a window of a valid candidate whose stripped reading is the chosen one |
| FuzzyMatch.SearchWindowsFirst | python/fuzzy_match.py:120-126 | the window returned is the first one whose reading is the chosen one, as `pronWindows.index` finds it |
| FuzzyMatch.SearchWindowsIsWindow | python/fuzzy_match.py:122-130 | a chosen window is a non-empty piece of the normal form of the first candidate with that normal form |
| FuzzyMatch.SearchWindowsShort | python/fuzzy_match.py:110-118 | a transcription whose normal form has at most one character gives `("", -1)` |
| FuzzyMatch.SearchWindowsFinds | python/fuzzy_match.py:113-130 | a match is found whenever some candidate's normal form is long enough for the smallest window |
| FuzzyMatch.Positions | python/fuzzy_match.py:143-144 | exactly the positions holding the character, ascending |
| FuzzyMatch.Slice | python/fuzzy_match.py:151 | `s[a:b]` is the characters from `a` to `b`, empty when `b <= a` |
| FuzzyMatch.NormalizerOf | python/fuzzy_match.py:12 | the normaliser value computes `normalizeSentence` |
| FuzzyMatch.SpanOrdered | python/fuzzy_match.py:147-151 | a matching span never runs backwards |
| FuzzyMatch.FirstTail | python/fuzzy_match.py:148-151 | the first matching tail for a head, or none |
| FuzzyMatch.FirstSpanFrom | python/fuzzy_match.py:147-151 | the first matching pair in head-major, tail-ascending order, or none |
| FuzzyMatch.FirstSpan | python/fuzzy_match.py:147-151 | the first matching pair, or no pair matches |
| FuzzyMatch.FirstSpanUnique | python/fuzzy_match.py:147-151 | the first matching pair is unique and the search finds it |
| FuzzyMatch.Denormalized | python/fuzzy_match.py:136-160 | the only error is IndexError: always for an empty `best`; `best` itself when no span matches |
| FuzzyMatch.DenormalizedSpan | python/fuzzy_match.py:147-157 | for the first matching span: IndexError when it ends at the candidate's last character, otherwise the span, plus the next character iff that is punctuation or a splitting character |
| FuzzyMatch.CutSpan | python/fuzzy_match.py:153-157 | IndexError exactly when the span ends at the candidate's last character; otherwise the span, extended by at most the next character |
| FuzzyMatch.Denormalize | python/fuzzy_match.py:136-160 | the search (`FindSpan`) and the cut compute `Denormalized`, IndexErrors included |
| FuzzyMatch.DenormalizedIsCut | python/fuzzy_match.py:147-157 | for the first matching pair the span normalises to `best` and the result is that span cut as on lines 153-157 |
| FuzzyMatch.FindSpan | python/fuzzy_match.py:140-151 | the outer loop over head positions finds the first matching pair, or none exactly when no pair matches |
| FuzzyMatch.TryHead | python/fuzzy_match.py:147-151 | one head position: the tail of the first matching pair, given that no earlier head matched, or none when no span from this head matches |
| FuzzyMatch.MatchTail | python/fuzzy_match.py:148-151 | the inner loop stops at the first tail position whose span normalises to `best`; all positions before it fail |
| FuzzyMatch.FoundIsFirst | python/fuzzy_match.py:147-151 | the pair the loops stop at is the first matching pair |
| FuzzyMatch.NoTailFor | python/fuzzy_match.py:148-151 | after the inner loop no span from the head matches, whatever its end |
| FuzzyMatch.NoHead | python/fuzzy_match.py:147-160 | after the outer loop no pair matches |
| FuzzyMatch.DenormalizedPiece | python/fuzzy_match.py:136-160 | the result is `best` or a piece of the candidate |
| FuzzyMatch.BestMatch | python/fuzzy_match.py:162-182 | `""` without candidates; the only error is IndexError |
| FuzzyMatch.WindowMatch | python/fuzzy_match.py:175-182 | `""` when no window is found; the only error is IndexError |
| FuzzyMatch.FindBestMatch | python/fuzzy_match.py:162-182 | the method returns `BestMatch` of the candidates it finds |
| FuzzyMatch.BestMatchFromCandidate | python/fuzzy_match.py:162-182 | a non-empty match is the single candidate (perfect match), or a piece of a candidate, or a window of a normal form |
| FuzzyMatch.WindowMatchPiece | python/fuzzy_match.py:176-180 | the denormalised window is a piece of a candidate or of its normal form |
| FuzzyMatch.BestMatchShort | python/fuzzy_match.py:165-182 | a transcription whose normal form has at most one character matches nothing, unless it equals the only candidate's normal form |
| NewMatch.LineLen | python/new_match.py:17 | the length of the first line: no newline before it, a newline at it |
| NewMatch.LastMark | python/new_match.py:17 | the last sentence mark before a position, or none |
| NewMatch.MatchLen | python/new_match.py:17 | the match of `.*[ã€‚]` is the longest prefix of the first line ending in a mark, or none |
| NewMatch.IsSentenceMark | python/new_match.py:17 | the class `[ã€‚]`: the three characters U+00E3, U+20AC and U+201A, none a line break |
| NewMatch.RegexMatch | python/new_match.py:17 | `u[..m]` matches `.*[ã€‚]`: no line break, ending in a mark |
| NewMatch.FindAll | python/new_match.py:22 | every match found is a line prefix ending in a mark |
| NewMatch.LinePiece | python/new_match.py:17-22 | a line contributes nothing iff it holds no mark |
| NewMatch.LineLenSuffix | python/new_match.py:17 | the first line of a suffix inside the first line ends where the first line does |
| NewMatch.LastMarkSame | python/new_match.py:17 | the last mark depends only on the characters before the position |
| NewMatch.PieceOfLine | python/new_match.py:17-22 | a line's piece runs through its last mark |
| NewMatch.ScanLine | python/new_match.py:22 | `findall` takes the first line's piece and goes on after that line |
| NewMatch.SplitOneLine | python/new_match.py:22 | text without a newline is one line |
| NewMatch.SplitFirstLine | python/new_match.py:22 | text with a newline splits at its first newline |
| NewMatch.FindAllByLines | python/new_match.py:17-22 | `findall` yields, for each line holding a mark, the line through its last mark |
| NewMatch.LinePieces | python/new_match.py:17-22 | per line, the line through its last mark; at most one piece per line |
| NewMatch.SplitStrippedText | python/new_match.py:17-24 | `[]` for a missing file, otherwise one piece per line with a mark, each ending in a mark and holding no newline |
| NewMatch.FirstUnused | python/new_match.py:34-38 | the inner loop finds the first position holding the choice that no earlier choice took, or none |
| NewMatch.FirstUnusedFrom | python/new_match.py:35-38 | the same search from a given position |
| NewMatch.Picks | python/new_match.py:34-40 | the positions taken are at most one per choice, valid and distinct |
| NewMatch.RegainedIndexes | python/new_match.py:26-45 | the only error is RuntimeError, and all positions are valid |
| NewMatch.RegainIndexes | python/new_match.py:26-45 | the nested loops compute `RegainedIndexes` |
| NewMatch.PicksStep | python/new_match.py:34-38 | a choice among the unused positions' keys takes its first unused position, which leaves the unused keys one copy of that choice fewer |
| NewMatch.RegainedNoCandidates | python/new_match.py:28-29 | with no candidates the result is `[]` |
| NewMatch.PicksFirstUnused | python/new_match.py:34-40 | each position taken is the first unused one holding its choice |
| NewMatch.RegainedPositions | python/new_match.py:30-45 | one position per choice, holding it, distinct, each the smallest one not used by an earlier choice |
| NewMatch.UnusedNone | python/new_match.py:36 | with nothing used, the unused keys are all keys |
| NewMatch.UnusedHas | python/new_match.py:36 | an unused key lies at an unused position |
| NewMatch.UnusedContains | python/new_match.py:36 | the key at an unused position is unused |
| NewMatch.UnusedAfter | python/new_match.py:36 | using an earlier position changes nothing later |
| NewMatch.UnusedTake | python/new_match.py:36-37 | taking a position removes its key once |
| NewMatch.PicksAll | python/new_match.py:34-43 | under the `extractBests` contract every choice finds a position |
| NewMatch.RegainedSucceeds | python/new_match.py:26-45 | under the `extractBests` contract no RuntimeError is raised and there is one position per choice |
| NewMatch.RegainedUnderContract | python/new_match.py:26-45 | under the `extractBests` contract the positions are one per choice and distinct |
| NewMatch.ReadAll | python/new_match.py:52 | the i-th element is MeCab's reading of the i-th candidate |
| NewMatch.GetSurfIndexes | python/new_match.py:26-45 | the positions regained over the normal forms of the candidates |
| NewMatch.GetYomiIndexes | python/new_match.py:48-67 | the positions regained over the normalised readings of the candidates |
| NewMatch.Indexes | python/new_match.py:80-81 | the positions of the triples, in order |
| NewMatch.Insert | python/new_match.py:71 | inserting keeps the list sorted by position and adds exactly the triple |
| NewMatch.SortByIndex | python/new_match.py:71-72 | the result is sorted by position and a permutation of the input |
| NewMatch.BoundAfterInsert | python/new_match.py:71 | a rearrangement keeps a lower bound of the positions |
| NewMatch.Abs | python/new_match.py:93 | the absolute value |
| NewMatch.RatioBounds | python/new_match.py:91-92 | `a / b` lies in [0, 1] when `0 <= a <= b` |
| NewMatch.PairScore | python/new_match.py:87-95 | the weighted score lies in [0, 1] when both relative positions do |
| NewMatch.RelativePositions | python/new_match.py:91-92 | `tInd / numTrans` and `index / numCands` lie in [0, 1] when the positions lie within their counts |
| NewMatch.PairScores | python/new_match.py:86-96 | the i-th score is that of the i-th pair |
| NewMatch.IndexesAgree | python/new_match.py:79-83 | the loop finds no mismatch exactly when both lists hold the same positions in the same order |
| NewMatch.ScorePairs | python/new_match.py:86-96 | the scoring loop raises ZeroDivisionError exactly when there is a pair and `numTrans` or `numCands` is zero; otherwise it yields `PairScores` |
| NewMatch.FirstMax | python/new_match.py:97 | `scores.index(max(scores))` holds a maximum, and no earlier position does |
| NewMatch.PermutationMember | python/new_match.py:71 | an element of the sorted list is an element of the input |
| NewMatch.BestIndex | python/new_match.py:86-97 | a position whose score no pair beats, while every pair at a smaller position scores less |
| NewMatch.Judged | python/new_match.py:69-97 | a successful answer is one of the surface positions, and it is `BestIndex` of the triples sorted by position (the first position of greatest score), reached only when the sorted position lists agree, are non-empty and neither count is zero |
| NewMatch.FirstMaxBySortedIndex | python/new_match.py:97 | in a list sorted by position the first maximum beats every smaller position |
| NewMatch.JudgePairs | python/new_match.py:69-97 | the loops compute `Judged` |
| NewMatch.MultisetCancel | python/new_match.py:71-83 | a common element cancels from both sides of a multiset equation |
| NewMatch.IndexesAppend | python/new_match.py:80-81 | the positions of a concatenation are the concatenated positions |
| NewMatch.RemoveAt | python/new_match.py:71-83 | taking one triple out removes it and its position once |
| NewMatch.IndexesPermutation | python/new_match.py:71-83 | rearranging triples rearranges their positions |
| NewMatch.AscendingUnique | python/new_match.py:71-83 | two ascending lists holding the same positions are equal |
| NewMatch.JudgedSucceeds | python/new_match.py:71-97 | when both sides hold the same positions there is no RuntimeError; with one pair or more the only error is ZeroDivisionError |
| NewMatch.Members | python/new_match.py:127 | `set(indexes)` holds exactly the elements of the list |
| NewMatch.TheElement | python/new_match.py:133 | `pop()` on a one-element set returns its element |
| NewMatch.InCommon | python/new_match.py:146 | the filter keeps exactly the triples whose position is common |
| NewMatch.Zip | python/new_match.py:142-145 | `zip` pairs up to the shorter length, position by position |
| NewMatch.Decided | python/new_match.py:126-160 | a sentence found is `(i, cands[i])` for a valid `i`; nothing found is `(-1, "")` |
| NewMatch.MultisetOfSetWith | python/new_match.py:127 | adding a new element to a set adds it once to the multiset |
| NewMatch.FilteredIndexes | python/new_match.py:139-155 | the filtered triples hold each common position once |
| NewMatch.JudgedInMatch | python/new_match.py:137-160 | with two common positions or more, `judgePairs` can fail only by dividing by `numTrans` |
| NewMatch.DecidedNeverRaises | python/new_match.py:113-160 | under the `extractBests` contract the only error is ZeroDivisionError, when `numTrans` is zero |
| NewMatch.RegainedAt | python/new_match.py:133 | the position regained for a choice holds that choice |
| NewMatch.RegainedChoice | python/new_match.py:127-133 | a regained position holds one of the choices |
| NewMatch.DecidedRanked | python/new_match.py:127-160 | a sentence found has the normal form of a candidate at or after it whose normal form and reading are both among the choices |
| NewMatch.DecidedSingleton | python/new_match.py:131-136 | with one common position `c`, the answer is the first candidate whose normal form equals that of `c` |
| NewMatch.DecideOne | python/new_match.py:131-136 | the answer is the first candidate whose normal form equals that of the common position, at or before it |
| NewMatch.DecideMany | python/new_match.py:137-160 | a sentence found through `judgePairs` is a common position and a valid candidate |
| NewMatch.DecideSingle | python/new_match.py:131-136 | the search loop over the normal forms returns `DecideOne` |
| NewMatch.DecideAmong | python/new_match.py:137-160 | the `judgePairs` branch computes `DecideMany` |
| NewMatch.DecidedNothing | python/new_match.py:127-130 | `(-1, "")` exactly when no position is common |
| NewMatch.Matched | python/new_match.py:99-160 | a sentence found is `(i, cands[i])`; nothing found is `(-1, "")` |
| NewMatch.MatchedOutcome | python/new_match.py:99-160 | raises only ZeroDivisionError, for a zero `numTrans`; a sentence found ranks among the best surface and reading matches |
| NewMatch.SentenceLevelMatch | python/new_match.py:99-160 | the method computes `Matched` |
| NewMatch.Decide | python/new_match.py:126-160 | the branches after the intersection compute `Decided` |
| Collaborators.ExtractOneAnswers | python/fuzzy_match.py:122-130 | `extractOne` answers iff there are choices, with one of them |
| Collaborators.Choices | python/new_match.py:144 | the choices of the pairs, position by position |
| Collaborators.ExtractBestsAnswers | python/new_match.py:113 | `extractBests` returns at most five pairs, whose choices form a sub-multiset of the choices |
| CallJulius.EndRecogMatch | python/call_julius.py:43-45 | true iff the line is `</RECOGOUT>` and a newline |
| CallJulius.EscapeAngleBrackets | python/call_julius.py:47-55 | text without either quoted token is unchanged |
| CallJulius.QuoteFreePrefix | python/call_julius.py:33-34 | no quoted token starts inside quote-free text |
| CallJulius.TwoQuotes | python/call_julius.py:33-34 | text with two quotes holds the quoted token only where they are |
| CallJulius.EscapeStartToken | python/call_julius.py:47-55 | a quoted `<s>` between quote-free texts becomes `"&lt;s&gt;"` and nothing else changes |
| CallJulius.EscapeEndToken | python/call_julius.py:47-55 | a quoted `</s>` between quote-free texts becomes `"&lt;/s&gt;"` and nothing else changes |
| CallJulius.EscapeOverlapping | python/call_julius.py:47-55 | two tokens sharing a quote are escaped once, so the output can still hold a quoted `<s>` |
| CallJulius.GoodLines | python/call_julius.py:59 | every kept line is neither `.` nor empty and holds no newline |
| CallJulius.IsGoodLine | python/call_julius.py:59 | a kept line is neither `.` nor empty |
| CallJulius.DeleteBadLines | python/call_julius.py:57-60 | `""` when no line is kept, otherwise its lines are exactly the kept lines, in order |
| CallJulius.DeleteBadLinesIdempotent | python/call_julius.py:57-60 | deleting bad lines twice equals deleting them once |
| CallJulius.FixXMLLines | python/call_julius.py:62-66 | the lines of the fixed XML are `<CHUNK>`, the kept lines of the escaped text (one empty line if none), and `</CHUNK>` |
| CallJulius.FixXML | python/call_julius.py:62-66 | `"<CHUNK>\n" + deleteBadLines(escapeAngleBrackets(s)) + "\n</CHUNK>"`: the result starts with `<CHUNK>` and a newline and ends with a newline and `</CHUNK>` |
| CallJulius.NextInput | python/call_julius.py:125-135 | the first input line from a position, or the end |
| CallJulius.ChunksShape | python/call_julius.py:117-139 | each chunk is an input line followed by lines that are not input lines |
| CallJulius.ChunksFrom | python/call_julius.py:117-139 | the chunks from line `i` on, each an input line with the lines after it up to the next input line (definition; ChunksShape and ChunksCover state its shape) |
| CallJulius.ChunksCover | python/call_julius.py:117-139 | the chunks hold, in order, every line from the first input line on, so earlier lines are skipped |
| CallJulius.ChunkTexts | python/call_julius.py:129-139 | each chunk's text is its lines concatenated |
| CallJulius.ReadChunk | python/call_julius.py:129-139 | the inner loop appends the lines up to the next input line, which it saves, or to the end |
| CallJulius.Pass | python/call_julius.py:117-140 | one corrected pass stops only when the lines are exhausted and no line is saved, makes progress, and yields the next chunk text |
| CallJulius.GroupChunks | python/call_julius.py:113-140 | the corrected loop yields exactly the text of every chunk, in order |
| CallJulius.YieldChunk | python/call_julius.py:125-140 | one chunk: the text yielded plus what the rest of the lines yield is what the lines from the input line on yield, and a saved line is an input line |
| CallJulius.NextChunk | python/call_julius.py:129-139 | the chunk starting at an input line, followed by the rest |
| CallJulius.AsWrittenPass | python/call_julius.py:116-140 | as written: once the flag is set every pass continues with the flag set; the loop ends only at the end of the lines with the flag clear |
| CallJulius.AsWrittenRepeats | python/call_julius.py:116-140 | as written, on two input lines the second chunk is yielded again and again |
| SplitAudio.Merged | python/split_audio_on_silence.py:72-78 | a merged group lasts at least as long as its first and its last chunk |
| SplitAudio.MergedLength | python/split_audio_on_silence.py:34-76 | a merged group lasts the sum of its chunks plus 300 ms between each two |
| SplitAudio.MergedSnoc | python/split_audio_on_silence.py:76 | absorbing a chunk adds the padding and the chunk |
| SplitAudio.MergeEnd | python/split_audio_on_silence.py:75-77 | merging stops at or after the position it starts from, within the chunks |
| SplitAudio.GroupsPartition | python/split_audio_on_silence.py:68-94 | the non-empty groups cover every chunk exactly once, in order |
| SplitAudio.GroupsFrom | python/split_audio_on_silence.py:68-94 | the groups the merging loop exports from `ds[i..]`, none of them empty |
| SplitAudio.MergeEndStops | python/split_audio_on_silence.py:72-78 | every shorter group from the start is under 2000 ms, and the group reaches 2000 ms or takes the last chunk |
| SplitAudio.FirstGroup | python/split_audio_on_silence.py:70-94 | the first group and the groups after it |
| SplitAudio.GroupsFormed | python/split_audio_on_silence.py:72-78 | a group starting at 2000 ms or more is that chunk alone; a shorter start absorbs until 2000 ms or the end; every group but the last reaches 2000 ms |
| SplitAudio.FirstGroupFormed | python/split_audio_on_silence.py:72-78 | the first group is formed as `GroupsFormed` states |
| SplitAudio.Counter.constructor | python/split_audio_on_silence.py:27-31 | a fresh generator starts at 0 |
| SplitAudio.Counter.Next | python/split_audio_on_silence.py:27-31 | `next(ints)` returns the current number and advances it by one |
| SplitAudio.DigitChar | python/split_audio_on_silence.py:88 | a digit character |
| SplitAudio.DigitValue | python/split_audio_on_silence.py:88 | the value of a digit character, inverse of `DigitChar` |
| SplitAudio.Decimal | python/split_audio_on_silence.py:88 | the decimal digits of a number, at least one |
| SplitAudio.DecimalRoundTrip | python/split_audio_on_silence.py:88 | the digits read back to the number |
| SplitAudio.LeadingZeros | python/split_audio_on_silence.py:88 | leading zeros do not change the number |
| SplitAudio.AllZeros | python/split_audio_on_silence.py:88 | a string of zeros reads as 0 |
| SplitAudio.Padded | python/split_audio_on_silence.py:88 | `f"{j:06}"` is digits only, at least six of them |
| SplitAudio.ExportNameRoundTrip | python/split_audio_on_silence.py:88 | the number reads back from the file name |
| SplitAudio.ExportName | python/split_audio_on_silence.py:88 | `f"{j:06}.wav"`: at least six digits followed by `.wav` |
| SplitAudio.PaddedRoundTrip | python/split_audio_on_silence.py:88 | the zero-padded digits denote the number |
| SplitAudio.ExportNamesDistinct | python/split_audio_on_silence.py:88 | different numbers give different file names |
| SplitAudio.DecimalLength | python/split_audio_on_silence.py:88 | numbers below `10^w` have at most `w` digits |
| SplitAudio.Power10 | python/split_audio_on_silence.py:88 | a power of ten is at least 1 |
| SplitAudio.ExportNameWidth | python/split_audio_on_silence.py:88 | below a million the name is six digits and `.wav` |
| SplitAudio.Exports | python/split_audio_on_silence.py:80-88 | one export per group |
| SplitAudio.ExportsNumbered | python/split_audio_on_silence.py:34-88 | export `k` is numbered `n + k` and lasts the sum of its chunks plus 300 ms between and around them |
| SplitAudio.ExportsAppend | python/split_audio_on_silence.py:85 | the exports of two lists of groups are numbered on from each other |
| SplitAudio.Absorb | python/split_audio_on_silence.py:72-78 | the inner loop ends where merging stops, holding the merged duration |
| SplitAudio.ExportGroup | python/split_audio_on_silence.py:71-94 | one turn exports the padded group under the counter's number and advances past the group |
| SplitAudio.SplitFile | python/split_audio_on_silence.py:68-94 | the loop exports every group, numbered on from the counter, which advances by the number of groups |
| SplitAudio.ExportStep | python/split_audio_on_silence.py:70-94 | one turn keeps the loop invariant: the first group's export moves from those to come to those made |
| SplitAudio.SplitWork | python/split_audio_on_silence.py:44-94 | one work's exports are the groups of all its files, numbered from 0 |
| SplitAudio.AllGroupsSnoc | python/split_audio_on_silence.py:47-94 | one more file appends its groups |
| SplitAudio.WorkNumbering | python/split_audio_on_silence.py:44-85 | the exports of a work are numbered 0, 1, 2, ... across all its files |
| SplitAudio.AllGroups | python/split_audio_on_silence.py:44-94 | the groups of all files of a work, one file after the other, none of them empty |
| Seqs.FilterMembers | python/call_julius.py:59 | a list comprehension with a condition keeps exactly the elements that satisfy it |
| Seqs.FilterIdempotent | python/call_julius.py:59 | filtering twice equals filtering once |
| Seqs.FlattenAppend | python/call_julius.py:139 | concatenating the texts of two lists of lines |

## Left out

- I/O is not modelled. Files are given as strings or lists of durations. This covers reading the stripped text, the transcription file, the sqlite databases, the pickle caches of `create_mappings.py`, the Julius socket (`yieldLines`), `Popen`/`sleep`, directory listing and `rm`.
- `multiprocessing.Pool` exists only for parallelism and is not modelled. Each work is handled on its own.
- NFKC, MeCab and the scorers are parameters with contracts; their internals are not modelled. The ranking inside `extractOne` and `extractBests` is not modelled either. Any answer that meets their documented contracts is allowed.
- Python floats in the scores are modelled as exact rationals (`real`). The threshold of `findCandidates` is exact in floats as well; `judgePairs` could differ from the rationals in rounding on near-ties.
- The lxml parsing in `processSent` is not modelled. `makeMatches`, `yieldBestMatches`, `main`, the unfinished `realign` and all commented-out code are not modelled either.
- The pydub calls are not modelled: `split_on_silence`, `set_frame_rate`, `match_target_amplitude` and `export`. Chunks are their durations in milliseconds. The file-suffix filter of `splitWorksAudio` is omitted, so each file is its list of chunk durations. The export directory is not modelled.
- SplitAudio.Exports: an export records its number, not its path; the file name is `ExportName(number)`.
- CallJulius.GroupChunks: collects the chunk texts instead of passing them to `processSent`, and it models the corrected loop. The loop as written is modelled by `CallJulius.AsWrittenPass`.
- CallJulius.EscapeAngleBrackets: does not state that the output holds neither quoted token. `CallJulius.EscapeOverlapping` shows that this is false for tokens sharing a quote. The escape itself is proved for a token between quote-free texts.
- NewMatch.SortByIndex: states sorted and a permutation, but not the stability of Python's sort. Stability is not needed, because each position occurs once.
- NewMatch.Decided: the singleton branch can fall off the end of the loop and return `None` in Python. `NewMatch.DecidedSingleton` shows that this cannot happen, so the model has no such case.
- FuzzyMatch.Denormalize: takes the normaliser as a parameter (`NormalizerOf` gives `normalizeSentence`). It keeps the source's IndexError when the matched span ends at the candidate's last character.
- NewMatch.SplitStrippedText: the character class `[ã€‚]` of line 17 is modelled as written: the three characters U+00E3, U+20AC and U+201A, not U+3002.
- The halfwidth kana table is kept as written. The corrected table exists only beside it, because no other part of the pipeline uses this table.

## Findings

| source | as written | input that shows it | evidently intended | confidence | as-written member | corrected member |
|---|---|---|---|---|---|---|
| python/call_julius.py:116-121 | `flag = False` sits inside `if not flag`, so once an input line is saved the flag is never cleared; mid-stream each chunk still saves a fresh input line, but once the lines run out the loop never ends: a final input line's chunk is yielded again on every pass, and a final non-input line makes the loop skip it forever without yielding | the lines `[INPUT_TAG, INPUT_TAG]`: after the first chunk the second chunk is yielded forever | clear the flag once the saved line is taken up, so each chunk is yielded once and the loop ends | not executed | CallJulius.AsWrittenRepeats | CallJulius.GroupChunks |
| python/create_mappings.py:77 | the target list holds small yu (U+30E5) twice, so halfwidth small yo U+FF6E becomes small yu | the character U+FF6E | U+FF6E becomes small yo U+30E7, and the nine small kana map pairwise differently | not executed | Mappings.JapHalfToFullSmallYo | Mappings.JapHalfToFullIntendedSmallKana |
