# Inclusive-language term annotation, in Dafny

This project models the data-transformation core of the inclusify repository
and proves properties of it:

- **The mock term matcher** (`mockAnalyze` and `termMap` in
  `frontend/lib/utils/mock.ts`). It lower-cases the text and scans it once per
  rule of the term table with repeated `indexOf`, each search resuming at the
  end of the previous match. It emits one annotation per match, at most one
  result per distinct lower-cased term, and one severity count per match.
  The rule table is a parameter (`seq<Rule>`). `Mock.TermMap` is the
  five-entry table the source ships.
- **The text segmenter**: the loop of `AnnotatedText` that turns a text and its
  annotations into plain and annotated parts, lifted out of the React
  component as the pure function `AnnotatedText.Segment`.
  - `AnnotatedText.SegmentClamped` is a variant that never moves the cursor
    backwards.
  - `AnalyzePage` joins the matcher to the segmenter. The analyse page
    segments the textarea's current text with the annotations of its last
    run (`AnalyzePage.PageRender`); the coverage results are stated for the
    moment right after a run, when the two texts agree.
- **The three PDF text cleaners** of `ml/data_collection/text_extractor.py`
  (`_remove_headers_footers`, `_remove_references`, `_normalize_whitespace`)
  and the order in which `extract_text` applies them (`TextExtractor.CleanText`).
  `TextExtractor.NormalizeWhitespaceCorrected` is a variant of
  `_normalize_whitespace` that collapses newline runs after the right strip
  (see "Findings").
- **The locale path rewrite** inside `switchLocale` of
  `frontend/components/LanguageSwitcher.tsx`.
- **`_determine_n_components`** of `ml/clustering/clusterer.py`.
- **`PASTEL_BG` and `paletteColor`** of `frontend/lib/utils/palette.ts`.

Modules, one per file:

| module | models |
|---|---|
| `Wrappers` | optional values |
| `Types` | the severity, annotation, reference and result records |
| `Strings` | shared string primitives (lower-case, `indexOf`, `strip`, `split`/`join`) |
| `Mock` | the matcher |
| `AnnotatedText` | the segmenter |
| `AnalyzePage` | the page gluing the two |
| `TextExtractor` | the cleaners |
| `LanguageSwitcher` | the path rewrite |
| `Clusterer` | the component-count heuristic |
| `Palette` | the colour table |

The source's loops are also written out as methods, each proved to compute
the functional model:

- `Mock.MockAnalyze` and `Mock.ScanRule` (the matcher);
- `TextExtractor.RemoveHeadersFootersLoop`, `TextExtractor.CountLines` and
  `TextExtractor.RemoveReferencesLoop` (the cleaners).

Characters are modelled over ASCII:

- `toLowerCase`/`lower` maps only `A`..`Z`, one character to one;
- whitespace is the ASCII part of Python's `str.isspace`;
- digits are `0`..`9`.

JavaScript's `String.prototype.slice` is modelled for every integer offset:
negative offsets count from the end, and both ends are clamped. So `Segment`
is total even for annotations out of range. `Segment` is a pure function,
so sorting a copy (`[...annotations]`) leaves the caller's list as it was
by construction.

## Model

| member | source | states |
|---|---|---|
| `Strings.LowerStrSlice` | frontend/lib/utils/mock.ts:58-67 | lower-casing commutes with slicing, so an offset found in the lower-cased text indexes the same span of the original text |
| `Strings.IndexOf` | frontend/lib/utils/mock.ts:65 | the search returns -1 or an offset at or after `from` where the needle occurs |
| `Strings.IndexOfSpec` | frontend/lib/utils/mock.ts:65 | the search returns -1 exactly when the needle occurs nowhere at or after `from`; otherwise no occurrence lies between `from` and the returned offset |
| `Strings.StripSpec` | ml/data_collection/text_extractor.py:40 | `strip` is the slice of the input between a whitespace-only prefix and a whitespace-only suffix; it is empty exactly for whitespace-only strings, leaves no whitespace at either end, never lengthens, and is the identity on strings with no whitespace at the ends |
| `Strings.RStripSpec` | ml/data_collection/text_extractor.py:124 | `rstrip` keeps a prefix that does not end in whitespace and drops only whitespace |
| `Strings.Split` | ml/data_collection/text_extractor.py:34 | `split('\n')` yields at least one piece, and no piece contains the separator |
| `Strings.SplitLength` | ml/data_collection/text_extractor.py:34 | a split has one more piece than the string has separators |
| `Strings.JoinSplit` | ml/data_collection/text_extractor.py:124-125 | joining the pieces of a split restores the string |
| `Strings.SplitJoin` | ml/data_collection/text_extractor.py:124-125 | splitting a join of separator-free lines restores the lines |
| `Mock.Counts.Bump` | frontend/lib/utils/mock.ts:95 | `counts[severity] += 1` raises that severity's count by one and leaves the other three alone |
| `Mock.TermMapValid` | frontend/lib/utils/mock.ts:5-41 | no term of the shipped table is empty, so the scan terminates on it |
| `Mock.RuleOccurrences` | frontend/lib/utils/mock.ts:64-98 | every match of one rule lies at or after the start offset, is a real occurrence of the lower-cased term with `end = start + length`, carries its rule, and matches are in increasing order and do not overlap |
| `Mock.RuleOccurrencesGreedy` | frontend/lib/utils/mock.ts:64-98 | every occurrence of the term in the text overlaps some reported match: the scan is the leftmost greedy non-overlapping one |
| `Mock.BackToBackRepeats` | frontend/lib/utils/mock.ts:96 | term `aa` on `aaaa` matches exactly at [0,2) and [2,4) |
| `Mock.Scan` | frontend/lib/utils/mock.ts:59-99 | each match belongs to a table rule and is a real occurrence of it; matches are grouped by rule in table order and ascending and non-overlapping within a rule |
| `Mock.ScanEmpty` | frontend/lib/utils/mock.ts:59-99 | the scan finds nothing exactly when no term of the table occurs anywhere in the text |
| `Mock.DedupSpec` | frontend/lib/utils/mock.ts:82-93 | the first-seen filter keeps only input entries, never two with the same lower-cased key, and every key of the input |
| `Mock.AggregateParts` | frontend/lib/utils/mock.ts:66-97 | folding the matches yields one annotation per match in order, the seen set of matched keys, the first-seen filtered results, and per-severity counts equal to the number of annotations of that severity |
| `Mock.SeveritiesPartition` | frontend/lib/utils/mock.ts:51-56 | the four per-severity counts of an annotation list add up to its length |
| `Mock.AnalyzeCounts` | frontend/lib/utils/mock.ts:51-95 | each count equals the number of annotations of its severity, and the counts sum to the number of annotations |
| `Mock.OccurrenceFlagsMatch` | frontend/lib/utils/mock.ts:67-79 | the annotation for a match lies in range, spells its term case-insensitively in the original text, and copies its rule's payload and the APA reference |
| `Mock.AnalyzeAnnotations` | frontend/lib/utils/mock.ts:58-79 | the annotations are the scan's matches in scan order, and each satisfies `0 <= start < end = start + len(term) <= len(text)` and flags a real match of its rule |
| `Mock.ScanResults` | frontend/lib/utils/mock.ts:84-92 | every result of a match is the payload of some table rule |
| `Mock.AnalyzeResults` | frontend/lib/utils/mock.ts:81-93 | the results are the annotations' summaries filtered to first occurrence, with no lower-cased term twice; a term has a result iff it was annotated, and each result is a rule's payload |
| `Mock.AnalyzeNothing` | frontend/lib/utils/mock.ts:48-101 | the analysis is empty (no annotations, no results, zero counts) exactly when no term occurs in the text, and no annotations implies nothing at all |
| `Mock.AnalyzeEmptyText` | frontend/lib/utils/mock.ts:48-101 | empty text yields the empty analysis |
| `Mock.ScanRule` | frontend/lib/utils/mock.ts:60-98 | the source's inner `while` loop folds exactly the rule's matches into the state |
| `Mock.MockAnalyze` | frontend/lib/utils/mock.ts:43-102 | the source's nested loops compute the functional analysis |
| `AnnotatedText.SliceIndex` | frontend/components/AnnotatedText.tsx:34 | the normalised slice offset lies in `[0, len]` and equals the offset when that is already in range |
| `AnnotatedText.Slice` | frontend/components/AnnotatedText.tsx:36 | for in-range offsets `text.slice(start, end)` is the substring `[start, end)` |
| `AnnotatedText.SortByStart` | frontend/components/AnnotatedText.tsx:30 | the sorted copy is a permutation of the annotations and is ordered by `start` |
| `AnnotatedText.SortStable` | frontend/components/AnnotatedText.tsx:30 | annotations that share a start keep their input order |
| `AnnotatedText.Segment` | frontend/components/AnnotatedText.tsx:26-41 | empty text renders nothing; non-empty text without annotations renders one plain part holding the whole text |
| `AnnotatedText.SegmentAnnotated` | frontend/components/AnnotatedText.tsx:32-38 | there is one annotated part per input annotation, in stable `start` order, each showing `text.slice(start, end)` |
| `AnnotatedText.SegmentShape` | frontend/components/AnnotatedText.tsx:33-41 | for in-range annotations every plain part is non-empty and no two plain parts are adjacent |
| `AnnotatedText.SegmentCovers` | frontend/components/AnnotatedText.tsx:28-41 | for annotations with `0 <= start < end <= len(text)` that pairwise do not overlap, the parts concatenate to the text |
| `AnnotatedText.SegmentPair` | frontend/components/AnnotatedText.tsx:33-37 | for two annotations where the second starts inside the first (wherever the first starts), the parts spell the text up to the first end and then the text again from the second start: no gap is emitted before the second |
| `AnnotatedText.SegmentClampedCovers` | frontend/components/AnnotatedText.tsx:28-41 | with the cursor never moving backwards, the parts concatenate to the text for any in-range annotations, overlapping or not |
| `AnnotatedText.SegmentClampedAgrees` | frontend/components/AnnotatedText.tsx:28-41 | for proper, non-overlapping annotations the clamped segmenter renders exactly what the loop as written renders |
| `AnnotatedText.SegmentClampedAnnotated` | frontend/components/AnnotatedText.tsx:30-38 | the clamped segmenter still has one annotated part per annotation, in stable `start` order |
| `AnalyzePage.AnalysisInRange` | frontend/lib/utils/mock.ts:65-67 | every annotation the matcher returns satisfies `0 <= start < end <= len(text)` |
| `AnalyzePage.RenderCovers` | frontend/components/AnnotatedText.tsx:28-41 | right after a run, while the shown text is the analysed text: when the shipped table flags no overlapping spans, the page's parts spell the text, and clamping changes nothing |
| `AnalyzePage.BeforeRun` | frontend/lib/utils/mock.ts:43-102 | the analyse page starts from `mockAnalyze('')` (line 19 of its page.tsx); that analysis has no annotations, so the current text is shown as one plain part |
| `AnalyzePage.StaleHighlight` | frontend/components/AnnotatedText.tsx:32-40 | the analyse page (lines 26-29 and 155-157 of its page.tsx) segments the current text with the annotations of the last run: after "homosexual" is analysed and "a " is typed in front, it highlights "a homosexu" |
| `AnalyzePage.RenderClampedCovers` | frontend/components/AnnotatedText.tsx:28-41 | with clamping, the parts rendered right after a run spell the text for every input |
| `AnalyzePage.OverlappingScan` | frontend/lib/utils/mock.ts:59-99 | the shipped table flags "homosexual preference" at [0,10) and at [4,21) |
| `AnalyzePage.OverlapDuplicates` | frontend/components/AnnotatedText.tsx:33-37 | the page as written renders "homosexual preference" as "homosexualsexual preference" |
| `TextExtractor.LinesUnlines` | ml/data_collection/text_extractor.py:69 | joining newline-free lines and splitting again gives the lines back; no lines join to one empty line |
| `TextExtractor.KeptOrder` | ml/data_collection/text_extractor.py:48-69 | the surviving lines are a subsequence of the input with blank lines turned into "", so there are no more of them |
| `TextExtractor.KeptMembers` | ml/data_collection/text_extractor.py:48-67 | a non-blank line survives iff its stripped form is not common (more than 3), not all digits, and not short (under 20) and seen more than twice; every output line is "" or such a line |
| `TextExtractor.KeptCounts` | ml/data_collection/text_extractor.py:47-67 | every copy of a surviving line is kept: a non-blank line occurs in the output as often as in the input, or not at all when it is dropped |
| `TextExtractor.KeptBlanks` | ml/data_collection/text_extractor.py:50-53 | whitespace-only lines are kept as "", never dropped: the output has as many blank lines as the input |
| `TextExtractor.RemoveHeadersFootersLines` | ml/data_collection/text_extractor.py:24-69 | the output's lines are the kept lines (one empty line when none is kept), so the line count never grows |
| `TextExtractor.CountLines` | ml/data_collection/text_extractor.py:38-42 | the counting loop maps each non-empty stripped form to its number of occurrences and holds no entry for "" |
| `TextExtractor.RemoveHeadersFootersLoop` | ml/data_collection/text_extractor.py:24-69 | the two loops compute the functional line filter |
| `TextExtractor.BeforeHeadingSpec` | ml/data_collection/text_extractor.py:85-97 | the kept lines are a prefix of the input with no reference heading in it, and the first line after it, if any, is a heading |
| `TextExtractor.NoHeadingKeepsAll` | ml/data_collection/text_extractor.py:89-97 | without a reference heading every line is kept |
| `TextExtractor.RemoveReferencesLines` | ml/data_collection/text_extractor.py:71-107 | the output's lines are those before the first heading (one empty line when the text starts with one), never more than the input's |
| `TextExtractor.LoweredNotUpper` | ml/data_collection/text_extractor.py:101-103 | a lower-cased line is never all-caps, so the all-caps branch is never taken |
| `TextExtractor.RemoveReferencesLoop` | ml/data_collection/text_extractor.py:81-107 | the loop with its `in_references` flag computes the functional cut at the first heading |
| `TextExtractor.CapSpec` | ml/data_collection/text_extractor.py:120-122 | a run-capping substitution only deletes copies of its character, never lengthens the text, and keeps the first character when it is not cut |
| `TextExtractor.CapRuns` | ml/data_collection/text_extractor.py:120-122 | after capping no run of the character is longer than the cap |
| `TextExtractor.CapSqueeze` | ml/data_collection/text_extractor.py:120-122 | capping from an empty run equals the run-by-run reference `Squeeze`: every maximal run of the character keeps exactly min(length, cap) copies and everything between runs is kept, which is what `re.sub(r' +', ' ')` (cap 1) and `re.sub(r'\n{3,}', '\n\n')` (cap 2) do |
| `TextExtractor.CapLead` | ml/data_collection/text_extractor.py:120-122 | the output's leading run is exactly the surviving part of the input's leading run: min(length, cap) copies from an empty run |
| `TextExtractor.CapIdentity` | ml/data_collection/text_extractor.py:120-122 | capping changes nothing where no run is already too long |
| `TextExtractor.CapKeepsNoPair` | ml/data_collection/text_extractor.py:122 | collapsing newline runs never makes two spaces adjacent |
| `TextExtractor.Substitutions` | ml/data_collection/text_extractor.py:120-122 | after the two substitutions there are no two adjacent spaces, no three newlines in a row, and no more newlines than before |
| `TextExtractor.NormalizeWhitespaceSpec` | ml/data_collection/text_extractor.py:109-125 | the output has no two consecutive spaces, no line of it ends in whitespace, it has no more lines than the input, and its non-whitespace characters are the input's, in order |
| `TextExtractor.NormalizeWhitespaceNotIdempotent` | ml/data_collection/text_extractor.py:122-125 | the final `rstrip` can recreate a run of four newlines, so a second pass changes the output again |
| `TextExtractor.CleanTextSpec` | ml/data_collection/text_extractor.py:165-167 | the cleaned text has no two consecutive spaces, no line ending in whitespace, and no more lines than the raw text |
| `TextExtractor.NormalizeWhitespaceCorrectedSpec` | ml/data_collection/text_extractor.py:119-125 | with the newline collapse after the strip, the output has no two consecutive spaces, never three newlines in a row, no line ending in whitespace, no more lines than the input, and the input's non-whitespace characters in order |
| `TextExtractor.CorrectedIdempotent` | ml/data_collection/text_extractor.py:119-125 | with the newline collapse after the strip, a second pass changes nothing |
| `TextExtractor.CorrectedWitness` | ml/data_collection/text_extractor.py:121-125 | with the newline collapse after the strip, "a\n\n \n\nb" normalises to "a\n\nb" |
| `TextExtractor.CleanTextCorrectedSpec` | ml/data_collection/text_extractor.py:165-167 | the composition with the corrected normalisation has no two consecutive spaces, never three newlines in a row, no line ending in whitespace, and no more lines than the raw text |
| `LanguageSwitcher.ReplaceFirstSpec` | frontend/components/LanguageSwitcher.tsx:16 | `replace` with a string pattern leaves a string without the pattern unchanged and otherwise substitutes the first occurrence only |
| `LanguageSwitcher.SwitchPrefixed` | frontend/components/LanguageSwitcher.tsx:15-16 | a path under `/${locale}/` gets that prefix swapped for `/${newLocale}/`, the rest unchanged |
| `LanguageSwitcher.SwitchBare` | frontend/components/LanguageSwitcher.tsx:17-18 | the bare `/${locale}` becomes `/${newLocale}` |
| `LanguageSwitcher.SwitchOther` | frontend/components/LanguageSwitcher.tsx:19-21 | any other absolute path gets `/${newLocale}` prepended |
| `LanguageSwitcher.SwitchRelative` | frontend/components/LanguageSwitcher.tsx:13-22 | a path not starting with `/` is returned unchanged |
| `LanguageSwitcher.SwitchRoundTrip` | frontend/components/LanguageSwitcher.tsx:15-18 | switching to the new locale and back restores every path of the first two forms |
| `LanguageSwitcher.LookAlikePrefixed` | frontend/components/LanguageSwitcher.tsx:19-21 | `/enx` is not under `en` and becomes `/he/enx` |
| `LanguageSwitcher.OtherNotRestored` | frontend/components/LanguageSwitcher.tsx:15-21 | for any other absolute path the round trip ends under the old locale instead of at the path |
| `Clusterer.DetermineNComponents` | ml/clustering/clusterer.py:52-59 | at least 3 components for every sample count |
| `Clusterer.Bands` | ml/clustering/clusterer.py:52-59 | the count lies in [3,4] below 100, in [5,19] below 1000, in [10,49] below 10000, and is exactly `n // 500` (at least 20) from there on |
| `Clusterer.MonotoneWithinBand` | ml/clustering/clusterer.py:52-59 | more samples in the same band never give fewer components |
| `Clusterer.NotMonotone` | ml/clustering/clusterer.py:54-57 | across a band edge the count drops: 999 samples give 19, 1000 give 10 |
| `Palette.PaletteColor` | frontend/lib/utils/palette.ts:1-5 | every integer index yields one of the five `PASTEL_BG` entries |
| `Palette.InTableOrder` | frontend/lib/utils/palette.ts:4-5 | indices 0 to 4 pick the entries in table order |
| `Palette.Symmetric` | frontend/lib/utils/palette.ts:4 | an index and its negation give the same colour |
| `Palette.Periodic` | frontend/lib/utils/palette.ts:4 | five steps on give the same colour, for every step that does not cross zero |
| `Palette.PeriodBreaksAtZero` | frontend/lib/utils/palette.ts:4 | across zero the period breaks: -1 and 4 give different colours |

## Left out

- String offsets: JavaScript's `length`, `indexOf` and `slice` count UTF-16 code units, while a Dafny `string` is indexed by Unicode scalar values. The model treats every character as one unit, so it agrees with the source on text without characters outside the Basic Multilingual Plane (such as emoji); after each such character the source's offsets are one larger than the model's.
- `AnalyzePage.RenderCovers` and `AnalyzePage.RenderClampedCovers` hold right after a run. Once the text is edited, the page shows the old annotations over the new text (`AnalyzePage.StaleHighlight`). For that state the model promises only what `Segment` promises for any annotation list.
- `router.push` in `switchLocale` is a navigation side effect; only the computed path is modelled.
- React state, event handlers and JSX rendering of `AnnotatedText` and the analyse page are presentation only; only the parts list is modelled.
- `extract_text` opens PDFs with pdfplumber and logs; only the three cleaners and their order are modelled (`TextExtractor.CleanText`). The `logger.debug` call in `_remove_references` is left out as well.
- Unicode: `toLowerCase`/`lower` is modelled as a length-preserving map over ASCII letters. JavaScript's real mapping can change the length (for `İ`), which would misalign the offsets; that case is not modelled. Python's `strip`, `isspace`, `\s`, `\d` and `isupper` are modelled over ASCII.
- `LanguageSwitcher.ReplaceFirstSpec`: JavaScript's `replace` gives `$&`, `$1` and similar special meaning in the replacement string; locale codes hold no `$`, so the replacement is modelled as literal.
- `Palette.PaletteColor`: indices are modelled as integers; a non-integer or `NaN` index (which would yield `undefined`) is not modelled.
- `Palette.Periodic` is stated for steps that do not cross zero, because `Math.abs` folds negative indices onto positive ones; `Palette.PeriodBreaksAtZero` shows the failure across zero.
- `Mock.RuleOccurrences`, `Mock.Scan`, `Mock.Analyze` and `Mock.MockAnalyze` require every term to be non-empty (`Mock.ValidRules`): with an empty term `indexOf` returns its start offset, the cursor never advances, and the source loops forever. The shipped table satisfies the requirement (`Mock.TermMapValid`).
- The sort comparator `a.start - b.start` is modelled as a stable ordering on integer starts; `NaN` or non-integer starts are not modelled.
- The all-caps branch in `_remove_references` has an empty body; it is modelled as no effect, and `TextExtractor.LoweredNotUpper` shows it can never be entered.
- The rest of `ml/clustering/clusterer.py` (`fit_predict` and the numeric clustering) is floating-point numerics over numpy and scikit-learn. It is not part of this model.
- Everything else in the repository (scraper, pipeline, sentence splitter, encoder, charts, other components) is not part of this model.

## Findings

| source | as written | input that shows it | evidently intended | confidence | as-written member | corrected member |
|---|---|---|---|---|---|---|
| frontend/components/AnnotatedText.tsx:33-37 | an annotation that starts before the cursor gets no gap part but is shown in full, and the cursor is set to its end, even backwards; overlapping annotations, which the shipped term table produces, make characters appear twice | "homosexual preference" (the table flags [0,10) and [4,21)) renders as "homosexualsexual preference" | the rendered parts spell the analysed text exactly | not executed | `AnalyzePage.OverlapDuplicates` | `AnnotatedText.SegmentClampedCovers` |
| ml/data_collection/text_extractor.py:122-125 | newline runs are collapsed before the lines are right-stripped, so a whitespace-only line between blank lines is emptied afterwards and four newlines in a row remain | "a\n\n \n\nb" normalises to "a\n\n\n\nb", and a second pass gives "a\n\nb" | at most one blank line at each paragraph break, so normalising twice changes nothing | not executed | `TextExtractor.NormalizeWhitespaceNotIdempotent` | `TextExtractor.NormalizeWhitespaceCorrectedSpec` |
