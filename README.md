# Grammar corrector for Word documents: correction and realignment engine

A model, in Dafny, of the text-correction engine of a Streamlit application
that sends the prose of a `.docx` document to the LanguageTool service and
writes the corrections back into the document. It covers:

- **Edit application** (`apply_corrections`): the matches LanguageTool
  returns become `(start, end, replacement)` triples — only matches with a
  replacement, and only their first one — which are sorted as Python tuples
  and spliced into the text left to right while a running offset records the
  length change of the earlier splices.
- **The service call** (`correct_text_with_languagetool`): the request it
  builds (language code with its `"en-US"` default, the fixed rule and
  category settings) and the fallback to the original text when the service
  answers with a status other than 200 or the request raises.
- **Run remapping** (`apply_corrected_text_to_runs`): the corrected paragraph
  text is cut back into the paragraph's runs, each run taking
  `corrected[cursor:cursor + L]` for its original length `L`.
- **Paragraph processing** (`process_paragraph`,
  `paragraph_contains_footnote_reference`): a paragraph with a
  `w:footnoteReference` child in any run is skipped; otherwise its run texts
  are joined, corrected and remapped.

Modules: `PySlice` (Python's slice semantics, negative indices and clamping
included), `Corrections` (matches, triples, Python's tuple and string order,
`sorted`), `Splicing` (`apply_corrections`), `Checker` (the service call),
`Runs` (runs, paragraphs, remapping), `Paragraphs` (skip test and
orchestration). A run is a class whose `text` is rewritten in place and
which records the tags of its child elements as they stand before any
rewrite; a paragraph holds its runs.

Python slicing is modelled exactly, so `ApplyCorrections` and the remapper
accept every input the source accepts. The splicing properties (offset
accounting, result in original coordinates, preserved text between edits)
are proved for sorted corrections that lie inside the text and do not
overlap (`Splicing.Disjoint`); for overlapping corrections the model computes
what the code computes and claims nothing more.

The remapper can drop characters: when the corrected text is longer than
the paragraph was, what lies beyond the runs' total original length goes
nowhere, although a corrector must not lose any character of the corrected
paragraph (see Findings). The model follows the code. Also, the corrected runs
spell out the corrected text exactly when it is no longer than the original
paragraph (`RemapKeepsAllText`), not only when the lengths are equal: a
shorter text leaves trailing runs short or empty but loses nothing.

## Model

| member | source | states |
|---|---|---|
| `PySlice.Clamp` | app.py:106 | the index Python uses for a slice bound: a negative one counts from the end, then it is clamped into `0..len(s)`; an in-range index is kept |
| `PySlice.Slice` | app.py:132 | `s[i:j]` is the plain subsequence when the bounds are in range, and never longer than `j - i` |
| `PySlice.Prefix` | app.py:106 | `s[:j]`: the first `j` elements when `j` is in range, with the stop clamped as Python does otherwise |
| `PySlice.Suffix` | app.py:106 | `s[i:]`: everything from `i` on when `i` is in range, with the start clamped as Python does otherwise |
| `PySlice.SliceBeyondEnd` | app.py:132 | a slice starting at or past the end is empty; one running past the end stops at the end |
| `PySlice.PrefixSuffixAreSlices` | app.py:106 | `s[:j]` is `s[0:j]` and `s[i:]` is `s[i:len(s)]`, so the two slices of a splice follow the general slice rules |
| `Corrections.Usable` | app.py:97 | a match is used exactly when its replacements list is non-empty |
| `Corrections.ToCorrection` | app.py:98-101 | the triple of a match: `(offset, offset + length, replacements[0].value)` |
| `Corrections.UsableCorrections` | app.py:95-101 | the list the first loop builds: the triples of the matches with a replacement, in match order, never more than there are matches |
| `Corrections.UnusableMatchIgnored` | app.py:96-101 | a match with an empty `replacements` list contributes no triple, wherever it stands |
| `Corrections.OnlyFirstReplacementUsed` | app.py:97-101 | two matches over the same range with the same first suggestion contribute the same triple |
| `Corrections.UsableCorrectionsPermutation` | app.py:96-101 | reordering the matches only reorders the collected triples |
| `Corrections.StrLe` | app.py:105 | Python's `<=` on strings: code point by code point, a proper prefix first |
| `Corrections.LessEq` | app.py:105 | Python's `<=` on `(start, end, replacement)` tuples: by start, then end, then replacement |
| `Corrections.LessEqTotal` | app.py:105 | Python's order on `(start, end, replacement)` tuples is total |
| `Corrections.LessEqAntisymmetric` | app.py:105 | two tuples ordered both ways are equal |
| `Corrections.LessEqTransitive` | app.py:105 | the tuple order is transitive |
| `Corrections.Sorted` | app.py:105 | every triple is `<=` every later one in Python's tuple order |
| `Corrections.Insert` | app.py:105 | putting a triple into a sorted list keeps it sorted and adds exactly that triple |
| `Corrections.Sort` | app.py:105 | `sorted(corrections)` is in ascending tuple order and a permutation of its input |
| `Corrections.SortedUnique` | app.py:105 | two sorted lists with the same elements are identical |
| `Corrections.SortPermutationInvariant` | app.py:105 | `sorted` depends only on which triples there are, not their input order |
| `Splicing.Delta` | app.py:107 | the length change of one splice: `len(replacement) - (end - start)` |
| `Splicing.TotalDelta` | app.py:104-107 | the running `offset` after splicing a list of triples: the sum of their length changes |
| `Splicing.Splice` | app.py:106 | one pass: `text[:start + offset] + replacement + text[end + offset:]`, with Python's slicing |
| `Splicing.ApplyFrom` | app.py:105-107 | the remaining passes of the second loop from the current text and offset, each pass adding its length change to the offset |
| `Splicing.Triples` | app.py:95-105 | `sorted(corrections)`: the usable triples in Python's tuple order |
| `Splicing.Corrected` | app.py:94-108 | what `apply_corrections` returns: the sorted triples spliced from offset 0 |
| `Splicing.CollectCorrections` | app.py:95-101 | the first loop collects exactly the triples of the usable matches, in match order |
| `Splicing.SpliceAll` | app.py:103-107 | the second loop returns the triples spliced in their given order, each at `start + offset` and `end + offset`, with `offset` kept equal to the summed length change of the triples already spliced |
| `Splicing.ApplyCorrections` | app.py:94-108 | returns the sorted usable triples spliced in turn at `start + offset`, `end + offset` (the loop keeps `offset` equal to the summed length change of the triples already spliced) |
| `Splicing.TotalDeltaSnoc` | app.py:107 | each pass adds `len(replacement) - (end - start)` to the running offset |
| `Splicing.UsableCorrectionsSource` | app.py:96-101 | every collected triple is `(offset, offset + length, replacements[0].value)` of some match with a replacement |
| `Splicing.NoUsableMatchIsIdentity` | app.py:96-108 | with no match carrying a replacement, the text comes back unchanged |
| `Splicing.MatchWithoutReplacementIgnored` | app.py:97 | inserting a match without replacements anywhere leaves the result unchanged |
| `Splicing.FirstReplacementOnly` | app.py:98 | suggestions after the first one never affect the result |
| `Splicing.MatchOrderIrrelevant` | app.py:105 | the result does not depend on the order of the matches |
| `Splicing.Disjoint` | app.py:103-107 | the triples, in order, lie inside the text and do not overlap |
| `Splicing.Rebuild` | app.py:103-108 | reference result: each replacement in place of its original range, the text between the ranges kept |
| `Splicing.ApplyFromRebuild` | app.py:104-107 | with the running offset, every splice lands on its original range: the remaining passes complete the original-coordinate splice |
| `Splicing.SpliceShifted` | app.py:106 | one splice at `start + offset`, `end + offset`, where `offset` is how much the output so far outgrew the original, replaces exactly the original range `start..end` |
| `Splicing.SplicedInOriginalCoordinates` | app.py:103-108 | for in-range, non-overlapping triples the result is every replacement put in place of its original range, with the text between kept |
| `Splicing.RebuildLength` | app.py:106-107 | the original-coordinate splice is as long as the text plus the summed length changes |
| `Splicing.CorrectedLength` | app.py:104-108 | for in-range, non-overlapping triples the result has the original length plus the final offset |
| `Splicing.RebuildKeepsGap` | app.py:106 | each character between two edits reappears in the original-coordinate splice shifted by the length change of the edits before it |
| `Splicing.ApplyFromKeepsGap` | app.py:103-107 | for in-range, non-overlapping triples in order, each character between two edits appears in the loop's result at its position plus the offset accumulated before it |
| `Splicing.UneditedTextPreserved` | app.py:106-107 | every character outside an edited range survives, in order, at its position plus the offset accumulated before it |
| `Splicing.SingleEdit` | app.py:94-108 | `"The quick fox"` with the edit (4, 9, `"slow"`) gives `"The slow fox"` |
| `Splicing.TwoEditsSorted` | app.py:95-105 | a match at offset 6, length 2, suggesting `"Q"`, listed before one at offset 0, length 2, suggesting `"XYZ"`, gives the triples (0, 2, `"XYZ"`), (6, 8, `"Q"`) in that order |
| `Splicing.TwoEditsRebuilt` | app.py:103-107 | those two triples lie in `"ab cd ef"` without overlapping, and putting each replacement in place of its range gives `"XYZ cd Q"` |
| `Splicing.TwoEditsShiftOffset` | app.py:94-108 | `"ab cd ef"` with edits listed as (6, 8, `"Q"`) then (0, 2, `"XYZ"`) gives `"XYZ cd Q"` |
| `Checker.LanguageCode` | app.py:67-73 | the code sent is one of five; a language is sent unchanged exactly when it is `es`, `fr`, `de`, `pt` or `en-US`, everything else becomes `en-US` |
| `Checker.BuildRequest` | app.py:71-78 | the form posted: the text as given, the mapped language code, level `picky`, the enabled categories and rules and the disabled category as listed |
| `Checker.MatchesOf` | app.py:83 | `response.json().get('matches', [])`: the body's matches, none when absent |
| `Checker.Succeeded` | app.py:82 | the call answered with status 200 |
| `Checker.CorrectedOrOriginal` | app.py:82-91 | the text corrected with the matches on status 200, the text itself on another status or a request exception |
| `Checker.CorrectTextWithLanguageTool` | app.py:65-91 | with status 200 the text is corrected with the response's matches (none when the body has no `matches`); on any other status or a request exception the original text is returned |
| `Checker.UncorrectedTextReturned` | app.py:82-91 | a failed call, or a successful one without a usable match, returns the text as sent |
| `Runs.Paragraph.Texts` | app.py:115 | the texts of the paragraph's runs, in order |
| `Runs.Concat` | app.py:115 | `"".join(texts)` |
| `Runs.Lengths` | app.py:131 | each run's original `len(run.text)` |
| `Runs.Sum` | app.py:133 | the cursor after some runs: the sum of their original lengths |
| `Runs.Piece` | app.py:131-133 | run `i`'s new text: `corrected[cursor:cursor + L]` with the cursor at the sum of the earlier runs' lengths |
| `Runs.Remap` | app.py:128-133 | the new texts of all runs, one piece per run, as many as there are runs |
| `Runs.ApplyCorrectedTextToRuns` | app.py:128-133 | every run is rewritten in place to `corrected[cursor:cursor + L]` for its original length `L`, the cursor advancing by `L`; the run list is untouched |
| `Runs.RunLengthBound` | app.py:131-132 | no run grows; a run keeps its length exactly when the corrected text reaches the end of its window |
| `Runs.RemapConcat` | app.py:128-133 | the new run texts concatenate to the corrected text cut to the runs' total original length |
| `Runs.RemapKeepsAllText` | app.py:128-133 | the run count is kept, and the runs spell out the whole corrected text exactly when it is no longer than the original paragraph |
| `Runs.RemapOwnText` | app.py:115-117 | writing a paragraph's own joined text back into its runs changes no run |
| `Runs.RemapTwoRunsExample` | app.py:128-133 | runs of lengths 3 and 3 with corrected text `"Hi"` become `"Hi"` and `""` |
| `Runs.SurplusDropped` | app.py:128-133 | a paragraph `"Hello world"` in one run, corrected to `"Hello, world"`, ends as `"Hello, worl"` |
| `Runs.RemapAbsorbing` | app.py:128-133 | the remapping that loses no character: every run but the last as in the code, the last taking the rest of the corrected text |
| `Runs.RemapAbsorbingKeepsAllText` | app.py:128-133 | with the last run taking the remainder, the runs of a paragraph with at least one run spell out the corrected text exactly |
| `Runs.RemapAbsorbingRunBound` | app.py:128-133 | with the last run taking the remainder, every run but the last still gets at most its original length |
| `Paragraphs.HasFootnoteReference` | app.py:120-125 | some child element of some run has the tag `{http://schemas.openxmlformats.org/wordprocessingml/2006/main}footnoteReference`, which `qn('w:footnoteReference')` yields |
| `Paragraphs.ParagraphContainsFootnoteReference` | app.py:120-125 | true exactly when some child element of some run has the tag `qn('w:footnoteReference')` |
| `Paragraphs.ProcessParagraph` | app.py:111-117 | a paragraph with a footnote reference is left untouched: every run keeps its text and its children, the footnote reference included; any other gets the remapped correction of its joined text, and keeps every run text when the service call fails |

## Findings

| source | as written | input that shows it | evidently intended | confidence | as-written member | corrected member |
|---|---|---|---|---|---|---|
| app.py:128-133 | each run takes exactly as many characters as it had, so the characters beyond the runs' total original length are dropped | one run `"Hello world"`, corrected text `"Hello, world"`: the run becomes `"Hello, worl"` | the last run takes the rest of the corrected text, so no corrected character is lost | high, not executed | `Runs.SurplusDropped` | `Runs.RemapAbsorbingKeepsAllText` |

`ProcessParagraph` keeps the behaviour as written, since it models the code;
`Runs.RemapAbsorbing`, where the last run takes the remainder, is the
remapping that keeps every character, and the finding is stated against it.

## Left out

- The Streamlit interface, query parameters, the per-document loop over paragraphs with its progress bar, and the file upload, parsing, saving and download (app.py:150-263): presentation and I/O.
- The Stripe price lookup and checkout session (app.py:32-62): calls into a payment service.
- JWT generation and verification (app.py:23-30, 135-147): a cryptographic library call with wall-clock expiry.
- The HTTP POST and its JSON decoding (app.py:80-83): the service is a parameter `Request -> Outcome`; a decoded body is a status code and an optional `matches` list, and an error message shown to the user is not modelled.
- The XML tree of a run: a run is its text plus the tags of its child elements as read before any rewrite. python-docx's `run.text` setter (app.py:132) discards every child of `w:r` except `w:rPr` (drawings, endnote and comment references, field characters, breaks) before adding the new text, for every run of every paragraph that is not skipped, even when the text is unchanged; the model writes only the string, promises nothing about a run's children after a rewrite, and so does not capture that an inline image or an endnote reference in a processed paragraph is lost.
- Overlapping corrections: the model computes what the code computes (Python slicing included), but no property is claimed for them, because the code defines none.
- Character counting: a string is a sequence of Unicode code points, as in Python; the service's own offset convention is not modelled.
- Secrets and configuration loading (app.py:15, 21).
