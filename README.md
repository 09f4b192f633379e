# Copy-edit pass over Word paragraphs, modelled in Dafny

This project models the core of a copy-editing tool for Word documents
(`SpellCheckProcessor` and `SmartQuoteProcessor.smartQuotesExceptCant`).
It proves properties of the model.

For each paragraph the tool does the following:

1. It skips the paragraph when its style id, or the character style of one of its runs, is found
   by upper-casing it and looking it up in the list of styles to skip (`isParagraphStyleToSkip`).
   Sixteen of the listed styles are written with lower-case letters, so that lookup never finds
   them (see Findings).
2. It inserts an orange, bold "(SUP)" or "(SUB)" marker run after every superscript, subscript or
   Unicode super/subscript run (`addMarkersToSuperSubscripts`).
3. It joins the run texts and masks every superscript or subscript piece with a token
   `«SUPSUB_<n>»` (`maskFromRunInfos`).
4. It sends the masked text to a grammar service.
5. It puts the original pieces back (`restorePlaceholders`).
6. When the text changed, it rebuilds the paragraph as a word-level diff
   (`rebuildParagraphWithChanges`, `compareTexts`, `computeWordDiff`,
   `processSuperSubscriptsInSegments`). Kept words keep their original formatting. Deleted words are
   struck through in colour 2F4F4F. Added words are coloured 2CFF05.

The smart-quote function turns straight quotes into curly ones. It protects "can't" by putting a
placeholder in its place first.

Modules:

| module | content |
|---|---|
| `Wrappers` | `Option` |
| `CharClass` | the character classes of the code: U+2070..U+208F, `\s`, `\p{Punct}` |
| `Strings` | concatenation of string lists |
| `JavaInt` | `Integer.parseInt` on ASCII digits, within the 32-bit range; decimal printing of an index |
| `Masking` | the masker: spec functions over items, plus the Java loops as methods on a shared placeholder list |
| `Restoring` | the restorer: spec function plus loop method, and the mask/restore round trip |
| `Tokenizer` | the split regex as a function, proved to be the unique well-formed split |
| `WordDiff` | the LCS table and the backtrack: method over an `array2`, spec function, optimality |
| `Segments` | `compareTexts` and `processSuperSubscriptsInSegments` |
| `Docx` | runs, run properties, and the `Paragraph` class with its run-list operations |
| `Markers` | the marker pass, as a method on `Paragraph` proved against `WithMarkers` |
| `StyleSkip` | the style test |
| `Pipeline` | run extraction, `applyTo`, the paragraph rebuild, and the per-paragraph decision |
| `SmartQuotes` | `smartQuotesExceptCant` |

Behaviour of the code worth knowing:

- The mask/restore round trip does not hold for every run list. Text that already holds `«` can
  swallow a token (`Restoring.MaskRoundTripNeedsNoOpener`).
- Words are whole tokens of the split. So "cat" to "cats" is a removal of "cat" plus an addition of
  "cats".
- A swap `[a, b]` to `[b, a]` gives: removed a, unchanged b, added a (`WordDiff.DiffOfSwap`).
- The empty text splits to `[""]`.
- A run flagged superscript or subscript whose text is empty still gets a placeholder.
- Super/subscript groups are never coloured as changed, not even when they were deleted: a deleted
  "⁴" is shown as an unchanged superscript (`Pipeline.DeletedSuperscriptShownUnchanged`).
- The markers stay in the paragraph even when the service changes nothing
  (`Pipeline.EchoKeepsParagraph`).
- A run that needs a marker only because of a Unicode superscript or subscript character gets
  "(SUP)" or "(SUB)" by its first character, even when that character is neither: "x⁴" gets
  "(SUB)" (`Markers.MarkerUsesFirstCharacter`).
- The `placeholders` argument of `compareTexts` and of `processSuperSubscriptsInSegments` is never
  read.
- The default-formatting branch of `rebuildParagraphWithChanges` cannot be taken, because
  `compareTexts` never produces a segment without formatting.
- The smart-quote function writes every protected "can't" back in lower case, so "Can't" becomes
  "can't" (`SmartQuotes.CapitalCantLowered`).
- Text that itself contains the placeholder string comes back as "can't"
  (`SmartQuotes.PlaceholderInTextBecomesCant`).

## Model

| member | source | states |
|---|---|---|
| `JavaInt.DecimalSpec` | SpellCheckProcessor.java:343 | the printed index is all digits, has no leading zero, and reads back as the index |
| `JavaInt.ParseDigitsSpec` | SpellCheckProcessor.java:397 | digit parsing succeeds exactly on non-empty all-digit strings, with their decimal value |
| `JavaInt.ParseInt` | SpellCheckProcessor.java:397 | a parsed value lies in the 32-bit int range |
| `JavaInt.ParseIntOfDecimal` | SpellCheckProcessor.java:397 | parsing a printed index up to 2^31-1 gives the index back |
| `JavaInt.ParseIntAcceptsZerosAndPlus` | SpellCheckProcessor.java:397 | leading zeros and a plus sign are accepted, so "00" names placeholder 0 |
| `JavaInt.ParseIntNegative` | SpellCheckProcessor.java:397 | a minus sign gives the negative value |
| `JavaInt.ParseIntOverflow` | SpellCheckProcessor.java:397 | 2^31 does not parse (NumberFormatException) |
| `Masking.GroupLengthSpec` | SpellCheckProcessor.java:356-368 | a group is the maximal run of U+2070..U+208F characters at the front |
| `Masking.PlaceholderList.Add` | SpellCheckProcessor.java:362 | adding a placeholder appends it to the shared list |
| `Masking.MaskUnicodeSuperSubscripts` | SpellCheckProcessor.java:352-377 | the masked text and the new placeholders are those of the spec function MaskText, and the list only grows at its end |
| `Masking.ScanAgrees` | SpellCheckProcessor.java:356-374 | the character loop with its current group, flushed at the end, computes MaskText |
| `Masking.MaskTextShape` | SpellCheckProcessor.java:352-377 | tokens are numbered consecutively from the list size; every placeholder is a maximal group classified by its first character; no two tokens are adjacent; copied characters are plain and in order; expanding the tokens gives the text back |
| `Masking.MaskRunShape` | SpellCheckProcessor.java:340-346 | a flagged run becomes one placeholder holding its whole text and flags; any other run is masked group by group; either way expansion gives the run text |
| `Masking.MaskRunsShape` | SpellCheckProcessor.java:336-350 | over all runs the tokens are numbered 0, 1, ...; expansion gives the joined run texts |
| `Masking.MaskRunsAppend` | SpellCheckProcessor.java:340-347 | masking runs a + b is masking a, then b with numbering continued |
| `Masking.MaskedCharsArePlain` | SpellCheckProcessor.java:345 | when no run is flagged, every character left in the masked text is plain |
| `Masking.MaskFromRunInfos` | SpellCheckProcessor.java:336-350 | the loop returns the masked text and the placeholder list of the spec function Mask |
| `Restoring.IndexOfFrom` | SpellCheckProcessor.java:393 | indexOf: the first position at or after `from` holding the character, or none |
| `Restoring.TokenEnd` | SpellCheckProcessor.java:392-394 | the closing » found for a token lies after the opener |
| `Restoring.RestoreStep` | SpellCheckProcessor.java:391-414 | every step of the restore loop advances |
| `Restoring.RestorePlaceholders` | SpellCheckProcessor.java:387-418 | the loop computes the spec function Restore |
| `Restoring.RestoreRender` | SpellCheckProcessor.java:387-418 | restoring a rendered item list puts back the text of every in-range token |
| `Restoring.MaskRoundTrip` | SpellCheckProcessor.java:336-418 | when the paragraph holds no «, restoring the masked text with its own placeholders gives the paragraph text back |
| `Restoring.MaskRoundTripNeedsNoOpener` | SpellCheckProcessor.java:392-404 | a paragraph already holding a token-like «SUPSUB_0» does not come back unchanged |
| `Restoring.RestoreWithoutPlaceholders` | SpellCheckProcessor.java:398-404 | with an empty placeholder list the text is unchanged |
| `Restoring.RestoreWithoutCloser` | SpellCheckProcessor.java:393-410 | a text with no » is unchanged |
| `Restoring.RestoreZeroPadded` | SpellCheckProcessor.java:397-399 | «SUPSUB_00» is restored as placeholder 0 |
| `Restoring.RestoreNegativeIndex` | SpellCheckProcessor.java:398-401 | «SUPSUB_-1» is kept as written |
| `Restoring.RestoreOpenerSwallowsToken` | SpellCheckProcessor.java:392-406 | an unmatched opener before a token swallows it up to the next », so the token is not restored |
| `Tokenizer.FirstToken` | SpellCheckProcessor.java:461 | the first token is a non-empty prefix: one delimiter, or a word ending before a delimiter |
| `Tokenizer.TokensWellSplit` | SpellCheckProcessor.java:461-462 | the tokens spell the text; each is a single whitespace or punctuation character or a maximal word |
| `Tokenizer.TokensUnique` | SpellCheckProcessor.java:461-462 | that split is the only one with these properties |
| `Tokenizer.Split` | SpellCheckProcessor.java:461-462 | the split is never empty, not even for the empty text |
| `Tokenizer.SplitSpells` | SpellCheckProcessor.java:461-462 | split tokens concatenate to the text; the empty text gives [""] |
| `Tokenizer.SplitPieces` | SpellCheckProcessor.java:461-462 | the split of a non-empty text has no empty token |
| `Tokenizer.SplitOfWord` | SpellCheckProcessor.java:461 | a text without delimiters is one token |
| `Tokenizer.SplitSentence` | SpellCheckProcessor.java:461 | "The cat sat." splits into words, spaces and the full stop |
| `WordDiff.Lcs` | SpellCheckProcessor.java:499-507 | a common subsequence of two prefixes is no longer than either prefix |
| `WordDiff.Backtrack` | SpellCheckProcessor.java:509-523 | the walk back emits one entry per token of both prefixes, less one for each kept pair |
| `WordDiff.LcsSteps` | SpellCheckProcessor.java:499-507 | a table entry grows by at most one per added row or column |
| `WordDiff.BackStep` | SpellCheckProcessor.java:512-523 | each backtrack step takes an equal word diagonally, or an added or removed word, and keeps the LCS bookkeeping |
| `WordDiff.WalkBackStep` | SpellCheckProcessor.java:513-522 | one iteration of the walk over the dp table equals BackStep |
| `WordDiff.ComputeWordDiff` | SpellCheckProcessor.java:495-526 | the method, with its dp array, returns the spec function Diff |
| `WordDiff.BacktrackKept` | SpellCheckProcessor.java:509-523 | the backtrack keeps exactly LCS-many words |
| `WordDiff.DiffIsScript` | SpellCheckProcessor.java:495-526 | the removed plus unchanged words give the original; the added plus unchanged words give the correction |
| `WordDiff.DiffIsOptimalScript` | SpellCheckProcessor.java:495-526 | no edit script keeps more words unchanged |
| `WordDiff.DiffOfSwap` | SpellCheckProcessor.java:512-523 | [x, y] to [y, x] gives: removed x, unchanged y, added x |
| `WordDiff.DiffOfReplacement` | SpellCheckProcessor.java:516-521 | a replaced word gives removed, then added |
| `Segments.FormatAtDefined` | SpellCheckProcessor.java:453-459 | the map has an entry exactly for each character position of the joined text |
| `Segments.BuildFormattingMap` | SpellCheckProcessor.java:453-459 | the loop builds the map with the formatting of the run holding each position |
| `Segments.Label` | SpellCheckProcessor.java:467-490 | one segment per diff entry |
| `Segments.LabelDiffs` | SpellCheckProcessor.java:467-490 | the main loop of compareTexts, carrying the cursor into the original text, yields the segments of Label |
| `Segments.LabelEntry` | SpellCheckProcessor.java:470-490 | one iteration gives the segment for the diff entry and advances the position by the length of consumed words |
| `Segments.LabelAt` | SpellCheckProcessor.java:467-490 | the k-th segment is labelled from the original position reached after the first k entries |
| `Segments.KeptTokenFormatting` | SpellCheckProcessor.java:476-479 | an unchanged or removed word sits at its original position and takes the formatting of its first character |
| `Segments.AddedTokenFormatting` | SpellCheckProcessor.java:480-483 | an added word takes the formatting of the character before the current position (of position 0 at the start) |
| `Segments.DiffReadsOriginal` | SpellCheckProcessor.java:461-479 | the consumed words spell the original text, and none is empty |
| `Segments.LabelReadings` | SpellCheckProcessor.java:470-490 | the labelled segments read as the correction when deletions are skipped, and as the original when additions are skipped |
| `Segments.LabelledTexts` | SpellCheckProcessor.java:461-490 | the same for the diff of the two split texts |
| `Segments.CompareTexts` | SpellCheckProcessor.java:449-493 | the method returns the spec pipeline Process(Label(Diff(Split, Split))) |
| `Segments.GroupEnd` | SpellCheckProcessor.java:554-557 | the inner loop stops at the first non-super/subscript character |
| `Segments.CollectGroup` | SpellCheckProcessor.java:552-557 | the inner loop collects exactly that group |
| `Segments.CutSegment` | SpellCheckProcessor.java:533-583 | cutting one segment equals the spec function Pieces |
| `Segments.PiecesCut` | SpellCheckProcessor.java:533-583 | the pieces spell the segment; plain pieces keep its flags; groups are unchanged and classified by their first character; plain and group pieces alternate |
| `Segments.ProcessSuperSubscriptsInSegments` | SpellCheckProcessor.java:528-587 | the method equals the spec function Process |
| `Segments.ProcessKeepsText` | SpellCheckProcessor.java:528-587 | processing keeps the concatenated text |
| `Docx.Paragraph.constructor` | SpellCheckProcessor.java:200 | a paragraph holds its style id and runs |
| `Docx.Paragraph.InsertNewRun` | SpellCheckProcessor.java:289 | insertNewRun puts the run at the position and shifts the rest |
| `Docx.Paragraph.RemoveRun` | SpellCheckProcessor.java:426 | removeRun deletes the run at the position |
| `Docx.Paragraph.CreateRun` | SpellCheckProcessor.java:432 | createRun appends a run |
| `Markers.HasUnicodeSuperSub` | SpellCheckProcessor.java:254-260 | the scan finds a super/subscript character exactly when the text has one |
| `Markers.CollectMarkers` | SpellCheckProcessor.java:244-275 | the first pass lists the positions after the flagged runs and their marker texts |
| `Markers.InsertPositionsFlagged` | SpellCheckProcessor.java:262-273 | every listed position follows a run that needs a marker, and its text is "(SUP)" or "(SUB)" for that run |
| `Markers.InsertPositionsIncrease` | SpellCheckProcessor.java:245-263 | positions are strictly increasing |
| `Markers.InsertPositionsComplete` | SpellCheckProcessor.java:262-263 | every run with non-empty text that is flagged or holds a super/subscript character gets a position |
| `Markers.AdjustedPosition` | SpellCheckProcessor.java:279-287 | for increasing positions the adjustment loop never moves a position |
| `Markers.SecondPassStep` | SpellCheckProcessor.java:278-294 | each reverse step inserts the marker right after its run in the partly marked list |
| `Markers.SecondPassDone` | SpellCheckProcessor.java:277-294 | after all steps every flagged run is followed by its marker |
| `Markers.InsertMarkers` | SpellCheckProcessor.java:278-294 | the second pass leaves the runs marked from the first position on |
| `Markers.AddMarkersToSuperSubscripts` | SpellCheckProcessor.java:239-295 | the paragraph's runs become WithMarkers of the old runs |
| `Markers.MarkerRunNeedsNone` | SpellCheckProcessor.java:289-293 | a marker run is not itself flagged |
| `Markers.UnmarkWithMarkers` | SpellCheckProcessor.java:239-295 | dropping the run after each flagged run gives the original runs: markers only add |
| `Markers.WithMarkersLength` | SpellCheckProcessor.java:262-294 | one marker per listed position |
| `Markers.WithMarkersSnoc` | SpellCheckProcessor.java:245-275 | marking is run by run |
| `Markers.MarkerText` | SpellCheckProcessor.java:265-273 | the marker is "(SUP)" or "(SUB)"; a run's superscript or subscript flag decides before its first character |
| `Markers.MarkerUsesFirstCharacter` | SpellCheckProcessor.java:270-272 | a run "x⁴" gets "(SUB)", because its first character is not a superscript |
| `StyleSkip.ToUpperIdempotent` | SpellCheckProcessor.java:591 | upper-casing twice is upper-casing once |
| `StyleSkip.MemberIsIn` | SpellCheckProcessor.java:591 | the lookup is set membership |
| `StyleSkip.MemberIgnoringCaseIsIn` | SpellCheckProcessor.java:591 | the case-insensitive lookup finds a list entry equal up to case |
| `StyleSkip.ListedIgnoresCase` | SpellCheckProcessor.java:24-27 | the case-insensitive lookup finds a style exactly when it equals one of the 52 entries up to case |
| `StyleSkip.EveryEntryListed` | SpellCheckProcessor.java:24-27 | the case-insensitive lookup finds every entry and its upper-case spelling |
| `StyleSkip.ListedExtendsAsWritten` | SpellCheckProcessor.java:591 | the case-insensitive lookup finds every style that the upper-casing lookup finds |
| `StyleSkip.AsWrittenMissesLowercaseEntries` | SpellCheckProcessor.java:591 | an upper-cased name never equals an entry with a lower-case letter |
| `StyleSkip.FrontMatterStyleMissed` | SpellCheckProcessor.java:24-27 | "Front matter" is not found by the upper-casing lookup, and is found by the case-insensitive one |
| `StyleSkip.AnyRunListedExists` | SpellCheckProcessor.java:595-607 | the run test holds exactly when, for some run, the upper-cased character style is in the list |
| `StyleSkip.IsParagraphStyleToSkip` | SpellCheckProcessor.java:589-609 | the method returns true exactly when the upper-cased style id, or the upper-cased character style of some run, is in the list |
| `StyleSkip.UnstyledNotSkipped` | SpellCheckProcessor.java:589-609 | a paragraph without any style is never skipped |
| `StyleSkip.SkipsAsWrittenThenIgnoringCase` | SpellCheckProcessor.java:589-609 | every paragraph the Java test skips is also skipped by the case-insensitive test |
| `StyleSkip.FrontMatterParagraphSkippedOnlyIgnoringCase` | SpellCheckProcessor.java:589-609 | a "Front matter" paragraph with unstyled runs is not skipped by the Java test, and is skipped by the case-insensitive one |
| `Pipeline.ExtractRunInfos` | SpellCheckProcessor.java:297-308 | one RunInfo per run, with its text (null as ""), flags and properties |
| `Pipeline.RunInfosText` | SpellCheckProcessor.java:214-219 | the joined run-info texts are the paragraph text |
| `Pipeline.JoinTexts` | SpellCheckProcessor.java:214-217 | the loop joins the run texts |
| `Pipeline.Lead` | SpellCheckProcessor.java:220 | String.trim skips the leading characters up to U+0020 |
| `Pipeline.Tail` | SpellCheckProcessor.java:220 | String.trim skips the trailing characters up to U+0020 |
| `Pipeline.TrimEmptyIffBlank` | SpellCheckProcessor.java:220 | the trimmed text is empty exactly when every character is at most U+0020 |
| `Pipeline.ApplyTo` | SpellCheckProcessor.java:89-112 | the copied properties, then strike and 2F4F4F for a deletion, or 2CFF05 for an addition; the text is untouched |
| `Pipeline.RunForShows` | SpellCheckProcessor.java:431-446 | a rebuilt run carries the segment text, the deletion or addition colour, and the vertical alignment of a group |
| `Pipeline.RunsForSnoc` | SpellCheckProcessor.java:431-446 | the runs are built segment by segment |
| `Pipeline.RebuildParagraphWithChanges` | SpellCheckProcessor.java:420-447 | the old runs are all removed and the paragraph holds exactly the runs of the diff segments |
| `Pipeline.CheckParagraph` | SpellCheckProcessor.java:209-230 | after marking: empty or blank text and an unchanged correction leave the runs; a failed service call is reported; otherwise the paragraph is rebuilt |
| `Pipeline.ProcessParagraph` | SpellCheckProcessor.java:200-231 | a paragraph the Java style test skips is unchanged; otherwise it is marked, then checked, as Outcome states; a failed call leaves the markers in |
| `Pipeline.ProcessExpecting` | SpellCheckProcessor.java:200-231 | with the expected outcome fixed beforehand: ok exactly when that outcome exists, the runs then equal it, and a failure leaves the markers in |
| `Pipeline.ProcessParagraphs` | SpellCheckProcessor.java:200-231 | ok exactly when every paragraph has an Outcome, and then each paragraph ends as its Outcome; otherwise the loop stopped at a paragraph whose service call failed, the earlier ones end as their Outcome, that one keeps its markers, and the later ones are untouched |
| `Pipeline.ProcessInOrder` | SpellCheckProcessor.java:200-231 | the paragraph loop with each outcome named beforehand: either every paragraph ends as its outcome, or the loop stops at the first paragraph without one, leaving the earlier ones processed, that one marked and the later ones untouched |
| `Pipeline.SkippedParagraphUnchanged` | SpellCheckProcessor.java:201-203 | a paragraph whose upper-cased style id is in the list is left as it is |
| `Pipeline.FrontMatterParagraphChecked` | SpellCheckProcessor.java:200-231 | a "Front matter" paragraph with unstyled runs is not skipped: it is marked and sent to the service |
| `Pipeline.EchoKeepsParagraph` | SpellCheckProcessor.java:224-230 | when the service echoes its input (and the text has no «), the paragraph keeps its runs plus the markers |
| `Pipeline.RebuiltReadsBoth` | SpellCheckProcessor.java:429-492 | for texts without super/subscript characters the rebuilt segments read as the correction without the deletions, and as the original without the additions |
| `Pipeline.ProcessKeepsReadings` | SpellCheckProcessor.java:528-587 | cutting plain segments changes neither reading |
| `Pipeline.DeletedSuperscriptShownUnchanged` | SpellCheckProcessor.java:559-567 | a deleted "⁴" comes out as an unchanged superscript |
| `SmartQuotes.SmartQuotesExceptCant` | LLM-COPYEDIT/src/main/java/Service/SmartQuoteProcessor.java:57-100 | null gives null; otherwise protect can't, then one pass with the two toggles, then restore, as SmartQuoted states |
| `SmartQuotes.Quote` | LLM-COPYEDIT/src/main/java/Service/SmartQuoteProcessor.java:67-95 | the pass writes one character for each character it reads |
| `SmartQuotes.QuotedUpToAll` | LLM-COPYEDIT/src/main/java/Service/SmartQuoteProcessor.java:67-95 | the character loop writes Quote of the protected text |
| `SmartQuotes.StraightenQuote` | LLM-COPYEDIT/src/main/java/Service/SmartQuoteProcessor.java:67-95 | the pass only curls quotes: reading curly quotes as straight gives its input back |
| `SmartQuotes.QuoteLeavesNoStraightQuote` | LLM-COPYEDIT/src/main/java/Service/SmartQuoteProcessor.java:69-92 | the pass leaves no straight " or ' |
| `SmartQuotes.QuoteKeepsOthers` | LLM-COPYEDIT/src/main/java/Service/SmartQuoteProcessor.java:91-93 | every other character is copied, and no underscore appears |
| `SmartQuotes.DoubleQuotesAlternate` | LLM-COPYEDIT/src/main/java/Service/SmartQuoteProcessor.java:69-71 | two double quotes with none between get one opening and one closing mark |
| `SmartQuotes.FirstDoubleQuoteOpens` | LLM-COPYEDIT/src/main/java/Service/SmartQuoteProcessor.java:64-71 | the first double quote opens |
| `SmartQuotes.ContractionApostrophe` | LLM-COPYEDIT/src/main/java/Service/SmartQuoteProcessor.java:76-78 | an apostrophe between letters or digits becomes ’ |
| `SmartQuotes.ProtectWithoutCant` | LLM-COPYEDIT/src/main/java/Service/SmartQuoteProcessor.java:61 | text without a can't is not changed by the protection |
| `SmartQuotes.NoApostropheNoCant` | LLM-COPYEDIT/src/main/java/Service/SmartQuoteProcessor.java:61 | the pattern needs an apostrophe |
| `SmartQuotes.ReplaceAtFront` | LLM-COPYEDIT/src/main/java/Service/SmartQuoteProcessor.java:98 | an occurrence at the front is replaced |
| `SmartQuotes.ReplaceWithoutTarget` | LLM-COPYEDIT/src/main/java/Service/SmartQuoteProcessor.java:98 | text without the target's first character is unchanged |
| `SmartQuotes.ReplaceAddsOnlyReplacement` | LLM-COPYEDIT/src/main/java/Service/SmartQuoteProcessor.java:98 | replacing adds no character foreign to the text and the replacement |
| `SmartQuotes.ReplaceStraighten` | LLM-COPYEDIT/src/main/java/Service/SmartQuoteProcessor.java:98 | replacing commutes with reading quotes straight |
| `SmartQuotes.ProtectRestore` | LLM-COPYEDIT/src/main/java/Service/SmartQuoteProcessor.java:61-98 | for text without '_', protecting then restoring lowers each can't and changes nothing else |
| `SmartQuotes.SmartQuotesChangeOnlyQuotes` | LLM-COPYEDIT/src/main/java/Service/SmartQuoteProcessor.java:56-100 | for text without '_' or curly quotes: the length is kept, and reading the result's quotes straight gives the input with every can't in lower case |
| `SmartQuotes.QuoteIsQuotedFrom` | LLM-COPYEDIT/src/main/java/Service/SmartQuoteProcessor.java:67-95 | the pass keeps the length, makes every quote curly, and copies every other character |
| `SmartQuotes.RestoredApostrophes` | LLM-COPYEDIT/src/main/java/Service/SmartQuoteProcessor.java:61-98 | for text without '_', restoring the placeholders after any such pass gives a text as long as the input, with a straight ' exactly at the apostrophe of each can't |
| `SmartQuotes.StraightApostrophesAreCants` | LLM-COPYEDIT/src/main/java/Service/SmartQuoteProcessor.java:57-100 | for text without '_': the length is kept, every can't keeps its straight apostrophe, and no other straight ' survives |
| `SmartQuotes.NoStraightDoubleQuote` | LLM-COPYEDIT/src/main/java/Service/SmartQuoteProcessor.java:57-100 | no straight double quote survives |
| `SmartQuotes.WithoutCantAllQuotesConverted` | LLM-COPYEDIT/src/main/java/Service/SmartQuoteProcessor.java:57-100 | without can't or '_', the result is the quote pass itself, with no straight quote left |
| `SmartQuotes.CapitalCantLowered` | LLM-COPYEDIT/src/main/java/Service/SmartQuoteProcessor.java:61-98 | "Can't" comes back as "can't" |
| `SmartQuotes.PlaceholderInTextBecomesCant` | LLM-COPYEDIT/src/main/java/Service/SmartQuoteProcessor.java:59-98 | the placeholder string in the input comes back as "can't" |
| `SmartQuotes.DontGetsRightQuote` | LLM-COPYEDIT/src/main/java/Service/SmartQuoteProcessor.java:72-78 | "don't" becomes "don’t" |

## Left out

- File and folder I/O (`processFolder`, `writeToFile`, `main`) is not modelled. Neither is the
  DOCX reading and writing of Apache POI. The model starts from paragraphs.
- The HTTP call and its JSON handling (`callGrammarCheckApi` and the code after it) are not
  modelled. The grammar service is a function parameter `service: string -> Option<string>`, and
  an IOException is `None`. A thrown exception ends the Java document loop; in the model,
  `Pipeline.ProcessParagraphs` stops at the first `None`.
- Pipeline.ProcessParagraphs: requires the paragraphs to be distinct objects. The Java list of a
  document never repeats a paragraph.
- `RunFormatting` copies the whole CTRPr. The model carries only vertical alignment, character
  style, colour, bold, font size and strike-through. The other properties are neither read nor
  changed by the pass.
- A run or paragraph whose XML access throws is not modelled. This covers a null CTR, a null
  `rStyle.getVal()`, and an exception inside `applyTo`, all of which the Java code catches and
  ignores.
- String.toUpperCase is modelled on ASCII letters only. The locale and the non-ASCII case
  mappings are left out.
- Character.isLetterOrDigit depends on Unicode tables. It is the parameter `isLetterOrDigit`.
- `\s` and `\p{Punct}` are the ASCII classes, as Java defines them without UNICODE_CHARACTER_CLASS.
- Java strings are UTF-16 code units, while Dafny characters are Unicode scalar values. Surrogate
  pairs are not modelled.
- Integer.parseInt is modelled for ASCII digits only; its other Unicode digits are left out.
- `SmartQuoteProcessor.process` and the XML DOM walk that calls `smartQuotesExceptCant` are not
  part of this model.
- SmartQuotes.SmartQuotesChangeOnlyQuotes: stated for text without '_' and without curly quotes.
  An underscore next to a protected can't can join the placeholder
  (`SmartQuotes.PlaceholderInTextBecomesCant`). A curly quote already in the text cannot be told
  apart after reading back straight.
- SmartQuotes.StraightApostrophesAreCants: stated for text without '_', for the same reason.
- Restoring.MaskRoundTrip: stated for text without « and for at most 2^31-1 placeholders.
  `Restoring.MaskRoundTripNeedsNoOpener` shows that the first condition is needed. The second
  condition is Java's int range for the index.

## Findings

| source | as written | input that shows it | evidently intended | confidence | as-written member | corrected member |
|---|---|---|---|---|---|---|
| SpellCheckProcessor.java:591 | The style name is upper-cased and then looked up in STYLES_TO_SKIP (lines 24-27). That set also holds 16 lower- or mixed-case names: cit, author, adate, atl, stl, vol, iss, first-page, last-page, org, btl, city, pub, aulabel, Hyperlink, Front matter. None of them can ever match, so those paragraphs are spell-checked. | a paragraph whose style id is "Front matter" | a case-insensitive lookup | not executed | `StyleSkip.FrontMatterStyleMissed` (with `StyleSkip.AsWrittenMissesLowercaseEntries`; the pass itself uses this lookup, see `Pipeline.FrontMatterParagraphChecked`) | `StyleSkip.FrontMatterParagraphSkippedOnlyIgnoringCase` (about the case-insensitive paragraph test `SkipsParagraphIgnoringCase`, with `StyleSkip.SkipsAsWrittenThenIgnoringCase` and `StyleSkip.ListedIgnoresCase`) |
