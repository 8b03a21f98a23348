# docx_plugin: a Dafny model of its text logic

The repository is an Obsidian plugin with two pieces of sequential text
logic, and this project models both.

1. **Note export** (`src/main.ts`). The plugin cuts the note into lines on
   `"\n"`. Each line gets a heading level: 0 for plain text, 1 for `"# "`,
   and 2 for any other line starting with `#`. Each (line, level) pair
   becomes one paragraph. A plain paragraph holds the trimmed line. A heading
   holds the line with every `#` removed, then trimmed, and is tagged
   HEADING_1 or HEADING_2. In module `MarkdownExport`, the paragraph is the
   datatype `Para`, the per-line mapping is the function `ParagraphFor`, and
   the source's loop is the method `BuildDocxFromMarkdown`. That method is
   proved equal to `ParagraphsOf` applied to `Split(markdown, '\n')`.
2. **Guillemet auto-pairing** (`src/editorExtension.ts`). Typing `"` puts
   `«»` with the cursor between the marks, or wraps a selection as
   `«text»`. A backspace over a `«` that is directly followed by `»` also
   removes the `»`. The editor document is a `string`. A change record is
   `Change(fromA, toA, fromB, toB, inserted)`. A transaction spec is a
   `Splice(from, to, insert)` plus an optional cursor. What the extension
   dispatches is a sequence of `Dispatch` values: a batch of specs
   (`Apply`) or a new selection (`Select`). The `iterChanges` callback loop
   becomes the method `ChooseTarget`, proved against `LastQualifying`. The
   per-range loop of `handleChanges` becomes the method `HandleChanges`,
   proved against `ChangesDispatches`.

Module `Text` holds the JavaScript string operations these rely on:
`split` on one character, `startsWith`, `replace(/#/g, "")` and `trim`.
`trim` removes a fixed whitespace set, given in `Text.IsSpace`: tab, line
feed, vertical tab, form feed, carriage return, space, U+00A0, U+FEFF,
U+2028, U+2029, and the category Zs space separators of Unicode 15 (U+1680,
U+2000 to U+200A, U+202F, U+205F, U+3000).

The editor's `sliceString` is modelled as `SliceString`, which clamps both
bounds into the document, as CodeMirror's `Text` does. (CodeMirror is not
part of this model.) As a result, `findNextSybmol` at the last position
reads as the empty string.

Two consequences of the code as written are kept in the model. First,
`handleUpdate` tests `!from || !to`, and 0 is falsy in JavaScript, so
nothing is handled when the last qualifying change starts at position 0:
a lone `"` typed there, or a `«»` pair there whose deletion is the last one.
The test looks only at that last change. With several cursors, the
per-range loop still rewrites a cursor that typed at 0, as
`QuotePairing.QuoteAtDocumentStart` shows. Second, with an empty selection list,
`handleChanges` dispatches one empty batch and no selection.

The editor's `state.update` throws a RangeError for a change whose range
leaves the document. The edits are built with `updateState` before anything
is dispatched, so `handleUpdate` stops at the first such edit, and neither
the batch nor the selection is dispatched. The model has this rule as
`QuotePairing.Fits`. So when the selection has several ranges, or one
non-empty range, and one of them touches either end of the document,
`handleChanges` dispatches nothing. A single cursor takes the fast path,
which edits only the typed range.

## Model

| member | source | states |
|---|---|---|
| `Text.StartsWith` | src/main.ts:95-96 | `startsWith`: the prefix test; the level tests built on it are characterised by `MarkdownExport.LevelOfLine` and `MarkdownExport.ParagraphKind` |
| `Text.Split` | src/main.ts:93 | `split("\n")` gives one piece more than there are separators; no piece holds the separator; joining the pieces with the separator gives back the text |
| `Text.SplitJoin` | src/main.ts:93 | the other direction of the round trip: splitting a join of separator-free pieces gives back the pieces |
| `Text.RemoveAll` | src/main.ts:123 | `replace(/#/g, "")` leaves no `#`; it drops exactly the occurrences of `#` and keeps every other character |
| `Text.RemoveAllAbsent` | src/main.ts:123 | removing a character that does not occur changes nothing |
| `Text.RemoveAllOne` | src/main.ts:123 | a single character is dropped exactly when it is the removed one, and kept otherwise |
| `Text.RemoveAllAppend` | src/main.ts:123 | removing distributes over concatenation, so the kept characters stay in their order and with their multiplicity |
| `Text.SpacesFrom` | src/main.ts:118 | the leading-whitespace scan stops at the first non-whitespace character or the end, and passed only whitespace |
| `Text.SpacesBefore` | src/main.ts:118 | the trailing-whitespace scan stops after the last non-whitespace character or at the start, and passed only whitespace |
| `Text.Trim` | src/main.ts:118 | the result has no leading or trailing whitespace and uses only characters of the input |
| `Text.TrimIsInfix` | src/main.ts:118 | the trimmed text is the contiguous piece of the input that starts after its leading whitespace, and everything before and after that piece is whitespace |
| `Text.TrimFixpoint` | src/main.ts:118 | `trim` leaves a string unchanged exactly when neither end is whitespace |
| `Text.TrimIdempotent` | src/main.ts:118 | trimming twice is trimming once |
| `Text.TrimDropsCarriageReturn` | src/main.ts:118 | a trailing `\r` (a CRLF line ending after the split on `"\n"`) makes no difference to the trimmed text of any line |
| `Text.SpacesBeforeExtend` | src/main.ts:118 | appending a character does not change the backward whitespace scan from inside the string |
| `Text.SpacesFromExtend` | src/main.ts:118 | appending a character does not change a forward whitespace scan that stops inside the string, and extends one that reaches the end when the character is whitespace |
| `MarkdownExport.LevelOf` | src/main.ts:94-97 | the level assignment; its contract is stated by `LevelOfLine` |
| `MarkdownExport.LevelOfLine` | src/main.ts:94-97 | level 0 exactly when the line does not begin with `#`; level 1 exactly when it begins with `#` and a space; level 2 otherwise |
| `MarkdownExport.HeadingText` | src/main.ts:123 | heading text has no `#` anywhere and no leading or trailing whitespace |
| `MarkdownExport.HeadingTextIdempotent` | src/main.ts:123 | removing `#` and then trimming is idempotent |
| `MarkdownExport.BuildParagraph` | src/main.ts:114-129 | level 0 exactly when plain; plain text is the trimmed line; heading text has no `#` and is trimmed; style is HEADING_1 exactly for level 1 and HEADING_2 for every other non-zero level |
| `MarkdownExport.ParagraphFor` | src/main.ts:94-98 | the paragraph for one line, `buildParagraph` applied to the line and its level; its contract is stated by `ParagraphKind` |
| `MarkdownExport.ParagraphKind` | src/main.ts:94-98 | a line becomes a plain paragraph exactly when it does not start with `#`; a HEADING_1 heading exactly when it starts with `"# "`; a HEADING_2 heading exactly when it starts with `#` but not `"# "` |
| `MarkdownExport.ParagraphsOf` | src/main.ts:93-99 | one paragraph per line, in order, each the paragraph of that line alone |
| `MarkdownExport.ParagraphsOfAppend` | src/main.ts:93-99 | no state carries between lines: the paragraphs of two runs of lines are the concatenation of each run's paragraphs |
| `MarkdownExport.BuildDocxFromMarkdown` | src/main.ts:91-99 | the loop builds one paragraph per `"\n"`-separated line in source order, so there is one more paragraph than there are newlines; an empty note gives one empty plain paragraph |
| `MarkdownExport.EmptyNote` | src/main.ts:92-99 | an empty note gives exactly `[Plain("")]` |
| `QuotePairing.SliceString` | src/editorExtension.ts:27 | inside the document a slice is the substring; an inverted range reads as empty; never longer than the document |
| `QuotePairing.FindNextSymbol` | src/editorExtension.ts:109-111 | the character after `from`, or the empty string past either end |
| `QuotePairing.Qualifies` | src/editorExtension.ts:25-36 | the test a change must pass; for a backward delete it is characterised by `DeleteQualifies`; while typing, the inserted text contains `"` |
| `QuotePairing.DeleteQualifies` | src/editorExtension.ts:25-31 | on backward delete, a change qualifies exactly when it removes a single `«` of the old document and the old character after it is `»` |
| `QuotePairing.LastQualifying` | src/editorExtension.ts:24-37 | none exactly when no change qualifies; otherwise the index of a qualifying change after which none qualifies |
| `QuotePairing.TargetOf` | src/editorExtension.ts:24-37 | nothing exactly when no change qualifies; otherwise the new range `(fromB, toB)` of a qualifying change after which no change qualifies |
| `QuotePairing.TargetOfStep` | src/editorExtension.ts:24-37 | one more change becomes the target when it qualifies, and leaves the earlier target standing otherwise |
| `QuotePairing.ChooseTarget` | src/editorExtension.ts:21-37 | the loop leaves `(fromB, toB)` of the last qualifying change, so later changes overwrite earlier ones; nothing is chosen exactly when no change qualifies |
| `QuotePairing.DeletePair` | src/editorExtension.ts:40-46 | the second edit of a pair deletion; its effect is stated by `DeletePairRemovesOne` and `DeletePairEffect` |
| `QuotePairing.AddQuotes` | src/editorExtension.ts:85-95 | the `addQuotes` transaction spec; its effect is stated by `AddQuotesEffect` |
| `QuotePairing.WrapQuotes` | src/editorExtension.ts:97-107 | the `wrapQuotes` transaction spec; its effect is stated by `WrapQuotesEffect` |
| `QuotePairing.ApplySplice` | src/editorExtension.ts:40-46 | the length of the document after a splice |
| `QuotePairing.AddQuotesEffect` | src/editorExtension.ts:85-95 | after `addQuotes`, `«` and `»` stand where the range was, the cursor is between them, and the text on either side is unchanged |
| `QuotePairing.WrapQuotesEffect` | src/editorExtension.ts:97-107 | after `wrapQuotes`, the characters before and after the selection are `«` and `»`; every other character, the selected text included, is unchanged; the length is unchanged |
| `QuotePairing.DeletePairRemovesOne` | src/editorExtension.ts:39-47 | the pair deletion removes exactly the one character at `from` and leaves the rest of the document unchanged |
| `QuotePairing.DeletePairEffect` | src/editorExtension.ts:39-47 | after the backspace over `«`, the `»` stands at the position of the deleted `«`, and the pair deletion then removes it, so the two edits remove exactly the pair |
| `QuotePairing.Fits` | src/editorExtension.ts:81-83 | the editor's acceptance test for a change built by `updateState`: its range lies inside the document |
| `QuotePairing.QuoteEdit` | src/editorExtension.ts:61-63 | the edit for one range of the selection; what it is for empty and non-empty ranges is stated by `MultiRangeEdits` |
| `QuotePairing.ChangesDispatches` | src/editorExtension.ts:51-79 | what `handleChanges` dispatches, nothing when an edit leaves the document; stated by `MultiRangeEdits` for the loop and by `HandleChanges` for the fast path |
| `QuotePairing.AllFitRanges` | src/editorExtension.ts:61-63 | every per-range edit, `addQuotes` or `wrapQuotes`, stays inside the document exactly when every range has a character before and after it |
| `QuotePairing.QuoteAtDocumentEnd` | src/editorExtension.ts:24-37 | an example: with `"` typed at both ends of the line `"\n"`, the last qualifying change is the second one, and because its edit would reach past the end of the document nothing is dispatched |
| `QuotePairing.QuoteAtDocumentStart` | src/editorExtension.ts:38-79 | an example: with `"` typed at 0 and at 1 of `"ab"`, the target is the second change, so the 0-test passes, and the loop still rewrites both cursors, the one at the start included |
| `QuotePairing.RestoredSelection` | src/editorExtension.ts:65-69 | the selection rebuilt for a range (a cursor at `from` when empty, anchor and head otherwise) is that range |
| `QuotePairing.MultiRangeEdits` | src/editorExtension.ts:58-78 | without the single-cursor fast path, nothing is dispatched when some range's edit leaves the document; otherwise there is one edit per range, in range order; an empty range gets `«»` over `[from-1, from+1)` with the cursor back at `from`; a non-empty range is wrapped; the selection dispatched afterwards holds the same ranges (anchors and heads) as the original selection |
| `QuotePairing.HandleChanges` | src/editorExtension.ts:51-79 | the loop produces `ChangesDispatches` and stops with nothing dispatched at an edit outside the document; a single empty selection takes the fast path, one `addQuotes` on the typed range and no selection rebuild |
| `QuotePairing.HandleUpdate` | src/editorExtension.ts:16-49 | only `"input.type"` and `"delete.backward"` can produce an edit; no edit if no change qualified or the chosen `from` or `to` is 0; a backward delete then removes the character at `from` when the document has one there, and otherwise dispatches nothing; typing goes to `handleChanges` |

## Left out

- Plugin lifecycle, menu, ribbon, status bar and command registration (src/main.ts:28-63). These are host UI glue.
- Settings load and save and the settings tab (src/main.ts:65-75, src/settings.ts). These are persistence and UI.
- `exportFile`'s view lookup and notices (src/main.ts:77-89). These are host API calls.
- Building the `Document`, `Packer.toBlob`, `writeBinary` and `openWithDefaultApp` (src/main.ts:101-111). These are asynchronous file I/O and the docx library. The model stops at the paragraph list handed to `new Document`.
- `SampleModal` (src/main.ts:132-146). This is UI.
- src/formatting.ts. It holds only style and page constants for the docx library, plus one unit conversion on fractional values done by a library call.
- The CodeMirror mechanics: `updateListener`, `view.dispatch`, `state.update`, annotations and how `iterChanges` walks a change set. Their inputs and outputs are modelled as parameters: the user-event annotation, the old document, the change records, and the document and selection after the transaction.
- Applying several dispatched transactions one after another. All specs of one batch are built against the same state, and the model does not say how the editor reconciles them.
- Selection-range details other than anchor and head (goal column, bidi level, association).
- The main-range index of the selection. `EditorSelection.create` (src/editorExtension.ts:75) makes the first range the main one, whatever the main range was before. The model's `Select` carries only the ranges.
- Positions as UTF-16 code units. CodeMirror counts positions in UTF-16 code units, while a Dafny `char` is a Unicode scalar value. Next to a character outside the Basic Multilingual Plane, the `- 1` and `+ 1` of src/editorExtension.ts:62 and 101-102, and the one-position slice of `findNextSybmol`, can fall inside a surrogate pair. The model counts one position per character and does not cover that case.
- `trim` uses the fixed whitespace set given above. Whitespace added to Unicode after version 15 is not covered.
- `QuotePairing.ApplySplice`: its own contract gives only the length. The contents after each kind of splice are stated by the lemmas `AddQuotesEffect`, `WrapQuotesEffect`, `DeletePairRemovesOne` and `DeletePairEffect`.
