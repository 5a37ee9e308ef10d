# OATutor text segmentation in Dafny

This project models the text pipeline of OATutor's
`src/platform-logic/renderText.js`: the pure logic that turns an authored
string, or a string generated by a chat model, into the list of lines a
problem card shows.

The pipeline runs in this order:

- Optionally, the chat-model clean-up (`preprocessChatGPTResponse`).
- The literal rewrites `\neq` to `≠` and `**` to `^`.
- Meta-variable substitution (`%{oats_user_id}`).
- The `dynamicText` table.
- The optional variabilization.
- A line split that keeps `\[...\]` and `\begin{..}...\end{..}` blocks whole (`splitPreservingMathBlocks`).
- For every line:
  - a blank test (`line.trim() === ""`);
  - the math segmenter (`parseMathSegments`);
  - for each plain-text segment, the `##` media split and the fill-in-blank split (`parseForFillInQuestions`).

Regular expressions are modelled as explicit matchers. A matcher is a function that maps a position to the end of the match starting there, or to `None`. Module `Scanner` defines:

- the leftmost scan over a matcher, as the `exec` loop, `split` and `replace` run it;
- declarative characterisations of each scan, with uniqueness lemmas;
- a reconstruction lemma for each scan.

Every other module instantiates this scan with one of the file's patterns, with the alternatives in the order the pattern lists them and with each lazy `[\s\S]*?` stopping at the first closing delimiter.

Modules:

- `Wrappers`: `Option`.
- `Strings`: string predicates and functions, `Weave`/`Join`/`Concat`, and `Trim`.
- `Scanner`: the generic leftmost scan.
- `MathSegments`: `parseMathSegments`.
- `LineSplit`: the line split of line 31 and line 228, and `splitPreservingMathBlocks`.
- `MetaVariables`: `META_REGEX`, `mapper` and `parseForMetaVariables`.
- `Substitutions`: `replaceAll` with a fixed string, and `split(d).join(v)` over the `dynamicText` table.
- `GptPreprocess`: `preprocessChatGPTResponse`.
- `FillIn`: the `##` media split and `parseForFillInQuestions`.
- `Render`: the pure front halves of `renderText` and `renderGPTText`. Their result is the list of drawn lines, each blank or a list of parts.

## Model

| member | source | states |
|---|---|---|
| Scanner.NextHit | src/platform-logic/renderText.js:27-39 | The next match found by a global `exec` loop from `lastIndex` is a match, and no match starts between `lastIndex` and it; `None` means no match starts anywhere after `lastIndex`. |
| Scanner.NextHitIs | src/platform-logic/renderText.js:27-39 | Conversely, a match with no earlier match after `lastIndex` is the one the loop finds, and a match-free rest means the loop ends. |
| Scanner.GapSpansIs | src/platform-logic/renderText.js:378 | The pieces that `split` leaves lie between consecutive leftmost matches, and the scan resumes after each match. |
| Scanner.GapListUnique | src/platform-logic/renderText.js:378 | Only one list of pieces satisfies that description, so `split`'s result is determined by the pattern alone. |
| Scanner.SplitRebuild | src/platform-logic/renderText.js:378 | The pieces of a `split`, interleaved with the matched separators, give back the input. |
| Scanner.ReplaceSplit | src/platform-logic/renderText.js:327-332 | A global `replace` with a callback equals splitting on the same pattern and weaving the callback's value for each separator back in. |
| Scanner.ReplaceKeeps | src/platform-logic/renderText.js:327-332 | A global `replace` whose callback gives every match back unchanged leaves the text unchanged. |
| Scanner.PiecesFrom | src/platform-logic/renderText.js:62-94 | The `exec` loop with its text before each match and its trailing text: the pieces alternate gaps and matches and cover the input from left to right, each gap non-empty and match-free and each match a leftmost one. |
| Scanner.PieceListUnique | src/platform-logic/renderText.js:62-94 | That description admits only one list of pieces. |
| Scanner.PieceListRebuild | src/platform-logic/renderText.js:62-94 | The pieces' texts concatenate to the input: no character is dropped or repeated. |
| Scanner.ReplaceAhead | src/platform-logic/renderText.js:327-332 | A replace that resumes after a match gives what the same replace gives on the rest of the text alone, when the pattern looks only forward. |
| Scanner.ReplaceBehind | src/platform-logic/renderText.js:327-332 | A replace over `a + r` handles `a` as if it stood alone and then goes on from the start of `r`, when every match that starts in `a` is unchanged by `r` and ends inside `a`. |
| Scanner.SplitAhead | src/platform-logic/renderText.js:378 | The same holds for the pieces of a `split`. |
| Scanner.SplitPiece | src/platform-logic/renderText.js:378 | Piece `i` of a `split` is a match-free slice, and the separator after it is the match that starts where the piece ends. |
| MathSegments.Delimited | src/platform-logic/renderText.js:57 | A lazy `open[\s\S]*?close` stops at the first `close` after `open`; with no such `close` there is no match. |
| MathSegments.DollarAlt | src/platform-logic/renderText.js:57 | `\$(?!\$)([^$]+)\$`: a `$` not followed by `$`, then the next `$`, with at least one character between them. |
| MathSegments.NameEnd | src/platform-logic/renderText.js:57 | `\{[^}]+\}`: a non-empty name ended by the first `}`. |
| MathSegments.EnvironmentAltIff | src/platform-logic/renderText.js:57 | The fifth alternative matches from `p` to `e` exactly when there is `\begin{name}` at `p` and `e` ends the first `\end{..}` after it, whatever its name. |
| MathSegments.MatchAtDispatch | src/platform-logic/renderText.js:57 | The five alternatives are tried in the pattern's order, `\(`, `$$`, single `$`, `\[`, `\begin{`; the first opener present decides the match, and with none of them present nothing matches. |
| MathSegments.MatchStart | src/platform-logic/renderText.js:57 | A match starts with `\` or `$`. |
| MathSegments.MatchSegment | src/platform-logic/renderText.js:71-86 | A match becomes an inline segment exactly when it is an inline match and a block segment exactly when it is a block match; the value is the `[from, to)` slice, trimmed. MathSegments.AlternativeSegment ties `[from, to)` to each alternative's delimiters. |
| MathSegments.AlternativeSegment | src/platform-logic/renderText.js:71-86 | `\(...\)`, `$$...$$` and `$...$` make inline segments and `\[...\]` a block segment, each from the text between its delimiters; an environment makes a block segment holding the whole match, markers included. |
| MathSegments.ParseMathSegments | src/platform-logic/renderText.js:51-97 | One segment per piece of the scan. Only the empty line gives no segments. Text segments are never empty, math values are trimmed, and no two consecutive segments are both text. |
| MathSegments.EnvironmentValue | src/platform-logic/renderText.js:83-85 | An environment's value is the whole `\begin..\end{..}` text. |
| MathSegments.ParseRebuild | src/platform-logic/renderText.js:62-94 | The source slices of the segments concatenate to the line. |
| MathSegments.SourcesParse | src/platform-logic/renderText.js:62-94 | A text segment equals its source slice, and a math segment's source slice, parsed on its own, gives back exactly that segment. |
| MathSegments.MatchAtSlice | src/platform-logic/renderText.js:57 | A match, cut out of its line, matches the same way on its own. |
| MathSegments.DoubleDollarExample | src/platform-logic/renderText.js:74-76 | `$$x^2$$` is one inline segment `x^2`, not two single-dollar matches. |
| MathSegments.EnvironmentExample | src/platform-logic/renderText.js:83-85 | `\begin{a}x\end{b}` is one block segment, although the names differ. |
| MathSegments.DollarAmountExample | src/platform-logic/renderText.js:57 | In `$5 and $x$`, the amount's `$` opens an inline segment `5 and`, and `x$` is left as text. |
| LineSplit.NewlineEnd | src/platform-logic/renderText.js:31 | The line-break pattern: a line ends at CR LF, at LF, or at a backslash followed by `n`, tried in that order. |
| LineSplit.SplitLinesRebuild | src/platform-logic/renderText.js:31 | The lines of a `split` and the breaks cut out of it give back the text, and every break is one of the three line endings. |
| LineSplit.SplitLinesClean | src/platform-logic/renderText.js:31 | No line holds a line feed or a backslash-`n` pair. |
| LineSplit.SplitLines | src/platform-logic/renderText.js:228 | A plain split always gives at least one line, and the empty string gives one empty line. |
| LineSplit.BlockAlt | src/platform-logic/renderText.js:20-21 | The block pattern finds exactly the segmenter's block matches: what it finds at a position is the segmenter's match there, and every `\[...\]` or environment match of the segmenter is found by it. |
| LineSplit.SplitPreservingMathBlocks | src/platform-logic/renderText.js:42-48 | The empty text gives no lines at all, and any other text gives at least one, one per element of the tagged split. That empty lines are kept follows from LineSplit.SplitPreservingRebuild (only line breaks are dropped) with LineSplit.SplitTaggedLines (a plain element holds no line break). |
| LineSplit.SplitTaggedLines | src/platform-logic/renderText.js:27-46 | Each block element, newlines included, parses as exactly one block segment; each plain element holds no line break. |
| LineSplit.BlocksWhole | src/platform-logic/renderText.js:27-38 | Every block the scan finds is pushed as one element, verbatim and with its newlines; the elements of each piece of the scan come after those of the pieces before it, so the blocks keep their order, and together the pieces fill the output. |
| LineSplit.WholeBlock | src/platform-logic/renderText.js:27-38 | A text that is one block from start to end is one element. |
| LineSplit.BracketBlockExample | src/platform-logic/renderText.js:35-36 | `\[a`, a line feed, `b\]` is exactly one element: the line feed inside the block does not split it. |
| LineSplit.SplitPreservingRebuild | src/platform-logic/renderText.js:19-49 | The elements, woven back together with what separated them, give back the input; each separator is a line break or nothing, so only line breaks are dropped. |
| MetaVariables.MetaEnd | src/platform-logic/renderText.js:317 | `/%\{([^{}%"]+)}/`: a match is a whole reference `%{name}` with a non-empty name free of `{`, `}`, `%` and `"`; no match means no reference starts there. |
| MetaVariables.ReferenceUnique | src/platform-logic/renderText.js:317 | A reference found by the pattern is the only one that starts at that position. |
| MetaVariables.ParseForMetaVariables | src/platform-logic/renderText.js:326-333 | `parseForMetaVariables`: a global replace over the reference pattern. What it does is stated by MetaVariables.UnknownKept, MetaVariables.UserIdReplaced and MetaVariables.UserIdInText. |
| MetaVariables.UnknownKept | src/platform-logic/renderText.js:326-333 | A text with no reference to a known name comes back unchanged. |
| MetaVariables.UserIdReplaced | src/platform-logic/renderText.js:326-333 | `%{oats_user_id}` becomes the user id. |
| MetaVariables.UserIdInText | src/platform-logic/renderText.js:326-333 | For any texts `a` and `b`, `a + "%{oats_user_id}" + b` comes out as the result for `a` alone, then the user id, then the result for `b` alone: the reference is replaced wherever it stands, and the inserted id is never scanned again. |
| MetaVariables.MixedExample | src/platform-logic/renderText.js:326-333 | `"50% %{x}%{oats_user_id}"` becomes `"50% %{x}"` followed by the user id: a stray `%` and an unknown name are kept, and the user id is still inserted. |
| MetaVariables.MetaEndBefore | src/platform-logic/renderText.js:317 | A reference that starts in a text followed by `%` ends inside that text: the name cannot run into the `%`, and the `%` does not close the reference. |
| MetaVariables.ReferenceAt | src/platform-logic/renderText.js:326-333 | When a scan reaches a reference, the callback's value for that reference comes next and the scan goes on right after the reference. |
| MetaVariables.UserIdAt | src/platform-logic/renderText.js:326-333 | When a scan reaches a user-id reference, the id is inserted and the scan goes on right after the reference. |
| MetaVariables.MetaEndAhead | src/platform-logic/renderText.js:317 | Whether a reference starts at a position depends only on the text from that position on. |
| Substitutions.ReplaceAll | src/platform-logic/renderText.js:105-106 | A text without the pattern is unchanged. |
| Substitutions.ReplaceAllRemoves | src/platform-logic/renderText.js:105-106 | A non-empty replacement that shares no character with the pattern leaves no occurrence of the pattern, not even across a replaced spot. |
| Substitutions.ReplaceKeepsAbsent | src/platform-logic/renderText.js:105-106 | A replacement that shares no character with some other string forms no new occurrence of it: text without that string stays without it. |
| Substitutions.SplitJoinReplaces | src/platform-logic/renderText.js:111 | `split(key).join(value)` with a non-empty key replaces every occurrence of the key. |
| Substitutions.ApplyDynamicText | src/platform-logic/renderText.js:110-112 | The `dynamicText` loop over the table's entries. What it does is stated by Substitutions.DynamicTextInOrder, Substitutions.SplitJoinReplaces and Render.DynamicAbsent. |
| Substitutions.DynamicTextInOrder | src/platform-logic/renderText.js:110-112 | The table's entries apply one after the other, in order, each to the text the previous ones produced. |
| Substitutions.SplitJoin | src/platform-logic/renderText.js:111 | An entry whose key does not occur leaves the text unchanged. |
| GptPreprocess.ProtectAt | src/platform-logic/renderText.js:336-337 | The protecting pattern finds the same span as the segmenter wherever it matches, and wherever the segmenter matches with anything but a single `$`. |
| GptPreprocess.EscapeNewlinesClean | src/platform-logic/renderText.js:347 | After the plain-text escape no line feed is left, and a text without one is unchanged. |
| GptPreprocess.ProtectPartIs | src/platform-logic/renderText.js:339-363 | Each part is a protected math span copied verbatim, or the plain text between spans with its line feeds escaped. |
| GptPreprocess.ProtectNoNewline | src/platform-logic/renderText.js:339-363 | A text with no line feed comes out of the protecting pass unchanged. |
| GptPreprocess.MoneyEnd | src/platform-logic/renderText.js:365 | The money pattern matches exactly at a `$` followed by a digit. |
| GptPreprocess.MoneyPassFolds | src/platform-logic/renderText.js:365-367 | Marking the amounts and then restoring every U+FF04 equals turning every U+FF04 already in the text into `$`, so the amounts end up as they were. |
| GptPreprocess.PreprocessChatGptResponse | src/platform-logic/renderText.js:335-371 | `preprocessChatGPTResponse`: the protecting pass, then the money pass. What it does is stated by GptPreprocess.PreprocessIs, GptPreprocess.ProtectPartIs and GptPreprocess.MoneyPassFolds. |
| GptPreprocess.PreprocessIs | src/platform-logic/renderText.js:335-371 | The result is the protecting pass followed by that fold; it holds no U+FF04; a text with no line feed and no U+FF04 is unchanged. |
| FillIn.BlankEnd | src/platform-logic/renderText.js:378 | `/_{3,}/` matches exactly where three underscores start and takes the whole run of underscores. |
| FillIn.ParseForFillInQuestions | src/platform-logic/renderText.js:377-416 | `parseForFillInQuestions` always gives an odd number of tokens. Their shape is stated by FillIn.WithBlanksShape, their count by FillIn.BlankCount, and their parts by FillIn.FillInRebuild and FillIn.PartsHaveNoBlank. |
| FillIn.WithBlanksShape | src/platform-logic/renderText.js:381-413 | Parts sit at even positions, and a blank marker at each odd position, one between every two parts. |
| FillIn.PartsHaveNoBlank | src/platform-logic/renderText.js:378 | No part holds three underscores in a row. |
| FillIn.FillInRebuild | src/platform-logic/renderText.js:377-378 | The parts, woven back with the cut-out runs, give back the text; every cut-out run has three or more underscores. |
| FillIn.BlankCount | src/platform-logic/renderText.js:377-416 | There is one more part than maximal runs of three or more underscores, and the result has `2 * runs + 1` entries. |
| FillIn.GapsCountRuns | src/platform-logic/renderText.js:378 | From any scan position, the number of pieces is the number of maximal runs ahead plus one. |
| FillIn.NoUnderscore | src/platform-logic/renderText.js:377-416 | A text with no underscore is one plain part. |
| FillIn.TextTokens | src/platform-logic/renderText.js:135-151 | The tokens of a text segment: the `##` split, with media at odd positions and fill-in tokens at even ones. What they are is stated by FillIn.MediaAtOddParts, FillIn.MediaRebuild and FillIn.PlainText. |
| FillIn.MediaRebuild | src/platform-logic/renderText.js:135 | The parts of the `##` split, joined again with `##`, give back the segment's text. |
| FillIn.MediaAtOddParts | src/platform-logic/renderText.js:135-151 | Whatever the number of markers, the media are exactly the parts at odd positions of the `##` split, in order, and there are half as many as parts, rounded down: an unpaired marker does not stop the alternation. |
| FillIn.PlainText | src/platform-logic/renderText.js:134-152 | A text segment with no `##` and no blank renders as the one plain part. |
| FillIn.SplitAtMarker | src/platform-logic/renderText.js:135 | The split cuts at the first `##`, and the rest is split on its own. |
| FillIn.NoMarker | src/platform-logic/renderText.js:135 | A text with no `#` is one part. |
| FillIn.MediaExample | src/platform-logic/renderText.js:135 | `x##img1.png##y##img2.png##z` splits into `x`, `img1.png`, `y`, `img2.png`, `z`. |
| FillIn.TokensExample | src/platform-logic/renderText.js:136-151 | That text renders as text `x`, media `img1.png`, text `y`, media `img2.png`, text `z`: odd positions are media. |
| FillIn.UnpairedExample | src/platform-logic/renderText.js:135-151 | `a##b##c##d` renders as text `a`, media `b`, text `c`, media `d`: the last part is media although no marker closes it. |
| Render.RenderText | src/platform-logic/renderText.js:102-122 | A value that is not a string is handed back untouched. A string gives one drawn line per element of the block-preserving split of the rewritten text, and line `i` is element `i` drawn. |
| Render.RenderGptText | src/platform-logic/renderText.js:211-231 | A value that is not a string is handed back untouched. A string is first cleaned up; it gives one drawn line per element of a plain line split, and line `i` is element `i` drawn. |
| Render.DrawLine | src/platform-logic/renderText.js:122-189 | A line is drawn blank exactly when it is all whitespace. Otherwise it has at least one part, one per segment, each of the segment's kind and holding its value, with text parts tokenized. |
| Render.Prepare | src/platform-logic/renderText.js:105-116 | The rewrites before the line split, in the code's order: `\neq`, `**`, meta-variables, the `dynamicText` table, then the optional variabilization. What they do is stated by Render.RewritesRemove, Render.PrepareKeeps and Render.DynamicAbsent. |
| Render.RewritesRemove | src/platform-logic/renderText.js:105-106 | After both rewrites no `\neq` and no `**` remain: each replacement removes its own pattern, and the `^` of the second forms no new `\neq`. |
| Render.PrepareKeeps | src/platform-logic/renderText.js:105-116 | A text with nothing to rewrite, no `%` and none of the table's keys comes through the rewrites unchanged when there is no variabilization. |
| Render.DynamicAbsent | src/platform-logic/renderText.js:110-112 | A table none of whose keys occur leaves the text unchanged. |
| Render.EmptyText | src/platform-logic/renderText.js:118-122 | The empty text: `renderText` draws no line, while `renderGPTText` draws one blank line (line 228). |

## Left out

- The JSX: `div`, `center`, `span`, KaTeX's `InlineMath`/`BlockMath`, `ErrorBoundary` and `RenderMedia`. A drawn part records what would be drawn: the math string, the media url, or a blank marker. The keys made with `Math.random()`, the styles, and `problemID` and `CONTENT_SOURCE` (only passed to the media component) are left out.
- The `Spacer` pushed after every non-blank line but the last (lines 194-198 and their GPT copy; a blank line returns its empty `div` at lines 123-128 before that code runs): it is layout only and carries no text.
- `variabilize` from `./variabilize.js` is not part of this model. It is a parameter `string -> string`, and it is applied only when a variabilization is given.
- The `dynamicText` table from `../config/config.js` is not part of this model. It is a parameter: a sequence of key/value pairs in the table's iteration order. Prototype-chain keys are not modelled.
- `chooseVariables` is only re-exported from `./variabilize.js`.
- `limesurvey/custom.js`, `src/util/parentMessaging.js` and `src/components/BrandLogoNav.js` are not part of this model. They do not take part in the text pipeline.
- Strings are sequences of characters, not UTF-16 code units. `SplitJoin` with an empty key splits into characters, while JavaScript splits into code units. The two agree on text in the Basic Multilingual Plane.
- Substitutions.ReplaceAll: requires a non-empty pattern. The file calls it only with the constants `\neq` and `**`; `replaceAll` with an empty pattern is not modelled.
- The mapper (lines 319-321) is the one entry `oats_user_id`. In the code, `group1 in mapper` at line 328 also holds for names inherited from `Object.prototype`. `%{toString}` then inserts `[object Undefined]`, `%{constructor}` inserts `[object Object]`, and `%{valueOf}` or `%{hasOwnProperty}` throw a `TypeError`. The model keeps every such reference unchanged, because it has no prototype chain.
- The context (line 320) is always present here, and its `userID` is a string. In the code, an undefined context makes `context.userID` throw, and a non-string id is turned into a string when it is inserted. Neither is modelled.
- The `return null` at line 191 is unreachable: every segment has one of the three kinds.

## Behaviour worth noting

The model follows the code at each of these points.

- Money. Line 366 rewrites each dollar amount's `$` to U+FF04, and line 367 rewrites every U+FF04 back to `$` straight away, before anything segments the text. The pair therefore only turns a U+FF04 that was already in the text into `$` (GptPreprocess.MoneyPassFolds). A dollar amount still opens the single-`$` math alternative. In `$5 and $x$` the amount's `$` opens an inline math segment `5 and` (MathSegments.DollarAmountExample).
- Block atomicity on the chat-model path. `renderGPTText` splits with a plain `split(/\r\n|\n|\\n/g)` at line 228, not with `splitPreservingMathBlocks`. A multi-line block on that path is cut into lines: the newlines inside a protected block are kept raw, and the plain split then breaks on them.
- Pattern order. The comment at line 54 says the more specific patterns come first. The pattern at line 57 actually tries `\(`, `$$`, `$`, `\[`, then `\begin{..}`. The order decides nothing, because at most one alternative can start at any position. `\(`, `\[` and `\begin{` differ in their second character, and the single-`$` alternative refuses a second `$`.
- Environment names. The comment at line 17 lists environments as `\begin{...}...\end{...}`. The patterns at lines 21 and 57 take the two names with separate `[^}]+` groups and never compare them. A block therefore ends at the first `\end{..}` of any name (MathSegments.EnvironmentAltIff and MathSegments.EnvironmentExample).
