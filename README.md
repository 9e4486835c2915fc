# parseMessageContent, modelled in Dafny

The chat front end renders each assistant reply by splitting its text into
prose and code. `parseMessageContent` (src/Chat.jsx) does the split. It
scans the message with the global pattern `/```(?:\w+)?\n?([\s\S]*?)```/g`.
For every fenced block it pushes the trimmed prose before the block, when
that stretch is non-empty, and then the trimmed body of the block as code.
After the loop it pushes the trimmed rest of the message. Finally it drops
every span whose content is the empty string.

The project has four modules:

- `Trimming` models `String.prototype.trim`. Whitespace is an explicit
  predicate over the ECMAScript white-space and line-terminator characters.
- `FencePattern` gives the concrete semantics of the fixed pattern:
  - `MatchAt` is the attempt the backtracking engine makes at one position.
    It takes the longest language tag, then the line feed if there is one,
    then the shortest body up to the first closing fence.
  - `RegexPreference` shows that this attempt is the parse the engine
    prefers among all parses, and that no parse exists when it fails.
  - `FirstMatch` is `regex.exec` from a given `lastIndex`: the leftmost match.
- `Segmenter` holds the span datatype and the scanning loop as an imperative
  method, `ParseMessageContent`. The method is proved equal to `Parse`, the
  specification function: `RawParts` describes the pushes of the loop and
  `KeepNonEmpty` the final filter.
- `SegmenterProperties` proves what the renderer relies on: every span is
  non-empty and trimmed; spans appear in message order; fence-free and
  unterminated messages are plain text; a block's tag and line feed never
  reach the code; and the greedy tag swallows a one-word block.

Two consequences of the greedy language tag are easy to miss:

- One might expect "```code```" to render as a code span "code". It does
  not: the greedy `(?:\w+)?` reads `code` as the language tag, so the body
  is empty and the filter drops it. The message renders as no span at all.
- For the same reason "pre ```x``` post" renders as the text spans "pre"
  and "post" only, with no code span between them.

`WordBodySwallowed`, `WordBodySwallowedBetweenProse` and
`PreWordPostExample` state this behaviour.

## Model

| member | source | states |
|---|---|---|
| Segmenter.ParseMessageContent | src/Chat.jsx:5-35 | the loop over `regex.exec`, the pushes, the tail and the filter return exactly `Parse(text)`; the loop keeps `parts + RawParts(text, lastIndex) == RawParts(text, 0)` and terminates because `lastIndex` strictly grows |
| Segmenter.RawPartsStep | src/Chat.jsx:11-25 | one turn of the loop (optional text push, code push, `lastIndex` moved past the closing fence) preserves the pushed spans followed by the spans still to come |
| Segmenter.MatchSpans | src/Chat.jsx:12-22 | no contract of its own: the pushes for one match; `KeepMatchSpans` and `MatchSpansInOrder` state what they are and where they sit |
| Segmenter.TailSpans | src/Chat.jsx:27-32 | no contract of its own: the push after the loop; `KeepTail` and `UnterminatedRest` state what it is |
| Segmenter.RawParts | src/Chat.jsx:11-32 | no contract of its own: the spans pushed from a given `lastIndex`; `RawPartsStep` ties it to one turn of the loop, `RawPartsTrimmed` and `RawPartsInOrder` state its promises |
| Segmenter.KeepNonEmpty | src/Chat.jsx:34 | no contract of its own: the filter; `KeepNonEmptyMembers` and `KeepNonEmptyAppend` state which spans survive and in what order |
| Segmenter.Parse | src/Chat.jsx:5-35 | no contract of its own: the value returned; `ParseMessageContent` is proved to return it, and `ParseSpansTrimmedNonEmpty`, `ParseInOrder`, `NoFenceParse`, `UnterminatedParse` and `OneFenceParse` state what it is |
| Segmenter.KeepNonEmptyAppend | src/Chat.jsx:34 | the filter distributes over concatenation, so it keeps the relative order of the spans it lets through |
| Segmenter.KeepNonEmptyMembers | src/Chat.jsx:34 | a span survives the filter if and only if it was pushed and its content is not the empty string |
| FencePattern.TagEnd | src/Chat.jsx:7 | the greedy `\w+` stops at the first non-word character, with only word characters before it |
| FencePattern.BodyStart | src/Chat.jsx:7 | the capture group starts where a parse of `(?:\w+)?\n?` after the opening fence ends (some tag, then the line feed or nothing), no such parse ends later, and no backtick is skipped |
| FencePattern.TagParse | src/Chat.jsx:7 | no contract of its own: what `(?:\w+)?\n?` reads after the opening fence; `BodyStart` states that its result ends the longest such reading |
| FencePattern.IsWordChar | src/Chat.jsx:7 | no contract of its own: `\w` without the `u` flag, ASCII letters, digits and underscore; `TagEnd` and `BodyStart` state what the tag consumes with it |
| FencePattern.FenceAt | src/Chat.jsx:7 | no contract of its own: three backticks at a position; `FindFence`, `MatchAt` and `NoCloseNoLaterMatch` state where fences open and close a match |
| FencePattern.Candidate | src/Chat.jsx:7 | no contract of its own: any parse of the whole pattern at a position, the reference definition `RegexPreference` compares `MatchAt` against |
| FencePattern.FindFence | src/Chat.jsx:7 | the lazy body ends at the first "```" at or after its start, and none occurs when the search fails |
| FencePattern.MatchAt | src/Chat.jsx:7 | a match at `p` has fences at `p` and at its close, a body between them, and is a parse of the pattern |
| FencePattern.RegexPreference | src/Chat.jsx:7 | every parse at `p` has a body start no later than the greedy one, and no earlier close when the starts agree; when the greedy attempt fails there is no parse at all |
| FencePattern.NoCloseNoLaterMatch | src/Chat.jsx:7-11 | an opening fence with no closing fence after its body start means the pattern matches nowhere from it on, even with four or more backticks |
| FencePattern.FirstMatch | src/Chat.jsx:7-11 | `regex.exec` from `lastIndex` returns the leftmost match at or after it, and `null` only when there is none |
| Trimming.IsWhitespace | src/Chat.jsx:15 | no contract of its own: the characters `trim` removes, the ECMAScript white-space and line-terminator code points; `TrimIsSlice`, `TrimUnique` and `TrimEmptyIff` state how `Trim` uses it |
| Trimming.SkipLeading | src/Chat.jsx:15 | the leading whitespace run ends at the first non-whitespace character |
| Trimming.SkipTrailing | src/Chat.jsx:15 | the trailing whitespace run starts after the last non-whitespace character |
| Trimming.Trim | src/Chat.jsx:15 | the result of `trim` has no whitespace at either end |
| Trimming.TrimIsSlice | src/Chat.jsx:15 | `trim` returns a contiguous slice of its input with only whitespace removed on either side |
| Trimming.TrimUnique | src/Chat.jsx:21 | trimming a trimmed core padded with any whitespace gives back exactly that core |
| Trimming.TrimmedIsFixed | src/Chat.jsx:30 | a trimmed string is a fixed point of `trim` |
| Trimming.TrimIdempotent | src/Chat.jsx:15 | `trim` is idempotent |
| Trimming.TrimEmptyIff | src/Chat.jsx:30 | `trim` yields "" if and only if its input is all whitespace |
| SegmenterProperties.RawPartsTrimmed | src/Chat.jsx:11-32 | every span the loop and the tail push has trimmed content |
| SegmenterProperties.ParseSpansTrimmedNonEmpty | src/Chat.jsx:12-34 | every returned span has non-empty content that is its own trim |
| SegmenterProperties.NoFenceParse | src/Chat.jsx:27-34 | a message with no "```" is one trimmed text span, or nothing when it is all whitespace |
| SegmenterProperties.EmptyMessage | src/Chat.jsx:5-35 | the default empty message yields no spans |
| SegmenterProperties.UnterminatedRest | src/Chat.jsx:11-32 | once the first fence from `lastIndex` is never closed, the loop stops and the rest is pushed as one text span |
| SegmenterProperties.UnterminatedParse | src/Chat.jsx:11-34 | a message whose first fence is never closed renders as plain text, never as code |
| SegmenterProperties.LoneFenceParse | src/Chat.jsx:11-34 | a message made of an opening fence and text without a backtick renders as one trimmed text span, the message itself when already trimmed |
| SegmenterProperties.UnterminatedExample | src/Chat.jsx:27-32 | "``` unterminated" renders as itself, one text span |
| SegmenterProperties.FirstMatchAt | src/Chat.jsx:7-11 | position-level layout of one fenced block determines the match `regex.exec` reports from 0 |
| SegmenterProperties.OneFenceLayout | src/Chat.jsx:7 | where the prose, fences, tag, line feed and body sit in a message assembled around one fenced block |
| SegmenterProperties.OneFenceMatch | src/Chat.jsx:7-11 | in such a message the match starts at the fence and its capture group is exactly the body: the tag and line feed are outside it |
| SegmenterProperties.OneFenceParse | src/Chat.jsx:11-34 | one fenced block renders as the prose before it, its trimmed body as code, then the prose after it, each dropped when it trims to "" |
| SegmenterProperties.ParseOneMatch | src/Chat.jsx:11-34 | a message the pattern matches once, with no backtick after the match, renders as prose, code, prose |
| SegmenterProperties.KeepMatchSpans | src/Chat.jsx:12-22 | the spans one match pushes, filtered, are its non-empty trimmed prose then its non-empty trimmed code |
| SegmenterProperties.KeepTail | src/Chat.jsx:27-34 | the tail push, filtered, is the non-empty trimmed rest of the message |
| SegmenterProperties.RawPartsOneMatch | src/Chat.jsx:11-32 | with no backtick after the only match, the loop runs once and then pushes the tail |
| SegmenterProperties.TagAndNewlineDropped | src/Chat.jsx:7 | a block "```" tag "\n" code "\n```" renders as the single code span `code`: neither the tag nor the line feeds reach it |
| SegmenterProperties.JsBlockExample | src/Chat.jsx:7-22 | "```js\nconsole.log(1)\n```" renders as the single code span "console.log(1)" |
| SegmenterProperties.WordBodySwallowed | src/Chat.jsx:7 | "```code```" renders as nothing, because the greedy tag takes the word |
| SegmenterProperties.SwallowedBlock | src/Chat.jsx:7 | a block holding just a word leaves only the prose around it |
| SegmenterProperties.WordBodySwallowedBetweenProse | src/Chat.jsx:7-34 | prose, a one-word block and prose render as the two text spans only, as "pre ```x``` post" renders as "pre" and "post" |
| SegmenterProperties.PreWordPostExample | src/Chat.jsx:7-34 | "pre ```x``` post" renders as exactly the text spans "pre" and "post" |
| SegmenterProperties.BlankBlockDropped | src/Chat.jsx:19-34 | a block whose body is only whitespace contributes no span |
| SegmenterProperties.TextSpanReparses | src/Chat.jsx:5-35 | re-parsing a returned fence-free text span gives back that span alone |
| SegmenterProperties.MatchSpansInOrder | src/Chat.jsx:12-22 | the prose and code pushed for one match occur in the message in that order, inside the stretch the match covers |
| SegmenterProperties.RawPartsInOrder | src/Chat.jsx:11-32 | the pushed spans occur in the message left to right without overlapping |
| SegmenterProperties.InOrderFilter | src/Chat.jsx:34 | the filter keeps spans in message order |
| SegmenterProperties.ParseInOrder | src/Chat.jsx:5-35 | the returned spans occur in the message left to right without overlapping |

## Left out

- The React component `Chat` and its state, effects and rendering (src/Chat.jsx:37-187) are outside the parser and are not modelled.
- `sendMessage` and its axios request to the chat back end (src/Chat.jsx:47-84) are network I/O and are not modelled.
- `handleKeyPress` and `handleNewChat` (src/Chat.jsx:86-93) are UI event handlers and are not modelled.
- The general regular-expression engine is left out. Only the one fixed pattern is modelled, by its concrete semantics.
- JavaScript strings are UTF-16 code units; the model works on Unicode scalar values (Dafny `char`). A surrogate pair counts as one character here and as two in the source, and a string holding an unpaired surrogate is outside the model's inputs, since a Dafny `char` cannot hold one. For this pattern and `trim` that changes positions only, not which spans come out, because neither backticks, word characters nor whitespace are surrogates.
- A non-string argument (`null`, a number) is coerced or throws in the source. The model takes a string; the default parameter is covered by `EmptyMessage`.
- Segmenter.ParseMessageContent: the `{type, content}` objects are modelled as the `Span` datatype, and the `lastIndex` field of the regex object as a local variable.
