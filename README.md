# Math text handling of the chat app, in Dafny

The chat app shows a model's replies with their formulas rendered. Before
KaTeX sees a reply, two small pieces of string logic run over it:

- **The renderer's text helpers** (`src/components/MathText.tsx`):
  - `splitTextAndMath` scans a reply with one global regular expression and
    cuts it into `text`, `inline-math` and `block-math` parts. The four
    delimiter pairs are `$$…$$`, `$…$`, `\(…\)` and `\[…\]`.
  - `processBoldText` splits text at `**bold**` runs and renders each piece
    as `<strong>` or `<span>`.
  - `normalizeJacobiTheta` replaces a garbled request for the Jacobi theta
    identity with the identity itself.
- **The formula sanitizer** (`src/utils/mathSanitizer.ts`):
  - `sanitizeMathFormula` applies a first-match-wins rule list: a theta
    request gives a fixed explanation, an overly complex formula gives a fixed
    notice, and anything else passes through.
  - `processApiMathResponse` rewrites every `$$…$$` and `$…$` formula of a
    reply through the sanitizer.
  - `getPrecomputedMathResponse` returns a canned answer to one kind of
    question.

The model is four modules:

- **`JsString`**: the JavaScript string operations used, over `seq<char>`.
  - `includes`, `startsWith` and `endsWith`.
  - `substring`, with its clamping and argument swap.
  - The `match(/c/g)?.length || 0` count.
- **`MathMarkup`**: the meaning of a global scan with the formula regexes.
  - JavaScript's `exec` semantics are coded directly:
    - the earliest start wins;
    - at one start the alternatives are tried in source order, but at most
      one of them can match there, so the order never shows;
    - bodies are non-greedy and non-empty;
    - a `$…$` body excludes `$` and line breaks.
  - The scan becomes a list of segments that remember which delimiter pair
    was used.
  - `String.replace` with a callback is `ReplaceAll`.
  - The theta identity string is shared by both files.
- **`MathText`**: the three helpers of `MathText.tsx`.
  - `SplitTextAndMath` is a method with the source's `while` loop, its
    `lastEnd` cursor and its `push`es. It is proved equal to a function of
    the scan.
- **`MathSanitizer`**: the three functions of `mathSanitizer.ts`.

Behaviour of the code as written that the model keeps and proves:

- A `processBoldText` piece that is exactly `**` or `***` starts and ends
  with `**`. `substring(2, length - 2)` then swaps its arguments, so `**`
  renders as a bold `**` and `***` as a bold `*` (`RenderShortMarkers`).
- An inline `$…$` formula that names the theta function becomes `$`, the
  whole explanation, then `$`. The explanation contains its own `$$…$$`
  formula (`ProcessRequestFormula`).
- The canned answer's identity is an infinite sum. Passed through
  `processApiMathResponse`, it would be replaced by the complexity notice
  (`IdentityIsComplex`, `PrecomputedAnswerSanitized`).
- Nothing in the shown code calls the sanitizer functions. The model treats
  them as standalone functions.

## Model

| member | source | states |
|---|---|---|
| JsString.Substring | src/components/MathText.tsx:77 | `substring` on in-range arguments is the slice between them, with the arguments swapped when start exceeds end |
| JsString.CountChar | src/utils/mathSanitizer.ts:24 | the count of a character never exceeds the length and is zero exactly when the character does not occur |
| MathMarkup.IdentityAscii | src/components/MathText.tsx:93 | the substituted identity is ASCII with no `*` and no `$` |
| MathMarkup.MatchWith | src/components/MathText.tsx:17 | a match of one alternative at a position ends a complete span of that alternative: its delimiters around a body the alternative allows |
| MathMarkup.OneAlternativeAt | src/components/MathText.tsx:17 | at most one of the four alternatives matches at any position, so their order in the pattern never shows |
| MathMarkup.MatchFirst | src/components/MathText.tsx:17 | a match found at a position starts there, uses one of the pattern's alternatives and is a complete span of it |
| MathMarkup.FindMatch | src/components/MathText.tsx:23 | `exec` from the cursor returns a complete span of one of the pattern's alternatives, starting at or after the cursor |
| MathMarkup.InlineClose | src/components/MathText.tsx:17 | the `$…$` body search stops at the first `$`, has no line break before it, and finds that `$` whenever one exists |
| MathMarkup.MatchWithShortest | src/components/MathText.tsx:17 | an alternative matches at a position exactly when a complete span of it starts there, and the match is the shortest such span (non-greedy) |
| MathMarkup.MatchFirstOrder | src/components/MathText.tsx:17 | at one position the first alternative in pattern order that matches is taken; nothing is found only when no alternative matches |
| MathMarkup.NoMatchAt | src/components/MathText.tsx:17 | no match at a position exactly when no complete span of any alternative starts there |
| MathMarkup.FindMatchEarliest | src/components/MathText.tsx:23 | `exec` returns the match at the earliest matching position from the cursor on; no match means no position matches |
| MathMarkup.Segments | src/components/MathText.tsx:23-65 | the scan itself, with no contract of its own: each gap as text, each match as a formula with its delimiters stripped, the scan resumed at the match's end; SegmentsStep, SegmentsRoundTrip and SegmentsWellFormed state its properties |
| MathMarkup.SegmentsStep | src/components/MathText.tsx:23-56 | one scan step: the gap, the match's formula, then the scan resumed at the match's end |
| MathMarkup.SpanText | src/components/MathText.tsx:33-53 | the matched text is the delimiters around the content cut out with `substring` |
| MathMarkup.SegmentsRoundTrip | src/components/MathText.tsx:23-65 | re-assembling the segments, each formula inside its original delimiters, gives back the input exactly |
| MathMarkup.SegmentsWellFormed | src/components/MathText.tsx:23-65 | no empty text segment, never two text segments in a row, every formula non-empty and from the pattern, a `$…$` body without `$` or line break |
| MathMarkup.PlainTail | src/components/MathText.tsx:60-65 | text in which no formula can start is one text segment, or none when empty |
| MathMarkup.WholeFormula | src/components/MathText.tsx:17-65 | input that is exactly the shortest span of one alternative scans as that one formula, for any body the alternative allows |
| MathMarkup.LoneDollar | src/components/MathText.tsx:17 | an unterminated `$` opens no formula; the text stays text |
| MathMarkup.FormulaBetweenText | src/components/MathText.tsx:23-65 | a formula between plain text is read as the text, that formula with its delimiter pair, and the text, for either pattern |
| MathMarkup.ReplaceAll | src/utils/mathSanitizer.ts:52 | `replace` with a global pattern and a callback, with no contract of its own; ReplaceAllSegments and ReplaceAllIdentity state its properties |
| MathMarkup.ReplaceAllIdentity | src/utils/mathSanitizer.ts:52 | a callback that returns every match unchanged leaves the whole text unchanged |
| MathMarkup.ReplaceAllSegments | src/utils/mathSanitizer.ts:52-65 | `replace` with a callback copies the text between matches and passes each match's full text to the callback, without rescanning what it returns |
| MathMarkup.ReplaceOneFormula | src/utils/mathSanitizer.ts:52-65 | with one formula whose body passes `CleanBody` between plain text, only the formula is replaced |
| MathText.FormulaOf | src/components/MathText.tsx:33-53 | each branch's `substring` yields the match with its delimiters stripped: two characters each side, one for `$` |
| MathText.GapPartAppend | src/components/MathText.tsx:25-30 | the gap is pushed exactly when it is non-empty |
| MathText.PartsOfStep | src/components/MathText.tsx:23-56 | one loop iteration appends the gap's part and the formula's part and leaves the rest of the scan |
| MathText.PartsOfTail | src/components/MathText.tsx:60-65 | after the last match the remaining text is one part, or none when empty |
| MathText.SplitTextAndMath | src/components/MathText.tsx:12-68 | the loop's result is the scan's segments as parts: text, `$$…$$`/`\[…\]` as block, `$…$`/`\(…\)` as inline |
| MathText.SplitTextAndMathShaped | src/components/MathText.tsx:23-65 | every part is non-empty and no two text parts are adjacent |
| MathText.EmptyTextParts | src/components/MathText.tsx:60 | empty input gives no parts |
| MathText.OneFormulaParts | src/components/MathText.tsx:23-65 | input that is exactly the shortest span of one alternative gives that one formula part, for any body the alternative allows |
| MathText.ShortestBlock | src/components/MathText.tsx:17 | `$$…$$` with no `$$` pair inside, the closing one included, is a complete and shortest block span |
| MathText.DollarInBlockParts | src/components/MathText.tsx:17 | a lone `$` inside `$$…$$` does not end the block: `$$a$b$$` with `a`, `b` free of `$` and `b` non-empty is one block part with body `a$b` |
| MathText.FormulaBetweenTextParts | src/components/MathText.tsx:23-65 | a formula between plain text gives the text part, the formula part classified by its delimiters, and the text part, an empty text giving none |
| MathText.FormulaInsideTextParts | src/components/MathText.tsx:23-65 | with text on both sides, exactly three parts |
| MathText.LoneDollarParts | src/components/MathText.tsx:17 | a text with a single unterminated `$` is one text part |
| MathText.BracketFormulaParts | src/components/MathText.tsx:48-52 | `\[…\]` is a block part with its delimiters stripped |
| MathText.DoubleDollarParts | src/components/MathText.tsx:17 | `$$x$$` is one block formula: the inline alternative cannot match where `$$` starts, since its body never begins with `$` |
| MathText.BoldAtExact | src/components/MathText.tsx:72 | a bold match is found at a position exactly when `\*\*[^*]+\*\*` matches there |
| MathText.FindBold | src/components/MathText.tsx:72 | the split's search finds the first position where a bold match starts |
| MathText.SplitBold | src/components/MathText.tsx:72 | the split always has an odd number of pieces: one more text piece than bold separators |
| MathText.SplitBoldJoin | src/components/MathText.tsx:72 | the split pieces concatenate back to the input |
| MathText.SplitBoldAlternates | src/components/MathText.tsx:72 | pieces alternate between text without bold markup and bold separators, starting and ending with text |
| MathText.SplitOneBold | src/components/MathText.tsx:72 | one bold run between star-free text splits into exactly three pieces |
| MathText.RenderPiece | src/components/MathText.tsx:75-80 | the render rule for one piece, with no contract of its own; RenderBoldPiece, RenderStarFree, RenderWrapped, RenderPieceRoundTrip and RenderShortMarkers state its behaviour |
| MathText.RenderBoldPiece | src/components/MathText.tsx:75-77 | a separator renders as `<strong>` around its non-empty star-free body, and putting the stars back gives the separator |
| MathText.RenderStarFree | src/components/MathText.tsx:78-80 | a piece without `*` renders as `<span>` |
| MathText.RenderWrapped | src/components/MathText.tsx:75-77 | any piece `**b**` renders as `<strong>` around `b`, even when it is no bold match, such as `**a*b**` or `****` |
| MathText.RenderPieceRoundTrip | src/components/MathText.tsx:74-81 | except for `**` and `***`, putting stars back around a `<strong>` gives the piece |
| MathText.RenderShortMarkers | src/components/MathText.tsx:75-77 | `**` renders as a bold `**` and `***` as a bold `*`, because `substring` swaps its arguments |
| MathText.MarkupRenderAll | src/components/MathText.tsx:74-82 | rendering pieces other than `**` and `***` and writing them back gives their concatenation |
| MathText.ProcessBoldText | src/components/MathText.tsx:71-83 | the rendered nodes are odd in number, one per split piece; ProcessBoldRoundTrip and BoldBetweenText state what they hold |
| MathText.ProcessBoldRoundTrip | src/components/MathText.tsx:71-83 | unless a piece is `**` or `***`, the rendered nodes written back as markdown give the input |
| MathText.BoldBetweenText | src/components/MathText.tsx:71-83 | `p**b**q` with star-free parts renders as span, strong and span |
| MathText.IdentityNotRequest | src/components/MathText.tsx:88-90 | the identity itself does not trigger the normaliser |
| MathText.NormalizeJacobiTheta | src/components/MathText.tsx:86-97 | the result is the input or the fixed identity, and never itself a request |
| MathText.NormalizeIdempotent | src/components/MathText.tsx:86-97 | normalising twice equals normalising once |
| MathText.NormalizeChanges | src/components/MathText.tsx:88-96 | the formula changes exactly when it is a request (names the theta function, or contains `sum`, `prod`, `*n*=` and `*q*`) other than the identity |
| MathSanitizer.ThetaRequest | src/utils/mathSanitizer.ts:8-13 | the request test, with no contract of its own: one of the four names occurs; ReplacementIsRequest, IdentityNotRequest and NameIsRequest state its behaviour |
| MathSanitizer.TooComplex | src/utils/mathSanitizer.ts:22-37 | the complexity test, with no contract of its own: brace, length, subscript and infinite-sum limits; CountThreshold, LengthThreshold, AstralLengthThreshold and IdentityIsComplex state its thresholds |
| MathSanitizer.SanitizeMathFormula | src/utils/mathSanitizer.ts:6-43 | the result is the input, the fixed explanation or the fixed notice; it is the explanation exactly when the formula is a theta request, whatever its complexity, and the notice when it is no request but too complex |
| MathSanitizer.ReplacementIsRequest | src/utils/mathSanitizer.ts:8-18 | the explanation itself names the theta function |
| MathSanitizer.QuietKept | src/utils/mathSanitizer.ts:8-40 | a string of at most 500 UTF-16 units without any looked-for character triggers neither rule |
| MathSanitizer.PlaceholderKept | src/utils/mathSanitizer.ts:22-39 | the notice triggers neither rule |
| MathSanitizer.SanitizeIdempotent | src/utils/mathSanitizer.ts:6-43 | sanitizing twice equals sanitizing once |
| MathSanitizer.SanitizeKeeps | src/utils/mathSanitizer.ts:6-43 | a formula is kept exactly when it is the explanation or triggers neither rule |
| MathSanitizer.IdentityMentionsInfiniteSum | src/utils/mathSanitizer.ts:35-36 | the identity contains `\sum` and `\infty` |
| MathSanitizer.IdentityNotRequest | src/utils/mathSanitizer.ts:8-13 | the identity names none of the four theta triggers |
| MathSanitizer.IdentityIsComplex | src/utils/mathSanitizer.ts:22-40 | sanitizing the identity yields the notice |
| MathSanitizer.RunNotRequest | src/utils/mathSanitizer.ts:8-13 | a run of one ordinary character names no trigger and no sum or product |
| MathSanitizer.CountThreshold | src/utils/mathSanitizer.ts:24-32 | a run of `{` or `}` is flagged exactly above 10, a run of `_` or `^` exactly above 20, and kept otherwise |
| MathSanitizer.LengthThreshold | src/utils/mathSanitizer.ts:28 | a run of `x` is flagged exactly when longer than 500 characters, and kept otherwise |
| MathSanitizer.AstralLengthThreshold | src/utils/mathSanitizer.ts:28 | a run of `𝑥`, two UTF-16 units each, is flagged exactly when longer than 250 characters, that is 500 units, and kept otherwise |
| JsString.Utf16Length | src/utils/mathSanitizer.ts:28 | `length` counts UTF-16 units: at least one and at most two per character |
| JsString.Utf16Repeat | src/utils/mathSanitizer.ts:28 | a run of `n` copies of a character is `n` units long, or `2n` for a character outside the Basic Multilingual Plane |
| MathSanitizer.SanitizeSegment | src/utils/mathSanitizer.ts:52-65 | text stays text and a formula stays a formula |
| MathSanitizer.RewriteMatch | src/utils/mathSanitizer.ts:52-65 | the replacement callback, with no contract of its own; RewriteBranch, RewriteFormula and RewrittenSanitized state its behaviour |
| MathSanitizer.RewriteBranch | src/utils/mathSanitizer.ts:53-62 | a `$$…$$` match takes the block branch, a `$…$` match the inline branch, and each cuts out the formula's body |
| MathSanitizer.RewriteFormula | src/utils/mathSanitizer.ts:52-65 | the callback puts the original delimiters back around the sanitized body |
| MathSanitizer.RewrittenSanitized | src/utils/mathSanitizer.ts:52-65 | on a well-formed scan, the callback's rewriting equals sanitizing every formula body |
| MathSanitizer.ProcessApiMathResponse | src/utils/mathSanitizer.ts:48-66 | the reply-wide pass, with no contract of its own; ProcessApiSegments and ProcessKeepsStable state its behaviour |
| MathSanitizer.ProcessApiSegments | src/utils/mathSanitizer.ts:48-66 | the result is the reply's segments, each formula body sanitized, put back together |
| MathSanitizer.ProcessKeepsStable | src/utils/mathSanitizer.ts:52-65 | if the sanitizer keeps every formula body, the reply comes back exactly |
| MathSanitizer.SanitizeAllStable | src/utils/mathSanitizer.ts:52-65 | sanitizing segments that the sanitizer keeps changes nothing |
| MathSanitizer.ProcessFormulaInText | src/utils/mathSanitizer.ts:52-65 | with one formula between plain text, only the body is sanitized, inside its delimiters |
| MathSanitizer.ProcessRequestFormula | src/utils/mathSanitizer.ts:52-65 | a reply that is exactly one formula, for any body the pattern allows, whose body names the theta function becomes the explanation inside that formula's delimiters |
| MathSanitizer.ProcessKeptFormula | src/utils/mathSanitizer.ts:52-65 | a formula the sanitizer keeps leaves the whole reply unchanged |
| MathSanitizer.NameIsRequest | src/utils/mathSanitizer.ts:11 | `θ関数恒等式` alone is a request |
| MathSanitizer.SimpleKept | src/utils/mathSanitizer.ts:42 | `x^2` passes through |
| MathSanitizer.ProcessSimpleFormula | src/utils/mathSanitizer.ts:48-66 | a simple inline formula in a sentence leaves the reply unchanged |
| MathSanitizer.GetPrecomputedMathResponse | src/utils/mathSanitizer.ts:71-86 | an answer is returned exactly when the message contains `ヤコビのθ関数`, `表示`, and `説明とか不要` or `説明不要`; the answer is always the fixed canned text |
| MathSanitizer.PrecomputedTriggers | src/utils/mathSanitizer.ts:73-85 | a message with all three conditions gets the answer; one without the "no explanation" phrase gets none |
| MathSanitizer.PrecomputedAnswerSegments | src/utils/mathSanitizer.ts:78-82 | the canned answer scans as its heading followed by the identity as one block formula |
| MathSanitizer.PrecomputedAnswerSanitized | src/utils/mathSanitizer.ts:78-82 | passed through the reply sanitizer, the canned answer's identity becomes the notice |

## Left out

- The `MathText` and `SafeMathComponent` React components (src/components/MathText.tsx:99-184) are not modelled. They cover KaTeX rendering, the `setTimeout` soft timeout, user-agent mobile detection and effects: a foreign library, timing and UI.
- React keys and the element types of `processBoldText` are not modelled. A rendered piece is a `Strong` or `Normal` node holding its text.
- `FallbackMathDisplay.tsx`, `page.tsx`, `layout.tsx` and `api/chat/route.ts` are not part of this model. They hold UI, network I/O and an HTTP handler that calls neither the sanitizer nor the lookup.
- General regular expressions are not modelled. Only the two formula patterns and the bold pattern are, coded as scanners.
- Strings are sequences of Unicode characters. JavaScript `length` and indices count UTF-16 units. Every cut the code makes is next to an ASCII delimiter, so the cuts agree. The one place where the count matters, `formula.length > 500`, is modelled with `Utf16Length`.
- RenderPieceRoundTrip: excludes the pieces `**` and `***`, which do not round-trip. RenderShortMarkers states what they render to instead.
- ProcessBoldRoundTrip: holds only when no split piece is `**` or `***`, for the same reason.
- MarkupRenderAll: holds only when no piece is `**` or `***`, for the same reason.
- FormulaBetweenText: stated only for text free of `$` and backslashes around one formula whose body passes `CleanBody`. A `$$…$$` body there has no `$` at all, although only a `$$` pair ends it; WholeFormula and DollarInBlockParts cover a lone `$` inside. The general case is SegmentsRoundTrip and SegmentsWellFormed.
- FormulaBetweenTextParts: stated only for text free of `$` and backslashes around a body that passes `CleanBody`, for the same reason.
- FormulaInsideTextParts: stated only for text free of `$` and backslashes around a body that passes `CleanBody`, for the same reason.
- LoneDollar: stated only for text free of other `$` and backslashes. An unterminated `$` elsewhere is covered by the general scan.
- LoneDollarParts: stated only for text free of other `$` and backslashes, for the same reason.
- ProcessFormulaInText: stated only for plain text around one formula whose body passes `CleanBody`. A `$$…$$` body there has no `$` at all, although only a `$$` pair ends it; WholeFormula and DollarInBlockParts cover a lone `$` inside. The general reply is ProcessApiSegments.
- ReplaceOneFormula: stated only for plain text around one formula whose body passes `CleanBody`, for the same reason as FormulaBetweenText. The general case is ReplaceAllSegments.
- ProcessKeptFormula: stated only for plain text around one formula whose body passes `CleanBody`, for the same reason. The general reply is ProcessKeepsStable.
- CountThreshold: each threshold is shown on a run of that one character. SanitizeKeeps states the rule for every formula.
- LengthThreshold: the length threshold is shown on runs of `x`. SanitizeKeeps states the rule for every formula.
- AstralLengthThreshold: the unit count is shown on runs of `𝑥`. SanitizeKeeps states the rule for every formula.
