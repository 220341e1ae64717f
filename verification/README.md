# Grammar fixer: a Dafny model

This project models the two pieces of logic in the grammar-fixer web app.

**The local corrector.** `fixGrammarAndTypos` (app/page.tsx:12-54) is a pure
`string -> string` function. It has three stages:

- a blank-input short-circuit;
- eighteen whole-word `replace` calls, for typos, the pronoun "i" and its
  contractions;
- five formatting passes: collapse whitespace, capitalise sentence starts,
  drop whitespace before punctuation, add a space after punctuation, trim.

**The correction endpoint.** `POST` (app/api/fix/route.ts:3-64) validates a
request, calls the upstream generative-language service and relays its answer.

The page's debounce effect (app/page.tsx:68-82) is modelled too, as a small
state machine.

Modules:

- `Text`: ECMAScript character classes and `String.prototype.trim`.
  - `\s` and `trim` use the full WhiteSpace and LineTerminator set.
  - `\w` and `\b` are ASCII.
  - The `i` flag is ASCII case folding. Every pattern is ASCII, so this is
    exact.
  - Also `Visible` (the non-whitespace characters of a text) and case folding.
- `Shape`: the local neighbourhood properties the corrector promises. A text
  is `Normalised` when:
  - it is trimmed;
  - it has only U+0020 spaces, never two in a row;
  - no whitespace comes before `,.!?;:`;
  - no letter comes right after `,.!?;:`;
  - no lone lower-case `i` is left.
- `WordRules`: lines 17-36 as a table of `Rule`s.
  - A global replace is a left-to-right scan. It resumes after each match and
    reads word boundaries from the original text.
  - The lookahead of line 29 takes the whole whitespace run, then needs only a
    prefix of an alternative. So "your another" becomes "You're another".
- `Spacing`: the passes of lines 39, 42, 45, 48 and 51. Each pass has its
  guarantee, the properties it keeps, and the text it leaves alone.
- `Corrector`: `Fix`, the whole function, and its end-to-end theorems.
- `CorrectorExamples`: concrete runs, including the proof that `Fix` is not
  idempotent. The capital letter check of line 42 runs before line 48 inserts
  the space after a full stop:
  - `Fix("hello.world") == "Hello. world"`;
  - `Fix("Hello. world") == "Hello. World"`.

  This holds even though "hello.world" contains none of the listed typos. An
  idempotence claim restricted to such text is therefore false of the code, and
  the model follows the code.
- `Editor`: the debounce effect, driven by two events.
  - `SetInput(text)`: React state update of the input.
  - `TimerFire`: the 400 ms timer elapses.
  - Setting the input to its current value changes nothing: React bails out of
    the update, and the effect does not re-run.
  - A cleared timer never fires.
- `JsStrings`: `String.prototype.length` in UTF-16 code units, and decimal
  rendering of numbers in template literals.
- `FixRoute`: the endpoint as a pure function.
  - Inputs: the environment key, the parsed request body and the upstream
    outcome.
  - Output: the upstream request sent, if any, and the response.
  - Every exception the handler catches at lines 60-62 becomes the generic
    500. The model tells apart these throwing cases:
    - a body that is not JSON;
    - JSON `null`, whose destructuring throws;
    - a truthy `text` that is not a string and whose `length` comparison
      (line 16) or template-literal rendering (line 27) throws, such as an
      object whose `toString` is not callable;
    - a rejected `fetch`;
    - an unreadable reply;
    - an answer that is not a string;
    - an upstream status `NextResponse.json` refuses: one outside 200..599
      (a RangeError of the Fetch `Response` constructor), or a null-body
      status of the Fetch standard (101, 103, 204, 205, 304), for which a
      JSON body is a TypeError. Of these only 304 and statuses outside
      200..599 can be non-ok.
  - The request body is parsed (line 5) before the key is checked (line 8).
    So a malformed body with no key configured gets the generic 500, not the
    key message.

## Model

| member | source | states |
|---|---|---|
| Text.Trim | app/page.tsx:51 | the result is the slice between the leading and the trailing ECMAScript whitespace; it neither starts nor ends with whitespace, and it is empty exactly when the input is blank |
| Text.TrimKeepsVisible | app/page.tsx:51 | trimming never removes a non-whitespace character |
| WordRules.NoMatchKeeps | app/page.tsx:17-36 | a replace whose pattern matches nowhere after the scan position leaves the text unchanged |
| WordRules.RewriteCopies | app/page.tsx:17-36 | a stretch where the pattern matches at no position is copied into the output unchanged |
| WordRules.ApplyRuleSplit | app/page.tsx:17-36 | for any rule, lookahead included, a text cut where no word is split, no occurrence runs across the cut and the lookahead sees the same on the left, is replaced piece by piece |
| WordRules.ApplyRuleAppend | app/page.tsx:17-36 | for a plain `\bword\b` rule, replacing in a text cut at a non-word/word seam is replacing in each piece |
| WordRules.WholeWordReplaced | app/page.tsx:17-28 | every whole-word occurrence of a rule's word, in any case when the `i` flag is set, becomes the replacement and the text around it is handled independently |
| WordRules.YourRewritten | app/page.tsx:29 | a whole-word `your` in any case becomes `you're` exactly when a whitespace run and then one of `a`, `an`, `the`, `going`, `coming`, `doing` (as a prefix) follow it, is kept as it was otherwise, and the text on either side is handled independently |
| WordRules.ContractionReplaced | app/page.tsx:33-36 | every whole-word occurrence of `i'm`, `i'll`, `i've` or `i'd`, in any case, becomes its capitalised form and the text around it is handled independently |
| WordRules.ItsAlwaysRewritten | app/page.tsx:28 | every standalone lower-case `its` becomes `it's`, possessive or not |
| WordRules.PronounIRewritten | app/page.tsx:32 | every standalone lower-case `i` becomes `I` |
| WordRules.PronounIRemovesLoneI | app/page.tsx:32 | after the pronoun rule no lower-case `i` stands alone between word boundaries |
| WordRules.PronounIIdle | app/page.tsx:32 | on text with no lone `i` the pronoun rule changes nothing |
| WordRules.RulesKeepNoLoneI | app/page.tsx:33-36 | rules that never write a lower-case `i` cannot bring back a lone `i` |
| WordRules.AllRulesLeaveNoLoneI | app/page.tsx:17-36 | after the whole rule table (typos, pronoun, contractions) no lone `i` is left, whatever the input |
| WordRules.RulesIdleWithoutWordChars | app/page.tsx:17-36 | text with no word character passes through the rule table unchanged |
| WordRules.RulesKeepSomethingVisible | app/page.tsx:17-36 | the rules never turn text with a visible character into blank text |
| Spacing.CollapseSpaces | app/page.tsx:39 | the result has only U+0020 whitespace, never two whitespace characters in a row, and is empty only for empty input |
| Spacing.CollapseJoinsRun | app/page.tsx:39 | a whole whitespace run between two non-whitespace pieces becomes exactly one space, and each piece is collapsed on its own |
| Spacing.CollapseAppend | app/page.tsx:39 | cut anywhere outside a whitespace run, a text is collapsed piece by piece |
| Spacing.CollapseKeepsVisible | app/page.tsx:39 | collapsing whitespace keeps every non-whitespace character, in order |
| Spacing.CollapseFixesNormalText | app/page.tsx:39 | text already spaced with single U+0020 is left as it is |
| Spacing.CollapseKeepsNoLoneI | app/page.tsx:39 | collapsing whitespace cannot create a lone `i` |
| Spacing.CapitaliseSentences | app/page.tsx:42 | same length; a character is upper-cased exactly when it is a lower-case ASCII letter at the start of the text or right after a `. ` that the scan reaches, and every other character is kept |
| Spacing.CapitaliseKeepsShape | app/page.tsx:42 | capitalising keeps every spacing property and the absence of a lone `i` |
| Spacing.CapitaliseKeepsVisibleUpToCase | app/page.tsx:42 | capitalising changes only the case of letters |
| Spacing.DropSpaceBeforePunct | app/page.tsx:45 | no whitespace directly precedes `,.!?;:` in the result |
| Spacing.DropCopies | app/page.tsx:45 | a stretch in which no whitespace run ends in punctuation is copied into the output unchanged, its whitespace included |
| Spacing.DropRemovesRun | app/page.tsx:45 | a whole whitespace run directly before punctuation disappears, and the text on either side is handled independently |
| Spacing.DropSpaceSeparates | app/page.tsx:45 | from any point of the scan on, the output has no whitespace directly before `,.!?;:`, because a run is dropped whenever punctuation ends it |
| Spacing.DropKeepsDoubleSpaceFree | app/page.tsx:45 | removing whitespace cannot make two whitespace characters adjacent |
| Spacing.DropKeepsPlainSpaces | app/page.tsx:45 | the pass only deletes, so all whitespace stays U+0020 |
| Spacing.DropKeepsNoLoneI | app/page.tsx:45 | the pass cannot create a lone `i` |
| Spacing.DropKeepsVisible | app/page.tsx:45 | only whitespace is removed |
| Spacing.DropFixesCleanText | app/page.tsx:45 | text with no whitespace before punctuation is left as it is |
| Spacing.SpaceAfterPunct | app/page.tsx:48 | no `,.!?;:` is directly followed by an ASCII letter in the result |
| Spacing.SpaceAfterPunctSeparates | app/page.tsx:48 | from any point of the scan on, the output has no `,.!?;:` directly followed by an ASCII letter |
| Spacing.SpaceAfterPunctKeepsSpacing | app/page.tsx:48 | inserting the space creates neither a double space nor a space before punctuation |
| Spacing.SpaceAfterPunctKeepsPlainSpaces | app/page.tsx:48 | the inserted whitespace is U+0020 |
| Spacing.SpaceAfterPunctKeepsNoLoneI | app/page.tsx:48 | the pass cannot create a lone `i` |
| Spacing.SpaceAfterPunctKeepsVisible | app/page.tsx:48 | only spaces are inserted |
| Spacing.SpaceAfterPunctCopies | app/page.tsx:48 | a stretch with no punctuation-then-letter pair is copied verbatim |
| Spacing.SpaceAfterPunctFixesCleanText | app/page.tsx:48 | text with no punctuation-then-letter pair is left as it is |
| Spacing.TrimKeepsShape | app/page.tsx:51 | the trimmed text is trimmed and keeps every spacing property and the absence of a lone `i` |
| Spacing.TrimFixesTrimmedText | app/page.tsx:51 | trimming already trimmed text changes nothing |
| Corrector.Fix | app/page.tsx:12-54 | blank input (per `trim`) gives the empty string |
| Corrector.FixEmptyIffBlank | app/page.tsx:12-54 | the result is empty exactly when the input is blank |
| Corrector.BlankCheckIsShortcut | app/page.tsx:13 | the early return changes no result: the full pipeline would also give the empty string |
| Corrector.WordRulesLeaveNoLoneI | app/page.tsx:17-36 | after lines 17-36 no lone lower-case `i` is left |
| Corrector.FormatNormalises | app/page.tsx:39-51 | the formatting passes turn any text without a lone `i` into normalised text |
| Corrector.FixNormalises | app/page.tsx:12-54 | every result is normalised: trimmed, only single U+0020 spaces, no whitespace before and no letter right after `,.!?;:`, no lone `i` |
| Corrector.FormatKeepsWords | app/page.tsx:39-51 | up to case, the formatting passes keep the non-whitespace characters in order |
| Corrector.FixKeepsWords | app/page.tsx:12-54 | up to case and whitespace, the result is exactly what the word rules make of the input |
| Corrector.FormatKeepsFinishedText | app/page.tsx:39-51 | normalised text with no sentence start to capitalise is a fixed point of the passes |
| CorrectorExamples.EmailExample | app/page.tsx:13-51 | `i recieve alot of emails` becomes `I receive a lot of emails` |
| CorrectorExamples.AnotherExample | app/page.tsx:29 | `your another` becomes `You're another`: the lookahead needs only a prefix of the next word |
| CorrectorExamples.FirstPassOnRunOnSentence | app/page.tsx:39-51 | `hello.world` becomes `Hello. world`: the second sentence stays lower-case |
| CorrectorExamples.SecondPassOnRunOnSentence | app/page.tsx:39-51 | `Hello. world` becomes `Hello. World` |
| CorrectorExamples.FixIsNotIdempotent | app/page.tsx:42-48 | correcting the correction of `hello.world` changes it again |
| Editor.Step | app/page.tsx:68-82 | every event keeps the page invariant; a new input is recorded; a timer event leaves no timer outstanding |
| Editor.Run | app/page.tsx:68-82 | any sequence of events keeps the page invariant |
| Editor.ReachableInv | app/page.tsx:68-82 | in every state reachable from mount, the indicator is on exactly while a timer for the current, non-blank input is outstanding, and otherwise the output is the correction of the current input |
| Editor.BlankInputClears | app/page.tsx:77-80 | changing the input to a blank text clears the output and the indicator at once, and no later timer event changes that |
| Editor.NewInputReschedules | app/page.tsx:69-76 | a new non-blank input turns the indicator on and replaces any outstanding timer by one for the new input, keeping the old output meanwhile |
| Editor.TimerShowsCorrection | app/page.tsx:71-74 | the timer shows the correction of the current input and turns the indicator off |
| Editor.LastInputWins | app/page.tsx:68-82 | after a burst of typing and the timer, the output is the correction of the last value typed |
| JsStrings.Utf16Length | app/api/fix/route.ts:16 | the length is at least the number of characters and at most twice it |
| JsStrings.Utf16LengthCountsUnits | app/api/fix/route.ts:16 | the length is the number of UTF-16 code units of the text |
| JsStrings.Utf16LengthOfBmp | app/api/fix/route.ts:16 | for Basic Multilingual Plane text the length is the number of characters |
| JsStrings.Utf16RoundTrip | app/api/fix/route.ts:16 | decoding the UTF-16 form gives back the text |
| JsStrings.DecimalRoundTrip | app/api/fix/route.ts:51 | reading the rendered digits of a status gives back the status |
| JsStrings.DecimalInjective | app/api/fix/route.ts:51 | different statuses render differently |
| FixRoute.Prompt | app/api/fix/route.ts:27 | the prompt is the fixed instructions, the user text verbatim, then the closing quote and the answer cue |
| FixRoute.PromptRoundTrip | app/api/fix/route.ts:27 | the user text can be read back from the prompt |
| FixRoute.PromptInjective | app/api/fix/route.ts:27 | different texts give different prompts |
| FixRoute.UpstreamErrorMessage | app/api/fix/route.ts:51 | the message starts with `Gemini API error: `, then the status text, and ends with `)` |
| FixRoute.UpstreamErrorNamesStatus | app/api/fix/route.ts:50-52 | the digits in parentheses read back as the upstream status |
| FixRoute.FixedText | app/api/fix/route.ts:56 | the extracted text is never empty, and extraction fails exactly when the first part's text is not a string |
| FixRoute.Relay | app/api/fix/route.ts:34-58 | the status is always one a response can carry, and a successful answer is status 200 with non-empty text |
| FixRoute.Post | app/api/fix/route.ts:3-64 | the response status is always valid, and a request goes upstream only for a parsed body, carrying the configured key and the prompt for its text |
| FixRoute.SentIffAccepted | app/api/fix/route.ts:8-40 | an upstream request is sent exactly when the body parses, a non-empty key is set, the text is truthy, its length comparison and rendering do not throw and it is not over 8000 long; the request then carries the key and the prompt for the rendered text |
| FixRoute.AcceptedPost | app/api/fix/route.ts:8-58 | an accepted request goes upstream with the key and the prompt for its text, and the response is what the relay makes of the upstream outcome |
| FixRoute.ThrowingTextNotSent | app/api/fix/route.ts:16-27 | a truthy text whose length comparison or rendering throws sends nothing and gets the generic 500 |
| FixRoute.RejectionIgnoresUpstream | app/api/fix/route.ts:8-18 | a rejected request sends nothing, and its response does not depend on the upstream service |
| FixRoute.MissingKeyFirst | app/api/fix/route.ts:8-10 | with no key, or an empty one, every parsed request gets 500 with the key message, whatever its text |
| FixRoute.FalsyTextRefused | app/api/fix/route.ts:12-14 | with a key, a missing, empty or other falsy text gets 400 `Text to fix is required.` |
| FixRoute.LengthLimit | app/api/fix/route.ts:16-18 | a non-empty string text gets the too-long 400 exactly when it has more than 8000 UTF-16 code units; up to 8000 it goes upstream |
| FixRoute.PostOnString | app/api/fix/route.ts:8-27 | with a key and a non-empty string text, the response is the too-long 400 exactly when the text exceeds 8000 UTF-16 code units, and otherwise the upstream request carries the key and the prompt for that text |
| FixRoute.LengthBoundary | app/api/fix/route.ts:16-18 | 8000 Basic Multilingual Plane characters go upstream, 8001 are refused |
| FixRoute.RelayNeverSaysTooLong | app/api/fix/route.ts:42-58 | no upstream answer can be mistaken for the length refusal |
| FixRoute.UpstreamErrorRelayed | app/api/fix/route.ts:42-52 | a non-ok upstream reply is relayed with its own status and a message naming its status text and code when a JSON response can carry that status; for 304 or a status outside 200..599 the answer is the generic 500 |
| FixRoute.SuccessExtracts | app/api/fix/route.ts:55-58 | a successful reply gives 200 with non-empty text trimmed at both ends: the trimmed answer, or `Could not fix text.` when the answer is blank |
| FixRoute.MissingAnswerFallsBack | app/api/fix/route.ts:56 | a reply without an answer gives 200 with `Could not fix text.` |
| FixRoute.FailuresAreInternal | app/api/fix/route.ts:60-62 | each throwing case gives 500 `An internal server error occurred.` with no detail: a body that is not JSON or is `null`, a text whose length comparison or rendering throws, an unreachable upstream, an unreadable reply, an answer that is not a string, or a non-ok status a JSON response cannot carry |
| FixRoute.StatusOrigin | app/api/fix/route.ts:3-64 | any status other than 200, 400 and 500 is the status of a non-ok upstream reply to a request that was sent |

## Left out

- The page's rendering, theme toggle and `mounted` guard
  (app/page.tsx:61-66, 92-244): user interface only.
- The clipboard copy and its two-second "copied" flag (app/page.tsx:84-90):
  browser I/O.
- Wall-clock time and React scheduling: the 400 ms delay is an abstract
  `TimerFire` event.
- `fetch`, the endpoint URL and its query string, `process.env`, header
  values, and `console.error` logging. The API key and the upstream outcome
  are inputs.
- The reading of the upstream error body (line 43) is taken to succeed. Its
  content is only logged.
- FixRoute.Post: for a `text` that is neither missing nor a string, three
  things are inputs rather than computed, because they depend on the
  object's own properties and methods:
  - its truthiness;
  - whether its `length` comparison with 8000 is true, false or throws;
  - its template-literal rendering, or that the rendering throws.
- FixRoute.Post: the response payload of a relayed error does not depend on
  the status; the status only decides whether the response can be built.
- Corrector.FixKeepsWords: relates the result to the word rules' output up
  to case and whitespace only. Where whitespace survives is stated pass by
  pass instead: `Spacing.CollapseJoinsRun`, `Spacing.DropCopies` and
  `Spacing.DropRemovesRun` for lines 39 and 45, `Spacing.SpaceAfterPunctCopies`
  for line 48, and `Text.Trim` for line 51. Composing them end to end would
  need a word-by-word account of every pass, which the model does not give.
- JavaScript strings may hold unpaired surrogate code units. The model's
  characters are Unicode scalar values, so such text is not represented.
- Idempotence of the corrector: it does not hold (see
  `CorrectorExamples.FixIsNotIdempotent`).
