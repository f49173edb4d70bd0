# WrongNotebook: the AI reply normalizer and the pure helpers around it

WrongNotebook is a "mistake notebook" web application. A student photographs a
homework problem, and a hosted generative model returns the question, the answer,
an analysis and knowledge-point tags as free-form text. This project models, in
Dafny, the layer that turns that text into a record, together with the small pure
helpers the pages use:

- `gemini_provider.dfy` (`GeminiProvider`) is the provider class. It covers
  `extractJson`, which finds the fenced block or else the first-`{`-to-last-`}` span.
  It covers `parseResponse`, which tries a strict parse and then one backslash repair
  (`RepairEscapes`, a string-to-string function) before a second parse. It also
  covers reading the reply text, the difficulty table and the `try`/`catch` of both
  operations.
- `error_classifier.dfy` (`ErrorClassifier`) is `handleError`. It matches ordered
  phrases in the lower-cased message and returns one of four codes.
- `oracle.dfy` (`Oracle`) holds the two shapes of SDK response and the reply-text
  selection that both clients share. A model call is represented by what it produced.
- `gemini.ts` is the older module-level client that the live `/api/analyze` route
  calls. `gemini.dfy` (`Gemini`) models its credential check, its fence cleanup, its
  single parse and its single fixed failure message.
- `analyze_route.dfy` (`AnalyzeRoute`) is the `POST` handler. It checks for a missing
  image and splits a `data:` URL with the anchored regular expression.
- `scheduler.dfy` (`Scheduler`) holds the review-interval table and the stage
  descriptions. Dates are day numbers.
- `correction_editor.dfy` (`CorrectionEditor`) models adding a tag with the Enter key
  or the Plus button, and removing a tag.
- `markdown_renderer.dfy` (`MarkdownRenderer`) is the nine-pass text preparation that
  runs before Markdown rendering. It also holds a corrected last pass for the marker
  leak described under Findings.
- `tags_page.dfy` (`TagsPage`) holds the data helpers of the tag page:
  - the category lookup;
  - chapter-tag flattening and `extractTags`;
  - grouping custom tags by category, the totals and the empty state;
  - the add and remove handlers and the category reset.

Shared modules:

- `Strings` holds JavaScript's `\s`, `trim`, `indexOf`, `lastIndexOf`, `includes` and
  lower-casing.
- `Rewrite` models a global `replace` with a regular expression as a left-to-right
  scan. At each position a rule either matches the rest of the text or does not.
  Look-ahead comes free because the rule sees the whole rest.
- `JsonValues` holds JSON values and the decoder type. `JSON.parse` is an abstract
  decoder passed in as a parameter.
- `JsonString` defines the contents of a JSON string literal following section 7 of
  RFC 8259. It serves as an independent reference for what the backslash repair
  achieves.

Two behaviours of the code are easy to misread:

- `parseResponse` returns whatever `JSON.parse` produced. Absent fields are not
  filled in, and `ParseResponse` does the same.
- `extractTags` pushes the elements of every array it meets, whatever their kind, and
  does not open nested arrays. It ignores strings that sit directly under an object,
  and `null` makes it throw. It does not simply collect every string, and
  `CollectOffShape` shows the difference.

## Model

| member | source | states |
|---|---|---|
| `GeminiProvider.FenceInterior` | src/lib/ai/gemini-provider.ts:17-19 | The fence pattern matches exactly when some triple backtick is followed, at least three characters later, by another one |
| `GeminiProvider.UnclosedFence` | src/lib/ai/gemini-provider.ts:17 | If the first fence has no fence after its interior start, no fence pair exists at all: the optional `json` tag holds no backtick |
| `GeminiProvider.ExtractFromFence` | src/lib/ai/gemini-provider.ts:17-19 | `ExtractJson`: with a closed fence, the candidate is the trimmed text between the first fence's interior start and the next fence (lazy match) |
| `GeminiProvider.ExtractFenced` | src/lib/ai/gemini-provider.ts:17-19 | `ExtractJson`: `before + ``` + tag + interior + ``` + after` yields the trimmed interior, with an empty or `json` tag and no backtick before or inside |
| `GeminiProvider.ExtractFencedObject` | src/lib/ai/gemini-provider.ts:17-19 | `ExtractJson`: a fenced object padded by white space, with or without the `json` tag, is extracted as exactly the object |
| `GeminiProvider.ExtractBraceSpan` | src/lib/ai/gemini-provider.ts:21-26 | `ExtractJson`: with no fence and the first `{` before the last `}`, the candidate is exactly that inclusive span, so it starts with `{` and ends with `}` |
| `GeminiProvider.ExtractWithoutFence` | src/lib/ai/gemini-provider.ts:18-28 | `ExtractJson`: without a closed fence only the brace fallback applies |
| `GeminiProvider.ExtractUnchanged` | src/lib/ai/gemini-provider.ts:15-29 | `ExtractJson`: with no fence and no `{` before a `}`, the text is returned unchanged |
| `GeminiProvider.RepairLength` | src/lib/ai/gemini-provider.ts:41 | `RepairEscapes`: repaired length = input length + number of backslashes that are last or followed by a character outside `n r t b f u " \ /` |
| `GeminiProvider.RepairAt` | src/lib/ai/gemini-provider.ts:41 | `RepairEscapes`: every input character reappears unchanged, shifted by the number of doubled backslashes before it, and each doubled backslash is followed by its copy |
| `GeminiProvider.RepairFixedPoint` | src/lib/ai/gemini-provider.ts:41 | `RepairEscapes`: when no backslash qualifies for doubling, the repair is the identity |
| `GeminiProvider.RepairWithoutBackslash` | src/lib/ai/gemini-provider.ts:41 | `RepairEscapes`: a text without backslashes is a fixed point of the repair |
| `GeminiProvider.RepairLocal` | src/lib/ai/gemini-provider.ts:40-41 | `RepairEscapes`: each decision looks only at the next original character: the repair distributes over concatenation unless a trailing backslash meets an escape letter |
| `GeminiProvider.RepairBackslashPair` | src/lib/ai/gemini-provider.ts:41 | `RepairEscapes`: in `\\c` with `c` outside the class, the first backslash is kept and the second is doubled, giving three backslashes |
| `GeminiProvider.RepairedLooseDecodes` | src/lib/ai/gemini-provider.ts:37-43 | `RepairEscapes`: string contents with LaTeX-style lone backslashes decode after repair to exactly the characters that were written |
| `GeminiProvider.StrictRejectsLoose` | src/lib/ai/gemini-provider.ts:35-41 | The same contents are rejected by a strict RFC 8259 decoder as soon as they hold one backslash |
| `GeminiProvider.RepairKeepsValidContent` | src/lib/ai/gemini-provider.ts:40-41 | `RepairEscapes`: already legal escapes are untouched: valid contents without an escaped backslash are a fixed point and decode the same |
| `GeminiProvider.RepairBreaksEscapedBackslash` | src/lib/ai/gemini-provider.ts:40-41 | `RepairEscapes`: the mixed case: the valid contents `\\q` become `\\\q`, which no longer decodes |
| `GeminiProvider.ParseResponse` | src/lib/ai/gemini-provider.ts:32-50 | Strict parse first; repair only if it fails; success returns the decoded value as is; double failure is exactly "Invalid JSON response from AI" |
| `GeminiProvider.ParseBareObject` | src/lib/ai/gemini-provider.ts:33-35 | A bare JSON object without backticks that decodes is returned as decoded |
| `GeminiProvider.ParseProseAroundObject` | src/lib/ai/gemini-provider.ts:21-35 | Prose before the first `{` and after the last `}` does not change the parse |
| `GeminiProvider.ParseFencedObject` | src/lib/ai/gemini-provider.ts:17-35 | A fenced object, tagged or not and with prose around, parses like the object alone |
| `GeminiProvider.OutcomeAfterResponse` | src/lib/ai/gemini-provider.ts:123-139 | `Outcome`: after a response: success iff non-empty text parses; an empty reply ends AI_UNKNOWN_ERROR, an unparseable one AI_RESPONSE_ERROR |
| `GeminiProvider.OutcomeProseReply` | src/lib/ai/gemini-provider.ts:32-50 | `Outcome`: a brace-free, fence-free, backslash-free reply that fails to decode ends as AI_RESPONSE_ERROR |
| `GeminiProvider.OutcomeConnectionReset` | src/lib/ai/gemini-provider.ts:117-139 | `Outcome`: a call failing with "fetch failed: ECONNRESET" ends as AI_CONNECTION_FAILED |
| `GeminiProvider.Provider.constructor` | src/lib/ai/gemini-provider.ts:7-12 | The stored key is the environment key or ""; a warning is issued exactly when it is missing or empty |
| `GeminiProvider.Provider.AnalyzeImage` | src/lib/ai/gemini-provider.ts:52-141 | Default MIME type `image/jpeg` and language `zh`; the model `gemini-2.5-flash`; the result is the classified outcome |
| `GeminiProvider.Provider.GenerateSimilarQuestion` | src/lib/ai/gemini-provider.ts:143-200 | Default language and difficulty `medium`; the upper-cased label and the instruction from the difficulty table; classified outcome |
| `GeminiProvider.Provider.Complete` | src/lib/ai/gemini-provider.ts:117-139 | The shared `try` block: read text, reject empty, parse, send every failure through `handleError` |
| `Oracle.ReadText` | src/lib/ai/gemini-provider.ts:123-132 | The direct text when non-empty, else the first candidate's first part, else empty; empty exactly when both are empty |
| `ErrorClassifier.HandleError` | src/lib/ai/gemini-provider.ts:202-217 | A non-Error value is unknown; each code holds exactly when its phrases occur in the lower-cased message and no earlier rule's do |
| `ErrorClassifier.HandleErrorIgnoresCase` | src/lib/ai/gemini-provider.ts:205 | Lower-casing the message first does not change the code |
| `ErrorClassifier.HandleErrorExtend` | src/lib/ai/gemini-provider.ts:206-214 | Appending text can only move a message to an earlier rule, never a later one |
| `ErrorClassifier.ClassifyInvalidJson` | src/lib/ai/gemini-provider.ts:209-210 | "Invalid JSON response from AI" classifies as AI_RESPONSE_ERROR |
| `ErrorClassifier.ClassifyEmptyResponse` | src/lib/ai/gemini-provider.ts:204-216 | "Empty response from AI" matches no rule and classifies as AI_UNKNOWN_ERROR |
| `ErrorClassifier.ClassifyConnectionReset` | src/lib/ai/gemini-provider.ts:206-207 | "fetch failed: ECONNRESET" classifies as AI_CONNECTION_FAILED |
| `Gemini.RemoveFenceNoFence` | src/lib/gemini.ts:71 | Removing every triple backtick leaves none behind |
| `Gemini.CleanFencesNoFence` | src/lib/gemini.ts:71 | `CleanFences`: the cleaned text never contains a triple backtick |
| `Gemini.CleanWithoutBacktick` | src/lib/gemini.ts:71 | `CleanFences`: a reply with no backtick is only trimmed |
| `Gemini.CleanTaggedFence` | src/lib/gemini.ts:129 | `CleanFences`: a `json`-tagged fenced text padded by white space comes out as exactly the text |
| `Gemini.AttemptFailsUniformly` | src/lib/gemini.ts:66-77 | `Attempt`: every failure inside the `try` is the one fixed message; success iff the single parse of the cleaned non-empty reply succeeds |
| `Gemini.AnalyzeImage` | src/lib/gemini.ts:12-78 | A missing or empty key fails with "GOOGLE_API_KEY is not set" before any request, unwrapped; otherwise the request and the attempt |
| `Gemini.GenerateSimilarQuestion` | src/lib/gemini.ts:80-135 | The same key check, then the request and the attempt with "Failed to generate question" |
| `Gemini.Complete` | src/lib/gemini.ts:108-134 | The shared `try` block computes exactly the attempt |
| `AnalyzeRoute.ParseDataUrl` | src/app/api/analyze/route.ts:32 | A match rebuilds the input as `data:` + MIME type + `;base64,` + payload, with a well-formed MIME type without `;` and a non-empty one-line payload |
| `AnalyzeRoute.MimeTypeOneSlash` | src/app/api/analyze/route.ts:32-34 | An extracted MIME type contains exactly one `/` |
| `AnalyzeRoute.DataUrlRoundTrip` | src/app/api/analyze/route.ts:32-35 | `data:type/subtype;base64,payload` from the allowed classes splits back into exactly `type/subtype` and the payload |
| `AnalyzeRoute.DataUrlNeedsMarker` | src/app/api/analyze/route.ts:32-33 | Without `;base64,` right after the subtype (none, or a parameter first) there is no match |
| `AnalyzeRoute.DataUrlEmptyPayload` | src/app/api/analyze/route.ts:32-33 | An empty payload does not match |
| `AnalyzeRoute.UnwrapSound` | src/app/api/analyze/route.ts:31-38 | `Unwrap`: the image and MIME type are passed on untouched, or replaced by the parts of a well-formed data URL that rebuilds the input |
| `AnalyzeRoute.UnwrapDataUrl` | src/app/api/analyze/route.ts:31-36 | `Unwrap`: a well-formed data URL replaces the caller's MIME type by its own, and the image by its payload |
| `AnalyzeRoute.UnwrapPlain` | src/app/api/analyze/route.ts:31-41 | `Unwrap`: input not starting with `data:` is passed on with the caller's MIME type |
| `AnalyzeRoute.Post` | src/app/api/analyze/route.ts:16-53 | Unreadable body gives 500; a missing image gives 400 and no call; otherwise the unwrapped image is forwarded and the outcome mapped to 200 or 500 |
| `Scheduler.ReviewInterval` | src/lib/scheduler.ts:4-7 | Stages 0..5 read the table; every other stage, negative ones included, gives 30; the result is a table value in 1..30 |
| `Scheduler.NextReviewDay` | src/lib/scheduler.ts:6-8 | The next review day is today plus the interval, strictly later and at most 30 days on |
| `Scheduler.IntervalTable` | src/lib/scheduler.ts:4-7 | Stages 0,1,2,3,4,5 give 1,2,4,7,15,30 days |
| `Scheduler.IntervalMonotone` | src/lib/scheduler.ts:4-7 | The interval never decreases as a non-negative stage grows |
| `Scheduler.DescriptionNamesInterval` | src/lib/scheduler.ts:11-19 | `Description`: for every stage the description names the interval the schedule uses for it |
| `CorrectionEditor.Without` | src/components/correction-editor.tsx:42 | Filtering removes every occurrence of the tag and keeps the multiplicity of every other tag |
| `CorrectionEditor.EditsKeepText` | src/components/correction-editor.tsx:30-41 | `HandleAddTag`, `ClickPlus`, `RemoveTag`: adding (Enter or Plus) and removing leave question, answer and analysis unchanged |
| `CorrectionEditor.AddBlankIsNoOp` | src/components/correction-editor.tsx:26-37 | `AddTag`: input blank after trimming changes neither the tags nor the input box |
| `CorrectionEditor.AddNewAppends` | src/components/correction-editor.tsx:29-35 | `AddTag`: a new trimmed tag is appended at the end and the input is cleared |
| `CorrectionEditor.AddPresentKeepsList` | src/components/correction-editor.tsx:121-127 | `AddTag`: a trimmed tag already present leaves the list as it is, but the input is still cleared |
| `CorrectionEditor.AddKeepsDistinct` | src/components/correction-editor.tsx:29-33 | `AddTag`: adding keeps a duplicate-free list duplicate-free |
| `CorrectionEditor.AddMakesPresent` | src/components/correction-editor.tsx:119-129 | `AddTag`: after a non-blank add the trimmed tag is in the list |
| `CorrectionEditor.WithoutAbsent` | src/components/correction-editor.tsx:39-44 | Removing an absent tag is the identity |
| `CorrectionEditor.WithoutAppend` | src/components/correction-editor.tsx:42 | Filtering distributes over concatenation, so the remaining tags keep their order |
| `CorrectionEditor.WithoutKeepsDistinct` | src/components/correction-editor.tsx:39-44 | Removing keeps a duplicate-free list duplicate-free |
| `CorrectionEditor.RemoveUndoesAdd` | src/components/correction-editor.tsx:26-44 | `AddTag`, `RemoveTag`: removing a freshly added tag restores the record |
| `MarkdownRenderer.BreakLength` | src/components/markdown-renderer.tsx:21 | `\s*\n(?!\n)` takes the white space through its last line break, which is not followed by another |
| `MarkdownRenderer.Render` | src/components/markdown-renderer.tsx:16-30 | The output never holds a backslash followed by `n` |
| `MarkdownRenderer.RenderPlain` | src/components/markdown-renderer.tsx:16-30 | Content with no line break and no backslash-`n` pair is returned unchanged |
| `MarkdownRenderer.UnescapeLeavesNone` | src/components/markdown-renderer.tsx:28 | After the eighth pass no backslash-`n` pair remains |
| `MarkdownRenderer.RestoreKeepsNone` | src/components/markdown-renderer.tsx:30 | The last pass cannot bring such a pair back |
| `MarkdownRenderer.RestoreUndoesPreserve` | src/components/markdown-renderer.tsx:18-30 | Restoring undoes marking for every text, even one holding the marker itself |
| `MarkdownRenderer.ChineseBreakAt` | src/components/markdown-renderer.tsx:20 | A Chinese mark before a single line break gets a second line break |
| `MarkdownRenderer.EnglishBreakAt` | src/components/markdown-renderer.tsx:21 | An English mark, optional white space and one line break become the mark and two line breaks, dropping the white space |
| `MarkdownRenderer.CircledDedentAt` | src/components/markdown-renderer.tsx:25 | A line break, indentation and a circled number become the line break and the number |
| `MarkdownRenderer.NumberedDedentAt` | src/components/markdown-renderer.tsx:26 | A line break, indentation and `digits)` become the line break and `digits)` |
| `MarkdownRenderer.Prepared` | src/components/markdown-renderer.tsx:16-28 | After the first eight passes no backslash-`n` pair remains |
| `MarkdownRenderer.MarkerLeaks` | src/components/markdown-renderer.tsx:18-30 | A blank line followed by a circled number comes out with the literal marker in it and a single line break after it |
| `MarkdownRenderer.MarkedBlock` | src/components/markdown-renderer.tsx:30 | The corrected last pass matches exactly where the marker follows at most two leading line breaks, and writes two line breaks |
| `MarkdownRenderer.RenderCorrected` | src/components/markdown-renderer.tsx:16-30 | With the corrected last pass, no output holds the marker or a backslash-`n` pair |
| `MarkdownRenderer.RestoreEveryRemoves` | src/components/markdown-renderer.tsx:30 | The corrected last pass leaves no marker behind, whatever it is given |
| `MarkdownRenderer.RestoreEveryUndoesPreserve` | src/components/markdown-renderer.tsx:18-30 | The corrected last pass still undoes the first for every text that does not hold the marker |
| `MarkdownRenderer.NoLeakCorrected` | src/components/markdown-renderer.tsx:18-30 | On the text that leaks the marker, the corrected pipeline returns the blank line and the circled number |
| `TagsPage.CategoriesOfMathAndOther` | src/app/tags/page.tsx:59-64 | `CategoriesForSubject`: math offers exactly the grades of the curriculum, and none only when it is empty; other offers none |
| `TagsPage.CategoriesOfStandardSubject` | src/app/tags/page.tsx:59-72 | `CategoriesForSubject`: an object entry offers exactly its keys, an array entry its decimal indices; none exactly when the entry is missing, not an object or array, or empty |
| `TagsPage.ChapterTags` | src/app/tags/page.tsx:156-162 | The nested loops build exactly the flattened chapter list |
| `TagsPage.PushSubsectionTags` | src/app/tags/page.tsx:159-161 | The inner loop appends each subsection's tags in order |
| `TagsPage.ChapterTagsHas` | src/app/tags/page.tsx:156-162 | A tag is listed under a chapter exactly when one of its sections lists it |
| `TagsPage.SectionTagsHas` | src/app/tags/page.tsx:157-161 | A section lists a tag exactly when its own tags or one of its subsections do |
| `TagsPage.FlattenAppend` | src/app/tags/page.tsx:157-162 | Flattening distributes over consecutive runs of sections, section by section in order |
| `TagsPage.ExtractTags` | src/app/tags/page.tsx:221-226 | The recursive push extends the list by exactly what the value collects, or throws exactly when it meets `null` |
| `TagsPage.CollectTagTree` | src/app/tags/page.tsx:222-226 | On arrays of strings nested in objects, the collected tags are every string in traversal order |
| `TagsPage.CollectOffShape` | src/app/tags/page.tsx:222-224 | A string directly under an object is skipped, a nested array is pushed whole, and `null` throws |
| `TagsPage.RenderCategory` | src/app/tags/page.tsx:220-232 | A category renders, with its tag count, exactly when it collects at least one tag |
| `TagsPage.CategoryOf` | src/app/tags/page.tsx:344 | The group key is never empty: a missing or empty category is `default` |
| `TagsPage.GroupByCategory` | src/app/tags/page.tsx:341-347 | Keys in order of first appearance; each group is its category's tags in their original order |
| `TagsPage.GroupOfEachTag` | src/app/tags/page.tsx:343-347 | Each tag lies in the group of its own category and in no other |
| `TagsPage.GroupSizesSum` | src/app/tags/page.tsx:341-347 | The group sizes sum to the number of tags |
| `TagsPage.DefaultHeadingRule` | src/app/tags/page.tsx:353-359 | `GroupHeading`: the only group without a heading is the default group when it is the sole group |
| `TagsPage.CardsAndEmptyState` | src/app/tags/page.tsx:272-334 | `CustomTagCards`: the total is zero exactly when all five lists are empty; otherwise a subject's card shows exactly when it has tags |
| `TagsPage.AddCustomTagGuard` | src/app/tags/page.tsx:74-88 | `HandleAddCustomTag`: a blank name never reaches the store; otherwise the trimmed name does; the input is cleared only on success |
| `TagsPage.RemovePromptAndRequest` | src/app/tags/page.tsx:90-95 | `HandleRemoveCustomTag`: the default prompt holds the tag expanded as a `replace` replacement text, which is the tag itself when it has no `$`; only a confirmed deletion reaches the store |
| `TagsPage.MatchedTagPrompt` | src/app/tags/page.tsx:91 | `DeletePrompt`: the tag `$&` gives back the unfilled prompt with its `{tag}` placeholder |
| `TagsPage.DoubledDollarTagPrompt` | src/app/tags/page.tsx:91 | `DeletePrompt`: `$$` in a tag shows as a single `$` |
| `TagsPage.BeforeTagPrompt` | src/app/tags/page.tsx:91 | `DeletePrompt`: the tag `` $` `` shows as the prompt text before the placeholder |
| `Rewrite.SubstitutionPlain` | src/app/tags/page.tsx:91 | `Substitution`: a replacement text without `$` is inserted as written |
| `TagsPage.SubjectChangeCategory` | src/app/tags/page.tsx:280-285 | `OnSubjectChange`: the subject is set, the name kept, and the category becomes the subject's first category, or `default` when it has none |
| `TagsPage.InitialForm` | src/app/tags/page.tsx:28-32 | The form starts on math with an empty name and the first math grade as category, or `default` when the curriculum is empty |

## Left out

- The Google GenAI SDK calls are network I/O. A call is a parameter holding what it
  produced: a thrown value or a response. The direct `text` accessor is taken as
  already evaluated, whether it is a getter or a function.
- `Oracle.ReadText` falls back to the first candidate whenever the direct text is
  empty. When `text` is a function, the source calls it and does not fall back if it
  returns an empty string; with the getter of the SDK in use that branch is not
  reached.
- `JSON.parse` is an abstract decoder, passed in as a parameter. JSON numbers are
  integers because no number is ever inspected.
- The prompt texts and the language instructions are string data and are not modelled.
  The difficulty instruction table and its upper-cased label are modelled.
- Console logging and the handler's debug output are left out.
- The commented-out session check in the route is left out.
- Authentication, the database routes and the other pages are not part of this model.
- `ErrorClassifier.HandleError`: only ASCII letters are lower-cased. JavaScript's
  `toLowerCase` also maps a few non-ASCII characters onto ASCII letters, for example
  U+212A KELVIN SIGN to `k`, so a message spelled with such characters is not
  classified the way the source would classify it.
- `GeminiProvider.RepairKeepsValidContent` is stated only for contents without an
  escaped backslash. The source's repair breaks those, as
  `RepairBreaksEscapedBackslash` shows.
- JavaScript strings are UTF-16 code units, and Dafny strings are characters. Every
  pattern and class in the core lies in the Basic Multilingual Plane, and none of them
  matches a surrogate, so the two views agree on what is found and replaced.
- `Scheduler.ReviewInterval` takes an integer stage. A fractional stage, which reads
  `undefined` from the table and gives 30 in the source, is not modelled.
- `addDays(new Date(), …)` becomes today's day number plus the interval. Clock and time
  zone are left out.
- `AnalyzeRoute.Post`: the body fields are absent or strings. A non-string truthy
  `imageBase64`, which makes `startsWith` throw and the handler answer 500, is not
  modelled. A JSON `null` language, which the source turns into English rather than
  the default, is read as absent.
- `TagsPage.GroupByCategory` lists keys in order of first appearance. JavaScript
  enumerates integer-like keys such as `"1"` first, in ascending order, and a
  category named like an inherited property such as `constructor` would make the
  source's `push` fail. Neither is modelled.
- The custom tag store (`getCustomTags`, `addCustomTag`, `removeCustomTag`) and the
  static tag library are not part of this model. They enter as values, and the
  store's answer to an add is a parameter.
- The tag statistics fetch, expand and collapse state, translations and bar widths of
  the tag page are presentation and are left out.
- ReactMarkdown and KaTeX rendering are left out. Only the text preparation before
  them is modelled.
- The editor's text fields, `onSave`, `onCancel` and the image preview are plain
  state plumbing and are left out.

## Findings

| source | as written | input that shows it | evidently intended | confidence | as-written member | corrected member |
|---|---|---|---|---|---|---|
| src/components/markdown-renderer.tsx:18-30 | The sixth pass, `\n\s+([①-⑳])`, takes the second closing line break of a marked block as the indentation of a circled number. The last pass then looks for the whole block, no longer finds it, and the literal `__PRESERVE__` reaches the Markdown, where it reads as a bold "PRESERVE" | a blank line followed by `①`, the text `"\n\n①"`, which comes out as `"\n\n__PRESERVE__\n①"` | Every paragraph break marked by the first pass is put back and no marker reaches the output | not executed | `MarkdownRenderer.MarkerLeaks` | `MarkdownRenderer.RenderCorrected` |
