# Dinner-plan webhook: a Dafny model of the reply-parsing and run-log core

The `generate-dinner` webhook reads the in-stock pages of an inventory
database, formats them into four category lines, asks a language model for
a dinner plan, reads a date line, up to three meal bullets and an
encouragement line from the free-text reply, checks the JSON meal plan at the
end of the reply and appends one run page (status OK or ERROR) to a run
database. This project models that core of `api/api/generate-dinner.js` and
proves what it promises:

- `text.dfy` (module `Text`): the JavaScript string operations the handler
  relies on: the `\s` whitespace class and `trim`, `split("\n")`, `join`, and
  the decimal rendering of an id number.
- `inventory.dfy` (`Inventory`): `formatInventory` as a loop that pushes
  entries into a `grouped` dictionary, proved equal to a specification of
  the four bucket lines; the rules for which page is rendered, how, and in
  which bucket.
- `json_block.dfy` (`JsonBlock`): `extractJsonBlock`, with the regular
  expression `\{[\s\S]*\}\s*$` written out as an index-based definition and
  proved to agree with it.
- `reply.dfy` (`Reply`): the line, date-line, meal-bullet and encouragement
  extraction, and the validation order missing block, invalid JSON, missing
  `meals` array.
- `handler.dfy` (`Handler`): the handler as a method over a `RunLog` class
  whose `runs` sequence the store writes append to. The inventory query, the
  model call, `JSON.parse`, the clock and each store write are parameters.

The JSON block is not the last balanced `{...}` object of the reply: the
pattern takes everything from the first `{` in the reply, provided the reply
ends (up to whitespace) in `}`. The model follows the code: a `{` in the
prose before the JSON yields a block that the parser then rejects.

## Model

| member | source | states |
|---|---|---|
| `Text.TrimStart` | api/api/generate-dinner.js:105 | the result is a suffix of the input, everything removed is whitespace, and it does not start with whitespace |
| `Text.TrimEnd` | api/api/generate-dinner.js:36 | the result is a prefix of the input, everything removed is whitespace, and it does not end with whitespace |
| `Text.Trim` | api/api/generate-dinner.js:98 | the trim of a string neither starts nor ends with whitespace |
| `Text.TrimSlice` | api/api/generate-dinner.js:98 | the trim is a contiguous piece of its input with only whitespace on either side |
| `Text.TrimFixedPoint` | api/api/generate-dinner.js:98 | a string equals its trim exactly when it is empty or starts and ends with a non-space |
| `Text.TrimIdempotent` | api/api/generate-dinner.js:98 | trimming twice is trimming once |
| `Text.Split` | api/api/generate-dinner.js:98 | `split` on one character gives at least one piece and no piece contains the separator |
| `Text.SplitJoin` | api/api/generate-dinner.js:98 | joining the pieces of a split with the separator restores the text |
| `Text.JoinSplit` | api/api/generate-dinner.js:98 | splitting a join of separator-free pieces restores the pieces |
| `Text.NatToString` | api/api/generate-dinner.js:21 | the decimal rendering of a number is a non-empty digit string with no leading zero (only 0 itself starts with `0`) |
| `Text.NatToStringRoundTrip` | api/api/generate-dinner.js:21 | reading the rendered digits back gives the number |
| `Inventory.IdOfSpec` | api/api/generate-dinner.js:18-21 | an id exists exactly when the prefix is non-empty and the number is present and non-zero; a positive id reads as the prefix followed by the digits of the number |
| `Inventory.EntrySpec` | api/api/generate-dinner.js:15-25 | a page gets an entry exactly when its title is non-empty and it has an id; the entry is `[id] title (note)` with a note and `[id] title` without |
| `Inventory.BucketAppend` | api/api/generate-dinner.js:14-27 | the bucket of a concatenation is the concatenation of the buckets, so entries keep input order |
| `Inventory.BucketMembers` | api/api/generate-dinner.js:14-27 | an entry is in a bucket exactly when some page renders to it and has that category |
| `Inventory.KnownCategoryAppended` | api/api/generate-dinner.js:16-26 | a renderable page with one of the four categories (unset meaning `Pantry`) is appended to its own bucket and to no other |
| `Inventory.InvalidPageDropped` | api/api/generate-dinner.js:23 | a page without title or id leaves the formatted text unchanged |
| `Inventory.UnknownCategoryDropped` | api/api/generate-dinner.js:26 | a page whose category is none of the four buckets leaves the formatted text unchanged |
| `Inventory.JoinFour` | api/api/generate-dinner.js:29-31 | joining four lines puts the separator between consecutive lines |
| `Inventory.InventoryTextShape` | api/api/generate-dinner.js:29-31 | for every input the text is the `Limited shelf life`, `Fridge`, `Freezer` and `Pantry` lines, in that order, joined by newlines |
| `Inventory.SameBuckets` | api/api/generate-dinner.js:29-31 | the text depends on the input only through its four buckets |
| `Inventory.BucketNoLineBreaks` | api/api/generate-dinner.js:18-24 | when no title, note or ID prefix holds a line break, no bucket entry holds one |
| `Inventory.FourLines` | api/api/generate-dinner.js:29-31 | without line breaks in the fields, the text splits into exactly four lines, each starting with its label and `: ` |
| `Inventory.EmptyInventoryText` | api/api/generate-dinner.js:29-31 | with nothing to show, the text is the four labels each followed by `: ` |
| `Inventory.FormatInventory` | api/api/generate-dinner.js:6-32 | the loop over the pages, pushing into the `grouped` dictionary, returns the specified four-line text |
| `Inventory.StepAsWrittenSpec` | api/api/generate-dinner.js:26 | one loop step as written throws exactly on a renderable page filed under an inherited member's name, and otherwise appends to the page's bucket |
| `Inventory.GroupAsWrittenSpec` | api/api/generate-dinner.js:14-27 | the loop as written throws exactly when some renderable page has an inherited member's name as category, and otherwise builds the specified buckets |
| `Inventory.AsWrittenAgrees` | api/api/generate-dinner.js:6-32 | off those names the code as written produces the model's text |
| `Inventory.PrototypeCategoryThrows` | api/api/generate-dinner.js:26 | a page filed under `toString` makes the code as written throw, while the model drops it |
| `JsonBlock.FirstIndex` | api/api/generate-dinner.js:36 | the first occurrence of a character: none exactly when absent, otherwise an occurrence with none before it |
| `JsonBlock.ExtractJsonBlock` | api/api/generate-dinner.js:34-38 | a block is a suffix of the text of at least two characters, starts with `{`, ends in `}` up to whitespace, and has no `{` before it in the text |
| `JsonBlock.ClosingBraceIsLast` | api/api/generate-dinner.js:36 | the only `}` followed by nothing but whitespace is the last non-whitespace character |
| `JsonBlock.ExtractJsonBlockIsRegexMatch` | api/api/generate-dinner.js:36-37 | the result is null exactly when the pattern can start nowhere, and otherwise is the suffix from the leftmost place it can start |
| `JsonBlock.BlockIsLeftmostMatch` | api/api/generate-dinner.js:36-37 | a block the model finds starts where the pattern matches, and the pattern matches nowhere before it |
| `JsonBlock.NoBlockNoMatch` | api/api/generate-dinner.js:36-37 | when the model finds no block, the pattern matches at no position of the text |
| `JsonBlock.LeftmostMatchIsBlock` | api/api/generate-dinner.js:36-37 | the suffix from the leftmost match position is exactly the block the model returns |
| `Reply.NonEmpty` | api/api/generate-dinner.js:98 | `filter(Boolean)` keeps only non-empty strings of its input |
| `Reply.NonEmptyAppend` | api/api/generate-dinner.js:98 | the filter distributes over concatenation, so kept strings stay in input order |
| `Reply.NonEmptySingle` | api/api/generate-dinner.js:98 | one string is kept exactly when it is non-empty |
| `Reply.NonEmptyKeepsNonEmpty` | api/api/generate-dinner.js:98 | on non-empty strings the filter changes nothing |
| `Reply.LinesSpec` | api/api/generate-dinner.js:98 | every line is non-empty, equal to its own trim, and free of line breaks |
| `Reply.LinesReparse` | api/api/generate-dinner.js:98 | splitting the lines joined by newlines gives the same lines |
| `Reply.StripMarker` | api/api/generate-dinner.js:105 | a bullet line loses exactly its one marker and the whitespace after it, leaving a suffix that does not start with whitespace; other lines are unchanged |
| `Reply.KthBulletShift` | api/api/generate-dinner.js:102-104 | a bullet position in the tail of the lines shifts by one in the whole, its count by one more when the first line is a bullet |
| `Reply.BulletsLength` | api/api/generate-dinner.js:102-104 | the filtered bullets are as many as the bullet lines |
| `Reply.BulletAt` | api/api/generate-dinner.js:102-104 | the k-th filtered bullet is a bullet line with exactly k bullet lines before it |
| `Reply.MealLinesSpec` | api/api/generate-dinner.js:102-109 | there are min(3, number of bullet lines) meal lines, and meal line k is the k-th bullet line with its marker stripped |
| `Reply.FirstPlain` | api/api/generate-dinner.js:128-137 | `find`: none exactly when no line is plain, otherwise a plain line with no plain line before it |
| `Reply.EncouragementSpec` | api/api/generate-dinner.js:128-137 | over non-empty lines the encouragement is "" exactly when no line differs from the date line without starting with a marker or a brace, and otherwise is the first such line |
| `Reply.MessagesDistinct` | api/api/generate-dinner.js:113-124 | the three validation failures have different messages |
| `Reply.MissingBlockFirst` | api/api/generate-dinner.js:111-112 | the missing-block failure is reported exactly when the pattern can start nowhere in the reply, whatever the parser would say |
| `Reply.InvalidJsonSecond` | api/api/generate-dinner.js:114-120 | the invalid-JSON failure is reported exactly when the parser rejects the suffix from the leftmost place the pattern matches |
| `Reply.MealsArrayLast` | api/api/generate-dinner.js:122-125 | a parsed block fails only for lacking a `meals` array, success is exactly block found, parsed and holding that array, and a successful plan keeps the block, which starts with `{` and ends in `}` |
| `Reply.PlanFields` | api/api/generate-dinner.js:98-109 | a successful plan carries `lines[0]` (or "") as date line, the meal lines with "" for missing ones, and the encouragement |
| `Handler.ReplaceFirst` | api/api/generate-dinner.js:140 | `replace` with a string replaces only the first occurrence and keeps the length |
| `Handler.StampOfIsoTimestamp` | api/api/generate-dinner.js:140 | for an ISO-8601 timestamp the title stamp is `YYYY-MM-DD HH:MM` |
| `Handler.OkRun` | api/api/generate-dinner.js:142-154 | the OK run is titled `Run – ` plus the stamp, has status OK, every text field set from the plan, and `Raw JSON` as the first min(2000, length) characters of the block |
| `Handler.ErrorRun` | api/api/generate-dinner.js:165-173 | the ERROR run is titled `Run – ` plus the stamp plus ` [ERROR]`, has status ERROR, the encouragement `Oops — ` followed by the message, and no other field |
| `Handler.RunsWritten` | api/api/generate-dinner.js:139-176 | a request appends at most one run: none when rejected, the OK run when generated, the ERROR run after a thrown error exactly when its write succeeds |
| `Handler.ResponseFor` | api/api/generate-dinner.js:42-58 | 405 for a non-POST, 400 for an empty inventory, 200 with the three meals on success, 500 with the thrown message otherwise |
| `Handler.RejectedRequestsWriteNothing` | api/api/generate-dinner.js:42-58 | a non-POST request or an empty inventory writes no run and answers 405 or 400 |
| `Handler.ReplyFailureReported` | api/api/generate-dinner.js:111-125 | a reply that fails validation ends in a 500 carrying that failure's message |
| `Handler.RunLog.Create` | api/api/generate-dinner.js:142-154 | a successful write appends the page; a failed write changes nothing and reports the store's message |
| `Handler.GenerateDinner` | api/api/generate-dinner.js:40-178 | the response and the appended runs are those of the request's verdict; the log grows by at most one run and its existing runs are unchanged, and a failed ERROR write leaves the log as it was while the 500 keeps the original message |

## Left out

- `@notionhq/client` (the inventory query with its `In stock` filter, and `pages.create`): external I/O. The query is a parameter (its pages or a thrown message), each write a parameter saying whether the store accepts the page; the run database is the `runs` sequence of `Handler.RunLog`.
- The optional chaining into page properties (`page.properties?.Item?.title?.[0]?.plain_text` and so on): a page is modelled by what those expressions yield (`Inventory.Page`).
- The prompt template concatenation (lines 63-78) and the axios call with its response unwrapping (lines 81-97): the model's reply is a parameter, a function of the inventory text, since the prompt depends on nothing else per request.
- `process.env` (keys, database ids, model name, template): configuration.
- `JSON.parse`: an oracle returning an optional `Reply.JsonValue`. A parsed `null` would make `parsed.meals` throw a TypeError, but a text starting with `{` cannot parse to `null`, so the model treats every non-object as lacking `meals`.
- `new Date().toISOString()`: the two clock readings are parameters.
- HTTP plumbing: responses are a status code and a body constructor; headers, JSON serialisation and the literal texts of the 405 and 400 bodies are not modelled.
- Characters are Unicode scalar values, while JavaScript strings are UTF-16 code units.
- Handler.OkRun: `slice(0, 2000)` counts UTF-16 code units; the model counts characters, so the two agree only on text without characters outside the Basic Multilingual Plane.
- Handler.GenerateDinner: uses the corrected grouping, so a page filed under an inherited name such as `toString` is dropped and the request can answer 200; the code as written throws at line 26 and answers 500 after attempting an ERROR run (modelled on its own by `Inventory.FormatInventoryAsWritten`).
- Text.NatToString: JavaScript writes numbers of 10^21 and above with an exponent, and non-integers with a fraction; the model renders integers in plain decimal only.
- Inventory.FourLines: requires that no title, note or id prefix holds a line break, because such a break adds lines to the text; `Inventory.InventoryTextShape` states the four-line layout without that requirement.
- Property-size limits of the store on the other run fields: such a rejection is one of the write failures the parameters allow.
- The meal consumer stage (`cook-meal`): it is not part of this model.
- Concurrent invocations racing on the run database: the handler is modelled as one sequential request.

## Findings

| source | as written | input that shows it | evidently intended | confidence | as-written member | corrected member |
|---|---|---|---|---|---|---|
| api/api/generate-dinner.js:26 | `grouped[category]` also finds members inherited from `Object.prototype`; they are truthy but have no `push`, so the loop throws a TypeError | a page titled `milk` with id `I-7` filed under category `toString` (or `constructor`, `__proto__`, ...) | a page with a category outside the four buckets is skipped, as the guard intends | not executed | `Inventory.PrototypeCategoryThrows` | `Inventory.FormatInventory` |

The corrected loop looks a category up only among the dictionary's own keys;
`Inventory.UnknownCategoryDropped` proves that it then drops every page with
an unknown category, and the handler uses it.
