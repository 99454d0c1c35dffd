# HTTP client core, modelled in Dafny

This project models the logic at the heart of a desktop HTTP client for
collections of requests. Projects hold requests and folders of requests, and
each project has two environments (`dev` and `production`) of `{{name}}`
variables. The model covers these parts:

- **Collection runner** (`CollectionRunner`, runner.dfy). `runAll` resets
  every request of a folder to `pending`. It then works through the requests
  strictly in order: each one is marked `running`, resolved and sent, and
  settled as `success` or `error`, whatever happened to earlier requests. The
  model also gives the passed and failed counts.
- **Variable substitution and request resolution** (`Substitution`,
  `Resolve`). `substituteVariables` applies the environment's entries in
  order, and each entry replaces every `{{key}}` in the text. The editor's
  send and the runner resolve a request the same way: the URL is substituted
  as text; headers and params are substituted through their JSON text and
  parsed back; the body is treated like headers and params, but only when it
  is truthy.
- **Request editor** (`RequestEditor`, editor.dfy). This covers the rules
  applied when the params, headers or body text loses focus, and
  `handleSend`: save, resolve, send, then show and store the answer.
- **Schema utilities** (`SchemaUtils`, schema.dfy).
  - `validateSchema` groups Ajv's errors by masked path (`[3]` becomes `[*]`)
    and message, and renders one line per group.
  - `generateSchemaFromData` infers a JSON Schema from a value.
- **Environment files** (`EnvFile`, envfile.dfy). `jsonToEnv` renders an
  environment as `key=value` lines and `envToJson` parses such text back.
  Saving writes both environments.
- **Request list** (`RequestList`). `extractAfterDoubleBraces` shows a URL
  without its leading `{{name}}`.
- **Projects store** (`ProjectsStore`, store.dfy). A class holds the
  `projects` table as a map from id to project. Its methods are `addProject`,
  `deleteProject`, `updateProject`, `addRequest`, `updateRequest`,
  `deleteRequest`, `duplicateRequest` and `importProjects`.

Shared modules:

- `Json` holds JSON values and the JavaScript notions applied to them:
  truthiness, `typeof`, key counts, and object lookup and assignment.
- `Text` holds the string operations used: `trim`, `indexOf`, `split`,
  `join`, literal replace-all, and number-to-string.
- `Model` holds the entities of src/stores/db.ts and the transport's
  response record.

Abstractions:

- **JSON text.** `JSON.stringify` (compact or indented) and `JSON.parse` are
  supplied by a `Codec` value. `Faithful(codec)` states the one property
  assumed of a real codec: parsing what it serialised gives the value back.
  Parsing may fail, and the failure's message is the exception callers catch.
  The two lemmas about the `{{API_URL}}` test (`Resolve.ResolvedApiUrl` and
  `RequestEditor.SendApiUrl`) also assume that the codec prints an empty
  object as `{}`, which holds for JavaScript's `JSON.stringify`.
- **Transport and time.** The transport is an oracle from (call number,
  request sent) to an answer with its elapsed time, or a thrown message. The
  clock (`Date.now()`), fresh ids (`uuidv4()`) and Ajv are parameters.

Deviations and quirks:

- **What the runner does not do.** The runner has no cancellation, no
  stop-on-error, no `skipped` state, no check of responses against the
  request's schema, no persistence of results and no refusal of an empty
  folder. A run always processes every request, and an empty folder runs to
  completion with no results.
- **Regular-expression keys.** `substituteVariables` builds a regular
  expression from each key, and `String.replace` interprets `$` patterns in
  the value. The model replaces literally, so it requires (`LiteralEnv`) keys
  free of regular-expression metacharacters and not of the form `\d+(,\d*)?`,
  and values free of `$`. Between the braces of `{{key}}` such a digit key
  is a quantifier: `{{1}}` matches `{}` and `{{2,1}}` does not compile
  (`Substitution.QuantifierKeys`).
- **Falsy bodies.** A body that is `false`, `0` or `""` is loaded into the
  editor as empty text. Leaving that text area then stores `null`
  (`RequestEditor.BodyTextKept`).

## Model

| member | source | states |
|---|---|---|
| Json.Lookup | src/components/EnvironmentVariablesModal.tsx:33 | reading a key of an object finds it exactly when some entry has that key, and the first such entry wins |
| Json.LookupDistinct | src/components/EnvironmentVariablesModal.tsx:33 | in an object with distinct keys, each entry's key reads back that entry's value |
| Json.Put | src/components/EnvironmentVariablesModal.tsx:33 | `acc[key] = value` replaces an existing key in place or appends a new one, so the entry count stays the same or grows by one |
| Json.PutLookup | src/components/EnvironmentVariablesModal.tsx:33 | after `acc[key] = v`, reading `key` gives `v` and reading any other key gives what it gave before |
| Json.PutNew | src/components/EnvironmentVariablesModal.tsx:33 | assigning a key the object lacks appends it at the end, after the existing entries |
| Json.PutKeys | src/components/EnvironmentVariablesModal.tsx:33 | the keys after an assignment are the old keys plus the assigned one, and distinct keys stay distinct |
| Text.TrimStart | src/components/EnvironmentVariablesModal.tsx:25 | the result is the longest suffix not starting with white space; every dropped character is white space |
| Text.TrimEnd | src/components/EnvironmentVariablesModal.tsx:25 | the result is the longest prefix not ending with white space; every dropped character is white space |
| Text.TrimFixpoint | src/components/EnvironmentVariablesModal.tsx:25 | a string is its own trim exactly when it is empty or starts and ends with non-white-space |
| Text.TrimBlank | src/components/EnvironmentVariablesModal.tsx:26 | the trim is empty exactly when every character is white space, which is when `!line.trim()` holds |
| Text.TrimIdempotent | src/components/EnvironmentVariablesModal.tsx:30-31 | trimming an already trimmed key or value changes nothing |
| Text.TrimWithin | src/components/EnvironmentVariablesModal.tsx:30 | the trim holds no character the string does not hold |
| Text.IndexOfChar | src/components/EnvironmentVariablesModal.tsx:28 | `indexOf` gives -1 exactly when the character is absent, and otherwise its first position |
| Text.IndexOfCharAt | src/components/EnvironmentVariablesModal.tsx:28 | a position holding the character with no earlier occurrence is the one `indexOf` returns |
| Text.Split | src/components/EnvironmentVariablesModal.tsx:24 | `split` always yields at least one piece |
| Text.ReplaceAllIsSplitJoin | src/components/CollectionRunnerModal.tsx:32 | replacing every occurrence of a pattern is cutting at the pattern and joining the pieces with the value |
| Text.JoinSplit | src/components/CollectionRunnerModal.tsx:32 | joining the pieces of a split with the separator gives the text back |
| Text.SplitPiecesAreFree | src/components/CollectionRunnerModal.tsx:32 | no piece of a split holds the separator |
| Text.SplitAbsent | src/components/CollectionRunnerModal.tsx:32 | a text without the separator splits into itself alone |
| Text.ReplaceAllAbsent | src/components/RequestEditor.tsx:106 | replacing a pattern the text does not hold leaves it unchanged |
| Text.SplitJoin | src/components/EnvironmentVariablesModal.tsx:16-24 | lines with no newline, joined by `\n`, split back into the same lines |
| Text.NatToString | src/utils/schemaUtils.ts:37 | the decimal text of a count is never empty |
| Substitution.ApplyEntry | src/components/CollectionRunnerModal.tsx:32 | one entry of the loop: every `{{key}}` of the text becomes the value, read literally; `ApplyEntryReplacesEvery` characterises it |
| Substitution.Substitute | src/components/RequestEditor.tsx:103-109 | the whole fold over the entries, first entry first; `SubstituteAppend` and `SubstituteUnaffected` characterise it |
| Substitution.LiteralWhenNotDigitLed | src/components/CollectionRunnerModal.tsx:32 | a key without regular-expression metacharacters whose first character is not a digit is matched literally |
| Substitution.QuantifierKeys | src/components/RequestEditor.tsx:106 | the keys `1`, `0` and `2,1` are braced quantifiers and not literal keys; `API_URL` is literal |
| Substitution.SubstituteVariables | src/components/RequestEditor.tsx:103-109 | the loop over the entries, reassigning `result`, computes the in-order fold of literal replace-all over the entries |
| Substitution.ApplyEntryReplacesEvery | src/components/CollectionRunnerModal.tsx:31-33 | one entry replaces every `{{key}}`: the text cut at every occurrence joins back to the text with the placeholder, and the result is the same pieces joined with the value |
| Substitution.SubstituteAppend | src/components/RequestEditor.tsx:105-107 | entries apply in order: substituting with `e1 + e2` is substituting with `e1`, then with `e2` |
| Substitution.SubstituteUnaffected | src/components/RequestEditor.tsx:103-109 | a text holding none of the environment's placeholders is unchanged, and with no entries every text is unchanged |
| Substitution.SubstituteApiUrl | src/components/__tests__/RequestEditor.test.tsx:91-93 | with `API_URL=http://localhost:3000`, `{{API_URL}}/users` becomes `http://localhost:3000/users` |
| Resolve.SubstituteJson | src/components/CollectionRunnerModal.tsx:59-64 | `JSON.parse(substituteVariables(JSON.stringify(x), env))`: the substituted text of a value, re-parsed, or the parse failure |
| Resolve.Resolved | src/components/CollectionRunnerModal.tsx:54-70 | the request handed to the transport, or the message of the first failing re-parse; `ResolvedChangesOnlyTemplates` and `ResolvedFailure` characterise it |
| Resolve.ResolveRequest | src/components/RequestEditor.tsx:120-136 | the step-by-step writes to the deep copy produce the resolved request or the message of the first failing parse |
| Resolve.ResolvedChangesOnlyTemplates | src/components/CollectionRunnerModal.tsx:54-70 | only URL, headers, params and body may change; the URL is substituted as text, headers and params through their JSON text, a truthy body likewise, and a falsy body is sent unchanged |
| Resolve.ResolvedFailure | src/components/CollectionRunnerModal.tsx:59-70 | resolution throws exactly when re-parsing the headers, params or truthy body fails, and a headers failure gives its own message |
| Resolve.ResolvedUnaffected | src/components/RequestEditor.tsx:120-136 | when no placeholder of the environment occurs in any field's text and the codec is faithful, the request is sent exactly as stored |
| Resolve.ResolvedEmptyEnv | src/components/CollectionRunnerModal.tsx:42-70 | with an empty environment every field of the request is sent unchanged |
| Resolve.ResolvedApiUrl | src/components/__tests__/RequestEditor.test.tsx:91-93 | the test's GET of `{{API_URL}}/users` with empty headers and params and a null body is sent with the URL `http://localhost:3000/users` and nothing else changed |
| CollectionRunner.Pendings | src/components/CollectionRunnerModal.tsx:39-41 | the reset gives exactly one `pending` entry per request, in folder order, with no status code, duration or error |
| CollectionRunner.IsFailure | src/components/CollectionRunnerModal.tsx:77 | a response fails when its error is a non-empty string or its status is at least 400; `ItemResultClassified` characterises it |
| CollectionRunner.FailureMessage | src/components/CollectionRunnerModal.tsx:84 | the error text shown for a failing response; `FailureMessageCases` characterises it |
| CollectionRunner.ItemAttempt | src/components/CollectionRunnerModal.tsx:52-107 | how one item's `try` ends: a caught resolution or transport message, or the response with its elapsed time |
| CollectionRunner.Settle | src/components/CollectionRunnerModal.tsx:77-107 | the entry an attempt leaves: `error` with the message, or `error`/`success` with the status code and duration; `ItemResultClassified` characterises it |
| CollectionRunner.PassedCount | src/components/CollectionRunnerModal.tsx:114 | the number of `success` entries; `CountsBounded` and `CountsOfSettled` characterise it |
| CollectionRunner.FailedCount | src/components/CollectionRunnerModal.tsx:115 | the number of `error` entries; `CountsBounded` and `CountsOfSettled` characterise it |
| CollectionRunner.Runner.constructor | src/components/CollectionRunnerModal.tsx:23-27 | the modal opens with one pending entry per request, not running, on the development environment |
| CollectionRunner.Runner.SelectEnvironment | src/components/CollectionRunnerModal.tsx:124-127 | the environment selector, which is disabled while running, sets the environment |
| CollectionRunner.Runner.RunAll | src/components/CollectionRunnerModal.tsx:37-112 | a run ends not running, with every entry settled as the item-by-item function says, and its observable writes are: running on, pending reset, each item's block, running off |
| CollectionRunner.Runner.RunItems | src/components/CollectionRunnerModal.tsx:44-109 | the counted loop leaves the results after all items and appends each item's block of writes in order |
| CollectionRunner.Runner.RunItem | src/components/CollectionRunnerModal.tsx:45-108 | one iteration marks item `i` running, sends the request when it resolves, and settles entry `i` alone |
| CollectionRunner.StepMatchesItemEvents | src/components/CollectionRunnerModal.tsx:44-109 | the loop body applied to the results after `k` items gives the results after `k + 1` |
| CollectionRunner.ItemEventsShape | src/components/CollectionRunnerModal.tsx:48-107 | item `k` is marked running while every other entry keeps its value; the transport is called with the resolved request exactly when resolution did not throw; the final write changes entry `k` alone and leaves it `success` or `error` |
| CollectionRunner.ItemResultClassified | src/components/CollectionRunnerModal.tsx:77-107 | an item is `error` exactly when an exception was caught or the response has a truthy error or a status of 400 or more, otherwise `success`; a caught exception records its message with no status code or duration, and a response records its status code and duration |
| CollectionRunner.FailureMessageCases | src/components/CollectionRunnerModal.tsx:84 | the error text is the response's error when it is a non-empty string, otherwise `HTTP <status>: <statusText>` |
| CollectionRunner.ItemAttemptCases | src/components/CollectionRunnerModal.tsx:52-107 | a resolution failure and a transport throw are both caught with their message; otherwise the transport's response and elapsed time are what the item settles with |
| CollectionRunner.CountsBounded | src/components/CollectionRunnerModal.tsx:114-115 | passed plus failed never exceeds the number of entries, and with pending and running entries it makes up the total |
| CollectionRunner.CountsOfSettled | src/components/CollectionRunnerModal.tsx:114-115 | when no entry is pending or running, passed plus failed equals the total |
| CollectionRunner.RunSettlesEveryItem | src/components/CollectionRunnerModal.tsx:44-115 | after a run each request has its own settled entry, in folder order, whatever happened to earlier ones, so passed plus failed is the total |
| CollectionRunner.RunOneFailOnePass | src/components/CollectionRunnerModal.tsx:77-115 | a 500 then a 200 give one failed and one passed entry, the failure with its status-line text |
| SchemaUtils.DigitsPrefix | src/utils/schemaUtils.ts:22 | the digit run a string starts with: all digits up to it, and no digit right after it |
| SchemaUtils.MaskIndices | src/utils/schemaUtils.ts:22 | masking never lengthens a path; `MaskFirstSegment` decomposes it at the leftmost `[digits]` segment as the global replace does |
| SchemaUtils.MaskFirstSegment | src/utils/schemaUtils.ts:22 | the global replace copies the text before the leftmost `[digits]` segment, writes `[*]` for it, and continues masking after it |
| SchemaUtils.MaskKeepsDigits | src/utils/schemaUtils.ts:22 | a leading digit run is copied unchanged by masking |
| SchemaUtils.MaskLeavesNoSegment | src/utils/schemaUtils.ts:22 | no `[digits]` segment remains after masking |
| SchemaUtils.MaskChangesSegment | src/utils/schemaUtils.ts:22 | a path holding a `[digits]` segment is changed by masking |
| SchemaUtils.MaskUnchanged | src/utils/schemaUtils.ts:22 | a path is left as it is exactly when it holds no `[digits]` segment |
| SchemaUtils.MaskIdempotent | src/utils/schemaUtils.ts:22 | masking a masked path changes nothing |
| SchemaUtils.MaskFirstItem | src/utils/schemaUtils.ts:22 | `[0].id` masks to `[*].id` |
| SchemaUtils.MaskSameShape | src/utils/schemaUtils.ts:22 | every `[d].id` with a single digit `d` masks to `[*].id` |
| SchemaUtils.FindKey | src/utils/schemaUtils.ts:24 | the position of a key among the groups is its first entry, or past the end when the key is absent |
| SchemaUtils.ErrKey | src/utils/schemaUtils.ts:22-23 | the group key: the masked path, a space, and the message as a template literal prints it; `GroupedExplained` characterises the grouping by it |
| SchemaUtils.AddError | src/utils/schemaUtils.ts:24-32 | one `forEach` step: a new key gets an entry with count one at the end, a known key has its count incremented; `AddErrorExplained` characterises it |
| SchemaUtils.Grouped | src/utils/schemaUtils.ts:21-33 | the grouping fold over the errors in order; `GroupedExplained` and `GroupedCountsSum` characterise it |
| SchemaUtils.GroupErrors | src/utils/schemaUtils.ts:19-33 | the `forEach` that inserts a zero-count group for a new key and then increments it gives the grouping fold over the errors in order |
| SchemaUtils.FirstIndexOf | src/utils/schemaUtils.ts:24-31 | the first error with a key, or past the end when none has it |
| SchemaUtils.GroupedExplained | src/utils/schemaUtils.ts:19-33 | the groups have distinct keys, one per distinct key of the errors, in order of first occurrence; each holds its first error's message and paths and the number of errors with its key |
| SchemaUtils.AddErrorExplained | src/utils/schemaUtils.ts:21-33 | one `forEach` step keeps the groups explained by the errors seen so far |
| SchemaUtils.GroupedCountsSum | src/utils/schemaUtils.ts:21-33 | the counts sum to the number of errors |
| SchemaUtils.Render | src/utils/schemaUtils.ts:35-40 | one line of output for a group; `RenderCases` characterises it |
| SchemaUtils.Rendered | src/utils/schemaUtils.ts:35-40 | one line per group, in group order, each rendered from its group |
| SchemaUtils.Validation | src/utils/schemaUtils.ts:10-50 | the result of `validateSchema`; `ValidationOutcomes` and `InvalidDataLines` characterise it |
| SchemaUtils.ValidateSchema | src/utils/schemaUtils.ts:10-50 | the method, with its in-place grouping loop, returns the outcome the validation function gives for every input |
| SchemaUtils.ValidationOutcomes | src/utils/schemaUtils.ts:10-50 | valid exactly when the schema parses, compiles and admits the data, and then exactly `{valid: true, errors: []}`; a parse or compile exception gives the one line `Invalid Schema: <message>`; an invalid result has at least one line |
| SchemaUtils.InvalidDataLines | src/utils/schemaUtils.ts:19-45 | for rejected data: no Ajv errors give `["Unknown error"]`, otherwise one line per explained group, with counts summing to the number of errors |
| SchemaUtils.RenderCases | src/utils/schemaUtils.ts:35-40 | a key with several errors renders as `maskedPath message (xN)`, and a key with one error renders with its original path |
| SchemaUtils.ThreeRowsOneLine | src/utils/schemaUtils.ts:19-40 | errors at `[0].id`, `[1].id` and `[2].id` with one message condense into `[*].id should be number (x3)` |
| SchemaUtils.GroupedThree | src/utils/schemaUtils.ts:19-40 | three errors sharing one key make a single entry whose count is three and which keeps the first error's path and message |
| SchemaUtils.Generate | src/utils/schemaUtils.ts:58-72 | the schema inferred from a value; `GenerateAdmits` and `GenerateWellFormed` characterise it |
| SchemaUtils.GenerateSchemaFromData | src/utils/schemaUtils.ts:74-76 | the inferred schema printed with two-space indentation; `GenerateSchemaRoundTrip` characterises it |
| SchemaUtils.GenerateAdmits | src/utils/schemaUtils.ts:58-72 | the inferred schema (`null`, `array` with the first element's items or `{}`, `object` with one property per key, or `typeof`) admits the value under a reference reading of JSON Schema exactly when every array in it has all its elements admitted by its first element's schema |
| SchemaUtils.HomogeneousFits | src/utils/schemaUtils.ts:60-62 | arrays whose elements all infer the first element's schema fit it, so the inferred schema admits such a value |
| SchemaUtils.ObjectsOfTwoShapesAdmitted | src/utils/schemaUtils.ts:60-69 | an array of two objects with different keys, such as `[{"a": 1}, {"b": 2}]`, is admitted by its inferred schema, which lists no `required` properties |
| SchemaUtils.NumberThenStringRejected | src/utils/schemaUtils.ts:60-62 | an array of a number then a string, such as `[1, "x"]`, is rejected by its inferred schema, whose `items` has type `number` |
| SchemaUtils.GenerateWellFormed | src/utils/schemaUtils.ts:64-69 | the inferred schema is a JSON value, and an object's `properties` have one entry per member, with the same keys in the same order |
| SchemaUtils.GenerateSchemaRoundTrip | src/utils/schemaUtils.ts:74-76 | the returned text parses back to the inferred schema |
| ProjectsStore.FindIndex | src/stores/projectsStore.ts:55 | `findIndex` gives -1 exactly when no request has the id, and otherwise the first request with it |
| ProjectsStore.NewRequest | src/stores/projectsStore.ts:35-44 | the request `addRequest` appends; `ProjectsStore.AddRequestAppends` characterises it |
| ProjectsStore.Duplicate | src/stores/projectsStore.ts:77-82 | the copy `duplicateRequest` appends; `ProjectsStore.DuplicateCopies` characterises it |
| ProjectsStore.NewProject | src/stores/projectsStore.ts:10-18 | the project `addProject` stores; `ProjectsStore.Store.AddProject` states what is stored |
| ProjectsStore.ApplyPatch | src/stores/projectsStore.ts:27-29 | `db.projects.update` with a partial project: only the given fields change; `ProjectsStore.Store.UpdateProject` states it |
| ProjectsStore.RequestSaved | src/stores/projectsStore.ts:51-60 | updating a request keeps the set of projects |
| ProjectsStore.RemoveById | src/stores/projectsStore.ts:66 | filtering never lengthens the list and keeps no request with the id |
| ProjectsStore.RemoveByIdAppend | src/stores/projectsStore.ts:66 | filtering works piecewise, so kept requests stay in their original order |
| ProjectsStore.RemoveByIdKeepsOthers | src/stores/projectsStore.ts:66 | exactly the requests with the id are removed, and every other request is kept |
| ProjectsStore.RemoveByIdAbsent | src/stores/projectsStore.ts:62-68 | deleting an id no request has leaves the list unchanged |
| ProjectsStore.Reidentify | src/stores/projectsStore.ts:94-97 | every request keeps its place and all fields except the id |
| ProjectsStore.Imported | src/stores/projectsStore.ts:91-98 | import keeps the number of projects |
| ProjectsStore.ImportedCopies | src/stores/projectsStore.ts:91-98 | each imported project and request gets its new id and keeps every other field and every request count |
| ProjectsStore.AddAllStores | src/stores/projectsStore.ts:100 | after `bulkAdd` with distinct ids each project is stored under its id, and nothing else changes |
| ProjectsStore.Store.constructor | src/stores/db.ts:41-52 | the table starts empty |
| ProjectsStore.Store.AddProject | src/stores/projectsStore.ts:9-21 | adds, under the fresh id, a project with that name, no requests and empty `dev` and `production` environments |
| ProjectsStore.Store.DeleteProject | src/stores/projectsStore.ts:23-25 | removes exactly that id |
| ProjectsStore.Store.UpdateProject | src/stores/projectsStore.ts:27-29 | overwrites the given fields of a stored project, and does nothing for an unknown id |
| ProjectsStore.Store.AddRequest | src/stores/projectsStore.ts:31-49 | appends one new GET request to the project's own requests, or fails with "Project not found" and changes nothing |
| ProjectsStore.Store.UpdateRequest | src/stores/projectsStore.ts:51-60 | replaces the first request with the same id in place, writes nothing when none matches, and fails with "Project not found" for a missing project |
| ProjectsStore.Store.DeleteRequest | src/stores/projectsStore.ts:62-68 | removes every request with that id from the project's own requests, or fails with "Project not found" |
| ProjectsStore.Store.DuplicateRequest | src/stores/projectsStore.ts:70-87 | appends a copy of the first match under the fresh id and a new creation time, named `<name> (Copy)`, or fails with "Project not found" or "Request not found" and changes nothing |
| ProjectsStore.Store.ImportProjects | src/stores/projectsStore.ts:89-101 | stores every imported project under its new id, keeps every project already stored, and adds no other key |
| ProjectsStore.AddRequestAppends | src/stores/projectsStore.ts:35-46 | the appended request is GET with an empty URL, `{}` headers and params and a null body, and the earlier requests are unchanged |
| ProjectsStore.UpdateReplacesFirstOnly | src/stores/projectsStore.ts:55-58 | only the first match's slot changes, and later requests with the same id keep their value |
| ProjectsStore.DuplicateCopies | src/stores/projectsStore.ts:79-84 | the copy differs from the original only in id, name and creation time |
| EnvFile.JsonToEnv | src/components/EnvironmentVariablesModal.tsx:16-20 | the `.env` text of an environment; `EnvLines`, `EnvRoundTrip` and `JsonToEnvSingle` characterise it |
| EnvFile.ParseLine | src/components/EnvironmentVariablesModal.tsx:25-35 | the entry one line assigns, if any; `ParseLineResult`, `ParseLineSkips` and `ParseEnvLine` characterise it |
| EnvFile.FoldLines | src/components/EnvironmentVariablesModal.tsx:24-37 | the `reduce` over the lines in order; `FoldEnvLines` and `FoldLastWins` characterise it |
| EnvFile.EnvToJson | src/components/EnvironmentVariablesModal.tsx:23-38 | the environment a `.env` text gives; `EnvRoundTrip` characterises it |
| EnvFile.EnvLines | src/components/EnvironmentVariablesModal.tsx:17-18 | one `key=value` line per entry, in entry order |
| EnvFile.ParseLineResult | src/components/EnvironmentVariablesModal.tsx:28-33 | a line only ever assigns a non-empty, trimmed key without `=`, and a trimmed value |
| EnvFile.ParseLineSkips | src/components/EnvironmentVariablesModal.tsx:25-29 | blank lines, lines starting with `#` and lines without `=` assign nothing |
| EnvFile.ParseEnvLine | src/components/EnvironmentVariablesModal.tsx:28-33 | the line is cut at its first `=`: a good entry's line parses back to the entry, even when its value holds `=` |
| EnvFile.SplitEnvText | src/components/EnvironmentVariablesModal.tsx:16-24 | the rendered text of a non-empty environment splits back into its lines |
| EnvFile.FoldEnvLines | src/components/EnvironmentVariablesModal.tsx:24-37 | the fold over a good environment's lines rebuilds it entry by entry |
| EnvFile.EnvRoundTrip | src/components/EnvironmentVariablesModal.tsx:16-38 | `envToJson(jsonToEnv(e)) == e`, same entries in the same order, when keys are non-empty, trimmed, free of `=` and newlines and not starting with `#`, and values are trimmed and free of newlines |
| EnvFile.FoldLastWins | src/components/EnvironmentVariablesModal.tsx:24-37 | a key's parsed value is the one its last assigning line gives, and the parsed keys are distinct |
| EnvFile.JsonToEnvSingle | src/components/__tests__/EnvironmentVariablesModal.test.tsx:29 | the test's development environment renders as `API_URL=http://localhost:3000`, with no trailing newline |
| EnvFile.SaveUnedited | src/components/EnvironmentVariablesModal.tsx:41-54 | saving the texts the modal opened with writes back the environments the project had, when they are good |
| EnvFile.EnvironmentsModal.constructor | src/components/EnvironmentVariablesModal.tsx:41-46 | both texts are loaded from the project's environments, a missing one as empty |
| EnvFile.EnvironmentsModal.SetDevContent | src/components/EnvironmentVariablesModal.tsx:12 | typing sets the development text |
| EnvFile.EnvironmentsModal.SetProdContent | src/components/EnvironmentVariablesModal.tsx:13 | typing sets the production text |
| EnvFile.EnvironmentsModal.HandleSave | src/components/EnvironmentVariablesModal.tsx:48-54 | the project's environments become both `dev` and `production`, each parsed from its own text, and nothing else changes |
| RequestList.Capture | src/components/RequestList.tsx:72-74 | a match's group is a suffix of the input, after at least four characters |
| RequestList.CaptureMatches | src/components/RequestList.tsx:72-74 | the matcher succeeds exactly when the input splits as `{{`, a non-empty run without `}`, `}}`, and a rest without line terminators, and then returns that rest |
| RequestList.ExtractAfterDoubleBraces | src/components/RequestList.tsx:71-88 | the result is the input or a proper suffix of it |
| RequestList.ExtractCases | src/components/RequestList.tsx:71-88 | the input changes exactly when it matches with a non-blank rest, and then the rest is returned |
| RequestList.ExtractNoPlaceholder | src/components/RequestList.tsx:75-78 | an input not starting with a placeholder is returned unchanged |
| RequestList.ExtractAfterPlaceholder | src/components/RequestList.tsx:87 | `{{name}}` followed by a non-blank rest without line breaks returns that rest, with later placeholders kept |
| RequestList.ExtractBlankRest | src/components/RequestList.tsx:82-85 | a placeholder followed only by white space is returned whole |
| RequestList.ExtractLineBreak | src/components/RequestList.tsx:72 | a line break after the placeholder defeats `(.*)$`, and the input is returned whole |
| Model.EnvVars | src/components/RequestEditor.tsx:117 | `project.environments?.[env] || {}`: the selected environment, or none when the project has no environments; used by `RunAll` and `HandleSend` |
| RequestEditor.BlurDecide | src/components/RequestEditor.tsx:178-193 | what leaving a text area does: blank text gives the blank value, parseable text its value, other text is rejected; `BlurCases` characterises it |
| RequestEditor.ObjectText | src/components/RequestEditor.tsx:69-70 | the text a params or headers area is loaded with, or nothing when `Object.keys` throws on `null`; `ObjectTextKept` and `NullStoredThenUnloadable` characterise it |
| RequestEditor.BodyText | src/components/RequestEditor.tsx:71 | the text the body area is loaded with; `BodyTextKept` characterises it |
| RequestEditor.BlurCases | src/components/RequestEditor.tsx:178-228 | text is rejected exactly when it is not blank and does not parse; otherwise the field gets the blank value or the parsed one |
| RequestEditor.ObjectTextKept | src/components/RequestEditor.tsx:69-70 | leaving an untouched params or headers area stores the object it was loaded with |
| RequestEditor.BodyTextKept | src/components/RequestEditor.tsx:71 | leaving an untouched body area keeps a truthy body and turns a falsy one into `null` |
| RequestEditor.NullStoredThenUnloadable | src/components/RequestEditor.tsx:69-70 | text parsing to `null` left in the params or headers area stores `null`, and loading a `null` params or headers value fails |
| RequestEditor.Editor.constructor | src/components/RequestEditor.tsx:39-77 | loading a request shows its last response, no error flags, and params, headers and body texts as indented JSON when non-empty or truthy, else empty; a `null` params or headers value sets `loadFailed` and leaves the texts after it empty |
| RequestEditor.Editor.Load | src/components/RequestEditor.tsx:59-77 | the loading effect: the last response, and the three texts in order, stopping with `loadFailed` set when `Object.keys` throws on a `null` params or headers value |
| RequestEditor.Editor.SetActiveEnv | src/components/RequestEditor.tsx:254-260 | the toggle sets the active environment |
| RequestEditor.Editor.EditParamsText | src/components/RequestEditor.tsx:320-323 | typing replaces the params text and clears its error flag |
| RequestEditor.Editor.EditHeadersText | src/components/RequestEditor.tsx:336-339 | typing replaces the headers text and clears its error flag |
| RequestEditor.Editor.EditBodyText | src/components/RequestEditor.tsx:352-355 | typing replaces the body text and clears its error flag |
| RequestEditor.Editor.Save | src/components/RequestEditor.tsx:97-99 | the local request is written through `updateRequest` into its project |
| RequestEditor.Editor.Commit | src/components/RequestEditor.tsx:87-91 | `handleChange` with the forced save: the local request becomes the edited one and is written into its project |
| RequestEditor.Editor.HandleParamsBlur | src/components/RequestEditor.tsx:178-193 | blank text stores `{}`, parseable text stores its value, and both clear the flag and save; other text sets the flag and leaves the request and the store unchanged |
| RequestEditor.Editor.HandleHeadersBlur | src/components/RequestEditor.tsx:195-209 | the same rules for the headers |
| RequestEditor.Editor.HandleBodyBlur | src/components/RequestEditor.tsx:211-228 | blank text stores `null`, and otherwise the same rules for the body |
| RequestEditor.Editor.HandleSend | src/components/RequestEditor.tsx:111-161 | saves first, with a missing project's message shown; a resolution or transport failure shows `{error: message}`; an answer is shown and stored as `lastResponse`, with timestamp and duration, on the unsubstituted local request; loading is always cleared |
| RequestEditor.SendApiUrl | src/components/__tests__/RequestEditor.test.tsx:91-93 | with the development environment `API_URL=http://localhost:3000`, the transport receives `http://localhost:3000/users` |

## Left out

- Rendering, React state plumbing, the clipboard and timers are not modelled. `setResults(prev => ...)` is modelled as a direct write to the results.
- Asynchrony is not modelled. Each `await` completes before the next statement, so the timing of `useEffect` is not captured. The blur handlers' save, which the source makes through a `useEffect` on a toggled flag, is done directly.
- The transport (src/services/httpClient.ts) and Electron are not modelled. The transport is an oracle that answers or throws, so an object body that makes it throw is just a throw.
- Timings are not modelled. `Date.now()` is the parameter `now`, and a call's duration is the oracle's elapsed time.
- Ajv's compile and validate are not modelled. They are an oracle from schema and data to a compile failure or a verdict with its error list.
- `JSON.stringify` and `JSON.parse` are not modelled character by character. They are the functions of a `Codec`, and `Faithful` is assumed only where a lemma says so.
- JSON numbers are integers. Floating point is not modelled.
- JavaScript objects are modelled as entry lists in insertion order. Engines list integer-like keys first, and `__proto__` is special; neither is modelled. The keys `errorGroups` uses always contain a space, so this does not affect grouping.
- Substitution.SubstituteVariables: keys are inserted literally, not as a regular expression, and `$` patterns in values are not interpreted. `LiteralEnv` is required instead: no key with a metacharacter or of the form `\d+(,\d*)?`, no value with `$`. What the source does for other environments (quantifiers, classes, a `SyntaxError` from `new RegExp`) is not modelled.
- Resolve.ResolveRequest requires `LiteralEnv`, for the same reason as substitution.
- CollectionRunner.Runner.RunAll requires `LiteralEnv` of the selected environment, for the same reason as substitution; a `SyntaxError` that would make an item an error is not modelled.
- CollectionRunner.Runner.RunItems requires `LiteralEnv`, for the same reason as substitution.
- CollectionRunner.Runner.RunItem requires `LiteralEnv`, for the same reason as substitution.
- The deep copy `JSON.parse(JSON.stringify(request))` is value identity, so an `undefined` field it would drop is kept.
- Dexie is not modelled: the database, `getAll`, transactions and I/O errors. A `bulkAdd` that fails part-way is not modelled either. Store reads and writes are operations on the map.
- ProjectsStore.Store.UpdateProject: the patch covers only the fields the application passes, `name` and `environments`.
- ProjectsStore.Store.AddProject: the source's literal has no `folders`, and the model stores `[]`.
- SchemaUtils.GenerateSchemaFromData: the `"{}"` fallback of its `catch` is not modelled, because `generate` cannot throw on a JSON value.
- ProjectsStore.Store.ImportProjects requires distinct fresh project ids, as `uuidv4()` provides. A clash that would make `bulkAdd` fail is not modelled.
- RequestEditor.Editor.HandleSend requires `LiteralEnv` for the same reason as substitution. The second `updateRequest`, which stores the last response, is not modelled as failing, because the project it saved into is still stored.
- The runner's `total` is the folder's request count and is not modelled separately.
- RequestEditor.Editor.constructor: when the loading effect throws on a `null` params or headers value, React unmounts the editor. The model records `loadFailed` but does not stop later operations on a failed editor, and the `TypeError` text is not modelled.
