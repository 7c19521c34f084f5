# WhatsApp bulk sender — a Dafny model of its core

The system sends one WhatsApp message per row of an uploaded spreadsheet. It has two halves.

- **Browser side.** `UploadSection.tsx` accepts the file, finds the header row of the decoded sheet, keeps the data rows and summarises due dates. `MessageSection.tsx` detects the name and phone columns, resolves the message template for each row, normalises phone numbers to the Peruvian `51` form, builds the payload, and polls progress.
- **Backend.** A FastAPI service (`main.py`) stores a send job per request. It runs `send_batch` (`whatsapp.py`), which walks the items in order and honours pause, resume and cancel requests.

This project models that logic as immutable datatypes and pure functions, one module per component:

| module | file | models |
|---|---|---|
| `Results` | results.dfy | `Option` / `Result` |
| `Text` | text.dfy | the JavaScript string operations used: digit filter, split/join replace, lower case, trim, number printing |
| `Lists` | lists.dfy | `findIndex`, filtered counts, `flatMap` |
| `Cells` | cells.dfy | decoded cell values, `String(v ?? '')`, truthiness, `row[i]` |
| `SendJobs` | send_jobs.dfy | `SendItem`, `SendJob`, the three flag flips |
| `SendEngine` | send_engine.dfy | `send_batch` as a step function |
| `SendEngineProperties` | send_engine_properties.dfy | what whole runs guarantee |
| `JobManager` | job_manager.dfy | the in-memory job store |
| `Api` | api.dfy | `/send`, `/progress`, `/pause`, `/resume`, `/cancel`, `/status` |
| `Messages` | messages.dfy | `MessageSection.tsx` |
| `Upload` | upload.dfy | `UploadSection.tsx` |

The send loop is a deterministic step function. A `Task` records where the loop is suspended:
- before the login check;
- in the 0.3-second pause poll before item `i`;
- in the delay sleep after item `i`;
- returned.

One `Tick` runs the Python code from one suspension point to the next. It carries the channel's outcome for the dispatch it may make: delivered, or an exception with its text. Control requests (`Signal`) arrive between ticks. A run is a sequence of such events.

A dispatch is folded into the tick that starts it. A control request arriving during a dispatch's own awaits only flips a flag. That flag is next read after the delay sleep, so the request has the same effect as one arriving during the sleep.

`Inv` describes the reachable states:
- `sent + failed` equals the number of items attempted;
- the number of completed sleeps matches;
- `running` holds exactly while the loop is inside its `for`.

In these details the model follows the code:

- a new job has `running = false` until its loop has passed the login check;
- pause, resume and cancel on an unknown id are silent no-ops that still answer `{"ok": true}`;
- the delay sleep follows the last item too;
- a cancel that arrives while the loop waits in the pause poll still lets the current item be dispatched, once;
- a `null` cell counts as a value when data rows are kept;
- the decoder leaves holes in a sparse header row, and the header list keeps them. The due-date column search reads a hole as `undefined` and throws on it. So a hole before the first `venc` header sends the upload to its error handler: the sheet and its headers have already been stored, but no summary is set.

## Model

| member | source | states |
|---|---|---|
| SendJobs.ApplyControl | backend/whatsapp.py:151-164 | pause, resume and cancel each set only their own flag; the counters, the items, `running` and `last_error` are unchanged, and `cancelled` is never cleared |
| SendJobs.ControlIdempotent | backend/whatsapp.py:151-164 | repeating a control request changes nothing more |
| SendEngine.Advance | backend/whatsapp.py:113-134 | one step of the loop: at most one dispatch, which counts exactly one of `sent` (delivered) or `failed` (raised, with `last_error` set to the message); a paused, uncancelled job does not dispatch; a returned loop stays put; items, delay and the control flags are untouched |
| SendEngine.AdvanceKeepsInv | backend/whatsapp.py:113-134 | a step keeps the loop in a reachable state, and what it dispatches is the next item not yet attempted |
| SendEngine.Run | backend/whatsapp.py:121-132 | over any run, `sent` grows by the number of delivered dispatches and `failed` by the number of raised ones, so both counters only grow; a cancelled job stays cancelled |
| SendEngine.RunKeepsInv | backend/whatsapp.py:113-134 | from a reachable state every run, whatever its outcomes and requests, ends in a reachable state, so `sent + failed` never exceeds the number of items |
| SendEngine.RunAttemptsConsecutive | backend/whatsapp.py:121-128 | the dispatches of a run are the items in list order, one after another, starting after those already attempted; no item is retried or skipped |
| SendEngineProperties.RunAppend | backend/whatsapp.py:113-134 | driving the loop with two event sequences one after the other is driving it with their concatenation |
| SendEngineProperties.TicksKeepFlags | backend/whatsapp.py:113-134 | the loop itself never writes `paused` or `cancelled` |
| SendEngineProperties.OnlyCancelCancels | backend/whatsapp.py:151-164 | `cancelled` changes only on a cancel request |
| SendEngineProperties.FinishedStaysFinished | backend/whatsapp.py:119 | after `send_batch` has returned, no further event dispatches anything or changes the counters, `running` or `last_error` |
| SendEngineProperties.CancelStopsDispatch | backend/whatsapp.py:122-128 | once cancelled, the loop dispatches nothing more, except one dispatch of the current item when it was waiting in the pause poll |
| SendEngineProperties.CancelEndsLoop | backend/whatsapp.py:122-124 | a cancelled job's loop returns within two ticks with `running` false |
| SendEngineProperties.CancelDuringPauseScenario | backend/whatsapp.py:122-128 | cancelling while paused before item `i` dispatches item `i` exactly once; the next tick ends the loop |
| SendEngineProperties.PauseHaltsDispatch | backend/whatsapp.py:125-126 | while paused and not cancelled, nothing is dispatched and the counters stay put |
| SendEngineProperties.PausedLoopWaits | backend/whatsapp.py:125-126 | a paused job with items left keeps waiting before its next item, however many ticks pass |
| SendEngineProperties.NotLoggedInSendsNothing | backend/whatsapp.py:117-119 | without a login only `last_error` is set: nothing is dispatched, the counters stay zero and `running` is never set |
| SendEngineProperties.UninterruptedRunCompletes | backend/whatsapp.py:120-134 | left alone, a logged-in loop attempts every item exactly once, sleeps after every item including the last, and returns with `running` false |
| SendEngineProperties.DeliveredOnlyNoFailures | backend/whatsapp.py:127-132 | a channel that never raises leaves `failed` unchanged |
| SendEngineProperties.ThreeDeliveredScenario | backend/whatsapp.py:120-134 | three items, all delivered: `sent = 3`, `failed = 0`, not running |
| SendEngineProperties.FailureThenDeliveryScenario | backend/whatsapp.py:127-133 | an exception on the first item is counted and recorded, and the loop goes on to send the second |
| SendEngineProperties.PauseBeforeStartWaits | backend/whatsapp.py:125-126 | a job paused before its first item dispatches nothing however long the pause lasts, and its loop stays ready to go on |
| SendEngineProperties.ResumeCompletes | backend/whatsapp.py:156-159 | a waiting loop, once resumed and left alone long enough, sends every item and returns |
| SendEngineProperties.PauseThenResumeScenario | backend/whatsapp.py:121-134 | pause before the first item, any wait, then resume: every item is sent and none fails |
| JobManager.EmptyIsValid | backend/whatsapp.py:138-141 | the empty store is well-formed: each job filed under its own id with exactly one loop in a reachable state |
| JobManager.Get | backend/whatsapp.py:143-144 | the stored job, or nothing exactly when the id is unknown |
| JobManager.CreateAndRun | backend/whatsapp.py:146-149 | the job is filed under its own id, replacing any earlier one, with a fresh loop; no other id is added, and other jobs and loops are untouched; the store stays well-formed |
| JobManager.ControlJob | backend/whatsapp.py:151-164 | a no-op for an unknown id; otherwise only the named job's flag changes, no loop is touched, and the store stays well-formed |
| JobManager.ControlJobIdempotent | backend/whatsapp.py:151-164 | repeating a control request on the store has no further effect |
| JobManager.TickJob | backend/whatsapp.py:148 | one step of one job's loop: nothing for an unknown id; no other job or loop changes |
| JobManager.TickJobKeepsValid | backend/whatsapp.py:146-149 | a step keeps the store well-formed, and a reported dispatch is of that job's next unattempted item |
| Api.MapItems | backend/main.py:75 | one item per message, in order, with `to`, `text` and the image's data URL copied |
| Api.Send | backend/main.py:70-78 | an empty message list is answered with 400 and stores nothing; otherwise a new job under the fresh id holds the mapped items, the delay `max(0, delaySeconds)`, zero counters and no flags; only that id is added, every other job and loop is unchanged, and the store stays well-formed |
| Api.Progress | backend/main.py:80-92 | 404 exactly for an unknown id; otherwise the item count as total, and the counters, flags and last error copied unchanged |
| Api.ProgressBounded | backend/main.py:85-92 | in a well-formed store a snapshot never counts more attempts than items |
| Api.ControlEndpoint | backend/main.py:94-107 | always acknowledges with `ok`; an unknown id leaves the store as it was |
| Api.Status | backend/main.py:57-61 | `queue_size` is the number of stored jobs; `running` holds exactly when some stored job is running |
| Api.RunningMeansLoopActive | backend/whatsapp.py:120-134 | a stored job reports `running` exactly while its loop is waiting out a pause or sleeping the delay |
| Text.KeepDigits | src/components/MessageSection.tsx:171 | the digit filter keeps only `0`-`9`, never lengthens, and leaves a digit string as it is |
| Text.KeepDigitsAppend | src/components/MessageSection.tsx:171 | the digit filter distributes over concatenation |
| Text.ReplaceAllAbsent | src/components/MessageSection.tsx:155 | `split(t).join(r)` leaves a text without `t` unchanged |
| Text.ReplaceAllSelf | src/components/MessageSection.tsx:155 | replacing a token by itself changes nothing |
| Text.ReplaceAllLength | src/components/MessageSection.tsx:155 | the result's length grows by `|r| - |t|` per occurrence of `t` |
| Text.ReplaceAll | src/components/MessageSection.tsx:155 | `split(t).join(r)`: a text with no occurrence of `t` comes back unchanged; a text starting with `t` now starts with `r`; otherwise the first character is kept |
| Text.OccurrencesIffContains | src/components/MessageSection.tsx:154 | a token occurs at least once exactly when `includes` finds it |
| Text.Lower | src/components/MessageSection.tsx:87 | `toLowerCase`: same length, each character lower-cased on its own |
| Text.Trim | src/components/MessageSection.tsx:84 | `trim`: a slice of the input with only white space cut away on either side, and no white space left at either end |
| Text.TrimEmpty | src/components/MessageSection.tsx:84 | trimming leaves nothing exactly when the text is all white space |
| Text.NatToStringRoundTrip | src/components/UploadSection.tsx:219 | the decimal text of a number reads back as that number |
| Cells.Show | src/components/MessageSection.tsx:155 | `String(v ?? '')`: empty exactly for `undefined`, `null` and the empty string; a string prints as itself, `true` and `false` as those words, and a number in decimal, with a minus sign when negative, reading back as its value |
| Lists.FindIndex | src/components/MessageSection.tsx:93-94 | `findIndex`: -1 exactly when no element passes, otherwise the first passing position |
| Messages.StripDiacritics | src/components/MessageSection.tsx:88-89 | accents go letter by letter: letters, digits and spaces stay, and a changed character becomes a plain `a`-`z` |
| Messages.CollapseOthers | src/components/MessageSection.tsx:90 | the result has no two adjacent spaces and only `a`-`z`, `0`-`9` and spaces, keeps the letters and digits in order, starts with the input's first letter or digit, and is empty exactly when the input is; where each space goes is stated by `CollapseOthersSeparator` |
| Messages.CollapseOthersSeparator | src/components/MessageSection.tsx:90 | a run of other characters between two words (or at either end) becomes exactly one space, and the text on each side is collapsed on its own |
| Messages.CollapseDashExample | src/components/MessageSection.tsx:90 | `a-b` collapses to `a b` |
| Messages.CollapseOthersFixedPoint | src/components/MessageSection.tsx:90 | a text already in key shape has nothing to collapse |
| Messages.TrimKeepsKeyShape | src/components/MessageSection.tsx:91 | trimming a collapsed key keeps its shape and leaves no space at either end |
| Messages.TrimKeepsKeyChars | src/components/MessageSection.tsx:84 | trimming cuts only white space, so no letter or digit is lost |
| Messages.NormalizeKey | src/components/MessageSection.tsx:85-91 | a header key holds only `a`-`z`, `0`-`9` and single inner spaces, with none at either end; the lemmas below fix its letters and digits and its fixed points |
| Messages.NormalizeKeyKeepsKeyChars | src/components/MessageSection.tsx:85-91 | the key keeps exactly the letters and digits of the lower-cased, accent-free header, in order; only separators are rewritten |
| Messages.NormalizeKeyFixedPoint | src/components/MessageSection.tsx:85-91 | words of `a`-`z`, `0`-`9` separated by single spaces are their own key |
| Messages.NormalizeKeyIdempotent | src/components/MessageSection.tsx:85-91 | normalising a key again changes nothing |
| Messages.NormalizeKeyOfWord | src/components/MessageSection.tsx:85-91 | a header whose letters all fold to `a`-`z`, `0`-`9` keys as its lower-cased, accent-free self |
| Messages.TelefonoKey | src/components/MessageSection.tsx:85-91 | `Teléfono` keys as `telefono` |
| Messages.HeaderKeys | src/components/MessageSection.tsx:93 | `headers.map(normalizeKey)` |
| Messages.NombreIndex | src/components/MessageSection.tsx:93 | the first header whose key is `nombre`, starts with `nombre` or contains `cliente`; -1 exactly when there is none |
| Messages.TelefonoIndex | src/components/MessageSection.tsx:94 | the first header whose key is `telefono`, contains `cel` or contains `phone`; -1 exactly when there is none |
| Messages.TelefonoIndexExample | src/components/MessageSection.tsx:94 | for the headers `Nombre`, `Teléfono` the phone column is 1 |
| Messages.NombreIndexExample | src/components/MessageSection.tsx:93 | for the headers `Celular`, `Nombre` the name column is 1 |
| Messages.ReplaceIfPresentIsReplaceAll | src/components/MessageSection.tsx:154-155 | the `includes` guard before each replacement has no effect on the result |
| Messages.ResolveForRow | src/components/MessageSection.tsx:148-149 | an empty template resolves to nothing |
| Messages.SubstituteHeaders | src/components/MessageSection.tsx:151-158 | a text holding none of the remaining headers' tokens is left as it is |
| Messages.SubstituteHeadersIsReplaceEach | src/components/MessageSection.tsx:151-158 | the guarded header-by-header pass equals the plain sequence of replace-alls, one per header in order, each token replaced by the row's value in that column |
| Messages.ResolveForRowSteps | src/components/MessageSection.tsx:148-168 | a non-empty template resolves by the header pass (only when there are headers and the row is not empty), then every `{{nombre}}`, then every `{{telefono}}` replaced by the detected column's value, or by nothing without such a column |
| Messages.ResolveWithoutTokens | src/components/MessageSection.tsx:148-168 | a template with no `{{header}}`, `{{nombre}}` or `{{telefono}}` token is sent as written |
| Messages.ResolveWithoutHeaders | src/components/MessageSection.tsx:159-166 | without headers no column is detected, so `{{nombre}}` and then `{{telefono}}` are erased everywhere and nothing else changes |
| Messages.StripTrunkPrefix | src/components/MessageSection.tsx:173-174 | removing the leading `00` and then the leading `0` leaves a suffix of the digits from which exactly the leading zeros went, three when there are three or more, otherwise as many as there are; the digits are unchanged exactly when they do not start with `0` |
| Messages.SanitizePhone | src/components/MessageSection.tsx:170-178 | the normalised phone holds only digits, and is at most the two digits of `51` longer than the digits of the input |
| Messages.SanitizeCanonical | src/components/MessageSection.tsx:175 | a digit string already starting with `51` is returned as is |
| Messages.SanitizeNineDigits | src/components/MessageSection.tsx:176 | nine digits not starting with `51` or `0` get `51` in front |
| Messages.SanitizePeruvianMobile | src/components/MessageSection.tsx:170-178 | a Peruvian mobile (nine digits starting with 9) typed bare, with a trunk `0`, with `51`, with `00`, with `0051` or as `+51 ...` always becomes `51` followed by the nine digits |
| Messages.SanitizeDoubleZero | src/components/MessageSection.tsx:173-177 | an international prefix `00` before a mobile without country code is dropped and `51` added |
| Messages.SanitizeTrunkZero | src/components/MessageSection.tsx:174-176 | a trunk `0` before a mobile is dropped and `51` added |
| Messages.SanitizeInternationalPrefix | src/components/MessageSection.tsx:173-175 | an international `0051` prefix becomes `51` |
| Messages.SanitizeSameDigits | src/components/MessageSection.tsx:171 | only the digits of the input matter |
| Messages.PlusPrefixDigits | src/components/MessageSection.tsx:171 | the digit filter turns `+51 m` into `51m` |
| Messages.SanitizePlusPrefix | src/components/MessageSection.tsx:171-175 | `+51 ` before a mobile becomes `51` |
| Messages.ImageOf | src/components/MessageSection.tsx:189 | an image goes along exactly when there is a non-empty data URL, and it carries that URL |
| Messages.UnitsPrefix | src/components/MessageSection.tsx:184-190 | one more row adds exactly that row's message, if any, at the end |
| Messages.UnitsDeliverable | src/components/MessageSection.tsx:184-191 | at most one message per row; every message has a non-empty all-digit phone, a non-empty text and the batch's image |
| Messages.RowUnit | src/components/MessageSection.tsx:185-189 | one row: skipped when its phone or its resolved text is empty, otherwise a single deliverable message |
| Messages.BuildPayload | src/components/MessageSection.tsx:180-192 | nothing without a phone column; otherwise the rows' messages in row order, as the reference definition gives them, never more than the rows, each deliverable |
| Messages.PollingStopCondition | src/components/MessageSection.tsx:218-237 | polling stops exactly for an unknown id, or for a job that is not paused and whose loop is not inside its `for`; a job cancelled while paused keeps being polled |
| Upload.LastSegment | src/components/UploadSection.tsx:64 | `split('.').pop()`: the longest dot-free suffix of the name |
| Upload.ExtensionOf | src/components/UploadSection.tsx:64 | the extension of `base.ext` is `ext` lower-cased, whatever `base` holds |
| Upload.LastSegmentAfter | src/components/UploadSection.tsx:64 | the text after a final dot is the last segment |
| Upload.HandleSelection | src/components/UploadSection.tsx:52-75 | nothing selected exactly when there are no files; accepted exactly when the first file's MIME type is one of the four or its extension is one of the five; the first file is the main one and the rest follow in order |
| Upload.AcceptedByExtension | src/components/UploadSection.tsx:64-71 | a name ending in an accepted extension is accepted, whatever its MIME type |
| Upload.HeaderRowIndex | src/components/UploadSection.tsx:128-142 | the header index is a row of the table or -1, and -1 only for tables of at most ten rows |
| Upload.HeaderRowIndexExact | src/components/UploadSection.tsx:128-130 | a row with a cell reading `placa` wins: the first such row is the header |
| Upload.HeaderRowIndexLoose | src/components/UploadSection.tsx:132-137 | failing that, the first row with at least three filled cells, one mentioning `placa`, is the header |
| Upload.HeaderRowIndexFallback | src/components/UploadSection.tsx:139-142 | failing both, row 10 when the table has more than ten rows, else -1 |
| Upload.HeaderText | src/components/UploadSection.tsx:145 | a falsy cell gives an empty header; a truthy cell gives its printed text with only white space cut from either end, so the header neither starts nor ends with white space |
| Upload.HeaderTexts | src/components/UploadSection.tsx:145 | one entry per position of the header row: a hole exactly where the row has one, the cell's header text everywhere else |
| Upload.Truncate | src/components/UploadSection.tsx:151 | `slice(0, n)`: the prefix of the row of length `n`, or the whole row when it is shorter |
| Upload.KeepDataRows | src/components/UploadSection.tsx:148-151 | as many rows as have a value, none wider than the header |
| Upload.KeepDataRowsAppend | src/components/UploadSection.tsx:150-151 | one more row at the end adds exactly that row, cut to the header width, when it has a value, and nothing when it has none: the kept rows stay in input order, each once |
| Upload.KeepDataRowsMembers | src/components/UploadSection.tsx:150-151 | every kept row is a truncated input row with a value, and every input row with a value is kept |
| Upload.ReadSheet | src/components/UploadSection.tsx:126-161 | nothing exactly for an empty sheet; otherwise one header per position of the chosen row (row 0 when none is found), a hole exactly where that row has one and the cell's header text elsewhere; then as many data rows after it as have a value, none wider than the header |
| Upload.BucketOf | src/components/UploadSection.tsx:212-215 | 0 days is due today, 1-3, 4-15, above 15, and negative days each map to exactly one bucket |
| Upload.DueColumn | src/components/UploadSection.tsx:174 | the search throws exactly when it reaches a hole before any header containing `venc` in lower case; otherwise the first such header, or -1 exactly when every header is present and none contains it |
| Upload.DueColumnHoleExample | src/components/UploadSection.tsx:174 | the headers `Placa`, a hole, `Vencimiento` make the search throw |
| Upload.DueColumnHoleAfterExample | src/components/UploadSection.tsx:174 | a hole after the due-date header is never reached |
| Upload.DaysUntil | src/components/UploadSection.tsx:179 | a cell whose text is empty has no date; every other cell gets the parser's answer |
| Upload.Tally | src/components/UploadSection.tsx:209-215 | exactly the counter of the bucket the day difference falls in goes up by one; no date or a past date changes nothing |
| Upload.TallyCounts | src/components/UploadSection.tsx:207-216 | counting one more row keeps each bucket's count equal to the number of rows in that bucket |
| Upload.Summarize | src/components/UploadSection.tsx:174-232 | no summary exactly when the column search throws on a hole, which ends in the error handler; all zero without a due-date column; otherwise each count is the number of rows whose due date falls in that bucket, and the four never add up to more than the rows |
| Upload.Pad2 | src/components/UploadSection.tsx:219 | `padStart(2, '0')`: at least two digits, the plain decimal text from 10 on |
| Upload.Pad2Value | src/components/UploadSection.tsx:219 | the padded text still reads as `n` |

## Left out

- Browser automation (Playwright): starting and stopping the browser, the login check, the QR code and the dispatch itself. The login answer is a parameter of the loop, and each dispatch's result is the `Outcome` carried by its tick.
- The asyncio machinery: task creation, the lock around `_ensure_ready`, and several loops running at once. Interleaving is modelled by events between ticks, one loop at a time.
- Sleep durations and wall-clock time. The delay is kept in the job, and only the number of sleeps is counted.
- FastAPI, pydantic and uuid generation. The fresh job id is a parameter of `Api.Send`, and the login answer is a parameter of `Api.Status`. The pydantic default `delaySeconds = 5` (backend/main.py:32) for a request that omits the field is not modelled: `Api.SendRequest` always carries a delay, as the client always sends one.
- The XLSX library: decoding, CSV export and `aoa_to_sheet`. The model starts from a decoded table of cells.
- HTML frameset detection and the companion-file lookup (UploadSection.tsx lines 77-121). This is file reading and regular-expression matching. Companions are only carried along by `Upload.HandleSelection`.
- Date parsing and the clock (`toDate`, `Math.round` over milliseconds). The day difference of a cell is the function parameter of `Upload.Summarize`; only the empty-cell check is modelled. The `fechaActual` date text is left out, apart from `Pad2`.
- Floating-point numbers. Numeric cells are integers, printed in decimal.
- Unicode. `toLowerCase` and NFD diacritic stripping are modelled for ASCII and the Latin-1 letters only; other characters are left as they are. So a combining mark (U+0300 to U+036F) already present in a header is kept by `Messages.StripDiacritics`, where the code drops it, and `Messages.CollapseOthers` then turns it into a space: a decomposed `Teléfono` keys as `te le fono` in the model and its column is not found as the phone column, although the code finds it. Precomposed Latin-1 letters such as `é` behave as in the code.
- localStorage, `fetch`, alerts and the rest of the UI state. The polling loop is modelled only through its stop condition.
- The preview form of the template (`resolvedMessage`, MessageSection.tsx lines 98-118). It is the same computation as `resolveForRow`, applied to the selected row.
- Messages.SanitizePhone: its contract bounds the length and the alphabet. The exact result is given for the input forms of the lemmas after it, not as a closed formula for every input.
- Messages.StripDiacritics: maps only the Latin-1 accented letters to their base letters.
- Api.Send: the `Math.max(0, delaySeconds)` clamp on the client side is not modelled separately, since the server applies the same clamp.
