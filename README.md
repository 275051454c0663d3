# event-checkin core, modelled in Dafny

This project models the core of an event check-in web application. The model covers:

- The spreadsheet client `SheetsService` (`src/services/sheets.ts`):
  - mapping sheet rows to participants;
  - the batch of cell writes an update sends;
  - appending the reserved system columns to the header row;
  - A1 column letters and range strings.
- The check-in service (`src/services/checkin.ts`): name search through a cache, check-in, and undo within five minutes.
- The offline replay queue (`src/services/offlineQueue.ts`) over the browser table `pendingOperations` (`src/db/index.ts`).
- `retryWithBackoff` (`src/utils/retry.ts`).
- The mock check-in store (`src/store/checkinStore.ts`).

One module per source file, plus shared modules:

- `Wrappers`: `Option`, `Result`, `Outcome`, and first-match search.
- `Types`: the participant records.
- `Text`: `String.prototype.trim`.
- `Sheets`, `Checkin`, `OfflineQueue`, `Retry`, `Store`: one per core file.

Code that keeps state is written as classes:

- `CheckinService` holds its cache as a `map`.
- `PendingOperationTable` holds its records and key counter.
- `OfflineQueueService` holds the table it replays.
- `CheckinStore` holds the zustand state and the mutable mock array, which is an `array`.

Each loop of the source is a method proved against a specification function:

- `columnIndexToLetter`;
- the `processQueue` loop;
- the `retryWithBackoff` loop.

Things the code cannot see are passed in as parameters:

- the HTTP replies of the Sheets API, as the `values` grid or the status text of a failed reply;
- the clock, as `now` in milliseconds, or `nowText` in the store;
- `toISOString` and `new Date(text)`, as the functions `render` and `parse`;
- the queue processor, as the outcome of each operation;
- the retried operation, as the outcome of each attempt;
- `navigator.onLine`, as the flag `offline`.

The methods that write return what they sent, so "no write happened" is part of a contract:

- `Sheets.UpdateParticipant` and `Sheets.AddSystemColumns` return the list of requests they issued.
- `CheckinService.CheckinParticipant` and `UndoCheckin` return the record they handed to `updateParticipant`, if any.
- `CheckinService.SearchParticipant` says whether it read the sheet.

`Sheets.ReadParticipants` takes its reply as a parameter and issues no request of its own.

## Model

| member | source | states |
|---|---|---|
| Wrappers.FirstIndex | src/store/checkinStore.ts:116 | `findIndex`: the index found holds the first match, and none is returned exactly when nothing matches |
| Wrappers.Find | src/services/checkin.ts:44 | `find`: the value returned is the first matching element, and none is returned exactly when nothing matches |
| Types.OrElse | src/services/sheets.ts:160 | `s \|\| fallback`: a non-empty string is kept, and an empty or absent one gives the fallback |
| Types.NonEmpty | src/services/sheets.ts:92 | `s \|\| undefined`: the result is present exactly when the string is non-empty, and it is then that string |
| Types.StatusText | src/services/sheets.ts:144 | the status cell text is `checked_in` or `not_checked_in`, and `checked_in` exactly for a checked-in participant |
| Text.Trim | src/services/checkin.ts:38-40 | `trim` returns the stretch of the input after its leading white space; only white space follows it; it neither starts nor ends with white space |
| Text.LeadingWhitespace | src/services/checkin.ts:39 | counts exactly the leading run of ECMAScript white space and line terminators |
| Text.TrailingWhitespace | src/services/checkin.ts:39 | counts exactly the trailing run of white space |
| Text.TrimIdempotent | src/services/checkin.ts:38-40 | normalising a name twice equals normalising it once |
| Text.TrimStripsSurroundingSpace | src/services/checkin.ts:38-40 | ASCII spaces around a name are removed |
| Text.TrimStripsIdeographicSpace | src/services/checkin.ts:38-40 | the ideographic space U+3000 and a newline are removed too |
| Text.TrimKeepsCase | src/services/checkin.ts:38-40 | trimming does no case folding, so the search stays case-sensitive |
| Sheets.ColumnLetters | src/services/sheets.ts:281-288 | the letters of a 0-based column are upper-case, and they are empty exactly for a negative index |
| Sheets.ColumnIndexToLetter | src/services/sheets.ts:281-288 | the `while` loop computes exactly `ColumnLetters(index)` |
| Sheets.ColumnIndexOfLetters | src/services/sheets.ts:281-288 | reading the letters back gives the column, so no two columns share letters |
| Sheets.LettersOfColumnIndex | src/services/sheets.ts:281-288 | every upper-case reference is the letters of exactly one column, so the encoding is onto |
| Sheets.ColumnLetterExamples | src/services/sheets.ts:281-288 | 0 is A, 25 is Z, 26 is AA, 701 is ZZ, and -1 gives the empty string |
| Sheets.LettersValue | src/services/sheets.ts:281-288 | the bijective base-26 value of letters is non-negative, and positive for a reference |
| Sheets.NatToStringDigits | src/services/sheets.ts:87 | `${n}` gives a string of decimal digits only |
| Sheets.NatToStringValue | src/services/sheets.ts:87 | the digits of `${n}` read back as `n` |
| Sheets.NatToStringInjective | src/services/sheets.ts:87 | different numbers render as different digit strings |
| Sheets.SynthesisedIdsDiffer | src/services/sheets.ts:87 | two different body rows without an id cell get different ids `participant-<row>` |
| Sheets.IndexOf | src/services/sheets.ts:75-83 | `indexOf`: -1 exactly when the name is absent, otherwise the position of its first occurrence |
| Sheets.ResolveColumns | src/services/sheets.ts:74-83 | `name` falls back to column 1 and `email` to column 2; the status column is found exactly when its header is present |
| Sheets.ParseRows | src/services/sheets.ts:71-97 | no rows give no participants; otherwise there is one participant per body row, and row `i` carries sheet row number `i + 2` |
| Sheets.ParsedRowFields | src/services/sheets.ts:86-97 | the field rules: the id cell or `participant-<row>`; `checked_in` exactly when the status column exists and holds that text; the `name`/`email` fallbacks; the row number |
| Sheets.RowToParticipant | src/services/sheets.ts:86-97 | a mapped row always has a non-empty id, carries row number `index + 2`, is checked in only when the status column exists, and never holds an empty e-mail |
| Sheets.ReadParticipants | src/services/sheets.ts:64-97 | a failed reply is `ReadFailed` with its status text; otherwise the result is the rows mapped by `ParseRows`, one participant per body row |
| Sheets.ReadRange | src/services/sheets.ts:265 | the default range `A:Z` returns every row, each cut to its first 26 cells |
| Sheets.ReadRangeRows | src/services/sheets.ts:265 | each row read through `A:Z` is a prefix of the sheet's row, at most 26 cells long, and the whole row when it is no longer than that |
| Sheets.ReadWidthIsAToZ | src/services/sheets.ts:265 | the 26 columns read are exactly `A` to `Z`; the next column is `AA` |
| Sheets.StatusPastZUnread | src/services/sheets.ts:59-97 | when the status column lies past `Z` (where `addSystemColumns` appends it on a wide sheet), every participant read through the default range reads as not checked in |
| Sheets.ReadWithIdColumnExample | src/services/sheets.ts:74-97 | a row with an id column maps to that id, name and status, at row 2 |
| Sheets.ReadWithoutSystemColumnsExample | src/services/sheets.ts:86-90 | without system columns the id is synthesised as `participant-2`, and the status is not checked in |
| Sheets.CellValue | src/services/sheets.ts:140-186 | columns other than the six owned ones get nothing; the status cell is `checked_in` or `not_checked_in`; `_updated_at` is the time of the call; `_updated_by` is never empty (`system` is the fallback) |
| Sheets.WritePlan | src/services/sheets.ts:124-186 | the batch is empty exactly when the header holds none of the six owned columns |
| Sheets.HasRowNumber | src/services/sheets.ts:107 | `!participant.rowNumber` refuses a missing row number and row 0, and accepts any other |
| Sheets.EntryTarget | src/services/sheets.ts:140-186 | each guarded push writes once exactly when the column header is present; the write is at the participant's row, under the column with that header, with the value owed to it |
| Sheets.WritePlanTargets | src/services/sheets.ts:133-186 | an update writes at most six cells; each is in the participant's row, under a header that is one of the six owned system columns, with that column's value; id, name, email and every other column are never written |
| Sheets.PushIfPresent | src/services/sheets.ts:140-146 | one `if (col >= 0) requests.push(...)` block appends exactly that column's entry |
| Sheets.BuildRequests | src/services/sheets.ts:133-186 | the six pushes build exactly the write plan |
| Sheets.UpdateParticipant | src/services/sheets.ts:103-206 | a missing or zero row number fails before any request; a failed header read fails after that one request; otherwise exactly one batch with the write plan follows, and its reply decides the outcome |
| Sheets.WritePlanAddresses | src/services/sheets.ts:133-186 | every write of an update lies in the participant's row, under column letters of a header cell that is one of the owned system columns |
| Sheets.SetCellCells | src/services/sheets.ts:188-198 | a single-cell `RAW` write puts its value into that cell and leaves every other cell of the row as it was |
| Sheets.ApplyWrite | src/services/sheets.ts:188-198 | one write of the batch keeps the number of rows of the sheet |
| Sheets.ApplyWriteCells | src/services/sheets.ts:188-198 | one write changes exactly the cell it addresses, and no other row |
| Sheets.ApplyWrites | src/services/sheets.ts:188-198 | applying the batch `values:batchUpdate` receives keeps the number of rows of the sheet |
| Sheets.ApplyWritesCell | src/services/sheets.ts:188-198 | after the batch, a cell some write addresses holds the value those writes carry, and a cell no write addresses is unchanged |
| Sheets.ApplyWritesKeepsRow | src/services/sheets.ts:188-198 | the batch leaves every row it does not address unchanged |
| Sheets.ParsedStatus | src/services/sheets.ts:86-90 | a body row reads as checked in exactly when the status column exists and its cell in that row is `checked_in` |
| Sheets.ParsedId | src/services/sheets.ts:86-87 | a body row's id depends only on the header row and that row's id cell |
| Sheets.PlanSparesIds | src/services/sheets.ts:124-186 | an update writes below the header row, into the participant's row only, and never into the `_participant_id` column |
| Sheets.IdCellKept | src/services/sheets.ts:188-198 | writes that spare the id column leave every id cell as it was |
| Sheets.KeptId | src/services/sheets.ts:86-87 | a sheet with the same header row and the same id cell in a row reads that row with the same id |
| Sheets.WritesKeepIds | src/services/sheets.ts:71-97 | writes below the header that spare the id column keep the header row, the number of participants and every participant's id |
| Sheets.UpdateKeepsIds | src/services/sheets.ts:71-198 | writing an update into the sheet its header was read from keeps the header, the number of participants and every id on re-reading |
| Sheets.CellAfterWrites | src/services/sheets.ts:188-198 | writes below the header that put a value into a body cell keep the header row and leave that cell holding the value |
| Sheets.EntryInPlan | src/services/sheets.ts:133-186 | for a system column present in the header, the update makes exactly one write for that column, and that write is part of the batch |
| Sheets.OwnedCellWritten | src/services/sheets.ts:140-186 | for each of the six system columns present in the header, the batch writes that column's value into the participant's row |
| Sheets.PlanWritesCell | src/services/sheets.ts:124-186 | for a participant in body row `j` and a system column present in the header, the batch writes below the header and puts the column's value into that row's cell |
| Sheets.WrittenCell | src/services/sheets.ts:188-198 | writes below the header that put a value into a body cell keep the header row and leave that cell holding the value |
| Sheets.UpdateWritesCell | src/services/sheets.ts:124-198 | writing an update into the sheet its header was read from keeps the header row and leaves each present system column's cell in the participant's row holding the value written for it |
| Sheets.ParsedTextFields | src/services/sheets.ts:92-95 | a body row's `checkinBy`, `updatedBy` and `auditNote` are its `_checkin_by`, `_updated_by` and `_audit_note` cells, with an empty or missing cell read as absent |
| Sheets.TextValuesReadBack | src/services/sheets.ts:156-186 | the written `checkinBy \|\| ''`, `updatedBy \|\| 'system'` and `auditNote \|\| ''` read back as the participant's `checkinBy`, its `updatedBy` or `system`, and its `auditNote` |
| Sheets.UpdateReadsBackTexts | src/services/sheets.ts:71-198 | writing an update into the sheet its header was read from makes the participant's row read back with the participant's `checkinBy` and `auditNote`, and its `updatedBy` or `system`, for each of those columns the header has |
| Sheets.UpdateReadsBackStatus | src/services/sheets.ts:71-198 | writing an update into the sheet its header was read from (with the status column) makes the participant's row read back with the participant's status |
| Sheets.MissingFrom | src/services/sheets.ts:235 | `filter(!includes)`: a column is in the result exactly when it is listed and absent from the header |
| Sheets.MissingColumns | src/services/sheets.ts:211-235 | the columns to add are exactly the system columns absent from the current header |
| Sheets.AddSystemColumns | src/services/sheets.ts:208-260 | a failed header read ends with `HeaderReadFailed` after one request; no write is issued exactly when every system column is present; otherwise one header write is issued, and its reply decides the outcome |
| Sheets.AddedHeaders | src/services/sheets.ts:243-250 | the written header is the existing header followed by exactly the missing system columns, in list order; so it keeps the existing header as its prefix, appends only missing columns, and then contains every system column |
| Sheets.AddSystemColumnsIdempotent | src/services/sheets.ts:234-240 | once the written header is in place, a second call issues no write and succeeds |
| Sheets.MissingInListOrder | src/services/sheets.ts:235 | filtering keeps the columns in the order of the list they come from |
| Sheets.SystemColumnsInOrder | src/services/sheets.ts:211-243 | missing system columns are appended in the order of the system-column list |
| Sheets.SystemColumnsDistinct | src/services/sheets.ts:211-219 | no system column is listed twice, so none is appended twice |
| Sheets.AllColumnsPresentExample | src/services/sheets.ts:237-240 | a header holding every system column needs no write, whatever the write reply would have been |
| Sheets.BuildRangeString | src/services/sheets.ts:262-279 | no range gives `A:Z`, qualified by the service's sheet name when there is one |
| Sheets.RangeStringParts | src/services/sheets.ts:269-278 | for a given range, the result is the sheet qualifier (the range's sheet name, else the service's, quoted, or nothing when both are empty), then the start column's letters (or `A`) and the start row (or `1` when it is 0), a colon, the end column's letters (or `Z`) and the end row (or nothing) |
| Sheets.EndColumnZeroReadsToZ | src/services/sheets.ts:271 | as written, an end column of 0 builds the same range as no end column, although column 0 is `A` |
| Sheets.EndColumnZeroExample | src/services/sheets.ts:270-278 | as written, a range on `Sheet1` from row 1 with end column 0 builds `'Sheet1'!A1:Z` |
| Sheets.BuildRangeStringIntended | src/services/sheets.ts:262-279 | the corrected builder also gives the qualified `A:Z` for no range |
| Sheets.IntendedRangeHonoursEndColumn | src/services/sheets.ts:270-278 | the corrected range ends with `:`, the letters of the requested end column (column 0 included) and the end row |
| Sheets.IntendedRangeAgreesElsewhere | src/services/sheets.ts:270-271 | the correction changes nothing unless the end column is 0 |
| Sheets.IntendedRangeExample | src/services/sheets.ts:271 | the corrected range for end column 0 is `'Sheet1'!A1:A` |
| Checkin.FirstNamed | src/services/checkin.ts:26-29 | the first participant whose trimmed name equals the key, and none exactly when no trimmed name does |
| Checkin.FirstWithId | src/services/checkin.ts:44 | the first participant with the id, and none exactly when no participant has it |
| Checkin.Normalize | src/services/checkin.ts:38-40 | normalising yields a trimmed name no longer than the input, and leaves a name without white space unchanged |
| Checkin.CheckinTarget | src/services/checkin.ts:43-52 | check-in proceeds only after a successful read, and only with the first participant carrying the id, who is not checked in; `NotFound` exactly when no participant has the id; `AlreadyCheckedIn` exactly when the first participant with the id is checked in |
| Checkin.UndoTarget | src/services/checkin.ts:68-77 | undo proceeds only with the first participant carrying the id, and only within its undo window; `NotFound` exactly when the id is unknown; `CannotUndo` exactly when the first participant with the id is past its window or has no check-in time |
| Checkin.CanUndo | src/services/checkin.ts:92-102 | undo needs a check-in time, and is then allowed exactly while `now` is at most five minutes after it |
| Checkin.UndoWindow | src/services/checkin.ts:92-102 | undo is allowed at exactly five minutes after check-in and refused one millisecond later; once refused it stays refused |
| Checkin.NoUndoWithoutCheckinTime | src/services/checkin.ts:93-95 | a record without a check-in time can never be undone |
| Checkin.CheckedInRecord | src/services/checkin.ts:54-61 | the checked-in copy keeps the id, name, e-mail, row and note, is checked in, and can be undone at that moment |
| Checkin.CheckedInRecordFields | src/services/checkin.ts:54-61 | check-in keeps the id, name, e-mail, row and note; it sets the status, the check-in time and user, and `updatedAt`/`updatedBy` to the same time and user; the undo window is open exactly until five minutes later |
| Checkin.AuditNote | src/services/checkin.ts:116-119 | the note starts with the action, holds the rendered time after ` - `, and ends with the current user |
| Checkin.UndoNote | src/services/checkin.ts:126-128 | the note is the undo heading and reason, then ` - ` and the rendered current time, then ` by ` and the current user; its length is exactly the sum of those parts |
| Checkin.UndoneRecord | src/services/checkin.ts:79-87 | the undone copy keeps the id, name, e-mail and row, is not checked in, has no check-in user, can never be undone again, and carries the undo note |
| Checkin.UndoAfterCheckin | src/services/checkin.ts:79-87 | undoing the check-in of a fresh participant restores the record, apart from the update stamp and the undo note |
| Checkin.FirstWithIdKept | src/services/checkin.ts:44 | re-reading participants whose ids stayed in place finds the same first position for an id |
| Checkin.SecondCheckinRefused | src/services/checkin.ts:42-65 | once the checked-in copy is written into the sheet it was read from (whose header has the status column), checking the same id in again is refused with `AlreadyCheckedIn` |
| Checkin.CheckinNeverRefusedPastZ | src/services/checkin.ts:42-52 | when the status column lies past `Z`, a check-in that reads the sheet through the default range is never refused with `AlreadyCheckedIn` |
| Checkin.SecondCheckinPastZNotRefused | src/services/checkin.ts:42-65 | as written, when the status column lies past `Z`, the write stores `checked_in` in the participant's status cell, yet a second check-in that reads through the default range is not refused with `AlreadyCheckedIn` |
| Checkin.CheckinService.constructor | src/services/checkin.ts:6 | the cache starts empty |
| Checkin.CheckinService.SearchParticipant | src/services/checkin.ts:13-36 | a cache hit answers without a read and changes nothing; a miss reads the sheet and returns the first match by trimmed name; a match alone is cached, under the trimmed query; a failed read leaves the cache unchanged |
| Checkin.CheckinService.CheckinParticipant | src/services/checkin.ts:42-65 | a refusal sends nothing and keeps the cache; otherwise it sends the checked-in copy; after a successful write that copy, carrying the audit note, is cached under its trimmed name; a failed write is `UpdateFailed` and keeps the cache |
| Checkin.CheckinService.UndoCheckin | src/services/checkin.ts:67-90 | a refusal sends nothing; otherwise it sends the cleared copy with the undo note; it succeeds exactly when the update does; the cache is never touched |
| OfflineQueue.BeforeIsTotal | src/db/index.ts:25 | records with different keys are ordered one way or the other, never both |
| OfflineQueue.Insert | src/services/offlineQueue.ts:25 | inserting adds exactly one record and keeps the others |
| OfflineQueue.Sort | src/services/offlineQueue.ts:25 | the ordering keeps the length and the members |
| OfflineQueue.InsertAddsOne | src/services/offlineQueue.ts:25 | inserting adds exactly one copy of the record, as a multiset |
| OfflineQueue.SortPermutes | src/services/offlineQueue.ts:25 | the ordering is a permutation: every record keeps its multiplicity |
| OfflineQueue.InsertSorted | src/services/offlineQueue.ts:25 | inserting a record with a fresh key keeps the order strict |
| OfflineQueue.SortSorted | src/services/offlineQueue.ts:25 | records with distinct keys come out strictly ordered by (`createdAt`, id) |
| OfflineQueue.SortedUnique | src/services/offlineQueue.ts:25 | a strictly ordered listing of a collection is unique |
| OfflineQueue.Listing | src/db/index.ts:25 | holds exactly the records whose key is below the bound |
| OfflineQueue.ListingDistinct | src/db/index.ts:25 | the keys in the table are distinct |
| OfflineQueue.Queued | src/services/offlineQueue.ts:25 | the queue holds exactly the records stored under keys handed out so far, one entry per record |
| OfflineQueue.QueuedIsOrdered | src/services/offlineQueue.ts:24-26 | the queue lists every record of the table, and nothing else, in (`createdAt`, id) order |
| OfflineQueue.QueuedAfterDeletingPrefix | src/services/offlineQueue.ts:31-36 | deleting the processed prefix leaves exactly the rest of the queue, in order |
| OfflineQueue.AddedLastQueuesLast | src/services/offlineQueue.ts:14-22 | a record created no earlier than every queued one joins the end of the queue (first in, first out) |
| OfflineQueue.PendingOperationTable.constructor | src/db/index.ts:25 | the table starts empty, with key 1 next |
| OfflineQueue.PendingOperationTable.Add | src/services/offlineQueue.ts:21 | `add` stores the record under a fresh auto-incremented key and returns that key |
| OfflineQueue.PendingOperationTable.Delete | src/services/offlineQueue.ts:35 | `delete` removes that key only |
| OfflineQueue.ContainsIgnoringCase | src/services/offlineQueue.ts:51 | `/timeout/i.test(message)`: true exactly when some offset holds the word, letter case aside |
| OfflineQueue.ShouldRetry | src/services/offlineQueue.ts:46-56 | offline, every failure is retried; online, exactly an `Error` whose message holds `timeout` in some letter case is |
| OfflineQueue.RetryOnTimeoutInAnyCase | src/services/offlineQueue.ts:51 | an `Error` whose message contains `TimeOut` is retried |
| OfflineQueue.NoRetryOnOtherErrors | src/services/offlineQueue.ts:46-56 | other messages are not retried, nor are non-`Error` values; while offline everything is retried |
| OfflineQueue.OfflineQueueService.constructor | src/services/offlineQueue.ts:13 | the service works on the given table |
| OfflineQueue.OfflineQueueService.AddToQueue | src/services/offlineQueue.ts:14-22 | the operation is stored under a fresh key, stamped with its own `createdAt` or else with the current time; the new key is returned; the latest operation joins the end of the queue |
| OfflineQueue.OfflineQueueService.GetQueuedOperations | src/services/offlineQueue.ts:24-26 | the result is strictly ordered and holds exactly the stored records |
| OfflineQueue.OfflineQueueService.ProcessQueue | src/services/offlineQueue.ts:28-44 | operations are handed over oldest first, as a prefix of the queue, stopping at the first that throws; a throw is rethrown exactly when it is not retryable; exactly the succeeded ones are deleted, and the queue that remains is the rest of the old queue |
| OfflineQueue.OfflineQueueService.Replay | src/services/offlineQueue.ts:31-43 | the `for` loop: everything before `done` succeeded and was deleted; it stops at the first throw; it rethrows exactly the non-retryable throw |
| OfflineQueue.OfflineQueueService.DeleteIfKeyed | src/services/offlineQueue.ts:34-36 | deletes the operation's record exactly when it has a truthy id |
| Retry.RetriesFrom | src/utils/retry.ts:20-27 | counting from attempt `k`, every attempt before the stopping one failed, and the stopping one succeeded or reached `maxRetries` |
| Retry.Retries | src/utils/retry.ts:20-27 | there are at most `max(maxRetries, 0)` retries; every earlier attempt failed; the last attempt succeeded or used up the retries |
| Retry.Backoff | src/utils/retry.ts:29-31 | there is one sleep per retry, and the `j`-th is the delay after `j` multiplications |
| Retry.DelayClosedForm | src/utils/retry.ts:18-31 | the `k`-th delay is `initialDelayMs * backoffFactor^k` |
| Retry.SleepsAreGeometric | src/utils/retry.ts:29-31 | the sleeps form a geometric sequence |
| Retry.RetryWithBackoff | src/utils/retry.ts:13-34 | there are `Retries + 1` attempts; the result is the last attempt's outcome, a value or the rethrown error; the sleeps are the geometric backoff; `onError` gets `(j + 1, error of attempt j)` for each retry |
| Retry.TwoFailuresThenSuccess | src/utils/retry.ts:15 | with the defaults, fail, fail, succeed makes two retries after sleeps of 300 and 600 ms |
| Retry.NoRetriesMeansOneAttempt | src/utils/retry.ts:24-26 | with `maxRetries <= 0` the operation runs once |
| Retry.AlwaysFailing | src/utils/retry.ts:24-26 | an operation that always fails is retried exactly `maxRetries` times |
| Store.SearchByName | src/store/checkinStore.ts:78-79 | the search finds nothing exactly when no stored name equals the trimmed query; otherwise it finds the first stored participant with that exact name |
| Store.IndexOfId | src/store/checkinStore.ts:116 | the first index holding the id, or none exactly when no entry has it |
| Store.CheckedInCopy | src/store/checkinStore.ts:106-113 | the copy keeps the id, name, e-mail and registration time, is checked in at `nowText` by the current user, and is stamped as updated by the same user at the same time |
| Store.AfterCheckin | src/store/checkinStore.ts:115-119 | the first entry with the participant's id becomes the checked-in copy, and every other entry stays |
| Store.AfterCheckinKeepsIds | src/store/checkinStore.ts:116-119 | a check-in keeps every id in place, so unique ids stay unique |
| Store.SearchAfterCheckin | src/store/checkinStore.ts:71-125 | with unique ids, searching again after a check-in finds the checked-in copy, which a second check-in refuses |
| Store.SearchTrimsQuery | src/store/checkinStore.ts:78-79 | `" 山田花子 "` finds p002 in the mock data |
| Store.TrimmedQuery | src/store/checkinStore.ts:78 | the query `" 山田花子 "` trims to `山田花子` |
| Store.SearchNeedsWholeName | src/store/checkinStore.ts:79 | part of a name (`田中`) finds nobody |
| Store.CheckinStore.constructor | src/store/checkinStore.ts:31-67 | the initial state, and the mock array holding the three mock participants |
| Store.CheckinStore.SetSearchQuery | src/store/checkinStore.ts:69 | sets the query only |
| Store.CheckinStore.SearchParticipant | src/store/checkinStore.ts:71-90 | shows the search result; the error is set exactly when nothing was found; loading ends false; the query is kept |
| Store.CheckinStore.CheckinParticipant | src/store/checkinStore.ts:92-125 | with nothing displayed, nothing changes; for a checked-in participant only the error is set; otherwise the mock array becomes `AfterCheckin` of it and the copy is displayed |
| Store.CheckinStore.ClearError | src/store/checkinStore.ts:127 | clears the error only |
| Store.CheckinStore.ClearParticipant | src/store/checkinStore.ts:129 | clears the displayed participant and the query only |

## Left out

- `SheetsService.testConnection`, `extractSpreadsheetId`, `makeRequest` and the constructor: URL building, authentication headers and `fetch` are I/O. Each reply is a parameter instead.
- Range string in reads: `readParticipants` takes its reply as a parameter, so the range string it would send is modelled separately by `Sheets.BuildRangeString`.
- Error messages: the `Failed to …: ${error}` wrapping of error messages is reduced to tagged error constructors.
- Dates:
  - Dates are integers in milliseconds, or strings in the store.
  - `new Date(text)` and `toISOString` are the parameters `parse` and `render`, so invalid dates and time zones are not modelled.
- Clock reads:
  - The source reads the clock several times within one call (`new Date()` for `checkinAt` and `updatedAt`, again in `recordAuditLog`, and in `updateParticipant`).
  - The model reads it once per call (`now`), so those instants coincide.
- Checkin.CheckinAction, Checkin.UndoReason: the action labels in the source are not legible text, so these two constants stand in for them.
- Checkin.CheckinService.CheckinParticipant: the audit note is set on the cached object after the write. The model states that the cache holds it, and that the record sent to the sheet does not.
- Asynchrony:
  - concurrent calls on the same service or store are not modelled;
  - the store's 500 ms simulated delays and its intermediate `loading: true` state are not modelled.
- Queue processor: it is a function from an operation to its outcome, so a processor that itself changes the queue is not modelled. Likewise, `navigator` is the flag `offline`.
- Queue ordering: `orderBy('createdAt')` breaks ties by primary key. The table is modelled by this observable contract, not by IndexedDB.
- Retry.RetryWithBackoff:
  - delays are exact reals, not floating point;
  - the sleeps are returned as a list of durations rather than waited for;
  - the model assumes an integer `maxRetries`: a fractional value, which makes the source retry `ceil(maxRetries)` times, cannot be expressed;
  - an `onError` hook that throws, which rejects the whole call in the source, is not modelled: the hook is assumed to return normally.
- Sheets.ApplyWrites: the spreadsheet's side of `values:batchUpdate` is modelled as single-cell `RAW` writes applied in order, each padding its row with empty cells. Grid growth, writes outside the existing rows and a partial failure of the batch are not modelled.
- Sheets.UpdateReadsBackStatus: the write-then-read round trip is proved for the status cell and the ids here, and for the `_checkin_by`, `_updated_by` and `_audit_note` cells by `Sheets.UpdateReadsBackTexts`. That the `_checkin_at` and `_updated_at` cells read back as written is not stated, because it depends on `parse` inverting `render`.
- Checkin.SecondCheckinRefused: it reads the participant's whole row, which is the intended read. As written, `readParticipants` reads only `A:Z` while `updateParticipant` reads the whole header row `1:1`, so system columns that `addSystemColumns` appended past `Z` are not seen (see Findings and `Checkin.SecondCheckinPastZNotRefused`).
- Checkin.SecondCheckinRefused: the header row that `updateParticipant` reads separately is taken to be the first row of the grid that `readParticipants` returned, so a sheet edited between the two reads is not covered.
- Not modelled: `googleAuth`, the React components and hooks, the other Dexie tables, and the participant fields that no core operation reads.

## Findings

| source | as written | input that shows it | evidently intended | confidence | as-written member | corrected member |
|---|---|---|---|---|---|---|
| src/services/sheets.ts:271 | `endColumn ? columnIndexToLetter(endColumn) : 'Z'` treats column index 0 as absent | `{ sheetName: 'Sheet1', startRow: 1, endColumn: 0 }` builds `'Sheet1'!A1:Z` | a range ending at column 0 reads through column A: `'Sheet1'!A1:A` | medium, not executed | Sheets.EndColumnZeroReadsToZ | Sheets.IntendedRangeHonoursEndColumn |
| src/services/sheets.ts:265 | `readParticipants` reads the default range `A:Z`, while `addSystemColumns` (line 243) appends the system columns after the existing header | a header with 25 user columns puts `_checkin_status` at `AA` (index 26); a checked-in participant then reads as not checked in (`Sheets.StatusPastZUnread`), so checking in again is not refused (`Checkin.CheckinNeverRefusedPastZ`) | read every column of the row | medium, not executed | Checkin.SecondCheckinPastZNotRefused | Checkin.SecondCheckinRefused |
