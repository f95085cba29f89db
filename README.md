# Lab front-end core, modelled in Dafny

This project models the logic of the laboratory web application's `app.js`. The DOM, the
notifications and the timers are not part of it. What is modelled:

- **The browser store.** The two localStorage keys `patients` and `orders` are the fields of
  `Store.LabStore`; a key that was never written reads as an empty list. Three operations
  change them:
  - `savePatientToStorage` replaces the first record with the same id, or appends a new one.
  - `saveOrderToStorage` always appends.
  - `loadSampleData` saves the five sample patients one after the other, on every page load.
- **The form steps.** `saveNewPatient` validates and builds a patient (`Records.NewPatient`).
  `createNewOrder` validates and builds an order (`Records.NewOrder`). Each is followed by
  the save.
- **Identifiers.** `generatePatientId` and `generateOrderId` produce
  `<prefix>-<year>-<last 6 clock digits><3 random digits>`.
- **Helpers.** The price table (`calculateOrderAmount`), the completed-years computation
  (`calculateAge`) and the status badge class (`getStatusClass`).
- **Search.** The patient-table filter `searchPatients`. The table is a sequence of rows, and
  the "no results" row is itself one of the table's rows.

The JavaScript string primitives the code relies on (`trim`, `toLowerCase`, `includes`)
are defined in `Text`. The clock, the random number, the current year and today's date
are parameters.

Modules, one per file:

| module | contents |
|---|---|
| `Wrappers` | `Option`, `Result` |
| `Text` | the string primitives |
| `Identifiers` | id generation and parsing |
| `Pricing` | the price table |
| `Age` | completed years |
| `Status` | the badge class |
| `Records` | the record kinds and the form validation |
| `PatientList` | the patient list as a value: lookup, upsert, repeated saves |
| `Store` | the store class and the sample data |
| `Search` | the table filter |

## Model

| member | source | states |
|---|---|---|
| `Store.LabStore.SavePatient` | app.js:687-700 | The stored patient list becomes `Upsert` of the old list: the first record with the same id is replaced in place, otherwise the patient is appended. The orders are untouched. Afterwards the patient's id looks up to exactly that patient. A stored list with unique ids still has unique ids. |
| `Store.LabStore.SaveOrder` | app.js:706-710 | The order is appended to the stored orders, with no check for a duplicate id. The patients are untouched. |
| `Store.LabStore.LoadSampleData` | app.js:422-490 | The stored list becomes `SaveAll` of the old list with the five samples, in order. The orders are untouched. |
| `Store.LabStore.SaveEach` | app.js:488-490 | The `forEach` loop of `savePatientToStorage` calls. For a non-empty list, the stored list becomes `SaveAll` of the old list with the records in order. An empty list leaves the store unchanged. The orders are untouched. |
| `Store.LabStore.SaveNewPatient` | app.js:184-207 | The result is `NewPatient` of the form under the generated id. A refused registration leaves the store unchanged. An accepted one is upserted into the patient list. |
| `Store.LabStore.CreateNewOrder` | app.js:343-376 | The result is `NewOrder` of the form under the generated order id. A refused order leaves the store unchanged. An accepted one is appended to the orders. |
| `Store.LabStore.Patients` | app.js:702-704 | `getPatientsFromStorage`: the stored list, or the empty list when the key was never written. |
| `Store.LabStore.Orders` | app.js:707 | The read `JSON.parse(localStorage.getItem('orders')) \|\| []`: the stored orders, or the empty list when the key was never written. |
| `Store.LabStore.PatientById` | app.js:681-684 | `getPatientById`: absent exactly when no stored record has the id. A found record is the first stored record with that id. |
| `Store.LoadIntoEmpty` | app.js:488-490 | On a first page load into an empty store, the five samples are stored exactly, in order. |
| `Store.ReloadSamplesUnchanged` | app.js:488-490 | Loading the samples again changes nothing, whatever the store held before the first load. |
| `Store.SampleIdsDistinct` | app.js:424-485 | The five sample ids are pairwise distinct. |
| `Store.SamplePatients` | app.js:424-485 | The five literal sample patients, field by field, in the source's order; the contract says there are five. Their facts are `Store.SampleIdsDistinct`, `Store.GeneratedIdIsNoSampleId` and `Store.LoadIntoEmpty`. |
| `Store.GeneratedIdIsNoSampleId` | app.js:227-231 | An id generated once the clock is past 99999 ms is never a sample id, so a later sample reload cannot overwrite a registered patient. |
| `Store.RegistrationBetweenPageLoads` | app.js:687-700 | Samples loaded, then a patient registered under a fresh id, then samples loaded again: the store holds the five samples followed by the new patient. |
| `PatientList.IndexOfId` | app.js:691 | `findIndex`: the first index whose id matches, or -1 exactly when no record has the id. |
| `PatientList.IndexOfFirst` | app.js:691 | Any index that holds the id and is preceded only by other ids is the one `IndexOfId` returns. |
| `PatientList.FindById` | app.js:681-684 | `find`: absent exactly when no record has the id. A found record is the first record of the list with that id. |
| `PatientList.Upsert` | app.js:691-697 | The saved record is in the result. The list either keeps its length (replacement) or becomes the old list with the record appended. |
| `PatientList.SaveAll` | app.js:488-490 | Saving a sequence of records never shrinks the list, and grows it by at most the number of records saved. |
| `PatientList.UpsertReplacesInPlace` | app.js:693-694 | For an existing id, the record at the first matching index is replaced. The length and every other position are unchanged. |
| `PatientList.UpsertAppendsNew` | app.js:695-696 | For a new id, the record is appended at the end. |
| `PatientList.UpsertLength` | app.js:691-697 | The list grows by one exactly when the id is new. |
| `PatientList.UpsertIds` | app.js:691-697 | The set of stored ids gains the saved id and loses none. |
| `PatientList.FindAfterUpsert` | app.js:681-684 | After a save, `getPatientById` of the saved id returns the saved record. |
| `PatientList.FindOtherAfterUpsert` | app.js:681-684 | A save does not change what any other id looks up to. |
| `PatientList.UpsertUnchanged` | app.js:691-697 | Saving a record that is already what its id looks up to changes nothing. |
| `PatientList.UpsertIdempotent` | app.js:691-697 | Saving the same record twice gives the same list as saving it once. |
| `PatientList.UpsertKeepsIdsUnique` | app.js:691-697 | A list with unique ids keeps unique ids after any save. |
| `PatientList.SaveAllFresh` | app.js:488-490 | Saving records with distinct ids that are not yet stored appends them all, in order. |
| `PatientList.FreshAfterFirst` | app.js:488-490 | After the first of such records is appended, the rest are still distinct and not yet stored. |
| `PatientList.SaveAllUnchanged` | app.js:488-490 | Saving records that are each already stored under their ids changes nothing. |
| `PatientList.SaveAllOtherId` | app.js:488-490 | A sequence of saves leaves the lookup of an id it does not mention unchanged. |
| `PatientList.SaveAllFindsEach` | app.js:488-490 | After saving records with distinct ids, each of their ids looks up to its record. |
| `PatientList.SaveAllIdempotent` | app.js:488-490 | Repeating a sequence of saves with distinct ids changes nothing, for any starting list. |
| `Records.NewPatient` | app.js:184-204 | The registration is refused exactly when a trimmed required field is empty or the gender or date of birth is empty. An accepted record carries the given id, today as its registration date and no last visit. Its fields are the trimmed form values, with gender and date of birth as given. |
| `Records.NewOrder` | app.js:343-373 | An empty test selection is refused first, then an empty sample type. Otherwise the order is accepted, with status "pending", the tests as selected and the patient id, order id and date given. Its amount is `OrderAmount` of the tests. Its priority, sample type and instructions are the form's values. |
| `Text.TrimStart` | app.js:187 | The result is a suffix of the input. What was cut is whitespace. The result starts with a non-whitespace character, if any. |
| `Text.TrimEnd` | app.js:187 | The result is a prefix of the input. What was cut is whitespace. The result ends with a non-whitespace character, if any. |
| `Text.Trim` | app.js:187-194 | `trim()` is no longer than its input and neither starts nor ends with whitespace. |
| `Text.TrimEmptyIffBlank` | app.js:200-201 | `trim()` yields "" exactly for input made only of whitespace, which is the source's `!value` test after trimming. |
| `Text.TrimIsSlice` | app.js:187-194 | A trimmed field is a slice of the input with only whitespace removed at either end. |
| `Text.ToLower` | app.js:136 | Each character is lower-cased and the length is kept. |
| `Text.ToLowerFacts` | app.js:660 | Lower-casing is idempotent and leaves text without upper-case letters alone. |
| `Text.ToLowerAppend` | app.js:136 | Lower-casing distributes over concatenation. |
| `Text.Contains` | app.js:137 | `includes` of the empty term always holds, and a longer term than the text is never included. |
| `Text.ContainsAt` | app.js:137 | `includes` holds exactly when the term occurs at some index. |
| `Text.ContainsInfix` | app.js:137 | The middle part of a concatenation is included in it. |
| `Pricing.OrderAmount` | app.js:407-419 | The total is never negative. |
| `Pricing.TestPrice` | app.js:408-418 | A code has a positive price exactly when it is one of the seven priced codes. Priced codes cost between 30 and 150. Every other code costs 0. |
| `Pricing.OrderAmountAppend` | app.js:418 | The amount of a concatenation of selections is the sum of their amounts. |
| `Pricing.OrderAmountIsSumOfPrices` | app.js:418 | The left fold of the source equals the plain sum of the prices (a right fold). |
| `Pricing.OrderAmountSwap` | app.js:418 | The order of the selections does not change the amount. |
| `Pricing.OrderAmountExamples` | app.js:408-418 | Nothing costs 0. CBC with lipid costs 150. A repeated code is charged twice. An unknown code adds 0. |
| `Age.CalculateAge` | app.js:668-679 | The result is the number of completed years: the age-th anniversary is on or before today and the next one is after it. |
| `Age.CompletedYearsUnique` | app.js:668-679 | Any count of completed years with that property is the one `CalculateAge` returns. |
| `Age.AgeOnBirthday` | app.js:671-676 | On the birthday the age is the plain year difference. |
| `Age.AgeDayBeforeBirthday` | app.js:672-676 | For a birthday after the first of its month, the age on the day before is one less than the plain year difference. |
| `Age.AgeMonthBeforeBirthday` | app.js:672-676 | For a birthday on the first of February to December, any day of the previous month gives one year less than the plain year difference. A birthday on 1 January is `Age.AgeNewYearsEveBeforeBirthday`. |
| `Age.AgeNewYearsEveBeforeBirthday` | app.js:672-676 | For a birthday on 1 January, any day of December of the year before gives one year less than the plain year difference in the birthday's year. |
| `Age.AgeExamples` | app.js:668-679 | Someone born on 15 June 2000 is 23 on 14 June 2024 and 24 on 15 June 2024. |
| `Status.StatusClass` | app.js:659-666 | "status-success", "status-warning" and "status-pending" are returned exactly for the lower-cased statuses "completed", "in progress" and "pending". "status-info" is returned exactly for every other status. |
| `Status.StatusClassIgnoresCase` | app.js:660 | Statuses that differ only in letter case get the same class. |
| `Status.StatusClassOfLowered` | app.js:660 | Lower-casing a status first does not change its class. |
| `Status.StatusClassExamples` | app.js:659-666 | "Completed", "In Progress" and "pending" get their classes. "Finalized" and "in-progress" fall to "status-info". |
| `Identifiers.NatToString` | app.js:228 | `toString()` of a natural number is a non-empty string of digits without a leading zero. |
| `Identifiers.DecimalOfNatToString` | app.js:228 | Reading the digits of `toString()` back gives the number. |
| `Identifiers.NatToStringLength` | app.js:228 | The decimal form has more than k digits exactly when the number is at least 10^k. |
| `Identifiers.LastChars` | app.js:228 | `slice(-k)` keeps the last k characters, or the whole string when it is shorter. |
| `Identifiers.PadStart` | app.js:229 | `padStart` ends with the input and fills the front with the pad character up to the width. |
| `Identifiers.GenerateId` | app.js:227-231 | An id starts with the prefix and a dash, and has at least seven characters after the prefix. |
| `Identifiers.TimeSuffix` | app.js:228 | `getTime().toString().slice(-6)`: between one and six characters. `Identifiers.TimeSuffixValue` proves they are digits denoting the clock modulo 10^6, six of them once the clock is at least 100000. |
| `Identifiers.RandomSuffix` | app.js:229 | `Math.floor(Math.random() * 1000).toString().padStart(3, '0')`: at least three characters. `Identifiers.RandomSuffixValue` proves exactly three digits that denote the random number. |
| `Identifiers.GeneratePatientId` | app.js:227-231 | A patient id starts with `P-` and has at least 8 characters. |
| `Identifiers.GenerateOrderId` | app.js:401-405 | An order id starts with `ORD-` and has at least 10 characters. |
| `Identifiers.TimeSuffixValue` | app.js:228 | The time suffix is digits that denote the clock modulo 10^6. It has six digits once the clock is past 99999 ms. |
| `Identifiers.RandomSuffixValue` | app.js:229 | The random suffix has exactly three digits and denotes the random number. |
| `Identifiers.GeneratedIdWellFormed` | app.js:227-231 | With a four-digit year and a clock past 99999 ms, the id has the shape `<prefix>-DDDD-DDDDDDDDD`. |
| `Identifiers.ParseGeneratedId` | app.js:227-231 | Parsing a generated id gives back the year, the clock modulo 10^6 and the random number. |
| `Identifiers.IdCollision` | app.js:401-405 | Two ids generated in the same year are equal exactly when the clocks agree modulo 10^6 and the random numbers agree. |
| `Identifiers.GeneratedPatientIdLength` | app.js:227-231 | A generated patient id has at least 13 characters. |
| `Identifiers.DecimalInjective` | app.js:228-229 | Two digit strings of the same length that denote the same number are the same string. |
| `Search.PatientsTable.SearchAsWritten` | app.js:131-162 | The table becomes `SearchAsWrittenResult` of the old table: every row, the message row included, is shown exactly when it matches, and then the message step runs. On every table whose message row, if any, is last, shown or hidden, which includes every table the constructor produces and every table a search as written leaves behind: that shape is kept, each patient row keeps its text and place and is shown exactly when it matches, and a message row remains exactly when no row, the old message row included, matched a non-empty term. |
| `Search.PatientsTable.Search` | app.js:131-162 | The corrected search: the table becomes `SearchResult` of the old table, where only patient rows are tested and counted. |
| `Search.PatientsTable.ShowMatchingRows` | app.js:135-143 | The row loop sets each row's display to whether it matches. It reports whether any row matched. |
| `Search.PatientsTable.ShowMatchingPatientRows` | app.js:135-143 | The same loop with the message row skipped. |
| `Search.PatientsTable.UpdateMessageRow` | app.js:146-161 | The message step: for a non-empty term with no match, a message row is added when none exists. Otherwise an existing message row is removed. |
| `Search.PatientsTable.constructor` | app.js:496-522 | A freshly rendered table has one visible patient row per text and no message row. |
| `Search.MessageIndex` | app.js:146 | `getElementById`: the first message row, or -1 exactly when there is none. |
| `Search.MessageText` | app.js:154 | The text of the "no results" row: 29 characters of sentence around the term, which sits between the quotes. |
| `Search.RowText` | app.js:136 | A row's `textContent`: a patient row's text, or the message sentence with the row's term between the quotes. |
| `Search.Matches` | app.js:136-137 | The row test `searchTerm === '' \|\| text.includes(searchTerm)` on the lower-cased text: an empty term matches every row, and a non-empty match needs a text at least as long as the term. |
| `Search.ShowMatching` | app.js:135-143 | The `forEach` over every row, the message row included, as a function: each row keeps its kind and is shown exactly when it matches. `Search.PatientsTable.ShowMatchingRows` is proved equal to it. |
| `Search.AnyMatch` | app.js:133-143 | The `found` flag: some row, the message row included, matches. With an empty term it is set exactly when the table has a row. |
| `Search.UpdateMessage` | app.js:146-161 | When nothing was found for a non-empty term, no row is removed and at most one is added. Otherwise no row is added and at most one is removed. The message facts are `Search.UpdateMessageFacts`. |
| `Search.SearchAsWrittenResult` | app.js:131-162 | The search as written adds or removes at most one row. With no match for a non-empty term it removes none, and with an empty term it adds none. |
| `Search.SearchResult` | app.js:131-162 | The corrected search adds or removes at most one row. With no patient match for a non-empty term it removes none, and with an empty term it adds none. |
| `Search.SearchMessageIffNoMatch` | app.js:131-162 | The corrected search on a well-formed table: the table stays well-formed and keeps its patient rows, each shown exactly when it matches. A visible message row is present exactly when the term is non-empty and no patient row matched. |
| `Search.ShowMatchingPatientsFacts` | app.js:135-143 | The row step sets each patient row's display to whether it matches and leaves the message row alone. |
| `Search.UpdateMessageFacts` | app.js:146-161 | The message step keeps the patient rows and keeps at most one message row, at the end. A message is present afterwards exactly when nothing was found for a non-empty term. A new message row is visible and carries the term. |
| `Search.AppendMessageFacts` | app.js:147-157 | With nothing found for a non-empty term and no message row, the message row is appended, visible and last, after the unchanged rows. |
| `Search.KeepMessageFacts` | app.js:147-148 | With nothing found for a non-empty term and a message row present, the table is left exactly as it is. |
| `Search.RemoveMessageFacts` | app.js:159-160 | With a match or an empty term, a message row that is last is removed and every other row is kept. |
| `Search.NoMessageFacts` | app.js:146-161 | With a match or an empty term and no message row, the table is left exactly as it is. |
| `Search.MessageAppended` | app.js:157 | Appending the message row to patient rows makes it the message row `getElementById` finds. |
| `Search.MessageRemoved` | app.js:160 | Removing the message row from a table whose message row, if any, is last leaves no message row. |
| `Search.MessageAtEnd` | app.js:146 | On a table whose message row, if any, is last, there is a message row exactly when the last row is one, and it is found there. |
| `Search.EmptyTermShowsAll` | app.js:137 | An empty term shows every patient row and leaves no message row. |
| `Search.PatientRowsArePrefix` | app.js:131-162 | On a table whose message row, if any, is last, the patient rows are exactly the rows before the message row. |
| `Search.MatchSurvivesSearch` | app.js:135-143 | A patient row that matches the term still matches after the search. |
| `Search.MatchCameFromInput` | app.js:135-143 | A matching patient row after the search was a matching row before it. |
| `Search.SearchKeepsMatches` | app.js:131-162 | The corrected search finds a patient match in its result exactly when it found one in its input. |
| `Search.SearchIdempotent` | app.js:131-162 | Running the corrected search twice with the same term gives the same table as running it once. |
| `Search.SearchFixedPoint` | app.js:131-162 | A table that already shows the outcome of a search for the term is left unchanged by it. |
| `Search.MessageMatchesOwnTerm` | app.js:151-156 | The message row for a term without upper-case letters matches that term. |
| `Search.AsWrittenKeepsOneMessage` | app.js:146-161 | The search as written also keeps at most one message row, at the end. |
| `Search.AsWrittenPatientRows` | app.js:135-143 | The search as written, on a table whose message row, if any, is last (shown or hidden), keeps every patient row's text and place, and shows it exactly when its lower-cased text contains the term. At most one message row remains, at the end, and it remains exactly when no row, the old message row included, matched a non-empty term. |
| `Search.ShowMatchingPatientRowsAsWritten` | app.js:135-143 | The row loop as written, on a table whose message row, if any, is last, keeps that shape and gives each patient row its match flag. |
| `Search.AsWrittenEmptyTermShowsAll` | app.js:137 | The search as written with an empty term, on a table whose message row, if any, is last (shown or hidden), shows every patient row and leaves no message row. |
| `Search.AsWrittenAddsMessage` | app.js:147-158 | As written, on a table of patient rows with no match for a non-empty term, the message row is appended after the updated rows. |
| `Search.AsWrittenDropsMatchingMessage` | app.js:135-161 | As written, when the message row matches the term, it counts as a match and is removed. |
| `Search.RepeatedSearchLosesMessage` | app.js:131-162 | As written, searching twice for a lower-case term that matches no patient adds the message and then removes it. The table ends with no visible row and no message. |
| `Search.AsWrittenHidesStaleMessage` | app.js:141-148 | As written, searching a second term that matches nothing while the "no results" row of an earlier term is present hides that row and keeps it: the table shows no row and no message. |
| `Search.RepeatedSearchKeepsMessage` | app.js:131-162 | Corrected, the second search keeps the message. |

## Left out

- Reading and writing localStorage through `JSON.stringify`/`JSON.parse` is not modelled. The lists are stored as values. A missing key reads as the empty list, as `JSON.parse(null) || []` does. A corrupted stored value makes `JSON.parse` throw in the source. The model has no such state, so it does not claim the store recovers from one.
- Quota errors of localStorage, and changes made by other tabs, are not modelled.
- `Text.ToLower`: folds only the ASCII letters A-Z. `toLowerCase` also folds other Unicode letters, such as `Ä`.
- Strings are sequences of `char`. UTF-16 surrogate pairs and Unicode normalisation are not modelled.
- `Age.CalculateAge`: takes the (year, month, day) triples that `getFullYear`, `getMonth` and `getDate` return. Parsing the date of birth with `new Date(dob)` is not modelled. That parse reads a `YYYY-MM-DD` string as UTC midnight, so the local date can be a day earlier in time zones west of UTC. The current date is also left out.
- The clock (`getTime`), the current year (`getFullYear`), today's ISO date and `Math.random()` are parameters. The random number is the floored value below 1000.
- `Identifiers.GeneratedIdWellFormed`: requires a four-digit year and a clock of at least 100000 ms. Earlier clocks give a time suffix shorter than six digits, and the model does not state their shape.
- `Pricing.TestPrice`: a code that names a member of `Object.prototype`, such as `"toString"`, finds that member in the source's price lookup. Adding it produces string concatenation rather than a number. The model prices such a code at 0, as it does every code outside the table.
- `Pricing.OrderAmount`: the model uses unbounded integers. The source's floating-point sum is exact for these prices on any realistic selection.
- The patient id of a new order is read from the profile page's text (`split(': ')[1]`). The model takes it as a form field.
- `Search`: a row's text is the patient's text content as a single string. The whitespace of the rendered cells and the badge from the random billing status are not modelled. The message row's text is its sentence without the surrounding markup. The term is inserted into `innerHTML` without escaping. The model treats it as plain text.
- The DOM, page switching, notifications and `setTimeout` are not modelled. Nor are rendering of the orders, results and dashboard tables, or `updatePatientNotes`.
- The hard-coded sample orders and results tables are not modelled, and neither is `script.js`.
- `Status.StatusClass`: compares against "in progress" with a space, as the code does. A status written "in-progress" gets "status-info".

## Findings

| source | as written | input that shows it | evidently intended | confidence | as-written member | corrected member |
|---|---|---|---|---|---|---|
| app.js:132-160 | The row query `#patientsTable tr` also selects the "no results" row. That row's text contains the term, so it counts as a match, and the message step then removes it. | A table of patients none of which contains the lower-case term "zzz", searched for "zzz" twice by pressing Enter (or clicking Search) twice with the same term. The first search hides every row and adds the message. The second finds "zzz" in the message and removes it, leaving an empty-looking table. | Only patient rows are tested, so the message stays while nothing matches. | not executed | `Search.RepeatedSearchLosesMessage` | `Search.RepeatedSearchKeepsMessage` |
| app.js:141-148 | The same row query also hides a stale "no results" row, and the message step keeps a row that already exists, whether shown or not. | After the "zzz" search above added the message, a search for "yyy", which matches no patient and not the message either. The row loop hides the message row, and since nothing matched, the message step leaves it in place, hidden. The table shows no row and no message. | Only patient rows are tested, so the message row stays visible while nothing matches. | not executed | `Search.AsWrittenHidesStaleMessage` | `Search.SearchMessageIffNoMatch` |
