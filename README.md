# Notes app: the backend's write handlers and the screens' validators

The system is a small note-taking app: a React Native client (sign-up,
login, note list and new-note screens) talking to PHP scripts over a MySQL
table `note(id, title, content, category, date)`. This project models the
parts of it that make decisions:

- **backend/add_note.php, update_note.php, delete_note.php.** Each handler is
  a pure function from the table's rows and the request to the HTTP
  response and the rows afterwards (`AddNote.HandleAdd`,
  `UpdateNote.HandleUpdate`, `DeleteNote.HandleDelete`).
  `NoteStore.NoteStore` is the table as an object with `rows` and the
  AUTO_INCREMENT counter. Its `Add`, `Update` and `Delete` methods follow
  the scripts step by step: the guard chain with early exits, the
  `$updateFields`/`$params` lists built field by field, and the in-place
  UPDATE and DELETE. Each method is proved to answer and to leave the table
  exactly as the handler's function says.
- **backend/db.php.** `handleError` (`Db.HandleError`) and `validateFields`
  (`Db.ValidateFields`, a loop proved against `Db.MissingFields`).
- **The PHP built-ins those scripts decide with.** `trim` and `empty` on
  strings (`PhpText`), and `is_numeric`, the `(int)` cast and numeric
  comparison of an id (`PhpNumeric`). The `DateTime::createFromFormat('Y-m-d')`
  round-trip check becomes the predicate `YmdDate.IsValidYmdDate`, with its
  format/parse round trips proved.
- **screens/SignupScreen.js, LoginScreen.js, CreateNoteScreen.js.** Each
  screen's `validateForm` is a pure function giving the error messages, with
  per-field lemmas and an "accepted exactly when" lemma. Each screen is a
  class holding `formData` and `errors`, whose methods (`ValidateForm`,
  `HandleChange`, the early return of the submit handler) are proved to set
  that state. `isValidEmail` is modelled twice and the two are proved equal:
  as a scanning predicate, and as the language of its regular expression.
- **screens/HomeScreen.js.** The category filter and the comparator sort,
  with the sort modelled as a stable insertion sort.

Modelling choices:

- **The request id.** An id is modelled by its text: the contents of a JSON
  string, or the literal of a JSON number.
- **How the two handlers use the id.**
  - Update passes the id to `WHERE id = ?` unchanged. MySQL compares an
    integer column with it by value, so `UpdateNote.Target` is the row whose
    id equals the id's exact value.
  - Delete casts the id to an integer first.
  - So "12.5" is a 404 for update but deletes row 12 (`NoteLifecycle.FractionalIdDivergence`).
- **Parameters for code outside the model.**
  - `filter_var(..., FILTER_SANITIZE_STRING)` is the parameter `sanitize`.
  - `getenv('ENVIRONMENT')` is the parameter `env`.
  - A PDOException is the parameter `dbFault`, or `storeFault` for the insert.
    It carries the exception's message.
- **JavaScript strings.**
  - `trim` and `\s` strip the ECMAScript whitespace set.
  - `length` counts UTF-16 code units.
- **What the handlers do not do.**
  - No handler paginates, searches or whitelists sort fields.
  - add_note.php inserts whatever it receives, without `validateFields`.
  - add_note.php answers `{"success": ...}` or `{"error": ...}` rather than the
    `status`/`message` envelope the other handlers use.

## Model

| member | source | states |
|---|---|---|
| Db.SetColumn | backend/update_note.php:85-87 | `SET c = ?` gives column `c` the value and leaves every other column of the row as it was |
| Db.HandleError | backend/db.php:7-19 | the envelope always has status "error" and the given message; it has a debug field exactly when an error is passed and ENVIRONMENT is not "production", and then the field is that error's message |
| Db.ProductionHidesDebug | backend/db.php:14-16 | with ENVIRONMENT "production" the envelope is the plain error envelope, whatever error is passed |
| Db.MissingFieldsMembers | backend/db.php:44-52 | a field is reported exactly when it is in the required list and is absent or blank after trim |
| Db.MissingFieldsConcat | backend/db.php:46-49 | fields are reported in the order of the required list: the report on a concatenation is the concatenation of the reports |
| Db.MissingFieldsCount | backend/db.php:46-49 | a missing field is reported as many times as it is listed, and a present one never |
| Db.NoMissingFields | backend/db.php:44-52 | nothing is reported exactly when every required field is set and not blank after trim |
| Db.ValidateFields | backend/db.php:44-52 | the loop returns one "<field> is required" per missing field, in list order, and returns the empty list exactly when every required field is present |
| PhpText.BlankCharacterised | backend/db.php:47 | `empty(trim(x))` holds exactly when x is all trim characters or trims to "0" |
| PhpText.SpacedZeroIsBlank | backend/db.php:47 | " 0 " counts as missing, the `empty("0")` quirk |
| PhpText.DoubleZeroIsNotBlank | backend/db.php:47 | "00" does not count as missing |
| Text.TrimStartIsSpacePrefix | backend/db.php:47 | leading trim removes a prefix made only of whitespace and stops at the first other character |
| Text.TrimEndIsSpaceSuffix | backend/db.php:47 | trailing trim removes a suffix made only of whitespace and stops at the last other character |
| Text.TrimEmptyIffAllSpace | backend/update_note.php:51 | trimming leaves nothing exactly when every character is whitespace |
| Text.TrimIsInnerSlice | backend/update_note.php:51 | the trimmed string is a contiguous slice of the input with no whitespace at either end |
| PhpNumeric.ValueEqualsIffIntegralCast | backend/update_note.php:35-37 | a row id matches the id's exact value exactly when the id is whole and its `(int)` cast is that row id |
| PhpNumeric.DecimalTextRoundTrip | backend/delete_note.php:25-29 | an integer's JSON literal passes `is_numeric`, reads back as that integer, and both the cast and the comparison give it back |
| PhpNumeric.NotNumericExamples | backend/update_note.php:30 | "", "abc" and "." fail `is_numeric` |
| PhpNumeric.DanglingExponentIsNotNumeric | backend/update_note.php:30 | "1e" fails `is_numeric` |
| PhpNumeric.HexadecimalIsNotNumeric | backend/update_note.php:30 | "0x1A" fails `is_numeric` |
| PhpNumeric.SpacedIntegerExample | backend/update_note.php:30 | " 12 " is numeric, with value 12 |
| PhpNumeric.FractionExample | backend/delete_note.php:25-29 | "12.5" is numeric, with exact value 125·10⁻¹ |
| PhpNumeric.ExponentExample | backend/update_note.php:30 | "1e3" is numeric, with value 1·10³ |
| Text.NatDigitsRoundTrip | backend/delete_note.php:29 | the decimal digits of n read back as n |
| Text.PaddedDigitsRoundTrip | backend/update_note.php:68-69 | zero-padded digits read back as the number modulo 10^width |
| Text.DigitsPaddedRoundTrip | backend/update_note.php:68-69 | re-padding a digit string's value to its own width gives the string back |
| Text.DigitsOrder | screens/HomeScreen.js:52 | on digit strings of equal length, string order is numeric order, and equality is equality of values |
| YmdDate.DaysInMonth | backend/update_note.php:68-69 | months have 28 to 31 days; 31 for January, March, May, July, August, October and December; 29 exactly for February of a leap year |
| YmdDate.YmdTextReadsBack | backend/update_note.php:68-69 | four, two and two zero-padded digits joined by dashes have the Y-m-d shape, and read back as the year, month and day written |
| YmdDate.FormattedDateIsValid | backend/update_note.php:66-71 | formatting any calendar date as Y-m-d gives a string the check accepts, and it names that date |
| YmdDate.ValidDateIsFormatted | backend/update_note.php:68-69 | every accepted string is the Y-m-d formatting of the date it names, which is the re-format comparison |
| YmdDate.ShapedCompareByFields | screens/HomeScreen.js:52 | strings of the Y-m-d shape compare by their year digits, then month digits, then day digits |
| YmdDate.DateOrderIsChronological | screens/HomeScreen.js:52 | on accepted dates, string order is year, then month, then day order, and equal strings are the same date |
| YmdDate.LeapDayIsValid | backend/update_note.php:66-71 | "2024-02-29" is accepted |
| YmdDate.NonLeapDayIsInvalid | backend/update_note.php:66-71 | "2023-02-29" has the Y-m-d shape but is refused |
| YmdDate.MalformedDateExamples | backend/update_note.php:66-71 | a thirteenth month and a one-digit month are refused |
| AddNote.HandleAdd | backend/add_note.php:5-21 | the insert keeps every old row and takes the counter's fresh id; a success reply comes exactly when the table changed |
| AddNote.AddOnlyOnPost | backend/add_note.php:5 | any verb but POST echoes nothing and changes nothing |
| AddNote.AddStoresOneNoteAsReceived | backend/add_note.php:7-17 | a stored POST adds exactly one row under a fresh id, holding the four received values untrimmed and unvalidated, and replies `{"success": "Note added successfully"}` |
| AddNote.AddStoreFailure | backend/add_note.php:18-19 | a failing insert replies `{"error": message}`, never the success member, and changes nothing |
| UpdateNote.Merge | backend/update_note.php:51-74 | every column of the merged row is either the stored value or one the body supplies |
| UpdateNote.MergeByColumn | backend/update_note.php:51-74 | column by column, a supplied column takes its sanitized (text) or given (date) value and every other column keeps the stored one |
| UpdateNote.HandleUpdate | backend/update_note.php:1-111 | the id set never changes; any answer but success leaves the rows unchanged; a changed row is exactly the one the success envelope returns |
| UpdateNote.TargetIsTheRowWithThatValue | backend/update_note.php:35-37 | the existence query finds a row exactly when `Target` names one, and that row is the target |
| UpdateNote.UpdatePreflight | backend/update_note.php:6-9 | OPTIONS gives 200 with no body and no change |
| UpdateNote.UpdateWrongVerb | backend/update_note.php:11-18 | any verb but OPTIONS, PUT and POST gives 405 with status "error" and no change |
| UpdateNote.UpdateRejectsBadId | backend/update_note.php:29-32 | a missing or non-numeric id gives 400 "Valid note ID is required" and no change |
| UpdateNote.UpdateUnknownId | backend/update_note.php:34-44 | a numeric id that matches no row gives 404 "Note not found" and no change, whatever the body's other members hold |
| UpdateNote.UpdateBadDateRejectsAll | backend/update_note.php:66-71 | a supplied date that fails the check gives 400 and changes no column, even when other fields qualify |
| UpdateNote.UpdateNothingToSet | backend/update_note.php:76-79 | with no qualifying field and no date, the answer is 400 "No valid fields provided for update" and there is no change |
| UpdateNote.UpdateSuccess | backend/update_note.php:51-102 | success returns the merged row as data; supplied columns take their values, unsupplied columns and all other rows are unchanged |
| UpdateNote.UpdateOnlyCategory | backend/update_note.php:61-64 | sending only a category changes only that row's category |
| DeleteNote.DeleteRow | backend/delete_note.php:45-49 | the DELETE removes exactly that key, and the affected-row count is positive exactly when the key was present |
| DeleteNote.HandleDelete | backend/delete_note.php:1-68 | rows are only ever removed; success comes exactly when a row was removed, and then exactly that row's key is gone and its integer id is reported |
| DeleteNote.DeletePreflight | backend/delete_note.php:6-9 | OPTIONS gives 200 with no body and no change |
| DeleteNote.DeleteWrongVerb | backend/delete_note.php:11-18 | any verb but OPTIONS, DELETE and POST gives 405 with status "error" and no change |
| DeleteNote.DeleteRejectsBadId | backend/delete_note.php:25-27 | an undecodable body or a missing or non-numeric id gives 400 "Valid note ID is required" and no change |
| DeleteNote.DeleteUnknownId | backend/delete_note.php:29-42 | an id whose integer cast names no row gives 404 "Note not found" and no change |
| DeleteNote.DeleteRemovesExactlyThatRow | backend/delete_note.php:29-56 | deleting an existing id removes exactly the row its cast names, keeps all others, and reports that integer id |
| DeleteNote.DeleteTwiceIsNotFound | backend/delete_note.php:32-42 | a second delete with the same id gives 404 and no change |
| NoteStore.NoteStore.constructor | backend/add_note.php:14 | an empty table whose first id is 1 |
| NoteStore.NoteStore.Add | backend/add_note.php:5-21 | the reply and the new table are those of `AddNote.HandleAdd`, and the counter still names a fresh id |
| NoteStore.NoteStore.FindById | backend/update_note.php:35-37 | the lookup finds a row exactly when some row id equals the id's value, and the row it finds is `Target`'s |
| NoteStore.NoteStore.Update | backend/update_note.php:1-111 | the response and the new rows are those of `UpdateNote.HandleUpdate` |
| NoteStore.NoteStore.CollectFields | backend/update_note.php:47-74 | the date is accepted exactly when absent or valid; the lists then name exactly the supplied columns with their values, and are empty exactly when nothing qualifies |
| NoteStore.NoteStore.WriteFields | backend/update_note.php:84-87 | writing the collected columns and values gives row k the merge of the request into it, and changes no other row |
| NoteStore.NoteStore.SetColumns | backend/update_note.php:85-87 | listed columns of row k take their parameters, the other columns and all other rows are unchanged |
| NoteStore.NoteStore.RemoveRow | backend/delete_note.php:45-49 | the rows and the affected count are those of `DeleteNote.DeleteRow` |
| NoteStore.NoteStore.Delete | backend/delete_note.php:1-68 | the response and the new rows are those of `DeleteNote.HandleDelete` |
| NoteLifecycle.CreateThenChangeCategory | backend/update_note.php:61-102 | updating a just-created note's category by its new id succeeds and changes only that note's category |
| NoteLifecycle.CreateThenDeleteRestoresRows | backend/delete_note.php:45-56 | deleting a just-created note by its new id succeeds and restores the rows as they were |
| NoteLifecycle.FractionalIdDivergence | backend/delete_note.php:29 | the id "12.5" gives 404 for update but deletes row 12 |
| JsText.BlankIffAllSpace | screens/SignupScreen.js:44 | `!s.trim()` holds exactly when every character is JavaScript whitespace; "0" is not blank |
| JsText.Utf16Length | screens/SignupScreen.js:56 | `length` is between the number of characters and twice that |
| JsText.EmojiCountTwice | screens/LoginScreen.js:50 | three emoji, each outside the Basic Multilingual Plane, have a `length` of 6 |
| Email.IndexOf | screens/SignupScreen.js:36 | the first occurrence of a character, or the length when it is absent |
| Email.ValidEmailMatchesRegex | screens/SignupScreen.js:35-38 | every string the validator accepts matches `^[^\s@]+@[^\s@]+\.[^\s@]+$` |
| Email.RegexMatchIsValidEmail | screens/SignupScreen.js:35-38 | every string matching the regular expression is accepted |
| Email.ValidEmailIffRegex | screens/LoginScreen.js:32-36 | the validator accepts exactly the regular expression's language |
| Email.ValidEmailIsNotBlank | screens/SignupScreen.js:48-52 | a valid email is never blank, so the format message is never hidden by "required" |
| Email.AcceptedExample | screens/SignupScreen.js:36 | "a@b.co" is accepted |
| Email.RejectedExamples | screens/SignupScreen.js:36 | two '@', a dot right after the '@', and a space each make the address invalid |
| FormState.AsErrorState | screens/SignupScreen.js:66 | `setErrors(newErrors)` shows exactly the collected messages |
| FormState.ClearError | screens/SignupScreen.js:110-115 | the field's error is cleared exactly when it was set, and every other error is unchanged |
| FormState.ClearErrorIdempotent | screens/LoginScreen.js:96-101 | typing into the same field again changes no error |
| FormState.ClearAfterValidation | screens/CreateNoteScreen.js:97-102 | after a validation, typing into a field clears exactly that field's message |
| SignupScreen.SignupErrors | screens/SignupScreen.js:41-68 | only the four field names can be keys, and every message is non-empty |
| SignupScreen.NameChecked | screens/SignupScreen.js:44-46 | the name is reported, as required, exactly when it is blank after trim |
| SignupScreen.EmailChecked | screens/SignupScreen.js:48-52 | "Email is required" when the email is blank after trim; otherwise "Please enter a valid email" exactly when the untrimmed text is invalid |
| SignupScreen.PasswordChecked | screens/SignupScreen.js:54-58 | the untrimmed password is reported exactly when it has fewer than 6 code units, as required when it is empty |
| SignupScreen.ConfirmationChecked | screens/SignupScreen.js:60-64 | the confirmation is reported when it is empty ("Please confirm your password") or differs ("Passwords do not match") |
| SignupScreen.SignupAcceptsExactly | screens/SignupScreen.js:41-68 | the form is accepted exactly when the name is not blank, the email is valid, the password has at least 6 code units, and the confirmation equals it |
| SignupScreen.SignupRejectsExamples | screens/SignupScreen.js:44-64 | a whitespace name is reported, and a mismatched confirmation gives "Passwords do not match" |
| SignupScreen.SignupScreen.constructor | screens/SignupScreen.js:24-30 | the four fields start empty, with no errors |
| SignupScreen.SignupScreen.ValidateForm | screens/SignupScreen.js:41-68 | the errors shown become exactly the collected messages, and the result is true exactly when there are none |
| SignupScreen.SignupScreen.HandleSignUp | screens/SignupScreen.js:71-74 | sign-up goes on exactly when the form is valid |
| SignupScreen.SignupScreen.HandleChange | screens/SignupScreen.js:104-116 | only the named field changes, and only its error is cleared, and only if one was shown |
| LoginScreen.LoginErrors | screens/LoginScreen.js:39-56 | only "email" and "password" can be keys, and every message is non-empty |
| LoginScreen.LoginFieldsChecked | screens/LoginScreen.js:42-52 | the email is "required" when blank and otherwise "invalid" exactly when the untrimmed text is invalid; the untrimmed password is reported exactly when it is under 6 code units |
| LoginScreen.LoginAcceptsExactly | screens/LoginScreen.js:39-56 | the form is accepted exactly when the email is valid and the password has at least 6 code units |
| LoginScreen.PaddedEmailIsInvalid | screens/LoginScreen.js:42-46 | " a@b.co" passes the required check but fails the format check |
| LoginScreen.EmojiPasswordIsLongEnough | screens/LoginScreen.js:48-52 | a password of three emoji is not reported as too short, whatever the email |
| LoginScreen.LoginScreen.constructor | screens/LoginScreen.js:25-29 | both fields start empty, with no errors |
| LoginScreen.LoginScreen.ValidateForm | screens/LoginScreen.js:39-56 | the errors shown become exactly the collected messages, and the result is true exactly when there are none |
| LoginScreen.LoginScreen.HandleLogin | screens/LoginScreen.js:59-62 | login goes on exactly when the form is valid |
| LoginScreen.LoginScreen.HandleChange | screens/LoginScreen.js:90-102 | only the named field changes, and only its error is cleared, and only if one was shown |
| CreateNoteScreen.NoteErrors | screens/CreateNoteScreen.js:35-52 | only title, content and category can be keys (never date), and every message is non-empty |
| CreateNoteScreen.NoteFieldsChecked | screens/CreateNoteScreen.js:38-48 | title and content are reported exactly when blank after trim; the category only when it is the empty string |
| CreateNoteScreen.NoteAcceptsExactly | screens/CreateNoteScreen.js:35-52 | the form is accepted exactly when title and content are not blank and a category is chosen |
| CreateNoteScreen.SaveAlertAsWritten | screens/CreateNoteScreen.js:66-79 | the save is reported a success exactly when the reply's `status` is "success" |
| CreateNoteScreen.SaveAlwaysReportedAsFailure | screens/CreateNoteScreen.js:66 | against add_note.php's replies, every save, stored or not, is reported as "Failed to create note" |
| CreateNoteScreen.SaveAlert | screens/CreateNoteScreen.js:66-79 | corrected reading: success exactly when the reply has the `success` member |
| CreateNoteScreen.SaveReportedAsStored | screens/CreateNoteScreen.js:66-79 | with the corrected reading, success is shown exactly when the note was stored, and the store's own message is shown otherwise |
| CreateNoteScreen.CreateNoteScreen.constructor | screens/CreateNoteScreen.js:24-30 | empty title and content, category "Personal", today's date, no errors |
| CreateNoteScreen.CreateNoteScreen.ValidateForm | screens/CreateNoteScreen.js:35-52 | the errors shown become exactly the collected messages, and the result is true exactly when there are none |
| CreateNoteScreen.CreateNoteScreen.HandleSaveNote | screens/CreateNoteScreen.js:55-64 | an invalid form gets the "Please fill in all required fields" alert and is never posted; a valid one posts its four fields as they are |
| CreateNoteScreen.CreateNoteScreen.HandleChange | screens/CreateNoteScreen.js:91-103 | only the named field changes, and only its error is cleared, and only if one was shown |
| HomeScreen.Filter | screens/HomeScreen.js:45 | the filtered notes are exactly the input notes of that category, and there are no more of them than input notes |
| HomeScreen.FilterConcat | screens/HomeScreen.js:45 | filtering keeps the input order |
| HomeScreen.FilterCount | screens/HomeScreen.js:45 | each note of the category is kept as many times as it occurs, and every other note is dropped |
| HomeScreen.FilteredNotesSelect | screens/HomeScreen.js:42-45 | "All" shows the input list itself; any other selection shows exactly the notes of that category |
| HomeScreen.FilterKeepsMatching | screens/HomeScreen.js:45 | a list whose notes all have the category is its own filter |
| HomeScreen.Compare | screens/HomeScreen.js:48-55 | answers only -1, 0 or 1, the sign of the source's comparator: title order for "Title", reversed date order for "Date", 0 for any other sort key |
| HomeScreen.CompareFlip | screens/HomeScreen.js:48-55 | the comparator is antisymmetric |
| HomeScreen.Insert | screens/HomeScreen.js:48 | insertion adds exactly the one note |
| HomeScreen.SortedNotes | screens/HomeScreen.js:48 | the sorted copy is a permutation of the filtered list |
| HomeScreen.InsertSorted | screens/HomeScreen.js:48 | inserting into a sorted list keeps it sorted |
| HomeScreen.SortedNotesSorted | screens/HomeScreen.js:48-55 | the sorted copy is in the comparator's order, and is a permutation of its input |
| HomeScreen.TitlesAscending | screens/HomeScreen.js:49-50 | sorted by "Title", every title sorts no later than every title after it |
| HomeScreen.SortedNotesFromInput | screens/HomeScreen.js:48 | every note shown was fetched |
| HomeScreen.DatesNewestFirst | screens/HomeScreen.js:51-52 | sorted by "Date", no note's date is earlier than the date of the note after it |
| HomeScreen.OtherOptionKeepsOrder | screens/HomeScreen.js:54 | any other option keeps the filtered order |
| HomeScreen.ShownNotes | screens/HomeScreen.js:42-55 | the list shown is sorted and holds each note of the selected category ("All": each note) as often as fetched |
| Text.LexCompareAntisymmetric | screens/HomeScreen.js:50 | the title order is antisymmetric and ties only equal strings |
| Text.LexCompareTransitive | screens/HomeScreen.js:50 | the title order is transitive |

## Left out

- The database connection, its credentials and the CORS headers (backend/db.php:2-4, 22-41) are I/O set-up. The table is a map from id to row.
- `filter_var(..., FILTER_SANITIZE_STRING)` is library behaviour. It is the function parameter `sanitize`, and nothing is assumed about it.
- UpdateNote.HandleUpdate: the success envelope returns the stored date as stored. The response's `date(..., strtotime(...))` re-formatting (backend/update_note.php:95) is not modelled, since it is library date parsing. The two agree on dates that passed the check.
- UpdateNote.HandleUpdate: a PDOException is modelled only at the first statement (the existence query). An exception from the UPDATE or the re-select after a change is not modelled, since that is driver behaviour.
- DeleteNote.HandleDelete: a PDOException is modelled only at the first statement (the existence query).
- DeleteNote.HandleDelete: the "Failed to delete note" branch is in the model. With requests handled one at a time it cannot be reached, because the existence check has just found the row. The check-then-act gap between the SELECT and the DELETE (or UPDATE) is a concurrency matter and is not modelled.
- AddNote.HandleAdd: members missing from the POST body (inserted as NULL), bodies that are not JSON, and non-string JSON values are not modelled. The four members are taken to be strings.
- The update and delete bodies: values are taken to be strings. A JSON number id is modelled by its literal, and an undecodable or falsy body is `None`. Booleans, arrays and objects as member values are not modelled.
- PhpNumeric: an id is compared by exact decimal value. Floating-point rounding of very long or very large numeric ids, and MySQL's conversion of them to a double, are not modelled.
- HomeScreen.Compare: `localeCompare` is modelled as code-point order. Locale collation rules are not modelled, since they are ICU data.
- HomeScreen.Compare: the `Date` subtraction is modelled as newest-first string order of the dates. This equals chronological order on valid Y-m-d dates (`YmdDate.DateOrderIsChronological`). `Date` parsing of other strings, and the NaN comparisons it would give, are not modelled.
- The screens' `setState` calls are modelled as immediate updates. React's batching and re-rendering are not modelled.
- Alerts, `setTimeout` delays, AsyncStorage, navigation and the axios calls are not modelled. For the new-note screen, the POST is `AddNote.HandleAdd`, and what the screen does with its reply is `CreateNoteScreen.SaveAlert`. Network errors caught by `catch` are not modelled.
- The initial date of the new-note form, `new Date().toISOString().split('T')[0]`, reads the clock. It is the constructor's parameter `today`.
- backend/get_notes.php (a `SELECT *` passthrough), screens/HomeScreen1.js, screens/ViewNoteScreen.js and App.js are not part of this model. They hold fetching, rendering and navigation only.

## Findings

| source | as written | input that shows it | evidently intended | confidence | as-written member | corrected member |
|---|---|---|---|---|---|---|
| screens/CreateNoteScreen.js:66 | the save is reported a success only when `response.data.status === 'success'`, but backend/add_note.php:17-19 replies `{"success": ...}` or `{"error": ...}` and never has a `status` member | any valid form whose POST stores the note: the reply is `{"success": "Note added successfully"}`, and the screen shows "Error: Failed to create note" | report success when the reply has the `success` member, and otherwise show the `error` member's message | not executed | CreateNoteScreen.SaveAlwaysReportedAsFailure | CreateNoteScreen.SaveReportedAsStored |
