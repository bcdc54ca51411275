# Student register — a Dafny model

RegiMate's student register is a single browser script (`studentreg/script.js`).
A form takes a student's name, id, email and contact number. The submit handler
trims the four values and runs five checks in a fixed order, and the first
failing check decides the alert. A valid form is appended to the in-memory
`students` list. After every change to the list, the whole list is written to
`localStorage` and the table is rebuilt. Each table row carries Edit and Delete
buttons bound to the row's index. Edit copies the record into the form and
removes it from the list. Delete asks for confirmation and then removes it.

The model keeps the two pure parts of that script and the state they act on:

- `Text`: the character classes and `String.prototype.trim`. It uses the full
  ECMAScript WhiteSpace/LineTerminator set, which is also what the regex class
  `\s` matches.
- `Patterns`: the three anchored regular expressions as predicates on strings.
  It proves that the email expression means "no whitespace, exactly one `@`
  with something before it, and a `.` strictly inside the domain".
- `Validation`: the `Student` record, the form, the ordered error type and
  `Validate`, with the first-failure ordering stated independently of the code.
- `Register`: the page state, made of the list, the stored snapshot (absent
  until the key is written), the rendered table and the form. It also holds the
  handlers `Submit`, `Edit`, `Delete`, `Render` and `Load`.
- `Session`: user events dispatched through the rendered table. Provided every
  `localStorage` write succeeds, it shows that every reachable page keeps the
  table and the stored copy equal to the list, and that a reload restores the
  list.
- `Results`: `Option` and `Result`.

## Model

| member | source | states |
|---|---|---|
| Text.Trim | studentreg/script.js:13-16 | the trimmed value is a slice of the input with only whitespace around it and none at either end; it is empty exactly when the input is all whitespace |
| Text.TrimUnique | studentreg/script.js:13-16 | any non-empty trimmed slice with only whitespace around it is the result of trimming, so Trim's contract determines it |
| Text.TrimIdempotent | studentreg/script.js:13-16 | trimming twice gives the same as trimming once |
| Validation.TrimForm | studentreg/script.js:13-16 | every field the checks see has no whitespace at either end |
| Patterns.EmailPatternIsShape | studentreg/script.js:41 | the email regex accepts exactly the strings with no whitespace, one `@` not in first place, and a `.` that is neither first nor last in the domain |
| Validation.Validate | studentreg/script.js:13-47 | a successful validation yields the four trimmed inputs as the record, and that record is valid (trimmed name of letters/spaces, digit id and contact, email of the one-`@` shape) |
| Validation.ValidateReportsFirstFailure | studentreg/script.js:20-44 | the reported error is the first check, in the order empty/name/id/contact/email, that the trimmed inputs fail; validation succeeds exactly when every check passes |
| Validation.EmptyFieldIsMissing | studentreg/script.js:20-23 | a field that is blank after trimming gives the missing-field error whatever the other fields hold |
| Validation.ContactCheckedBeforeEmail | studentreg/script.js:34-44 | with all fields filled and a good name and id, a bad contact number is reported whatever the email holds |
| Validation.ResubmitValid | studentreg/script.js:13-47 | submitting the values of a valid record gives back that same record, so the records a submit can produce are exactly the valid ones |
| Register.Render | studentreg/script.js:68-89 | one row per record, in list order; row k shows record k and passes k to both of its buttons |
| Register.Load | studentreg/script.js:2 | at start-up the list is the stored list, or empty when the key is absent, the table shows it, and the form keeps whatever the inputs held |
| Register.Commit | studentreg/script.js:121-123 | after a change the stored copy equals the new list and the table is rendered from it |
| Register.RemoveAt | studentreg/script.js:106 | removing index i shortens the list by one, keeps the elements before i in place and shifts the ones after it down by one, and takes out exactly one copy of the removed record |
| Register.Submit | studentreg/script.js:47-59 | a failed validation changes nothing; a successful one appends the record after an unchanged prefix, refreshes the stored copy and table and clears the form |
| Register.Edit | studentreg/script.js:96-111 | the form receives record i's four values, record i leaves the list, and the stored copy and table follow |
| Register.Delete | studentreg/script.js:118-125 | declining leaves the page unchanged; confirming removes exactly record i, refreshes the stored copy and table and keeps the form |
| Register.EditThenResubmit | studentreg/script.js:96-111 | editing a valid record and resubmitting unchanged moves it to the end: same multiset of records, stored copy in step |
| Register.HandlersKeepRecordsValid | studentreg/script.js:46-50 | submit, edit and delete keep every record valid when all were valid before |
| Session.RenderedIndicesInRange | studentreg/script.js:82-83 | both buttons of a rendered row receive an index inside the current list, and each index points at the record the row shows |
| Session.Step | studentreg/script.js:9-83 | typing, submitting or clicking a rendered button on a coherent page leaves it coherent (the table shows the list; the stored copy, once written, equals it), assuming the snapshot write succeeds |
| Session.Run | studentreg/script.js:48-56 | any sequence of events keeps the page coherent, because every change is followed by a snapshot write and re-render here and at lines 108-110 and 121-123; this assumes every snapshot write succeeds |
| Session.ReloadRestores | studentreg/script.js:2 | reloading the page at any point of a session restores the same list and table, provided every snapshot write succeeded |
| Session.RunKeepsRecordsValid | studentreg/script.js:46-50 | a session that starts with only valid records never holds an invalid one |
| Session.FreshSessionRecordsValid | studentreg/script.js:46-50 | a session that starts with an empty storage key holds only records that passed validation |
| Session.AnnIsValid | studentreg/script.js:13-47 | "Ann Lee" / "101" / "a@b.com" / "5551234" validates to a record holding those four values |
| Session.DigitInNameRejected | studentreg/script.js:25-28 | the name "A1" is rejected with the invalid-name error |
| Session.AnnLeeSession | studentreg/script.js:96-111 | submit, edit and resubmit on an empty store: one record shown, then an empty list with the form filled in, then the same record back |

## Left out

- Register.Edit: requires `0 <= i < |students|`. In the source an out-of-range index throws a TypeError at line 100, before anything changes. Indices only ever come from the rendered table (see `Session.RenderedIndicesInRange`).
- Register.Delete: requires `0 <= i < |students|`. `splice` with a negative index would remove from the end, and with an index past the end it would remove nothing. Those indices never come from the table.
- The DOM is not modelled: element lookup, `innerHTML` and appending rows. The source inserts the four values into `innerHTML` unescaped (lines 76-80), so a cell shows the value parsed as HTML, and a validated email such as `<b>a@b.c` can carry markup. The model takes a row's cells to be the raw strings, plus the index each button receives.
- `alert` is not modelled. The alert's message is represented by the `ValidationError` value.
- `confirm` is not modelled as a prompt. Its answer is a boolean argument to `Delete`.
- `form.reset()` is modelled as emptying all four inputs. The page's HTML, with any default values, is not part of this model. For the same reason the form's values at start-up are a parameter of `Load`.
- `localStorage` and JSON are not modelled. The snapshot is the list itself, or `None` while the key is absent.
- Register.Commit: assumes every `localStorage.setItem` succeeds. In the source the list changes first (push at line 50, splice at lines 106 and 121) and the write comes after (lines 53, 109, 122). If the write throws, for example with a quota error, the list has changed but the stored copy has not. The re-render (lines 56, 110, 123) and `form.reset()` (line 59) are then skipped, and a reload loses the change. `Session.Step`, `Session.Run` and `Session.ReloadRestores` inherit this assumption.
- `JSON.parse` throws on a malformed stored value. That failure, and stored values that are not a list of four-string objects, are not modelled.
- Records loaded from storage are never validated. The model reflects this: validity is proved only for sessions that start with valid records or with an empty key.
- Render idempotence has no lemma, because `Render` is a function of the list, so rendering twice with no change gives the same rows by construction.
- Strings are sequences of Unicode scalar values. JavaScript strings can also hold lone UTF-16 surrogates, which this model cannot express. For the character classes used here (whitespace, `@`, ASCII letters and digits), code units and code points give the same answers.
- Duplicate ids are not rejected, and the model does not forbid them either.

## Notes on behaviour

- Loading does not fail soft on a malformed stored value: line 2 throws. Only a stored value that parses to something falsy falls back to `[]`: a missing key, or a stored `null`, `false`, `0` or `""`. A stored `[]` is already empty. `Load` models the missing-key case as `None`.
- Removal never raises an index error. `editStudent` fails only through the `undefined` record, and `deleteStudent` passes any index to `splice`. The model follows the code, restricted to indices that the table can produce.
