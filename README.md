# UserDataApp student records, modelled in Dafny

The application keeps student records for several users. Each record has an id, an owner, a name, a group, an e-mail address, a rating, an enrolment date and time, a scholarship flag, a course year and a photo.

This project models the core of the application:

- **Record store** (`DataService`, module `Data`). An ordered, in-memory table of records, loaded once from a JSON file and rewritten after every change. It is a class:
  - the field `table` is the table;
  - the ghost field `persisted` is the table a fresh load of the file would give.

  Each mutator states:
  - its error cases;
  - the new table (append, replace in place, remove one);
  - what each user sees afterwards (for an update: every user who owns neither the old nor the new record sees no change);
  - the save outcome;
  - that unique ids stay unique.
- **Credential store** (`UserService`, module `Users`):
  - `username:password` lines, parsed by a loop;
  - the three-way authentication decision;
  - the `admin:admin` seed.
- **Reports** (`ReportService`, module `Reports`):
  - HTML escaping, proved equal to a per-character entity map, free of raw markup and injective;
  - the argument guards of the three report generators;
  - the integer statistics: total, scholarship count, course-year distribution, top-ten group distribution;
  - the listing ordered by name.
- **Record** (`StudentData`, module `Models`). The record is a datatype, with its two constructors.
- **Edit dialog** (`AddEditDataWindow`, module `EditForm`). A class whose `UpdateStudentDataFromControls` method runs the seven field checks in order and collects their messages. Only when every check passes does it copy the parsed values into the record, with the window's user as owner.

Shared pieces:

- `Errors` is the exception hierarchy as one datatype.
- `Text` holds the .NET string primitives the core uses: `IsNullOrWhiteSpace`, ordinal case-insensitive equality, `Trim`, `Split`, `Replace`.
- `Sorting` holds `OrderBy` as an insertion sort under a total preorder, and the ordinal string order.
- `Wrappers` holds `Option`, `Result` and `Outcome`.

Modelling conventions:

- A C# `null` string is the empty string; every null test in the core goes through `IsNullOrWhiteSpace` or `IsNullOrEmpty`. A null record or list is `None`. One consequence: a null `Group` and an empty one are the same key when the report groups by group, and a null `FullName` sorts as the empty name.
- A `Guid` is a `nat`. `DateTime` is a day number and `TimeSpan` a number of minutes.
- Whatever a file read yields is a parameter: `DataFile` and `UsersFile`. So are the outcome of each write, the id `Guid.NewGuid()` returns, `DateTime.Today`, and the rating and time parsers (`Parsers`).

## Model

| member | source | states |
|---|---|---|
| Models.NewStudentData | UserDataAppSolution/StudentData.cs:7-22 | a new record has the freshly generated id and today's date; every other field is at its default (empty strings, rating 0, no scholarship, first course year) |
| Models.NewStudentDataFor | UserDataAppSolution/StudentData.cs:25-33 | the three-argument constructor stores owner, full name and group exactly as given, today's date and the first course year, and has a fresh id |
| Data.LoadData | UserDataAppSolution/DataService.cs:38-87 | the load fails exactly when the file is unreadable, and then with a data-access error carrying the cause; a missing file, blank content or a JSON `null` give the empty table; a non-empty table is exactly the stored list, never a partial one |
| Data.SaveLoadRoundTrip | UserDataAppSolution/DataService.cs:90-100 | what a save writes, a load reads back: same records, same order |
| Data.IndexOfId | UserDataAppSolution/DataService.cs:183 | the lookup by id finds the first entry with that id, and finds nothing exactly when no entry has it |
| Data.Owned | UserDataAppSolution/DataService.cs:144-146 | the owner filter holds exactly the table's records whose owner equals the name ignoring case, and is no longer than the table |
| Data.OwnedAppend | UserDataAppSolution/DataService.cs:144-146 | the owner filter distributes over concatenation, so it keeps the table's order |
| Data.RemoveAt | UserDataAppSolution/DataService.cs:248 | removing one entry shortens the table by one and leaves the other entries, as a multiset, unchanged |
| Data.AppendSeenByOwner | UserDataAppSolution/DataService.cs:167 | an appended record shows up last in its owner's view and in no other user's view |
| Data.RemoveUnseenByOthers | UserDataAppSolution/DataService.cs:248 | removing an entry leaves the view of every user who does not own it unchanged |
| Data.ReplaceUnseenByOthers | UserDataAppSolution/DataService.cs:207 | replacing an entry by another record that a user owns neither before nor after leaves that user's view unchanged |
| Data.RemovedIdGone | UserDataAppSolution/DataService.cs:230-248 | after the entry with an id is removed from a table of unique ids, the ids stay unique and the id is gone, so deleting it again is a silent no-op |
| Data.DataService.Loaded | UserDataAppSolution/DataService.cs:34 | a service built from a loaded table holds that table, in step with the file |
| Data.DataService.Open | UserDataAppSolution/DataService.cs:25-35 | a blank base directory is an argument error; otherwise the load's data-access error escapes, or the new service holds the loaded table in step with the file |
| Data.DataService.SaveData | UserDataAppSolution/DataService.cs:90-129 | a successful save makes the file hold the table; a failed one is a data-access error with the cause, and the file keeps its old content |
| Data.DataService.GetDataForUser | UserDataAppSolution/DataService.cs:132-147 | a blank user name gives no records; otherwise exactly the table's records owned by the user, ignoring case |
| Data.DataService.AddStudentData | UserDataAppSolution/DataService.cs:150-171 | a null record or a blank owner is refused with nothing changed; otherwise the record, with the fresh id, is appended and appears last in its owner's view; the table changes even when the save fails; unique ids stay unique |
| Data.DataService.UpdateStudentData | UserDataAppSolution/DataService.cs:174-218 | a null record is refused; an unknown id is not-found carrying that id, with nothing changed; otherwise the first entry with that id is replaced in place and the rest kept, with no owner check, and every user who owns neither the old nor the new record sees no change; then saved; unique ids stay unique |
| Data.DataService.DeleteDataObject | UserDataAppSolution/DataService.cs:221-252 | a blank acting user is refused; an unknown id is a silent success with nothing changed; a non-owner is refused with an invalid-operation error and nothing changed; the owner's delete removes exactly that entry, keeps every other user's view and then saves |
| Users.ParseLineSound | UserDataAppSolution/UserService.cs:54-57 | an accepted line has exactly one `:`; the password is everything after it, verbatim; the name is the trimmed, non-blank text before it |
| Users.ParseLineAccepts | UserDataAppSolution/UserService.cs:54-57 | every `name:password` line without another `:` and with a non-blank name is accepted as the trimmed name and the verbatim password |
| Users.FilterMapMembers | UserDataAppSolution/UserService.cs:52-58 | every user loaded comes from some accepted line, and every accepted line yields a user |
| Users.LoadUsers | UserDataAppSolution/UserService.cs:39-71 | a missing file gives no users; a failed read is a data-access error with the cause; otherwise the loop yields the accepted lines, in order |
| Users.FindUser | UserDataAppSolution/UserService.cs:91 | the lookup finds the first user whose name equals the input ignoring case, and nothing exactly when none does |
| Users.Authenticate | UserDataAppSolution/UserService.cs:73-105 | blank input is an authentication error whatever the file; with non-blank input, a failed load gives exactly the load's own error, and every other error is an authentication error; a success is a loaded user whose name matches ignoring case and whose password is equal exactly |
| Users.AuthenticateDecision | UserDataAppSolution/UserService.cs:91-104 | with non-blank input and a readable file: user-not-found exactly when no name matches; otherwise the first match alone decides between success and invalid-password, by exact comparison |
| Users.EnsureUserFileExists | UserDataAppSolution/UserService.cs:20-36 | an existing file is untouched; a missing one becomes the single line `admin:admin`, or stays missing when that write fails |
| Users.SeededUsers | UserDataAppSolution/UserService.cs:27 | the seeded file holds exactly the user `admin` with password `admin` |
| Users.AuthenticateAgainstOne | UserDataAppSolution/UserService.cs:91-104 | against a file with a single user, the three outcomes depend only on whether the name matches and the password is equal |
| Users.SeededAuthentication | UserDataAppSolution/UserService.cs:20-36 | after seeding, `admin` under any capitalisation with password `admin` authenticates; another password is invalid; any other name is not found |
| Reports.EscapeHtml | UserDataAppSolution/ReportService.cs:376-386 | null or empty input gives the empty string, and the output never holds a raw `'` |
| Reports.EscapeHtmlIsEscapeEach | UserDataAppSolution/ReportService.cs:380-385 | the chain of five replacements equals the per-character entity map, because `&` is replaced first |
| Reports.EscapeHtmlNoMarkup | UserDataAppSolution/ReportService.cs:380-385 | escaped text holds no raw `<`, `>`, `"` or `'` |
| Reports.EscapeHtmlIdentity | UserDataAppSolution/ReportService.cs:380-385 | text without any of the five special characters is returned unchanged |
| Reports.UnescapeEscapeHtml | UserDataAppSolution/ReportService.cs:380-385 | decoding the five entities gives back the original text |
| Reports.EscapeHtmlInjective | UserDataAppSolution/ReportService.cs:380-385 | two different texts never escape to the same output |
| Reports.CheckStudent | UserDataAppSolution/ReportService.cs:108-109 | a null student, then a blank path, are refused with argument-null errors; otherwise the student passes |
| Reports.CheckStudents | UserDataAppSolution/ReportService.cs:159-163 | a null or empty list is refused first, then a blank path; what passes is the non-empty list itself |
| Reports.ScholarshipCount | UserDataAppSolution/ReportService.cs:236 | the scholarship count is the number of positions holding a student with the flag; so it is at most the total, zero exactly when nobody has the flag, and the total exactly when everybody has it |
| Reports.QuickStatsOf | UserDataAppSolution/ReportService.cs:232-274 | the total is the list length, and the scholarship count is the number of positions holding a flagged student, at most the total |
| Reports.CourseDistributionSpec | UserDataAppSolution/ReportService.cs:276-283 | each course row counts the students of its year and is at least 1; every year that has a student has a row; rows ascend by year |
| Reports.CourseDistributionTotal | UserDataAppSolution/ReportService.cs:276-283 | the course rows' counts sum to the number of students |
| Reports.GroupKeys | UserDataAppSolution/ReportService.cs:318 | the groups are listed once each, and exactly the groups some student is in |
| Reports.GroupDistribution | UserDataAppSolution/ReportService.cs:314-322 | the group rows number the groups, capped at ten, and go by non-increasing count |
| Reports.GroupDistributionCounts | UserDataAppSolution/ReportService.cs:317-322 | each shown count is the number of students in that group, at least 1, and no group is shown twice |
| Sorting.SortByKeepsTies | UserDataAppSolution/ReportService.cs:320 | the sort is stable: elements the ordering ranks equal keep whatever order the input gave them |
| Reports.GroupKeysInOrder | UserDataAppSolution/ReportService.cs:318 | the groups come in order of first appearance: each key's first student comes before the next key's first student |
| Reports.GroupDistributionOrder | UserDataAppSolution/ReportService.cs:318-321 | the shown rows go by count, and rows of equal count by the first appearance of their group, since the sort is stable |
| Reports.GroupDistributionCut | UserDataAppSolution/ReportService.cs:318-321 | which groups make the top ten: a student's group is shown, or every shown group is larger, or as large and appearing earlier |
| Reports.GroupDistributionTop | UserDataAppSolution/ReportService.cs:320-321 | a student's group is shown, or it is no larger than the smallest group shown |
| Reports.ByNameTotal | UserDataAppSolution/ReportService.cs:177 | ordering by full name (ordinal) is a total preorder, so the sort is well defined |
| Reports.SingleStudentReport | UserDataAppSolution/ReportService.cs:106-109 | the single report fails exactly when its guard does, and otherwise shows the student given |
| Reports.MultipleStudentsStable | UserDataAppSolution/ReportService.cs:177 | in a list without repeated records, students of equal name are listed in input order |
| Reports.MultipleStudentsReport | UserDataAppSolution/ReportService.cs:157-177 | fails exactly when the guard does, with its error; otherwise the listing is a permutation of the input sorted by full name, and the quick statistics appear exactly when requested, with the true total and scholarship count |
| Reports.AggregateReport | UserDataAppSolution/ReportService.cs:197-215 | fails exactly when the guard does, with its error; otherwise the total is positive, the counts are exact, and the course and group tables are the distributions and never empty |
| EditForm.IsEmailAddressMatches | WpfUserDataApp/AddEditDataWindow.xaml.cs:82 | the address check accepts exactly the strings the pattern's body matches: one `@`, no white space, a non-empty local part, a `.` inside the domain |
| EditForm.AsWrittenAcceptsTrailingLineFeed | WpfUserDataApp/AddEditDataWindow.xaml.cs:82 | every valid address followed by a line feed passes the pattern as .NET applies it, though the address check refuses it |
| EditForm.AsWrittenDiffers | WpfUserDataApp/AddEditDataWindow.xaml.cs:82 | the pattern as .NET applies it accepts every address, and besides exactly the addresses followed by one line feed |
| EditForm.IntendedEmailError | WpfUserDataApp/AddEditDataWindow.xaml.cs:82-91 | the intended e-mail check passes exactly the addresses, and reports "empty" exactly for blank text |
| EditForm.EmailChecksDiffer | WpfUserDataApp/AddEditDataWindow.xaml.cs:82-91 | the dialog's e-mail check and the intended one disagree exactly on an address followed by one line feed, which the dialog passes and the intended check calls malformed |
| EditForm.RatingsLetThrough | WpfUserDataApp/AddEditDataWindow.xaml.cs:101 | the range test `r < 0 \|\| r > 100` lets through exactly NaN and the finite values from 0 to 100, since every comparison with NaN is false |
| EditForm.ValidationErrorsOrdered | WpfUserDataApp/AddEditDataWindow.xaml.cs:66-126 | each check adds at most one error, so there are at most seven, in the order the checks run |
| EditForm.ValidationErrorsExact | WpfUserDataApp/AddEditDataWindow.xaml.cs:71-126 | for each of the nine messages, both ways: it is reported exactly when its field fails its check, the e-mail pattern applied as .NET applies it; blank and malformed e-mail exclude each other, and so do an unparsable and an out-of-range rating; a NaN rating is neither |
| EditForm.ValidationPasses | WpfUserDataApp/AddEditDataWindow.xaml.cs:71-128 | no error exactly when: the name and group are not blank; the e-mail passes the pattern as .NET applies it; the rating parses to a value the range test lets through; a date and a course are chosen; and the time parses |
| EditForm.AppliedIsValid | WpfUserDataApp/AddEditDataWindow.xaml.cs:135-146 | a saved record keeps its id and belongs to the window's user; its name and group are not blank; its e-mail passes the pattern as .NET applies it, so it is an address possibly followed by one line feed; its rating is NaN or a finite value in [0, 100] |
| EditForm.CheckTextFields | WpfUserDataApp/AddEditDataWindow.xaml.cs:66-91 | the text collected by the name, group and e-mail checks (the pattern as .NET applies it) is their messages in order, and the flag stays set exactly when none failed |
| EditForm.CheckValueFields | WpfUserDataApp/AddEditDataWindow.xaml.cs:93-126 | continuing the text checks, the final text is the messages of all failed checks in order, the flag says whether there were none, and the rating and time are the parsers' results |
| EditForm.AddEditDataWindow.ForAdd | WpfUserDataApp/AddEditDataWindow.xaml.cs:23-32 | add mode starts from a new record owned by the window's user, with no photo and no error text |
| EditForm.AddEditDataWindow.ForEdit | WpfUserDataApp/AddEditDataWindow.xaml.cs:35-44 | edit mode starts from the record passed in, holding its photo |
| EditForm.AddEditDataWindow.UpdateStudentDataFromControls | WpfUserDataApp/AddEditDataWindow.xaml.cs:64-147 | returns true exactly when no check fails; on failure the error text is the messages in check order and the record is untouched; on success the text is cleared and the record takes every checked value, the photo and the window's user as owner |

## Left out

- Files and JSON. Reading and writing files and the JSON serialiser are not modelled: a read is what it yields (`DataFile`, `UsersFile`), and a write is a success or a failure cause. A write that fails half-way is taken to leave the file as it was.
- The file lock. The lock around loads and saves is left out; the operations are sequential.
- `Guid.NewGuid()`, `DateTime.Today` and the parsers. These are parameters. The fresh id is required to differ from every id in the table, which is what a new `Guid` promises.
- `double.TryParse` and `TimeSpan.TryParseExact`. These are the parser functions in `Parsers`; no property of the invariant culture or of the `hh:mm` formats is assumed. A parsed rating is a `Double`: finite, NaN or an infinity. The rounding of finite values is not modelled.
- Case folding. `OrdinalIgnoreCase` is folded on ASCII letters only.
- White space. `char.IsWhiteSpace` and the regex class `\s` cover the ASCII white space, NEL and no-break space, not the other Unicode space separators.
- Name ordering. `OrderBy(s => s.FullName)` is modelled with the ordinal string order; the culture-sensitive collation of the default comparer is not modelled.
- Report floating point. The averages, maximum, percentages, the rating histogram (`GenerateRatingAnalysis`), and the `F2` and date formatting are not modelled.
- Report markup. The HTML shell, the CSS, the per-row markup, the file write, the async and sync wrappers and `ValidateFilePathAsync` are not modelled.
- Reports.MultipleStudentsReport: the stability of `OrderBy` is stated (by `MultipleStudentsStable`) only for lists without repeated records. Records are values here, so two equal entries cannot be told apart by their position in the listing.
- `CourseYear` is not part of this model's sources. It is taken to have four values in declaration order.
- Null owners. A record with a null owner, which makes the owner comparisons throw, is not modelled: owners are strings, and null is the empty string.
- Aliasing. `GetDataForUser` copies the list but shares the record objects with the table. The main window gives the edit dialog a shallow copy of the selected record (WpfUserDataApp/MainWindow.xaml.cs:252), so the dialog's changes reach the table only through `UpdateStudentData`, as in this model. `AddStudentData` also writes the new id into the caller's object. Records are values here, so a change made through a shared reference, which would reach the table at once, is not modelled.
- `UpdateStudentData`'s branch for an entry found by id but missing from the list is left out: it cannot happen, since the entry was just found there.
- Registration. `AddUser` and `UserAlreadyExistsException` belong to registration, which is not part of this model. The error is kept in `Errors` as `AlreadyExists`.
- Users.EnsureUserFileExists: a failed seed write is swallowed, and the file is taken to stay missing. The warning it prints is not modelled.
- EditForm.AddEditDataWindow.ForAdd, EditForm.AddEditDataWindow.ForEdit: `PopulateControls` fills the controls from the record by formatting its values. That formatting, the image display and the photo browser are not modelled; the controls' values are the method's input (`Controls`).
- EditForm.AddEditDataWindow.UpdateStudentDataFromControls: the sequence of checks is split into `CheckTextFields` and `CheckValueFields`, which run the same statements in the same order.

## Findings

| source | as written | input that shows it | evidently intended | confidence | as-written member | corrected member |
|---|---|---|---|---|---|---|
| WpfUserDataApp/AddEditDataWindow.xaml.cs:82 | `Regex.IsMatch` with `^[^@\s]+@[^@\s]+\.[^@\s]+$` and no options: `$` also matches just before a final line feed, so an address followed by `\n` passes | `"a@b.c\n"` is accepted and stored with the line feed | the whole text is an address with no white space (`\z`, or `$` without a trailing line feed) | not executed | EditForm.AsWrittenAcceptsTrailingLineFeed | EditForm.IntendedEmailError |
