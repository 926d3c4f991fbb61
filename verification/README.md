# Task manager: a Dafny model of its back end and its pages

This project models the core of a small full-stack task manager. Its Express back end
keeps users and their tasks in MySQL. Its React pages let a user sign up, sign in, and
then list, filter, sort, create, edit, complete and delete their own tasks. An
administrator can manage every user and every user's tasks.

Everything is modelled as pure functions on immutable values:

- **SQL tables.** Each table is a sequence of rows plus an auto-increment counter.
  As under InnoDB, MySQL's default engine, an INSERT that the UNIQUE index on
  `users.email` refuses still uses up the counter value it took.
  Each SQL statement the models issue is a function from table to table, with the
  affected-row count it reports (`TaskStore`, `UserStore`).
- **Request handlers.** Each handler is a function from the table, a flag `up` (false
  when the database reports an error) and the request body to the HTTP response and
  the table afterwards (`TaskController`, `AuthController`, `AdminController`).
- **Crypto.** Password hashing, comparison and token signing are the function values
  of a `Crypto` record. The clock is a parameter: `today` is a day number counted from
  1970-01-01.
- **Browser tasks.** Tasks as the browser holds them, and how a `YYYY-MM-DD` string is
  read back with `new Date(y, m - 1, d)` (`ClientTask`, `Calendar.LocalDay`).
- **Pages.**
  - The task list's filter, search, three sort orders, statistics, toggle and delete
    (`TaskList`).
  - The task form's validation, date conversion and field editing (`TaskForm`).
  - The task card's labels (`TaskCard`).
  - The sign-up and sign-in pages (`RegisterPage`, `LoginPage`, with the shared rules in
    `Forms`).
  - The route guard (`ProtectedRoute`).
- **Pages against endpoints.** `Flows` states what a request built by a page makes the
  server store, and what a session obtained from the endpoints lets the guard show.

Shared vocabulary lives in the following modules:

- `Wire`: missing or null fields, JSON scalars, truthiness.
- `Text`: `trim`, `split`, `Number()`, `String()`, `padStart`, UTF-16 length,
  lower-casing.
- `Seqs`: filtering and counting.
- `Sorting`: one stable insertion sort on two-level keys. It stands for both
  `ORDER BY` and `Array.prototype.sort`. For `ORDER BY` it also settles the order of
  ties, which the database leaves open (see "Left out").
- `Calendar`: proleptic Gregorian day numbers, and the lenient `MakeDay` of ECMAScript
  for `new Date(y, m, d)`.
- `Http`: responses.

## Model

| member | source | states |
|---|---|---|
| TaskStore.Insert | Integrador-Full-Stack-main/backend/src/models/taskModel.js:2-5 | the new row is appended with the next auto-increment id, the caller's user id, completed 0, and a description and due date kept only when truthy; earlier rows are unchanged and validity is kept |
| TaskStore.ByUser | Integrador-Full-Stack-main/backend/src/models/taskModel.js:7-12 | the listing is exactly the rows owned by the user, each taken from the table (returned here in table order, one order the database may use) |
| TaskStore.Apply | Integrador-Full-Stack-main/backend/src/models/taskModel.js:16-18 | an edited row keeps its id and owner, takes the new title, stores completed as 1 for a true flag and 0 otherwise, and writes the description and due date sent, or null when they are falsy |
| TaskStore.Update | Integrador-Full-Stack-main/backend/src/models/taskModel.js:14-19 | only rows matching both id and owner are rewritten; all others stay; the affected count is the number of matches |
| TaskStore.Delete | Integrador-Full-Stack-main/backend/src/models/taskModel.js:21-24 | the rows left are exactly those not matching id and owner, in order; affected count plus remaining rows equals the old size |
| TaskStore.AtMostOneMatch | Integrador-Full-Stack-main/backend/src/models/taskModel.js:16 | with distinct ids, an id-and-owner statement touches at most one row |
| TaskStore.NonOwnerChangesNothing | Integrador-Full-Stack-main/backend/src/models/taskModel.js:15-23 | a user who does not own the id can neither update nor delete anything: both statements leave the table as it was and report 0 rows |
| TaskStore.UpdateKeepsOwners | Integrador-Full-Stack-main/backend/src/models/taskModel.js:16 | an update never changes any row's id or owner |
| TaskStore.UpdateValid | Integrador-Full-Stack-main/backend/src/models/taskModel.js:14-19 | an update with an acceptable due date keeps the table valid and affects at most one row |
| TaskStore.DeleteValid | Integrador-Full-Stack-main/backend/src/models/taskModel.js:21-24 | a delete keeps the table valid and affects at most one row |
| TaskStore.OthersCannotTouchListing | Integrador-Full-Stack-main/backend/src/models/taskModel.js:14-24 | an update or delete issued by another user leaves this user's listing exactly as it was |
| TaskStore.ByUserAfterInsert | Integrador-Full-Stack-main/backend/src/models/taskModel.js:2-12 | after an insert the owner's listing gains exactly the new row at its end and every other listing is unchanged |
| UserStore.Insert | Integrador-Full-Stack-main/backend/src/models/userModel.js:3-6 | the insert fails exactly when the email is already taken (the UNIQUE constraint), leaving the rows as they were; otherwise the row is appended with the next id; either way the counter advances and validity is kept |
| UserStore.FindByEmail | Integrador-Full-Stack-main/backend/src/models/userModel.js:8-10 | the result is exactly the rows whose email equals the given one; a null email finds nothing |
| UserStore.FindByEmailUnique | Integrador-Full-Stack-main/backend/src/models/userModel.js:8-10 | with unique emails the lookup finds at most one row |
| UserStore.FindAfterInsert | Integrador-Full-Stack-main/backend/src/models/userModel.js:3-10 | right after a successful insert, looking up the email or the id finds exactly the new row |
| UserStore.DeleteById | backend/src/controllers/adminController.js:61 | the rows left are exactly those with another id; the count is 0 iff no row had the id |
| UserStore.UpdateById | backend/src/controllers/adminController.js:38-39 | the update fails exactly on an email clash; otherwise only rows with the id change, ids are kept, and the count is the number of such rows |
| UserStore.UpdateValid | backend/src/controllers/adminController.js:38-39 | a successful update keeps ids distinct and emails unique |
| UserStore.NothingFoundAfterDelete | backend/src/controllers/adminController.js:61-64 | after a delete by id, no row with that id remains |
| TaskController.DueDateError | backend/src/controllers/taskController.js:12-21 | a present due date passes iff it has the `YYYY-MM-DD` shape, names a calendar date and, when checked, is not before today; each failure gets its own message, in that order |
| TaskController.CreateError | backend/src/controllers/taskController.js:8-21 | a missing or blank title is refused first; then a present due date is checked with the not-past rule; nothing else is refused |
| TaskController.CreateTask | backend/src/controllers/taskController.js:4-28 | 400 with the validation message and no change; 500 and no change when the insert fails; otherwise 201 with the new id, earlier rows are unchanged, and the new row stores the trimmed title, the caller as owner, completed 0, and the description and due date exactly when truthy, with their values |
| TaskController.TodayAcceptedYesterdayRejected | backend/src/controllers/taskController.js:16-19 | a due date of today is accepted; one day later it is refused as past |
| TaskController.CreateThenList | backend/src/controllers/taskController.js:4-36 | a created task appears in its creator's listing with the trimmed title, and no other user's listing changes |
| TaskController.GetTasks | backend/src/controllers/taskController.js:30-36 | 500 on a database error; otherwise exactly the caller's listing, each of their rows once |
| TaskController.CompletedFlag | backend/src/controllers/taskController.js:47 | `completed` means done exactly for `true`, `1`, `"1"` and `"true"` |
| TaskController.CompletedFlagStricterThanTruthy | backend/src/controllers/taskController.js:47 | every accepted value is truthy, but `2` and `"false"` are truthy and count as not done, and a missing value counts as not done |
| TaskController.UpdateError | backend/src/controllers/taskController.js:44-57 | an edit is refused iff the title is present but blank, or a present due date is malformed or not a calendar date; past dates are not refused |
| TaskController.EditChanges | backend/src/controllers/taskController.js:59 | the written title is the trimmed title or null, the description is the one sent, the due date is the one sent when present and null otherwise, and the flag is the normalised `completed` |
| TaskController.UpdateTask | backend/src/controllers/taskController.js:38-64 | 400 with no change on a validation failure; 500 with no change on a database error; otherwise the table is the id-and-owner update, and the answer is 200 iff some row has that id and the caller as owner, else 404 with the table unchanged |
| TaskController.UpdateNotFoundIffNotOwned | backend/src/controllers/taskController.js:61 | a valid edit is answered 404 iff no row has both that id and the caller as owner |
| TaskController.UpdateOverwrites | backend/src/controllers/taskController.js:59 | an edit with an empty body succeeds and nulls title, description and due date and clears completed: every column is rewritten |
| TaskController.UpdateWritesEdit | backend/src/controllers/taskController.js:59-62 | after a 200 the caller's row holds exactly the trimmed title or null, the description and due date sent or null, and the 0/1 flag, with its id and owner kept |
| TaskController.PastDatePassesOnUpdate | backend/src/controllers/taskController.js:49-57 | any calendar date, past ones included, passes an edit's validation |
| TaskController.DeleteTask | backend/src/controllers/taskController.js:66-74 | 500 on a database error; otherwise the table is the id-and-owner delete, and the answer is 404 iff nothing matched and 200 otherwise |
| TaskController.DeletedTaskIsGone | backend/src/controllers/taskController.js:66-74 | after a successful delete the id no longer appears in the caller's listing |
| AuthController.RegisteredRole | Integrador-Full-Stack-main/backend/src/controllers/authController.js:11 | the stored role is the one in the body when present, else "user" |
| AuthController.Register | Integrador-Full-Stack-main/backend/src/controllers/authController.js:7-16 | 500 and no change when hashing fails; 201 iff hashing succeeds, the database is up and the email is free; on 201 earlier rows are unchanged, one row with the next id, the hash and the role is appended, the counter advances; otherwise the generic 500 with the rows unchanged, the counter advanced only by a refused duplicate; validity is always kept |
| AuthController.Login | Integrador-Full-Stack-main/backend/src/controllers/authController.js:19-31 | 404 when the lookup fails or finds nobody; 401 iff the first row's hash does not match; 200 iff it matches, with a one-hour token for exactly that row's id and role and its id, name and role |
| AuthController.Me | Integrador-Full-Stack-main/backend/src/controllers/authController.js:34-44 | 500 on a database error; 404 iff no row has the id; otherwise 200 with that user's id, name, email and role |
| AuthController.LoginThenMe | Integrador-Full-Stack-main/backend/src/controllers/authController.js:19-44 | the session a login opens is the user `me` then returns: same id, name and role, and the login's email |
| AuthController.RegisterThenLogin | Integrador-Full-Stack-main/backend/src/controllers/authController.js:7-31 | a fresh registration can log in, and the token and session name the new id and the stored role |
| AuthController.RegisterHonoursClientRole | Integrador-Full-Stack-main/backend/src/controllers/authController.js:8-11 | a body with role "admin" yields an administrator session at login |
| AuthController.RegisterAsUser | frontend/src/pages/Register.jsx:14 | corrected registration: it succeeds exactly when the original would, and always stores role "user" |
| AuthController.RegisterAsUserNeverEscalates | frontend/src/pages/Register.jsx:14 | under the corrected registration, whatever role the body names, the session at login is "user" |
| AuthController.DuplicateRegistrationIsServerError | Integrador-Full-Stack-main/backend/src/controllers/authController.js:11-12 | a taken email is answered with the generic 500 and nothing is stored, though the counter value it took is gone |
| AdminController.ListUsers | backend/src/controllers/adminController.js:5-10 | 500 on error; otherwise every user, one record per row, with id, name, email and role and no password (listed here in table order) |
| AdminController.CreateUser | backend/src/controllers/adminController.js:13-24 | 400 when name, email or password is falsy; 201 iff hashing succeeds, the database is up and the email is free; on 201 earlier rows are unchanged and the new row holds the next id, the name, the email, the hash and the role or "user", which the reply echoes without the hash; a failure leaves the rows unchanged, and only a refused duplicate advances the counter; validity is always kept |
| AdminController.RefusedDuplicateSkipsAnId | backend/src/controllers/adminController.js:18-21 | after a refused duplicate, the next account created echoes an id above the one the refused insert took, so `insertId` skips a value |
| AdminController.SetList | backend/src/controllers/adminController.js:32-34 | the SET list names name, email, role and password at most once each, in that order, exactly for the truthy fields |
| AdminController.PlaceholdersMatchParams | backend/src/controllers/adminController.js:38-39 | the generated UPDATE has exactly as many `?` as parameters, and the last parameter is the id |
| AdminController.SqlIndependentOfValues | backend/src/controllers/adminController.js:38 | the SQL text depends only on which columns are set, never on the values |
| AdminController.UpdateUser | backend/src/controllers/adminController.js:27-56 | 500 when hashing a new password fails; 400 when nothing is to be updated; then 500 on a database error or an email clash; 200 iff none of these happens, the table then being the by-id update with the SET list; a failure leaves the table unchanged |
| AdminController.UpdateUserPatches | backend/src/controllers/adminController.js:32-50 | after a successful update the user's truthy fields take the new values (the password hashed) and the others keep theirs |
| AdminController.UpdateOfMissingUserSucceeds | backend/src/controllers/adminController.js:39-41 | updating an id that does not exist answers 200 and changes nothing |
| AdminController.DeleteUser | backend/src/controllers/adminController.js:59-66 | 500 on error; otherwise the by-id delete, 404 iff no such id, and after 200 the id is gone |
| AdminController.OrderedTasks | backend/src/controllers/adminController.js:71 | the admin listing holds exactly the user's rows and is sorted by the `ORDER BY` key |
| AdminController.ListUserTasks | backend/src/controllers/adminController.js:69-76 | 500 on error; otherwise one summary per ordered row, in that order |
| AdminController.ListUserTasksExactlyTheirs | backend/src/controllers/adminController.js:71 | every row of the user is listed and every listed row is theirs |
| AdminController.ListUserTasksOrder | backend/src/controllers/adminController.js:71 | undated tasks come after dated ones, and dated ones ascend by calendar day |
| AdminController.CreateUserTask | backend/src/controllers/adminController.js:79-88 | 400 iff the title is falsy; 201 iff the title is truthy, the database is up and the date is storable; on 201 earlier rows are unchanged and the new row takes the user id from the path, the title untrimmed, the description and due date exactly when truthy, and completed 0 |
| AdminController.AdminPathAcceptsWhatUserPathRefuses | backend/src/controllers/adminController.js:82-84 | the admin path creates a blank-titled task and a past-dated task, both of which the user path refuses |
| Calendar.IsoDay | backend/src/controllers/taskController.js:15-18 | a `YYYY-MM-DD` string names a day iff its numbers form a calendar date, and then it names that date's day number |
| Calendar.LocalDayOfCalendarDate | Integrador-Full-Stack-main/frontend/src/components/TaskForm.jsx:58 | on a real calendar date outside years 0..99, the lenient constructor names that date's day |
| ClientTask.DueDay | frontend/src/components/TaskList.jsx:161-166 | a date string with fewer than three `-` parts does not read as a day |
| ClientTask.DisplayDate | Integrador-Full-Stack-main/frontend/src/components/TaskCard.jsx:73-79 | a date is rendered as `dd/mm/y` exactly when it splits into three parts |
| ClientTask.DisplayOfIso | Integrador-Full-Stack-main/frontend/src/components/TaskCard.jsx:73-79 | a stored `YYYY-MM-DD` renders as `DD/MM/` followed by the year without leading zeros |
| ClientTask.DueDayOfIsoDate | frontend/src/components/TaskList.jsx:163-165 | a stored date read in the browser names the day the server validated, for years from 100 on |
| TaskList.FilteredTasks | frontend/src/components/TaskList.jsx:139-149 | the shown tasks are, in order, exactly those that match both the status filter and the search |
| TaskList.ShowAllByDefault | frontend/src/components/TaskList.jsx:140-144 | with filter "all" and an empty search every task is shown |
| TaskList.FiltersPartition | frontend/src/components/TaskList.jsx:140-142 | under any search, the "completed" and "pending" views together hold as many tasks as "all" |
| TaskList.SearchIgnoresCase | frontend/src/components/TaskList.jsx:144-146 | a search term and its lower-cased form select the same tasks |
| TaskList.TitleContainingTermMatches | frontend/src/components/TaskList.jsx:145 | a title containing the term matches it |
| TaskList.SortedTasks | frontend/src/components/TaskList.jsx:152-184 | each sort mode returns a permutation of the shown tasks that is ordered by that mode's key |
| TaskList.StatusOrder | frontend/src/components/TaskList.jsx:153-160 | by default no completed task precedes a pending one |
| TaskList.StatusSortStable | frontend/src/components/TaskList.jsx:153-160 | the default sort keeps the pending tasks in their order, and the completed tasks in theirs |
| TaskList.NearestOrder | frontend/src/components/TaskList.jsx:169-175 | "nearest" puts undated tasks last and orders dated ones by growing distance from today |
| TaskList.FarthestOrder | frontend/src/components/TaskList.jsx:176-182 | "farthest" puts undated tasks last and orders dated ones by shrinking distance from today |
| TaskList.SortedListUnchanged | frontend/src/components/TaskList.jsx:152-184 | a list already in key order is returned unchanged |
| TaskList.RoundPercent | frontend/src/components/TaskList.jsx:191 | the rate is the nearest integer to 100·c/t, halves rounded up, and never above 100 |
| TaskList.StatsOf | frontend/src/components/TaskList.jsx:187-192 | total is the length, completed plus pending equals total, the rate is 0 for an empty list and otherwise the rounded percentage, within 0..100 |
| TaskList.StatsMatchFilters | frontend/src/components/TaskList.jsx:187-192 | the completed and pending counts equal the sizes of the "completed" and "pending" views |
| TaskList.RateExtremes | frontend/src/components/TaskList.jsx:191 | all done gives 100 (when non-empty), none done gives 0 |
| TaskList.Toggled | frontend/src/components/TaskList.jsx:74 | only tasks with the id change; each of them flips its done state to 0 or 1 and keeps every other field |
| TaskList.ToggleTwice | frontend/src/components/TaskList.jsx:74 | on 0/1 flags, toggling twice restores the list |
| TaskList.ToggleMovesOneTask | frontend/src/components/TaskList.jsx:74 | with unique ids, a toggle moves exactly one task between the completed and pending counts |
| TaskList.Removed | frontend/src/components/TaskList.jsx:95 | the tasks left after a delete are, in order, exactly those with another id |
| TaskList.RemoveTwice | frontend/src/components/TaskList.jsx:95 | deleting the same id again changes nothing |
| Forms.ClearError | frontend/src/pages/Register.jsx:59-61 | the field's error no longer shows, the same keys remain, and every other entry is unchanged |
| Forms.TestEmail | frontend/src/pages/Register.jsx:36 | one pass over the text decides exactly whether `/\S+@\S+\.\S+/` matches somewhere in it |
| Forms.EmailError | frontend/src/pages/Register.jsx:34-38 | a blank email is missing; otherwise it is invalid iff the pattern does not match the untrimmed text |
| Forms.PasswordError | frontend/src/pages/Register.jsx:40-44 | a blank password is missing; otherwise it is short iff it has fewer than 6 code units |
| Forms.EmailLikeTrimmed | frontend/src/pages/Register.jsx:36-76 | an email that passes the pattern still passes it once trimmed, as the page sends it |
| RegisterPage.NameError | frontend/src/pages/Register.jsx:28-32 | a blank name is missing; otherwise it is short iff the trimmed name has fewer than 2 code units |
| RegisterPage.ConfirmError | frontend/src/pages/Register.jsx:46-50 | a blank confirmation is missing; otherwise it must equal the password |
| RegisterPage.Validate | frontend/src/pages/Register.jsx:25-54 | each field's message is filed under its key exactly when that field fails, and the form is accepted iff all four rules pass |
| RegisterPage.EditField | frontend/src/pages/Register.jsx:56-62 | typing sets only that field and blanks only that field's error |
| RegisterPage.Payload | frontend/src/pages/Register.jsx:74-78 | the body has the trimmed name and email, the password as typed, and no role |
| RegisterPage.ValidFormPayload | frontend/src/pages/Register.jsx:25-78 | an accepted form sends a trimmed name of at least 2 code units, an email matching the pattern and a password of at least 6 |
| LoginPage.Validate | frontend/src/pages/Login.jsx:26-43 | the email and password messages are filed exactly when those rules fail, and the form is accepted iff both pass |
| LoginPage.SameRulesAsSignUp | frontend/src/pages/Login.jsx:29-39 | for the same email and password, sign-in files the same email and password messages as sign-up |
| LoginPage.EditField | frontend/src/pages/Login.jsx:45-51 | typing sets only that field and blanks only that field's error |
| LoginPage.Payload | frontend/src/pages/Login.jsx:63 | the body is the form as typed: the email untrimmed and the password |
| ProtectedRoute.Guard | Integrador-Full-Stack-main/frontend/src/components/ProtectedRoute.jsx:12-26 | no user goes to login; an admin-only route sends a non-admin home; every other case renders the page |
| ProtectedRoute.AdminRoutesAreStricter | Integrador-Full-Stack-main/frontend/src/components/ProtectedRoute.jsx:15-23 | whoever passes an admin-only route passes an ordinary one, and both send the same visitors to login |
| TaskForm.EditDisplay | Integrador-Full-Stack-main/frontend/src/components/TaskForm.jsx:28-32 | no date shows as ""; a three-part date shows as `dd/mm/y`; any other date shows as "" |
| TaskForm.Opened | Integrador-Full-Stack-main/frontend/src/components/TaskForm.jsx:25-36 | a new form is empty; an edit form shows the task's title, its description or "", and its date for editing |
| TaskForm.TitleError | Integrador-Full-Stack-main/frontend/src/components/TaskForm.jsx:43-47 | a blank title is missing; otherwise it is short iff the trimmed title has fewer than 3 code units |
| TaskForm.DescriptionError | Integrador-Full-Stack-main/frontend/src/components/TaskForm.jsx:48-50 | a description is refused iff it is longer than 500 code units |
| TaskForm.DueDateError | Integrador-Full-Stack-main/frontend/src/components/TaskForm.jsx:52-67 | an empty date passes; one not splitting into three parts is malformed; a three-part date passes iff it reads as a day not before today, and otherwise is invalid when it reads as no day and past when its day is before today |
| TaskForm.Validate | Integrador-Full-Stack-main/frontend/src/components/TaskForm.jsx:41-70 | each message is filed under "title", "description" or "due_date" exactly when that rule fails, and the form is accepted iff all three pass |
| TaskForm.Normalised | Integrador-Full-Stack-main/frontend/src/components/TaskForm.jsx:93-97 | a date is sent exactly when the field is non-empty and splits into three parts |
| TaskForm.PayloadOf | Integrador-Full-Stack-main/frontend/src/components/TaskForm.jsx:98 | the body has the title and description as typed and the normalised date, and nothing else |
| TaskForm.DateRoundTrip | Integrador-Full-Stack-main/frontend/src/components/TaskForm.jsx:28-32 | a stored date with a four-digit year not starting with 0, shown for editing and saved untouched, is sent back unchanged |
| TaskForm.EditedDateRule | Integrador-Full-Stack-main/frontend/src/components/TaskForm.jsx:52-66 | a stored date shown for editing passes the form's check iff its day is not before today |
| TaskForm.EditField | Integrador-Full-Stack-main/frontend/src/components/TaskForm.jsx:72-78 | typing sets only that field and blanks the error filed under the field's own state key, here "due_date_display" for the date |
| TaskForm.DateErrorSurvivesTyping | Integrador-Full-Stack-main/frontend/src/components/TaskForm.jsx:55-76 | a date error filed under "due_date" is left showing after the user types a new date |
| TaskForm.EditFieldClearingOwnError | Integrador-Full-Stack-main/frontend/src/components/TaskForm.jsx:72-78 | corrected: typing blanks the error validation filed for that field and leaves the rest |
| TaskForm.TypingClearsValidationMessage | Integrador-Full-Stack-main/frontend/src/components/TaskForm.jsx:41-78 | with the correction, after validation typing into any field hides that field's message and no other |
| TaskCard.DateLabel | Integrador-Full-Stack-main/frontend/src/components/TaskCard.jsx:71-94 | a three-part due date gives a non-empty `dd/mm/y`; another due date goes to the locale formatter; without a due date the creation date, then the update date, then nothing |
| TaskCard.CardDateIsFormDate | Integrador-Full-Stack-main/frontend/src/components/TaskCard.jsx:73-79 | the card shows a due date exactly as the edit form fills it in |
| TaskCard.CardShowsStoredDate | Integrador-Full-Stack-main/frontend/src/components/TaskCard.jsx:73-79 | a stored `YYYY-MM-DD` is shown as `DD/MM/` followed by the year without leading zeros |
| TaskCard.OverdueOfStoredDate | Integrador-Full-Stack-main/frontend/src/components/TaskCard.jsx:96-102 | for a stored date, the overdue badge shows iff its day is before today and the task is not done |
| TaskCard.NotOverdueWhenAcceptedOrDone | Integrador-Full-Stack-main/frontend/src/components/TaskCard.jsx:96-102 | a task the server accepted for today or later, or a done task, is never marked overdue |
| TaskCard.StatusLabel | Integrador-Full-Stack-main/frontend/src/components/TaskCard.jsx:59-61 | the label is "Completada" or "Pendiente", and "Completada" iff the checkbox is checked |
| Flows.UndatedFormIsCreated | Integrador-Full-Stack-main/frontend/src/components/TaskForm.jsx:100-109 | a form the page accepts without a date is created by the server, owned by the caller, with the trimmed title and no date |
| Flows.DatedFormIsCreated | Integrador-Full-Stack-main/frontend/src/components/TaskForm.jsx:100-109 | a valid form with a date typed as the form displays a stored date sends that date unchanged, and the server creates the task with it |
| Flows.EditingUncompletesTask | Integrador-Full-Stack-main/frontend/src/components/TaskForm.jsx:90-99 | saving the edit form stores the task as not done, whatever its status was |
| Flows.EditRequestKeepingStatus | Integrador-Full-Stack-main/frontend/src/components/TaskForm.jsx:98 | corrected edit body: its flag reads as done iff the task is done, and it passes validation exactly when the original body does |
| Flows.EditingKeepsStatus | Integrador-Full-Stack-main/frontend/src/components/TaskForm.jsx:90-99 | with the corrected body, an edit keeps the stored status of the task |
| Flows.ToggleAgreesWithServer | frontend/src/components/TaskList.jsx:74-77 | the flag the list shows after the optimistic toggle is the flag the server stores |
| Flows.SignUpPageCreatesUsers | frontend/src/pages/Register.jsx:74-78 | an account made through the sign-up page signs in as "user", passes the ordinary guard and is sent home from admin routes |
| Flows.ClientChosenAdminPassesGuard | Integrador-Full-Stack-main/backend/src/controllers/authController.js:8-11 | a client posting role "admin" to the registration endpoint is let through admin routes after signing in |
| Flows.RegisterAsUserKeepsAdminRoutesClosed | frontend/src/pages/Register.jsx:14 | under the corrected registration the same client is sent home from admin routes |

## Left out

- **Database plumbing.** MySQL connections, callbacks and `server.js` are left out:
  CORS, logging and listening. Each statement is one atomic step on a sequence, with
  no concurrency. Of the constraints, only the unique email is modelled.
- **Schema and query formatting.** Column defaults, timestamps and `DATE_FORMAT` are
  not modelled. A stored due date is its `YYYY-MM-DD` string.
- **Token middleware and the auth context.** The token check that sets the user id,
  and the token's storage in the browser, are not modelled. The handlers receive the
  user id as a parameter.
- **Crypto.** bcrypt and JWT are parameters, and nothing is assumed about them beyond
  what each lemma requires.
- **Request bodies.** Non-string JSON values in string fields are not modelled. Each
  such field is a string, missing or null.
- **Asynchronous page behaviour.** Page rendering, animations, toasts and navigation
  are not modelled. The rollback of an optimistic update by re-fetching after an error
  is not modelled either.
- **Fetching the list.** The page's fetch of its tasks and its error toast are not
  modelled. The statistics it reports to its parent after a fetch use the same formula
  as `TaskList.StatsOf`.
- **Time zones.** Time zones and daylight-saving transitions are not modelled. `today`
  is a day number, and the browser and the server are taken to agree on it.
- **Locale formatting.** The locale date formatting of `toLocaleDateString` appears
  only as `LocaleDate(source)`, and its text is not modelled.
- **Card field names.** The card reads `createdAt` and `updatedAt`, but the listing
  returns `created_at` and `updated_at`. The model keeps the card's field names as
  separate optional fields, which in practice are always missing.
- **Search on a null title.** A task whose title is null makes the search throw. Titles
  are strings in the browser model.
- **Unknown sort mode.** The fallback for an unknown sort mode returns the list
  unsorted. Only the three modes the page offers are modelled.
- TaskList.SortedTasks: for the two date modes it requires every present due date to
  read as a day. The page's comparator gives NaN for an unreadable date, and
  `Array.prototype.sort` is implementation-defined for an inconsistent comparator.
- TaskList.StatsOf: the rate is stated with exact integer rounding of 100·c/t.
  `Math.round` on a floating-point quotient can differ at exact halves.
- TaskController.DueDateError: it demands a real calendar date. The engine's date
  parser may roll a day 29-31 past the end of its month into the next month instead of
  refusing it.
- ClientTask.DueDayOfIsoDate: it requires a year of at least 100, because
  `new Date(y, m, d)` maps years 0..99 into the 1900s. The same bound applies to
  TaskForm.EditedDateRule, TaskCard.OverdueOfStoredDate and
  TaskCard.NotOverdueWhenAcceptedOrDone.
- TaskForm.DateRoundTrip: it requires a year that does not start with 0. A year such as
  0999 is shown as `999` and sent back as `999-..`, which the server refuses. The same
  bound applies to Flows.DatedFormIsCreated.
- TaskList.FilteredTasks: the search lower-cases ASCII letters only. JavaScript's
  `toLowerCase` also folds letters such as `Á` and `Ñ`, so a search for `á` finds
  "Árbol" on the page but not in the model.
- AdminController.CreateUserTask: the DATE column is taken to accept only NULL and a
  `YYYY-MM-DD` calendar date. MySQL also stores literals such as `2030-1-5`, `20300105`
  and `2030/01/05`, which this endpoint passes through unchecked; the model answers
  500 for them where the program answers 201.
- **Row order.** A `SELECT` without `ORDER BY` (the task listing, the user listing and
  the lookup by email) has no defined order, and `ORDER BY` leaves ties in any order.
  The model fixes one admissible order: table order, with ties kept in table order by
  the stable sort behind AdminController.OrderedTasks. Nothing of the program's
  behaviour is claimed for that order.
- UserStore.FindByEmail: emails are compared as exact strings. Under MySQL's default
  collations `WHERE email = ?` and the UNIQUE index compare case-insensitively, so
  "Ana@x.com" finds the row of "ana@x.com", and registering it again fails as a
  duplicate. The same holds for UserStore.Insert and UserStore.UpdateById.
- **Path ids.** Ids from the path are natural numbers. The program passes the raw
  string, which MySQL converts, so `/tasks/7abc` reaches task 7; such paths are not
  modelled.
- **JavaScript numbers.** `Number()` is modelled for an optional sign followed by
  decimal digits, with blank text giving 0 and anything else NaN. Fractions, exponents
  and hexadecimal are not modelled. Numbers are unbounded integers.

## Findings

| source | as written | input that shows it | evidently intended | confidence | as-written member | corrected member |
|---|---|---|---|---|---|---|
| Integrador-Full-Stack-main/backend/src/controllers/authController.js:11 | registration stores `role \|\| "user"`, so the client picks its role | POST /auth/register with `{"name":"a","email":"a@b.c","password":"secret1","role":"admin"}`, then log in | the comment at frontend/src/pages/Register.jsx:14 says the back end assigns "user" | not executed | AuthController.RegisterHonoursClientRole | AuthController.RegisterAsUser |
| Integrador-Full-Stack-main/frontend/src/components/TaskForm.jsx:98 | the edit body has no `completed`, and the server reads a missing flag as false and rewrites the column | edit the title of a completed task and save | an edit keeps the task's status | not executed | Flows.EditingUncompletesTask | Flows.EditRequestKeepingStatus |
| Integrador-Full-Stack-main/frontend/src/components/TaskForm.jsx:75 | typing into the date clears `errors.due_date_display`, but validation filed the message under `due_date` | submit a past date, then type a new date: "La fecha límite no puede ser anterior a hoy" stays | typing into a field clears that field's message | not executed | TaskForm.DateErrorSurvivesTyping | TaskForm.EditFieldClearingOwnError |
