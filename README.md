# EMS assessment reporting: a Dafny model

EMS is a small web system for enterprise assessment reporting. An
administrator creates enterprise accounts, each with a list of assessment
tasks that have a number or yes/no (是/否) target. Each enterprise logs in,
enters the actual value and remarks for its tasks, attaches evidence files,
and saves everything in one request. The administrator sees which
enterprises have reported and looks at each enterprise's values and
progress.

This project models:

- **The Express server (`server.ts`).**
  - The `users` and `tasks` tables are sequences in rowid order, held by the
    class `Server.Database`. The AUTOINCREMENT counters are fields of the
    same class.
  - Each state-changing handler is a method. A transaction computes the new
    tables in locals and assigns them only when it completes, so every
    failure leaves the state as it was.
  - The read-only handlers are functions over the tables (module `Queries`).
  - The token and role gates and the login check are in module `Auth`.
  - What a save-all does to the task table is specified in module
    `Reporting`.
- **The three pages that compute something:**
  - the enterprise's report page (`ClientHome`): progress, the unsaved
    `edits` record and its updates, and the multipart payload of "save all";
  - the administrator's enterprise detail page (`AdminEnterpriseDetail`):
    its progress rule and value labels;
  - the account page (`AdminAccounts`): the account form's task-list editor
    and the pager.

Module `Tables` holds the rows, the table invariant `TablesValid` and the
lemmas that the handlers keep it. Ids strictly increase along each table
and stay at or below their AUTOINCREMENT counter. Usernames are unique.
Every task belongs to an existing user.

Foreign calls are parameters of the members that use them:

- bcrypt hashing is `hash`, and bcrypt comparison is `compare`;
- JWT signing and verification are `sign` and `verify`;
- SQLite's `datetime('now')` is `now`; in a save-all, where every UPDATE reads it anew, it is `clock(i)` for the i-th item;
- the browser's `parseFloat` is `parse`, where `None` stands for NaN.

A failed account update answers 500 (server.ts:197), whether the id is
missing or the new username is taken; this handler never answers 404.

## Model

| member | source | states |
|---|---|---|
| Server.Database.constructor | server.ts:62-67 | a fresh database holds only the account `admin` with password hash of `admin`, role admin, enterprise 系统管理员, and no tasks |
| Server.Edited | server.ts:175-180 | the updated user row keeps id and role, takes the new username and enterprise name, and rehashes the password only when a non-empty password was sent |
| Server.InsertRows | server.ts:154-156 | the insert loop succeeds exactly when every task has a target; the rows get consecutive ids after the last one and belong to the new user |
| Server.CreateEffects | server.ts:150-158 | a committed create uses an unused user id, the new user's tasks are exactly the submitted definitions, and other users' tasks are unchanged |
| Server.UpdateEffects | server.ts:186-190 | a committed update gives the user exactly the submitted task definitions and leaves every other user's tasks unchanged |
| Server.Database.CreateAccount | server.ts:142-166 | a taken username answers 400 and a missing target 500, and both leave the tables unchanged; success appends the hashed enterprise user with the next id and its tasks with the next ids, keeps the table invariant, and touches no other user's tasks |
| Server.Database.UpdateAccount | server.ts:169-199 | succeeds exactly when the id exists, the username is not another user's and every target is given; otherwise 500 with no change; on success only that user row is edited, its tasks are replaced by the submitted ones, and others are untouched |
| Server.Database.ResetPassword | server.ts:202-210 | 404 exactly when no user has the id; otherwise only that user's password hash changes |
| Server.Database.DeleteAccount | server.ts:213-217 | always succeeds; removes the user and, by the cascade, exactly that user's tasks; every other user and task stays |
| Server.Database.SaveAll | server.ts:249-280 | succeeds exactly when every item has an actual value, and then the task table equals the specified report; otherwise 500 with no change; users and counters never change |
| Tables.FindByUsername | server.ts:145 | finds a row with that username exactly when one exists |
| Tables.UsernameLookup | server.ts:113 | with unique usernames, a lookup by a user's name finds that user |
| Tables.UsernamesDistinct | server.ts:30 | the UNIQUE constraint: two different rows have different usernames |
| Tables.UserIdsDistinct | server.ts:29 | increasing primary keys: two different rows have different ids |
| Tables.UserIndex | server.ts:177 | locates the row an `UPDATE ... WHERE id = ?` changes, and is None exactly when `changes === 0` |
| Tables.FindUser | server.ts:135-136 | `SELECT ... WHERE id = ?`: None exactly when no user has the id, otherwise a row with that id |
| Tables.TasksOf | server.ts:238 | `SELECT * FROM tasks WHERE user_id = ?`: exactly the rows owned by the user |
| Tables.TasksWithout | server.ts:187 | `DELETE FROM tasks WHERE user_id = ?`: exactly the rows not owned by the user are left |
| Tables.UsersWithout | server.ts:215 | `DELETE FROM users WHERE id = ?`: exactly the rows with another id are left |
| Tables.NewTasks | server.ts:155 | the inserted rows are one per definition with consecutive ids, owned by the user, with nothing reported |
| Tables.NewTasksRoundTrip | server.ts:154-156 | reading back the inserted rows' name, type and target gives the submitted definitions |
| Tables.ReplaceTasks | server.ts:186-190 | after delete-then-insert, the user owns exactly the inserted rows and every other user's tasks are unchanged |
| Tables.InsertAccountValid | server.ts:150-158 | inserting a new user with a free username and its tasks keeps the table invariant |
| Tables.ReplaceUserValid | server.ts:175-180 | editing a user row that keeps its id and takes a free username keeps the users table increasing, in range, with unique usernames and the same set of ids |
| Tables.ReplaceUsernameUnique | server.ts:175-180 | the new username of the edited row is no other row's |
| Tables.ReplaceTasksValid | server.ts:186-190 | deleting a user's tasks and appending rows with the next ids keeps task ids increasing and in range |
| Tables.ReplaceAccountValid | server.ts:173-191 | editing a user row and replacing its tasks keeps the table invariant |
| Tables.RemoveAccountValid | server.ts:213-217 | deleting a user and its tasks keeps the table invariant |
| Tables.EditUserValid | server.ts:205 | changing a user's password keeps the table invariant |
| Queries.AccountOf | server.ts:135 | an account is the row's id, username and enterprise name, never the password hash |
| Queries.EnterpriseUsers | server.ts:127 | lists exactly the users with role enterprise |
| Queries.PageNumber | server.ts:123 | a missing or zero page is page 1, any other given page is itself |
| Queries.PageOffset | server.ts:125 | the offset is (page - 1) * 10, and a page below 1 reads from the start |
| Queries.ListAccounts | server.ts:122-131 | the total counts all enterprise accounts; the page holds min(10, remaining) accounts starting at the offset, in table order |
| Queries.ListingHidesAdmins | server.ts:127 | every listed account is an enterprise user |
| Queries.AccountOnItsPage | server.ts:123-127 | the i-th enterprise account appears on page i/10 + 1 at position i mod 10 |
| Queries.AccountOnOnePage | server.ts:123-127 | an account appears on no other page and at no other position |
| Queries.GetAccount | server.ts:134-139 | 404 exactly when no user has the id; otherwise that user's account and a summary of each of its tasks, in order |
| Queries.GetEnterprise | server.ts:235-240 | 404 exactly when no user has the id; otherwise that user's account and exactly its task rows, in table order, so in increasing id order when the table is |
| Queries.ClientTasks | server.ts:243-246 | exactly the caller's tasks, in increasing id order |
| Queries.LatestUpdate | server.ts:224 | `MAX(updated_at)`: None when no task was reported, otherwise the latest report time among them |
| Queries.ReportCount | server.ts:225 | `COUNT(updated_at)` counts at most one per task, and is positive exactly when some task has a report time |
| Queries.OverviewRowOf | server.ts:223-229 | a group row carries the user's id, username and enterprise name, the latest report time of its tasks, and 已填报 exactly when one of its tasks has a report time |
| Queries.Overview | server.ts:220-232 | one row per enterprise user, in table order: the k-th row is the group row of the k-th enterprise user |
| Queries.OverviewCoversEnterprises | server.ts:226-229 | every enterprise user has a row in the overview |
| Queries.OverviewOnlyEnterprises | server.ts:228 | every overview row is an enterprise user |
| Queries.ReportCountPositive | server.ts:225 | `COUNT(updated_at) > 0` exactly when some task has a report time |
| Queries.OverviewStatus | server.ts:222-225 | a row says 已填报 exactly when one of the enterprise's tasks was reported; the last report time is present exactly then and is the latest of them |
| Reporting.FileField | server.ts:256 | the server's field for a task is `file_` followed by the task id in decimal digits, which read back as the id |
| Reporting.FileFieldInjective | server.ts:256 | two tasks never share a field |
| Reporting.FindUpload | server.ts:256 | the first uploaded file in the given form field, None exactly when there is none |
| Reporting.RemarksOrEmpty | server.ts:262 | `item.remarks \|\| ''`: the remarks when given, otherwise empty |
| Reporting.Reported | server.ts:257-268 | an updated row keeps id, owner and definition, takes the value, the remarks or empty and the report time, and takes the file's original and stored names only when a file was found |
| Reporting.Targets | server.ts:261 | `WHERE id = ? AND user_id = ?`: the row has the item's task id and belongs to the caller |
| Reporting.ApplyUpdate | server.ts:258-268 | one UPDATE changes only the caller's row with the item's id, which becomes the reported row; every other row stays |
| Reporting.ApplyReport | server.ts:254-271 | a save-all keeps the number of rows and every row's id, owner, name, type and target |
| Reporting.LastItemFor | server.ts:255 | the index of the last item for a task, if any |
| Reporting.ReportedTwice | server.ts:258-268 | reporting a task twice, at any two times, is the same as reporting only the second item at the second time |
| Reporting.ReportRow | server.ts:254-271 | each row after a save-all is the caller's row with the last item for it applied at the time that item's UPDATE read, or the row unchanged when it is not the caller's or has no item |
| Reporting.ReportIsolation | server.ts:261 | another user's row never changes |
| Reporting.ReportWritesValue | server.ts:262 | an own reported row gets the last item's value, its remarks or an empty string, and the time that item's UPDATE read |
| Reporting.ReportKeepsAttachment | server.ts:263-268 | without a file in `file_<id>`, a row keeps its attachment name and path |
| Reporting.ReportWithoutUploads | server.ts:256-268 | when no uploaded file is in a `file_<id>` field, no attachment column changes |
| Reporting.ReportValid | server.ts:254-271 | a save-all keeps the table invariant |
| Auth.ClaimsOf | server.ts:117 | the token's claims are the user's id, username, role and enterprise name |
| Auth.IndexOf | server.ts:92 | the first position of a character, None exactly when it does not occur |
| Auth.BearerToken | server.ts:92 | `split(' ')[1]`: absent without a header or without a space, otherwise a piece without spaces |
| Auth.BearerTokenOf | server.ts:92 | for `scheme token [rest]`, the token is the second word |
| Auth.Authenticate | server.ts:91-101 | 401 Unauthorized exactly when there is no token, 401 invalid exactly when the token does not verify; otherwise the verified claims |
| Auth.RequireAdmin | server.ts:103-106 | passes exactly admin claims, otherwise 403 |
| Auth.AdminGate | server.ts:122 | `authenticate` then `isAdmin`: the first failure wins |
| Auth.AdminGateAdmits | server.ts:91-106 | the admin routes run exactly for a verified admin token; without a token the answer is 401 |
| Auth.Login | server.ts:111-119 | every failure is the same 401; an unknown username fails; success means a user with that name and a matching password |
| Auth.LoginChecksPassword | server.ts:113-116 | for an existing user, login succeeds exactly when the password matches, and returns that user's claims |
| Auth.LoginAfterInsert | server.ts:148-151 | a created account can log in with the password it was created with |
| Auth.LoginAfterDelete | server.ts:215 | a deleted account can no longer log in |
| Auth.SessionAuthenticates | server.ts:117 | the token a login returns passes `authenticate` with the same claims |
| TaskView.FromRow | server.ts:244-245 | a task the server sends carries every column of its row (id, owner, name, type, target, value, attachment name and path, remarks, report time) and no attachment list |
| TaskView.FromRows | server.ts:244-245 | the response is one task per row, in order |
| TaskView.Scaled | src/pages/ClientHome.tsx:63 | below 99.5% the shown percentage is the ratio in percent rounded to the nearest integer, halves up (within 0.5); from 99.5% on it is exactly 100 |
| TaskView.ScaledFull | src/pages/ClientHome.tsx:63 | an actual value that reaches a positive target gives exactly 100 |
| TaskView.ScaledNonNegative | src/pages/ClientHome.tsx:63 | a non-negative actual value against a positive target gives at least 0 |
| TaskView.ScaledExamples | src/pages/ClientHome.tsx:63 | 40 of 100 shows 40, 99.6 of 100 shows 100, 150 of 100 is capped at 100, -50 of 100 shows -50 (no lower clamp) and -0.4 of 100 shows 0 |
| TaskView.ScaledMonotone | src/pages/ClientHome.tsx:63 | against a fixed positive target, more actual never gives less progress |
| TaskView.YesNoLabel | src/pages/AdminEnterpriseDetail.tsx:92 | a boolean value displays as 是 exactly when it is 是, otherwise as 否 |
| TaskView.TargetLabel | src/pages/ClientHome.tsx:129 | a number target displays as stored, a boolean target as 是 or 否 |
| ClientHome.EditFor | src/pages/ClientHome.tsx:110 | a task without an entry in `edits` is shown with empty values and no files |
| ClientHome.CalculateProgress | src/pages/ClientHome.tsx:56-67 | empty input, an unparsable actual or a zero target show 0; NaN exactly when the actual parses and the target does not; when both parse and the target is not zero, the scaled percentage of the two; at most 100; a boolean task shows 100 exactly when the answer equals the target, otherwise 0 |
| ClientHome.ProgressFull | src/pages/ClientHome.tsx:63 | an actual value that reaches a positive target shows 100 |
| ClientHome.ProgressInRange | src/pages/ClientHome.tsx:59-63 | against a positive target, non-negative input always shows a percentage from 0 to 100 |
| ClientHome.ProgressMonotone | src/pages/ClientHome.tsx:63 | against a fixed positive target, a larger input never shows less |
| ClientHome.ProgressNegative | src/pages/ClientHome.tsx:63 | there is no lower clamp: a number task shows a negative percentage exactly when its ratio to a non-zero target is below -0.5% |
| ClientHome.InitialEdit | src/pages/ClientHome.tsx:41-46 | a task starts with its stored value, or 否 for a boolean and empty for a number task, its remarks or empty, and no files |
| ClientHome.FetchEdits | src/pages/ClientHome.tsx:40-47 | the keys are exactly the loaded task ids, and each key holds the initial edit of the last task with that id |
| ClientHome.UnreportedNoTargetShowsFull | src/pages/ClientHome.tsx:42 | an unreported boolean task with target 否 starts at 100% |
| ClientHome.ExistingAttachments | src/pages/ClientHome.tsx:112 | lists exactly the task's attachments whose id was not marked for deletion |
| ClientHome.NothingDeletedShowsAll | src/pages/ClientHome.tsx:112 | with nothing marked, all attachments are listed in their order |
| ClientHome.ExistingAttachmentsOrdered | src/pages/ClientHome.tsx:112 | the list is an in-order selection of the task's attachments: the shown ones sit at strictly increasing positions of the task's list, and every attachment whose id was not deleted is among them |
| ClientHome.ExistingAttachmentsIncreasing | src/pages/ClientHome.tsx:112 | attachments listed in increasing id order stay in increasing id order |
| ClientHome.ServerTasksShowNoAttachments | src/pages/ClientHome.tsx:112 | a task loaded from the server never lists an existing attachment |
| ClientHome.SetActualValue | src/pages/ClientHome.tsx:147 | only that task's actual value changes; the keys and every other entry stay |
| ClientHome.SetRemarks | src/pages/ClientHome.tsx:258 | only that task's remarks change |
| ClientHome.AddFiles | src/pages/ClientHome.tsx:179-186 | the picked files are queued after the files already queued for that task; nothing else changes |
| ClientHome.RemoveNewFile | src/pages/ClientHome.tsx:233-239 | removes exactly the idx-th queued file and keeps the others' order; an index past the end changes nothing |
| ClientHome.DeleteAttachment | src/pages/ClientHome.tsx:210-216 | appends the attachment id to that task's deletion list; nothing else changes |
| ClientHome.DeleteAttachmentHides | src/pages/ClientHome.tsx:210-216 | after a removal, the list is the previous list without the attachments with that id, in the same order |
| ClientHome.ClientFileField | src/pages/ClientHome.tsx:75 | the page's field for a task is `files_` followed by the task id in decimal digits, which read back as the id |
| ClientHome.SmallestKey | src/pages/ClientHome.tsx:73 | the first key in `Object.entries` order is the least integer key |
| ClientHome.EntryOrder | src/pages/ClientHome.tsx:73 | the entry order has one element per key, and only keys |
| ClientHome.EntryOrderSorted | src/pages/ClientHome.tsx:73 | the entry order lists every key, in strictly ascending order |
| ClientHome.SubmitOf | src/pages/ClientHome.tsx:77-82 | `Number` of the key string is the task id, and the item carries the edit's value, remarks and deletion list |
| ClientHome.SubmitItems | src/pages/ClientHome.tsx:73-83 | one item per key, in that order |
| ClientHome.FileParts | src/pages/ClientHome.tsx:74-76 | one part per queued file, in order, all in the task's field |
| ClientHome.AppendFileParts | src/pages/ClientHome.tsx:74-76 | the loop appends exactly the task's file parts, in `files_<id>` |
| ClientHome.BuildSaveAll | src/pages/ClientHome.tsx:72-84 | the data items are one per entry in ascending key order; the form holds every entry's file parts, entry after entry, then the data |
| ClientHome.PayloadOnePerTask | src/pages/ClientHome.tsx:73-83 | the data has one item per task id in `edits`, in ascending id order, and each item carries that task's edit |
| ClientHome.FilePartsPerTask | src/pages/ClientHome.tsx:74-76 | every queued file of a task is sent exactly once in `files_<id>`, and no other file is sent in that field |
| ClientHome.ServerItem | src/pages/ClientHome.tsx:77-82 | the server reads each sent item with its actual value and remarks present |
| ClientHome.ServerItems | src/pages/ClientHome.tsx:77-82 | a payload from this page always has every actual value, so the save-all transaction never fails on it |
| ClientHome.ClientFieldNeverMatches | src/pages/ClientHome.tsx:75 | `files_<a>` never equals the server's `file_<b>` |
| ClientHome.Received | server.ts:249-252 | multer hands the handler at most one upload per part of the form |
| ClientHome.ReceivedFromParts | server.ts:249-252 | every received upload carries the field and file name of a file part |
| ClientHome.PartsReceived | server.ts:249-252 | every file part is received with its field and file name |
| ClientHome.FilePartsFromEntries | src/pages/ClientHome.tsx:73-76 | every file part is a queued file of an entry, in that entry's field |
| ClientHome.EntriesInFileParts | src/pages/ClientHome.tsx:73-76 | every queued file of an entry is a file part in that entry's field |
| ClientHome.ReceivedFromEntries | server.ts:252 | every upload the server receives from the page is a queued file of an entry, in that entry's field |
| ClientHome.EntriesReceived | server.ts:252 | every queued file of an entry reaches the server in that entry's field |
| ClientHome.LastItemIsEdit | server.ts:255 | the last data item the server reads for an edited task carries that task's edit |
| ClientHome.UploadsNeverAttach | server.ts:256 | for the form `handleSaveAll` builds, whatever was queued, a save-all changes no attachment name or path |
| ClientHome.CorrectedUploadFound | server.ts:256 | with the files sent as `file_<id>`, the server finds an upload for every task with queued files, and it is one of that task's files |
| ClientHome.CorrectedFieldAttaches | server.ts:254-268 | with the files sent as `file_<id>`, every own task with queued files gets one of them as its attachment, with its edit's value and remarks |
| AdminEnterpriseDetail.CalculateProgress | src/pages/AdminEnterpriseDetail.tsx:34-44 | no stored value or a zero target shows 0; NaN exactly when either side does not parse; when both parse and the target is not zero, the scaled percentage of the two; at most 100; a boolean task shows 100 exactly when the stored answer equals the target |
| AdminEnterpriseDetail.AgreesWithReportPage | src/pages/AdminEnterpriseDetail.tsx:34-44 | for a reported task whose value parses, or any boolean task, the detail page shows what the report page showed on load |
| AdminEnterpriseDetail.UnparsableActualDiffers | src/pages/AdminEnterpriseDetail.tsx:37-40 | for an unparsable stored value, the report page shows 0% and the detail page NaN% |
| AdminEnterpriseDetail.UnreportedNoTargetDiffers | src/pages/AdminEnterpriseDetail.tsx:35 | for an unreported boolean task with target 否, the report page shows 100% and the detail page 0% |
| AdminEnterpriseDetail.ActualLabel | src/pages/AdminEnterpriseDetail.tsx:95-101 | `-` without a stored value, the number as stored, or 是/否 for a boolean task |
| AdminEnterpriseDetail.BooleanLabelsCanMislead | src/pages/AdminEnterpriseDetail.tsx:92-97 | a target and an answer that both display 否 can still show 0% |
| AdminEnterpriseDetail.BooleanLabelsMatchProgress | src/pages/AdminEnterpriseDetail.tsx:42 | when both values are 是 or 否, the page shows 100% exactly when the two labels agree |
| AdminAccounts.TaskRow.constructor | src/pages/AdminAccounts.tsx:332-335 | a new row object holds the given name, type and target |
| AdminAccounts.TaskRow.Def | src/pages/AdminAccounts.tsx:344-400 | a row posts its name, type and target, and the target is always present |
| AdminAccounts.AccountForm.Defs | src/pages/AdminAccounts.tsx:72-76 | the form posts one definition per row, in order, and every one has a target, so the server's missing-target failure cannot come from this form |
| AdminAccounts.AccountForm.NewAccount | src/pages/AdminAccounts.tsx:59-64 | a new form is empty and holds exactly one task: number type, empty name and target |
| AdminAccounts.AccountForm.Editing | src/pages/AdminAccounts.tsx:55-57 | the edit form holds the account as returned, without a password, with one fresh row per returned task |
| AdminAccounts.AccountForm.AddTask | src/pages/AdminAccounts.tsx:332-335 | appends one default number task and keeps the existing rows, the same objects in the same order |
| AdminAccounts.AccountForm.RemoveTask | src/pages/AdminAccounts.tsx:412-415 | with one task left nothing changes; otherwise exactly the idx-th row goes and the rest keep their order; a non-empty list stays non-empty |
| AdminAccounts.AccountForm.SetName | src/pages/AdminAccounts.tsx:353-356 | only that row's name changes |
| AdminAccounts.AccountForm.SetType | src/pages/AdminAccounts.tsx:366-370 | only that row changes: it takes the type, and its target becomes 是 for boolean or empty for number |
| AdminAccounts.AccountForm.SetTarget | src/pages/AdminAccounts.tsx:387-390 | only that row's target changes |
| AdminAccounts.ShowPagination | src/pages/AdminAccounts.tsx:206 | the pager shows exactly when there are more accounts than one server page holds |
| AdminAccounts.PrevDisabled | src/pages/AdminAccounts.tsx:211 | prev is disabled exactly on the page that the server starts at the first account |
| AdminAccounts.NextDisabled | src/pages/AdminAccounts.tsx:219 | next is disabled exactly when the server's next page would start past the last account |
| AdminAccounts.ClickPrev | src/pages/AdminAccounts.tsx:211-212 | the page stays exactly when prev is disabled, otherwise goes back one; it never drops below 1 |
| AdminAccounts.ClickNext | src/pages/AdminAccounts.tsx:219-220 | the page stays exactly when next is disabled, otherwise goes forward one to a page that starts inside the list |
| AdminAccounts.PagerValid | src/pages/AdminAccounts.tsx:211-220 | page 1 is always reachable; a reachable page is at least 1, and beyond page 1 exactly the pages that start inside the list |
| AdminAccounts.ClicksKeepPagerValid | src/pages/AdminAccounts.tsx:210-221 | prev and next keep the page at least 1 and starting inside the list, prev never increases it, and next never decreases it |
| AdminAccounts.NextEnabledIffNextPageNonEmpty | src/pages/AdminAccounts.tsx:219 | next is enabled exactly when the server's next page lists accounts |
| AdminAccounts.ReachablePageNonEmpty | src/pages/AdminAccounts.tsx:211-220 | every reachable page after the first lists accounts |
| AdminAccounts.PaginationWhenMoreThanOnePage | src/pages/AdminAccounts.tsx:206 | the pager is shown exactly when the server's second page lists accounts |

## Left out

- bcrypt and JWT are parameters. The token's 24-hour expiry, the cost factor and the secret are not modelled. bcrypt draws a random salt, so hashing the same password twice gives different hashes; the model's `hash` is a fixed function, and `compare` is a separate parameter, and Auth.LoginAfterInsert requires it to accept a password against that password's hash.
- Multer's disk storage and the download route are not modelled. A save-all receives the uploaded files as a list of (field, original name, stored name). ClientHome.Received builds that list from the page's form; the time-and-random stored names are a parameter.
- Boot-time directory creation and the `remarks` migration are not modelled. The admin bootstrap is the constructor of a fresh database, not a check against an existing one.
- Express, CORS, Vite, static serving and `listen` are framework I/O.
- SQLite is replaced by the tables as sequences in rowid order. The SQL text and query planning are not modelled. Rows come back in table order.
- `parseFloat` and `parseInt` are not modelled: numbers arrive already parsed, as `Option<real>` or `Option<int>`. IEEE floating point is replaced by reals, so Infinity, -0 and rounding error do not arise.
- src/lib/api.ts, src/App.tsx, src/pages/Login.tsx and src/pages/AdminHome.tsx are not part of this model. They are request plumbing, routing and static pages.
- JSX rendering, animations, alerts, loading flags, the timed success banner and the refetch after saving are not modelled. The account page's search box has no handler. Its tabs, reset-password and delete dialogs only call the server handlers modelled above.
- The attachments and remarks columns of the detail page are not modelled. They show the list or 未上传, and the remarks or 无备注.
- ClientHome.SetActualValue requires the task id to be a key of `edits`. The handlers spread `prev[task.id]`, which is only reachable for loaded tasks, and FetchEdits makes every loaded task id a key.
- ClientHome.SetRemarks requires the task id to be a key of `edits`, for the same reason.
- ClientHome.AddFiles requires the task id to be a key of `edits`. On a missing key the source would throw reading `newFiles`.
- ClientHome.RemoveNewFile requires the task id to be a key of `edits`, for the same reason.
- ClientHome.DeleteAttachment requires the task id to be a key of `edits`, for the same reason.
- ClientHome.BuildSaveAll stops at the form it builds. The request and its error alert are the network call whose server side is Server.Database.SaveAll.
- Server.Database.CreateAccount, Server.Database.ResetPassword, Server.Database.SaveAll and Auth.Login: request bodies the pages never send are not modelled. A missing password makes bcrypt's `hashSync` (server.ts:148, server.ts:204) or `compareSync` (server.ts:114) throw; a `data` field that is not JSON throws in `JSON.parse` (server.ts:251); a missing or non-array `tasks` or `data` throws while iterating. Each of these answers Express's default 500. The model's inputs are the typed values the pages post.
- `deleteAttachmentIds` reaches the server but is never read there, so no attachment is ever deleted.
- The server stores one attachment name and path per task. The `attachments` list declared in src/types.ts is never sent; the two attachment columns are sent (TaskView carries them) but src/types.ts does not declare them and no page reads them.
- The account form also sends each task's `id` when editing. The server ignores it, so the model posts only name, type and target.

## Findings

| source | as written | input that shows it | evidently intended | confidence | as-written member | corrected member |
|---|---|---|---|---|---|---|
| src/pages/ClientHome.tsx:75 | the report page sends each new file in the form field `files_<taskId>`, while server.ts:256 looks for `file_<taskId>` | task 7 with one queued file: the part is named `files_7`, the server searches for `file_7`, finds nothing, and the task's attachment columns stay as they were | the page and the server use the same field name, so the saved task records the uploaded file as its attachment | high, not executed | ClientHome.UploadsNeverAttach | ClientHome.CorrectedFieldAttaches |
