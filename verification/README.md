# Speaking-marathon bot: a Dafny model of its store and handlers

The bot runs a thirty-day speaking challenge on Telegram. Participants
register, wait for an administrator to approve them, and then send one
voice message per daily task. The administrator reviews each message and
approves it, rejects it or asks for a redo. A participant whose tasks are
all approved receives a certificate.

Everything the bot knows lives in three SQLite tables:

- `users` is keyed by an autoincrement id, with `telegram_id` UNIQUE.
- `tasks` is keyed by an autoincrement id, with `day_number` UNIQUE.
- `submissions` is keyed by an autoincrement id. Each row holds a user id,
  a task id, a voice file name, feedback text and a status: 0 pending,
  1 approved, 2 rejected, 3 needs redo.

This project models that store and every rule the handlers apply when they
read or change it, then proves what those rules guarantee.

- `wrappers.dfy` holds `Option` and `Result`.
- `rows.dfy` holds the row types, the status codes and the uniqueness and
  reference predicates over the tables.
- `queries.dfy` holds the read-only queries of `database.py` as functions
  of the table values:
  - lookups by key, where `fetchone` returns the smallest matching id;
  - the pending-task listing;
  - the two completion counts and the progress record;
  - the status labels.
- `database.dfy` holds class `Store`, the tables as maps kept with their
  AUTOINCREMENT counters. Its insert, update and delete methods each state
  the table's new contents in full, and each preserves `Valid()`: ids lie
  within their counter and the UNIQUE keys hold.
- `admin_handlers.dfy` holds the administrator's commands and their pure
  helpers:
  - pagination buttons;
  - message truncation and splitting;
  - the certificate check.
- `user_handlers.dfy` holds the participant's side:
  - the require-user and require-approved gates;
  - registration;
  - voice submissions;
  - the `current_task` field;
  - the pending-task view;
  - finishing.

An approval never touches `current_task`. Two commands set the field
directly to a chosen day: the administrator's send_task
(admin_handlers.py:421) and the participant's task selection
(user_handlers.py:569). Apart from those, it advances only in
handle_current_task, once the current task has an approved submission
(user_handlers.py:245-250). `SendTask`, `HandleTaskSelection`,
`HandleCurrentTask` and the review commands model exactly this.

Several quirks are kept as written:

- The two completion counts differ. One counts distinct tasks, the other
  counts approved rows.
- Username lookup lower-cases only the query, never the stored name.
- Selecting a task sets `current_task` before checking that the task exists.
- Removing a user leaves their submissions behind.

The first two are exhibited by lemmas (`CountsDifferOnRepeatedApproval`,
`RepeatedApprovalPassesCertificateCheck`, `MixedCaseUsernameNeverFound`);
the last two by the contracts of `HandleTaskSelection` and `RemoveUser`.

## Model

| member | source | states |
|---|---|---|
| Rows.UniqueTelegramIds | database.py:20 | `telegram_id INTEGER UNIQUE`: no two user rows share a telegram id |
| Rows.UniqueDays | database.py:32 | `day_number INTEGER UNIQUE`: no two task rows share a day |
| Queries.FirstKey | database.py:156-157 | `fetchone` on a filtered query: None exactly when no row passes the filter; otherwise the smallest id of a row that passes |
| Queries.TaskIdByDay | database.py:152-166 | None exactly when no task has that day; otherwise the smallest id of a task with that day |
| Queries.TaskIdByDayOfUnique | database.py:29-35 | with `day_number` unique, looking up a task's own day finds that task |
| Queries.UserIdByTelegramId | database.py:79-97 | None exactly when no user has that telegram id; otherwise the smallest matching id |
| Queries.UserIdByTelegramIdOfUnique | database.py:18-26 | with `telegram_id` unique, looking up a user's own telegram id finds that user |
| Queries.Lower | database.py:464 | `str.lower` on ASCII: same length, each upper-case letter replaced by its lower-case letter, every other character kept in place |
| Queries.UserIdByUsername | database.py:460-478 | the lower-cased query is compared with the stored name as stored; None exactly when no stored name equals it |
| Queries.MixedCaseUsernameNeverFound | database.py:464 | a user whose stored name has an upper-case letter is never found by name |
| Queries.SubmissionById | database.py:277-297 | None exactly when the id is absent; otherwise that row |
| Queries.SubmissionByUserAndTask | database.py:329-349 | the first row, by id, for that user and task, or None when there is none; `checked` is true for every status but pending |
| Queries.PendingTasks | database.py:168-197 | exactly the tasks with no approved submission by the user, ordered by day with ties broken by id |
| Queries.PendingDaysAscend | database.py:174-184 | with unique days, the listed days strictly ascend |
| Queries.PendingTasksDetermined | database.py:174-184 | any day-ordered listing of exactly the unapproved tasks equals the pending listing, so the answer is determined by the tables |
| Queries.PendingTasksFollowApprovals | database.py:177-182 | the pending listing depends on the submissions only through which tasks have an approved row |
| Queries.CompletedTaskIds | database.py:205-209 | a task is counted exactly when the user has an approved row for it |
| Queries.UserCompletedTasksCount | database.py:199-216 | the distinct-task count is at most the approved-row count and at most the number of tasks with any submission |
| Queries.CompletedTaskCount | database.py:419-429 | the number of the user's approved rows (`ApprovedRows`, membership stated), at most the table size, zero exactly when there is none |
| Queries.CompletedTaskCountOfInsert | database.py:419-429 | the count is 0 on an empty table, and inserting a row adds 1 exactly when the row is the user's and approved |
| Queries.TotalTaskCount | database.py:431-438 | zero exactly when there are no tasks |
| Queries.CountsDifferOnRepeatedApproval | database.py:205-209 | two approved rows for one task give a distinct count of 1 and a row count of 2 |
| Queries.CompletedPlusPendingIsTotal | database.py:168-216 | when every submission points at a task, completed plus pending equals the number of tasks |
| Queries.NothingPendingMeansAllApproved | database.py:419-429 | with nothing pending, the approved-row count reaches the task count |
| Queries.UserProgress | database.py:218-238 | completed is the distinct count and total the task count; percentage is 0 with no tasks, else completed/total·100 exactly |
| Queries.ProgressBounds | database.py:224-232 | with at least one task and every submission pointing at a task, the percentage lies in 0..100 and is 100 exactly when nothing is pending |
| Queries.StatusText | database.py:319-326 | codes 0..3 map to their four labels; every other code, and only those, maps to the unknown label |
| Queries.StatusTextDistinguishesKnownCodes | database.py:319-326 | distinct known codes get distinct labels |
| Database.ApplyUserChangesKeepsIdentity | database.py:99-113 | the updates the handlers issue never change the telegram id, username or join date; an empty update changes nothing |
| Database.Store.constructor | database.py:12-48 | three empty tables, valid and consistent, with every AUTOINCREMENT counter at 0 so the first id of each table is 1 |
| Database.Store.AddUser | database.py:65-77 | a taken telegram id is a UNIQUE violation that changes nothing; otherwise a new unapproved user on task 0, unfinished, under the next id, found again by telegram id |
| Database.Store.UpdateUser | database.py:99-113 | only the listed columns of that row change; an absent id or an empty update changes nothing |
| Database.Store.AddTask | database.py:138-150 | a taken day is a UNIQUE violation that changes nothing; otherwise the task is stored under the next id and found again by its day |
| Database.Store.AddSubmission | database.py:300-317 | one row added under a fresh id, with empty feedback; existing rows untouched; found again by id |
| Database.Store.UpdateSubmission | admin_handlers.py:438-461 | reports true exactly when the row exists and a column is listed; only that row's listed columns change |
| Database.Store.DeleteSubmissionsOfTask | admin_handlers.py:349-350 | removes exactly the rows of that task and returns how many there were |
| Database.Store.DeleteTasksOfDay | admin_handlers.py:353 | removes exactly the tasks of that day and returns how many there were |
| Database.Store.DeleteUser | admin_handlers.py:680 | removes that id only and returns 1 if it was present, else 0 |
| AdminHandlers.PaginationButtons | admin_handlers.py:54-60 | a row is never empty; Prev leads to the page before and Next to the page after |
| AdminHandlers.TotalPages | admin_handlers.py:71 | the views' page count: with n > 0 items, the least page count whose pages hold all n; 0 with no items |
| AdminHandlers.ButtonsMatchPageCount | admin_handlers.py:54-60 | Next appears exactly when a later page exists by the views' page count (admin_handlers.py:71); Prev exactly when page > 0; no row exactly when neither applies |
| AdminHandlers.Truncate | admin_handlers.py:711 | `message[:4000]`: the message itself when it fits, otherwise its prefix of exactly 4000 characters |
| AdminHandlers.SplitMessage | admin_handlers.py:740-743 | the chunks concatenate back to the text; each has 1..4000 characters, all but the last exactly 4000; no chunk for empty text |
| AdminHandlers.ApproveUser | admin_handlers.py:171-215 | refused for non-admins; a missing or already approved user changes nothing; otherwise only `approved` is set, and that user's chat is notified |
| AdminHandlers.RemoveUser | admin_handlers.py:664-694 | deletes only that user row and keeps their submissions; reports not-found exactly when no row was deleted |
| AdminHandlers.AddTaskHandler | admin_handlers.py:285-320 | a day that already has a task leaves the tasks unchanged; otherwise the new task gets the next AUTOINCREMENT id (counter + 1, the other counters unchanged) and is found by its day |
| AdminHandlers.RemoveTask | admin_handlers.py:322-370 | an unknown day changes nothing; otherwise the task and its submissions go, no task has that day, no submission names the task, the count is the rows removed, and consistency is kept |
| AdminHandlers.SendTask | admin_handlers.py:391-436 | the user is checked before the task; only when both exist does the user's current task become that day, and only that field changes |
| AdminHandlers.NotifyUser | admin_handlers.py:696-716 | a message exactly when the submission and its user exist, sent to that user's chat, its text exactly `Truncate(message)` |
| AdminHandlers.ApprovalCompletesTask | admin_handlers.py:572-575 | after an approval the row's task is no longer pending for its user |
| AdminHandlers.VerdictKeepsOtherUsersPending | admin_handlers.py:572-575 | a verdict on one user's row leaves every other user's pending listing unchanged |
| AdminHandlers.ApprovedNotice | admin_handlers.py:580 | the approval message: its fixed head followed by exactly the feedback |
| AdminHandlers.RejectedNotice | admin_handlers.py:613 | the rejection message: its fixed head followed by exactly the feedback |
| AdminHandlers.RedoNotice | admin_handlers.py:647 | the redo message: the instructions between its fixed head and tail |
| AdminHandlers.RecordVerdict | admin_handlers.py:438-461 | sets the row's status and feedback, whatever the earlier status was; other rows, users and tasks unchanged |
| AdminHandlers.ApproveFeedback | admin_handlers.py:556-588 | status approved, feedback stored, submitter notified; users untouched, so approval never moves the current task |
| AdminHandlers.RejectFeedback | admin_handlers.py:590-622 | status rejected, feedback stored, submitter notified; nothing else changes |
| AdminHandlers.RedoFeedback | admin_handlers.py:624-656 | status needs-redo, feedback stored as "REDO REQUESTED: " followed by the instructions; nothing else changes |
| AdminHandlers.CertificateGate | admin_handlers.py:747-785 | refusals in source order (not admin, no attachment, no handle, unknown handle); for a found user, delivers to their chat exactly when their approved-row count reaches the task count, and otherwise reports that count against the total |
| AdminHandlers.NothingPendingEarnsCertificate | admin_handlers.py:777-785 | a user with no pending task passes the check |
| AdminHandlers.RepeatedApprovalPassesCertificateCheck | admin_handlers.py:777-785 | two approved rows for day 1 pass the check while day 2 is still pending |
| UserHandlers.Admission | user_handlers.py:22-57 | unregistered exactly when no row has the sender's telegram id; otherwise the first such row, admitted exactly when it is approved |
| UserHandlers.AdmissionOfOwnRow | user_handlers.py:22-57 | with unique telegram ids, a user passes the gates exactly when approved |
| UserHandlers.StatusKeyboard | user_handlers.py:78-84 | task buttons exactly when the user is approved and not finished |
| UserHandlers.HandleParticipate | user_handlers.py:183-186 | inserts only when no row has that telegram id; the new user gets the next AUTOINCREMENT id (counter + 1, the other counters unchanged); afterwards one is found; registering again changes nothing |
| UserHandlers.Finish | user_handlers.py:594-600 | sets only `finished`, after which the status card has no task buttons |
| UserHandlers.ShowPendingTasks | user_handlers.py:456-511 | lists the pending tasks when there are any; with none, "all completed" only if the approved-row count reaches the task count |
| UserHandlers.AwaitingReviewUnreachable | user_handlers.py:469-486 | the "pending review" branch is never taken |
| UserHandlers.HandleCurrentTask | user_handlers.py:223-269 | shows the current task unless it has an approved submission; then moves the user to the lowest-day pending task, or leaves `current_task` unchanged when none remain |
| UserHandlers.HandleTaskSelection | user_handlers.py:560-589 | an unregistered sender changes nothing; otherwise the current task becomes the chosen day even when no task has it |
| UserHandlers.UnapprovedRowKeepsPending | user_handlers.py:417-422 | adding a row that is not approved changes no user's pending listing |
| UserHandlers.SubmitVoice | user_handlers.py:372-447 | no row unless registered, approved, a voice message, a task on the current day and a saved file; then exactly one pending row for that task under the next AUTOINCREMENT id (counter + 1, never a freed id; the other counters unchanged); current task and pending listings unchanged |

## Left out

- Telegram I/O is not modelled. This covers replies, edited messages, keyboards, the admin's voice copy and every message text except the review notices. Outcomes name the branch taken and the chat to notify.
- File I/O is not modelled: voice and certificate downloads, directories, file extensions. A download's success is the input `saved`. The voice file name is an input; it is not built from the user, task and message ids.
- Command-argument parsing is not modelled. Missing arguments, non-integer ids and the `@handle` regular expression belong to the Telegram layer. Arguments arrive parsed, and the certificate handle arrives already extracted.
- The hard-coded administrator list is not modelled. `isAdmin` is an input.
- SQLite is not modelled: connections, cursors and the `except` blocks that print an error. The schema declares foreign keys (database.py:45-46), but SQLite does not enforce them because `PRAGMA foreign_keys` is never turned on; the model does not enforce them either. `Consistent()` (every submission names a task) is a property the handlers keep, not a constraint.
- The status column: init_db declares only `status` (database.py:44), every write names `checked` (database.py:307; admin_handlers.py:573, 606, 640), and `status` is read only by the distinct count (database.py:208). The model treats them as one status field, so it does not capture that these statements would fail against a table built by init_db.
- Database.UserChanges: offers only the three columns the handlers ever pass to update_user: `approved` (admin_handlers.py:193), `current_task` (admin_handlers.py:421; user_handlers.py:249, 569) and `finished` (user_handlers.py:596). update_user itself would set any key it is given (database.py:103).
- `joined_date` is an opaque string passed in; the clock is not modelled.
- Database.Store.UpdateUser: with no column listed, the source builds a malformed statement, and SQLite raises. The model reports `ok = false` and writes nothing; it does not model the exception.
- Queries.Lower: lower-cases ASCII letters only, not the full Unicode case mapping of `str.lower`.
- Queries.UserProgress: computes the percentage as an exact real, not an IEEE double.
- The database is not created at start-up: `init_db` is commented out in bot.py:17. The constructor models a freshly initialised database.
- These handlers only read and format, and are not modelled: the admin dashboards, the list views and their callbacks, `all_tasks`, `all_users` (apart from its message split), `all_submissions`, `list_unapproved_users`, `admin_help`, `start_review`, `handle_review_button`, `cancel_review`, and the user menu and help screens.
- `get_all_*`, `get_unapproved_users` and `get_user_submissions` are not modelled separately. They are filters over the maps, and the model reads the maps directly.
- The first, overridden definition of `get_user_by_username` (database.py:440-458) is not modelled.
