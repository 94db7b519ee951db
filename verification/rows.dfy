/**
 * The rows of the bot's three tables (users, tasks, submissions) and the
 * constraints the schema puts on them. A table is a map from its
 * autoincrement id to the rest of the row.
 */
module Rows {

  /** Submission status codes, as database.py defines them. */
  const StatusPending: int := 0
  const StatusApproved: int := 1
  const StatusRejected: int := 2
  const StatusNeedsRedo: int := 3

  /** A participant. `joinedDate` is an opaque timestamp. */
  datatype User = User(
    telegramId: int,
    username: string,
    approved: bool,
    currentTask: int,
    finished: bool,
    joinedDate: string)

  /** A task of the catalogue; `day` is its unique ordinal. */
  datatype Task = Task(day: int, text: string)

  /** One voice submission; the `status` and `checked` columns are one field here. */
  datatype Submission = Submission(
    userId: int,
    taskId: int,
    voicePath: string,
    feedback: string,
    status: int)

  type UserTable = map<int, User>
  type TaskTable = map<int, Task>
  type SubmissionTable = map<int, Submission>

  /** `telegram_id INTEGER UNIQUE` */
  ghost predicate UniqueTelegramIds(users: UserTable) {
    forall i, j :: i in users && j in users && users[i].telegramId == users[j].telegramId ==> i == j
  }

  /** `day_number INTEGER UNIQUE` */
  ghost predicate UniqueDays(tasks: TaskTable) {
    forall i, j :: i in tasks && j in tasks && tasks[i].day == tasks[j].day ==> i == j
  }

  /** Every submission points at an existing task (kept by the handlers, not by the schema). */
  ghost predicate SubmissionsReferenceTasks(tasks: TaskTable, subs: SubmissionTable) {
    forall s :: s in subs ==> subs[s].taskId in tasks
  }
}
