/**
 * The store itself: the three tables, each with the sequence counter that
 * SQLite's AUTOINCREMENT keeps for it, and the statements that insert,
 * update and delete rows. Ids are handed out as the counter plus one and
 * are never reused, even after a delete.
 */
module Database {
  import opened Wrappers
  import opened Rows
  import opened Queries

  /** The IntegrityError SQLite raises when an insert repeats a UNIQUE key. */
  datatype InsertError = UniqueViolation

  /** The user columns that `update_user` is asked to set; None leaves a column alone. */
  datatype UserChanges = UserChanges(approved: Option<bool>, currentTask: Option<int>, finished: Option<bool>) {
    predicate IsEmpty() {
      approved.None? && currentTask.None? && finished.None?
    }
  }

  function ApplyUserChanges(u: User, c: UserChanges): User {
    u.(approved := c.approved.GetOr(u.approved),
       currentTask := c.currentTask.GetOr(u.currentTask),
       finished := c.finished.GetOr(u.finished))
  }

  /** The submission columns that `update_submission` is asked to set. */
  datatype SubmissionChanges = SubmissionChanges(status: Option<int>, feedback: Option<string>) {
    predicate IsEmpty() {
      status.None? && feedback.None?
    }
  }

  function ApplySubmissionChanges(s: Submission, c: SubmissionChanges): Submission {
    s.(status := c.status.GetOr(s.status), feedback := c.feedback.GetOr(s.feedback))
  }

  /** `update_user` changes the listed columns and no other, and never the row's key. */
  lemma ApplyUserChangesKeepsIdentity(u: User, c: UserChanges)
    ensures ApplyUserChanges(u, c).telegramId == u.telegramId
    ensures ApplyUserChanges(u, c).username == u.username
    ensures ApplyUserChanges(u, c).joinedDate == u.joinedDate
    ensures c.IsEmpty() ==> ApplyUserChanges(u, c) == u
  {
  }

  class Store {
    var users: UserTable
    var tasks: TaskTable
    var submissions: SubmissionTable
    var lastUserId: int
    var lastTaskId: int
    var lastSubmissionId: int

    /** Ids lie between 1 and their table's counter; the UNIQUE columns hold. */
    ghost predicate Valid()
      reads this
    {
      && 0 <= lastUserId && 0 <= lastTaskId && 0 <= lastSubmissionId
      && (forall id :: id in users ==> 0 < id <= lastUserId)
      && (forall id :: id in tasks ==> 0 < id <= lastTaskId)
      && (forall id :: id in submissions ==> 0 < id <= lastSubmissionId)
      && UniqueTelegramIds(users)
      && UniqueDays(tasks)
    }

    /** No submission points at a missing task (kept by the handlers, not by the schema). */
    ghost predicate Consistent()
      reads this
    {
      SubmissionsReferenceTasks(tasks, submissions)
    }

    ghost function Counters(): (int, int, int)
      reads this
    {
      (lastUserId, lastTaskId, lastSubmissionId)
    }

    /** init_db: three empty tables. */
    constructor ()
      ensures Valid() && Consistent()
      ensures users == map[] && tasks == map[] && submissions == map[]
      ensures Counters() == (0, 0, 0)
    {
      users, tasks, submissions := map[], map[], map[];
      lastUserId, lastTaskId, lastSubmissionId := 0, 0, 0;
    }

    /** add_user: a new, unapproved user on task 0, or a UNIQUE violation on `telegram_id`. */
    method AddUser(telegramId: int, username: string, joinedDate: string) returns (r: Result<int, InsertError>)
      requires Valid()
      modifies this
      ensures Valid()
      ensures tasks == old(tasks) && submissions == old(submissions)
      ensures lastTaskId == old(lastTaskId) && lastSubmissionId == old(lastSubmissionId)
      ensures UserIdByTelegramId(old(users), telegramId).Some? ==>
                r == Failure(UniqueViolation) && users == old(users) && lastUserId == old(lastUserId)
      ensures UserIdByTelegramId(old(users), telegramId).None? ==>
                && r == Success(old(lastUserId) + 1)
                && r.value !in old(users)
                && users == old(users)[r.value := User(telegramId, username, false, 0, false, joinedDate)]
                && lastUserId == r.value
                && UserIdByTelegramId(users, telegramId) == Some(r.value)
    {
      if UserIdByTelegramId(users, telegramId).Some? {
        return Failure(UniqueViolation);
      }
      var id := lastUserId + 1;
      users := users[id := User(telegramId, username, false, 0, false, joinedDate)];
      lastUserId := id;
      UserIdByTelegramIdOfUnique(users, id);
      r := Success(id);
    }

    /**
     * update_user: sets the listed columns of the row with that id; an
     * absent id matches no row. With no column listed the statement is
     * malformed and nothing is written (ok is false).
     */
    method UpdateUser(id: int, changes: UserChanges) returns (ok: bool)
      requires Valid()
      modifies this
      ensures Valid()
      ensures ok <==> !changes.IsEmpty()
      ensures ok && id in old(users) ==> users == old(users)[id := ApplyUserChanges(old(users)[id], changes)]
      ensures !ok || id !in old(users) ==> users == old(users)
      ensures tasks == old(tasks) && submissions == old(submissions) && Counters() == old(Counters())
    {
      if changes.IsEmpty() {
        return false;
      }
      if id in users {
        users := users[id := ApplyUserChanges(users[id], changes)];
      }
      ok := true;
    }

    /** add_task: a new task, or a UNIQUE violation on `day_number`. */
    method AddTask(day: int, text: string) returns (r: Result<int, InsertError>)
      requires Valid()
      modifies this
      ensures Valid()
      ensures users == old(users) && submissions == old(submissions)
      ensures lastUserId == old(lastUserId) && lastSubmissionId == old(lastSubmissionId)
      ensures TaskIdByDay(old(tasks), day).Some? ==>
                r == Failure(UniqueViolation) && tasks == old(tasks) && lastTaskId == old(lastTaskId)
      ensures TaskIdByDay(old(tasks), day).None? ==>
                && r == Success(old(lastTaskId) + 1)
                && r.value !in old(tasks)
                && tasks == old(tasks)[r.value := Task(day, text)]
                && lastTaskId == r.value
                && TaskIdByDay(tasks, day) == Some(r.value)
    {
      if TaskIdByDay(tasks, day).Some? {
        return Failure(UniqueViolation);
      }
      var id := lastTaskId + 1;
      tasks := tasks[id := Task(day, text)];
      lastTaskId := id;
      TaskIdByDayOfUnique(tasks, id);
      r := Success(id);
    }

    /**
     * add_submission: appends a row with a fresh id and empty feedback.
     * Neither foreign key is checked.
     */
    method AddSubmission(userId: int, taskId: int, voicePath: string, status: int) returns (id: int)
      requires Valid()
      modifies this
      ensures Valid()
      ensures users == old(users) && tasks == old(tasks)
      ensures lastUserId == old(lastUserId) && lastTaskId == old(lastTaskId)
      ensures id == old(lastSubmissionId) + 1 && id !in old(submissions)
      ensures submissions == old(submissions)[id := Submission(userId, taskId, voicePath, "", status)]
      ensures lastSubmissionId == id
      ensures SubmissionById(submissions, id) == Some(Submission(userId, taskId, voicePath, "", status))
    {
      id := lastSubmissionId + 1;
      submissions := submissions[id := Submission(userId, taskId, voicePath, "", status)];
      lastSubmissionId := id;
    }

    /**
     * update_submission (the admin module's own version): sets the listed
     * columns and reports whether a row was changed; a malformed statement
     * (no column listed) is caught and reported as false.
     */
    method UpdateSubmission(id: int, changes: SubmissionChanges) returns (updated: bool)
      requires Valid()
      modifies this
      ensures Valid()
      ensures updated <==> !changes.IsEmpty() && id in old(submissions)
      ensures updated ==> submissions == old(submissions)[id := ApplySubmissionChanges(old(submissions)[id], changes)]
      ensures !updated ==> submissions == old(submissions)
      ensures users == old(users) && tasks == old(tasks) && Counters() == old(Counters())
    {
      if changes.IsEmpty() || id !in submissions {
        return false;
      }
      submissions := submissions[id := ApplySubmissionChanges(submissions[id], changes)];
      updated := true;
    }

    /** DELETE FROM submissions WHERE task_id = ?, returning the row count. */
    method DeleteSubmissionsOfTask(taskId: int) returns (count: nat)
      requires Valid()
      modifies this
      ensures Valid()
      ensures submissions == map s | s in old(submissions) && old(submissions)[s].taskId != taskId :: old(submissions)[s]
      ensures count == |set s | s in old(submissions) && old(submissions)[s].taskId == taskId|
      ensures users == old(users) && tasks == old(tasks) && Counters() == old(Counters())
    {
      count := |set s | s in submissions && submissions[s].taskId == taskId|;
      submissions := map s | s in submissions && submissions[s].taskId != taskId :: submissions[s];
    }

    /** DELETE FROM tasks WHERE day_number = ?, returning the row count. */
    method DeleteTasksOfDay(day: int) returns (count: nat)
      requires Valid()
      modifies this
      ensures Valid()
      ensures tasks == map t | t in old(tasks) && old(tasks)[t].day != day :: old(tasks)[t]
      ensures count == |set t | t in old(tasks) && old(tasks)[t].day == day|
      ensures users == old(users) && submissions == old(submissions) && Counters() == old(Counters())
    {
      count := |set t | t in tasks && tasks[t].day == day|;
      tasks := map t | t in tasks && tasks[t].day != day :: tasks[t];
    }

    /** DELETE FROM users WHERE id = ?, returning the row count (0 or 1). */
    method DeleteUser(id: int) returns (count: nat)
      requires Valid()
      modifies this
      ensures Valid()
      ensures users == old(users) - {id}
      ensures count == if id in old(users) then 1 else 0
      ensures tasks == old(tasks) && submissions == old(submissions) && Counters() == old(Counters())
    {
      count := if id in users then 1 else 0;
      users := users - {id};
    }
  }
}
