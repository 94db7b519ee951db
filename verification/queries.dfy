/**
 * The read side of the store: lookups by unique key, the pending-task
 * listing, the two completion counts and the progress summary. Every query
 * is a function of the table values, so it gives the same answer however
 * often it is asked while no write happens in between.
 */
module Queries {
  import opened Wrappers
  import opened Rows

  // ---------------------------------------------------------------------
  // Smallest element: `fetchone` without ORDER BY returns the first row in
  // id order, and ORDER BY sorts ascending.
  // ---------------------------------------------------------------------

  /** A non-empty set has a member. */
  lemma HasMember(s: set<int>)
    requires s != {}
    ensures exists x :: x in s
  {
    assert (forall x :: x !in s) ==> s == {};
  }

  lemma {:induction false} MinExists(s: set<int>)
    requires s != {}
    ensures exists m :: m in s && forall x :: x in s ==> m <= x
  {
    HasMember(s);
    var y :| y in s;
    if s == {y} {
      assert forall x :: x in s ==> y <= x;
    } else {
      MinExists(s - {y});
      var m :| m in s - {y} && forall x :: x in s - {y} ==> m <= x;
      forall x | x in s
        ensures y <= x || m <= x
        ensures x == y || m <= x
      {
        if x != y {
          assert x in s - {y};
        }
      }
    }
  }

  /** The least element of a non-empty finite set. */
  function Smallest(s: set<int>): (m: int)
    requires s != {}
    ensures m in s
    ensures forall x :: x in s ==> m <= x
  {
    MinExists(s);
    var m :| m in s && forall x :: x in s ==> m <= x;
    m
  }

  // ---------------------------------------------------------------------
  // Lookups by key
  // ---------------------------------------------------------------------

  /**
   * `fetchone()` on a filtered SELECT: rows come back in id order, so the
   * answer is the smallest id whose row passes the filter.
   */
  function FirstKey<V>(table: map<int, V>, matches: V -> bool): (r: Option<int>)
    ensures r.None? <==> forall id :: id in table ==> !matches(table[id])
    ensures r.Some? ==> r.value in table && matches(table[r.value])
    ensures r.Some? ==> forall id :: id in table && matches(table[id]) ==> r.value <= id
  {
    if exists id :: id in table && matches(table[id]) then
      var ids := set id | id in table && matches(table[id]);
      assert ids != {} by {
        var w :| w in table && matches(table[w]);
        assert w in ids;
      }
      assert forall id :: id in table && matches(table[id]) ==> id in ids;
      Some(Smallest(ids))
    else
      None
  }

  /** get_task_by_day: the first task row whose day is `day`. */
  function TaskIdByDay(tasks: TaskTable, day: int): (r: Option<int>)
    ensures r.None? <==> forall id :: id in tasks ==> tasks[id].day != day
    ensures r.Some? ==> r.value in tasks && tasks[r.value].day == day
    ensures r.Some? ==> forall id :: id in tasks && tasks[id].day == day ==> r.value <= id
  {
    FirstKey(tasks, (t: Task) => t.day == day)
  }

  /** With `day_number` unique, looking a task up by its own day finds that very task. */
  lemma TaskIdByDayOfUnique(tasks: TaskTable, id: int)
    requires UniqueDays(tasks)
    requires id in tasks
    ensures TaskIdByDay(tasks, tasks[id].day) == Some(id)
  {
  }

  /** get_user_by_telegram_id: the first user row with that Telegram id. */
  function UserIdByTelegramId(users: UserTable, telegramId: int): (r: Option<int>)
    ensures r.None? <==> forall id :: id in users ==> users[id].telegramId != telegramId
    ensures r.Some? ==> r.value in users && users[r.value].telegramId == telegramId
    ensures r.Some? ==> forall id :: id in users && users[id].telegramId == telegramId ==> r.value <= id
  {
    FirstKey(users, (u: User) => u.telegramId == telegramId)
  }

  /** Under the UNIQUE constraint, looking a user up by their own telegram id finds that row. */
  lemma UserIdByTelegramIdOfUnique(users: UserTable, id: int)
    requires UniqueTelegramIds(users)
    requires id in users
    ensures UserIdByTelegramId(users, users[id].telegramId) == Some(id)
  {
  }

  predicate IsUpper(c: char) {
    'A' <= c <= 'Z'
  }

  /** ASCII lower-casing of one character. */
  function LowerChar(c: char): (d: char)
    ensures !IsUpper(d)
    ensures !IsUpper(c) ==> d == c
    ensures IsUpper(c) ==> d as int == c as int + ('a' as int - 'A' as int)
  {
    if IsUpper(c) then (c as int + 32) as char else c
  }

  /** str.lower(), restricted to ASCII letters. */
  function Lower(s: string): (r: string)
    ensures |r| == |s|
    ensures forall i :: 0 <= i < |r| ==> !IsUpper(r[i])
    ensures (forall i :: 0 <= i < |s| ==> !IsUpper(s[i])) ==> r == s
    ensures forall i :: 0 <= i < |s| && IsUpper(s[i]) ==> r[i] as int == s[i] as int + ('a' as int - 'A' as int)
    ensures forall i :: 0 <= i < |s| && !IsUpper(s[i]) ==> r[i] == s[i]
  {
    seq(|s|, i requires 0 <= i < |s| => LowerChar(s[i]))
  }

  /**
   * get_user_by_username as it finally stands (the second of the two
   * definitions): the query is lower-cased but the stored name is compared
   * as it is.
   */
  function UserIdByUsername(users: UserTable, name: string): (r: Option<int>)
    ensures r.None? <==> forall id :: id in users ==> users[id].username != Lower(name)
    ensures r.Some? ==> r.value in users && users[r.value].username == Lower(name)
    ensures r.Some? ==> forall id :: id in users && users[id].username == Lower(name) ==> r.value <= id
  {
    var lowered := Lower(name);
    FirstKey(users, (u: User) => u.username == lowered)
  }

  /** A user whose stored username holds an upper-case letter is never found by name. */
  lemma MixedCaseUsernameNeverFound(users: UserTable, name: string, id: int, k: int)
    requires id in users
    requires 0 <= k < |users[id].username| && IsUpper(users[id].username[k])
    ensures UserIdByUsername(users, name) != Some(id)
  {
    var lowered := Lower(name);
    if |lowered| == |users[id].username| {
      assert lowered[k] != users[id].username[k];
    }
    assert users[id].username != lowered;
  }

  /** get_submission_by_id */
  function SubmissionById(subs: SubmissionTable, id: int): (r: Option<Submission>)
    ensures r.None? <==> id !in subs
    ensures r.Some? ==> id in subs && r.value == subs[id]
  {
    if id in subs then Some(subs[id]) else None
  }

  /** What get_submission_by_user_and_task returns: the row and its `checked` flag. */
  datatype SubmissionMatch = SubmissionMatch(id: int, row: Submission, checked: bool)

  /**
   * get_submission_by_user_and_task: the first row (by id) for that user and
   * task; its `checked` flag is `bool(status)`, so it is true for every
   * status but PENDING.
   */
  function SubmissionByUserAndTask(subs: SubmissionTable, userId: int, taskId: int): (r: Option<SubmissionMatch>)
    ensures r.None? <==> forall s :: s in subs ==> subs[s].userId != userId || subs[s].taskId != taskId
    ensures r.Some? ==> r.value.id in subs && r.value.row == subs[r.value.id]
    ensures r.Some? ==> r.value.row.userId == userId && r.value.row.taskId == taskId
    ensures r.Some? ==> forall s :: s in subs && subs[s].userId == userId && subs[s].taskId == taskId ==> r.value.id <= s
    ensures r.Some? ==> (r.value.checked <==> r.value.row.status != StatusPending)
  {
    match FirstKey(subs, (s: Submission) => s.userId == userId && s.taskId == taskId)
    case None => None
    case Some(id) => Some(SubmissionMatch(id, subs[id], subs[id].status != 0))
  }

  // ---------------------------------------------------------------------
  // Pending tasks
  // ---------------------------------------------------------------------

  /** The user has at least one APPROVED submission for the task. */
  predicate HasApproved(subs: SubmissionTable, userId: int, taskId: int) {
    exists s :: s in subs && subs[s].userId == userId && subs[s].taskId == taskId && subs[s].status == StatusApproved
  }

  function PendingIds(tasks: TaskTable, subs: SubmissionTable, userId: int): set<int> {
    set t | t in tasks && !HasApproved(subs, userId, t)
  }

  /** `ORDER BY day_number`, with the row id deciding between equal days. */
  predicate Precedes(tasks: TaskTable, a: int, b: int)
    requires a in tasks && b in tasks
  {
    tasks[a].day < tasks[b].day || (tasks[a].day == tasks[b].day && a < b)
  }

  ghost predicate SortedByDay(tasks: TaskTable, r: seq<int>) {
    && (forall i :: 0 <= i < |r| ==> r[i] in tasks)
    && (forall i, j :: 0 <= i < j < |r| ==> Precedes(tasks, r[i], r[j]))
  }

  /** The task of `ids` that comes first in day order. */
  function Earliest(tasks: TaskTable, ids: set<int>): (e: int)
    requires ids != {} && ids <= tasks.Keys
    ensures e in ids
    ensures forall x :: x in ids && x != e ==> Precedes(tasks, e, x)
  {
    var days := set id | id in ids :: tasks[id].day;
    assert days != {} by {
      HasMember(ids);
      var w :| w in ids;
      assert tasks[w].day in days;
    }
    var d := Smallest(days);
    var earliest := set id | id in ids && tasks[id].day == d;
    assert earliest != {} by {
      var w :| w in ids && tasks[w].day == d;
      assert w in earliest;
    }
    var e := Smallest(earliest);
    assert forall x :: x in ids ==> tasks[x].day in days;
    assert forall x :: x in ids && tasks[x].day == d ==> x in earliest;
    e
  }

  /** The ids of `ids`, ordered by day; built by taking the earliest task first. */
  function SortByDay(tasks: TaskTable, ids: set<int>): (r: seq<int>)
    requires ids <= tasks.Keys
    ensures |r| == |ids|
    ensures forall x :: x in r <==> x in ids
    ensures SortedByDay(tasks, r)
    decreases |ids|
  {
    if ids == {} then []
    else
      var first := Earliest(tasks, ids);
      var rest := SortByDay(tasks, ids - {first});
      assert forall j :: 0 <= j < |rest| ==> rest[j] in ids - {first};
      [first] + rest
  }

  /**
   * get_pending_tasks: exactly the tasks for which the user has no APPROVED
   * submission, in ascending day order.
   */
  function PendingTasks(tasks: TaskTable, subs: SubmissionTable, userId: int): (r: seq<int>)
    ensures forall t :: t in r <==> t in tasks && !HasApproved(subs, userId, t)
    ensures SortedByDay(tasks, r)
  {
    SortByDay(tasks, PendingIds(tasks, subs, userId))
  }

  /** With `day_number` unique the pending listing is strictly ascending in day. */
  lemma PendingDaysAscend(tasks: TaskTable, subs: SubmissionTable, userId: int, i: int, j: int)
    requires UniqueDays(tasks)
    requires 0 <= i < j < |PendingTasks(tasks, subs, userId)|
    ensures var r := PendingTasks(tasks, subs, userId);
            tasks[r[i]].day < tasks[r[j]].day
  {
    var r := PendingTasks(tasks, subs, userId);
    assert Precedes(tasks, r[i], r[j]);
  }

  /** Two day-sorted listings of the same tasks are the same sequence. */
  lemma {:induction false} SortedListingIsUnique(tasks: TaskTable, a: seq<int>, b: seq<int>)
    requires SortedByDay(tasks, a) && SortedByDay(tasks, b)
    requires forall x :: x in a <==> x in b
    ensures a == b
    decreases |a|
  {
    assert a != [] ==> a[0] in b by {
      if a != [] {
        var h := a[0];
        assert h in a;
      }
    }
    assert b != [] ==> b[0] in a by {
      if b != [] {
        var g := b[0];
        assert g in b;
      }
    }
    if a != [] {
      var h, g := a[0], b[0];
      var m :| 0 <= m < |a| && a[m] == g;
      var k :| 0 <= k < |b| && b[k] == h;
      assert m != 0 ==> Precedes(tasks, h, g);
      assert k != 0 ==> Precedes(tasks, g, h);
      assert h == g;
      forall x
        ensures x in a[1..] <==> x in b[1..]
      {
        if x in a[1..] {
          var i :| 1 <= i < |a| && a[i] == x;
          assert Precedes(tasks, a[0], a[i]);
          assert x in b;
          assert x != b[0];
          var j :| 0 <= j < |b| && b[j] == x;
          assert x == b[1..][j - 1];
        }
        if x in b[1..] {
          var j :| 1 <= j < |b| && b[j] == x;
          assert Precedes(tasks, b[0], b[j]);
          assert x in a;
          assert x != a[0];
          var i :| 0 <= i < |a| && a[i] == x;
          assert x == a[1..][i - 1];
        }
      }
      SortedListingIsUnique(tasks, a[1..], b[1..]);
      assert a == [a[0]] + a[1..];
      assert b == [b[0]] + b[1..];
    }
  }

  /**
   * The pending listing is determined by what it must contain and its order:
   * any day-sorted sequence of exactly the unapproved tasks is it.
   */
  lemma PendingTasksDetermined(tasks: TaskTable, subs: SubmissionTable, userId: int, r: seq<int>)
    requires SortedByDay(tasks, r)
    requires forall t :: t in r <==> t in tasks && !HasApproved(subs, userId, t)
    ensures r == PendingTasks(tasks, subs, userId)
  {
    SortedListingIsUnique(tasks, r, PendingTasks(tasks, subs, userId));
  }

  /** The pending listing depends on the submissions only through which tasks are approved. */
  lemma PendingTasksFollowApprovals(tasks: TaskTable, a: SubmissionTable, b: SubmissionTable, userId: int)
    requires forall t :: HasApproved(a, userId, t) <==> HasApproved(b, userId, t)
    ensures PendingTasks(tasks, a, userId) == PendingTasks(tasks, b, userId)
  {
    assert PendingIds(tasks, a, userId) == PendingIds(tasks, b, userId);
  }

  // ---------------------------------------------------------------------
  // Completion counts
  // ---------------------------------------------------------------------

  /** The ids of the user's APPROVED rows. */
  function ApprovedRows(subs: SubmissionTable, userId: int): (r: set<int>)
    ensures forall s :: s in r <==> s in subs && subs[s].userId == userId && subs[s].status == StatusApproved
  {
    set s | s in subs && subs[s].userId == userId && subs[s].status == StatusApproved
  }

  function TaskIdsOf(subs: SubmissionTable, rows: set<int>): set<int>
    requires rows <= subs.Keys
  {
    set s | s in rows :: subs[s].taskId
  }

  /** Distinct tasks with an APPROVED submission by the user. */
  function CompletedTaskIds(subs: SubmissionTable, userId: int): (r: set<int>)
    ensures forall t :: t in r <==> HasApproved(subs, userId, t)
  {
    TaskIdsOf(subs, ApprovedRows(subs, userId))
  }

  /** Mapping rows to their task ids never yields more ids than rows. */
  lemma {:induction false} TaskIdsAtMostRows(subs: SubmissionTable, rows: set<int>)
    requires rows <= subs.Keys
    ensures |TaskIdsOf(subs, rows)| <= |rows|
    decreases |rows|
  {
    if rows != {} {
      HasMember(rows);
      var x :| x in rows;
      TaskIdsAtMostRows(subs, rows - {x});
      assert TaskIdsOf(subs, rows) == TaskIdsOf(subs, rows - {x}) + {subs[x].taskId};
    }
  }

  lemma SubsetCardinality(a: set<int>, b: set<int>)
    requires a <= b
    ensures |a| <= |b|
  {
    assert b == a + (b - a);
  }

  /**
   * get_completed_task_count: COUNT(*) of the user's APPROVED rows, several
   * approved rows for one task counting several times.
   */
  function CompletedTaskCount(subs: SubmissionTable, userId: int): (n: nat)
    ensures n == |ApprovedRows(subs, userId)|
    ensures n <= |subs|
    ensures n == 0 <==> forall s :: s in subs ==> subs[s].userId != userId || subs[s].status != StatusApproved
  {
    var rows := ApprovedRows(subs, userId);
    SubsetCardinality(rows, subs.Keys);
    assert rows == {} ==> forall s :: s in subs ==> subs[s].userId != userId || subs[s].status != StatusApproved by {
      if rows == {} {
        forall s | s in subs
          ensures subs[s].userId != userId || subs[s].status != StatusApproved
        {
          assert subs[s].userId == userId && subs[s].status == StatusApproved ==> s in rows;
        }
      }
    }
    assert rows != {} ==> exists s :: s in rows by {
      if rows != {} { HasMember(rows); }
    }
    |rows|
  }

  /**
   * get_user_completed_tasks_count: COUNT(DISTINCT task_id) of the user's
   * APPROVED rows. It never exceeds the row count, nor the number of
   * distinct tasks that have any submission at all.
   */
  function UserCompletedTasksCount(subs: SubmissionTable, userId: int): (n: nat)
    ensures n == |CompletedTaskIds(subs, userId)|
    ensures n <= CompletedTaskCount(subs, userId)
    ensures n <= |TaskIdsOf(subs, subs.Keys)|
  {
    var ids := CompletedTaskIds(subs, userId);
    TaskIdsAtMostRows(subs, ApprovedRows(subs, userId));
    SubsetCardinality(ids, TaskIdsOf(subs, subs.Keys));
    |ids|
  }

  /** get_total_task_count */
  function TotalTaskCount(tasks: TaskTable): (n: nat)
    ensures n == 0 <==> tasks == map[]
  {
    |tasks|
  }

  /**
   * The approved-row count built up one insert at a time: 0 on an empty
   * table, and a new row adds 1 exactly when it is the user's and approved.
   */
  lemma CompletedTaskCountOfInsert(subs: SubmissionTable, id: int, row: Submission, userId: int)
    requires id !in subs
    ensures CompletedTaskCount(map[], userId) == 0
    ensures CompletedTaskCount(subs[id := row], userId)
              == CompletedTaskCount(subs, userId) + (if row.userId == userId && row.status == StatusApproved then 1 else 0)
  {
    var before := ApprovedRows(subs, userId);
    var after := ApprovedRows(subs[id := row], userId);
    if row.userId == userId && row.status == StatusApproved {
      assert after == before + {id};
    } else {
      assert after == before;
    }
  }

  /** Two approved rows for one task: the distinct count is 1, the row count 2. */
  lemma CountsDifferOnRepeatedApproval(userId: int, taskId: int)
    ensures var subs := map[1 := Submission(userId, taskId, "a", "", StatusApproved),
                            2 := Submission(userId, taskId, "b", "", StatusApproved)];
            UserCompletedTasksCount(subs, userId) == 1 && CompletedTaskCount(subs, userId) == 2
  {
    var subs := map[1 := Submission(userId, taskId, "a", "", StatusApproved),
                    2 := Submission(userId, taskId, "b", "", StatusApproved)];
    assert ApprovedRows(subs, userId) == {1, 2};
    assert CompletedTaskIds(subs, userId) == {taskId};
  }

  /**
   * When every submission points at a task, the completed tasks and the
   * pending tasks split the catalogue between them.
   */
  lemma CompletedPlusPendingIsTotal(tasks: TaskTable, subs: SubmissionTable, userId: int)
    requires SubmissionsReferenceTasks(tasks, subs)
    ensures UserCompletedTasksCount(subs, userId) + |PendingTasks(tasks, subs, userId)| == |tasks|
  {
    var done := CompletedTaskIds(subs, userId);
    var open := PendingIds(tasks, subs, userId);
    assert done <= tasks.Keys by {
      forall t | t in done ensures t in tasks {
        var s :| s in subs && subs[s].userId == userId && subs[s].taskId == t && subs[s].status == StatusApproved;
      }
    }
    assert done !! open;
    assert done + open == tasks.Keys;
    assert |PendingTasks(tasks, subs, userId)| == |open|;
  }

  /**
   * The branch of show_pending_tasks that says "pending review" cannot be
   * taken: with nothing pending, the approved-row count reaches the task count.
   */
  lemma NothingPendingMeansAllApproved(tasks: TaskTable, subs: SubmissionTable, userId: int)
    requires PendingTasks(tasks, subs, userId) == []
    ensures CompletedTaskCount(subs, userId) >= |tasks|
  {
    var done := CompletedTaskIds(subs, userId);
    assert tasks.Keys <= done by {
      forall t | t in tasks ensures t in done {
        assert t !in PendingTasks(tasks, subs, userId);
      }
    }
    SubsetCardinality(tasks.Keys, done);
    assert UserCompletedTasksCount(subs, userId) == |done|;
  }

  // ---------------------------------------------------------------------
  // Progress
  // ---------------------------------------------------------------------

  /** get_user_progress; the percentage is exact (no floating point). */
  datatype Progress = Progress(completed: nat, total: nat, percentage: real)

  function UserProgress(tasks: TaskTable, subs: SubmissionTable, userId: int): (p: Progress)
    ensures p.completed == UserCompletedTasksCount(subs, userId)
    ensures p.total == |tasks|
    ensures p.total == 0 ==> p.percentage == 0.0
    ensures p.total > 0 ==> p.percentage * p.total as real == p.completed as real * 100.0
  {
    var completed := UserCompletedTasksCount(subs, userId);
    var total := |tasks|;
    var percentage := if total > 0 then completed as real / total as real * 100.0 else 0.0;
    Progress(completed, total, percentage)
  }

  /**
   * With every submission pointing at a task, the percentage lies in
   * 0..100 and is 100 exactly when nothing is pending.
   */
  lemma ProgressBounds(tasks: TaskTable, subs: SubmissionTable, userId: int)
    requires SubmissionsReferenceTasks(tasks, subs)
    requires |tasks| > 0
    ensures var p := UserProgress(tasks, subs, userId);
            && 0.0 <= p.percentage <= 100.0
            && (p.percentage == 100.0 <==> PendingTasks(tasks, subs, userId) == [])
  {
    var p := UserProgress(tasks, subs, userId);
    CompletedPlusPendingIsTotal(tasks, subs, userId);
    PercentageBounds(p.completed, p.total);
  }

  lemma PercentageBounds(c: nat, t: nat)
    requires 0 < t && c <= t
    ensures 0.0 <= c as real / t as real * 100.0 <= 100.0
    ensures c as real / t as real * 100.0 == 100.0 <==> c == t
  {
    var q := c as real / t as real;
    assert q * t as real == c as real;
    assert 0.0 <= q <= 1.0;
    if q == 1.0 {
      assert c as real == t as real;
    }
  }

  // ---------------------------------------------------------------------
  // Status labels
  // ---------------------------------------------------------------------

  // The labels are kept character for character as database.py holds them:
  // emoji whose UTF-8 bytes were once re-read as Windows-1252, so the
  // yellow circle reads as U+00F0 U+0178 U+0178 U+00A1 and the bytes that
  // code page leaves undefined are gone.
  const PendingLabel: string := "\U{00F0}\U{0178}\U{0178}\U{00A1} Pending"
  const ApprovedLabel: string := "\U{00E2}\U{0153}\U{2026} Approved"
  const RejectedLabel: string := "\U{00E2}\U{0152} Rejected"
  const NeedsRedoLabel: string := "\U{00F0}\U{0178}\U{0178}\U{00A0} Needs Redo"
  const UnknownLabel: string := "\U{00E2}\U{201C} Unknown"

  /** get_status_text */
  function StatusText(code: int): (r: string)
    ensures code == StatusPending ==> r == PendingLabel
    ensures code == StatusApproved ==> r == ApprovedLabel
    ensures code == StatusRejected ==> r == RejectedLabel
    ensures code == StatusNeedsRedo ==> r == NeedsRedoLabel
    ensures r == UnknownLabel <==> !(0 <= code <= 3)
  {
    if code == StatusPending then PendingLabel
    else if code == StatusApproved then ApprovedLabel
    else if code == StatusRejected then RejectedLabel
    else if code == StatusNeedsRedo then NeedsRedoLabel
    else UnknownLabel
  }

  /** Distinct known status codes get distinct labels. */
  lemma StatusTextDistinguishesKnownCodes(a: int, b: int)
    requires 0 <= a <= 3 && 0 <= b <= 3 && a != b
    ensures StatusText(a) != StatusText(b)
  {
  }
}
