/**
 * The administrator's commands. Telegram replies are not modelled; each
 * handler returns an outcome naming the branch it took and, where it
 * messages a participant, the chat it writes to. Whether the sender is an
 * administrator is an input (`isAdmin`), and command arguments arrive
 * already parsed.
 */
module AdminHandlers {
  import opened Wrappers
  import opened Rows
  import opened Queries
  import opened Database

  // ---------------------------------------------------------------------
  // Pagination of the admin lists
  // ---------------------------------------------------------------------

  /** The navigation row under a page: the page each button leads to. */
  datatype PageButtons = PageButtons(prev: Option<int>, next: Option<int>)

  /** pagination_buttons: None when the row would be empty. */
  function PaginationButtons(page: int, totalItems: int, perPage: int): (r: Option<PageButtons>)
    ensures r.Some? ==> r.value.prev.Some? || r.value.next.Some?
    ensures r.Some? && r.value.prev.Some? ==> r.value.prev.value == page - 1
    ensures r.Some? && r.value.next.Some? ==> r.value.next.value == page + 1
  {
    var prev := if page > 0 then Some(page - 1) else None;
    var next := if (page + 1) * perPage < totalItems then Some(page + 1) else None;
    if prev.None? && next.None? then None else Some(PageButtons(prev, next))
  }

  /** The page count the list views print: `(n - 1) // per_page + 1`. */
  function TotalPages(totalItems: int, perPage: int): (r: int)
    requires perPage > 0
    ensures totalItems > 0 ==> (r - 1) * perPage < totalItems <= r * perPage
    ensures totalItems == 0 ==> r == 0
  {
    var q := (totalItems - 1) / perPage;
    assert totalItems - 1 == q * perPage + (totalItems - 1) % perPage;
    assert (q + 1) * perPage == q * perPage + perPage;
    q + 1
  }

  lemma MulMonotone(a: int, b: int, c: int)
    requires a <= b && 0 <= c
    ensures a * c <= b * c
  {
    assert b * c - a * c == (b - a) * c;
  }

  /**
   * "Next" is offered exactly when a later page exists, "Prev" exactly when
   * an earlier one does, and no row is shown only when both are absent.
   */
  lemma {:induction false} ButtonsMatchPageCount(page: int, totalItems: int, perPage: int)
    requires perPage > 0
    ensures var r := PaginationButtons(page, totalItems, perPage);
            && (r.Some? && r.value.next.Some? <==> page + 1 < TotalPages(totalItems, perPage))
            && (r.Some? && r.value.prev.Some? <==> page > 0)
            && (r.None? <==> page <= 0 && TotalPages(totalItems, perPage) <= page + 1)
  {
    var q := (totalItems - 1) / perPage;
    var m := (totalItems - 1) % perPage;
    assert totalItems - 1 == q * perPage + m && 0 <= m < perPage;
    if page + 1 <= q {
      MulMonotone(page + 1, q, perPage);
      assert (page + 1) * perPage < totalItems;
    } else {
      MulMonotone(q + 1, page + 1, perPage);
      assert (q + 1) * perPage == q * perPage + perPage;
      assert (page + 1) * perPage >= totalItems;
    }
  }

  // ---------------------------------------------------------------------
  // Outgoing text
  // ---------------------------------------------------------------------

  /** Telegram's limit on one message, as the handlers apply it. */
  const MaxMessageLength := 4000

  /** `message[:4000]`: the notification text actually sent. */
  function Truncate(message: string): (r: string)
    ensures |r| <= MaxMessageLength
    ensures r <= message
    ensures |message| <= MaxMessageLength <==> r == message
    ensures |message| > MaxMessageLength ==> |r| == MaxMessageLength
  {
    if |message| <= MaxMessageLength then message else message[..MaxMessageLength]
  }

  /** The text a list of chunks reads as when sent one after another. */
  function Concat(parts: seq<string>): string {
    if parts == [] then "" else parts[0] + Concat(parts[1..])
  }

  lemma {:induction false} ConcatAppend(parts: seq<string>, last: string)
    ensures Concat(parts + [last]) == Concat(parts) + last
    decreases |parts|
  {
    if parts == [] {
      assert [] + [last] == [last];
    } else {
      assert (parts + [last])[1..] == parts[1..] + [last];
      ConcatAppend(parts[1..], last);
    }
  }

  /**
   * all_users' split of a long listing: consecutive slices of at most 4000
   * characters that together give back the whole text, every one but the
   * last of the full length.
   */
  method SplitMessage(text: string) returns (chunks: seq<string>)
    ensures Concat(chunks) == text
    ensures forall k :: 0 <= k < |chunks| ==> 0 < |chunks[k]| <= MaxMessageLength
    ensures forall k :: 0 <= k < |chunks| - 1 ==> |chunks[k]| == MaxMessageLength
    ensures text == [] <==> chunks == []
  {
    chunks := [];
    var i := 0;
    while i < |text|
      invariant 0 <= i <= |text|
      invariant Concat(chunks) == text[..i]
      invariant forall k :: 0 <= k < |chunks| ==> 0 < |chunks[k]| <= MaxMessageLength
      invariant forall k :: 0 <= k < |chunks| - 1 ==> |chunks[k]| == MaxMessageLength
      invariant chunks != [] && i < |text| ==> |chunks[|chunks| - 1]| == MaxMessageLength
      invariant chunks == [] <==> i == 0
      decreases |text| - i
    {
      var end := if i + MaxMessageLength < |text| then i + MaxMessageLength else |text|;
      ConcatAppend(chunks, text[i..end]);
      assert text[..i] + text[i..end] == text[..end];
      chunks := chunks + [text[i..end]];
      i := end;
    }
    assert text[..i] == text;
  }

  // ---------------------------------------------------------------------
  // Users
  // ---------------------------------------------------------------------

  datatype ApproveOutcome = ApproveNotAdmin | ApproveUserNotFound | AlreadyApproved | UserApproved(chatId: int)

  /** /approve <user_id>: sets `approved` on a known, unapproved user and tells them. */
  method ApproveUser(db: Store, isAdmin: bool, userId: int) returns (r: ApproveOutcome)
    requires db.Valid()
    modifies db
    ensures db.Valid()
    ensures r.ApproveNotAdmin? <==> !isAdmin
    ensures r.ApproveUserNotFound? <==> isAdmin && userId !in old(db.users)
    ensures r.AlreadyApproved? <==> isAdmin && userId in old(db.users) && old(db.users)[userId].approved
    ensures r.UserApproved? ==> && userId in old(db.users)
                                && r.chatId == old(db.users)[userId].telegramId
                                && db.users == old(db.users)[userId := old(db.users)[userId].(approved := true)]
    ensures !r.UserApproved? ==> db.users == old(db.users)
    ensures db.tasks == old(db.tasks) && db.submissions == old(db.submissions) && db.Counters() == old(db.Counters())
  {
    if !isAdmin {
      return ApproveNotAdmin;
    }
    if userId !in db.users {
      return ApproveUserNotFound;
    }
    var user := db.users[userId];
    if user.approved {
      return AlreadyApproved;
    }
    var _ := db.UpdateUser(userId, UserChanges(Some(true), None, None));
    r := UserApproved(user.telegramId);
  }

  datatype RemoveUserOutcome = RemoveUserNotAdmin | UserRemoved | RemoveUserNotFound

  /**
   * /remove_user <user_id>: deletes the user row only. Their submissions
   * stay behind, still naming the deleted id.
   */
  method RemoveUser(db: Store, isAdmin: bool, userId: int) returns (r: RemoveUserOutcome)
    requires db.Valid()
    modifies db
    ensures db.Valid()
    ensures r.RemoveUserNotAdmin? <==> !isAdmin
    ensures r.UserRemoved? <==> isAdmin && userId in old(db.users)
    ensures isAdmin ==> db.users == old(db.users) - {userId}
    ensures !isAdmin ==> db.users == old(db.users)
    ensures userId !in db.users || !isAdmin
    ensures db.tasks == old(db.tasks) && db.submissions == old(db.submissions) && db.Counters() == old(db.Counters())
  {
    if !isAdmin {
      return RemoveUserNotAdmin;
    }
    var count := db.DeleteUser(userId);
    r := if count > 0 then UserRemoved else RemoveUserNotFound;
  }

  // ---------------------------------------------------------------------
  // Tasks
  // ---------------------------------------------------------------------

  datatype AddTaskOutcome = AddTaskNotAdmin | DayTaken | TaskAdded(taskId: int)

  /** /add_task <day> <text>: refuses a day that already has a task. */
  method AddTaskHandler(db: Store, isAdmin: bool, day: int, text: string) returns (r: AddTaskOutcome)
    requires db.Valid()
    modifies db
    ensures db.Valid()
    ensures r.AddTaskNotAdmin? <==> !isAdmin
    ensures r.DayTaken? <==> isAdmin && TaskIdByDay(old(db.tasks), day).Some?
    ensures !r.TaskAdded? ==> db.tasks == old(db.tasks) && db.Counters() == old(db.Counters())
    ensures r.TaskAdded? ==> && r.taskId !in old(db.tasks)
                             && db.tasks == old(db.tasks)[r.taskId := Task(day, text)]
                             && TaskIdByDay(db.tasks, day) == Some(r.taskId)
    ensures r.TaskAdded? ==> && r.taskId == old(db.lastTaskId) + 1
                             && db.Counters() == (old(db.lastUserId), r.taskId, old(db.lastSubmissionId))
    ensures db.users == old(db.users) && db.submissions == old(db.submissions)
    ensures old(db.Consistent()) ==> db.Consistent()
  {
    if !isAdmin {
      return AddTaskNotAdmin;
    }
    if TaskIdByDay(db.tasks, day).Some? {
      return DayTaken;
    }
    var res := db.AddTask(day, text);
    r := TaskAdded(res.value);
  }

  datatype RemoveTaskOutcome = RemoveTaskNotAdmin | RemoveTaskNotFound | TaskRemoved(taskId: int, deletedSubmissions: nat)

  /**
   * /remove_task <day>: deletes every submission of the day's task, then
   * the task, and reports how many submissions went.
   */
  method RemoveTask(db: Store, isAdmin: bool, day: int) returns (r: RemoveTaskOutcome)
    requires db.Valid()
    modifies db
    ensures db.Valid()
    ensures r.RemoveTaskNotAdmin? <==> !isAdmin
    ensures r.RemoveTaskNotFound? <==> isAdmin && TaskIdByDay(old(db.tasks), day).None?
    ensures !r.TaskRemoved? ==> db.tasks == old(db.tasks) && db.submissions == old(db.submissions)
    ensures r.TaskRemoved? ==>
              && TaskIdByDay(old(db.tasks), day) == Some(r.taskId)
              && db.tasks == old(db.tasks) - {r.taskId}
              && db.submissions == (map s | s in old(db.submissions) && old(db.submissions)[s].taskId != r.taskId :: old(db.submissions)[s])
              && r.deletedSubmissions == |set s | s in old(db.submissions) && old(db.submissions)[s].taskId == r.taskId|
              && TaskIdByDay(db.tasks, day).None?
              && (forall s :: s in db.submissions ==> db.submissions[s].taskId != r.taskId)
    ensures db.users == old(db.users) && db.Counters() == old(db.Counters())
    ensures old(db.Consistent()) ==> db.Consistent()
  {
    if !isAdmin {
      return RemoveTaskNotAdmin;
    }
    var found := TaskIdByDay(db.tasks, day);
    if found.None? {
      return RemoveTaskNotFound;
    }
    var taskId := found.value;
    ghost var before := db.tasks;
    var deleted := db.DeleteSubmissionsOfTask(taskId);
    var _ := db.DeleteTasksOfDay(day);
    assert db.tasks == before - {taskId} by {
      forall t | t in before
        ensures before[t].day == day <==> t == taskId
      {
      }
    }
    r := TaskRemoved(taskId, deleted);
  }

  datatype SendTaskOutcome = SendNotAdmin | SendUserNotFound | SendTaskNotFound | TaskSent(chatId: int, taskId: int)

  /**
   * /send_task <user_id> <day>: checks the user before the task, then moves
   * the user to that day and sends them the task.
   */
  method SendTask(db: Store, isAdmin: bool, userId: int, day: int) returns (r: SendTaskOutcome)
    requires db.Valid()
    modifies db
    ensures db.Valid()
    ensures r.SendNotAdmin? <==> !isAdmin
    ensures r.SendUserNotFound? <==> isAdmin && userId !in old(db.users)
    ensures r.SendTaskNotFound? <==> isAdmin && userId in old(db.users) && TaskIdByDay(old(db.tasks), day).None?
    ensures r.TaskSent? ==> && userId in old(db.users)
                            && r.chatId == old(db.users)[userId].telegramId
                            && TaskIdByDay(old(db.tasks), day) == Some(r.taskId)
                            && db.users == old(db.users)[userId := old(db.users)[userId].(currentTask := day)]
    ensures !r.TaskSent? ==> db.users == old(db.users)
    ensures db.tasks == old(db.tasks) && db.submissions == old(db.submissions) && db.Counters() == old(db.Counters())
  {
    if !isAdmin {
      return SendNotAdmin;
    }
    var task := TaskIdByDay(db.tasks, day);
    if userId !in db.users {
      return SendUserNotFound;
    }
    if task.None? {
      return SendTaskNotFound;
    }
    var user := db.users[userId];
    var _ := db.UpdateUser(userId, UserChanges(None, Some(day), None));
    r := TaskSent(user.telegramId, task.value);
  }

  // ---------------------------------------------------------------------
  // Reviewing submissions
  // ---------------------------------------------------------------------

  /** A message to one participant's chat. */
  datatype Notice = Notice(chatId: int, text: string)

  /**
   * notify_user: finds the submission, then its user, and writes the
   * truncated message to that user's chat; a missing row on either step
   * means no message.
   */
  function NotifyUser(users: UserTable, subs: SubmissionTable, submissionId: int, message: string): (r: Option<Notice>)
    ensures r.Some? <==> SubmissionById(subs, submissionId).Some? && subs[submissionId].userId in users
    ensures r.Some? ==> r.value.chatId == users[subs[submissionId].userId].telegramId
    ensures r.Some? ==> r.value.text == Truncate(message)
    ensures r.Some? ==> |r.value.text| <= MaxMessageLength && r.value.text <= message
  {
    match SubmissionById(subs, submissionId)
    case None => None
    case Some(s) =>
      if s.userId in users then Some(Notice(users[s.userId].telegramId, Truncate(message))) else None
  }

  /** The submissions table after a verdict on one row: its status and feedback replaced. */
  function WithVerdict(subs: SubmissionTable, submissionId: int, status: int, feedback: string): SubmissionTable {
    if submissionId in subs then subs[submissionId := subs[submissionId].(status := status, feedback := feedback)] else subs
  }

  /** An approval marks the row's task completed for the row's user, so it is no longer pending. */
  lemma ApprovalCompletesTask(tasks: TaskTable, subs: SubmissionTable, submissionId: int, feedback: string)
    requires submissionId in subs
    ensures var after := WithVerdict(subs, submissionId, StatusApproved, feedback);
            var s := subs[submissionId];
            && HasApproved(after, s.userId, s.taskId)
            && s.taskId !in PendingTasks(tasks, after, s.userId)
  {
    var after := WithVerdict(subs, submissionId, StatusApproved, feedback);
    assert submissionId in after && after[submissionId].status == StatusApproved;
  }

  /** A verdict on one user's row leaves every other user's pending list as it was. */
  lemma VerdictKeepsOtherUsersPending(tasks: TaskTable, subs: SubmissionTable, submissionId: int, status: int, feedback: string, userId: int)
    requires submissionId in subs ==> subs[submissionId].userId != userId
    ensures PendingTasks(tasks, WithVerdict(subs, submissionId, status, feedback), userId) == PendingTasks(tasks, subs, userId)
  {
    var after := WithVerdict(subs, submissionId, status, feedback);
    forall t
      ensures HasApproved(after, userId, t) <==> HasApproved(subs, userId, t)
    {
      if HasApproved(subs, userId, t) {
        var s :| s in subs && subs[s].userId == userId && subs[s].taskId == t && subs[s].status == StatusApproved;
        assert s in after && after[s] == subs[s];
      }
      if HasApproved(after, userId, t) {
        var s :| s in after && after[s].userId == userId && after[s].taskId == t && after[s].status == StatusApproved;
        assert s in subs && after[s] == subs[s];
      }
    }
    PendingTasksFollowApprovals(tasks, after, subs, userId);
  }

  /** Prefix the redo command writes before the administrator's instructions. */
  const RedoFeedbackPrefix := "REDO REQUESTED: "

  const ApprovedNoticeHead := "\U{2705} Your submission was approved!\n\n\U{1F4DD} Feedback: "
  const RejectedNoticeHead := "\U{274C} Your submission was rejected.\n\n\U{1F4DD} Feedback: "
  const RedoNoticeHead := "\U{1F501} Please redo this task:\n\n"
  const RedoNoticeTail := "\n\nSubmit your new attempt with /submit_voice"

  /** The approval message: a fixed head, then the feedback as the message's last characters. */
  function ApprovedNotice(feedback: string): (r: string)
    ensures |r| == |ApprovedNoticeHead| + |feedback|
    ensures r[..|ApprovedNoticeHead|] == ApprovedNoticeHead && r[|ApprovedNoticeHead|..] == feedback
  {
    ApprovedNoticeHead + feedback
  }

  /** The rejection message: a fixed head, then the feedback as the message's last characters. */
  function RejectedNotice(feedback: string): (r: string)
    ensures |r| == |RejectedNoticeHead| + |feedback|
    ensures r[..|RejectedNoticeHead|] == RejectedNoticeHead && r[|RejectedNoticeHead|..] == feedback
  {
    RejectedNoticeHead + feedback
  }

  /** The redo message: the instructions between a fixed head and a fixed tail. */
  function RedoNotice(instructions: string): (r: string)
    ensures |r| == |RedoNoticeHead| + |instructions| + |RedoNoticeTail|
    ensures r[..|RedoNoticeHead|] == RedoNoticeHead
    ensures r[|RedoNoticeHead|..|RedoNoticeHead| + |instructions|] == instructions
    ensures r[|RedoNoticeHead| + |instructions|..] == RedoNoticeTail
  {
    RedoNoticeHead + instructions + RedoNoticeTail
  }

  /**
   * The shared body of the three review commands: update_submission with
   * the verdict and feedback (no check of the row's earlier status), then
   * notify_user with the message.
   */
  method RecordVerdict(db: Store, submissionId: int, status: int, feedback: string, message: string) returns (notice: Option<Notice>)
    requires db.Valid()
    modifies db
    ensures db.Valid()
    ensures db.submissions == WithVerdict(old(db.submissions), submissionId, status, feedback)
    ensures notice == NotifyUser(db.users, db.submissions, submissionId, message)
    ensures db.users == old(db.users) && db.tasks == old(db.tasks) && db.Counters() == old(db.Counters())
    ensures old(db.Consistent()) ==> db.Consistent()
  {
    var _ := db.UpdateSubmission(submissionId, SubmissionChanges(Some(status), Some(feedback)));
    notice := NotifyUser(db.users, db.submissions, submissionId, message);
  }

  datatype ReviewOutcome = ReviewNotAdmin | Reviewed(notice: Option<Notice>)

  /** /approve_feedback <id> <feedback> */
  method ApproveFeedback(db: Store, isAdmin: bool, submissionId: int, feedback: string) returns (r: ReviewOutcome)
    requires db.Valid()
    modifies db
    ensures db.Valid()
    ensures r.ReviewNotAdmin? <==> !isAdmin
    ensures isAdmin ==> db.submissions == WithVerdict(old(db.submissions), submissionId, StatusApproved, feedback)
    ensures isAdmin ==> r.notice == NotifyUser(db.users, db.submissions, submissionId, ApprovedNotice(feedback))
    ensures !isAdmin ==> db.submissions == old(db.submissions)
    ensures db.users == old(db.users) && db.tasks == old(db.tasks) && db.Counters() == old(db.Counters())
    ensures old(db.Consistent()) ==> db.Consistent()
  {
    if !isAdmin {
      return ReviewNotAdmin;
    }
    var notice := RecordVerdict(db, submissionId, StatusApproved, feedback, ApprovedNotice(feedback));
    r := Reviewed(notice);
  }

  /** /reject_feedback <id> <feedback> */
  method RejectFeedback(db: Store, isAdmin: bool, submissionId: int, feedback: string) returns (r: ReviewOutcome)
    requires db.Valid()
    modifies db
    ensures db.Valid()
    ensures r.ReviewNotAdmin? <==> !isAdmin
    ensures isAdmin ==> db.submissions == WithVerdict(old(db.submissions), submissionId, StatusRejected, feedback)
    ensures isAdmin ==> r.notice == NotifyUser(db.users, db.submissions, submissionId, RejectedNotice(feedback))
    ensures !isAdmin ==> db.submissions == old(db.submissions)
    ensures db.users == old(db.users) && db.tasks == old(db.tasks) && db.Counters() == old(db.Counters())
    ensures old(db.Consistent()) ==> db.Consistent()
  {
    if !isAdmin {
      return ReviewNotAdmin;
    }
    var notice := RecordVerdict(db, submissionId, StatusRejected, feedback, RejectedNotice(feedback));
    r := Reviewed(notice);
  }

  /** /redo_feedback <id> <instructions>: the stored feedback carries the redo prefix. */
  method RedoFeedback(db: Store, isAdmin: bool, submissionId: int, instructions: string) returns (r: ReviewOutcome)
    requires db.Valid()
    modifies db
    ensures db.Valid()
    ensures r.ReviewNotAdmin? <==> !isAdmin
    ensures isAdmin ==> db.submissions == WithVerdict(old(db.submissions), submissionId, StatusNeedsRedo, RedoFeedbackPrefix + instructions)
    ensures isAdmin ==> r.notice == NotifyUser(db.users, db.submissions, submissionId, RedoNotice(instructions))
    ensures !isAdmin ==> db.submissions == old(db.submissions)
    ensures db.users == old(db.users) && db.tasks == old(db.tasks) && db.Counters() == old(db.Counters())
    ensures old(db.Consistent()) ==> db.Consistent()
  {
    if !isAdmin {
      return ReviewNotAdmin;
    }
    var notice := RecordVerdict(db, submissionId, StatusNeedsRedo, RedoFeedbackPrefix + instructions, RedoNotice(instructions));
    r := Reviewed(notice);
  }

  // ---------------------------------------------------------------------
  // Certificates
  // ---------------------------------------------------------------------

  datatype CertificateOutcome =
    | CertificateNotAdmin
    | MissingAttachment
    | MissingHandle
    | UnknownHandle
    | NotFinished(completed: nat, total: nat)
    | Deliver(userId: int, chatId: int)

  /**
   * send_certificate's checks, in order: administrator, a document with a
   * caption, an @handle in the caption (passed in already extracted), a
   * user with that handle (lower-cased), and as many approved submission
   * rows as there are tasks.
   */
  function CertificateGate(users: UserTable, tasks: TaskTable, subs: SubmissionTable,
                           isAdmin: bool, attached: bool, handle: Option<string>): (r: CertificateOutcome)
    ensures r.Deliver? ==> && handle.Some?
                           && UserIdByUsername(users, Lower(handle.value)) == Some(r.userId)
                           && r.chatId == users[r.userId].telegramId
                           && CompletedTaskCount(subs, r.userId) >= |tasks|
    ensures r.NotFinished? ==> r.completed < r.total && r.total == |tasks|
    ensures !isAdmin <==> r.CertificateNotAdmin?
    ensures r.MissingAttachment? <==> isAdmin && !attached
    ensures r.MissingHandle? <==> isAdmin && attached && handle.None?
    ensures isAdmin && attached && handle.Some? && UserIdByUsername(users, Lower(handle.value)).Some? ==>
              var id := UserIdByUsername(users, Lower(handle.value)).value;
              && (r.Deliver? || r.NotFinished?)
              && (r.Deliver? <==> CompletedTaskCount(subs, id) >= |tasks|)
              && (r.NotFinished? ==> r.completed == CompletedTaskCount(subs, id))
    ensures r.UnknownHandle? <==> isAdmin && attached && handle.Some? && UserIdByUsername(users, Lower(handle.value)).None?
  {
    if !isAdmin then CertificateNotAdmin
    else if !attached then MissingAttachment
    else if handle.None? then MissingHandle
    else
      match UserIdByUsername(users, Lower(handle.value))
      case None => UnknownHandle
      case Some(id) =>
        var completed := CompletedTaskCount(subs, id);
        var total := TotalTaskCount(tasks);
        if completed < total then NotFinished(completed, total) else Deliver(id, users[id].telegramId)
  }

  /** Someone with no task left pending passes the completion check. */
  lemma NothingPendingEarnsCertificate(users: UserTable, tasks: TaskTable, subs: SubmissionTable, handle: string, userId: int)
    requires UserIdByUsername(users, Lower(handle)) == Some(userId)
    requires PendingTasks(tasks, subs, userId) == []
    ensures CertificateGate(users, tasks, subs, true, true, Some(handle)) == Deliver(userId, users[userId].telegramId)
  {
    NothingPendingMeansAllApproved(tasks, subs, userId);
  }

  /**
   * The check counts approved rows, not distinct tasks: two approved rows
   * for day 1 pass it with day 2 still pending.
   */
  lemma RepeatedApprovalPassesCertificateCheck()
    ensures var users := map[1 := User(100, "anna", true, 2, false, "")];
            var tasks := map[1 := Task(1, "a"), 2 := Task(2, "b")];
            var subs := map[1 := Submission(1, 1, "x", "", StatusApproved),
                            2 := Submission(1, 1, "y", "", StatusApproved)];
            && CertificateGate(users, tasks, subs, true, true, Some("Anna")) == Deliver(1, 100)
            && PendingTasks(tasks, subs, 1) == [2]
  {
    var users := map[1 := User(100, "anna", true, 2, false, "")];
    var tasks := map[1 := Task(1, "a"), 2 := Task(2, "b")];
    var subs := map[1 := Submission(1, 1, "x", "", StatusApproved),
                    2 := Submission(1, 1, "y", "", StatusApproved)];
    var handle := Lower("Anna");
    assert handle == "anna";
    assert Lower(handle) == handle;
    assert users[1].username == Lower(handle);
    assert UserIdByUsername(users, handle) == Some(1);
    assert ApprovedRows(subs, 1) == {1, 2};
    assert CompletedTaskCount(subs, 1) == 2;
    assert !HasApproved(subs, 1, 2);
    assert HasApproved(subs, 1, 1) by { assert subs[1].status == StatusApproved; }
    assert PendingIds(tasks, subs, 1) == {2};
    PendingTasksDetermined(tasks, subs, 1, [2]);
  }
}
