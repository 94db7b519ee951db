/**
 * The participant's side of the bot: registering, the gates in front of
 * the member-only actions, the pending-task listing, choosing and
 * advancing the current task, sending a voice answer and finishing.
 * Telegram I/O is abstracted as in the admin handlers: outcomes name the
 * branch taken, and facts about the incoming message (is it a voice
 * message, was the file saved, the file name) arrive as inputs.
 */
module UserHandlers {
  import opened Wrappers
  import opened Rows
  import opened Queries
  import opened Database

  // ---------------------------------------------------------------------
  // Gates
  // ---------------------------------------------------------------------

  /** The verdict of require_user followed by require_approved. */
  datatype Gate = Unregistered | Unapproved(userId: int) | Admitted(userId: int)

  /**
   * require_user then require_approved: the sender's row (the first with
   * their telegram id) must exist, and must be approved.
   */
  function Admission(users: UserTable, telegramId: int): (g: Gate)
    ensures g.Unregistered? <==> forall id :: id in users ==> users[id].telegramId != telegramId
    ensures !g.Unregistered? ==> UserIdByTelegramId(users, telegramId) == Some(g.userId)
    ensures g.Admitted? ==> users[g.userId].approved
    ensures g.Unapproved? ==> !users[g.userId].approved
  {
    match UserIdByTelegramId(users, telegramId)
    case None => Unregistered
    case Some(id) => if users[id].approved then Admitted(id) else Unapproved(id)
  }

  /** Under the UNIQUE telegram id, the gate admits exactly the approved owner of that id. */
  lemma AdmissionOfOwnRow(users: UserTable, id: int)
    requires UniqueTelegramIds(users)
    requires id in users
    ensures Admission(users, users[id].telegramId) == if users[id].approved then Admitted(id) else Unapproved(id)
  {
    UserIdByTelegramIdOfUnique(users, id);
  }

  /** The buttons under the status card. */
  datatype StatusButton = MyTasksButton | CurrentTaskButton

  /** format_user_status's keyboard: only an approved, unfinished participant gets buttons. */
  function StatusKeyboard(u: User): (r: seq<StatusButton>)
    ensures r != [] <==> u.approved && !u.finished
    ensures r != [] ==> MyTasksButton in r && CurrentTaskButton in r
  {
    if u.approved && !u.finished then [MyTasksButton, CurrentTaskButton] else []
  }

  // ---------------------------------------------------------------------
  // Registration and finishing
  // ---------------------------------------------------------------------

  /** handle_participate: registers the sender unless a row with their telegram id exists. */
  method HandleParticipate(db: Store, telegramId: int, username: string, joinedDate: string) returns (added: Option<int>)
    requires db.Valid()
    modifies db
    ensures db.Valid()
    ensures added.Some? <==> UserIdByTelegramId(old(db.users), telegramId).None?
    ensures added.Some? ==> && added.value !in old(db.users)
                            && db.users == old(db.users)[added.value := User(telegramId, username, false, 0, false, joinedDate)]
    ensures added.Some? ==> && added.value == old(db.lastUserId) + 1
                            && db.Counters() == (added.value, old(db.lastTaskId), old(db.lastSubmissionId))
    ensures added.None? ==> db.users == old(db.users) && db.Counters() == old(db.Counters())
    ensures UserIdByTelegramId(db.users, telegramId).Some?
    ensures db.tasks == old(db.tasks) && db.submissions == old(db.submissions)
  {
    if UserIdByTelegramId(db.users, telegramId).Some? {
      return None;
    }
    var res := db.AddUser(telegramId, username, joinedDate);
    added := Some(res.value);
  }

  datatype FinishOutcome = FinishNotRegistered | Finished(userId: int)

  /** /finish: marks the sender finished, which takes the task buttons off their status card. */
  method Finish(db: Store, telegramId: int) returns (r: FinishOutcome)
    requires db.Valid()
    modifies db
    ensures db.Valid()
    ensures r.FinishNotRegistered? <==> UserIdByTelegramId(old(db.users), telegramId).None?
    ensures r.Finished? ==> && UserIdByTelegramId(old(db.users), telegramId) == Some(r.userId)
                            && db.users == old(db.users)[r.userId := old(db.users)[r.userId].(finished := true)]
                            && StatusKeyboard(db.users[r.userId]) == []
    ensures r.FinishNotRegistered? ==> db.users == old(db.users)
    ensures db.tasks == old(db.tasks) && db.submissions == old(db.submissions) && db.Counters() == old(db.Counters())
  {
    var found := UserIdByTelegramId(db.users, telegramId);
    if found.None? {
      return FinishNotRegistered;
    }
    var _ := db.UpdateUser(found.value, UserChanges(None, None, Some(true)));
    r := Finished(found.value);
  }

  // ---------------------------------------------------------------------
  // Pending tasks
  // ---------------------------------------------------------------------

  datatype PendingView = PendingNotRegistered | AllCompleted | AwaitingReview | Listing(taskIds: seq<int>)

  /**
   * show_pending_tasks: the pending listing when it is non-empty; when it
   * is empty, "all completed" if the approved rows number at least the
   * tasks, and "awaiting review" otherwise.
   */
  function ShowPendingTasks(users: UserTable, tasks: TaskTable, subs: SubmissionTable, telegramId: int): (r: PendingView)
    ensures r.PendingNotRegistered? <==> UserIdByTelegramId(users, telegramId).None?
    ensures r.Listing? ==> && r.taskIds != []
                           && r.taskIds == PendingTasks(tasks, subs, UserIdByTelegramId(users, telegramId).value)
    ensures r.AllCompleted? ==> PendingTasks(tasks, subs, UserIdByTelegramId(users, telegramId).value) == []
  {
    match UserIdByTelegramId(users, telegramId)
    case None => PendingNotRegistered
    case Some(id) =>
      var pending := PendingTasks(tasks, subs, id);
      if pending != [] then Listing(pending)
      else if CompletedTaskCount(subs, id) >= |tasks| then AllCompleted
      else AwaitingReview
  }

  /**
   * The "all your submissions are pending review" branch cannot be taken:
   * an empty pending listing already means an approved row for every task.
   */
  lemma AwaitingReviewUnreachable(users: UserTable, tasks: TaskTable, subs: SubmissionTable, telegramId: int)
    ensures !ShowPendingTasks(users, tasks, subs, telegramId).AwaitingReview?
  {
    var found := UserIdByTelegramId(users, telegramId);
    if found.Some? && PendingTasks(tasks, subs, found.value) == [] {
      NothingPendingMeansAllApproved(tasks, subs, found.value);
    }
  }

  // ---------------------------------------------------------------------
  // Current task
  // ---------------------------------------------------------------------

  datatype CurrentTaskOutcome = CurrentUserNotFound | NoCurrentTask | AllTasksDone | ShowTask(taskId: int)

  /**
   * handle_current_task: shows the task of the user's current day; once
   * that task has an approved submission, first moves the user on to the
   * earliest-day task still pending, or congratulates them when none is.
   */
  method HandleCurrentTask(db: Store, telegramId: int) returns (r: CurrentTaskOutcome)
    requires db.Valid()
    modifies db
    ensures db.Valid()
    ensures r.CurrentUserNotFound? <==> UserIdByTelegramId(old(db.users), telegramId).None?
    ensures UserIdByTelegramId(old(db.users), telegramId).Some? ==>
              var userId := UserIdByTelegramId(old(db.users), telegramId).value;
              var current := TaskIdByDay(old(db.tasks), old(db.users)[userId].currentTask);
              var pending := PendingTasks(old(db.tasks), old(db.submissions), userId);
              && (r.NoCurrentTask? <==> current.None?)
              && (current.Some? && !HasApproved(old(db.submissions), userId, current.value) ==>
                    r == ShowTask(current.value) && db.users == old(db.users))
              && (current.Some? && HasApproved(old(db.submissions), userId, current.value) && pending == [] ==>
                    r == AllTasksDone && db.users == old(db.users))
              && (current.Some? && HasApproved(old(db.submissions), userId, current.value) && pending != [] ==>
                    && r == ShowTask(pending[0])
                    && (forall t :: t in pending ==> old(db.tasks)[pending[0]].day <= old(db.tasks)[t].day)
                    && db.users == old(db.users)[userId := old(db.users)[userId].(currentTask := old(db.tasks)[pending[0]].day)])
    ensures r.ShowTask? ==> r.taskId in db.tasks
    ensures !r.ShowTask? ==> db.users == old(db.users)
    ensures db.tasks == old(db.tasks) && db.submissions == old(db.submissions) && db.Counters() == old(db.Counters())
  {
    var found := UserIdByTelegramId(db.users, telegramId);
    if found.None? {
      return CurrentUserNotFound;
    }
    var userId := found.value;
    var current := TaskIdByDay(db.tasks, db.users[userId].currentTask);
    if current.None? {
      return NoCurrentTask;
    }
    var shown := current.value;
    if HasApproved(db.submissions, userId, shown) {
      var pending := PendingTasks(db.tasks, db.submissions, userId);
      if pending == [] {
        return AllTasksDone;
      }
      var next := pending[0];
      var nextDay := db.tasks[next].day;
      var _ := db.UpdateUser(userId, UserChanges(None, Some(nextDay), None));
      TaskIdByDayOfUnique(db.tasks, next);
      UserIdByTelegramIdOfUnique(db.users, userId);
      assert forall t :: t in pending && t != next ==> db.tasks[next].day <= db.tasks[t].day by {
        forall t | t in pending && t != next
          ensures db.tasks[next].day <= db.tasks[t].day
        {
          var j :| 0 <= j < |pending| && pending[j] == t;
          assert j != 0;
          assert Precedes(db.tasks, pending[0], pending[j]);
        }
      }
      shown := TaskIdByDay(db.tasks, nextDay).value;
    }
    r := ShowTask(shown);
  }

  datatype SelectionOutcome = SelectionUserNotFound | SelectedTaskMissing | SelectedTask(taskId: int)

  /**
   * handle_task_selection: an unregistered sender fails before anything is
   * written; otherwise the chosen day becomes the current task even when
   * no task has that day.
   */
  method HandleTaskSelection(db: Store, telegramId: int, day: int) returns (r: SelectionOutcome)
    requires db.Valid()
    modifies db
    ensures db.Valid()
    ensures r.SelectionUserNotFound? <==> UserIdByTelegramId(old(db.users), telegramId).None?
    ensures r.SelectionUserNotFound? ==> db.users == old(db.users)
    ensures !r.SelectionUserNotFound? ==>
              var userId := UserIdByTelegramId(old(db.users), telegramId).value;
              && db.users == old(db.users)[userId := old(db.users)[userId].(currentTask := day)]
              && (r.SelectedTaskMissing? <==> TaskIdByDay(db.tasks, day).None?)
    ensures r.SelectedTask? ==> TaskIdByDay(db.tasks, day) == Some(r.taskId)
    ensures db.tasks == old(db.tasks) && db.submissions == old(db.submissions) && db.Counters() == old(db.Counters())
  {
    var found := UserIdByTelegramId(db.users, telegramId);
    if found.None? {
      return SelectionUserNotFound;
    }
    var _ := db.UpdateUser(found.value, UserChanges(None, Some(day), None));
    var task := TaskIdByDay(db.tasks, day);
    if task.None? {
      return SelectedTaskMissing;
    }
    r := SelectedTask(task.value);
  }

  // ---------------------------------------------------------------------
  // Voice submissions
  // ---------------------------------------------------------------------

  /** A row that is not APPROVED changes nobody's pending listing. */
  lemma UnapprovedRowKeepsPending(tasks: TaskTable, subs: SubmissionTable, id: int, row: Submission, userId: int)
    requires id !in subs
    requires row.status != StatusApproved
    ensures PendingTasks(tasks, subs[id := row], userId) == PendingTasks(tasks, subs, userId)
  {
    var after := subs[id := row];
    forall t
      ensures HasApproved(after, userId, t) <==> HasApproved(subs, userId, t)
    {
      if HasApproved(subs, userId, t) {
        var s :| s in subs && subs[s].userId == userId && subs[s].taskId == t && subs[s].status == StatusApproved;
        assert s in after && after[s] == subs[s];
      }
      if HasApproved(after, userId, t) {
        var s :| s in after && after[s].userId == userId && after[s].taskId == t && after[s].status == StatusApproved;
        assert s != id;
        assert s in subs && after[s] == subs[s];
      }
    }
    PendingTasksFollowApprovals(tasks, after, subs, userId);
  }

  datatype SubmitOutcome =
    | SubmitNotRegistered
    | SubmitNotApproved
    | NotVoice
    | NoActiveTask
    | SaveFailed
    | Submitted(submissionId: int, taskId: int)

  /**
   * submit_voice: after the two gates, the message must be a voice message,
   * the user's current day must have a task, and the file must be saved;
   * then one PENDING submission for that task is recorded. The current
   * task does not move.
   */
  method SubmitVoice(db: Store, telegramId: int, isVoice: bool, saved: bool, voiceFileName: string) returns (r: SubmitOutcome)
    requires db.Valid()
    modifies db
    ensures db.Valid()
    ensures r.SubmitNotRegistered? <==> Admission(old(db.users), telegramId).Unregistered?
    ensures r.SubmitNotApproved? <==> Admission(old(db.users), telegramId).Unapproved?
    ensures Admission(old(db.users), telegramId).Admitted? ==>
              var userId := Admission(old(db.users), telegramId).userId;
              var current := TaskIdByDay(old(db.tasks), old(db.users)[userId].currentTask);
              && (r.NotVoice? <==> !isVoice)
              && (r.NoActiveTask? <==> isVoice && current.None?)
              && (r.SaveFailed? <==> isVoice && current.Some? && !saved)
              && (r.Submitted? ==>
                    && current == Some(r.taskId)
                    && r.submissionId !in old(db.submissions)
                    && db.submissions == old(db.submissions)[r.submissionId := Submission(userId, r.taskId, voiceFileName, "", StatusPending)])
    ensures !r.Submitted? ==> db.submissions == old(db.submissions) && db.Counters() == old(db.Counters())
    ensures r.Submitted? ==> && r.submissionId == old(db.lastSubmissionId) + 1
                             && db.Counters() == (old(db.lastUserId), old(db.lastTaskId), r.submissionId)
    ensures forall u :: PendingTasks(db.tasks, db.submissions, u) == PendingTasks(old(db.tasks), old(db.submissions), u)
    ensures db.users == old(db.users) && db.tasks == old(db.tasks)
    ensures old(db.Consistent()) ==> db.Consistent()
  {
    var gate := Admission(db.users, telegramId);
    if gate.Unregistered? {
      return SubmitNotRegistered;
    }
    if gate.Unapproved? {
      return SubmitNotApproved;
    }
    if !isVoice {
      return NotVoice;
    }
    var current := TaskIdByDay(db.tasks, db.users[gate.userId].currentTask);
    if current.None? {
      return NoActiveTask;
    }
    if !saved {
      return SaveFailed;
    }
    ghost var before := db.submissions;
    var row := Submission(gate.userId, current.value, voiceFileName, "", StatusPending);
    var id := db.AddSubmission(gate.userId, current.value, voiceFileName, StatusPending);
    forall u
      ensures PendingTasks(db.tasks, db.submissions, u) == PendingTasks(db.tasks, before, u)
    {
      UnapprovedRowKeepsPending(db.tasks, before, id, row, u);
    }
    r := Submitted(id, current.value);
  }
}
