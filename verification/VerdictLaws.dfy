/** What the verdict of the reconciler is, exactly, and what it writes. */
module VerdictLaws {
  import opened Wrappers
  import opened Runs
  import opened RuntimeResults
  import opened Reconciler
  import opened ReconcilerFacts

  predicate Closes(v: Verdict) {
    v.Close? && v.status in {COMPLETED, PARTIAL_SUCCESS, FAILED, CANCELLED}
  }

  /** The reconciler looks at the Run at all: it is open, the hook is meant for it, and it owns work. */
  ghost predicate Considered(runId: string, row: Row, facts: Facts) {
    && row.status !in {COMPLETED, PARTIAL_SUCCESS, FAILED, CANCELLED}
    && HookMatches(runId, facts) && SomeOwned(runId, facts)
  }

  predicate ResultIn(result: Option<RuntimeResult>, statuses: set<ResultStatus>) {
    result.Some? && result.value.status in statuses
  }

  predicate ResultAwaits(result: Option<RuntimeResult>) {
    ResultIn(result, {WaitingHuman, WaitingApproval, AskUser})
  }

  predicate ResultSaysWait(result: Option<RuntimeResult>) {
    ResultIn(result, {Running, Queued, Submitted, WaitingHuman, WaitingApproval, AskUser})
  }

  predicate ResultSaysFailed(result: Option<RuntimeResult>) {
    || ResultIn(result, {Failed, Cancelled, MaxIterations})
    || (result.Some? && result.value.errorCode in {"AGENT_MAX_ITERATIONS", "STRUCTURED_OUTPUT_INVALID"})
  }

  predicate ResultHasError(result: Option<RuntimeResult>) {
    result.Some? && result.value.errorCode != ""
  }

  predicate TaskMissing(runId: string, row: Row, facts: Facts) {
    TaskFor(runId, row, facts) == Some(None)
  }

  predicate TaskIs(runId: string, row: Row, facts: Facts, status: TaskStatus) {
    && TaskFor(runId, row, facts).Some? && TaskFor(runId, row, facts).value.Some?
    && TaskFor(runId, row, facts).value.value.status == status
  }

  predicate TaskIsOpen(runId: string, row: Row, facts: Facts) {
    && TaskFor(runId, row, facts).Some? && TaskFor(runId, row, facts).value.Some?
    && TaskFor(runId, row, facts).value.value.status.TaskOpen?
  }

  predicate Unbound(runId: string, row: Row, facts: Facts) {
    TaskFor(runId, row, facts) == None
  }

  predicate TaskHasFailedSibling(runId: string, row: Row, facts: Facts) {
    && TaskFor(runId, row, facts).Some? && TaskFor(runId, row, facts).value.Some?
    && TaskFor(runId, row, facts).value.value.failedSibling
  }

  /** Something of the Run still goes on: its Task is missing, or open while nothing waits for the
      user, or an execution is busy, an observation pending, or the result not final. */
  ghost predicate StillWorking(runId: string, row: Row, facts: Facts) {
    || TaskMissing(runId, row, facts)
    || (TaskIsOpen(runId, row, facts) && !SomeHeld(runId, facts) && !ResultAwaits(facts.result))
    || SomeBusy(runId, facts) || runId in facts.pendingRuns
    || ResultIn(facts.result, {Running, Queued, Submitted})
  }

  /** Nothing goes on, but something waits for the user. */
  ghost predicate HeldForUser(runId: string, row: Row, facts: Facts) {
    && !StillWorking(runId, row, facts)
    && (|| SomeHeld(runId, facts)
        || (row.payload.waitingState in {"WAITING_APPROVAL", "WAITING_HUMAN", "ASK_USER"}
            && !SomeCompleted(runId, facts) && !SomeBroken(runId, facts))
        || ResultAwaits(facts.result))
  }

  ghost predicate Ended(runId: string, row: Row, facts: Facts) {
    Considered(runId, row, facts) && !StillWorking(runId, row, facts) && !HeldForUser(runId, row, facts)
  }

  /** The Run owns work, all of it ended, nothing of it is pending, and its Task, if it is
      bound to one, is found and terminal. */
  ghost predicate Settled(runId: string, row: Row, facts: Facts) {
    && SomeOwned(runId, facts)
    && (forall m :: Owns(runId, facts, m) ==> IsCompleted(facts, m) || IsBroken(facts, m))
    && runId !in facts.pendingRuns
    && !TaskMissing(runId, row, facts) && !TaskIsOpen(runId, row, facts)
  }

  /** The identity of an approval wait is known: to the approval service where there is one, else to
      the result. */
  predicate ApprovalIsKnown(facts: Facts, executionId: string) {
    if facts.approvals.Some? then executionId in facts.approvals.value
    else facts.result.Some? && facts.result.value.approvalId != ""
  }

  // ----- the cascade over counts -----

  lemma WeighKeeps(row: Row, pending: bool, result: Option<RuntimeResult>, approvals: Option<map<string, string>>,
                   t: Tally, task: Option<Option<TaskView>>)
    ensures Weigh(row, pending, result, approvals, t, task) == KeepRunning <==>
              || task == Some(None)
              || (task.Some? && task.value.Some? && task.value.value.status.TaskOpen? && t.waiting == 0 && !ResultAwaits(result))
              || t.active > 0 || pending || ResultIn(result, {Running, Queued, Submitted})
  {
  }

  lemma WeighHolds(row: Row, pending: bool, result: Option<RuntimeResult>, approvals: Option<map<string, string>>,
                   t: Tally, task: Option<Option<TaskView>>)
    requires Weigh(row, pending, result, approvals, t, task) != KeepRunning
    ensures var held :=
              || t.waiting > 0
              || (row.payload.waitingState in {"WAITING_APPROVAL", "WAITING_HUMAN", "ASK_USER"} && t.completed == 0 && t.failed == 0)
              || ResultAwaits(result);
            Weigh(row, pending, result, approvals, t, task) ==
              if held then Hold(result, approvals, t) else Settle(if task.Some? then task.value else None, result, t)
  {
  }

  /** What the Run decides on: the counts of its work and the Task it is bound to. */
  lemma DecideWeighs(runId: string, row: Row, facts: Facts)
    ensures Decide(runId, row, facts) ==
              if Considered(runId, row, facts)
              then Weigh(row, runId in facts.pendingRuns, facts.result, facts.approvals,
                         TallyOf(facts.executions, Owned(facts.messages, runId)), TaskFor(runId, row, facts))
              else Leave
  {
    CountsMean(runId, facts);
    GateMeans(runId, facts);
    if Owned(facts.messages, runId) != [] {
      TaskMeans(runId, row, facts);
    }
  }

  /** The three phases, one after the other. */
  lemma Phases(runId: string, row: Row, facts: Facts)
    requires Considered(runId, row, facts)
    ensures var t := TallyOf(facts.executions, Owned(facts.messages, runId));
            var task := TaskFor(runId, row, facts);
            Decide(runId, row, facts) ==
              if StillWorking(runId, row, facts) then KeepRunning
              else if HeldForUser(runId, row, facts) then Hold(facts.result, facts.approvals, t)
              else Settle(if task.Some? then task.value else None, facts.result, t)
  {
    var t := TallyOf(facts.executions, Owned(facts.messages, runId));
    DecideWeighs(runId, row, facts);
    CountsMean(runId, facts);
    WeighKeeps(row, runId in facts.pendingRuns, facts.result, facts.approvals, t, TaskFor(runId, row, facts));
    if !StillWorking(runId, row, facts) {
      WeighHolds(row, runId in facts.pendingRuns, facts.result, facts.approvals, t, TaskFor(runId, row, facts));
    }
  }

  /** The Run is kept running exactly while something of it still goes on. */
  lemma KeptRunningExactly(runId: string, row: Row, facts: Facts)
    ensures Decide(runId, row, facts) == KeepRunning <==> Considered(runId, row, facts) && StillWorking(runId, row, facts)
  {
    DecideWeighs(runId, row, facts);
    if Considered(runId, row, facts) {
      Phases(runId, row, facts);
    }
  }

  lemma HeldVerdict(runId: string, row: Row, facts: Facts)
    ensures Considered(runId, row, facts) && HeldForUser(runId, row, facts) ==>
              var approval := FirstApproval(runId, facts, facts.messages);
              Decide(runId, row, facts) ==
                if approval == None then Close(WAITING_USER, AwaitingUser)
                else if ApprovalIsKnown(facts, approval.value) then Close(WAITING_APPROVAL, AwaitingUser)
                else Leave
  {
    if Considered(runId, row, facts) && HeldForUser(runId, row, facts) {
      Phases(runId, row, facts);
      FirstApprovalIsFirst(runId, facts, facts.messages);
    }
  }

  lemma OtherPhases(runId: string, row: Row, facts: Facts)
    requires Considered(runId, row, facts) && !HeldForUser(runId, row, facts)
    ensures Decide(runId, row, facts) == KeepRunning || Closes(Decide(runId, row, facts)) || Decide(runId, row, facts) == Raise
  {
    Phases(runId, row, facts);
  }

  /** It waits for its user, or for an approval, exactly when it is held; an approval wait needs the
      identity of the approval of the first execution that awaits one. */
  lemma WaitsExactly(runId: string, row: Row, facts: Facts)
    ensures var held := Considered(runId, row, facts) && HeldForUser(runId, row, facts);
            var approval := FirstApproval(runId, facts, facts.messages);
            var v := Decide(runId, row, facts);
            && (v == Close(WAITING_USER, AwaitingUser) <==> held && approval == None)
            && (v == Close(WAITING_APPROVAL, AwaitingUser) <==> held && approval.Some? && ApprovalIsKnown(facts, approval.value))
            && (v.Close? && v.status in {WAITING_USER, WAITING_APPROVAL} ==> v.event == AwaitingUser)
            && (v == Leave <==> !Considered(runId, row, facts) || (held && approval.Some? && !ApprovalIsKnown(facts, approval.value)))
  {
    HeldVerdict(runId, row, facts);
    DecideWeighs(runId, row, facts);
    if Considered(runId, row, facts) && !HeldForUser(runId, row, facts) {
      OtherPhases(runId, row, facts);
    }
  }

  lemma EndedIsSettled(runId: string, row: Row, facts: Facts)
    ensures Ended(runId, row, facts) <==>
              Considered(runId, row, facts) && Settled(runId, row, facts) && !ResultSaysWait(facts.result)
  {
    AllEndedExactly(runId, facts);
    if Considered(runId, row, facts) {
      SomeStatus(runId, facts);
    }
  }

  lemma AllEndedExactly(runId: string, facts: Facts)
    ensures (forall m :: Owns(runId, facts, m) ==> IsCompleted(facts, m) || IsBroken(facts, m))
       <==> !SomeBusy(runId, facts) && !SomeHeld(runId, facts)
  {
    forall m
      ensures IsCompleted(facts, m) || IsBroken(facts, m) <==> !IsBusy(facts, m) && !IsHeld(facts, m)
    {
    }
  }

  lemma SomeStatus(runId: string, facts: Facts)
    requires SomeOwned(runId, facts)
    ensures SomeBusy(runId, facts) || SomeHeld(runId, facts) || SomeCompleted(runId, facts) || SomeBroken(runId, facts)
  {
    var m :| Owns(runId, facts, m);
    assert IsBusy(facts, m) || IsHeld(facts, m) || IsCompleted(facts, m) || IsBroken(facts, m);
  }

  /** The last part of the cascade, by whether some execution completed and whether some failed. */
  function EndVerdict(task: Option<TaskView>, result: Option<RuntimeResult>, done: bool, broken: bool): Verdict {
    if task.Some? && task.value.status == TaskFailed then
      Close(if done && (broken || task.value.failedSibling) then PARTIAL_SUCCESS else FAILED, RunCompleted)
    else if task.Some? && task.value.status == TaskCancelled then Raise
    else if task.Some? && task.value.status == TaskCompleted then
      Close(if broken then PARTIAL_SUCCESS else COMPLETED, RunCompleted)
    else if broken && done then Close(PARTIAL_SUCCESS, RunCompleted)
    else if broken || ResultSaysFailed(result) then Close(FAILED, RunFailed)
    else if ResultHasError(result) then Close(PARTIAL_SUCCESS, RunCompleted)
    else Close(COMPLETED, RunCompleted)
  }

  lemma SettleMeans(task: Option<TaskView>, result: Option<RuntimeResult>, t: Tally)
    ensures Settle(task, result, t) == EndVerdict(task, result, t.completed > 0, t.failed > 0)
  {
  }

  /** The verdict on a Run that has ended. */
  lemma EndedVerdict(runId: string, row: Row, facts: Facts)
    requires Ended(runId, row, facts)
    ensures !TaskIsOpen(runId, row, facts) && !TaskMissing(runId, row, facts)
    ensures var task := TaskFor(runId, row, facts);
            Decide(runId, row, facts) ==
              EndVerdict(if task.Some? then task.value else None, facts.result, SomeCompleted(runId, facts), SomeBroken(runId, facts))
  {
    var task := TaskFor(runId, row, facts);
    Phases(runId, row, facts);
    CountsMean(runId, facts);
    SettleMeans(if task.Some? then task.value else None, facts.result, TallyOf(facts.executions, Owned(facts.messages, runId)));
    EndedIsSettled(runId, row, facts);
  }

  lemma ClosesWhenEnded(runId: string, row: Row, facts: Facts)
    ensures Closes(Decide(runId, row, facts)) || Decide(runId, row, facts) == Raise <==> Ended(runId, row, facts)
  {
    DecideWeighs(runId, row, facts);
    if Considered(runId, row, facts) {
      Phases(runId, row, facts);
      if Ended(runId, row, facts) {
        EndedVerdict(runId, row, facts);
      }
    }
  }

  /** The reconciler makes a Run terminal exactly when the Run is open and settled, the result
      asks for no wait, and its Task was not cancelled. */
  lemma ClosesExactlyWhenSettled(runId: string, row: Row, facts: Facts)
    ensures Closes(Decide(runId, row, facts)) <==>
              && Considered(runId, row, facts)
              && Settled(runId, row, facts)
              && !ResultSaysWait(facts.result)
              && !TaskIs(runId, row, facts, TaskCancelled)
  {
    ClosesWhenEnded(runId, row, facts);
    EndedIsSettled(runId, row, facts);
    if Ended(runId, row, facts) {
      EndedVerdict(runId, row, facts);
    }
  }

  /** Work that has ended without a failed or cancelled execution has completed, every one of it. */
  lemma AllCompleted(runId: string, row: Row, facts: Facts)
    requires Ended(runId, row, facts) && !SomeBroken(runId, facts)
    ensures forall m :: Owns(runId, facts, m) ==> m.executionId in facts.executions && facts.executions[m.executionId] == ExecutionCompleted
  {
    EndedIsSettled(runId, row, facts);
    forall m | Owns(runId, facts, m)
      ensures IsCompleted(facts, m)
    {
      assert IsCompleted(facts, m) || IsBroken(facts, m);
    }
  }

  /** COMPLETED exactly when the work has ended, no owned execution failed or was cancelled, and the
      bound Task is COMPLETED or, without one, the result names no failure and no error; then every
      owned execution completed. */
  lemma CompletedExactly(runId: string, row: Row, facts: Facts)
    ensures Decide(runId, row, facts) == Close(COMPLETED, RunCompleted) <==>
              && Ended(runId, row, facts) && !SomeBroken(runId, facts)
              && (|| TaskIs(runId, row, facts, TaskCompleted)
                  || (Unbound(runId, row, facts) && !ResultSaysFailed(facts.result) && !ResultHasError(facts.result)))
    ensures Decide(runId, row, facts) == Close(COMPLETED, RunCompleted) ==>
              forall m :: Owns(runId, facts, m) ==>
                m.executionId in facts.executions && facts.executions[m.executionId] == ExecutionCompleted
    ensures Decide(runId, row, facts).Close? && Decide(runId, row, facts).status == COMPLETED ==>
              Decide(runId, row, facts).event == RunCompleted
  {
    ClosesWhenEnded(runId, row, facts);
    if Ended(runId, row, facts) {
      EndedVerdict(runId, row, facts);
      if !SomeBroken(runId, facts) {
        AllCompleted(runId, row, facts);
      }
    }
  }

  /** FAILED exactly when the Task failed and nothing completed beside a failure, or, without a Task,
      when some execution failed or was cancelled and none completed, or the result failed although
      no execution did; the event tells the two apart. */
  lemma FailedExactly(runId: string, row: Row, facts: Facts)
    ensures Decide(runId, row, facts) == Close(FAILED, RunCompleted) <==>
              && Ended(runId, row, facts) && TaskIs(runId, row, facts, TaskFailed)
              && !(SomeCompleted(runId, facts) && (SomeBroken(runId, facts) || TaskHasFailedSibling(runId, row, facts)))
    ensures Decide(runId, row, facts) == Close(FAILED, RunFailed) <==>
              && Ended(runId, row, facts) && Unbound(runId, row, facts)
              && (if SomeBroken(runId, facts) then !SomeCompleted(runId, facts) else ResultSaysFailed(facts.result))
    ensures Decide(runId, row, facts).Close? && Decide(runId, row, facts).status == FAILED ==>
              Decide(runId, row, facts).event in {RunCompleted, RunFailed}
  {
    ClosesWhenEnded(runId, row, facts);
    if Ended(runId, row, facts) {
      EndedVerdict(runId, row, facts);
    }
  }

  /** PARTIAL_SUCCESS exactly in the remaining cases of a Run that has ended. */
  lemma PartialExactly(runId: string, row: Row, facts: Facts)
    ensures Decide(runId, row, facts) == Close(PARTIAL_SUCCESS, RunCompleted) <==>
              && Ended(runId, row, facts)
              && (|| (TaskIs(runId, row, facts, TaskFailed) && SomeCompleted(runId, facts)
                      && (SomeBroken(runId, facts) || TaskHasFailedSibling(runId, row, facts)))
                  || (TaskIs(runId, row, facts, TaskCompleted) && SomeBroken(runId, facts))
                  || (Unbound(runId, row, facts)
                      && if SomeBroken(runId, facts) then SomeCompleted(runId, facts)
                         else !ResultSaysFailed(facts.result) && ResultHasError(facts.result)))
    ensures Decide(runId, row, facts).Close? && Decide(runId, row, facts).status == PARTIAL_SUCCESS ==>
              Decide(runId, row, facts).event == RunCompleted
  {
    ClosesWhenEnded(runId, row, facts);
    if Ended(runId, row, facts) {
      EndedVerdict(runId, row, facts);
    }
  }

  /** A settled Run whose Task was cancelled is exactly what makes the reconciler raise; it then
      writes nothing, so no Run is ever closed as CANCELLED here. */
  lemma RaisesExactlyOnCancelledTask(runId: string, row: Row, facts: Facts, now: string)
    ensures Decide(runId, row, facts) == Raise <==>
              && Considered(runId, row, facts)
              && Settled(runId, row, facts)
              && !ResultSaysWait(facts.result)
              && TaskIs(runId, row, facts, TaskCancelled)
    ensures Decide(runId, row, facts) == Raise ==> WriteOf(runId, row, facts, now) == None
    ensures Decide(runId, row, facts) != Close(CANCELLED, RunFailed)
  {
    ClosesWhenEnded(runId, row, facts);
    EndedIsSettled(runId, row, facts);
    if Ended(runId, row, facts) {
      EndedVerdict(runId, row, facts);
    }
  }

  // ----- what is written -----

  /** The write of a verdict in plain terms: RUNNING for a Run that works without saying so, and for
      a wait or an end the status, the error of the result, the refreshed measurements and, for an
      approval wait, its identity. Every write is bound to the version that was read. */
  lemma WritesExactly(runId: string, row: Row, facts: Facts, now: string)
    ensures var w := WriteOf(runId, row, facts, now);
            match Decide(runId, row, facts)
            case KeepRunning =>
              w == if row.status == RUNNING then None
                   else Some(Mark(runId, RUNNING, "", "", None, Some(row.version), None, now))
            case Close(status, _) =>
              && w.Some? && w.value.payload.Some?
              && w.value == Mark(runId, status,
                                 if facts.result == None then "" else facts.result.value.errorCode,
                                 if facts.result == None then "" else facts.result.value.errorMessage,
                                 None, Some(row.version), w.value.payload, now)
              && (status != WAITING_APPROVAL ==> w.value.payload.value == row.payload.(measures := facts.measures))
              && (status == WAITING_APPROVAL ==>
                    && FirstApproval(runId, facts, facts.messages).Some?
                    && var e := FirstApproval(runId, facts, facts.messages).value;
                       && ApprovalIsKnown(facts, e)
                       && w.value.payload.value == row.payload.(
                            executionId := e, waitingState := "WAITING_APPROVAL", measures := facts.measures,
                            approvalId := if facts.approvals.Some? then facts.approvals.value[e]
                                          else facts.result.value.approvalId))
            case _ => w == None
  {
    WaitsExactly(runId, row, facts);
    FirstApprovalIsFirst(runId, facts, facts.messages);
  }

  const SAMPLE_PAYLOAD := Payload("", "", "", "", "", "", [], [], Measures(0, 0, 0))
  const SAMPLE_ROW := Row("c", "u", "t", None, RUNNING, "", "", 1, SAMPLE_PAYLOAD, "", "", "", "")

  const SAMPLE_MESSAGE := Message("e", "r", "a", "u", "t", "c")

  function SampleFacts(status: TaskStatus, code: string): Facts {
    Facts([SAMPLE_MESSAGE], map["e" := ExecutionCompleted], {},
          Some(RuntimeResult(true, Completed, "", "", "", code, "", [], [])),
          Some(map[(TaskScope("u", "t", "c"), "a") := TaskView(status, false)]), None, None, Measures(0, 0, 0))
  }

  lemma SampleIsWeighed(status: TaskStatus, code: string)
    requires !status.TaskOpen?
    ensures var facts := SampleFacts(status, code);
            && Owned(facts.messages, "r") == [SAMPLE_MESSAGE]
            && BoundTask(SAMPLE_ROW, facts, [SAMPLE_MESSAGE]) == Some(Some(TaskView(status, false)))
            && Decide("r", SAMPLE_ROW, facts) == Settle(Some(TaskView(status, false)), facts.result, Tally(0, 1, 0, 0, []))
  {
    var facts := SampleFacts(status, code);
    OneMessage("r", SAMPLE_ROW, facts, SAMPLE_MESSAGE);
    assert BoundTask(SAMPLE_ROW, facts, [SAMPLE_MESSAGE]) == Some(Some(TaskView(status, false)));
    assert StatusOf(facts.result) == Completed;
  }

  /** A Run whose Task was cancelled after all its work ended stays open: the branch raises. */
  lemma CancelledTaskStaysOpen(now: string)
    ensures var facts := SampleFacts(TaskCancelled, "");
            && Settled("r", SAMPLE_ROW, facts)
            && Decide("r", SAMPLE_ROW, facts) == Raise
            && WriteOf("r", SAMPLE_ROW, facts, now) == None
  {
    SampleIsWeighed(TaskCancelled, "");
    RaisesExactlyOnCancelledTask("r", SAMPLE_ROW, SampleFacts(TaskCancelled, ""), now);
  }

  lemma OneMessage(runId: string, row: Row, facts: Facts, m: Message)
    requires facts.messages == [m] && m.runId == runId && IsCompleted(facts, m)
    ensures Owned([m], runId) == [m]
    ensures TallyOf(facts.executions, [m]) == Tally(0, 1, 0, 0, [])
  {
    OwnedOne(m);
    TallyLast(facts.executions, [], m);
    assert [] + [m] == [m];
  }

  lemma OwnedOne(m: Message)
    ensures Owned([m], m.runId) == [m]
  {
    assert [m][..0] == [];
  }

  lemma TallyLast(executions: map<string, ExecutionStatus>, rest: seq<Message>, m: Message)
    requires ClassOf(executions, m) == Done
    ensures var t := TallyOf(executions, rest);
            TallyOf(executions, rest + [m]) == t.(completed := t.completed + 1)
  {
    var all := rest + [m];
    assert all[..|all| - 1] == rest && all[|all| - 1] == m;
  }

  // ----- errors on completed Runs -----

  /** A COMPLETED write carries an error code exactly in the COMPLETED-Task branch with a result
      that names one; otherwise a completed Run carries none. */
  lemma CompletedWithErrorExactly(runId: string, row: Row, facts: Facts, now: string)
    requires Decide(runId, row, facts).Close? && Decide(runId, row, facts).status == COMPLETED
    ensures WriteOf(runId, row, facts, now).Some?
    ensures WriteOf(runId, row, facts, now).value.errorCode != ""
       <==> TaskIs(runId, row, facts, TaskCompleted) && ResultHasError(facts.result)
  {
    CompletedExactly(runId, row, facts);
    WritesExactly(runId, row, facts, now);
  }

  lemma CompletedCanCarryAnError(now: string)
    ensures var facts := SampleFacts(TaskCompleted, "FATAL");
            && WriteOf("r", SAMPLE_ROW, facts, now).Some?
            && WriteOf("r", SAMPLE_ROW, facts, now).value.status == COMPLETED
            && WriteOf("r", SAMPLE_ROW, facts, now).value.errorCode == "FATAL"
  {
    SampleIsWeighed(TaskCompleted, "FATAL");
  }
}
