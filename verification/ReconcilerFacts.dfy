/** The facts behind a verdict in plain terms: executions by their status, and the Task by the place
    its identity comes from. */
module ReconcilerFacts {
  import opened Wrappers
  import opened Runs
  import opened RuntimeResults
  import opened Reconciler

  // ----- executions -----

  predicate Owns(runId: string, facts: Facts, m: Message) {
    m in facts.messages && m.runId == runId
  }

  predicate IsCompleted(facts: Facts, m: Message) {
    m.executionId in facts.executions && facts.executions[m.executionId] == ExecutionCompleted
  }

  /** Failed or cancelled. */
  predicate IsBroken(facts: Facts, m: Message) {
    m.executionId in facts.executions && facts.executions[m.executionId] in {ExecutionFailed, ExecutionCancelled}
  }

  predicate IsHeld(facts: Facts, m: Message) {
    m.executionId in facts.executions && facts.executions[m.executionId] in {AwaitingApproval, AwaitingHuman, Paused}
  }

  predicate AwaitsApproval(facts: Facts, m: Message) {
    m.executionId in facts.executions && facts.executions[m.executionId] == AwaitingApproval
  }

  /** Unknown to the repository, or still live. */
  predicate IsBusy(facts: Facts, m: Message) {
    m.executionId !in facts.executions || facts.executions[m.executionId].Live?
  }

  ghost predicate SomeOwned(runId: string, facts: Facts) {
    exists m :: Owns(runId, facts, m)
  }

  ghost predicate SomeCompleted(runId: string, facts: Facts) {
    exists m :: Owns(runId, facts, m) && IsCompleted(facts, m)
  }

  ghost predicate SomeBroken(runId: string, facts: Facts) {
    exists m :: Owns(runId, facts, m) && IsBroken(facts, m)
  }

  ghost predicate SomeHeld(runId: string, facts: Facts) {
    exists m :: Owns(runId, facts, m) && IsHeld(facts, m)
  }

  ghost predicate SomeBusy(runId: string, facts: Facts) {
    exists m :: Owns(runId, facts, m) && IsBusy(facts, m)
  }

  /** The execution of the first owned message that awaits approval. */
  function FirstApproval(runId: string, facts: Facts, messages: seq<Message>): Option<string> {
    if messages == [] then None
    else if messages[0].runId == runId && AwaitsApproval(facts, messages[0]) then Some(messages[0].executionId)
    else FirstApproval(runId, facts, messages[1..])
  }

  lemma ClassMeans(facts: Facts, m: Message)
    ensures ClassOf(facts.executions, m) == Done <==> IsCompleted(facts, m)
    ensures ClassOf(facts.executions, m) == Broken <==> IsBroken(facts, m)
    ensures ClassOf(facts.executions, m) == Held <==> IsHeld(facts, m)
    ensures ClassOf(facts.executions, m) == Busy <==> IsBusy(facts, m)
  {
  }

  lemma {:induction false} OwnedFront(messages: seq<Message>, runId: string)
    requires messages != []
    ensures Owned(messages, runId) == (if messages[0].runId == runId then [messages[0]] else []) + Owned(messages[1..], runId)
  {
    var n := |messages| - 1;
    if n == 0 {
      assert Owned(messages[..0], runId) == [] && Owned(messages[1..], runId) == [];
    } else {
      assert messages[..n][1..] == messages[1..][..n - 1] && messages[1..][n - 1] == messages[n];
      OwnedFront(messages[..n], runId);
    }
  }

  lemma {:induction false} ApprovalsFront(executions: map<string, ExecutionStatus>, owned: seq<Message>)
    requires owned != []
    ensures Approvals(executions, owned)
         == (if NeedsApproval(executions, owned[0]) then [owned[0].executionId] else []) + Approvals(executions, owned[1..])
  {
    var n := |owned| - 1;
    if n == 0 {
      assert Approvals(executions, owned[..0]) == [] && Approvals(executions, owned[1..]) == [];
    } else {
      assert owned[..n][1..] == owned[1..][..n - 1] && owned[1..][n - 1] == owned[n];
      ApprovalsFront(executions, owned[..n]);
    }
  }

  lemma {:induction false} FirstApprovalIsFirst(runId: string, facts: Facts, messages: seq<Message>)
    ensures var approvals := Approvals(facts.executions, Owned(messages, runId));
            FirstApproval(runId, facts, messages) == if approvals == [] then None else Some(approvals[0])
  {
    if messages != [] {
      OwnedFront(messages, runId);
      FirstApprovalIsFirst(runId, facts, messages[1..]);
      if messages[0].runId == runId {
        var owned := Owned(messages, runId);
        assert owned[1..] == Owned(messages[1..], runId);
        ApprovalsFront(facts.executions, owned);
      } else {
        assert Owned(messages, runId) == Owned(messages[1..], runId);
      }
    }
  }

  /** A class is counted exactly when some owned message has its status. */
  lemma CountsMean(runId: string, facts: Facts)
    ensures var owned := Owned(facts.messages, runId);
            var t := TallyOf(facts.executions, owned);
            && (owned != [] <==> SomeOwned(runId, facts))
            && (t.completed > 0 <==> SomeCompleted(runId, facts))
            && (t.failed > 0 <==> SomeBroken(runId, facts))
            && (t.waiting > 0 <==> SomeHeld(runId, facts))
            && (t.active > 0 <==> SomeBusy(runId, facts))
            && t.active + t.completed + t.failed + t.waiting == |owned|
  {
    var owned := Owned(facts.messages, runId);
    CountsAddUp(facts.executions, owned);
    forall m
      ensures m in owned <==> Owns(runId, facts, m)
    {
    }
    OwnedIsSome(runId, facts);
    CompletedCounts(runId, facts);
    BrokenCounts(runId, facts);
    HeldCounts(runId, facts);
    BusyCounts(runId, facts);
  }

  lemma OwnedIsSome(runId: string, facts: Facts)
    ensures Owned(facts.messages, runId) != [] <==> SomeOwned(runId, facts)
  {
    var owned := Owned(facts.messages, runId);
    if owned != [] {
      assert owned[0] in owned && Owns(runId, facts, owned[0]);
    }
    if m :| Owns(runId, facts, m) {
      assert m in owned;
    }
  }

  lemma CompletedCounts(runId: string, facts: Facts)
    ensures CountClass(facts.executions, Owned(facts.messages, runId), Done) > 0 <==> SomeCompleted(runId, facts)
  {
    var owned := Owned(facts.messages, runId);
    CountPositive(facts.executions, owned, Done);
    forall m
      ensures m in owned && ClassOf(facts.executions, m) == Done <==> Owns(runId, facts, m) && IsCompleted(facts, m)
    {
      ClassMeans(facts, m);
    }
  }

  lemma BrokenCounts(runId: string, facts: Facts)
    ensures CountClass(facts.executions, Owned(facts.messages, runId), Broken) > 0 <==> SomeBroken(runId, facts)
  {
    var owned := Owned(facts.messages, runId);
    CountPositive(facts.executions, owned, Broken);
    forall m
      ensures m in owned && ClassOf(facts.executions, m) == Broken <==> Owns(runId, facts, m) && IsBroken(facts, m)
    {
      ClassMeans(facts, m);
    }
  }

  lemma HeldCounts(runId: string, facts: Facts)
    ensures CountClass(facts.executions, Owned(facts.messages, runId), Held) > 0 <==> SomeHeld(runId, facts)
  {
    var owned := Owned(facts.messages, runId);
    CountPositive(facts.executions, owned, Held);
    forall m
      ensures m in owned && ClassOf(facts.executions, m) == Held <==> Owns(runId, facts, m) && IsHeld(facts, m)
    {
      ClassMeans(facts, m);
    }
  }

  lemma BusyCounts(runId: string, facts: Facts)
    ensures CountClass(facts.executions, Owned(facts.messages, runId), Busy) > 0 <==> SomeBusy(runId, facts)
  {
    var owned := Owned(facts.messages, runId);
    CountPositive(facts.executions, owned, Busy);
    forall m
      ensures m in owned && ClassOf(facts.executions, m) == Busy <==> Owns(runId, facts, m) && IsBusy(facts, m)
    {
      ClassMeans(facts, m);
    }
  }

  // ----- the Task -----

  /** The first message of the Run. */
  function FirstMessage(runId: string, messages: seq<Message>): Option<Message> {
    if messages == [] then None
    else if messages[0].runId == runId then Some(messages[0])
    else FirstMessage(runId, messages[1..])
  }

  /** The task id of the first message of the Run that has one. */
  function FirstNamed(runId: string, messages: seq<Message>): string {
    if messages == [] then ""
    else if messages[0].runId == runId && messages[0].taskId != "" then messages[0].taskId
    else FirstNamed(runId, messages[1..])
  }

  /** The result names the Task before the Run does, and the Run before its messages. */
  function TaskIdFor(runId: string, row: Row, facts: Facts): string {
    if facts.result.Some? && facts.result.value.taskId != "" then facts.result.value.taskId
    else if row.payload.taskId != "" then row.payload.taskId
    else FirstNamed(runId, facts.messages)
  }

  /** Each part of the scope is the row's, or the first message's when the row has none. */
  function ScopeFor(runId: string, row: Row, facts: Facts): TaskScope {
    match FirstMessage(runId, facts.messages)
    case None => TaskScope(row.userId, row.tenantId, row.conversationId)
    case Some(m) =>
      TaskScope(if row.userId == "" then m.userId else row.userId,
                if row.tenantId == "" then m.tenantId else row.tenantId,
                if row.conversationId == "" then m.conversationId else row.conversationId)
  }

  /** None for a Run without a Task or without a provider, Some(None) for a Task that is missing. */
  function TaskFor(runId: string, row: Row, facts: Facts): Option<Option<TaskView>> {
    if TaskIdFor(runId, row, facts) == "" || facts.tasks == None then None
    else if (ScopeFor(runId, row, facts), TaskIdFor(runId, row, facts)) in facts.tasks.value
    then Some(Some(facts.tasks.value[(ScopeFor(runId, row, facts), TaskIdFor(runId, row, facts))]))
    else Some(None)
  }

  lemma {:induction false} FirstsMean(runId: string, messages: seq<Message>)
    ensures var owned := Owned(messages, runId);
            && FirstNamed(runId, messages) == FirstTaskId(owned)
            && FirstMessage(runId, messages) == if owned == [] then None else Some(owned[0])
  {
    if messages != [] {
      OwnedFront(messages, runId);
      FirstsMean(runId, messages[1..]);
      var owned, rest := Owned(messages, runId), Owned(messages[1..], runId);
      if messages[0].runId == runId {
        assert owned[1..] == rest;
      } else {
        assert owned == rest;
      }
    }
  }

  /** The Task the cascade is bound to is the one these rules name. */
  lemma TaskMeans(runId: string, row: Row, facts: Facts)
    requires Owned(facts.messages, runId) != []
    ensures BoundTask(row, facts, Owned(facts.messages, runId)) == TaskFor(runId, row, facts)
  {
    FirstsMean(runId, facts.messages);
  }

  /** The hook was not called for a queue message, or for one that is in the queue and of this Run. */
  ghost predicate HookMatches(runId: string, facts: Facts) {
    facts.queueGate == None
    || (facts.queueGate.value.1 && exists m :: Owns(runId, facts, m) && m.executionId == facts.queueGate.value.0)
  }

  lemma GateMeans(runId: string, facts: Facts)
    ensures GateOpen(facts, Owned(facts.messages, runId)) <==> HookMatches(runId, facts)
  {
    var owned := Owned(facts.messages, runId);
    forall m
      ensures m in owned <==> Owns(runId, facts, m)
    {
    }
  }
}
