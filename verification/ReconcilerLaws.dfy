/** What the reconciler's verdicts promise when the queue is reordered and when writers race. */
module ReconcilerLaws {
  import opened Wrappers
  import opened Runs
  import opened RuntimeResults
  import opened RunHistory
  import opened RunStore
  import opened Reconciler
  import opened ReconcilerFacts
  import opened VerdictLaws

  // ----- order -----

  /** Both lists lead to the same Task, or both to none; the scope matters only to the lookup. */
  ghost predicate SameBinding(row: Row, result: Option<RuntimeResult>, a: seq<Message>, b: seq<Message>) {
    && TaskIdOf(row, result, a) == TaskIdOf(row, result, b)
    && (TaskIdOf(row, result, a) != "" && a != [] && b != [] ==> ScopeOf(row, a) == ScopeOf(row, b))
  }

  /** The same closing, with the same terminal status and event, the same wait for work, the same
      failure. */
  ghost predicate SameVerdict(v: Verdict, w: Verdict) {
    && Closes(v) == Closes(w)
    && (v == KeepRunning <==> w == KeepRunning)
    && (v == Raise <==> w == Raise)
    && (Closes(v) ==> v == w)
  }

  lemma SameTally(runId: string, facts: Facts, messages: seq<Message>)
    requires multiset(messages) == multiset(facts.messages)
    ensures var a, b := Owned(facts.messages, runId), Owned(messages, runId);
            var t, u := TallyOf(facts.executions, a), TallyOf(facts.executions, b);
            && u.active == t.active && u.completed == t.completed && u.failed == t.failed && u.waiting == t.waiting
            && (a == [] <==> b == [])
            && GateOpen(facts, a) == GateOpen(facts.(messages := messages), b)
  {
    var a, b := Owned(facts.messages, runId), Owned(messages, runId);
    OwnedPermutes(facts.messages, messages, runId);
    CountPermutes(facts.executions, a, b, Busy);
    CountPermutes(facts.executions, a, b, Done);
    CountPermutes(facts.executions, a, b, Broken);
    CountPermutes(facts.executions, a, b, Held);
    assert |a| == |multiset(a)| == |multiset(b)| == |b|;
    assert forall m :: m in a <==> m in multiset(a);
    assert forall m :: m in b <==> m in multiset(b);
  }

  /** Permuting the queue never changes whether the Run is closed, kept running or failed by the
      missing name, nor the terminal status, as long as the Task binding is the same. */
  lemma VerdictIsOrderFree(runId: string, row: Row, facts: Facts, messages: seq<Message>)
    requires multiset(messages) == multiset(facts.messages)
    requires SameBinding(row, facts.result, Owned(facts.messages, runId), Owned(messages, runId))
    ensures SameVerdict(Decide(runId, row, facts), Decide(runId, row, facts.(messages := messages)))
  {
    SameTally(runId, facts, messages);
    var a, b := Owned(facts.messages, runId), Owned(messages, runId);
    if a != [] {
      WeighIgnoresOrder(row, runId in facts.pendingRuns, facts.result, facts.approvals,
                        TallyOf(facts.executions, a), TallyOf(facts.executions, b), BoundTask(row, facts, a));
    }
  }

  lemma WeighIgnoresOrder(row: Row, pending: bool, result: Option<RuntimeResult>, approvals: Option<map<string, string>>,
                          t: Tally, u: Tally, task: Option<Option<TaskView>>)
    requires u == t.(approvals := u.approvals)
    ensures SameVerdict(Weigh(row, pending, result, approvals, t, task), Weigh(row, pending, result, approvals, u, task))
  {
  }

  lemma {:induction false} FirstTaskIdIsFirst(owned: seq<Message>)
    ensures FirstTaskId(owned) == "" <==> forall m :: m in owned ==> m.taskId == ""
    ensures FirstTaskId(owned) != "" ==> exists m :: m in owned && m.taskId == FirstTaskId(owned)
  {
    if owned != [] {
      FirstTaskIdIsFirst(owned[1..]);
      assert owned == [owned[0]] + owned[1..];
    }
  }

  lemma Fronted(owned: seq<Message>, m: Message) returns (p: seq<Message>)
    requires m in owned && m.taskId != ""
    ensures multiset(p) == multiset(owned) && FirstTaskId(p) == m.taskId
  {
    var k :| 0 <= k < |owned| && owned[k] == m;
    p := [m] + (owned[..k] + owned[k + 1..]);
    assert owned == owned[..k] + [m] + owned[k + 1..];
    assert multiset(owned) == multiset(owned[..k]) + multiset{m} + multiset(owned[k + 1..]);
    assert multiset(p) == multiset{m} + multiset(owned[..k]) + multiset(owned[k + 1..]);
  }

  ghost predicate AtMostOneTask(owned: seq<Message>) {
    forall m, n :: m in owned && n in owned && m.taskId != "" && n.taskId != "" ==> m.taskId == n.taskId
  }

  ghost predicate TaskIsOrderFree(owned: seq<Message>) {
    forall p :: multiset(p) == multiset(owned) ==> FirstTaskId(p) == FirstTaskId(owned)
  }

  /** A task id taken from the messages is order-free exactly when they name at most one task. */
  lemma FallbackTaskExactly(owned: seq<Message>)
    ensures TaskIsOrderFree(owned) <==> AtMostOneTask(owned)
  {
    if TaskIsOrderFree(owned) {
      forall m, n | m in owned && n in owned && m.taskId != "" && n.taskId != ""
        ensures m.taskId == n.taskId
      {
        var p := Fronted(owned, m);
        var q := Fronted(owned, n);
      }
    }
    if AtMostOneTask(owned) {
      forall p | multiset(p) == multiset(owned)
        ensures FirstTaskId(p) == FirstTaskId(owned)
      {
        SameFirstTask(owned, p);
      }
    }
  }

  lemma SameFirstTask(owned: seq<Message>, p: seq<Message>)
    requires AtMostOneTask(owned) && multiset(p) == multiset(owned)
    ensures FirstTaskId(p) == FirstTaskId(owned)
  {
    FirstTaskIdIsFirst(p);
    FirstTaskIdIsFirst(owned);
    assert forall m :: m in p <==> m in multiset(p);
    assert forall m :: m in owned <==> m in multiset(owned);
    if FirstTaskId(p) != "" {
      var m :| m in p && m.taskId == FirstTaskId(p);
      assert m in owned;
    }
    if FirstTaskId(owned) != "" {
      var m :| m in owned && m.taskId == FirstTaskId(owned);
      assert m in p;
    }
  }

  predicate OneUser(owned: seq<Message>) {
    forall m, n :: m in owned && n in owned ==> m.userId == n.userId
  }

  predicate OneTenant(owned: seq<Message>) {
    forall m, n :: m in owned && n in owned ==> m.tenantId == n.tenantId
  }

  predicate OneConversation(owned: seq<Message>) {
    forall m, n :: m in owned && n in owned ==> m.conversationId == n.conversationId
  }

  /** Each part of the scope comes from the row, or all messages agree on it. */
  predicate ScopeIsFixed(row: Row, owned: seq<Message>) {
    && (row.userId != "" || OneUser(owned))
    && (row.tenantId != "" || OneTenant(owned))
    && (row.conversationId != "" || OneConversation(owned))
  }

  lemma ToFront(owned: seq<Message>, m: Message) returns (p: seq<Message>)
    requires m in owned
    ensures multiset(p) == multiset(owned) && p != [] && p[0] == m
  {
    var k :| 0 <= k < |owned| && owned[k] == m;
    p := [m] + (owned[..k] + owned[k + 1..]);
    assert owned == owned[..k] + [m] + owned[k + 1..];
    assert multiset(owned) == multiset(owned[..k]) + multiset{m} + multiset(owned[k + 1..]);
    assert multiset(p) == multiset{m} + multiset(owned[..k]) + multiset(owned[k + 1..]);
  }

  ghost predicate ScopeIsOrderFree(row: Row, owned: seq<Message>)
    requires owned != []
  {
    forall p :: multiset(p) == multiset(owned) && p != [] ==> ScopeOf(row, p) == ScopeOf(row, owned)
  }

  /** The lookup scope is order-free exactly when every missing part is the same in all messages. */
  lemma ScopeOrderExactly(row: Row, owned: seq<Message>)
    requires owned != []
    ensures ScopeIsOrderFree(row, owned) <==> ScopeIsFixed(row, owned)
  {
    if ScopeIsOrderFree(row, owned) {
      forall m, n | m in owned && n in owned
        ensures row.userId != "" || m.userId == n.userId
        ensures row.tenantId != "" || m.tenantId == n.tenantId
        ensures row.conversationId != "" || m.conversationId == n.conversationId
      {
        var p := ToFront(owned, m);
        var q := ToFront(owned, n);
        assert ScopeOf(row, p) == ScopeOf(row, q);
      }
    }
    if ScopeIsFixed(row, owned) {
      forall p | multiset(p) == multiset(owned) && p != []
        ensures ScopeOf(row, p) == ScopeOf(row, owned)
      {
        assert p[0] in multiset(p);
        assert p[0] in owned && owned[0] in owned;
      }
    }
  }

  /** No Task is named at all, or the lookup key does not depend on the order of the messages. */
  ghost predicate BindingIsFixed(row: Row, result: Option<RuntimeResult>, owned: seq<Message>) {
    || TaskIdOf(row, result, owned) == ""
    || ((NamedTask(row, result) != "" || AtMostOneTask(owned)) && ScopeIsFixed(row, owned))
  }

  lemma FixedBindingIsSame(row: Row, result: Option<RuntimeResult>, a: seq<Message>, b: seq<Message>)
    requires BindingIsFixed(row, result, a) && multiset(a) == multiset(b)
    ensures SameBinding(row, result, a, b)
  {
    if NamedTask(row, result) == "" {
      if TaskIdOf(row, result, a) == "" {
        FirstTaskIdIsFirst(a);
      }
      SameFirstTask(a, b);
    }
    if TaskIdOf(row, result, a) != "" && a != [] && b != [] {
      ScopeOrderExactly(row, a);
    }
  }

  /** Permuting the queue leaves the verdict alone when the binding is fixed, which a caller can
      check beforehand. */
  lemma ReconcilerIsOrderFree(runId: string, row: Row, facts: Facts, messages: seq<Message>)
    requires multiset(messages) == multiset(facts.messages)
    requires BindingIsFixed(row, facts.result, Owned(facts.messages, runId))
    ensures SameVerdict(Decide(runId, row, facts), Decide(runId, row, facts.(messages := messages)))
  {
    OwnedPermutes(facts.messages, messages, runId);
    FixedBindingIsSame(row, facts.result, Owned(facts.messages, runId), Owned(messages, runId));
    VerdictIsOrderFree(runId, row, facts, messages);
  }

  /** Everything but the Task lets the Run be closed. */
  ghost predicate Ripe(runId: string, row: Row, facts: Facts) {
    && Considered(runId, row, facts)
    && (forall m :: Owns(runId, facts, m) ==> IsCompleted(facts, m) || IsBroken(facts, m))
    && runId !in facts.pendingRuns && !ResultSaysWait(facts.result)
  }

  ghost predicate VerdictKept(runId: string, row: Row, facts: Facts, tasks: map<(TaskScope, string), TaskView>,
                              messages: seq<Message>) {
    SameVerdict(Decide(runId, row, facts.(tasks := Some(tasks))),
                Decide(runId, row, facts.(tasks := Some(tasks), messages := messages)))
  }

  /** Whatever Tasks there are, no permutation of the queue changes the verdict. */
  ghost predicate VerdictIsFixed(runId: string, row: Row, facts: Facts) {
    forall tasks, messages :: multiset(messages) == multiset(facts.messages) ==> VerdictKept(runId, row, facts, tasks, messages)
  }

  /** For a ripe Run the verdict is independent of the queue order exactly when the binding is
      fixed. */
  lemma VerdictOrderExactly(runId: string, row: Row, facts: Facts)
    requires Ripe(runId, row, facts)
    ensures VerdictIsFixed(runId, row, facts) <==> BindingIsFixed(row, facts.result, Owned(facts.messages, runId))
  {
    if BindingIsFixed(row, facts.result, Owned(facts.messages, runId)) {
      forall tasks: map<(TaskScope, string), TaskView>, messages | multiset(messages) == multiset(facts.messages)
        ensures VerdictKept(runId, row, facts, tasks, messages)
      {
        ReconcilerIsOrderFree(runId, row, facts.(tasks := Some(tasks)), messages);
      }
    } else {
      var tasks, messages := OrderThatMatters(runId, row, facts);
    }
  }

  function KeyFor(row: Row, result: Option<RuntimeResult>, owned: seq<Message>): (TaskScope, string)
    requires owned != []
  {
    (ScopeOf(row, owned), TaskIdOf(row, result, owned))
  }

  lemma {:induction false} NobodyNamesOne(owned: seq<Message>, p: seq<Message>)
    requires multiset(p) == multiset(owned) && FirstTaskId(owned) != ""
    ensures FirstTaskId(p) != ""
  {
    FirstTaskIdIsFirst(owned);
    FirstTaskIdIsFirst(p);
    var m :| m in owned && m.taskId == FirstTaskId(owned);
    assert m in multiset(owned) && m in multiset(p);
  }

  /** A binding that is not fixed leads to another key in some order. */
  lemma OtherKey(row: Row, result: Option<RuntimeResult>, owned: seq<Message>) returns (p: seq<Message>)
    requires owned != [] && !BindingIsFixed(row, result, owned)
    ensures multiset(p) == multiset(owned) && p != []
    ensures TaskIdOf(row, result, p) != "" && KeyFor(row, result, p) != KeyFor(row, result, owned)
  {
    if !ScopeIsFixed(row, owned) {
      ScopeOrderExactly(row, owned);
      p :| multiset(p) == multiset(owned) && p != [] && ScopeOf(row, p) != ScopeOf(row, owned);
    } else {
      FallbackTaskExactly(owned);
      p :| multiset(p) == multiset(owned) && FirstTaskId(p) != FirstTaskId(owned);
      assert |multiset(p)| == |multiset(owned)| > 0;
    }
    if NamedTask(row, result) == "" {
      NobodyNamesOne(owned, p);
    }
  }

  function Others(messages: seq<Message>, runId: string): (r: seq<Message>)
    ensures forall m :: m in r ==> m.runId != runId
  {
    if messages == [] then []
    else
      var last := messages[|messages| - 1];
      Others(messages[..|messages| - 1], runId) + (if last.runId == runId then [] else [last])
  }

  lemma {:induction false} OwnedAndOthers(messages: seq<Message>, runId: string)
    ensures multiset(messages) == multiset(Owned(messages, runId)) + multiset(Others(messages, runId))
  {
    if messages != [] {
      var rest, last := messages[..|messages| - 1], messages[|messages| - 1];
      assert messages == rest + [last];
      OwnedAndOthers(rest, runId);
    }
  }

  lemma {:induction false} OwnedOfBoth(own: seq<Message>, others: seq<Message>, runId: string)
    requires forall m :: m in own ==> m.runId == runId
    requires forall m :: m in others ==> m.runId != runId
    ensures Owned(own + others, runId) == own
  {
    if others != [] {
      var n := |others| - 1;
      assert (own + others)[..|own + others| - 1] == own + others[..n];
      OwnedOfBoth(own, others[..n], runId);
    } else if own != [] {
      var n := |own| - 1;
      assert own + others == own && own == own[..n] + [own[n]];
      assert own[..n] + others == own[..n];
      OwnedOfBoth(own[..n], others, runId);
    }
  }

  /** Any order of the owned messages is the order of some queue. */
  lemma Requeued(messages: seq<Message>, runId: string, p: seq<Message>) returns (q: seq<Message>)
    requires multiset(p) == multiset(Owned(messages, runId))
    ensures multiset(q) == multiset(messages) && Owned(q, runId) == p
  {
    q := p + Others(messages, runId);
    OwnedAndOthers(messages, runId);
    forall m | m in p
      ensures m.runId == runId
    {
      assert m in multiset(p) && m in multiset(Owned(messages, runId));
    }
    OwnedOfBoth(p, Others(messages, runId), runId);
  }

  /** A ripe Run with its Task found is closed or raises; with the Task missing it is kept running. */
  lemma RipeOutcome(runId: string, row: Row, facts: Facts)
    requires Ripe(runId, row, facts) && facts.tasks.Some?
    requires TaskIdOf(row, facts.result, Owned(facts.messages, runId)) != ""
    ensures var key := KeyFor(row, facts.result, Owned(facts.messages, runId));
            if key !in facts.tasks.value then Decide(runId, row, facts) == KeepRunning
            else facts.tasks.value[key].status == TaskCompleted ==> Closes(Decide(runId, row, facts))
  {
    OwnedIsSome(runId, facts);
    TaskMeans(runId, row, facts);
    KeptRunningExactly(runId, row, facts);
    ClosesExactlyWhenSettled(runId, row, facts);
  }

  lemma OwnsPermutes(runId: string, facts: Facts, messages: seq<Message>, m: Message)
    requires multiset(messages) == multiset(facts.messages)
    ensures Owns(runId, facts.(messages := messages), m) <==> Owns(runId, facts, m)
  {
    assert m in messages <==> m in multiset(messages);
    assert m in facts.messages <==> m in multiset(facts.messages);
  }

  lemma RipePermutes(runId: string, row: Row, facts: Facts, messages: seq<Message>)
    requires Ripe(runId, row, facts) && multiset(messages) == multiset(facts.messages)
    ensures Ripe(runId, row, facts.(messages := messages))
  {
    var other := facts.(messages := messages);
    forall m
      ensures Owns(runId, other, m) <==> Owns(runId, facts, m)
      ensures IsCompleted(other, m) == IsCompleted(facts, m) && IsBroken(other, m) == IsBroken(facts, m)
    {
      OwnsPermutes(runId, facts, messages, m);
    }
    var m :| Owns(runId, facts, m);
    assert Owns(runId, other, m);
  }

  lemma OrderThatMatters(runId: string, row: Row, facts: Facts)
    returns (tasks: map<(TaskScope, string), TaskView>, messages: seq<Message>)
    requires Ripe(runId, row, facts) && !BindingIsFixed(row, facts.result, Owned(facts.messages, runId))
    ensures multiset(messages) == multiset(facts.messages) && !VerdictKept(runId, row, facts, tasks, messages)
  {
    var owned := Owned(facts.messages, runId);
    OwnedIsSome(runId, facts);
    var p := OtherKey(row, facts.result, owned);
    messages := Requeued(facts.messages, runId, p);
    tasks := map[KeyFor(row, facts.result, owned) := TaskView(TaskCompleted, false)];
    ClosedInOneOrder(runId, row, facts, tasks);
    KeptInOther(runId, row, facts, tasks, messages);
  }

  lemma ClosedInOneOrder(runId: string, row: Row, facts: Facts, tasks: map<(TaskScope, string), TaskView>)
    requires Ripe(runId, row, facts) && Owned(facts.messages, runId) != []
    requires TaskIdOf(row, facts.result, Owned(facts.messages, runId)) != ""
    requires tasks == map[KeyFor(row, facts.result, Owned(facts.messages, runId)) := TaskView(TaskCompleted, false)]
    ensures Closes(Decide(runId, row, facts.(tasks := Some(tasks))))
  {
    var known := facts.(tasks := Some(tasks));
    assert Ripe(runId, row, known) by {
      RipeIgnoresTasks(runId, row, facts, tasks);
    }
    RipeOutcome(runId, row, known);
  }

  lemma RipeIgnoresTasks(runId: string, row: Row, facts: Facts, tasks: map<(TaskScope, string), TaskView>)
    requires Ripe(runId, row, facts)
    ensures Ripe(runId, row, facts.(tasks := Some(tasks)))
  {
    var known := facts.(tasks := Some(tasks));
    forall m
      ensures Owns(runId, known, m) == Owns(runId, facts, m)
      ensures IsCompleted(known, m) == IsCompleted(facts, m) && IsBroken(known, m) == IsBroken(facts, m)
    {
    }
    var m :| Owns(runId, facts, m);
    assert Owns(runId, known, m);
  }

  lemma KeptInOther(runId: string, row: Row, facts: Facts, tasks: map<(TaskScope, string), TaskView>, messages: seq<Message>)
    requires Ripe(runId, row, facts) && multiset(messages) == multiset(facts.messages) && Owned(messages, runId) != []
    requires TaskIdOf(row, facts.result, Owned(messages, runId)) != ""
    requires KeyFor(row, facts.result, Owned(messages, runId)) !in tasks
    ensures Decide(runId, row, facts.(tasks := Some(tasks), messages := messages)) == KeepRunning
  {
    RipeIgnoresTasks(runId, row, facts, tasks);
    RipePermutes(runId, row, facts.(tasks := Some(tasks)), messages);
    RipeOutcome(runId, row, facts.(tasks := Some(tasks), messages := messages));
  }

  /** Two owned, completed messages and nothing else in the way. */
  ghost predicate TwoCompleted(runId: string, row: Row, facts: Facts, m: Message, n: Message) {
    && row.status !in {COMPLETED, PARTIAL_SUCCESS, FAILED, CANCELLED} && runId !in facts.pendingRuns && facts.queueGate == None
    && m.runId == runId && n.runId == runId
    && IsCompleted(facts, m) && IsCompleted(facts, n)
    && ResultIn(facts.result, {Completed})
    && row.payload.waitingState !in {"WAITING_APPROVAL", "WAITING_HUMAN", "ASK_USER"}
  }

  lemma TwoMessages(runId: string, row: Row, facts: Facts, m: Message, n: Message)
    requires TwoCompleted(runId, row, facts, m, n) && facts.messages == [m, n]
    ensures Owned([m, n], runId) == [m, n]
    ensures Decide(runId, row, facts)
         == Weigh(row, false, facts.result, facts.approvals, Tally(0, 2, 0, 0, []), BoundTask(row, facts, [m, n]))
  {
    OwnedTwo(runId, facts, m, n);
  }

  lemma OwnedTwo(runId: string, facts: Facts, m: Message, n: Message)
    requires m.runId == runId && n.runId == runId && IsCompleted(facts, m) && IsCompleted(facts, n)
    ensures Owned([m, n], runId) == [m, n]
    ensures TallyOf(facts.executions, [m, n]) == Tally(0, 2, 0, 0, [])
  {
    OneMessage(runId, SAMPLE_ROW, facts.(messages := [m]), m);
    assert [m, n][..1] == [m] && [m] + [n] == [m, n];
    TallyLast(facts.executions, [m], n);
  }

  /** The task key that the first of two messages leads to. */
  function FirstKey(row: Row, result: Option<RuntimeResult>, m: Message): (TaskScope, string) {
    (ScopeOf(row, [m]), if NamedTask(row, result) != "" then NamedTask(row, result) else m.taskId)
  }

  lemma BindingOfTwo(row: Row, facts: Facts, m: Message, n: Message)
    requires NamedTask(row, facts.result) != "" || m.taskId != ""
    requires facts.tasks.Some?
    ensures BoundTask(row, facts, [m, n])
         == Some(if FirstKey(row, facts.result, m) in facts.tasks.value
                 then Some(facts.tasks.value[FirstKey(row, facts.result, m)]) else None)
  {
    assert [m, n][0] == m == [m][0];
  }

  lemma WeighTwoCompleted(row: Row, result: Option<RuntimeResult>, approvals: Option<map<string, string>>, task: Option<TaskView>)
    requires StatusOf(result) == Completed && !StateAwaitsUser(row.payload.waitingState)
    ensures var v := Weigh(row, false, result, approvals, Tally(0, 2, 0, 0, []), Some(task));
            if task.None? || task.value.status.TaskOpen? then v == KeepRunning
            else task.value.status == TaskCompleted ==> v == Close(COMPLETED, RunCompleted)
  {
  }

  lemma TwoMessagesOutcome(runId: string, row: Row, facts: Facts, m: Message, n: Message)
    requires TwoCompleted(runId, row, facts, m, n) && facts.messages == [m, n]
    requires NamedTask(row, facts.result) != "" || m.taskId != ""
    requires facts.tasks.Some?
    ensures var key := FirstKey(row, facts.result, m);
            if key !in facts.tasks.value || facts.tasks.value[key].status.TaskOpen?
            then Decide(runId, row, facts) == KeepRunning
            else facts.tasks.value[key].status == TaskCompleted ==> Decide(runId, row, facts) == Close(COMPLETED, RunCompleted)
  {
    TwoMessages(runId, row, facts, m, n);
    BindingOfTwo(row, facts, m, n);
    WeighTwoCompleted(row, facts.result, facts.approvals, BoundTask(row, facts, [m, n]).value);
  }

  /** Without a named Task, two messages that name a completed and an open task decide by their
      order: in one order the Run is closed, in the other it is kept running. */
  lemma OrderCanMatterByTask(runId: string, row: Row, facts: Facts, m: Message, n: Message)
    requires TwoCompleted(runId, row, facts, m, n)
    requires NamedTask(row, facts.result) == "" && m.taskId != "" && n.taskId != ""
    requires facts.tasks.Some?
    requires var key := FirstKey(row, facts.result, m); key in facts.tasks.value && facts.tasks.value[key].status == TaskCompleted
    requires var key := FirstKey(row, facts.result, n); key in facts.tasks.value && facts.tasks.value[key].status.TaskOpen?
    ensures Decide(runId, row, facts.(messages := [m, n])) == Close(COMPLETED, RunCompleted)
    ensures Decide(runId, row, facts.(messages := [n, m])) == KeepRunning
  {
    TwoMessagesOutcome(runId, row, facts.(messages := [m, n]), m, n);
    TwoMessagesOutcome(runId, row, facts.(messages := [n, m]), n, m);
  }

  /** With the Task named but a scope part missing on the row, messages of two scopes decide by
      their order whether the Task is found. */
  lemma OrderCanMatterByScope(runId: string, row: Row, facts: Facts, m: Message, n: Message)
    requires TwoCompleted(runId, row, facts, m, n)
    requires NamedTask(row, facts.result) != "" && facts.tasks.Some?
    requires var key := FirstKey(row, facts.result, m); key in facts.tasks.value && facts.tasks.value[key].status == TaskCompleted
    requires FirstKey(row, facts.result, n) !in facts.tasks.value
    ensures !ScopeIsFixed(row, [m, n])
    ensures Decide(runId, row, facts.(messages := [m, n])) == Close(COMPLETED, RunCompleted)
    ensures Decide(runId, row, facts.(messages := [n, m])) == KeepRunning
  {
    TwoMessagesOutcome(runId, row, facts.(messages := [m, n]), m, n);
    TwoMessagesOutcome(runId, row, facts.(messages := [n, m]), n, m);
    assert m in [m, n] && n in [m, n];
  }

  function TwoFacts(result: Option<RuntimeResult>, tasks: map<(TaskScope, string), TaskView>): Facts {
    Facts([], map["e" := ExecutionCompleted, "f" := ExecutionCompleted], {}, result, Some(tasks), None, None, Measures(0, 0, 0))
  }

  const DONE_RESULT := RuntimeResult(true, Completed, "", "", "", "", "", [], [])

  /** One Run, two messages that name Tasks `a` and `b`: one order closes the Run. */
  lemma OrderMattersForTwoTasks()
    ensures var m, n := Message("e", "r", "a", "u", "t", "c"), Message("f", "r", "b", "u", "t", "c");
            var here := TaskScope("u", "t", "c");
            var facts := TwoFacts(Some(DONE_RESULT), map[(here, "a") := TaskView(TaskCompleted, false),
                                                         (here, "b") := TaskView(TaskOpen("RUNNING"), false)]);
            && Decide("r", SAMPLE_ROW, facts.(messages := [m, n])) == Close(COMPLETED, RunCompleted)
            && Decide("r", SAMPLE_ROW, facts.(messages := [n, m])) == KeepRunning
  {
    var m, n := Message("e", "r", "a", "u", "t", "c"), Message("f", "r", "b", "u", "t", "c");
    var here := TaskScope("u", "t", "c");
    var facts := TwoFacts(Some(DONE_RESULT), map[(here, "a") := TaskView(TaskCompleted, false),
                                                 (here, "b") := TaskView(TaskOpen("RUNNING"), false)]);
    assert FirstKey(SAMPLE_ROW, facts.result, m) == (here, "a");
    assert FirstKey(SAMPLE_ROW, facts.result, n) == (here, "b");
    OrderCanMatterByTask("r", SAMPLE_ROW, facts, m, n);
  }

  /** One Run without a user, the Task named, two messages of users `u` and `v`. */
  lemma OrderMattersForTwoScopes()
    ensures var m, n := Message("e", "r", "", "u", "t", "c"), Message("f", "r", "", "v", "t", "c");
            var facts := TwoFacts(Some(DONE_RESULT.(taskId := "a")),
                                  map[(TaskScope("u", "t", "c"), "a") := TaskView(TaskCompleted, false)]);
            && Decide("r", SAMPLE_ROW.(userId := ""), facts.(messages := [m, n])) == Close(COMPLETED, RunCompleted)
            && Decide("r", SAMPLE_ROW.(userId := ""), facts.(messages := [n, m])) == KeepRunning
  {
    var row := SAMPLE_ROW.(userId := "");
    var m, n := Message("e", "r", "", "u", "t", "c"), Message("f", "r", "", "v", "t", "c");
    var facts := TwoFacts(Some(DONE_RESULT.(taskId := "a")),
                          map[(TaskScope("u", "t", "c"), "a") := TaskView(TaskCompleted, false)]);
    assert FirstKey(row, facts.result, m) == (TaskScope("u", "t", "c"), "a");
    assert FirstKey(row, facts.result, n) == (TaskScope("v", "t", "c"), "a");
    OrderCanMatterByScope("r", row, facts, m, n);
  }

  // ----- over whole runs -----

  /** A reconciler that read the row at `a` and wrote its verdict at `b`. */
  ghost predicate ReconcilesAt(h: History, a: nat, b: nat, id: string, facts: Facts, now: string)
    requires IsHistory(h) && b < |h.ops|
  {
    && a <= b && id in h.tables[a]
    && WriteOf(id, h.tables[a][id], facts, now).Some?
    && h.ops[b] == OpMark(WriteOf(id, h.tables[a][id], facts, now).value)
    && MarkApplies(h.tables[b], h.ops[b].m)
    && Terminal(h.ops[b].m.status)
  }

  /** Every terminal event a reconciler emits is justified by settled facts, is the only one for
      its Run, and names the status the Run keeps; a later reconciler writes nothing. */
  lemma TerminalEventIsJustified(h: History, a: nat, b: nat, id: string, facts: Facts, now: string,
                                 a': nat, b': nat, facts': Facts, now': string, j: nat)
    requires IsHistory(h) && b < |h.ops| && b' < |h.ops| && b < j <= |h.ops|
    requires ReconcilesAt(h, a, b, id, facts, now)
    ensures Settled(id, h.tables[a][id], facts)
    ensures ReconcilesAt(h, a', b', id, facts', now') ==> b' == b
    ensures id in h.tables[j] && h.tables[j][id].status == h.ops[b].m.status
    ensures Decide(id, h.tables[j][id], facts') == Leave && WriteOf(id, h.tables[j][id], facts', now') == None
  {
    ClosesExactlyWhenSettled(id, h.tables[a][id], facts);
    assert EmitsTerminal(h, a, b, id);
    OneTerminalEmission(h, a, b, a, b, id, j);
    if ReconcilesAt(h, a', b', id, facts', now') {
      assert EmitsTerminal(h, a', b', id);
      OneTerminalEmission(h, a, b, a', b', id, j);
    }
  }

  /** The second half of the reconciler: the write, and the event only if the write took effect. */
  method Commit(store: AgentRunStore, runId: string, row: Row, facts: Facts, now: string)
    returns (event: Option<Event>)
    modifies store
    ensures var m := WriteOf(runId, row, facts, now);
            && store.table == (if m.Some? then Marked(old(store.table), m.value) else old(store.table))
            && (event.Some? <==> Decide(runId, row, facts).Close? && m.Some? && MarkApplies(old(store.table), m.value))
            && (event.Some? ==> event.value == Decide(runId, row, facts).event)
  {
    event := None;
    var owned := Owned(facts.messages, runId);
    var tally := CountExecutions(facts.executions, owned);
    match Decide(runId, row, facts) {
      case KeepRunning =>
        if row.status != RUNNING {
          var changed := store.MarkStatus(Mark(runId, RUNNING, "", "", None, Some(row.version), None, now));
        }
      case Close(status, kind) =>
        var message := if facts.result.Some? then facts.result.value.errorMessage else "";
        var changed := store.MarkStatus(
          Mark(runId, status, ErrorCodeOf(facts.result), message, None, Some(row.version),
               Some(ProjectedPayload(row, facts, tally, status)), now));
        if changed {
          event := Some(kind);
        }
      case Leave =>
      case Raise =>
    }
  }
}
