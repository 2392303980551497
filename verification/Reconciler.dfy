/** The completion reconciler: it folds the queue messages a Run owns into one verdict and
    writes it with the version it read. */
module Reconciler {
  import opened Wrappers
  import opened Runs
  import opened RuntimeResults

  datatype Message = Message(
    executionId: string, runId: string, taskId: string,
    userId: string, tenantId: string, conversationId: string)

  /** Upper-cased execution status; everything else counts as active. */
  datatype ExecutionStatus =
    | ExecutionCompleted | ExecutionFailed | ExecutionCancelled
    | AwaitingApproval | AwaitingHuman | Paused
    | Live(name: string)

  datatype TaskStatus = TaskCompleted | TaskFailed | TaskCancelled | TaskOpen(name: string)

  datatype TaskView = TaskView(status: TaskStatus, failedSibling: bool)

  datatype TaskScope = TaskScope(userId: string, tenantId: string, conversationId: string)

  /** Everything the reconciler reads beside the Run row. `tasks` is None without a task
      provider; a lookup that raises, like a missing task, is a missing key. `queueGate` is the
      execution the hook was called for, and whether the queue knows it. `measures` is the refreshed
      performance projection. */
  datatype Facts = Facts(
    messages: seq<Message>,
    executions: map<string, ExecutionStatus>,
    pendingRuns: set<string>,
    result: Option<RuntimeResult>,
    tasks: Option<map<(TaskScope, string), TaskView>>,
    approvals: Option<map<string, string>>,
    queueGate: Option<(string, bool)>,
    measures: Measures)

  datatype Event = RunCompleted | RunFailed | AwaitingUser

  datatype Verdict =
    | Leave
    | KeepRunning
    | Close(status: Status, event: Event)
    | Raise

  // ----- the tally -----

  datatype Tally = Tally(active: nat, completed: nat, failed: nat, waiting: nat, approvals: seq<string>)

  datatype Class = Done | Broken | Held | Busy

  function ClassOf(executions: map<string, ExecutionStatus>, m: Message): Class {
    if m.executionId !in executions then Busy
    else match executions[m.executionId]
      case ExecutionCompleted => Done
      case ExecutionFailed => Broken
      case ExecutionCancelled => Broken
      case AwaitingApproval => Held
      case AwaitingHuman => Held
      case Paused => Held
      case Live(_) => Busy
  }

  predicate NeedsApproval(executions: map<string, ExecutionStatus>, m: Message) {
    m.executionId in executions && executions[m.executionId] == AwaitingApproval
  }

  function CountClass(executions: map<string, ExecutionStatus>, owned: seq<Message>, kind: Class): nat {
    if owned == [] then 0
    else CountClass(executions, owned[..|owned| - 1], kind)
         + (if ClassOf(executions, owned[|owned| - 1]) == kind then 1 else 0)
  }

  function Approvals(executions: map<string, ExecutionStatus>, owned: seq<Message>): seq<string> {
    if owned == [] then []
    else Approvals(executions, owned[..|owned| - 1])
         + (if NeedsApproval(executions, owned[|owned| - 1]) then [owned[|owned| - 1].executionId] else [])
  }

  function TallyOf(executions: map<string, ExecutionStatus>, owned: seq<Message>): Tally {
    Tally(CountClass(executions, owned, Busy), CountClass(executions, owned, Done),
          CountClass(executions, owned, Broken), CountClass(executions, owned, Held),
          Approvals(executions, owned))
  }

  function Owned(messages: seq<Message>, runId: string): (r: seq<Message>)
    ensures forall m :: m in r <==> m in messages && m.runId == runId
  {
    if messages == [] then []
    else
      var last := messages[|messages| - 1];
      Owned(messages[..|messages| - 1], runId) + (if last.runId == runId then [last] else [])
  }

  /** The counting loop of the reconciler. */
  method CountExecutions(executions: map<string, ExecutionStatus>, owned: seq<Message>) returns (t: Tally)
    ensures t == TallyOf(executions, owned)
  {
    var active, completed, failed, waiting := 0, 0, 0, 0;
    var approvals: seq<string> := [];
    var k := 0;
    while k < |owned|
      invariant 0 <= k <= |owned|
      invariant Tally(active, completed, failed, waiting, approvals) == TallyOf(executions, owned[..k])
    {
      assert owned[..k + 1][..k] == owned[..k];
      var m := owned[k];
      k := k + 1;
      if m.executionId !in executions {
        active := active + 1;
        continue;
      }
      var status := executions[m.executionId];
      if status == ExecutionCompleted {
        completed := completed + 1;
      } else if status == ExecutionFailed || status == ExecutionCancelled {
        failed := failed + 1;
      } else if status == AwaitingApproval || status == AwaitingHuman || status == Paused {
        waiting := waiting + 1;
        if status == AwaitingApproval {
          approvals := approvals + [m.executionId];
        }
      } else {
        active := active + 1;
      }
    }
    assert owned[..k] == owned;
    t := Tally(active, completed, failed, waiting, approvals);
  }

  // ----- the verdict -----

  function StatusOf(result: Option<RuntimeResult>): ResultStatus {
    if result.Some? then result.value.status else Other("")
  }

  function ErrorCodeOf(result: Option<RuntimeResult>): string {
    if result.Some? then result.value.errorCode else ""
  }

  /** The first message that names a task. */
  function FirstTaskId(owned: seq<Message>): string {
    if owned == [] then ""
    else if owned[0].taskId != "" then owned[0].taskId
    else FirstTaskId(owned[1..])
  }

  /** The task id the result or the Run payload names, if any. */
  function NamedTask(row: Row, result: Option<RuntimeResult>): string {
    if result.Some? && result.value.taskId != "" then result.value.taskId else row.payload.taskId
  }

  function TaskIdOf(row: Row, result: Option<RuntimeResult>, owned: seq<Message>): string {
    if NamedTask(row, result) != "" then NamedTask(row, result) else FirstTaskId(owned)
  }

  function ScopeOf(row: Row, owned: seq<Message>): TaskScope
    requires owned != []
  {
    TaskScope(
      if row.userId != "" then row.userId else owned[0].userId,
      if row.tenantId != "" then row.tenantId else owned[0].tenantId,
      if row.conversationId != "" then row.conversationId else owned[0].conversationId)
  }

  /** The canonical Task, when the Run is bound to one and a provider is configured: the outer
      option says whether it is bound, the inner one whether it was found. */
  function BoundTask(row: Row, facts: Facts, owned: seq<Message>): Option<Option<TaskView>>
    requires owned != []
  {
    var id := TaskIdOf(row, facts.result, owned);
    if id == "" || facts.tasks.None? then None
    else if (ScopeOf(row, owned), id) in facts.tasks.value
    then Some(Some(facts.tasks.value[(ScopeOf(row, owned), id)]))
    else Some(None)
  }

  predicate StateAwaitsUser(waitingState: string) {
    waitingState == "WAITING_APPROVAL" || waitingState == "WAITING_HUMAN" || waitingState == "ASK_USER"
  }

  predicate GateOpen(facts: Facts, owned: seq<Message>) {
    facts.queueGate.Some? ==>
      facts.queueGate.value.1 && exists m :: m in owned && m.executionId == facts.queueGate.value.0
  }

  /** The branch cascade. */
  function Decide(runId: string, row: Row, facts: Facts): Verdict {
    var owned := Owned(facts.messages, runId);
    if Terminal(row.status) || !GateOpen(facts, owned) || owned == [] then Leave
    else
      Weigh(row, runId in facts.pendingRuns, facts.result, facts.approvals,
            TallyOf(facts.executions, owned), BoundTask(row, facts, owned))
  }

  /** The cascade over the counted facts. */
  function Weigh(row: Row, pending: bool, result: Option<RuntimeResult>, approvals: Option<map<string, string>>,
                 t: Tally, task: Option<Option<TaskView>>): Verdict {
    var status := StatusOf(result);
    if task == Some(None) then KeepRunning
    else if task.Some? && task.value.value.status.TaskOpen? && t.waiting == 0 && !AwaitsUser(status) then KeepRunning
    else if t.active > 0 || pending || status == Running || status == Queued || status == Submitted then KeepRunning
    else if t.waiting > 0
         || (StateAwaitsUser(row.payload.waitingState) && t.completed == 0 && t.failed == 0)
         || AwaitsUser(status)
    then Hold(result, approvals, t)
    else Settle(if task.Some? then task.value else None, result, t)
  }

  /** The Run waits for its user; an approval wait is written only with its identity. */
  function Hold(result: Option<RuntimeResult>, approvals: Option<map<string, string>>, t: Tally): Verdict {
    if t.approvals == [] then Close(WAITING_USER, AwaitingUser)
    else if approvals.Some? then
      if t.approvals[0] in approvals.value then Close(WAITING_APPROVAL, AwaitingUser) else Leave
    else if result.Some? && result.value.approvalId != "" then Close(WAITING_APPROVAL, AwaitingUser)
    else Leave
  }

  /** Everything has settled. The CANCELLED branch names a constant the module never imports,
      so it raises and writes nothing. */
  function Settle(task: Option<TaskView>, result: Option<RuntimeResult>, t: Tally): Verdict {
    var status, code := StatusOf(result), ErrorCodeOf(result);
    if task.Some? && task.value.status == TaskFailed then
      Close(if t.completed > 0 && (t.failed > 0 || task.value.failedSibling) then PARTIAL_SUCCESS else FAILED, RunCompleted)
    else if task.Some? && task.value.status == TaskCancelled then Raise
    else if task.Some? && task.value.status == TaskCompleted then
      Close(if t.failed > 0 then PARTIAL_SUCCESS else COMPLETED, RunCompleted)
    else if t.failed > 0 && t.completed > 0 then Close(PARTIAL_SUCCESS, RunCompleted)
    else if t.failed > 0 || status == Failed || status == Cancelled || status == MaxIterations
         || code == "AGENT_MAX_ITERATIONS" || code == "STRUCTURED_OUTPUT_INVALID"
    then Close(FAILED, RunFailed)
    else if code != "" then
      Close(if t.completed > 0 || t.failed == 0 then PARTIAL_SUCCESS else FAILED, RunCompleted)
    else Close(COMPLETED, RunCompleted)
  }

  /** The payload a close writes: the performance measurements always, and the identity of an
      approval wait. */
  function ProjectedPayload(row: Row, facts: Facts, t: Tally, status: Status): (p: Payload)
    requires status == WAITING_APPROVAL ==> t.approvals != []
    ensures p.measures == facts.measures
  {
    if status == WAITING_APPROVAL then
      row.payload.(executionId := t.approvals[0], waitingState := "WAITING_APPROVAL",
                   approvalId := if facts.approvals.Some? && t.approvals[0] in facts.approvals.value
                                 then facts.approvals.value[t.approvals[0]]
                                 else if facts.result.Some? then facts.result.value.approvalId else "",
                   measures := facts.measures)
    else row.payload.(measures := facts.measures)
  }

  /** The compare-and-swap a verdict leads to. */
  function WriteOf(runId: string, row: Row, facts: Facts, now: string): Option<Mark> {
    match Decide(runId, row, facts)
    case KeepRunning =>
      if row.status != RUNNING
      then Some(Mark(runId, RUNNING, "", "", None, Some(row.version), None, now))
      else None
    case Close(status, _) =>
      var t := TallyOf(facts.executions, Owned(facts.messages, runId));
      Some(Mark(runId, status, ErrorCodeOf(facts.result),
                if facts.result.Some? then facts.result.value.errorMessage else "",
                None, Some(row.version), Some(ProjectedPayload(row, facts, t, status)), now))
    case _ => None
  }

  // ----- counting, order-free -----

  lemma {:induction false} CountsAddUp(executions: map<string, ExecutionStatus>, owned: seq<Message>)
    ensures var t := TallyOf(executions, owned);
            && t.active + t.completed + t.failed + t.waiting == |owned|
            && |t.approvals| <= t.waiting
  {
    if owned != [] {
      CountsAddUp(executions, owned[..|owned| - 1]);
    }
  }

  /** A class is counted exactly when some owned message has it. */
  lemma {:induction false} CountPositive(executions: map<string, ExecutionStatus>, owned: seq<Message>, kind: Class)
    ensures CountClass(executions, owned, kind) > 0 <==> exists m :: m in owned && ClassOf(executions, m) == kind
  {
    if owned != [] {
      var rest, last := owned[..|owned| - 1], owned[|owned| - 1];
      assert owned == rest + [last];
      CountPositive(executions, rest, kind);
    }
  }

  lemma {:induction false} CountAppend(executions: map<string, ExecutionStatus>, a: seq<Message>, b: seq<Message>, kind: Class)
    ensures CountClass(executions, a + b, kind) == CountClass(executions, a, kind) + CountClass(executions, b, kind)
  {
    if b == [] {
      assert a + b == a;
    } else {
      assert (a + b)[..|a + b| - 1] == a + b[..|b| - 1];
      CountAppend(executions, a, b[..|b| - 1], kind);
    }
  }

  lemma Cancel<T>(x: multiset<T>, y: multiset<T>, e: T)
    requires x + multiset{e} == y + multiset{e}
    ensures x == y
  {
    assert x == (x + multiset{e}) - multiset{e};
    assert y == (y + multiset{e}) - multiset{e};
  }

  lemma RemoveOne(rest: seq<Message>, front: seq<Message>, m: Message, back: seq<Message>)
    requires multiset(rest + [m]) == multiset(front + [m] + back)
    ensures multiset(rest) == multiset(front + back)
  {
    assert multiset(rest + [m]) == multiset(rest) + multiset{m};
    assert multiset(front + [m] + back) == multiset(front) + multiset{m} + multiset(back);
    assert multiset(front + back) == multiset(front) + multiset(back);
    Cancel(multiset(rest), multiset(front + back), m);
  }

  lemma CountInsert(executions: map<string, ExecutionStatus>, front: seq<Message>, m: Message, back: seq<Message>, kind: Class)
    ensures CountClass(executions, front + [m] + back, kind)
         == CountClass(executions, front + back, kind) + (if ClassOf(executions, m) == kind then 1 else 0)
  {
    var all := front + [m];
    assert all[..|all| - 1] == front && all[|all| - 1] == m;
    CountAppend(executions, all, back, kind);
    CountAppend(executions, front, back, kind);
  }

  lemma {:induction false} CountPermutes(executions: map<string, ExecutionStatus>, a: seq<Message>, b: seq<Message>, kind: Class)
    requires multiset(a) == multiset(b)
    ensures CountClass(executions, a, kind) == CountClass(executions, b, kind)
  {
    if a == [] {
      assert |multiset(b)| == 0;
    } else {
      var rest, last := a[..|a| - 1], a[|a| - 1];
      assert a == rest + [last];
      assert last in multiset(b);
      var k :| 0 <= k < |b| && b[k] == last;
      assert b == b[..k] + [last] + b[k + 1..];
      RemoveOne(rest, b[..k], last, b[k + 1..]);
      CountPermutes(executions, rest, b[..k] + b[k + 1..], kind);
      CountInsert(executions, b[..k], last, b[k + 1..], kind);
    }
  }

  lemma {:induction false} OwnedCount(messages: seq<Message>, runId: string, m: Message)
    ensures multiset(Owned(messages, runId))[m] == if m.runId == runId then multiset(messages)[m] else 0
  {
    if messages != [] {
      var rest, last := messages[..|messages| - 1], messages[|messages| - 1];
      assert messages == rest + [last];
      OwnedCount(rest, runId, m);
      assert multiset(messages) == multiset(rest) + multiset{last};
      assert Owned(messages, runId) == Owned(rest, runId) + (if last.runId == runId then [last] else []);
    }
  }

  lemma OwnedPermutes(a: seq<Message>, b: seq<Message>, runId: string)
    requires multiset(a) == multiset(b)
    ensures multiset(Owned(a, runId)) == multiset(Owned(b, runId))
  {
    forall m
      ensures multiset(Owned(a, runId))[m] == multiset(Owned(b, runId))[m]
    {
      OwnedCount(a, runId, m);
      OwnedCount(b, runId, m);
    }
  }
}
