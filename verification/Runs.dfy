/** Run rows, and each transaction of the run store as a function from one table to the
    next: claim (lease expiry, then the claims), status marks and idempotent creation. */
module Runs {
  import opened Wrappers
  import opened Text

  /** The status column is text; `OTHER` holds every value the code never names. */
  datatype Status =
    | ACCEPTED | RUNNING | COMPLETED | PARTIAL_SUCCESS | FAILED | CANCELLED
    | WAITING_USER | WAITING_APPROVAL
    | RETRYING | WAITING_DEPENDENCY | WAITING_LANE | PAUSED
    | OTHER(name: string)

  predicate Terminal(s: Status) {
    s == COMPLETED || s == PARTIAL_SUCCESS || s == FAILED || s == CANCELLED
  }

  /** States in which a Run holds back its follow-ups. */
  predicate Working(s: Status) {
    || s == ACCEPTED || s == RUNNING || s == RETRYING || s == WAITING_DEPENDENCY
    || s == WAITING_LANE || s == WAITING_APPROVAL || s == PAUSED
  }

  /** The performance measurements that recovery looks at. */
  datatype Measures = Measures(actionloopIterations: int, toolCalls: int, javaCalls: int)

  /** The payload keys that the store, the runner and the reconciler read. */
  datatype Payload = Payload(
    followUpOf: string,
    idempotencyKey: string,
    taskId: string,
    waitingState: string,
    executionId: string,
    approvalId: string,
    executionIds: seq<string>,
    partialExecutionIds: seq<string>,
    measures: Measures)

  datatype Row = Row(
    conversationId: string,
    userId: string,
    tenantId: string,
    idempotencyKey: Option<string>,
    status: Status,
    claimedBy: string,
    leaseUntil: string,
    version: int,
    payload: Payload,
    errorCode: string,
    errorMessage: string,
    createdAt: string,
    updatedAt: string)

  type Table = map<string, Row>

  // ----- mark_status -----

  datatype Mark = Mark(
    runId: string,
    status: Status,
    errorCode: string,
    errorMessage: string,
    claimedBy: Option<string>,
    expectedVersion: Option<int>,
    payload: Option<Payload>,
    now: string)

  /** The WHERE clause of the update: terminal latch, owner and version. */
  predicate MarkMatches(row: Row, m: Mark) {
    && (!Terminal(row.status) || (Terminal(m.status) && row.status == m.status))
    && (m.claimedBy.Some? ==> row.claimedBy == m.claimedBy.value)
    && (m.expectedVersion.Some? ==> row.version == m.expectedVersion.value)
  }

  function MarkRow(row: Row, m: Mark): Row {
    row.(status := m.status, errorCode := m.errorCode, errorMessage := m.errorMessage,
         claimedBy := "", leaseUntil := "", version := row.version + 1, updatedAt := m.now,
         payload := if m.payload.Some? then m.payload.value else row.payload)
  }

  predicate MarkApplies(table: Table, m: Mark) {
    m.runId in table && MarkMatches(table[m.runId], m)
  }

  function Marked(table: Table, m: Mark): Table {
    if MarkApplies(table, m) then table[m.runId := MarkRow(table[m.runId], m)] else table
  }

  // ----- claim -----

  datatype ClaimRequest = ClaimRequest(worker: string, now: string, lease: string, limit: int, cap: Option<int>)

  function AtLeastOne(n: int): nat {
    if n < 1 then 1 else n
  }

  predicate LeaseExpired(row: Row, now: string) {
    row.status == RUNNING && row.leaseUntil != "" && LexLeq(row.leaseUntil, now)
  }

  function ExpireRow(row: Row, now: string): Row {
    if LeaseExpired(row, now) then row.(status := ACCEPTED, claimedBy := "", leaseUntil := "") else row
  }

  function Expired(table: Table, now: string): Table {
    map id | id in table :: ExpireRow(table[id], now)
  }

  function TakeRow(row: Row, c: ClaimRequest): Row {
    row.(status := RUNNING, claimedBy := c.worker, leaseUntil := c.lease,
         version := row.version + 1, updatedAt := c.now)
  }

  function Taken(table: Table, c: ClaimRequest, ids: seq<string>): Table {
    map id | id in table :: if id in ids then TakeRow(table[id], c) else table[id]
  }

  function AcceptedIds(table: Table): set<string> {
    set id | id in table && table[id].status == ACCEPTED
  }

  ghost predicate Distinct(ids: seq<string>) {
    forall i, j :: 0 <= i < j < |ids| ==> ids[i] != ids[j]
  }

  ghost predicate AllAccepted(table: Table, ids: seq<string>) {
    forall id :: id in ids ==> id in table && table[id].status == ACCEPTED
  }

  function RunningIds(table: Table, conversation: string): set<string> {
    set id | id in table && table[id].status == RUNNING && table[id].conversationId == conversation
  }

  function RunningIn(table: Table, conversation: string): nat {
    |RunningIds(table, conversation)|
  }

  /** A cap of zero is falsy: it does not widen the window, but it still caps at one. */
  function WindowSize(c: ClaimRequest): nat {
    if c.cap.Some? && c.cap.value != 0 then 4 * AtLeastOne(c.limit) else AtLeastOne(c.limit)
  }

  /** The candidate query: the `n` oldest ACCEPTED rows, in an order that ties may vary. */
  ghost predicate IsWindow(table: Table, window: seq<string>, n: nat) {
    && |window| <= n
    && Distinct(window)
    && AllAccepted(table, window)
    && (forall i, j :: 0 <= i < j < |window| ==>
          LexLeq(table[window[i]].createdAt, table[window[j]].createdAt))
    && (forall id, i :: id in AcceptedIds(table) && id !in window && 0 <= i < |window| ==>
          LexLeq(table[window[i]].createdAt, table[id].createdAt))
    && ((exists id :: id in AcceptedIds(table) && id !in window) ==> |window| == n)
  }

  predicate ParentWorking(table: Table, id: string)
    requires id in table
  {
    var parent := table[id].payload.followUpOf;
    parent != "" && parent in table && Working(table[parent].status)
  }

  /** Whether the pass takes `id` after taking `chosen`, by the true counts. */
  predicate Admits(table: Table, c: ClaimRequest, chosen: seq<string>, id: string)
    requires id in table
  {
    && |chosen| < AtLeastOne(c.limit)
    && (c.cap.Some? ==>
          RunningIn(Taken(table, c, chosen), table[id].conversationId) < AtLeastOne(c.cap.value))
    && !ParentWorking(table, id)
  }

  /** The Runs a pass takes from its window, in order; `table` has its leases expired. */
  function Chosen(table: Table, c: ClaimRequest, window: seq<string>): (ids: seq<string>)
    requires forall id :: id in window ==> id in table
    ensures forall id :: id in ids ==> id in window
    ensures |ids| <= AtLeastOne(c.limit)
  {
    if window == [] then []
    else
      var n := |window| - 1;
      var before := Chosen(table, c, window[..n]);
      if Admits(table, c, before, window[n]) then before + [window[n]] else before
  }

  /** One claim pass: expire leases, then claim from a window of the expired table. */
  ghost predicate ClaimPass(before: Table, c: ClaimRequest, window: seq<string>, after: Table) {
    var expired := Expired(before, c.now);
    && IsWindow(expired, window, WindowSize(c))
    && after == Taken(expired, c, Chosen(expired, c, window))
  }

  // ----- create -----

  datatype NewRun = NewRun(runId: string, row: Row, idempotencyKey: string)

  datatype Scope = Scope(conversationId: string, userId: string, tenantId: string, key: string)

  function KeyOf(run: NewRun): string {
    Strip(if run.idempotencyKey != "" then run.idempotencyKey else run.row.payload.idempotencyKey)
  }

  function NewScope(run: NewRun): Scope {
    Scope(run.row.conversationId, run.row.userId, run.row.tenantId, KeyOf(run))
  }

  /** The scope a row holds under the partial unique index; rows without a key hold none. */
  function RowScope(row: Row): Option<Scope> {
    if row.idempotencyKey.Some? && row.idempotencyKey.value != ""
    then Some(Scope(row.conversationId, row.userId, row.tenantId, row.idempotencyKey.value))
    else None
  }

  function Holders(table: Table, scope: Scope): set<string> {
    set id | id in table && RowScope(table[id]) == Some(scope)
  }

  /** The insert violates the primary key or the scope index. */
  predicate InsertConflicts(table: Table, run: NewRun) {
    run.runId in table || (KeyOf(run) != "" && Holders(table, NewScope(run)) != {})
  }

  /** The request with its key trimmed: what a successful insert answers, its stamps as given. */
  function Echo(run: NewRun): Row {
    run.row.(idempotencyKey := if KeyOf(run) == "" then None else Some(KeyOf(run)))
  }

  /** The stored row fills in the stamps the request left empty. */
  function InsertedRow(run: NewRun, now: string): Row {
    Echo(run).(createdAt := if run.row.createdAt == "" then now else run.row.createdAt,
                   updatedAt := if run.row.updatedAt == "" then now else run.row.updatedAt)
  }

  function Inserted(table: Table, run: NewRun, now: string): Table {
    if InsertConflicts(table, run) then table else table[run.runId := InsertedRow(run, now)]
  }

  ghost predicate UniqueScopes(table: Table) {
    forall a, b ::
      (a in table && b in table && RowScope(table[a]).Some? && RowScope(table[a]) == RowScope(table[b]))
      ==> a == b
  }

  lemma OneHolder(table: Table, scope: Scope, id: string)
    requires UniqueScopes(table) && id in Holders(table, scope)
    ensures Holders(table, scope) == {id}
  {
    forall other | other in Holders(table, scope)
      ensures other == id
    {
      assert RowScope(table[other]) == RowScope(table[id]);
    }
  }

  /** The partial unique index survives every insert. */
  lemma InsertKeepsScopes(table: Table, run: NewRun, now: string)
    requires UniqueScopes(table)
    ensures UniqueScopes(Inserted(table, run, now))
  {
    if !InsertConflicts(table, run) && KeyOf(run) != "" {
      NewScopeIsFree(table, run);
    }
  }

  lemma NewScopeIsFree(table: Table, run: NewRun)
    requires Holders(table, NewScope(run)) == {}
    ensures forall id :: id in table ==> RowScope(table[id]) != Some(NewScope(run))
  {
    forall id | id in table
      ensures RowScope(table[id]) != Some(NewScope(run))
    {
      assert id !in Holders(table, NewScope(run));
    }
  }

  lemma InsertedHolds(table: Table, run: NewRun, now: string)
    requires !InsertConflicts(table, run) && KeyOf(run) != ""
    ensures Holders(Inserted(table, run, now), NewScope(run)) == {run.runId}
  {
    var after := Inserted(table, run, now);
    NewScopeIsFree(table, run);
    assert RowScope(after[run.runId]) == Some(NewScope(run));
    forall id | id in Holders(after, NewScope(run))
      ensures id == run.runId
    {
    }
  }
}
