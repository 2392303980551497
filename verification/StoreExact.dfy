/** The other store transactions in plain terms: when a mark takes effect and what it writes, when an
    insert is refused and what it stores, and the stamps of a claim. */
module StoreExact {
  import opened Wrappers
  import opened Text
  import opened Calendar
  import opened IsoTime
  import opened Runs
  import opened RunHistory
  import opened RunStore

  /** A mark takes effect on an open row, or on a terminal row that already has its status, when its
      owner and version match; it then writes every column of the row but the identity. */
  lemma MarkWritesExactly(table: Table, m: Mark, id: string)
    requires id in table
    ensures Marked(table, m).Keys == table.Keys
    ensures Marked(table, m)[id] ==
              if && id == m.runId
                 && (table[id].status !in {COMPLETED, PARTIAL_SUCCESS, FAILED, CANCELLED} || table[id].status == m.status)
                 && (m.claimedBy == None || m.claimedBy == Some(table[id].claimedBy))
                 && (m.expectedVersion == None || m.expectedVersion == Some(table[id].version))
              then
                table[id].(status := m.status, errorCode := m.errorCode, errorMessage := m.errorMessage,
                           claimedBy := "", leaseUntil := "", version := table[id].version + 1, updatedAt := m.now,
                           payload := if m.payload == None then table[id].payload else m.payload.value)
              else table[id]
  {
  }

  /** Over any history, exactly the four terminal statuses are for ever: any other status can be
      overwritten by some mark. */
  lemma TerminalExactly(table: Table, id: string, m: Mark)
    requires id in table && m == Mark(id, m.status, "", "", None, None, None, "")
    ensures Marked(table, m)[id].status != table[id].status <==>
              m.status != table[id].status && table[id].status !in {COMPLETED, PARTIAL_SUCCESS, FAILED, CANCELLED}
  {
    MarkWritesExactly(table, m, id);
  }

  /** The key of a request, or the one in its payload when it gives none, without outer white space. */
  function RequestKey(run: NewRun): string {
    Strip(if run.idempotencyKey == "" then run.row.payload.idempotencyKey else run.idempotencyKey)
  }

  /** Another row has the same conversation, user, tenant and key. */
  predicate SameScope(row: Row, run: NewRun) {
    && row.conversationId == run.row.conversationId && row.userId == run.row.userId
    && row.tenantId == run.row.tenantId && row.idempotencyKey == Some(RequestKey(run))
  }

  lemma SameKey(run: NewRun)
    ensures KeyOf(run) == RequestKey(run)
  {
  }

  lemma HoldsScope(row: Row, run: NewRun)
    requires KeyOf(run) == RequestKey(run) != ""
    ensures RowScope(row) == Some(NewScope(run)) <==> SameScope(row, run)
  {
  }

  ghost predicate Refused(table: Table, run: NewRun) {
    run.runId in table || (RequestKey(run) != "" && exists id :: id in table && SameScope(table[id], run))
  }

  lemma RefusedExactly(table: Table, run: NewRun)
    ensures InsertConflicts(table, run) <==> Refused(table, run)
  {
    SameKey(run);
    if RequestKey(run) != "" {
      forall id | id in table
        ensures id in Holders(table, NewScope(run)) <==> SameScope(table[id], run)
      {
        HoldsScope(table[id], run);
      }
      if id :| id in table && SameScope(table[id], run) {
        assert id in Holders(table, NewScope(run));
      }
    }
  }

  lemma StoredRow(run: NewRun, now: string)
    ensures InsertedRow(run, now) == run.row.(
              idempotencyKey := if RequestKey(run) == "" then None else Some(RequestKey(run)),
              createdAt := if run.row.createdAt == "" then now else run.row.createdAt,
              updatedAt := if run.row.updatedAt == "" then now else run.row.updatedAt)
  {
    SameKey(run);
  }

  /** An insert is refused exactly when the run id is taken or, for a key that is not blank, some row
      has its scope; otherwise it stores the request with the trimmed key and the missing stamps. */
  lemma InsertWritesExactly(table: Table, run: NewRun, now: string)
    ensures Inserted(table, run, now) ==
              if Refused(table, run) then table
              else table[run.runId := run.row.(
                     idempotencyKey := if RequestKey(run) == "" then None else Some(RequestKey(run)),
                     createdAt := if run.row.createdAt == "" then now else run.row.createdAt,
                     updatedAt := if run.row.updatedAt == "" then now else run.row.updatedAt)]
  {
    RefusedExactly(table, run);
    StoredRow(run, now);
  }

  /** A successful insert answers the request with the trimmed key and its stamps as given. */
  lemma EchoExactly(run: NewRun)
    ensures Echo(run) == run.row.(idempotencyKey := if RequestKey(run) == "" then None else Some(RequestKey(run)))
  {
    SameKey(run);
  }

  /** A lookup finds the rows with the same conversation, user, tenant and trimmed key. */
  lemma HoldersExactly(table: Table, scope: Scope, id: string)
    requires Strip(scope.key) != ""
    ensures id in Holders(table, Trimmed(scope)) <==>
              && id in table
              && table[id].conversationId == scope.conversationId && table[id].userId == scope.userId
              && table[id].tenantId == scope.tenantId && table[id].idempotencyKey == Some(Strip(scope.key))
  {
  }

  /** A lease ends a whole number of seconds, at least one, after the claim, and there is none when
      that lies past the last microsecond of 31 December 9999. */
  lemma LeaseExactly(now: Instant, leaseSeconds: int)
    ensures var end := now + (if leaseSeconds < 1 then 1 else leaseSeconds) * 1_000_000;
            LeaseStamp(now, leaseSeconds) ==
              if end < Ordinal(Date(9999, 12, 31)) * 86_400_000_000 then Some(Iso(end)) else None
  {
    LastDay();
  }

  /** The claim request carries what the caller gave. */
  lemma RequestExactly(worker: string, now: Instant, leaseSeconds: int, limit: int, cap: Option<int>)
    ensures var c := Request(worker, now, leaseSeconds, limit, cap);
            && c.worker == worker && c.now == Iso(now) && c.limit == limit && c.cap == cap
            && (LeaseStamp(now, leaseSeconds).Some? ==> Some(c.lease) == LeaseStamp(now, leaseSeconds))
  {
  }
}
