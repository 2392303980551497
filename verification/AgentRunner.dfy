/** The in-process runner: the outcome writes of one claimed Run, and startup recovery. */
module AgentRunner {
  import opened Wrappers
  import opened Text
  import opened IsoTime
  import opened Runs
  import opened RunHistory
  import opened RunStore
  import opened RuntimeResults

  // ----- `_process`: the writes of one claimed Run -----

  predicate AcceptedExecution(result: RuntimeResult) {
    || IsSubmission(result.status)
    || result.executionIds != []
    || exists s :: s in result.parallelStatuses && IsSubmission(s)
  }

  function NextStatus(result: RuntimeResult): Status {
    if AcceptedExecution(result) then RUNNING
    else if result.success then COMPLETED
    else if AwaitsUser(result.status) then
      if result.executionId != "" && result.approvalId != "" then WAITING_APPROVAL else WAITING_USER
    else FAILED
  }

  /** `dict.fromkeys`: first occurrences, in order. */
  function Merged(known: seq<string>, more: seq<string>): (r: seq<string>)
    ensures forall id :: id in r <==> id in known || id in more
  {
    if more == [] then known
    else
      var before := Merged(known, more[..|more| - 1]);
      var last := more[|more| - 1];
      if last in before then before else before + [last]
  }

  function NonEmpty(ids: seq<string>): (r: seq<string>)
    ensures forall id :: id in r <==> id in ids && id != ""
  {
    if ids == [] then []
    else NonEmpty(ids[..|ids| - 1]) + (if ids[|ids| - 1] == "" then [] else [ids[|ids| - 1]])
  }

  /** The upper-cased text of a status in which a Run waits for its user. */
  function WaitingText(s: ResultStatus): string
    requires AwaitsUser(s)
  {
    if s == WaitingHuman then "WAITING_HUMAN" else if s == WaitingApproval then "WAITING_APPROVAL" else "ASK_USER"
  }

  /** Merges the identities of the result into the payload; measurements are parameters. */
  function OutcomePayload(p: Payload, result: RuntimeResult, measures: Measures): Payload {
    p.(executionId := if result.executionId != "" then result.executionId else p.executionId,
       approvalId := if result.approvalId != "" then result.approvalId else p.approvalId,
       executionIds := if NonEmpty(result.executionIds) == [] then p.executionIds
                       else Merged(Merged([], NonEmpty(p.executionIds)), NonEmpty(result.executionIds)),
       waitingState := if AwaitsUser(result.status) then WaitingText(result.status) else p.waitingState,
       measures := measures)
  }

  /** How the executor and the result handler ended. */
  datatype Ending =
    | ExecuteRaised(message: string)
    | Returned(result: RuntimeResult, handlerRaised: bool, payload: Payload)

  function TokenMark(run: Run, status: Status, code: string, message: string, payload: Option<Payload>, now: string): Mark {
    Mark(run.runId, status, code, message, Some(run.row.claimedBy), Some(run.row.version), payload, now)
  }

  /** The marks `_process` issues, in order. After a failed projection it still goes on to the
      ordinary outcome write. */
  function OutcomeMarks(run: Run, ending: Ending, now: string): seq<Mark> {
    match ending
    case ExecuteRaised(message) =>
      [TokenMark(run, FAILED, "AGENT_RUN_FAILED", if message == "" then "Agent run failed" else message, None, now)]
    case Returned(result, handlerRaised, payload) =>
      (if handlerRaised
       then [TokenMark(run, FAILED, "RUN_RESULT_PROJECTION_FAILED", "任务结果同步失败，请稍后重试。", None, now)]
       else [])
      + [TokenMark(run, NextStatus(result), result.errorCode, result.errorMessage, Some(payload), now)]
  }

  /** The Run as the claim at `i` returned it. */
  ghost function ClaimedRun(h: History, i: nat, id: string): Run
    requires IsHistory(h) && i < |h.ops| && id in h.tables[i + 1]
  {
    Run(id, h.tables[i + 1][id])
  }

  /** One claimed Run writes its row at most once: whatever else runs in between, at most one
      of the marks of its `_process` takes effect, namely the first one and only when nothing
      touched the row since the claim. */
  lemma ProcessWritesAtMostOnce(h: History, i: nat, id: string, ending: Ending, now: string,
                                p: nat, q: nat, j: nat, l: nat)
    requires IsHistory(h) && i < j < l < |h.ops| && ClaimsAt(h, i, id) && id in h.tables[i + 1]
    requires var marks := OutcomeMarks(ClaimedRun(h, i, id), ending, now);
             && p < q < |marks|
             && h.ops[j] == OpMark(marks[p]) && h.ops[l] == OpMark(marks[q])
    ensures !MarkApplies(h.tables[l], h.ops[l].m) && h.tables[l + 1] == h.tables[l]
    ensures h.ops[i].c.worker != "" ==>
              (MarkApplies(h.tables[j], h.ops[j].m) <==> NeverTouched(h, i + 1, j, id))
  {
    ClaimGrants(h, i, id);
    Fencing(h, i, j, id, h.ops[j].m);
    SecondOutcomeIsDead(h, i, j, l, id, h.ops[j].m, h.ops[l].m);
    StepAt(h, l);
  }

  /** After a projection failure that took effect, the Run is FAILED for good, whatever outcome
      the execution had. */
  lemma ProjectionFailureWins(h: History, i: nat, id: string, result: RuntimeResult, payload: Payload,
                              now: string, j: nat, l: nat)
    requires IsHistory(h) && i < j < l <= |h.ops| && ClaimsAt(h, i, id) && id in h.tables[i + 1]
    requires h.ops[j] == OpMark(OutcomeMarks(ClaimedRun(h, i, id), Returned(result, true, payload), now)[0])
    requires MarkApplies(h.tables[j], h.ops[j].m)
    ensures id in h.tables[l] && h.tables[l][id].status == FAILED
  {
    StepAt(h, j);
    TerminalIsFinal(h, j + 1, l, id);
  }

  /** An accepted submission that took effect leaves a Run no claim pass can reach. */
  lemma SubmissionHandsOff(h: History, i: nat, id: string, result: RuntimeResult, payload: Payload,
                           now: string, j: nat, l: nat)
    requires IsHistory(h) && i < j < l <= |h.ops| && ClaimsAt(h, i, id) && id in h.tables[i + 1]
    requires AcceptedExecution(result)
    requires h.ops[j] == OpMark(OutcomeMarks(ClaimedRun(h, i, id), Returned(result, false, payload), now)[0])
    requires MarkApplies(h.tables[j], h.ops[j].m)
    requires forall k :: j < k < l ==> TouchAt(h, k, id) != Remarked
    ensures id in h.tables[l] && h.tables[l][id] == MarkRow(h.tables[j][id], h.ops[j].m)
    ensures h.tables[l][id].status == RUNNING && NeverTouched(h, j + 1, l, id)
  {
    StepAt(h, j);
    RunningMarkHandsOff(h, j, l, id);
  }

  // ----- the lease -----

  /** A lease granted at `t` is expired by a pass at `t'` exactly from its end on. */
  lemma LeaseRunsToItsEnd(row: Row, t: Instant, leaseSeconds: int, t': Instant)
    requires row.status == RUNNING && LeaseStamp(t, leaseSeconds) == Some(row.leaseUntil)
    ensures LeaseExpired(row, Iso(t')) <==> t' >= t + (if leaseSeconds < 1 then 1 else leaseSeconds) * SECOND
  {
    StampOrder(LeaseEnd(t, leaseSeconds), t');
    assert |Iso(LeaseEnd(t, leaseSeconds))| > 0;
  }

  /** Over any history: the next pass at `t'` resets or reclaims an otherwise untouched claim
      of instant `t` exactly when its lease has run out. */
  lemma LeaseIsExact(h: History, i: nat, k: nat, id: string, worker: string, t: Instant,
                     leaseSeconds: int, limit: int, cap: Option<int>, t': Instant)
    requires IsHistory(h) && i < k < |h.ops|
    requires ClaimsAt(h, i, id) && h.ops[i].c == Request(worker, t, leaseSeconds, limit, cap)
    requires LeaseStamp(t, leaseSeconds).Some?
    requires NeverTouched(h, i + 1, k, id)
    requires h.ops[k].OpClaim? && h.ops[k].c.now == Iso(t')
    ensures TouchAt(h, k, id) != Untouched
       <==> t' >= t + (if leaseSeconds < 1 then 1 else leaseSeconds) * SECOND
  {
    LeaseHeld(h, i, k, id);
    PassTouchesExpired(h, k, id);
    LeaseRunsToItsEnd(h.tables[k][id], t, leaseSeconds, t');
  }

  lemma LeaseHeld(h: History, i: nat, k: nat, id: string)
    requires IsHistory(h) && i < k < |h.ops| && ClaimsAt(h, i, id) && NeverTouched(h, i + 1, k, id)
    ensures id in h.tables[k] && h.tables[k][id].status == RUNNING
    ensures h.tables[k][id].leaseUntil == h.ops[i].c.lease
  {
    ClaimGrants(h, i, id);
    UntouchedIsSame(h, i + 1, k, id);
  }

  /** A pass touches a RUNNING row exactly when its lease has expired. */
  lemma PassTouchesExpired(h: History, k: nat, id: string)
    requires IsHistory(h) && k < |h.ops| && h.ops[k].OpClaim?
    requires id in h.tables[k] && h.tables[k][id].status == RUNNING
    ensures TouchAt(h, k, id) != Untouched <==> LeaseExpired(h.tables[k][id], h.ops[k].c.now)
  {
    StepAt(h, k);
  }

  lemma {:induction false} UntouchedIsSame(h: History, i: nat, j: nat, id: string)
    requires IsHistory(h) && i <= j <= |h.ops| && id in h.tables[i]
    requires NeverTouched(h, i, j, id)
    ensures id in h.tables[j] && h.tables[j][id] == h.tables[i][id]
    decreases j - i
  {
    if i < j {
      UntouchedIsSame(h, i, j - 1, id);
      RowStepAt(h, j - 1, id);
    }
  }

  // ----- startup recovery -----

  predicate HasExecution(p: Payload) {
    p.executionId != "" || p.executionIds != [] || p.partialExecutionIds != []
  }

  /** RUNNING with no owner, no lease and no execution: nothing will ever move this row. */
  predicate StaleLatch(row: Row) {
    row.status == RUNNING && row.claimedBy == "" && row.leaseUntil == "" && !HasExecution(row.payload)
  }

  predicate NoProgress(row: Row) {
    && row.status == RUNNING && row.errorCode == "ACTION_LOOP_AFTER_SIDE_EFFECT"
    && !HasExecution(row.payload)
    && row.payload.measures == Measures(0, 0, 0)
  }

  function StaleMark(id: string, row: Row, now: string): Mark {
    Mark(id, FAILED, "AGENT_RUN_STALE_LATCH", "任务运行状态已失效，请重新提交。", None, Some(row.version), None, now)
  }

  function NoProgressMark(id: string, row: Row, now: string): Mark {
    Mark(id, FAILED, "ACTION_LOOP_NO_PROGRESS", "执行在产生副作用前中断，未提交写入。",
         Some(row.claimedBy), Some(row.version), None, now)
  }

  function RecoveredRow(id: string, row: Row, now: string): Row {
    if StaleLatch(row) then MarkRow(row, StaleMark(id, row, now))
    else if NoProgress(row) then MarkRow(row, NoProgressMark(id, row, now))
    else row
  }

  function Recovered(table: Table, now: string): Table {
    map id | id in table :: RecoveredRow(id, table[id], now)
  }

  /** The scan over the active rows, one compare-and-swap at a time. */
  method RecoverNonSubmittedRuns(store: AgentRunStore, now: string)
    modifies store
    ensures store.table == Recovered(old(store.table), now)
  {
    ghost var before := store.table;
    var ids := store.ListActive();
    var snapshot := store.table;
    var k := 0;
    while k < |ids|
      invariant 0 <= k <= |ids|
      invariant store.table.Keys == before.Keys
      invariant forall id :: id in before ==>
                  store.table[id] == if id in ids[..k] then RecoveredRow(id, before[id], now) else before[id]
    {
      var id := ids[k];
      var row := snapshot[id];
      assert id !in ids[..k];
      if row.status == RUNNING {
        if StaleLatch(row) {
          var changed := store.MarkStatus(StaleMark(id, row, now));
        } else if NoProgress(row) {
          var changed := store.MarkStatus(NoProgressMark(id, row, now));
        }
      }
      assert ids[..k + 1] == ids[..k] + [id];
      k := k + 1;
    }
    assert ids[..k] == ids;
  }

  lemma RecoveredForGood(id: string, row: Row, now: string, later: string)
    ensures var once := RecoveredRow(id, row, now);
            && !StaleLatch(once) && RecoveredRow(id, once, later) == once
            && (once != row <==> StaleLatch(row) || NoProgress(row))
  {
  }

  /** Recovery run alone: no stale latch is left; a row changes only from RUNNING to FAILED and
      only when it carries no execution id; and a second scan changes nothing. */
  lemma RecoverySettles(table: Table, now: string, later: string)
    ensures forall id :: id in Recovered(table, now) ==> !StaleLatch(Recovered(table, now)[id])
    ensures forall id :: id in table && Recovered(table, now)[id] != table[id] ==>
              && table[id].status == RUNNING && Recovered(table, now)[id].status == FAILED
              && !HasExecution(table[id].payload)
    ensures forall id :: id in table && (StaleLatch(table[id]) || NoProgress(table[id])) ==>
              Recovered(table, now)[id] != table[id]
    ensures Recovered(Recovered(table, now), later) == Recovered(table, now)
  {
    var once := Recovered(table, now);
    forall id | id in once
      ensures RecoveredRow(id, once[id], later) == once[id] && !StaleLatch(once[id])
    {
      RecoveredForGood(id, table[id], now, later);
    }
    forall id | id in table
      ensures table[id] != once[id] <==> StaleLatch(table[id]) || NoProgress(table[id])
    {
      RecoveredForGood(id, table[id], now, later);
    }
  }

  /** An outcome names an execution: the claimed payload already did, or the result does. */
  predicate NamesExecution(p: Payload, result: RuntimeResult) {
    HasExecution(p) || result.executionId != "" || exists id :: id in result.executionIds && id != ""
  }

  lemma OutcomeKeepsIdentity(p: Payload, result: RuntimeResult, measures: Measures)
    ensures HasExecution(OutcomePayload(p, result, measures)) <==> NamesExecution(p, result)
  {
    var added := NonEmpty(result.executionIds);
    if id :| id in result.executionIds && id != "" {
      assert id in added;
      assert id in Merged(Merged([], NonEmpty(p.executionIds)), added);
    }
    if added != [] {
      assert added[0] in added;
    }
  }

  /** A submission the runner handed off survives a restart exactly when some execution is named;
      an accepted submission without any identity is closed as FAILED by the next recovery. */
  lemma RestartKeepsSubmissionExactly(run: Run, row: Row, result: RuntimeResult, measures: Measures,
                                      now: string, later: string)
    requires AcceptedExecution(result)
    ensures var payload := OutcomePayload(run.row.payload, result, measures);
            var after := MarkRow(row, OutcomeMarks(run, Returned(result, false, payload), now)[0]);
            && (RecoveredRow(run.runId, after, later) == after <==> NamesExecution(run.row.payload, result))
            && (!NamesExecution(run.row.payload, result) ==> RecoveredRow(run.runId, after, later).status == FAILED)
  {
    OutcomeKeepsIdentity(run.row.payload, result, measures);
  }

  /** A row no reset can reach is still the same row while its version is. */
  lemma {:induction false} SameVersionSameRow(h: History, a: nat, b: nat, id: string)
    requires IsHistory(h) && a <= b <= |h.ops| && id in h.tables[a]
    requires h.tables[a][id].status != RUNNING || h.tables[a][id].leaseUntil == ""
    ensures id in h.tables[b] && h.tables[a][id].version <= h.tables[b][id].version
    ensures h.tables[a][id].version == h.tables[b][id].version ==> h.tables[b][id] == h.tables[a][id]
    decreases b - a
  {
    if a < b {
      SameVersionSameRow(h, a, b - 1, id);
      RowStepAt(h, b - 1, id);
    }
  }

  /** Recovery racing with everything else: the stale-latch mark of a snapshot takes effect
      exactly when the row is still the stale latch that was read. */
  lemma RecoveryRaceIsSafe(h: History, a: nat, b: nat, id: string, now: string)
    requires IsHistory(h) && a <= b <= |h.ops| && id in h.tables[a]
    requires StaleLatch(h.tables[a][id])
    ensures MarkApplies(h.tables[b], StaleMark(id, h.tables[a][id], now))
       <==> id in h.tables[b] && h.tables[b][id] == h.tables[a][id]
  {
    SameVersionSameRow(h, a, b, id);
  }

  /** The row after its lease ran out. */
  function ResetRow(row: Row): Row {
    row.(status := ACCEPTED, claimedBy := "", leaseUntil := "")
  }

  /** A RUNNING row is still the same, or has lost its lease, while its version is. */
  lemma {:induction false} SameVersionOrReset(h: History, a: nat, b: nat, id: string)
    requires IsHistory(h) && a <= b <= |h.ops| && id in h.tables[a] && h.tables[a][id].status == RUNNING
    ensures id in h.tables[b] && h.tables[a][id].version <= h.tables[b][id].version
    ensures h.tables[a][id].version == h.tables[b][id].version ==>
              || h.tables[b][id] == h.tables[a][id]
              || (h.tables[a][id].leaseUntil != "" && h.tables[b][id] == ResetRow(h.tables[a][id]))
    decreases b - a
  {
    if a < b {
      SameVersionOrReset(h, a, b - 1, id);
      RowStepAt(h, b - 1, id);
    }
  }

  /** The no-progress mark of a snapshot takes effect exactly when the row is still the one that was
      read; its owner guards it against a lease reset, which keeps the version, unless that owner is
      empty. */
  lemma NoProgressRaceExactly(h: History, a: nat, b: nat, id: string, now: string)
    requires IsHistory(h) && a <= b <= |h.ops| && id in h.tables[a]
    requires NoProgress(h.tables[a][id])
    ensures var read := h.tables[a][id];
            MarkApplies(h.tables[b], NoProgressMark(id, read, now)) <==>
              && id in h.tables[b]
              && (|| h.tables[b][id] == read
                  || (read.claimedBy == "" && read.leaseUntil != ""
                      && h.tables[b][id] == read.(status := ACCEPTED, claimedBy := "", leaseUntil := "")))
  {
    SameVersionOrReset(h, a, b, id);
  }
}
