/** The writes of the runner in plain terms: the row that each ending of a claimed Run leaves, the
    payload it carries, and the row that recovery leaves. */
module OutcomeExact {
  import opened Wrappers
  import opened Runs
  import opened RunHistory
  import opened RunStore
  import opened RuntimeResults
  import opened AgentRunner

  /** The result reports work that was accepted and will end later. */
  predicate AcceptsWork(result: RuntimeResult) {
    || result.status in {Running, Queued, Submitted, WaitingExternal}
    || result.executionIds != []
    || exists s :: s in result.parallelStatuses && s in {Running, Queued, Submitted, WaitingExternal}
  }

  predicate Awaits(result: RuntimeResult) {
    result.status in {WaitingHuman, WaitingApproval, AskUser}
  }

  /** Operation `j` is a mark of the Run claimed at `i`, with the given ending, and takes effect. */
  ghost predicate WritesOutcome(h: History, i: nat, id: string, ending: Ending, now: string, mark: nat, j: nat) {
    && IsHistory(h) && i < j < |h.ops| && ClaimsAt(h, i, id) && id in h.tables[i + 1]
    && mark < |OutcomeMarks(ClaimedRun(h, i, id), ending, now)|
    && h.ops[j] == OpMark(OutcomeMarks(ClaimedRun(h, i, id), ending, now)[mark])
    && MarkApplies(h.tables[j], h.ops[j].m)
  }

  /** The row a written outcome leaves: everything but its status. */
  ghost predicate LeavesRow(h: History, id: string, j: nat, status: Status, code: string, message: string,
                            payload: Option<Payload>, now: string)
    requires IsHistory(h) && j < |h.ops|
  {
    && id in h.tables[j] && id in h.tables[j + 1]
    && var row := h.tables[j][id];
       h.tables[j + 1][id] == row.(status := status, errorCode := code, errorMessage := message,
                                   claimedBy := "", leaseUntil := "", version := row.version + 1, updatedAt := now,
                                   payload := if payload == None then row.payload else payload.value)
  }

  /** A written outcome leaves the Run RUNNING exactly when work was accepted; otherwise COMPLETED
      exactly on success, WAITING_APPROVAL exactly when it awaits its user and names an execution
      and an approval, WAITING_USER exactly when it awaits its user without one of them, and FAILED
      in all other cases. */
  lemma OutcomeExactly(h: History, i: nat, id: string, result: RuntimeResult, payload: Payload, now: string, j: nat)
    requires WritesOutcome(h, i, id, Returned(result, false, payload), now, 0, j)
    ensures id in h.tables[j + 1]
    ensures var status := h.tables[j + 1][id].status;
            && (status == RUNNING <==> AcceptsWork(result))
            && (status == COMPLETED <==> !AcceptsWork(result) && result.success)
            && (status == WAITING_APPROVAL <==>
                  !AcceptsWork(result) && !result.success && Awaits(result) && result.executionId != "" && result.approvalId != "")
            && (status == WAITING_USER <==>
                  !AcceptsWork(result) && !result.success && Awaits(result) && (result.executionId == "" || result.approvalId == ""))
            && (status == FAILED <==> !AcceptsWork(result) && !result.success && !Awaits(result))
  {
    StepAt(h, j);
  }

  /** It carries the error and the payload of the result, and gives up the claim. */
  lemma OutcomeRow(h: History, i: nat, id: string, result: RuntimeResult, payload: Payload, now: string, j: nat)
    requires WritesOutcome(h, i, id, Returned(result, false, payload), now, 0, j)
    ensures id in h.tables[j + 1]
    ensures LeavesRow(h, id, j, h.tables[j + 1][id].status, result.errorCode, result.errorMessage, Some(payload), now)
  {
    StepAt(h, j);
  }

  /** The outcome of a result that accepted nothing is COMPLETED for good exactly on success. */
  lemma SuccessIsForGood(h: History, i: nat, id: string, result: RuntimeResult, payload: Payload, now: string, j: nat, l: nat)
    requires WritesOutcome(h, i, id, Returned(result, false, payload), now, 0, j) && j < l <= |h.ops|
    requires !AcceptsWork(result) && result.success
    ensures id in h.tables[l] && h.tables[l][id].status == COMPLETED
  {
    OutcomeExactly(h, i, id, result, payload, now, j);
    TerminalIsFinal(h, j + 1, l, id);
  }

  /** It is FAILED for good when it is no success and awaits nobody. */
  lemma FailureIsForGood(h: History, i: nat, id: string, result: RuntimeResult, payload: Payload, now: string, j: nat, l: nat)
    requires WritesOutcome(h, i, id, Returned(result, false, payload), now, 0, j) && j < l <= |h.ops|
    requires !AcceptsWork(result) && !result.success && !Awaits(result)
    ensures id in h.tables[l] && h.tables[l][id].status == FAILED
  {
    OutcomeExactly(h, i, id, result, payload, now, j);
    TerminalIsFinal(h, j + 1, l, id);
  }

  /** An execution that raised leaves the Run FAILED for good, with its message. */
  lemma RaisedExactly(h: History, i: nat, id: string, message: string, now: string, j: nat, l: nat)
    requires WritesOutcome(h, i, id, ExecuteRaised(message), now, 0, j) && j < l <= |h.ops|
    ensures LeavesRow(h, id, j, FAILED, "AGENT_RUN_FAILED", if message == "" then "Agent run failed" else message, None, now)
    ensures id in h.tables[l] && h.tables[l][id].status == FAILED
  {
    StepAt(h, j);
    TerminalIsFinal(h, j + 1, l, id);
  }

  /** A failed projection leaves the Run FAILED for good, whatever the execution returned. */
  lemma ProjectionFailureExactly(h: History, i: nat, id: string, result: RuntimeResult, payload: Payload, now: string, j: nat, l: nat)
    requires WritesOutcome(h, i, id, Returned(result, true, payload), now, 0, j) && j < l <= |h.ops|
    ensures LeavesRow(h, id, j, FAILED, "RUN_RESULT_PROJECTION_FAILED", "任务结果同步失败，请稍后重试。", None, now)
    ensures id in h.tables[l] && h.tables[l][id].status == FAILED
  {
    StepAt(h, j);
    TerminalIsFinal(h, j + 1, l, id);
  }

  // ----- the payload -----

  /** The position of the first occurrence. */
  function First(ids: seq<string>, id: string): (k: nat)
    requires id in ids
    ensures k < |ids| && ids[k] == id && id !in ids[..k]
  {
    if ids[0] == id then 0
    else
      var k := First(ids[1..], id) + 1;
      assert ids[..k] == [ids[0]] + ids[1..][..k - 1];
      k
  }

  lemma {:induction false} FirstOfFront(ids: seq<string>, more: seq<string>, id: string)
    requires id in ids
    ensures First(ids + more, id) == First(ids, id)
  {
    if ids[0] != id {
      assert (ids + more)[1..] == ids[1..] + more;
      FirstOfFront(ids[1..], more, id);
    }
  }

  lemma {:induction false} FirstOfNew(ids: seq<string>, id: string)
    requires id !in ids
    ensures First(ids + [id], id) == |ids|
  {
    if ids != [] {
      assert (ids + [id])[1..] == ids[1..] + [id];
      assert forall x :: x in ids[1..] ==> x in ids;
      FirstOfNew(ids[1..], id);
    }
  }

  /** Each id once, in the order of its first occurrence. */
  ghost predicate FirstOccurrences(all: seq<string>, ids: seq<string>) {
    && (forall id :: id in ids <==> id in all)
    && (forall i, j :: 0 <= i < j < |ids| ==> First(all, ids[i]) < First(all, ids[j]))
  }

  lemma {:induction false} MergedIsFirstOccurrences(ids: seq<string>)
    ensures FirstOccurrences(ids, Merged([], ids))
  {
    if ids != [] {
      var n := |ids| - 1;
      var rest, last := ids[..n], ids[n];
      MergedIsFirstOccurrences(rest);
      assert ids == rest + [last];
      var before, after := Merged([], rest), Merged([], ids);
      forall i, j | 0 <= i < j < |after|
        ensures First(ids, after[i]) < First(ids, after[j])
      {
        assert after[i] in before;
        FirstOfFront(rest, [last], after[i]);
        if j < |before| {
          FirstOfFront(rest, [last], after[j]);
        } else {
          FirstOfNew(rest, last);
        }
      }
    }
  }

  lemma LastOfConcat(a: seq<string>, b: seq<string>)
    requires b != []
    ensures (a + b)[..|a + b| - 1] == a + b[..|b| - 1] && (a + b)[|a + b| - 1] == b[|b| - 1]
  {
  }

  lemma {:induction false} MergedTwice(known: seq<string>, more: seq<string>)
    ensures Merged(Merged([], known), more) == Merged([], known + more)
  {
    if more == [] {
      assert known + more == known;
    } else {
      var n := |more| - 1;
      MergedTwice(known, more[..n]);
      LastOfConcat(known, more);
    }
  }

  /** What an outcome writes into the payload: identities the result names replace the old ones, the
      execution ids are the old and the new ones, each once in the order of first occurrence and
      without empty ones, when the result brings any, and a waiting result leaves its status text. */
  lemma OutcomePayloadExactly(p: Payload, result: RuntimeResult, measures: Measures)
    ensures var q := OutcomePayload(p, result, measures);
            && q == p.(executionId := q.executionId, approvalId := q.approvalId, executionIds := q.executionIds,
                       waitingState := q.waitingState, measures := measures)
            && q.executionId == (if result.executionId == "" then p.executionId else result.executionId)
            && q.approvalId == (if result.approvalId == "" then p.approvalId else result.approvalId)
            && ((forall id :: id in result.executionIds ==> id == "") ==> q.executionIds == p.executionIds)
            && ((exists id :: id in result.executionIds && id != "") ==>
                  FirstOccurrences(NonEmpty(p.executionIds) + NonEmpty(result.executionIds), q.executionIds))
            && q.waitingState == (if result.status == WaitingHuman then "WAITING_HUMAN"
                                  else if result.status == WaitingApproval then "WAITING_APPROVAL"
                                  else if result.status == AskUser then "ASK_USER"
                                  else p.waitingState)
  {
    var former, added := NonEmpty(p.executionIds), NonEmpty(result.executionIds);
    MergedTwice(former, added);
    MergedIsFirstOccurrences(former + added);
    forall id | id in result.executionIds && id != ""
      ensures id in added
    {
    }
    forall k | 0 <= k < |added|
      ensures added[k] in result.executionIds && added[k] != ""
    {
    }
  }

  lemma NonEmptyOne(id: string)
    ensures NonEmpty([id]) == if id == "" then [] else [id]
  {
    assert [id][..0] == [];
  }

  /** `NonEmpty` keeps the order: it is what is left when the empty texts are struck out. */
  lemma {:induction false} NonEmptyConcat(a: seq<string>, b: seq<string>)
    ensures NonEmpty(a + b) == NonEmpty(a) + NonEmpty(b)
  {
    if b == [] {
      assert a + b == a;
    } else {
      var n := |b| - 1;
      NonEmptyConcat(a, b[..n]);
      LastOfConcat(a, b);
      if b[n] != "" {
        assert NonEmpty(b) == NonEmpty(b[..n]) + [b[n]];
      } else {
        assert NonEmpty(b) == NonEmpty(b[..n]) + [] == NonEmpty(b[..n]);
      }
    }
  }

  // ----- recovery -----

  /** Nothing names an execution. */
  predicate NamesNone(p: Payload) {
    p.executionId == "" && p.executionIds == [] && p.partialExecutionIds == []
  }

  /** Recovery closes a RUNNING row without owner, lease and execution as a stale latch; it closes a
      RUNNING row that failed after a side effect, without execution and with all measurements zero,
      as one that made no progress; and it leaves every other row alone. */
  lemma RecoveredExactly(id: string, row: Row, now: string)
    ensures RecoveredRow(id, row, now) ==
              if row.status == RUNNING && NamesNone(row.payload) && row.claimedBy == "" && row.leaseUntil == "" then
                row.(status := FAILED, errorCode := "AGENT_RUN_STALE_LATCH", errorMessage := "任务运行状态已失效，请重新提交。",
                     claimedBy := "", leaseUntil := "", version := row.version + 1, updatedAt := now)
              else if && row.status == RUNNING && NamesNone(row.payload)
                      && row.errorCode == "ACTION_LOOP_AFTER_SIDE_EFFECT"
                      && row.payload.measures.actionloopIterations == 0 && row.payload.measures.toolCalls == 0
                      && row.payload.measures.javaCalls == 0
              then
                row.(status := FAILED, errorCode := "ACTION_LOOP_NO_PROGRESS", errorMessage := "执行在产生副作用前中断，未提交写入。",
                     claimedBy := "", leaseUntil := "", version := row.version + 1, updatedAt := now)
              else row
  {
  }
}
