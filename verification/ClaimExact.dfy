/** The claim pass in plain terms: which candidates a pass takes, what it writes, and how wide its
    window is, without the vocabulary of the pass itself. */
module ClaimExact {
  import opened Wrappers
  import opened Text
  import opened Runs
  import opened ClaimLemmas

  /** The parent of a follow-up in one of the seven states in which it still works. */
  predicate HasWorkingParent(table: Table, row: Row) {
    && row.payload.followUpOf != "" && row.payload.followUpOf in table
    && table[row.payload.followUpOf].status in
         {ACCEPTED, RUNNING, RETRYING, WAITING_DEPENDENCY, WAITING_LANE, WAITING_APPROVAL, PAUSED}
  }

  /** The candidates before position `k` that the pass took. */
  function TakenBefore(after: Table, window: seq<string>, k: nat): set<string>
    requires k <= |window|
  {
    set id | id in window[..k] && id in after && after[id].status == RUNNING
  }

  /** The RUNNING Runs of a conversation when candidate `k` has its turn. */
  function RunningAtTurn(after: Table, window: seq<string>, k: nat, conversation: string): set<string>
    requires k <= |window|
  {
    set id | id in after && after[id].status == RUNNING && after[id].conversationId == conversation
             && (id in window ==> id in window[..k])
  }

  lemma SetOfDistinct(ids: seq<string>)
    requires Distinct(ids)
    ensures |set id | id in ids| == |ids|
  {
    if ids != [] {
      var n := |ids| - 1;
      SetOfDistinct(ids[..n]);
      assert ids[n] !in ids[..n];
      assert ids == ids[..n] + [ids[n]];
      assert (set id | id in ids) == (set id | id in ids[..n]) + {ids[n]};
    }
  }

  lemma ChosenSize(table: Table, c: ClaimRequest, window: seq<string>)
    requires forall id :: id in window ==> id in table
    requires Distinct(window)
    ensures |set id | id in Chosen(table, c, window)| == |Chosen(table, c, window)|
  {
    ChosenDistinct(table, c, window);
    SetOfDistinct(Chosen(table, c, window));
  }

  /** Whether a candidate is taken does not depend on the candidates after it. */
  lemma TakenByTurn(table: Table, c: ClaimRequest, window: seq<string>, k: nat, id: string)
    requires AllAccepted(table, window) && k <= |window|
    requires Distinct(window)
    ensures id in Chosen(table, c, window[..k]) <==> id in window[..k] && id in Chosen(table, c, window)
  {
    if id in window[..k] {
      var j :| 0 <= j < k && window[..k][j] == id;
      TurnOf(table, c, window, j);
      TurnOf(table, c, window[..k], j);
      assert window[..k][..j] == window[..j];
    }
  }

  lemma AfterStatus(before: Table, c: ClaimRequest, window: seq<string>, after: Table, id: string)
    requires ClaimPass(before, c, window, after)
    ensures id in after <==> id in before
    ensures id in window ==> id in after && (after[id].status == RUNNING <==> id in Chosen(Expired(before, c.now), c, window))
    ensures id in after ==> after[id].conversationId == before[id].conversationId
  {
  }

  lemma TakenCounted(before: Table, c: ClaimRequest, window: seq<string>, after: Table, k: nat)
    requires ClaimPass(before, c, window, after) && k <= |window|
    ensures |TakenBefore(after, window, k)| == |Chosen(Expired(before, c.now), c, window[..k])|
  {
    var expired := Expired(before, c.now);
    var turn := Chosen(expired, c, window[..k]);
    ChosenSize(expired, c, window[..k]);
    forall id
      ensures id in TakenBefore(after, window, k) <==> id in turn
    {
      TakenByTurn(expired, c, window, k, id);
      AfterStatus(before, c, window, after, id);
    }
    assert TakenBefore(after, window, k) == set id | id in turn;
  }

  lemma RunningCounted(before: Table, c: ClaimRequest, window: seq<string>, after: Table, k: nat, conversation: string)
    requires ClaimPass(before, c, window, after) && k <= |window|
    ensures var expired := Expired(before, c.now);
            |RunningAtTurn(after, window, k, conversation)|
            == RunningIn(Taken(expired, c, Chosen(expired, c, window[..k])), conversation)
  {
    var expired := Expired(before, c.now);
    var turn := Chosen(expired, c, window[..k]);
    forall id
      ensures id in RunningAtTurn(after, window, k, conversation) <==> id in RunningIds(Taken(expired, c, turn), conversation)
    {
      TakenByTurn(expired, c, window, k, id);
      AfterStatus(before, c, window, after, id);
    }
    assert RunningAtTurn(after, window, k, conversation) == RunningIds(Taken(expired, c, turn), conversation);
  }

  lemma ParentInPlainTerms(before: Table, c: ClaimRequest, id: string)
    requires id in before
    ensures ParentWorking(Expired(before, c.now), id) <==> HasWorkingParent(before, before[id])
  {
  }

  /** A candidate is taken exactly when, at its turn, fewer Runs than the limit have been taken,
      its conversation has fewer RUNNING Runs than the cap, and its parent is not in one of the
      seven working states. */
  lemma TakenExactly(before: Table, c: ClaimRequest, window: seq<string>, after: Table, k: nat)
    requires ClaimPass(before, c, window, after) && k < |window|
    ensures var id := window[k];
            && id in before && id in after && (after[id].status == ACCEPTED || after[id].status == RUNNING)
            && (after[id].status == RUNNING <==>
                  && |TakenBefore(after, window, k)| < (if c.limit < 1 then 1 else c.limit)
                  && (c.cap.Some? ==>
                        |RunningAtTurn(after, window, k, before[id].conversationId)| < (if c.cap.value < 1 then 1 else c.cap.value))
                  && !HasWorkingParent(before, before[id]))
  {
    var id := window[k];
    var expired := Expired(before, c.now);
    TurnOf(expired, c, window, k);
    AfterStatus(before, c, window, after, id);
    TakenCounted(before, c, window, after, k);
    RunningCounted(before, c, window, after, k, before[id].conversationId);
    ParentInPlainTerms(before, c, id);
  }

  /** What a pass leaves of every row. */
  lemma PassWritesExactly(before: Table, c: ClaimRequest, window: seq<string>, after: Table, id: string)
    requires ClaimPass(before, c, window, after) && id in before
    ensures id in after
    ensures after[id] ==
              if id in window && after[id].status == RUNNING then
                before[id].(status := RUNNING, claimedBy := c.worker, leaseUntil := c.lease,
                            version := before[id].version + 1, updatedAt := c.now)
              else if before[id].status == RUNNING && before[id].leaseUntil != "" && !LexLess(c.now, before[id].leaseUntil) then
                before[id].(status := ACCEPTED, claimedBy := "", leaseUntil := "")
              else before[id]
  {
    AfterStatus(before, c, window, after, id);
  }

  /** The Runs a pass may look at: accepted ones, and RUNNING ones whose lease has run out. */
  function Claimable(before: Table, now: string): set<string> {
    set id | id in before && (before[id].status == ACCEPTED
               || (before[id].status == RUNNING && before[id].leaseUntil != "" && !LexLess(now, before[id].leaseUntil)))
  }

  lemma ClaimableIsAccepted(before: Table, now: string)
    ensures AcceptedIds(Expired(before, now)) == Claimable(before, now)
  {
  }

  lemma FullWindow(table: Table, window: seq<string>, n: nat)
    requires IsWindow(table, window, n)
    ensures forall id :: id in window ==> id in AcceptedIds(table)
    ensures |window| == if |AcceptedIds(table)| < n then |AcceptedIds(table)| else n
  {
    SetOfDistinct(window);
    var inside := set id | id in window;
    assert inside <= AcceptedIds(table);
    Missing(AcceptedIds(table), inside);
    if |window| < n {
      assert AcceptedIds(table) - inside == {};
    }
  }

  lemma Missing(all: set<string>, some: set<string>)
    requires some <= all
    ensures |all| == |some| + |all - some|
  {
    assert |all - some| == |all| - |some|;
  }

  /** The window holds claimable Runs only, and as many as there are up to its size: the limit, or
      four times the limit under a cap that is not zero. */
  lemma WindowIsFull(before: Table, c: ClaimRequest, window: seq<string>, after: Table)
    requires ClaimPass(before, c, window, after)
    ensures forall id :: id in window ==> id in Claimable(before, c.now)
    ensures var size := (if c.cap.Some? && c.cap.value != 0 then 4 else 1) * (if c.limit < 1 then 1 else c.limit);
            |window| == if |Claimable(before, c.now)| < size then |Claimable(before, c.now)| else size
  {
    ClaimableIsAccepted(before, c.now);
    FullWindow(Expired(before, c.now), window, WindowSize(c));
  }

  /** The follow-up of a Run that waits for approval stays ACCEPTED. */
  lemma ApprovalHoldsFollowUp(before: Table, c: ClaimRequest, window: seq<string>, after: Table, parent: string, id: string)
    requires ClaimPass(before, c, window, after) && id in window
    requires parent != "" && parent in before && before[parent].status == WAITING_APPROVAL
    requires id in before && before[id].payload.followUpOf == parent
    ensures id in after && after[id].status == ACCEPTED
  {
    var k :| 0 <= k < |window| && window[k] == id;
    TakenExactly(before, c, window, after, k);
  }
}
