/** What one claim pass promises: it is sound, it leaves nothing claimable behind, it is
    first-come-first-served inside a conversation, and it makes progress. */
module ClaimLemmas {
  import opened Wrappers
  import opened Text
  import opened Runs

  // ----- the pass, one candidate at a time -----

  lemma {:induction false} ChosenPrefix(table: Table, c: ClaimRequest, window: seq<string>, k: nat)
    requires forall id :: id in window ==> id in table
    requires k <= |window|
    ensures Chosen(table, c, window[..k]) <= Chosen(table, c, window)
  {
    var n := |window|;
    if k == n {
      assert window[..k] == window;
    } else {
      assert window[..n - 1][..k] == window[..k];
      ChosenPrefix(table, c, window[..n - 1], k);
    }
  }

  lemma {:induction false} ChosenDistinct(table: Table, c: ClaimRequest, window: seq<string>)
    requires forall id :: id in window ==> id in table
    requires Distinct(window)
    ensures Distinct(Chosen(table, c, window))
  {
    if window != [] {
      var n := |window| - 1;
      ChosenDistinct(table, c, window[..n]);
      assert window[n] !in window[..n];
      assert window[n] !in Chosen(table, c, window[..n]);
    }
  }

  /** The turn of candidate `k`: it is taken exactly when the pass admits it then. */
  lemma TurnOf(table: Table, c: ClaimRequest, window: seq<string>, k: nat)
    requires forall id :: id in window ==> id in table
    requires Distinct(window)
    requires k < |window|
    ensures window[k] in Chosen(table, c, window)
       <==> Admits(table, c, Chosen(table, c, window[..k]), window[k])
  {
    var before := Chosen(table, c, window[..k]);
    assert window[..k + 1][..k] == window[..k];
    assert window[k] !in window[..k];
    ChosenPrefix(table, c, window, k + 1);
    if !Admits(table, c, before, window[k]) {
      assert Chosen(table, c, window[..k + 1]) == before;
      NotLater(table, c, window, k + 1, window[k]);
    }
  }

  lemma {:induction false} NotLater(table: Table, c: ClaimRequest, window: seq<string>, k: nat, id: string)
    requires forall x :: x in window ==> x in table
    requires k <= |window| && id !in window[k..]
    requires id !in Chosen(table, c, window[..k])
    ensures id !in Chosen(table, c, window)
  {
    var n := |window|;
    if k == n {
      assert window[..k] == window;
    } else {
      assert window[..n - 1][..k] == window[..k];
      assert forall x :: x in window[..n - 1][k..] ==> x in window[k..];
      assert window[n - 1] == window[k..][n - 1 - k];
      NotLater(table, c, window[..n - 1], k, id);
    }
  }

  // ----- counts -----

  lemma TakeOneMore(table: Table, c: ClaimRequest, ids: seq<string>, id: string)
    requires id in table && id !in ids
    ensures Taken(table, c, ids + [id]) == Taken(table, c, ids)[id := TakeRow(table[id], c)]
  {
  }

  lemma TakeCount(table: Table, c: ClaimRequest, ids: seq<string>, id: string, conversation: string)
    requires id in table && table[id].status == ACCEPTED && id !in ids
    ensures Taken(table, c, ids + [id]) == Taken(table, c, ids)[id := TakeRow(table[id], c)]
    ensures RunningIn(Taken(table, c, ids + [id]), conversation)
         == RunningIn(Taken(table, c, ids), conversation)
            + (if table[id].conversationId == conversation then 1 else 0)
  {
    var before, after := Taken(table, c, ids), Taken(table, c, ids + [id]);
    TakeOneMore(table, c, ids, id);
    if table[id].conversationId == conversation {
      assert RunningIds(after, conversation) == RunningIds(before, conversation) + {id};
    } else {
      assert RunningIds(after, conversation) == RunningIds(before, conversation);
    }
  }

  /** Taking more of the accepted rows never lowers a conversation's count. */
  lemma CountMonotone(table: Table, c: ClaimRequest, some: seq<string>, more: seq<string>, conversation: string)
    requires some <= more
    requires AllAccepted(table, more)
    ensures RunningIn(Taken(table, c, some), conversation) <= RunningIn(Taken(table, c, more), conversation)
  {
    var a := RunningIds(Taken(table, c, some), conversation);
    var b := RunningIds(Taken(table, c, more), conversation);
    assert a <= b;
    assert |b - a| == |b| - |a|;
  }

  lemma TakenNothing(table: Table, c: ClaimRequest)
    ensures Taken(table, c, []) == table
  {
  }

  /** Whether a Run is working is the same before the expiry, and after any part of the pass. */
  lemma WorkingUnchanged(before: Table, c: ClaimRequest, ids: seq<string>, id: string)
    requires id in before
    requires AllAccepted(Expired(before, c.now), ids)
    ensures Working(before[id].status) == Working(Expired(before, c.now)[id].status)
         == Working(Taken(Expired(before, c.now), c, ids)[id].status)
  {
  }

  // ----- soundness -----

  ghost predicate CapKept(table: Table, c: ClaimRequest, ids: seq<string>) {
    c.cap.Some? ==>
      forall id :: id in ids && id in table ==>
        RunningIn(Taken(table, c, ids), table[id].conversationId) <= AtLeastOne(c.cap.value)
  }

  lemma TakeKeepsCap(table: Table, c: ClaimRequest, ids: seq<string>, next: string)
    requires next in table && table[next].status == ACCEPTED && next !in ids
    requires CapKept(table, c, ids) && Admits(table, c, ids, next)
    ensures CapKept(table, c, ids + [next])
  {
    if c.cap.Some? {
      forall id | id in ids + [next] && id in table
        ensures RunningIn(Taken(table, c, ids + [next]), table[id].conversationId) <= AtLeastOne(c.cap.value)
      {
        TakeCount(table, c, ids, next, table[id].conversationId);
      }
    }
  }

  lemma {:induction false} ChosenKeepsCap(table: Table, c: ClaimRequest, window: seq<string>)
    requires AllAccepted(table, window)
    requires Distinct(window)
    ensures CapKept(table, c, Chosen(table, c, window))
  {
    if window != [] {
      var n := |window| - 1;
      var before := Chosen(table, c, window[..n]);
      ChosenKeepsCap(table, c, window[..n]);
      assert window[n] !in window[..n];
      if Admits(table, c, before, window[n]) {
        TakeKeepsCap(table, c, before, window[n]);
      }
    }
  }

  /** Nothing a pass does changes whether a Run waits for its parent. */
  lemma WaitingUnchanged(before: Table, c: ClaimRequest, ids: seq<string>, id: string)
    requires id in before && AllAccepted(Expired(before, c.now), ids)
    ensures ParentWorking(before, id) == ParentWorking(Expired(before, c.now), id)
         == ParentWorking(Taken(Expired(before, c.now), c, ids), id)
  {
    var parent := before[id].payload.followUpOf;
    if parent != "" && parent in before {
      WorkingUnchanged(before, c, ids, parent);
    }
  }

  lemma ChosenIsAdmitted(table: Table, c: ClaimRequest, window: seq<string>, id: string) returns (turn: seq<string>)
    requires AllAccepted(table, window)
    requires Distinct(window)
    requires id in Chosen(table, c, window)
    ensures Admits(table, c, turn, id)
  {
    var k :| 0 <= k < |window| && window[k] == id;
    TurnOf(table, c, window, k);
    turn := Chosen(table, c, window[..k]);
  }

  /** A pass takes at most the limit, each Run once, no conversation past its cap, and no
      follow-up whose parent is working at any point of the pass. */
  lemma PassIsSound(before: Table, c: ClaimRequest, window: seq<string>, after: Table, part: nat)
    requires ClaimPass(before, c, window, after)
    requires part <= |Chosen(Expired(before, c.now), c, window)|
    ensures var expired := Expired(before, c.now);
            var ids := Chosen(expired, c, window);
            && |ids| <= AtLeastOne(c.limit)
            && Distinct(ids)
            && (forall id :: id in ids ==>
                  && id in expired && expired[id].status == ACCEPTED
                  && after[id] == TakeRow(expired[id], c)
                  && (c.cap.Some? ==> RunningIn(after, after[id].conversationId) <= AtLeastOne(c.cap.value))
                  && !ParentWorking(before, id)
                  && !ParentWorking(Taken(expired, c, ids[..part]), id))
            && (forall id :: id in before && id !in ids ==> id in after && after[id] == ExpireRow(before[id], c.now))
  {
    var expired := Expired(before, c.now);
    var ids := Chosen(expired, c, window);
    ChosenDistinct(expired, c, window);
    ChosenKeepsCap(expired, c, window);
    forall id | id in ids
      ensures !ParentWorking(before, id) && !ParentWorking(Taken(expired, c, ids[..part]), id)
    {
      var turn := ChosenIsAdmitted(expired, c, window, id);
      WaitingUnchanged(before, c, ids[..part], id);
    }
  }

  /** A candidate left behind was blocked: by the limit, by its conversation's cap or by
      its parent, and it is still blocked in the table the pass leaves. */
  lemma PassIsMaximal(before: Table, c: ClaimRequest, window: seq<string>, after: Table, id: string)
    requires ClaimPass(before, c, window, after)
    requires id in window
    requires id !in Chosen(Expired(before, c.now), c, window)
    ensures || |Chosen(Expired(before, c.now), c, window)| == AtLeastOne(c.limit)
            || (c.cap.Some? && RunningIn(after, after[id].conversationId) >= AtLeastOne(c.cap.value))
            || ParentWorking(after, id)
  {
    var expired := Expired(before, c.now);
    var ids := Chosen(expired, c, window);
    var k :| 0 <= k < |window| && window[k] == id;
    TurnOf(expired, c, window, k);
    var turn := Chosen(expired, c, window[..k]);
    ChosenPrefix(expired, c, window, k);
    CountMonotone(expired, c, turn, ids, expired[id].conversationId);
    WaitingUnchanged(before, c, ids, id);
  }

  /** Nobody is overtaken inside a conversation, except by waiting for a parent. */
  lemma NoOvertaking(table: Table, c: ClaimRequest, window: seq<string>, i: nat, j: nat)
    requires AllAccepted(table, window)
    requires Distinct(window)
    requires i < j < |window|
    requires table[window[i]].conversationId == table[window[j]].conversationId
    requires window[j] in Chosen(table, c, window)
    ensures window[i] in Chosen(table, c, window) || ParentWorking(table, window[i])
  {
    TurnOf(table, c, window, i);
    TurnOf(table, c, window, j);
    assert window[..j][..i] == window[..i];
    ChosenPrefix(table, c, window[..j], i);
    CountMonotone(table, c, Chosen(table, c, window[..i]), Chosen(table, c, window[..j]), table[window[i]].conversationId);
  }
}
