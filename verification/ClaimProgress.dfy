/** Progress: a pass over a quiet table claims the oldest Run, and pass-then-finish rounds
    drain every accepted Run. */
module ClaimProgress {
  import opened Wrappers
  import opened Text
  import opened Runs
  import opened ClaimLemmas
  import opened RunHistory

  /** No Run works except the accepted ones. */
  ghost predicate Quiet(table: Table) {
    forall id :: id in table && Working(table[id].status) ==> table[id].status == ACCEPTED
  }

  /** A waiting follow-up was created strictly after the Run it follows. */
  ghost predicate OlderParents(table: Table) {
    forall id, parent ::
      id in table && parent in table && table[id].status == ACCEPTED && table[id].payload.followUpOf == parent
      ==> LexLess(table[parent].createdAt, table[id].createdAt)
  }

  ghost predicate Oldest(table: Table, id: string) {
    && id in table && table[id].status == ACCEPTED
    && forall other :: other in AcceptedIds(table) ==> LexLeq(table[id].createdAt, table[other].createdAt)
  }

  lemma QuietExpiry(table: Table, now: string)
    requires Quiet(table)
    ensures Expired(table, now) == table
  {
  }

  lemma QuietCount(table: Table, c: ClaimRequest, conversation: string)
    requires Quiet(table)
    ensures RunningIn(Taken(table, c, []), conversation) == 0
  {
    TakenNothing(table, c);
    assert RunningIds(table, conversation) == {};
  }

  /** The window of a nonempty set of accepted Runs opens with an oldest one. */
  lemma WindowHeadIsOldest(table: Table, window: seq<string>, n: nat)
    requires IsWindow(table, window, n) && n > 0 && AcceptedIds(table) != {}
    ensures window != [] && Oldest(table, window[0])
  {
    var some :| some in AcceptedIds(table);
    assert window != [];
    LexIrreflexive(table[window[0]].createdAt);
    forall other | other in AcceptedIds(table)
      ensures LexLeq(table[window[0]].createdAt, table[other].createdAt)
    {
      if other in window {
        var i :| 0 <= i < |window| && window[i] == other;
      }
    }
  }

  /** Nothing holds back an oldest Run of a quiet table. */
  lemma OldestIsAdmitted(table: Table, c: ClaimRequest, id: string)
    requires Quiet(table) && OlderParents(table) && Oldest(table, id)
    ensures Admits(table, c, [], id)
  {
    var parent := table[id].payload.followUpOf;
    if parent in table {
      assert parent in AcceptedIds(table) ==> LexLess(table[parent].createdAt, table[id].createdAt);
      assert parent in AcceptedIds(table) ==> LexLeq(table[id].createdAt, table[parent].createdAt);
    }
    QuietCount(table, c, table[id].conversationId);
  }

  lemma HeadIsChosen(table: Table, c: ClaimRequest, window: seq<string>)
    requires AllAccepted(table, window) && window != [] && Admits(table, c, [], window[0])
    ensures Chosen(table, c, window) != [] && Chosen(table, c, window)[0] == window[0]
  {
    assert window[..1] == [window[0]] && window[..1][..0] == [];
    assert Chosen(table, c, window[..1]) == [window[0]];
    ChosenPrefix(table, c, window, 1);
  }

  /** A pass over a quiet table with accepted Runs claims an oldest one, and claims it first. */
  lemma OldestIsClaimed(before: Table, c: ClaimRequest, window: seq<string>, after: Table)
    requires ClaimPass(before, c, window, after)
    requires Quiet(before) && OlderParents(before)
    requires AcceptedIds(before) != {}
    ensures window != [] && Oldest(before, window[0])
    ensures Chosen(before, c, window) != [] && Chosen(before, c, window)[0] == window[0]
  {
    QuietExpiry(before, c.now);
    WindowHeadIsOldest(before, window, WindowSize(c));
    OldestIsAdmitted(before, c, window[0]);
    HeadIsChosen(before, c, window);
  }

  // ----- rounds -----

  /** The outcome write of a claimed Run, with the claim's own token, to a status that holds
      nothing back. */
  ghost predicate Finishes(m: Mark, id: string, row: Row) {
    && m.runId == id
    && m.claimedBy == Some(row.claimedBy)
    && m.expectedVersion == Some(row.version)
    && !Working(m.status)
  }

  ghost predicate FinishedRow(id: string, row: Row, row': Row) {
    exists m :: Finishes(m, id, row) && row' == MarkRow(row, m)
  }

  ghost predicate Round(before: Table, c: ClaimRequest, window: seq<string>, mid: Table, after: Table) {
    && ClaimPass(before, c, window, mid)
    && after.Keys == mid.Keys
    && forall id :: id in mid ==>
         if id in Chosen(Expired(before, c.now), c, window)
         then FinishedRow(id, mid[id], after[id])
         else after[id] == mid[id]
  }

  ghost predicate IsRound(before: Table, after: Table) {
    exists c, window, mid :: Round(before, c, window, mid, after)
  }

  /** The outcome write of a Run just claimed is always accepted by the store. */
  lemma FinishApplies(before: Table, c: ClaimRequest, window: seq<string>, mid: Table, id: string, m: Mark)
    requires ClaimPass(before, c, window, mid)
    requires id in Chosen(Expired(before, c.now), c, window)
    requires Finishes(m, id, mid[id])
    ensures MarkApplies(mid, m) && Marked(mid, m)[id] == MarkRow(mid[id], m)
  {
  }

  /** What a round does to one row. */
  lemma RoundRow(before: Table, c: ClaimRequest, window: seq<string>, mid: Table, after: Table, id: string)
    requires Quiet(before) && Round(before, c, window, mid, after) && id in before
    ensures id in after && after[id].createdAt == before[id].createdAt
    ensures if id in Chosen(before, c, window) then !Working(after[id].status) else after[id] == before[id]
  {
    QuietExpiry(before, c.now);
    if id in Chosen(before, c, window) {
      var m :| Finishes(m, id, mid[id]) && after[id] == MarkRow(mid[id], m);
    }
  }

  ghost predicate Ready(table: Table) {
    Quiet(table) && OlderParents(table)
  }

  /** Every row is as before or has stopped working. */
  ghost predicate Settles(before: Table, after: Table) {
    && after.Keys == before.Keys
    && forall id :: id in before ==>
         && after[id].createdAt == before[id].createdAt
         && (after[id] == before[id] || !Working(after[id].status))
  }

  lemma SettledIsReady(before: Table, after: Table)
    requires Ready(before) && Settles(before, after)
    ensures Ready(after) && AcceptedIds(after) <= AcceptedIds(before)
  {
    forall id, parent | id in after && parent in after && after[id].status == ACCEPTED && after[id].payload.followUpOf == parent
      ensures LexLess(after[parent].createdAt, after[id].createdAt)
    {
      assert after[id] == before[id];
    }
  }

  lemma RoundSettles(before: Table, c: ClaimRequest, window: seq<string>, mid: Table, after: Table)
    requires Quiet(before) && Round(before, c, window, mid, after)
    ensures Settles(before, after)
  {
    forall id | id in before
      ensures id in after && after[id].createdAt == before[id].createdAt
      ensures after[id] == before[id] || !Working(after[id].status)
    {
      RoundRow(before, c, window, mid, after, id);
    }
    assert after.Keys == before.Keys;
  }

  /** A round starts and finishes at least one of the accepted Runs, and adds none. */
  ghost predicate Progresses(before: Table, after: Table) {
    Ready(before) ==>
      && Ready(after)
      && (AcceptedIds(before) != {} ==> |AcceptedIds(after)| < |AcceptedIds(before)|)
      && (AcceptedIds(before) == {} ==> AcceptedIds(after) == {})
  }

  lemma RoundProgresses(before: Table, c: ClaimRequest, window: seq<string>, mid: Table, after: Table)
    requires Round(before, c, window, mid, after)
    ensures Progresses(before, after)
  {
    if Ready(before) {
      RoundSettles(before, c, window, mid, after);
      SettledIsReady(before, after);
      if AcceptedIds(before) != {} {
        OldestIsClaimed(before, c, window, mid);
        RoundRow(before, c, window, mid, after, window[0]);
        Shrinks(AcceptedIds(after), AcceptedIds(before), window[0]);
      }
    }
  }

  lemma Shrinks<T>(small: set<T>, big: set<T>, x: T)
    requires small <= big && x in big && x !in small
    ensures |small| < |big|
  {
    assert |big - small| == |big| - |small|;
    assert x in big - small;
  }

  ghost predicate Rounds(tables: seq<Table>) {
    forall i, j :: 0 <= i && j == i + 1 < |tables| ==> IsRound(tables[i], tables[j])
  }

  lemma RoundAt(tables: seq<Table>, i: nat)
    requires Rounds(tables) && i + 1 < |tables|
    ensures Progresses(tables[i], tables[i + 1])
  {
    var before, after := tables[i], tables[i + 1];
    assert IsRound(before, after);
    var c, window, mid :| Round(before, c, window, mid, after);
    RoundProgresses(before, c, window, mid, after);
  }

  lemma {:induction false} RoundsShrink(tables: seq<Table>, k: nat)
    requires forall i, j :: 0 <= i && j == i + 1 < |tables| ==> Progresses(tables[i], tables[j])
    requires k < |tables| && Ready(tables[0])
    ensures Ready(tables[k])
    ensures AcceptedIds(tables[k]) == {} || |AcceptedIds(tables[k])| + k <= |AcceptedIds(tables[0])|
  {
    if k > 0 {
      RoundsShrink(tables, k - 1);
      assert Progresses(tables[k - 1], tables[k]);
    }
  }

  /** N accepted Runs are all started and finished after at most N rounds. */
  lemma RoundsDrain(tables: seq<Table>)
    requires Rounds(tables) && tables != [] && Ready(tables[0])
    requires |tables| > |AcceptedIds(tables[0])|
    ensures AcceptedIds(tables[|tables| - 1]) == {}
  {
    forall i, j | 0 <= i && j == i + 1 < |tables|
      ensures Progresses(tables[i], tables[j])
    {
      RoundAt(tables, i);
    }
    RoundsShrink(tables, |tables| - 1);
  }

  // ----- rounds of a history -----

  ghost predicate MarksRun(h: History, k: nat, id: string)
    requires k < |h.ops|
  {
    h.ops[k].OpMark? && h.ops[k].m.runId == id
  }

  ghost predicate MarkedBetween(h: History, i: nat, j: nat, id: string)
    requires j <= |h.ops|
  {
    exists k: nat :: i <= k < j && MarksRun(h, k, id)
  }

  /** What the pass at `i` took. */
  ghost function ChosenAt(h: History, i: nat): seq<string>
    requires IsHistory(h) && i < |h.ops| && h.ops[i].OpClaim?
  {
    StepAt(h, i);
    Chosen(Expired(h.tables[i], h.ops[i].c.now), h.ops[i].c, h.ops[i].window)
  }

  /** Operation `k` finishes a Run of the pass at `i`, with the token the pass gave it. */
  ghost predicate FinishesAt(h: History, i: nat, k: nat)
    requires IsHistory(h) && i < |h.ops| && h.ops[i].OpClaim? && k < |h.ops|
  {
    && h.ops[k].OpMark? && h.ops[k].m.runId in ChosenAt(h, i) && h.ops[k].m.runId in h.tables[i + 1]
    && Finishes(h.ops[k].m, h.ops[k].m.runId, h.tables[i + 1][h.ops[k].m.runId])
  }

  /** A claim pass at `i`, and then up to `j` the finishing marks of all it took, in any order. */
  ghost predicate IsRoundAt(h: History, i: nat, j: nat) {
    && IsHistory(h) && i < j <= |h.ops| && h.ops[i].OpClaim?
    && (forall k: nat :: i < k < j ==> FinishesAt(h, i, k))
    && (forall k: nat, l: nat, id :: i < k < l < j && MarksRun(h, l, id) ==> !MarksRun(h, k, id))
    && (forall id :: id in ChosenAt(h, i) ==> MarkedBetween(h, i + 1, j, id))
  }

  lemma PassAt(h: History, i: nat)
    requires IsHistory(h) && i < |h.ops| && h.ops[i].OpClaim?
    ensures ClaimPass(h.tables[i], h.ops[i].c, h.ops[i].window, h.tables[i + 1])
    ensures ChosenAt(h, i) == Chosen(Expired(h.tables[i], h.ops[i].c.now), h.ops[i].c, h.ops[i].window)
  {
    StepAt(h, i);
  }

  /** The row of `id` after the marks before `k`. */
  ghost predicate FinishedSoFar(h: History, i: nat, k: nat, id: string)
    requires IsHistory(h) && i < k <= |h.ops| && id in h.tables[i + 1]
  {
    && id in h.tables[k]
    && if MarkedBetween(h, i + 1, k, id)
       then FinishedRow(id, h.tables[i + 1][id], h.tables[k][id])
       else h.tables[k][id] == h.tables[i + 1][id]
  }

  lemma {:induction false} MarksSoFar(h: History, i: nat, j: nat, k: nat)
    requires IsRoundAt(h, i, j) && i < k <= j
    ensures h.tables[k].Keys == h.tables[i + 1].Keys
    ensures forall id :: id in h.tables[i + 1] ==> FinishedSoFar(h, i, k, id)
    decreases k
  {
    if k > i + 1 {
      MarksSoFar(h, i, j, k - 1);
      assert FinishesAt(h, i, k - 1);
      var m := h.ops[k - 1].m;
      assert MarksRun(h, k - 1, m.runId);
      assert !MarkedBetween(h, i + 1, k - 1, m.runId);
      assert FinishedSoFar(h, i, k - 1, m.runId);
      PassAt(h, i);
      FinishApplies(h.tables[i], h.ops[i].c, h.ops[i].window, h.tables[i + 1], m.runId, m);
      StepAt(h, k - 1);
      forall id | id in h.tables[i + 1]
        ensures FinishedSoFar(h, i, k, id)
      {
        assert FinishedSoFar(h, i, k - 1, id);
        if id == m.runId {
          assert h.tables[k][id] == MarkRow(h.tables[i + 1][id], m);
        } else {
          OtherMark(h, i + 1, k, id);
        }
      }
    }
  }

  lemma OtherMark(h: History, i: nat, k: nat, id: string)
    requires 0 < k <= |h.ops| && !MarksRun(h, k - 1, id)
    ensures MarkedBetween(h, i, k, id) <==> MarkedBetween(h, i, k - 1, id)
  {
    if MarkedBetween(h, i, k, id) {
      var l: nat :| i <= l < k && MarksRun(h, l, id);
      assert l != k - 1;
    }
  }

  /** A pass and the finishing marks of what it took, in any order, make a round. */
  lemma MarksMakeARound(h: History, i: nat, j: nat)
    requires IsRoundAt(h, i, j)
    ensures Round(h.tables[i], h.ops[i].c, h.ops[i].window, h.tables[i + 1], h.tables[j])
  {
    MarksSoFar(h, i, j, j);
    PassAt(h, i);
    forall id | id in h.tables[i + 1]
      ensures if id in ChosenAt(h, i) then FinishedRow(id, h.tables[i + 1][id], h.tables[j][id])
              else h.tables[j][id] == h.tables[i + 1][id]
    {
      assert FinishedSoFar(h, i, j, id);
      if MarkedBetween(h, i + 1, j, id) {
        var k: nat :| i + 1 <= k < j && MarksRun(h, k, id);
        assert FinishesAt(h, i, k);
      }
    }
  }

  /** A history cut into rounds. */
  ghost predicate CutIntoRounds(h: History, cuts: seq<nat>) {
    forall k, l :: 0 <= k && l == k + 1 < |cuts| ==> IsRoundAt(h, cuts[k], cuts[l])
  }

  /** A history of rounds that starts quiet with N accepted Runs has started and finished them all
      after at most N rounds, in whatever order each round's marks arrive. */
  lemma HistoryDrains(h: History, cuts: seq<nat>)
    requires IsHistory(h) && (forall k :: 0 <= k < |cuts| ==> cuts[k] <= |h.ops|)
    requires CutIntoRounds(h, cuts) && cuts != [] && Ready(h.tables[cuts[0]])
    requires |cuts| > |AcceptedIds(h.tables[cuts[0]])|
    ensures AcceptedIds(h.tables[cuts[|cuts| - 1]]) == {}
  {
    var tables := seq(|cuts|, k requires 0 <= k < |cuts| => h.tables[cuts[k]]);
    forall k, l | 0 <= k && l == k + 1 < |tables|
      ensures IsRound(tables[k], tables[l])
    {
      assert IsRoundAt(h, cuts[k], cuts[l]);
      MarksMakeARound(h, cuts[k], cuts[l]);
    }
    RoundsDrain(tables);
  }
}
