/** Runs of the protocol: any interleaving of the store's transactions, by any workers,
    reconcilers and API calls, at any stamps. */
module RunHistory {
  import opened Wrappers
  import opened Runs

  /** `OpIdle` is a lookup, or a claim that raised and rolled back. */
  datatype Op =
    | OpCreate(run: NewRun, now: string)
    | OpClaim(c: ClaimRequest, window: seq<string>)
    | OpMark(m: Mark)
    | OpIdle

  ghost predicate Enabled(table: Table, op: Op) {
    op.OpClaim? ==> IsWindow(Expired(table, op.c.now), op.window, WindowSize(op.c))
  }

  ghost predicate Next(table: Table, op: Op, table': Table) {
    match op
    case OpCreate(run, now) => table' == Inserted(table, run, now)
    case OpClaim(c, window) => ClaimPass(table, c, window, table')
    case OpMark(m) => table' == Marked(table, m)
    case OpIdle => table' == table
  }

  /** `tables[k]` is the table before `ops[k]`. */
  datatype History = History(tables: seq<Table>, ops: seq<Op>)

  ghost predicate IsStep(h: History, k: nat)
    requires |h.tables| == |h.ops| + 1 && k < |h.ops|
  {
    Next(h.tables[k], h.ops[k], h.tables[k + 1])
  }

  ghost predicate IsHistory(h: History) {
    && |h.tables| == |h.ops| + 1
    && forall k: nat :: k < |h.ops| ==> IsStep(h, k)
  }

  /** What one operation does to one row. */
  datatype Touch = Untouched | Reset | Claimed | Remarked

  ghost function TouchOf(table: Table, op: Op, id: string): Touch
    requires Enabled(table, op)
  {
    match op
    case OpCreate(_, _) => Untouched
    case OpClaim(c, window) =>
      if id in Chosen(Expired(table, c.now), c, window) then Claimed
      else if id in table && LeaseExpired(table[id], c.now) then Reset
      else Untouched
    case OpMark(m) => if m.runId == id && MarkApplies(table, m) then Remarked else Untouched
    case OpIdle => Untouched
  }

  lemma StepAt(h: History, k: nat)
    requires IsHistory(h) && k < |h.ops|
    ensures Next(h.tables[k], h.ops[k], h.tables[k + 1])
    ensures Enabled(h.tables[k], h.ops[k])
  {
    assert IsStep(h, k);
  }

  ghost function TouchAt(h: History, k: nat, id: string): Touch
    requires IsHistory(h) && k < |h.ops|
  {
    StepAt(h, k);
    TouchOf(h.tables[k], h.ops[k], id)
  }

  /** What a touch of each kind does to a row; `Claimed` may include a lease expiry first. */
  ghost predicate TouchEffect(row: Row, touch: Touch, row': Row) {
    match touch
    case Untouched => row' == row
    case Reset =>
      && row.status == RUNNING && row.leaseUntil != ""
      && row' == row.(status := ACCEPTED, claimedBy := "", leaseUntil := "")
    case Claimed =>
      && (row.status == ACCEPTED || (row.status == RUNNING && row.leaseUntil != ""))
      && row'.status == RUNNING && row'.version == row.version + 1
    case Remarked =>
      && row'.version == row.version + 1 && row'.claimedBy == "" && row'.leaseUntil == ""
      && (Terminal(row.status) ==> row'.status == row.status)
  }

  /** The effect of one step on an existing row, by the kind of touch. */
  lemma RowStep(table: Table, op: Op, table': Table, id: string)
    requires Next(table, op, table') && Enabled(table, op) && id in table
    ensures id in table'
    ensures RowScope(table'[id]) == RowScope(table[id])
    ensures table'[id].createdAt == table[id].createdAt
    ensures TouchEffect(table[id], TouchOf(table, op, id), table'[id])
  {
    if op.OpClaim? && id in Chosen(Expired(table, op.c.now), op.c, op.window) {
      assert Expired(table, op.c.now)[id].status == ACCEPTED;
    }
  }

  lemma RowStepAt(h: History, k: nat, id: string)
    requires IsHistory(h) && k < |h.ops| && id in h.tables[k]
    ensures id in h.tables[k + 1]
    ensures RowScope(h.tables[k + 1][id]) == RowScope(h.tables[k][id])
    ensures TouchEffect(h.tables[k][id], TouchAt(h, k, id), h.tables[k + 1][id])
  {
    StepAt(h, k);
    RowStep(h.tables[k], h.ops[k], h.tables[k + 1], id);
  }

  /** Rows are never removed and never change scope. */
  lemma {:induction false} RowsStay(h: History, i: nat, j: nat, id: string)
    requires IsHistory(h) && i <= j <= |h.ops| && id in h.tables[i]
    ensures id in h.tables[j] && RowScope(h.tables[j][id]) == RowScope(h.tables[i][id])
    decreases j - i
  {
    if i < j {
      RowsStay(h, i, j - 1, id);
      RowStepAt(h, j - 1, id);
    }
  }

  // ----- the life of one row -----

  ghost predicate IsTrace(rows: seq<Row>, touches: seq<Touch>) {
    && |rows| == |touches| + 1
    && forall k, l :: 0 <= k && l == k + 1 <= |touches| ==> TouchEffect(rows[k], touches[k], rows[l])
  }

  lemma TraceFront(rows: seq<Row>, touches: seq<Touch>)
    requires IsTrace(rows, touches) && touches != []
    ensures var n := |touches| - 1;
            && IsTrace(rows[..n + 1], touches[..n])
            && TouchEffect(rows[n], touches[n], rows[n + 1])
  {
  }

  ghost function TouchesOf(h: History, i: nat, j: nat, id: string): (touches: seq<Touch>)
    requires IsHistory(h) && i <= j <= |h.ops|
    ensures |touches| == j - i
    ensures forall k :: 0 <= k < j - i ==> touches[k] == TouchAt(h, i + k, id)
  {
    seq(j - i, k requires 0 <= k < j - i => TouchAt(h, i + k, id))
  }

  /** The touch at step `k` of the history is in the list. */
  lemma TouchListed(h: History, i: nat, j: nat, id: string, k: nat)
    requires IsHistory(h) && i <= k < j <= |h.ops|
    ensures TouchesOf(h, i, j, id)[k - i] == TouchAt(h, k, id)
  {
    assert i + (k - i) == k;
  }

  ghost predicate Stays(h: History, i: nat, j: nat, id: string)
    requires IsHistory(h) && i <= j <= |h.ops|
  {
    forall k :: i <= k <= j ==> id in h.tables[k]
  }

  ghost function RowsOf(h: History, i: nat, j: nat, id: string): (rows: seq<Row>)
    requires IsHistory(h) && i <= j <= |h.ops| && Stays(h, i, j, id)
    ensures |rows| == j - i + 1
    ensures forall k :: 0 <= k <= j - i ==> rows[k] == h.tables[i + k][id]
  {
    seq(j - i + 1, k requires 0 <= k < j - i + 1 => h.tables[i + k][id])
  }

  lemma RowsStayThrough(h: History, i: nat, j: nat, id: string)
    requires IsHistory(h) && i <= j <= |h.ops| && id in h.tables[i]
    ensures Stays(h, i, j, id)
  {
    forall k | i <= k <= j
      ensures id in h.tables[k]
    {
      RowsStay(h, i, k, id);
    }
  }

  lemma TraceStep(h: History, i: nat, j: nat, id: string, k: nat)
    requires IsHistory(h) && i <= j <= |h.ops| && Stays(h, i, j, id) && k < j - i
    ensures TouchEffect(RowsOf(h, i, j, id)[k], TouchesOf(h, i, j, id)[k], RowsOf(h, i, j, id)[k + 1])
  {
    RowStepAt(h, i + k, id);
    assert RowsOf(h, i, j, id)[k + 1] == h.tables[i + (k + 1)][id];
  }

  /** One row of a history, step by step. */
  lemma TraceOf(h: History, i: nat, j: nat, id: string)
    requires IsHistory(h) && i <= j <= |h.ops| && id in h.tables[i]
    ensures Stays(h, i, j, id) && IsTrace(RowsOf(h, i, j, id), TouchesOf(h, i, j, id))
    ensures RowsOf(h, i, j, id)[0] == h.tables[i][id] && RowsOf(h, i, j, id)[j - i] == h.tables[j][id]
  {
    RowsStayThrough(h, i, j, id);
    forall k, l | 0 <= k && l == k + 1 <= j - i
      ensures TouchEffect(RowsOf(h, i, j, id)[k], TouchesOf(h, i, j, id)[k], RowsOf(h, i, j, id)[l])
    {
      TraceStep(h, i, j, id, k);
    }
    assert h.tables[i + (j - i)] == h.tables[j];
  }

  // ----- the terminal latch -----

  lemma {:induction false} TerminalIsFinal(h: History, i: nat, j: nat, id: string)
    requires IsHistory(h) && i <= j <= |h.ops|
    requires id in h.tables[i] && Terminal(h.tables[i][id].status)
    ensures id in h.tables[j] && h.tables[j][id].status == h.tables[i][id].status
    decreases j - i
  {
    if i < j {
      TerminalIsFinal(h, i, j - 1, id);
      RowStepAt(h, j - 1, id);
    }
  }

  /** Operation `k` takes the Run from an open status to a terminal one. */
  ghost predicate ClosesAt(h: History, k: nat, id: string)
    requires IsHistory(h) && k < |h.ops|
  {
    && id in h.tables[k] && !Terminal(h.tables[k][id].status)
    && id in h.tables[k + 1] && Terminal(h.tables[k + 1][id].status)
  }

  /** Whatever races, one writer closes a Run. */
  lemma ClosedOnce(h: History, k: nat, l: nat, id: string)
    requires IsHistory(h) && k < |h.ops| && l < |h.ops|
    requires ClosesAt(h, k, id) && ClosesAt(h, l, id)
    ensures k == l
  {
    if k < l {
      TerminalIsFinal(h, k + 1, l, id);
    } else if l < k {
      TerminalIsFinal(h, l + 1, k, id);
    }
  }

  // ----- fencing -----

  ghost predicate ClaimsAt(h: History, i: nat, id: string)
    requires IsHistory(h) && i < |h.ops|
  {
    h.ops[i].OpClaim? && TouchAt(h, i, id) == Claimed
  }

  lemma ClaimGrants(h: History, i: nat, id: string)
    requires IsHistory(h) && i < |h.ops| && ClaimsAt(h, i, id)
    ensures id in h.tables[i] && id in h.tables[i + 1]
    ensures h.tables[i + 1][id].status == RUNNING
    ensures h.tables[i + 1][id].claimedBy == h.ops[i].c.worker
    ensures h.tables[i + 1][id].leaseUntil == h.ops[i].c.lease
  {
    StepAt(h, i);
  }

  /** The mark carries the token of claim `i`: its worker id and its version. */
  ghost predicate CarriesToken(h: History, i: nat, id: string, m: Mark)
    requires IsHistory(h) && i < |h.ops|
  {
    && id in h.tables[i + 1]
    && m.runId == id
    && h.ops[i].OpClaim? && m.claimedBy == Some(h.ops[i].c.worker)
    && m.expectedVersion == Some(h.tables[i + 1][id].version)
  }

  ghost predicate NeverTouched(h: History, i: nat, j: nat, id: string)
    requires IsHistory(h) && j <= |h.ops|
  {
    forall k :: i <= k < j ==> TouchAt(h, k, id) == Untouched
  }

  /** No claim and no successful mark; with an empty worker id, resets do not show. */
  ghost predicate Harmless(touch: Touch, worker: string) {
    touch == Untouched || (worker == "" && touch == Reset)
  }

  ghost predicate TokenLives(h: History, i: nat, j: nat, id: string, worker: string)
    requires IsHistory(h) && j <= |h.ops|
  {
    forall k :: i <= k < j ==> Harmless(TouchAt(h, k, id), worker)
  }

  ghost predicate AllHarmless(touches: seq<Touch>, worker: string) {
    forall k :: 0 <= k < |touches| ==> Harmless(touches[k], worker)
  }

  ghost predicate TokenHolds(row: Row, version: int, worker: string) {
    row.version == version && row.claimedBy == worker && !Terminal(row.status)
  }

  ghost predicate TokenDead(row: Row, version: int, worker: string) {
    row.version > version || (row.version == version && row.claimedBy == "" != worker)
  }

  lemma TokenStep(row: Row, touch: Touch, row': Row, version: int, worker: string)
    requires TouchEffect(row, touch, row')
    ensures TokenDead(row, version, worker) ==> TokenDead(row', version, worker)
    ensures TokenHolds(row, version, worker) ==>
              if Harmless(touch, worker) then TokenHolds(row', version, worker) else TokenDead(row', version, worker)
  {
  }

  lemma {:induction false} TraceFate(rows: seq<Row>, touches: seq<Touch>, worker: string)
    requires IsTrace(rows, touches)
    requires TokenHolds(rows[0], rows[0].version, worker)
    ensures if AllHarmless(touches, worker)
            then TokenHolds(rows[|touches|], rows[0].version, worker)
            else TokenDead(rows[|touches|], rows[0].version, worker)
    decreases |touches|
  {
    if touches != [] {
      var n := |touches| - 1;
      TraceFront(rows, touches);
      TraceFate(rows[..n + 1], touches[..n], worker);
      TokenStep(rows[n], touches[n], rows[n + 1], rows[0].version, worker);
      assert AllHarmless(touches, worker) <==> AllHarmless(touches[..n], worker) && Harmless(touches[n], worker);
    }
  }

  lemma HarmlessThroughout(h: History, i: nat, j: nat, id: string, worker: string)
    requires IsHistory(h) && i <= j <= |h.ops|
    ensures TokenLives(h, i, j, id, worker) <==> AllHarmless(TouchesOf(h, i, j, id), worker)
  {
    forall k | i <= k < j
      ensures TouchesOf(h, i, j, id)[k - i] == TouchAt(h, k, id)
    {
      TouchListed(h, i, j, id, k);
    }
  }

  lemma TokenFate(h: History, i: nat, j: nat, id: string, worker: string)
    requires IsHistory(h) && i <= j <= |h.ops| && id in h.tables[i]
    requires h.tables[i][id].claimedBy == worker && !Terminal(h.tables[i][id].status)
    ensures id in h.tables[j]
    ensures if TokenLives(h, i, j, id, worker)
            then TokenHolds(h.tables[j][id], h.tables[i][id].version, worker)
            else TokenDead(h.tables[j][id], h.tables[i][id].version, worker)
  {
    TraceOf(h, i, j, id);
    TraceFate(RowsOf(h, i, j, id), TouchesOf(h, i, j, id), worker);
    HarmlessThroughout(h, i, j, id, worker);
  }

  /** Fencing: an outcome write with a claim's token takes effect exactly when no claim, no
      successful mark and no lease reset touched the row since that claim. With an empty
      worker id the reset leaves the token valid. */
  lemma Fencing(h: History, i: nat, j: nat, id: string, outcome: Mark)
    requires IsHistory(h) && i < j <= |h.ops|
    requires ClaimsAt(h, i, id) && CarriesToken(h, i, id, outcome)
    ensures MarkApplies(h.tables[j], outcome) <==> TokenLives(h, i + 1, j, id, h.ops[i].c.worker)
    ensures h.ops[i].c.worker != "" ==>
              (MarkApplies(h.tables[j], outcome) <==> NeverTouched(h, i + 1, j, id))
  {
    ClaimGrants(h, i, id);
    TokenFate(h, i + 1, j, id, h.ops[i].c.worker);
  }

  /** A dead token stays dead, whoever claims the row later. */
  lemma DeadTokenStaysDead(h: History, i: nat, j: nat, l: nat, id: string, first: Mark, second: Mark)
    requires IsHistory(h) && i < j <= l <= |h.ops|
    requires ClaimsAt(h, i, id) && CarriesToken(h, i, id, first) && CarriesToken(h, i, id, second)
    requires !MarkApplies(h.tables[j], first)
    ensures !MarkApplies(h.tables[l], second)
  {
    Fencing(h, i, j, id, first);
    Fencing(h, i, l, id, second);
  }

  /** Of two outcome writes with one token, the second never takes effect. */
  lemma SecondOutcomeIsDead(h: History, i: nat, j: nat, l: nat, id: string, first: Mark, second: Mark)
    requires IsHistory(h) && i < j < l <= |h.ops|
    requires ClaimsAt(h, i, id) && CarriesToken(h, i, id, first) && CarriesToken(h, i, id, second)
    requires h.ops[j] == OpMark(first)
    ensures !MarkApplies(h.tables[l], second)
  {
    Fencing(h, i, l, id, second);
    StepAt(h, j);
    if MarkApplies(h.tables[j], first) {
      assert TouchAt(h, j, id) == Remarked;
    } else {
      DeadTokenStaysDead(h, i, j, l, id, first, second);
    }
  }

  // ----- hand-off -----

  /** Neither an expiry nor a claim can touch a RUNNING row with an empty lease. */
  lemma {:induction false} TraceHandedOff(rows: seq<Row>, touches: seq<Touch>)
    requires IsTrace(rows, touches)
    requires rows[0].status == RUNNING && rows[0].leaseUntil == ""
    requires Remarked !in touches
    ensures forall k :: 0 <= k < |touches| ==> touches[k] == Untouched
    ensures rows[|touches|] == rows[0]
    decreases |touches|
  {
    if touches != [] {
      TraceFront(rows, touches);
      TraceHandedOff(rows[..|touches|], touches[..|touches| - 1]);
    }
  }

  /** A Run handed off as RUNNING with an empty lease is out of reach of every claim pass: until
      the next successful mark the row stays as it is and no pass returns it. */
  lemma HandOffIsFinal(h: History, i: nat, j: nat, id: string)
    requires IsHistory(h) && i <= j <= |h.ops|
    requires id in h.tables[i] && h.tables[i][id].status == RUNNING && h.tables[i][id].leaseUntil == ""
    requires forall k :: i <= k < j ==> TouchAt(h, k, id) != Remarked
    ensures id in h.tables[j] && h.tables[j][id] == h.tables[i][id]
    ensures NeverTouched(h, i, j, id)
  {
    TraceOf(h, i, j, id);
    TraceHandedOff(RowsOf(h, i, j, id), TouchesOf(h, i, j, id));
    forall k | i <= k < j
      ensures TouchAt(h, k, id) == Untouched
    {
      TouchListed(h, i, j, id, k);
    }
  }

  /** `mark_status(RUNNING)` is such a hand-off. */
  lemma RunningMarkHandsOff(h: History, i: nat, j: nat, id: string)
    requires IsHistory(h) && i < j <= |h.ops|
    requires h.ops[i].OpMark? && h.ops[i].m.status == RUNNING && TouchAt(h, i, id) == Remarked
    requires forall k :: i < k < j ==> TouchAt(h, k, id) != Remarked
    ensures id in h.tables[j] && h.tables[j][id] == MarkRow(h.tables[i][id], h.ops[i].m)
    ensures NeverTouched(h, i + 1, j, id)
  {
    StepAt(h, i);
    HandOffIsFinal(h, i + 1, j, id);
  }

  // ----- reconcilers -----

  /** A reconciler invocation that read the open row at `a` and whose compare-and-swap, with the
      version it read, wrote a terminal status at `b`: only then does it emit its event. */
  ghost predicate EmitsTerminal(h: History, a: nat, b: nat, id: string)
    requires IsHistory(h) && b < |h.ops|
  {
    && a <= b && id in h.tables[a] && !Terminal(h.tables[a][id].status)
    && h.ops[b].OpMark?
    && h.ops[b].m.runId == id && Terminal(h.ops[b].m.status)
    && h.ops[b].m.expectedVersion == Some(h.tables[a][id].version)
    && MarkApplies(h.tables[b], h.ops[b].m)
  }

  /** While the version is the one read, an open row is still open (though it may have been
      reset without a version bump). */
  lemma {:induction false} VersionKeepsOpen(h: History, a: nat, b: nat, id: string)
    requires IsHistory(h) && a <= b <= |h.ops|
    requires id in h.tables[a] && !Terminal(h.tables[a][id].status)
    ensures id in h.tables[b] && h.tables[a][id].version <= h.tables[b][id].version
    ensures h.tables[a][id].version == h.tables[b][id].version ==> !Terminal(h.tables[b][id].status)
    decreases b - a
  {
    if a < b {
      VersionKeepsOpen(h, a, b - 1, id);
      RowStepAt(h, b - 1, id);
    }
  }

  /** With any number of reconcilers in any interleaving, one invocation at most emits a terminal
      event for a Run, and the status it wrote stays. */
  lemma OneTerminalEmission(h: History, a: nat, b: nat, a': nat, b': nat, id: string, j: nat)
    requires IsHistory(h) && b < |h.ops| && b' < |h.ops|
    requires EmitsTerminal(h, a, b, id) && EmitsTerminal(h, a', b', id)
    requires b < j <= |h.ops|
    ensures b == b'
    ensures ClosesAt(h, b, id)
    ensures id in h.tables[j] && h.tables[j][id].status == h.ops[b].m.status
  {
    EmissionCloses(h, a, b, id);
    EmissionCloses(h, a', b', id);
    ClosedOnce(h, b, b', id);
    TerminalIsFinal(h, b + 1, j, id);
  }

  lemma EmissionCloses(h: History, a: nat, b: nat, id: string)
    requires IsHistory(h) && b < |h.ops| && EmitsTerminal(h, a, b, id)
    ensures ClosesAt(h, b, id) && h.tables[b + 1][id].status == h.ops[b].m.status
  {
    VersionKeepsOpen(h, a, b, id);
    StepAt(h, b);
  }

  // ----- idempotent accept -----

  /** A create call whose insert ran at `a`, and whose lookup after a violated key read the
      table at `b`, returns `id`. */
  ghost predicate CreateReturns(h: History, a: nat, b: nat, run: NewRun, id: string)
    requires IsHistory(h) && a < |h.ops|
  {
    && a < b <= |h.ops|
    && h.ops[a].OpCreate? && h.ops[a].run == run
    && if InsertConflicts(h.tables[a], run)
       then id in Holders(h.tables[b], NewScope(run))
       else id == run.runId
  }

  lemma {:induction false} ScopesStayUnique(h: History, j: nat)
    requires IsHistory(h) && UniqueScopes(h.tables[0]) && j <= |h.ops|
    ensures UniqueScopes(h.tables[j])
  {
    if j > 0 {
      ScopesStayUnique(h, j - 1);
      StepAt(h, j - 1);
      var before, op, after := h.tables[j - 1], h.ops[j - 1], h.tables[j];
      forall id | id in before
        ensures id in after && RowScope(after[id]) == RowScope(before[id])
      {
        RowStep(before, op, after, id);
      }
      if op.OpCreate? {
        InsertKeepsScopes(before, op.run, op.now);
      }
    }
  }

  /** The Run a create returns holds its scope when the create returns. */
  lemma ReturnsAHolder(h: History, a: nat, b: nat, run: NewRun, id: string)
    requires IsHistory(h) && a < |h.ops|
    requires KeyOf(run) != "" && CreateReturns(h, a, b, run, id)
    ensures id in Holders(h.tables[b], NewScope(run))
  {
    if !InsertConflicts(h.tables[a], run) {
      StepAt(h, a);
      RowsStay(h, a + 1, b, id);
    }
  }

  lemma ReturnedRunHolds(h: History, a: nat, b: nat, run: NewRun, id: string, j: nat)
    requires IsHistory(h) && a < |h.ops| && UniqueScopes(h.tables[0])
    requires KeyOf(run) != "" && CreateReturns(h, a, b, run, id)
    requires b <= j <= |h.ops|
    ensures Holders(h.tables[j], NewScope(run)) == {id}
  {
    ScopesStayUnique(h, j);
    ReturnsAHolder(h, a, b, run, id);
    RowsStay(h, b, j, id);
    assert id in Holders(h.tables[j], NewScope(run));
    OneHolder(h.tables[j], NewScope(run), id);
  }

  lemma SameRunReturned(h: History, a: nat, b: nat, run: NewRun, id: string,
                        a': nat, b': nat, run': NewRun, id': string)
    requires IsHistory(h) && a < |h.ops| && a' < |h.ops| && UniqueScopes(h.tables[0])
    requires KeyOf(run) != "" && NewScope(run) == NewScope(run')
    requires CreateReturns(h, a, b, run, id) && CreateReturns(h, a', b', run', id')
    ensures id == id'
  {
    ReturnedRunHolds(h, a, b, run, id, |h.ops|);
    ReturnedRunHolds(h, a', b', run', id', |h.ops|);
    assert id in {id'};
  }

  /** Every create that returns for a scope returns the same Run, for ever the only holder. */
  lemma AcceptIsIdempotent(h: History, a: nat, b: nat, run: NewRun, id: string,
                           a': nat, b': nat, run': NewRun, id': string)
    requires IsHistory(h) && a < |h.ops| && a' < |h.ops| && UniqueScopes(h.tables[0])
    requires KeyOf(run) != "" && NewScope(run) == NewScope(run')
    requires CreateReturns(h, a, b, run, id) && CreateReturns(h, a', b', run', id')
    ensures id == id'
    ensures forall j :: b <= j <= |h.ops| ==> Holders(h.tables[j], NewScope(run)) == {id}
  {
    forall j | b <= j <= |h.ops|
      ensures Holders(h.tables[j], NewScope(run)) == {id}
    {
      ReturnedRunHolds(h, a, b, run, id, j);
    }
    SameRunReturned(h, a, b, run, id, a', b', run', id');
  }
}
