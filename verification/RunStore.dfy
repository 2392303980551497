/** The durable run store and the startup recovery of the runner, in the imperative form of
    the program; every method is tied to the table functions of `Runs`. */
module RunStore {
  import opened Wrappers
  import opened Text
  import opened IsoTime
  import opened Runs
  import opened ClaimLemmas

  datatype Run = Run(runId: string, row: Row)

  datatype StoreError = IntegrityError | InstantOutOfRange

  function LeaseStamp(now: Instant, leaseSeconds: int): Option<string> {
    var end := LeaseEnd(now, leaseSeconds);
    if end < 315_537_897_600_000_000 then Some(Iso(end)) else None
  }

  function Request(worker: string, now: Instant, leaseSeconds: int, limit: int, cap: Option<int>): ClaimRequest {
    var lease := LeaseStamp(now, leaseSeconds);
    ClaimRequest(worker, Iso(now), if lease.Some? then lease.value else "", limit, cap)
  }

  /** The lookup of the counter dictionary. */
  function CountOf(running: map<string, nat>, conversation: string): nat {
    if conversation in running then running[conversation] else 0
  }

  /** The local counters equal the true RUNNING counts of every conversation. */
  ghost predicate CountersTrue(running: map<string, nat>, rows: Table) {
    forall conversation :: CountOf(running, conversation) == RunningIn(rows, conversation)
  }

  /** Parent statuses, read once per pass. */
  function ParentStatuses(rows: Table, candidates: seq<string>): (r: map<string, Status>)
    requires forall id :: id in candidates ==> id in rows
    ensures forall id :: id in candidates ==>
              (ParentWorking(rows, id) <==>
                 var parent := rows[id].payload.followUpOf;
                 parent != "" && parent in r && Working(r[parent]))
  {
    var parents := (set id | id in candidates :: rows[id].payload.followUpOf) - {""};
    map parent | parent in parents && parent in rows :: rows[parent].status
  }

  function Trimmed(scope: Scope): Scope {
    scope.(key := Strip(scope.key))
  }

  ghost predicate IsRun(run: Run, table: Table) {
    run.runId in table && run == Run(run.runId, table[run.runId])
  }

  ghost predicate Reports(runs: seq<Run>, table: Table, ids: seq<string>) {
    && |runs| == |ids|
    && forall i :: 0 <= i < |ids| ==>
         ids[i] in table && runs[i] == Run(ids[i], table[ids[i]])
  }

  method OldestOf(rows: Table, ids: set<string>) returns (oldest: string)
    requires ids != {} && forall id :: id in ids ==> id in rows
    ensures oldest in ids
    ensures forall id :: id in ids ==> LexLeq(rows[oldest].createdAt, rows[id].createdAt)
  {
    oldest :| oldest in ids;
    var left := ids - {oldest};
    LexIrreflexive(rows[oldest].createdAt);
    while left != {}
      invariant left <= ids && oldest in ids
      invariant forall id :: id in ids - left ==> LexLeq(rows[oldest].createdAt, rows[id].createdAt)
      decreases left
    {
      var next :| next in left;
      left := left - {next};
      if LexLess(rows[next].createdAt, rows[oldest].createdAt) {
        LexIrreflexive(rows[next].createdAt);
        ghost var was := rows[oldest].createdAt;
        LexTotal(was, rows[next].createdAt);
        assert LexLeq(rows[next].createdAt, was) by {
          if LexLess(was, rows[next].createdAt) {
            LexTransitive(was, rows[next].createdAt, was);
            LexIrreflexive(was);
          }
        }
        forall id | id in ids - left && id != next
          ensures LexLeq(rows[next].createdAt, rows[id].createdAt)
        {
          LexLeqTransitive(rows[next].createdAt, was, rows[id].createdAt);
        }
        oldest := next;
      }
    }
  }

  /** The candidate query: ACCEPTED rows by creation stamp, at most `n` of them. */
  method SelectWindow(rows: Table, n: nat) returns (window: seq<string>)
    ensures IsWindow(rows, window, n)
  {
    window := [];
    var left := AcceptedIds(rows);
    while left != {} && |window| < n
      invariant |window| <= n
      invariant forall id :: id in AcceptedIds(rows) <==> id in window || id in left
      invariant forall id :: id in window ==> id !in left
      invariant Distinct(window)
      invariant AllAccepted(rows, window)
      invariant forall i, j :: 0 <= i < j < |window| ==> LexLeq(rows[window[i]].createdAt, rows[window[j]].createdAt)
      invariant left <= AcceptedIds(rows)
      invariant forall x, id :: x in window && id in left ==> LexLeq(rows[x].createdAt, rows[id].createdAt)
      decreases left
    {
      var next := OldestOf(rows, left);
      window := window + [next];
      left := left - {next};
    }
  }

  /** The grouped count of RUNNING rows, read only when there is a cap. */
  method StartCounters(rows: Table, c: ClaimRequest) returns (running: map<string, nat>)
    ensures c.cap.Some? ==> CountersTrue(running, rows)
  {
    running := map[];
    if c.cap.Some? {
      var conversations := set id | id in rows && rows[id].status == RUNNING :: rows[id].conversationId;
      running := map conversation | conversation in conversations :: RunningIn(rows, conversation);
      InitialCounts(rows, running);
    }
  }

  /** The greedy loop: local counters and parent statuses read once stand in for the true
      counts and statuses of the table as it changes. */
  method TakeFrom(expired: Table, c: ClaimRequest, candidates: seq<string>, counters: map<string, nat>)
    returns (claimed: seq<string>, rows: Table)
    requires AllAccepted(expired, candidates)
    requires Distinct(candidates)
    requires c.cap.Some? ==> CountersTrue(counters, expired)
    ensures claimed == Chosen(expired, c, candidates)
    ensures rows == Taken(expired, c, claimed)
  {
    var parents := ParentStatuses(expired, candidates);
    var running: map<string, nat> := counters;
    claimed, rows := [], expired;
    TakenNothing(expired, c);
    var k := 0;
    while k < |candidates| && |claimed| < AtLeastOne(c.limit)
      invariant k <= |candidates| && PassState(expired, c, candidates, k, claimed, rows, running)
    {
      claimed, rows, running := Consider(expired, c, candidates, k, claimed, rows, running, parents);
      k := k + 1;
    }
    ChosenFull(expired, c, candidates, k);
  }

  /** One turn of the loop. */
  method Consider(ghost expired: Table, c: ClaimRequest, candidates: seq<string>, k: nat, claimed: seq<string>,
                  rows: Table, running: map<string, nat>, parents: map<string, Status>)
    returns (claimed': seq<string>, rows': Table, running': map<string, nat>)
    requires AllAccepted(expired, candidates) && k < |candidates| && |claimed| < AtLeastOne(c.limit)
    requires Distinct(candidates)
    requires PassState(expired, c, candidates, k, claimed, rows, running)
    requires parents == ParentStatuses(expired, candidates)
    ensures PassState(expired, c, candidates, k + 1, claimed', rows', running')
  {
    var id := candidates[k];
    Pending(expired, c, candidates, k, claimed, rows, running);
    var row := rows[id];
    if OverCap(c, running, row) || BehindParent(parents, row) {
      LeaveBehind(expired, c, candidates, k, claimed, rows, running);
      return claimed, rows, running;
    }
    Take(expired, c, candidates, k, claimed, rows, running);
    if row.status == ACCEPTED {
      rows' := rows[id := TakeRow(row, c)];
      claimed' := claimed + [id];
      running' := running[row.conversationId := CountOf(running, row.conversationId) + 1];
    } else {
      assert false;
    }
  }

  /** Where the loop stands after `k` candidates. */
  ghost predicate PassState(expired: Table, c: ClaimRequest, candidates: seq<string>, k: nat,
                            claimed: seq<string>, rows: Table, running: map<string, nat>)
    requires AllAccepted(expired, candidates) && k <= |candidates|
  {
    && claimed == Chosen(expired, c, candidates[..k])
    && rows == Taken(expired, c, claimed)
    && (c.cap.Some? ==> CountersTrue(running, rows))
  }

  /** A candidate not yet considered is still as the query found it. */
  lemma Pending(expired: Table, c: ClaimRequest, candidates: seq<string>, k: nat,
                claimed: seq<string>, rows: Table, running: map<string, nat>)
    requires AllAccepted(expired, candidates) && k < |candidates|
    requires Distinct(candidates)
    requires PassState(expired, c, candidates, k, claimed, rows, running)
    ensures candidates[k] in rows && rows[candidates[k]] == expired[candidates[k]]
    ensures rows[candidates[k]].status == ACCEPTED
  {
    ChosenStep(expired, c, candidates, k);
  }

  lemma LeaveBehind(expired: Table, c: ClaimRequest, candidates: seq<string>, k: nat,
                    claimed: seq<string>, rows: Table, running: map<string, nat>)
    requires AllAccepted(expired, candidates) && k < |candidates| && |claimed| < AtLeastOne(c.limit)
    requires Distinct(candidates)
    requires PassState(expired, c, candidates, k, claimed, rows, running)
    requires var row := expired[candidates[k]];
             OverCap(c, running, row) || BehindParent(ParentStatuses(expired, candidates), row)
    ensures PassState(expired, c, candidates, k + 1, claimed, rows, running)
  {
    ChosenStep(expired, c, candidates, k);
    RefusedByCounters(expired, c, claimed, candidates, running, candidates[k]);
  }

  lemma Take(expired: Table, c: ClaimRequest, candidates: seq<string>, k: nat,
             claimed: seq<string>, rows: Table, running: map<string, nat>)
    requires AllAccepted(expired, candidates) && k < |candidates| && |claimed| < AtLeastOne(c.limit)
    requires Distinct(candidates)
    requires PassState(expired, c, candidates, k, claimed, rows, running)
    requires var row := expired[candidates[k]];
             !OverCap(c, running, row) && !BehindParent(ParentStatuses(expired, candidates), row)
    ensures var id, row := candidates[k], expired[candidates[k]];
            PassState(expired, c, candidates, k + 1, claimed + [id], rows[id := TakeRow(row, c)],
                      running[row.conversationId := CountOf(running, row.conversationId) + 1])
  {
    ChosenStep(expired, c, candidates, k);
    RefusedByCounters(expired, c, claimed, candidates, running, candidates[k]);
    CountersAdvance(expired, c, claimed, candidates[k], running);
  }

  predicate OverCap(c: ClaimRequest, running: map<string, nat>, row: Row) {
    c.cap.Some? && CountOf(running, row.conversationId) >= AtLeastOne(c.cap.value)
  }

  predicate BehindParent(parents: map<string, Status>, row: Row) {
    var parent := row.payload.followUpOf;
    parent != "" && parent in parents && Working(parents[parent])
  }

  lemma RefusedByCounters(table: Table, c: ClaimRequest, ids: seq<string>, candidates: seq<string>,
                          running: map<string, nat>, id: string)
    requires forall x :: x in candidates ==> x in table
    requires id in candidates && |ids| < AtLeastOne(c.limit)
    requires c.cap.Some? ==> CountersTrue(running, Taken(table, c, ids))
    ensures OverCap(c, running, table[id]) || BehindParent(ParentStatuses(table, candidates), table[id])
       <==> !Admits(table, c, ids, id)
  {
  }

  lemma ChosenStep(table: Table, c: ClaimRequest, window: seq<string>, k: nat)
    requires forall id :: id in window ==> id in table
    requires Distinct(window)
    requires k < |window|
    ensures var before := Chosen(table, c, window[..k]);
            && window[k] !in before
            && Chosen(table, c, window[..k + 1])
               == if Admits(table, c, before, window[k]) then before + [window[k]] else before
  {
    assert window[..k + 1][..k] == window[..k];
    assert window[k] !in window[..k];
  }

  lemma CountersAdvance(table: Table, c: ClaimRequest, ids: seq<string>, id: string, running: map<string, nat>)
    requires id in table && table[id].status == ACCEPTED && id !in ids
    ensures Taken(table, c, ids + [id]) == Taken(table, c, ids)[id := TakeRow(table[id], c)]
    ensures var own := table[id].conversationId;
            CountersTrue(running, Taken(table, c, ids))
            ==> CountersTrue(running[own := CountOf(running, own) + 1], Taken(table, c, ids + [id]))
  {
    TakeCount(table, c, ids, id, table[id].conversationId);
    forall conversation
      ensures RunningIn(Taken(table, c, ids + [id]), conversation)
           == RunningIn(Taken(table, c, ids), conversation)
              + (if table[id].conversationId == conversation then 1 else 0)
    {
      TakeCount(table, c, ids, id, conversation);
    }
  }

  lemma CreatedOne(table: Table, run: NewRun, now: string)
    requires UniqueScopes(table) && !InsertConflicts(table, run)
    ensures var after := table[run.runId := InsertedRow(run, now)];
            && after == Inserted(table, run, now) && UniqueScopes(after)
            && (KeyOf(run) != "" ==> Holders(after, NewScope(run)) == {run.runId})
  {
    InsertKeepsScopes(table, run, now);
    if KeyOf(run) != "" {
      InsertedHolds(table, run, now);
    }
  }

  class AgentRunStore {
    var table: Table

    constructor ()
      ensures table == map[]
    {
      table := map[];
    }

    method Get(runId: string) returns (run: Option<Row>)
      ensures run == if runId in table then Some(table[runId]) else None
    {
      run := if runId in table then Some(table[runId]) else None;
    }

    method GetByIdempotencyKey(scope: Scope) returns (run: Option<Run>)
      ensures run.Some? <==> Strip(scope.key) != "" && Holders(table, Trimmed(scope)) != {}
      ensures run.Some? ==> run.value.runId in Holders(table, Trimmed(scope)) && IsRun(run.value, table)
    {
      var key := Strip(scope.key);
      var holders := Holders(table, Trimmed(scope));
      if key == "" || holders == {} {
        return None;
      }
      var id := OldestOf(table, holders);
      run := Some(Run(id, table[id]));
    }

    /** Insert; on a violated key, answer the row that holds the scope. */
    method Create(run: NewRun, now: string) returns (r: Result<Run, StoreError>)
      requires UniqueScopes(table)
      modifies this
      ensures table == Inserted(old(table), run, now)
      ensures UniqueScopes(table)
      ensures !InsertConflicts(old(table), run) ==> r == Ok(Run(run.runId, Echo(run)))
      ensures r.Ok? && KeyOf(run) != "" ==> Holders(table, NewScope(run)) == {r.value.runId}
      ensures r.Ok? && InsertConflicts(old(table), run) ==> IsRun(r.value, table)
      ensures r.Ok? ==> r.value.runId in table
      ensures r.Err? <==>
                && run.runId in old(table)
                && (KeyOf(run) == "" || Holders(old(table), NewScope(run)) == {})
    {
      if InsertConflicts(table, run) {
        KeyIsTrimmed(run);
        var existing := GetByIdempotencyKey(NewScope(run));
        assert KeyOf(run) != "" && Holders(table, NewScope(run)) != {} ==> existing.Some?;
        if existing.None? {
          return Err(IntegrityError);
        }
        OneHolder(table, NewScope(run), existing.value.runId);
        return Ok(existing.value);
      }
      CreatedOne(table, run, now);
      table := table[run.runId := InsertedRow(run, now)];
      return Ok(Run(run.runId, Echo(run)));
    }

    method MarkStatus(m: Mark) returns (changed: bool)
      modifies this
      ensures table == Marked(old(table), m)
      ensures changed == MarkApplies(old(table), m)
    {
      changed := m.runId in table && MarkMatches(table[m.runId], m);
      if changed {
        table := table[m.runId := MarkRow(table[m.runId], m)];
      }
    }

    /** One transaction: expire leases, select candidates, count, then claim greedily with
        local counters. A lease past year 9999 raises and rolls everything back. */
    method Claim(worker: string, now: Instant, leaseSeconds: int, limit: int, cap: Option<int>)
      returns (r: Result<seq<Run>, StoreError>, ghost window: seq<string>)
      modifies this
      ensures var c := Request(worker, now, leaseSeconds, limit, cap);
              var expired := Expired(old(table), c.now);
              && IsWindow(expired, window, WindowSize(c))
              && match r
                 case Ok(runs) =>
                   && ClaimPass(old(table), c, window, table)
                   && Reports(runs, table, Chosen(expired, c, window))
                   && (LeaseStamp(now, leaseSeconds).None? ==> runs == [])
                 case Err(_) =>
                   && table == old(table)
                   && LeaseStamp(now, leaseSeconds).None?
                   && Chosen(expired, c, window) != []
    {
      var c := Request(worker, now, leaseSeconds, limit, cap);
      var rows := Expired(table, c.now);
      var candidates := SelectWindow(rows, WindowSize(c));
      window := candidates;
      var counters := StartCounters(rows, c);
      var claimed, updated := TakeFrom(rows, c, candidates, counters);
      if claimed != [] && LeaseStamp(now, leaseSeconds).None? {
        return Err(InstantOutOfRange), candidates;
      }
      table := updated;
      r := Ok(seq(|claimed|, i requires 0 <= i < |claimed| && claimed[i] in updated => Run(claimed[i], updated[claimed[i]])));
    }

    /** Active Runs by creation stamp. */
    method ListActive() returns (ids: seq<string>)
      ensures forall id :: id in ids <==> id in table && (table[id].status == ACCEPTED || table[id].status == RUNNING)
      ensures Distinct(ids)
      ensures forall i, j :: 0 <= i < j < |ids| ==> ids[i] in table && ids[j] in table && LexLeq(table[ids[i]].createdAt, table[ids[j]].createdAt)
    {
      ids := [];
      var left := set id | id in table && (table[id].status == ACCEPTED || table[id].status == RUNNING);
      ghost var active := left;
      while left != {}
        invariant left <= active && forall id :: id in ids ==> id in table
        invariant forall id :: id in active <==> id in ids || id in left
        invariant forall id :: id in ids ==> id !in left
        invariant Distinct(ids)
        invariant forall i, j :: 0 <= i < j < |ids| ==> LexLeq(table[ids[i]].createdAt, table[ids[j]].createdAt)
        invariant forall x, id :: x in ids && id in left ==> LexLeq(table[x].createdAt, table[id].createdAt)
        decreases left
      {
        var next := OldestOf(table, left);
        ids := ids + [next];
        left := left - {next};
      }
    }
  }

  lemma InitialCounts(rows: Table, running: map<string, nat>)
    requires forall id :: id in rows && rows[id].status == RUNNING ==> rows[id].conversationId in running
    requires forall conversation :: conversation in running ==> running[conversation] == RunningIn(rows, conversation)
    ensures CountersTrue(running, rows)
  {
    forall conversation | conversation !in running
      ensures RunningIn(rows, conversation) == 0
    {
      assert RunningIds(rows, conversation) == {};
    }
  }

  /** Once the limit is reached, or the window is used up, the pass is complete. */
  lemma {:induction false} ChosenFull(table: Table, c: ClaimRequest, window: seq<string>, k: nat)
    requires forall id :: id in window ==> id in table
    requires k <= |window|
    requires k == |window| || |Chosen(table, c, window[..k])| >= AtLeastOne(c.limit)
    ensures Chosen(table, c, window) == Chosen(table, c, window[..k])
  {
    if k == |window| {
      assert window[..k] == window;
    } else {
      var n := |window| - 1;
      assert window[..n][..k] == window[..k];
      ChosenFull(table, c, window[..n], k);
    }
  }

  lemma KeyIsTrimmed(run: NewRun)
    ensures Trimmed(NewScope(run)) == NewScope(run) && Strip(NewScope(run).key) == KeyOf(run)
  {
    StripTwice(if run.idempotencyKey != "" then run.idempotencyKey else run.row.payload.idempotencyKey);
  }

  lemma StripTwice(s: string)
    ensures Strip(Strip(s)) == Strip(s)
  {
    var t := Strip(s);
    if t != [] {
      assert LStrip(s)[0] == t[0];
      assert LStrip(t) == t;
      assert RStrip(t) == t;
    }
  }
}
