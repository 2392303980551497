/** The per-Run activity log: numbered appends, and readers that poll with a cursor. */
module EventStore {

  datatype Event = Event(eventId: nat, runId: string, eventType: string, createdAt: string)

  type Log = map<string, seq<Event>>

  function EventsOf(log: Log, runId: string): seq<Event> {
    if runId in log then log[runId] else []
  }

  /** Events are numbered 1, 2, 3 and so on in append order. */
  ghost predicate Numbered(log: Log) {
    forall id, k :: id in log && 0 <= k < |log[id]| ==> log[id][k].eventId == k + 1 && log[id][k].runId == id
  }

  function Since(events: seq<Event>, cursor: nat): seq<Event> {
    if events == [] then []
    else
      var last := events[|events| - 1];
      Since(events[..|events| - 1], cursor) + (if last.eventId > cursor then [last] else [])
  }

  /** Filtering by id is cutting at the cursor, because ids are positions. */
  lemma {:induction false} SinceCuts(log: Log, runId: string, n: nat, cursor: nat)
    requires Numbered(log) && runId in log && n <= |log[runId]|
    ensures Since(log[runId][..n], cursor) == if cursor <= n then log[runId][cursor..n] else []
  {
    if n > 0 {
      var events := log[runId];
      assert events[..n][..n - 1] == events[..n - 1];
      SinceCuts(log, runId, n - 1, cursor);
    }
  }

  class AgentRunEventStore {
    var events: Log

    constructor ()
      ensures events == map[]
    {
      events := map[];
    }

    method Append(runId: string, eventType: string, now: string) returns (event: Event)
      modifies this
      ensures event == Event(|EventsOf(old(events), runId)| + 1, runId, eventType, now)
      ensures events == old(events)[runId := EventsOf(old(events), runId) + [event]]
      ensures Numbered(old(events)) ==> Numbered(events)
    {
      if runId !in events {
        events := events[runId := []];
      }
      event := Event(|events[runId]| + 1, runId, eventType, now);
      events := events[runId := events[runId] + [event]];
    }

    method ListSince(runId: string, cursor: nat) returns (found: seq<Event>)
      ensures found == Since(EventsOf(events, runId), cursor)
    {
      var all := EventsOf(events, runId);
      found := [];
      var k := 0;
      while k < |all|
        invariant 0 <= k <= |all|
        invariant found == Since(all[..k], cursor)
      {
        assert all[..k + 1][..k] == all[..k];
        if all[k].eventId > cursor {
          found := found + [all[k]];
        }
        k := k + 1;
      }
      assert all[..k] == all;
    }

    method Clear(runId: string)
      modifies this
      ensures events == old(events) - {runId}
    {
      events := events - {runId};
    }
  }

  // ----- a polling reader -----

  /** What a reader of one Run has received, and the log it reads. */
  datatype Reading = Reading(log: Log, seen: seq<Event>)

  function Cursor(seen: seq<Event>): nat {
    if seen == [] then 0 else seen[|seen| - 1].eventId
  }

  datatype Move = Appends(runId: string, eventType: string, now: string) | Polls | Clears(runId: string)

  function Appended(log: Log, runId: string, eventType: string, now: string): Log {
    var before := EventsOf(log, runId);
    log[runId := before + [Event(|before| + 1, runId, eventType, now)]]
  }

  function Moved(r: Reading, reader: string, move: Move): Reading {
    match move
    case Appends(runId, eventType, now) => r.(log := Appended(r.log, runId, eventType, now))
    case Polls => r.(seen := r.seen + Since(EventsOf(r.log, reader), Cursor(r.seen)))
    case Clears(runId) => r.(log := r.log - {runId})
  }

  function MovedAll(r: Reading, reader: string, moves: seq<Move>): Reading {
    if moves == [] then r else Moved(MovedAll(r, reader, moves[..|moves| - 1]), reader, moves[|moves| - 1])
  }

  ghost predicate SeesPrefix(r: Reading, reader: string) {
    Numbered(r.log) && r.seen <= EventsOf(r.log, reader)
  }

  lemma PollCompletes(r: Reading, reader: string)
    requires SeesPrefix(r, reader)
    ensures r.seen + Since(EventsOf(r.log, reader), Cursor(r.seen)) == EventsOf(r.log, reader)
  {
    var all := EventsOf(r.log, reader);
    if reader in r.log {
      assert all[..|all|] == all;
      SinceCuts(r.log, reader, |all|, Cursor(r.seen));
      assert Cursor(r.seen) == |r.seen|;
      assert r.seen + all[|r.seen|..] == all;
    }
  }

  lemma MoveKeepsPrefix(r: Reading, reader: string, move: Move)
    requires SeesPrefix(r, reader) && !move.Clears?
    ensures SeesPrefix(Moved(r, reader, move), reader)
    ensures r.seen <= Moved(r, reader, move).seen
    ensures move.Polls? ==> Moved(r, reader, move).seen == EventsOf(r.log, reader)
  {
    if move.Polls? {
      PollCompletes(r, reader);
    }
  }

  /** The one move that breaks a reader: clearing its Run after it has seen something. */
  predicate ClearsUnderReader(r: Reading, reader: string, move: Move) {
    move == Clears(reader) && r.seen != []
  }

  /** One move keeps the reader on a prefix of the log exactly when it is not that one. */
  lemma MoveKeepsPrefixExactly(r: Reading, reader: string, move: Move)
    requires SeesPrefix(r, reader)
    ensures SeesPrefix(Moved(r, reader, move), reader) <==> !ClearsUnderReader(r, reader, move)
  {
    if !move.Clears? {
      MoveKeepsPrefix(r, reader, move);
    }
  }

  ghost predicate PrefixAt(reader: string, moves: seq<Move>, k: nat)
    requires k <= |moves|
  {
    SeesPrefix(MovedAll(Reading(map[], []), reader, moves[..k]), reader)
  }

  ghost predicate ClearedUnderReaderAt(reader: string, moves: seq<Move>, k: nat)
    requires k < |moves|
  {
    ClearsUnderReader(MovedAll(Reading(map[], []), reader, moves[..k]), reader, moves[k])
  }

  lemma StepOf(reader: string, moves: seq<Move>, k: nat)
    requires k < |moves|
    ensures MovedAll(Reading(map[], []), reader, moves[..k + 1])
         == Moved(MovedAll(Reading(map[], []), reader, moves[..k]), reader, moves[k])
  {
    assert moves[..k + 1][..k] == moves[..k];
  }

  lemma {:induction false} PrefixUntil(reader: string, moves: seq<Move>, k: nat)
    requires k <= |moves|
    requires forall j: nat :: j < k ==> !ClearedUnderReaderAt(reader, moves, j)
    ensures PrefixAt(reader, moves, k)
  {
    if k > 0 {
      PrefixUntil(reader, moves, k - 1);
      StepOf(reader, moves, k - 1);
      assert !ClearedUnderReaderAt(reader, moves, k - 1);
      MoveKeepsPrefixExactly(MovedAll(Reading(map[], []), reader, moves[..k - 1]), reader, moves[k - 1]);
    }
  }

  /** Over any appends to, polls by and clears of any Runs: the reader holds at every moment a
      prefix of its Run's events in append order, with no gap and nothing twice, exactly when its
      Run is never cleared after it has seen something. */
  lemma ReaderSeesPrefix(reader: string, moves: seq<Move>)
    ensures (forall k: nat :: k <= |moves| ==> PrefixAt(reader, moves, k))
       <==> (forall k: nat :: k < |moves| ==> !ClearedUnderReaderAt(reader, moves, k))
  {
    if forall k: nat :: k < |moves| ==> !ClearedUnderReaderAt(reader, moves, k) {
      forall k: nat | k <= |moves|
        ensures PrefixAt(reader, moves, k)
      {
        PrefixUntil(reader, moves, k);
      }
    }
    if forall k: nat :: k <= |moves| ==> PrefixAt(reader, moves, k) {
      forall k: nat | k < |moves|
        ensures !ClearedUnderReaderAt(reader, moves, k)
      {
        assert PrefixAt(reader, moves, k) && PrefixAt(reader, moves, k + 1);
        StepOf(reader, moves, k);
        MoveKeepsPrefixExactly(MovedAll(Reading(map[], []), reader, moves[..k]), reader, moves[k]);
      }
    }
  }

  /** A poll on a prefix brings the reader up to date. */
  lemma PollReadsAll(r: Reading, reader: string)
    requires SeesPrefix(r, reader)
    ensures Moved(r, reader, Polls).seen == EventsOf(r.log, reader)
  {
    PollCompletes(r, reader);
  }

  // ----- what a clear costs -----

  function Least(a: nat, b: nat): nat {
    if a < b then a else b
  }

  predicate OnlyAppends(moves: seq<Move>) {
    forall m :: m in moves ==> m.Appends?
  }

  lemma {:induction false} AppendsKeepNumbers(r: Reading, reader: string, moves: seq<Move>)
    requires Numbered(r.log) && OnlyAppends(moves)
    ensures Numbered(MovedAll(r, reader, moves).log) && MovedAll(r, reader, moves).seen == r.seen
  {
    if moves != [] {
      var n := |moves| - 1;
      assert moves[n] in moves && forall m :: m in moves[..n] ==> m in moves;
      AppendsKeepNumbers(r, reader, moves[..n]);
    }
  }

  /** Numbering restarts at a clear, so the next poll skips as many new events as the reader had
      seen old ones: it loses events exactly when there is a new one and an old one. */
  lemma ClearLosesEvents(r: Reading, reader: string, appends: seq<Move>)
    requires SeesPrefix(r, reader) && OnlyAppends(appends)
    ensures var next := MovedAll(Moved(r, reader, Clears(reader)), reader, appends);
            var added := EventsOf(next.log, reader);
            && Moved(next, reader, Polls).seen == r.seen + added[Least(|r.seen|, |added|)..]
            && (Moved(next, reader, Polls).seen != r.seen + added <==> r.seen != [] && added != [])
  {
    var cleared := Moved(r, reader, Clears(reader));
    AppendsKeepNumbers(cleared, reader, appends);
    var next := MovedAll(cleared, reader, appends);
    var all := EventsOf(next.log, reader);
    assert Cursor(r.seen) == |r.seen|;
    if reader in next.log {
      assert all[..|all|] == all;
      SinceCuts(next.log, reader, |all|, |r.seen|);
      assert all[|all|..] == [];
      var lost := Least(|r.seen|, |all|);
      if lost > 0 {
        assert |r.seen + all[lost..]| < |r.seen + all|;
      } else {
        assert all[0..] == all;
      }
    }
  }
}
