/** The continuation consumer: batches of coroutines that serialise on a per-task lock which is
    dropped from the dictionary while others may still wait for it. */
module Continuations {

  /** A batch member: `Waiting` on a lock object, or inside the lock body. */
  datatype Member = NotStarted | AtSemaphore | Waiting(lock: nat) | InBody(lock: nat) | Done

  /** `locks` is the dictionary of lock objects, `held` the locked ones, `woken` those whose first
      waiter has been told to go on; the first steps of `keys[..started]` have run. */
  datatype Sys = Sys(
    keys: seq<string>,
    members: seq<Member>,
    started: nat,
    locks: map<string, nat>,
    held: set<nat>,
    woken: set<nat>,
    nextLock: nat,
    permits: nat)

  // ----- the pieces of `process_observation` -----

  predicate WaitsFor(members: seq<Member>, i: int, lock: nat) {
    0 <= i < |members| && members[i] == Waiting(lock)
  }

  predicate HasWaiter(members: seq<Member>, lock: nat) {
    exists i :: 0 <= i < |members| && WaitsFor(members, i, lock)
  }

  /** Waiters queue in the order of their first steps, which is the order of the batch. */
  predicate FirstWaiter(s: Sys, lock: nat, i: nat) {
    && i < |s.members| && s.members[i] == Waiting(lock)
    && forall j :: 0 <= j < i ==> s.members[j] != Waiting(lock)
  }

  function LockFor(s: Sys, key: string): nat {
    if key in s.locks then s.locks[key] else s.nextLock
  }

  /** `setdefault`: a fresh lock object only when the key is missing. */
  function WithLock(s: Sys, key: string): Sys {
    if key in s.locks then s else s.(locks := s.locks[key := s.nextLock], nextLock := s.nextLock + 1)
  }

  /** How a member goes on inside the body: it stops at an await, or it meets none and runs to the
      end or into one of the two early returns. Both returns come before the first await, so a
      member that has been suspended inside the body always runs to the end. */
  datatype Pace = Suspends | FallsThrough | ReturnsEarly

  /** Leaving the body: release and wake the first waiter. Only an exit that falls through comes to
      the eviction, where the lock always reads unlocked. */
  function Left(s: Sys, i: nat, lock: nat, evicts: bool): Sys
    requires i < |s.members| && i < |s.keys|
  {
    var t := s.(members := s.members[i := Done], held := s.held - {lock},
                locks := if evicts then s.locks - {s.keys[i]} else s.locks, permits := s.permits + 1);
    if HasWaiter(t.members, lock) then t.(woken := t.woken + {lock}) else t
  }

  function Entered(s: Sys, i: nat, lock: nat, pace: Pace): Sys
    requires i < |s.members| && i < |s.keys|
  {
    var t := s.(members := s.members[i := InBody(lock)], held := s.held + {lock}, woken := s.woken - {lock});
    if pace == Suspends then t else Left(t, i, lock, pace == FallsThrough)
  }

  /** The first step of member `i`: up to its first suspension. */
  function FirstStep(s: Sys, i: nat, pace: Pace): Sys
    requires i < |s.members| && i < |s.keys|
  {
    var lock := LockFor(s, s.keys[i]);
    var t := WithLock(s, s.keys[i]).(started := i + 1);
    if s.permits == 0 then t.(members := t.members[i := AtSemaphore])
    else
      var u := t.(permits := t.permits - 1);
      if lock !in u.held && !HasWaiter(u.members, lock) then Entered(u, i, lock, pace)
      else u.(members := u.members[i := Waiting(lock)])
  }

  datatype Move =
    | Begins(i: nat, pace: Pace)
    | Leaves(i: nat)
    | Resumes(i: nat, pace: Pace)

  /** Without the scheduling rule: who may move at all. */
  predicate Possible(s: Sys, m: Move) {
    |s.keys| == |s.members| && m.i < |s.members| &&
    match m
    case Begins(i, _) => i == s.started && s.members[i] == NotStarted
    case Leaves(i) => s.members[i].InBody?
    case Resumes(i, _) => s.members[i].Waiting? && s.members[i].lock in s.woken && FirstWaiter(s, s.members[i].lock, i)
  }

  function Apply(s: Sys, m: Move): Sys
    requires Possible(s, m)
  {
    match m
    case Begins(i, pace) => FirstStep(s, i, pace)
    case Leaves(i) => Left(s, i, s.members[i].lock, true)
    case Resumes(i, pace) => Entered(s, i, s.members[i].lock, pace)
  }

  /** The event loop runs the first step of every member of a gathered batch, in order, before
      any suspended member goes on. */
  predicate Enabled(s: Sys, m: Move) {
    Possible(s, m) && (m.Begins? || s.started == |s.members|)
  }

  predicate AllDone(s: Sys) {
    s.started == |s.members| && forall i :: 0 <= i < |s.members| ==> s.members[i] == Done
  }

  /** The gather barrier: the next batch starts when every member of this one is done. */
  function NextBatch(s: Sys, keys: seq<string>): Sys {
    s.(keys := keys, members := seq(|keys|, _ => NotStarted), started := 0)
  }

  // ----- the invariant -----

  predicate Active(m: Member) {
    m.Waiting? || m.InBody?
  }

  predicate ActiveAt(s: Sys, i: int) {
    0 <= i < |s.members| && Active(s.members[i])
  }

  predicate InBodyAt(s: Sys, i: int) {
    0 <= i < |s.members| && s.members[i].InBody?
  }

  ghost predicate Shape(s: Sys) {
    && |s.keys| == |s.members| && s.started <= |s.members|
    && forall i :: 0 <= i < |s.members| ==>
         && (s.members[i] == NotStarted <==> s.started <= i)
         && s.members[i] != AtSemaphore
  }

  /** One lock object per key among the active members, and one key per lock object. */
  ghost predicate LocksMatchKeys(s: Sys)
    requires |s.keys| == |s.members|
  {
    && (forall i, j :: ActiveAt(s, i) && ActiveAt(s, j) ==>
          (s.keys[i] == s.keys[j] <==> s.members[i].lock == s.members[j].lock))
    && (forall i, k :: ActiveAt(s, i) && k in s.locks && s.locks[k] == s.members[i].lock ==> k == s.keys[i])
  }

  /** Lock objects are numbered, and no two keys share one. */
  ghost predicate LocksNumbered(s: Sys) {
    && (forall i :: ActiveAt(s, i) ==> s.members[i].lock < s.nextLock)
    && (forall k :: k in s.locks ==> s.locks[k] < s.nextLock)
    && (forall k, l :: k in s.locks && l in s.locks && s.locks[k] == s.locks[l] ==> k == l)
  }

  /** Until all first steps have run, the dictionary knows the lock of every active member, and
      nobody has been woken. */
  ghost predicate Opening(s: Sys)
    requires |s.keys| == |s.members|
  {
    s.started < |s.members| ==>
      && s.woken == {}
      && forall i :: ActiveAt(s, i) ==> s.keys[i] in s.locks && s.locks[s.keys[i]] == s.members[i].lock
  }

  /** Exactly the locks of members in their body are held, each by one. */
  ghost predicate HeldByBody(s: Sys) {
    && (forall i :: InBodyAt(s, i) ==> s.members[i].lock in s.held)
    && (forall l :: l in s.held ==> exists i :: InBodyAt(s, i) && s.members[i].lock == l)
    && (forall i, j :: InBodyAt(s, i) && InBodyAt(s, j) && s.members[i].lock == s.members[j].lock ==> i == j)
  }

  /** A free lock with waiters has been woken, and only such a lock. */
  ghost predicate WokenAreFree(s: Sys) {
    && (forall l :: l in s.woken ==> l !in s.held && exists i :: WaitsFor(s.members, i, l))
    && (forall i, l :: WaitsFor(s.members, i, l) && l !in s.held ==> l in s.woken)
  }

  predicate Passed(m: Member) {
    m.InBody? || m == Done
  }

  /** Members of one key go through the body in batch order. */
  ghost predicate InOrder(s: Sys)
    requires |s.keys| == |s.members|
  {
    forall i, j :: 0 <= i < j < |s.members| && s.keys[i] == s.keys[j] && Passed(s.members[j]) ==> s.members[i] == Done
  }

  function ActiveIds(s: Sys): set<int> {
    set i | 0 <= i < |s.members| && Active(s.members[i])
  }

  ghost predicate Inv(s: Sys, capacity: nat) {
    && Shape(s) && |s.members| <= capacity
    && LocksMatchKeys(s) && LocksNumbered(s) && Opening(s) && HeldByBody(s) && WokenAreFree(s) && InOrder(s)
    && s.permits + |ActiveIds(s)| == capacity
  }

  // ----- the invariant is kept -----

  function With(rest: set<int>, i: int, present: bool): set<int> {
    if present then rest + {i} else rest
  }

  lemma WithCount(rest: set<int>, i: int, before: bool, after: bool)
    requires i !in rest
    ensures |With(rest, i, after)| == |With(rest, i, before)| + (if after then 1 else 0) - (if before then 1 else 0)
  {
  }

  lemma ActiveWith(s: Sys, i: nat)
    requires i < |s.members|
    ensures ActiveIds(s) == With(ActiveIds(s) - {i}, i, Active(s.members[i]))
  {
  }

  lemma CountChange(s: Sys, t: Sys, i: nat, m: Member)
    requires i < |s.members| && t.members == s.members[i := m]
    ensures |ActiveIds(t)| == |ActiveIds(s)| + (if Active(m) then 1 else 0) - (if Active(s.members[i]) then 1 else 0)
  {
    var rest := ActiveIds(s) - {i};
    assert rest == ActiveIds(t) - {i};
    ActiveWith(s, i);
    ActiveWith(t, i);
    WithCount(rest, i, Active(s.members[i]), Active(m));
  }

  function UpTo(n: nat): (r: set<int>)
    ensures |r| == n && forall i :: i in r <==> 0 <= i < n
  {
    if n == 0 then {} else UpTo(n - 1) + {n - 1}
  }

  /** The semaphore never blocks: a batch is no larger than its permits. */
  lemma PermitsSuffice(s: Sys, capacity: nat)
    requires Inv(s, capacity) && s.started < |s.members|
    ensures s.permits > 0
  {
    var others := UpTo(|s.members|) - {s.started as int};
    assert ActiveIds(s) <= others;
    assert |others - ActiveIds(s)| == |others| - |ActiveIds(s)|;
  }

  // ----- leaving the body -----

  /** While first steps are still to run, only a member that ran straight through leaves, and no
      other member of its key is active then. */
  ghost predicate MayLeave(s: Sys, i: nat) {
    && InBodyAt(s, i) && |s.keys| == |s.members|
    && (s.started == |s.members| || forall j :: ActiveAt(s, j) && s.keys[j] == s.keys[i] ==> j == i)
  }

  lemma LeftMembers(s: Sys, i: nat, evicts: bool, j: int)
    requires MayLeave(s, i)
    ensures var t := Left(s, i, s.members[i].lock, evicts);
            && (ActiveAt(t, j) <==> j != i && ActiveAt(s, j))
            && (InBodyAt(t, j) <==> j != i && InBodyAt(s, j))
            && (ActiveAt(t, j) ==> t.members[j] == s.members[j])
  {
  }

  lemma LeavingKeepsLocks(s: Sys, i: nat, evicts: bool, capacity: nat)
    requires Inv(s, capacity) && MayLeave(s, i)
    ensures var t := Left(s, i, s.members[i].lock, evicts);
            Shape(t) && LocksMatchKeys(t) && LocksNumbered(t)
  {
    var t := Left(s, i, s.members[i].lock, evicts);
    forall j
      ensures ActiveAt(t, j) ==> ActiveAt(s, j) && t.members[j] == s.members[j]
    {
      LeftMembers(s, i, evicts, j);
    }
  }

  lemma LeavingKeepsOpening(s: Sys, i: nat, evicts: bool, capacity: nat)
    requires Inv(s, capacity) && MayLeave(s, i)
    ensures |s.keys| == |s.members| && Opening(Left(s, i, s.members[i].lock, evicts))
  {
    var lock := s.members[i].lock;
    var t := Left(s, i, lock, evicts);
    if s.started < |s.members| {
      forall j | ActiveAt(t, j)
        ensures j != i && ActiveAt(s, j) && t.members[j] == s.members[j] && s.members[j].lock != lock && s.keys[j] != s.keys[i]
      {
        LeftMembers(s, i, evicts, j);
      }
      assert forall j :: WaitsFor(t.members, j, lock) ==> ActiveAt(t, j);
    }
  }

  lemma LeavingKeepsHeld(s: Sys, i: nat, evicts: bool, capacity: nat)
    requires Inv(s, capacity) && MayLeave(s, i)
    ensures HeldByBody(Left(s, i, s.members[i].lock, evicts))
  {
    var t := Left(s, i, s.members[i].lock, evicts);
    forall j
      ensures InBodyAt(t, j) <==> j != i && InBodyAt(s, j)
      ensures InBodyAt(t, j) ==> t.members[j] == s.members[j]
    {
      LeftMembers(s, i, evicts, j);
    }
    forall l | l in t.held
      ensures exists j :: InBodyAt(t, j) && t.members[j].lock == l
    {
      var j :| InBodyAt(s, j) && s.members[j].lock == l;
      assert InBodyAt(t, j) && t.members[j].lock == l;
    }
  }

  lemma LeavingKeepsWoken(s: Sys, i: nat, evicts: bool, capacity: nat)
    requires Inv(s, capacity) && MayLeave(s, i)
    ensures WokenAreFree(Left(s, i, s.members[i].lock, evicts))
  {
    var lock := s.members[i].lock;
    var t := Left(s, i, lock, evicts);
    forall j, l
      ensures WaitsFor(t.members, j, l) <==> WaitsFor(s.members, j, l)
    {
    }
    forall l | l in t.woken
      ensures l !in t.held && exists j :: WaitsFor(t.members, j, l)
    {
      if l in s.woken {
        var j :| WaitsFor(s.members, j, l);
        assert WaitsFor(t.members, j, l);
      } else {
        assert HasWaiter(t.members, l);
      }
    }
    forall j, l | WaitsFor(t.members, j, l) && l !in t.held
      ensures l in t.woken
    {
      assert WaitsFor(s.members, j, l);
    }
  }

  lemma LeavingKeepsInv(s: Sys, i: nat, evicts: bool, capacity: nat)
    requires Inv(s, capacity) && MayLeave(s, i)
    ensures Inv(Left(s, i, s.members[i].lock, evicts), capacity)
  {
    LeavingKeepsLocks(s, i, evicts, capacity);
    LeavingKeepsOpening(s, i, evicts, capacity);
    LeavingKeepsHeld(s, i, evicts, capacity);
    LeavingKeepsWoken(s, i, evicts, capacity);
    var t := Left(s, i, s.members[i].lock, evicts);
    CountChange(s, t, i, Done);
    assert InOrder(t) by {
      assert forall j, k :: 0 <= j < k < |s.members| && s.keys[j] == s.keys[k] && Passed(s.members[k]) ==> s.members[j] == Done;
    }
  }

  // ----- first steps -----

  /** The member whose first step is due, with a permit. */
  ghost predicate Due(s: Sys, i: nat, capacity: nat) {
    Inv(s, capacity) && s.started == i < |s.members| && s.permits > 0
  }

  /** What a first step leaves behind when it stops at `m`, on the lock of its key. */
  function Begun(s: Sys, i: nat, m: Member): Sys
    requires i < |s.members| && i < |s.keys| && s.permits > 0
  {
    WithLock(s, s.keys[i]).(started := i + 1, permits := s.permits - 1, members := s.members[i := m])
  }

  lemma BegunMembers(s: Sys, i: nat, capacity: nat, m: Member, j: int)
    requires Due(s, i, capacity) && Active(m)
    ensures var t := Begun(s, i, m);
            && (ActiveAt(t, j) <==> j == i || ActiveAt(s, j))
            && (InBodyAt(t, j) <==> if j == i then m.InBody? else InBodyAt(s, j))
            && (ActiveAt(s, j) ==> j < i && t.members[j] == s.members[j])
  {
  }

  /** Active members of the same key, and only those, share the lock the new member finds. */
  lemma FoundLock(s: Sys, i: nat, capacity: nat, j: int)
    requires Due(s, i, capacity) && ActiveAt(s, j)
    ensures s.keys[j] == s.keys[i] <==> s.members[j].lock == LockFor(s, s.keys[i])
  {
  }

  lemma BegunKeepsLocks(s: Sys, i: nat, capacity: nat, m: Member)
    requires Due(s, i, capacity) && Active(m) && m.lock == LockFor(s, s.keys[i])
    ensures var t := Begun(s, i, m); Shape(t) && LocksMatchKeys(t)
  {
    var t := Begun(s, i, m);
    forall j
      ensures ActiveAt(t, j) <==> j == i || ActiveAt(s, j)
      ensures ActiveAt(s, j) ==> j < i && t.members[j] == s.members[j]
    {
      BegunMembers(s, i, capacity, m, j);
    }
    forall j, k | ActiveAt(t, j) && ActiveAt(t, k)
      ensures t.keys[j] == t.keys[k] <==> t.members[j].lock == t.members[k].lock
    {
      if j != i { FoundLock(s, i, capacity, j); }
      if k != i { FoundLock(s, i, capacity, k); }
    }
    forall j, k | ActiveAt(t, j) && k in t.locks && t.locks[k] == t.members[j].lock
      ensures k == t.keys[j]
    {
      if j != i { FoundLock(s, i, capacity, j); }
    }
  }

  lemma BegunKeepsNumbers(s: Sys, i: nat, capacity: nat, m: Member)
    requires Due(s, i, capacity) && Active(m) && m.lock == LockFor(s, s.keys[i])
    ensures var t := Begun(s, i, m); |t.keys| == |t.members| && LocksNumbered(t) && Opening(t)
  {
    var t := Begun(s, i, m);
    forall j
      ensures ActiveAt(t, j) <==> j == i || ActiveAt(s, j)
      ensures ActiveAt(s, j) ==> j < i && t.members[j] == s.members[j]
    {
      BegunMembers(s, i, capacity, m, j);
    }
  }

  lemma BegunKeepsOrder(s: Sys, i: nat, capacity: nat, m: Member)
    requires Due(s, i, capacity) && Active(m)
    requires m.InBody? ==> forall j :: ActiveAt(s, j) ==> s.keys[j] != s.keys[i]
    ensures var t := Begun(s, i, m); |t.keys| == |t.members| && InOrder(t)
  {
    var t := Begun(s, i, m);
    forall j, k | 0 <= j < k < |t.members| && t.keys[j] == t.keys[k] && Passed(t.members[k])
      ensures t.members[j] == Done
    {
      if k == i {
        assert !ActiveAt(s, j);
      }
    }
  }

  lemma WaitingKeepsStates(s: Sys, i: nat, capacity: nat)
    requires Due(s, i, capacity)
    requires var lock := LockFor(s, s.keys[i]); lock in s.held || HasWaiter(s.members, lock)
    ensures var t := Begun(s, i, Waiting(LockFor(s, s.keys[i]))); HeldByBody(t) && WokenAreFree(t)
  {
    var lock := LockFor(s, s.keys[i]);
    var t := Begun(s, i, Waiting(lock));
    forall j
      ensures InBodyAt(t, j) <==> InBodyAt(s, j)
      ensures InBodyAt(s, j) ==> t.members[j] == s.members[j]
    {
      BegunMembers(s, i, capacity, Waiting(lock), j);
    }
    forall l | l in t.held
      ensures exists j :: InBodyAt(t, j) && t.members[j].lock == l
    {
      var j :| InBodyAt(s, j) && s.members[j].lock == l;
      assert InBodyAt(t, j);
    }
    assert forall j, l :: WaitsFor(t.members, j, l) ==> WaitsFor(s.members, j, l) || l == lock;
    assert lock in s.held;
  }

  /** The state after a first step that reached the body and stopped there. */
  function BegunInBody(s: Sys, i: nat): Sys
    requires i < |s.members| && i < |s.keys| && s.permits > 0
  {
    var lock := LockFor(s, s.keys[i]);
    Begun(s, i, InBody(lock)).(held := s.held + {lock}, woken := s.woken - {lock})
  }

  lemma EnteringKeepsStates(s: Sys, i: nat, capacity: nat)
    requires Due(s, i, capacity)
    requires var lock := LockFor(s, s.keys[i]); lock !in s.held && !HasWaiter(s.members, lock)
    ensures HeldByBody(BegunInBody(s, i)) && WokenAreFree(BegunInBody(s, i))
  {
    var lock := LockFor(s, s.keys[i]);
    var t := BegunInBody(s, i);
    forall j
      ensures InBodyAt(t, j) <==> j == i || InBodyAt(s, j)
      ensures InBodyAt(s, j) ==> j < i && t.members[j] == s.members[j]
    {
      BegunMembers(s, i, capacity, InBody(lock), j);
    }
    forall l | l in t.held
      ensures exists j :: InBodyAt(t, j) && t.members[j].lock == l
    {
      if l in s.held {
        var j :| InBodyAt(s, j) && s.members[j].lock == l;
        assert InBodyAt(t, j);
      } else {
        assert InBodyAt(t, i);
      }
    }
    assert forall j, l :: WaitsFor(t.members, j, l) ==> WaitsFor(s.members, j, l);
  }

  lemma NobodyElse(s: Sys, i: nat, capacity: nat)
    requires Due(s, i, capacity)
    requires var lock := LockFor(s, s.keys[i]); lock !in s.held && !HasWaiter(s.members, lock)
    ensures forall j :: ActiveAt(s, j) ==> s.keys[j] != s.keys[i]
  {
    forall j | ActiveAt(s, j)
      ensures s.keys[j] != s.keys[i]
    {
      FoundLock(s, i, capacity, j);
      assert s.members[j].Waiting? ==> WaitsFor(s.members, j, s.members[j].lock);
      assert s.members[j].InBody? ==> InBodyAt(s, j);
    }
  }

  lemma WaitingStepKeepsInv(s: Sys, i: nat, capacity: nat)
    requires Due(s, i, capacity)
    requires var lock := LockFor(s, s.keys[i]); lock in s.held || HasWaiter(s.members, lock)
    ensures Inv(Begun(s, i, Waiting(LockFor(s, s.keys[i]))), capacity)
  {
    var m := Waiting(LockFor(s, s.keys[i]));
    BegunKeepsLocks(s, i, capacity, m);
    BegunKeepsNumbers(s, i, capacity, m);
    BegunKeepsOrder(s, i, capacity, m);
    WaitingKeepsStates(s, i, capacity);
    CountChange(s, Begun(s, i, m), i, m);
  }

  lemma EnteringStepKeepsInv(s: Sys, i: nat, capacity: nat)
    requires Due(s, i, capacity)
    requires var lock := LockFor(s, s.keys[i]); lock !in s.held && !HasWaiter(s.members, lock)
    ensures Inv(BegunInBody(s, i), capacity) && MayLeave(BegunInBody(s, i), i)
  {
    var m := InBody(LockFor(s, s.keys[i]));
    var t := BegunInBody(s, i);
    NobodyElse(s, i, capacity);
    BegunKeepsLocks(s, i, capacity, m);
    BegunKeepsNumbers(s, i, capacity, m);
    BegunKeepsOrder(s, i, capacity, m);
    EnteringKeepsStates(s, i, capacity);
    CountChange(s, Begun(s, i, m), i, m);
    SameLocks(Begun(s, i, m), t);
    forall j | ActiveAt(t, j) && j != i
      ensures t.keys[j] != t.keys[i]
    {
      BegunMembers(s, i, capacity, m, j);
    }
  }

  lemma FirstStepCases(s: Sys, i: nat, pace: Pace)
    requires i < |s.members| && i < |s.keys| && s.permits > 0
    ensures var lock := LockFor(s, s.keys[i]);
            FirstStep(s, i, pace) ==
              if lock in s.held || HasWaiter(s.members, lock) then Begun(s, i, Waiting(lock))
              else if pace == Suspends then BegunInBody(s, i)
              else Left(BegunInBody(s, i), i, lock, pace == FallsThrough)
  {
  }

  lemma FirstStepKeepsInv(s: Sys, i: nat, pace: Pace, capacity: nat)
    requires Inv(s, capacity) && s.started == i < |s.members|
    ensures Inv(FirstStep(s, i, pace), capacity)
  {
    PermitsSuffice(s, capacity);
    FirstStepCases(s, i, pace);
    var lock := LockFor(s, s.keys[i]);
    if lock in s.held || HasWaiter(s.members, lock) {
      WaitingStepKeepsInv(s, i, capacity);
    } else {
      EnteringStepKeepsInv(s, i, capacity);
      LeavingKeepsInv(BegunInBody(s, i), i, pace == FallsThrough, capacity);
    }
  }

  /** The lock dictionary conditions do not look at held locks; with nobody woken before, nobody
      is woken after. */
  lemma SameLocks(b: Sys, t: Sys)
    requires |b.keys| == |b.members| && t == b.(held := t.held, woken := t.woken)
    requires Shape(b) && LocksMatchKeys(b) && LocksNumbered(b) && Opening(b) && InOrder(b)
    requires t.woken <= b.woken
    ensures Shape(t) && LocksMatchKeys(t) && LocksNumbered(t) && Opening(t) && InOrder(t)
    ensures ActiveIds(t) == ActiveIds(b)
  {
    assert forall j :: ActiveAt(t, j) == ActiveAt(b, j);
  }

  // ----- resuming -----

  /** A woken first waiter is due to go on; all first steps have run. */
  ghost predicate WokenAt(s: Sys, i: nat, capacity: nat) {
    && Inv(s, capacity) && s.started == |s.members| && i < |s.members|
    && s.members[i].Waiting? && s.members[i].lock in s.woken && FirstWaiter(s, s.members[i].lock, i)
  }

  lemma ResumedMembers(s: Sys, i: nat, capacity: nat, j: int)
    requires WokenAt(s, i, capacity)
    ensures var t := Entered(s, i, s.members[i].lock, Suspends);
            && (ActiveAt(t, j) <==> ActiveAt(s, j))
            && (InBodyAt(t, j) <==> j == i || InBodyAt(s, j))
            && (ActiveAt(s, j) ==> t.members[j].lock == s.members[j].lock)
            && (j != i && ActiveAt(s, j) ==> t.members[j] == s.members[j])
  {
  }

  lemma ResumingKeepsLocks(s: Sys, i: nat, capacity: nat)
    requires WokenAt(s, i, capacity)
    ensures var t := Entered(s, i, s.members[i].lock, Suspends);
            Shape(t) && LocksMatchKeys(t) && LocksNumbered(t) && Opening(t) && ActiveIds(t) == ActiveIds(s)
  {
    var t := Entered(s, i, s.members[i].lock, Suspends);
    forall j
      ensures ActiveAt(t, j) <==> ActiveAt(s, j)
      ensures ActiveAt(s, j) ==> t.members[j].lock == s.members[j].lock
    {
      ResumedMembers(s, i, capacity, j);
    }
    forall j
      ensures j in ActiveIds(t) <==> j in ActiveIds(s)
    {
      assert ActiveAt(t, j) <==> ActiveAt(s, j);
    }
  }

  lemma ResumingKeepsHeld(s: Sys, i: nat, capacity: nat)
    requires WokenAt(s, i, capacity)
    ensures HeldByBody(Entered(s, i, s.members[i].lock, Suspends))
  {
    var lock := s.members[i].lock;
    var t := Entered(s, i, lock, Suspends);
    forall j
      ensures InBodyAt(t, j) <==> j == i || InBodyAt(s, j)
      ensures InBodyAt(s, j) ==> t.members[j].lock == s.members[j].lock
    {
      ResumedMembers(s, i, capacity, j);
    }
    forall l | l in t.held
      ensures exists j :: InBodyAt(t, j) && t.members[j].lock == l
    {
      if l in s.held {
        var j :| InBodyAt(s, j) && s.members[j].lock == l;
        assert InBodyAt(t, j) && t.members[j].lock == l;
      } else {
        assert InBodyAt(t, i);
      }
    }
  }

  lemma ResumingKeepsWoken(s: Sys, i: nat, capacity: nat)
    requires WokenAt(s, i, capacity)
    ensures WokenAreFree(Entered(s, i, s.members[i].lock, Suspends))
  {
    var lock := s.members[i].lock;
    var t := Entered(s, i, lock, Suspends);
    forall l | l in t.woken
      ensures l !in t.held && exists j :: WaitsFor(t.members, j, l)
    {
      var j :| WaitsFor(s.members, j, l);
      assert WaitsFor(t.members, j, l);
    }
    assert forall j, l :: WaitsFor(t.members, j, l) ==> WaitsFor(s.members, j, l);
  }

  lemma ResumingKeepsOrder(s: Sys, i: nat, capacity: nat)
    requires WokenAt(s, i, capacity)
    ensures |s.keys| == |s.members| && InOrder(Entered(s, i, s.members[i].lock, Suspends))
  {
    var lock := s.members[i].lock;
    var t := Entered(s, i, lock, Suspends);
    forall j, k | 0 <= j < k < |t.members| && t.keys[j] == t.keys[k] && Passed(t.members[k])
      ensures t.members[j] == Done
    {
      if k == i {
        assert ActiveAt(s, i) && !ActiveAt(s, j);
      }
    }
  }

  lemma ResumingKeepsInv(s: Sys, i: nat, pace: Pace, capacity: nat)
    requires WokenAt(s, i, capacity)
    ensures Inv(Entered(s, i, s.members[i].lock, pace), capacity)
  {
    ResumingKeepsLocks(s, i, capacity);
    ResumingKeepsHeld(s, i, capacity);
    ResumingKeepsWoken(s, i, capacity);
    ResumingKeepsOrder(s, i, capacity);
    var t := Entered(s, i, s.members[i].lock, Suspends);
    assert Inv(t, capacity);
    LeavingKeepsInv(t, i, pace == FallsThrough, capacity);
  }

  // ----- whole runs -----

  lemma MoveKeepsInv(s: Sys, m: Move, capacity: nat)
    requires Inv(s, capacity) && Enabled(s, m)
    ensures Inv(Apply(s, m), capacity)
  {
    match m
    case Begins(i, pace) => FirstStepKeepsInv(s, i, pace, capacity);
    case Leaves(i) => LeavingKeepsInv(s, i, true, capacity);
    case Resumes(i, pace) => ResumingKeepsInv(s, i, pace, capacity);
  }

  lemma InvExcludes(s: Sys, capacity: nat)
    requires Inv(s, capacity)
    ensures Exclusive(s)
  {
    forall i, j | 0 <= i < j < |s.members| && s.members[i].InBody? && s.members[j].InBody?
      ensures s.keys[i] != s.keys[j]
    {
      assert InBodyAt(s, i) && InBodyAt(s, j) && ActiveAt(s, i) && ActiveAt(s, j);
    }
  }

  /** No two members of one key are inside the lock body together. */
  ghost predicate Exclusive(s: Sys) {
    |s.keys| == |s.members| &&
    forall i, j :: 0 <= i < j < |s.members| && s.members[i].InBody? && s.members[j].InBody? ==> s.keys[i] != s.keys[j]
  }

  lemma NextBatchKeepsInv(s: Sys, keys: seq<string>, capacity: nat)
    requires Inv(s, capacity) && AllDone(s) && |keys| <= capacity
    ensures Inv(NextBatch(s, keys), capacity)
  {
    var t := NextBatch(s, keys);
    assert forall j :: !ActiveAt(s, j) && !ActiveAt(t, j) && !InBodyAt(s, j) && !InBodyAt(t, j);
    assert ActiveIds(s) == {} && ActiveIds(t) == {};
    assert forall j, l :: !WaitsFor(s.members, j, l);
    assert s.held == {} && s.woken == {};
  }

  function Initial(capacity: nat): Sys {
    Sys([], [], 0, map[], {}, {}, 0, capacity)
  }

  /** One step of the consumer: a move of the event loop, or the next batch. */
  datatype Step = Moves(m: Move) | Gathers(keys: seq<string>)

  predicate Takes(s: Sys, step: Step, capacity: nat) {
    match step
    case Moves(m) => Enabled(s, m)
    case Gathers(keys) => AllDone(s) && |keys| <= capacity
  }

  function After(s: Sys, step: Step): Sys
    requires step.Moves? ==> Possible(s, step.m)
  {
    match step
    case Moves(m) => Apply(s, m)
    case Gathers(keys) => NextBatch(s, keys)
  }

  /** `states[k]` is the state before `steps[k]`. */
  datatype Run = Run(states: seq<Sys>, steps: seq<Step>)

  ghost predicate IsStep(r: Run, k: nat, capacity: nat)
    requires |r.states| == |r.steps| + 1 && k < |r.steps|
  {
    Takes(r.states[k], r.steps[k], capacity) && r.states[k + 1] == After(r.states[k], r.steps[k])
  }

  ghost predicate IsRun(r: Run, capacity: nat) {
    && |r.states| == |r.steps| + 1 && r.states[0] == Initial(capacity)
    && forall k: nat :: k < |r.steps| ==> IsStep(r, k, capacity)
  }

  lemma StepKeepsInv(s: Sys, step: Step, capacity: nat)
    requires Inv(s, capacity) && Takes(s, step, capacity)
    ensures Inv(After(s, step), capacity)
  {
    match step
    case Moves(m) => MoveKeepsInv(s, m, capacity);
    case Gathers(keys) => NextBatchKeepsInv(s, keys, capacity);
  }

  lemma {:induction false} RunKeepsInv(r: Run, k: nat, capacity: nat)
    requires IsRun(r, capacity) && k < |r.states|
    ensures Inv(r.states[k], capacity)
  {
    if k == 0 {
      assert ActiveIds(r.states[0]) == {};
    } else {
      RunKeepsInv(r, k - 1, capacity);
      assert IsStep(r, k - 1, capacity);
      StepKeepsInv(r.states[k - 1], r.steps[k - 1], capacity);
    }
  }

  /** In every interleaving of every sequence of batches: continuations of one task key are never
      in the lock body together, they pass it in batch order, and nobody blocks on the semaphore. */
  lemma ContinuationsSerialise(r: Run, k: nat, capacity: nat)
    requires IsRun(r, capacity) && k < |r.states|
    ensures Exclusive(r.states[k]) && InOrder(r.states[k])
    ensures forall i :: 0 <= i < |r.states[k].members| ==> r.states[k].members[i] != AtSemaphore
  {
    RunKeepsInv(r, k, capacity);
    InvExcludes(r.states[k], capacity);
  }

  // ----- the lock dictionary -----

  /** The step runs `setdefault` for the key. */
  predicate SetsKey(s: Sys, step: Step, key: string) {
    step.Moves? && step.m.Begins? && step.m.i < |s.keys| && s.keys[step.m.i] == key
  }

  /** The step takes a member of the key out of the body to the eviction. */
  predicate FallsOut(s: Sys, step: Step, key: string)
    requires step.Moves? ==> Possible(s, step.m)
  {
    && step.Moves? && s.keys[step.m.i] == key
    && (step.m.Leaves? || step.m.pace == FallsThrough)
    && Apply(s, step.m).members[step.m.i] == Done
  }

  lemma FirstStepSetsLocks(s: Sys, i: nat, pace: Pace, key: string)
    requires i < |s.members| && |s.keys| == |s.members|
    ensures var t := FirstStep(s, i, pace);
            key in t.locks <==>
              && !(s.keys[i] == key && pace == FallsThrough && t.members[i] == Done)
              && (s.keys[i] == key || key in s.locks)
  {
    if s.permits > 0 {
      FirstStepCases(s, i, pace);
    }
  }

  lemma StepSetsLocks(s: Sys, step: Step, key: string, capacity: nat)
    requires Takes(s, step, capacity)
    ensures key in After(s, step).locks <==> !FallsOut(s, step, key) && (SetsKey(s, step, key) || key in s.locks)
  {
    match step
    case Gathers(_) =>
    case Moves(Begins(i, pace)) => FirstStepSetsLocks(s, i, pace, key);
    case Moves(Leaves(_)) =>
    case Moves(Resumes(_, _)) =>
  }

  ghost predicate SetsAt(r: Run, k: nat, key: string)
    requires |r.states| == |r.steps| + 1 && k < |r.steps|
  {
    SetsKey(r.states[k], r.steps[k], key)
  }

  ghost predicate FallsOutAt(r: Run, k: nat, key: string, capacity: nat)
    requires IsRun(r, capacity) && k < |r.steps|
  {
    assert IsStep(r, k, capacity);
    FallsOut(r.states[k], r.steps[k], key)
  }

  /** Some first step of the key before step `t` has no exit that falls through from it on. */
  ghost predicate Unevicted(r: Run, t: nat, key: string, capacity: nat)
    requires IsRun(r, capacity) && t <= |r.steps|
  {
    exists k: nat :: k < t && SetsAt(r, k, key) && NoFall(r, k, t, key, capacity)
  }

  ghost predicate NoFall(r: Run, k: nat, t: nat, key: string, capacity: nat)
    requires IsRun(r, capacity) && t <= |r.steps|
  {
    forall j: nat :: k <= j < t ==> !FallsOutAt(r, j, key, capacity)
  }

  lemma UnevictedStep(r: Run, t: nat, key: string, capacity: nat)
    requires IsRun(r, capacity) && t < |r.steps|
    ensures Unevicted(r, t + 1, key, capacity)
       <==> !FallsOutAt(r, t, key, capacity) && (SetsAt(r, t, key) || Unevicted(r, t, key, capacity))
  {
    if Unevicted(r, t + 1, key, capacity) {
      var k: nat :| k < t + 1 && SetsAt(r, k, key) && NoFall(r, k, t + 1, key, capacity);
      assert !FallsOutAt(r, t, key, capacity);
      if k < t {
        assert NoFall(r, k, t, key, capacity);
      }
    }
    if !FallsOutAt(r, t, key, capacity) {
      if SetsAt(r, t, key) {
        assert NoFall(r, t, t + 1, key, capacity);
      } else if Unevicted(r, t, key, capacity) {
        var k: nat :| k < t && SetsAt(r, k, key) && NoFall(r, k, t, key, capacity);
        assert NoFall(r, k, t + 1, key, capacity);
      }
    }
  }

  /** The dictionary holds a key exactly when no exit of the key that falls through came after its
      last `setdefault`; so a lock outlives its batch when its last members return early. */
  lemma {:induction false} LockStaysExactly(r: Run, t: nat, key: string, capacity: nat)
    requires IsRun(r, capacity) && t <= |r.steps|
    ensures key in r.states[t].locks <==> Unevicted(r, t, key, capacity)
  {
    if t > 0 {
      LockStaysExactly(r, t - 1, key, capacity);
      UnevictedStep(r, t - 1, key, capacity);
      assert IsStep(r, t - 1, capacity);
      StepSetsLocks(r.states[t - 1], r.steps[t - 1], key, capacity);
    }
  }

  /** Every lock in the dictionary belongs to an active member. */
  ghost predicate Tidy(s: Sys)
    requires |s.keys| == |s.members|
  {
    forall k :: k in s.locks ==> exists i :: ActiveAt(s, i) && s.keys[i] == k
  }

  lemma LeavingKeepsTidy(s: Sys, i: nat, capacity: nat)
    requires Inv(s, capacity) && MayLeave(s, i) && Tidy(s)
    ensures Tidy(Left(s, i, s.members[i].lock, true))
  {
    var t := Left(s, i, s.members[i].lock, true);
    forall k | k in t.locks
      ensures exists j :: ActiveAt(t, j) && t.keys[j] == k
    {
      var j :| ActiveAt(s, j) && s.keys[j] == k;
      LeftMembers(s, i, true, j);
    }
  }

  lemma BeginningKeepsTidy(s: Sys, i: nat, capacity: nat, m: Member)
    requires Due(s, i, capacity) && Active(m) && Tidy(s)
    ensures |s.keys| == |s.members| && Tidy(Begun(s, i, m))
  {
    var t := Begun(s, i, m);
    forall k | k in t.locks
      ensures exists j :: ActiveAt(t, j) && t.keys[j] == k
    {
      if k in s.locks {
        var j :| ActiveAt(s, j) && s.keys[j] == k;
        BegunMembers(s, i, capacity, m, j);
      } else {
        assert ActiveAt(t, i);
      }
    }
  }

  lemma FirstStepKeepsTidy(s: Sys, i: nat, pace: Pace, capacity: nat)
    requires Inv(s, capacity) && s.started == i < |s.members| && Tidy(s) && pace != ReturnsEarly
    ensures Inv(FirstStep(s, i, pace), capacity) && Tidy(FirstStep(s, i, pace))
  {
    FirstStepKeepsInv(s, i, pace, capacity);
    PermitsSuffice(s, capacity);
    FirstStepCases(s, i, pace);
    var lock := LockFor(s, s.keys[i]);
    if lock in s.held || HasWaiter(s.members, lock) {
      BeginningKeepsTidy(s, i, capacity, Waiting(lock));
    } else {
      BeginningKeepsTidy(s, i, capacity, InBody(lock));
      var b, t := Begun(s, i, InBody(lock)), BegunInBody(s, i);
      EnteringStepKeepsInv(s, i, capacity);
      assert forall j :: ActiveAt(t, j) == ActiveAt(b, j);
      assert Tidy(t);
      LeavingKeepsTidy(t, i, capacity);
    }
  }

  predicate Early(m: Move) {
    !m.Leaves? && m.pace == ReturnsEarly
  }

  lemma MoveKeepsTidy(s: Sys, m: Move, capacity: nat)
    requires Inv(s, capacity) && Enabled(s, m) && Tidy(s) && !Early(m)
    ensures Inv(Apply(s, m), capacity) && Tidy(Apply(s, m))
  {
    MoveKeepsInv(s, m, capacity);
    match m
    case Begins(i, pace) => FirstStepKeepsTidy(s, i, pace, capacity);
    case Leaves(i) => LeavingKeepsTidy(s, i, capacity);
    case Resumes(i, pace) =>
      var t := Entered(s, i, s.members[i].lock, Suspends);
      ResumingKeepsInv(s, i, Suspends, capacity);
      forall j
        ensures ActiveAt(t, j) == ActiveAt(s, j)
      {
        ResumedMembers(s, i, capacity, j);
      }
      assert Tidy(t);
      LeavingKeepsTidy(t, i, capacity);
  }

  lemma TidyBarrier(s: Sys, capacity: nat)
    requires Inv(s, capacity) && Tidy(s) && AllDone(s)
    ensures s.locks == map[]
  {
    assert forall j :: !ActiveAt(s, j);
    assert s.locks.Keys == {};
  }

  ghost predicate NoneEarly(r: Run, t: nat) {
    forall k :: 0 <= k < t && k < |r.steps| && r.steps[k].Moves? ==> !Early(r.steps[k].m)
  }

  lemma {:induction false} NoneEarlyIsTidy(r: Run, t: nat, capacity: nat)
    requires IsRun(r, capacity) && t < |r.states| && NoneEarly(r, t)
    ensures Inv(r.states[t], capacity) && Tidy(r.states[t])
  {
    RunKeepsInv(r, t, capacity);
    if t > 0 {
      NoneEarlyIsTidy(r, t - 1, capacity);
      assert IsStep(r, t - 1, capacity);
      match r.steps[t - 1]
      case Moves(m) => MoveKeepsTidy(r.states[t - 1], m, capacity);
      case Gathers(_) => TidyBarrier(r.states[t - 1], capacity);
    }
  }

  /** As long as nobody returns early, the dictionary is empty at every barrier. */
  lemma NoneEarlyLeavesNoLock(r: Run, t: nat, capacity: nat)
    requires IsRun(r, capacity) && t < |r.states| && NoneEarly(r, t) && AllDone(r.states[t])
    ensures r.states[t].locks == map[]
  {
    NoneEarlyIsTidy(r, t, capacity);
    TidyBarrier(r.states[t], capacity);
  }

  /** The state after one more batch of one observation that returns early. */
  lemma EarlyBatch(s: Sys, key: string, capacity: nat)
    requires Inv(s, capacity) && AllDone(s) && capacity > 0 && key !in s.locks
    ensures var begin := Begins(0, ReturnsEarly);
            && Enabled(NextBatch(s, [key]), begin)
            && AllDone(Apply(NextBatch(s, [key]), begin))
            && Apply(NextBatch(s, [key]), begin).locks == s.locks[key := s.nextLock]
  {
    var b := NextBatch(s, [key]);
    NextBatchKeepsInv(s, [key], capacity);
    PermitsSuffice(b, capacity);
    FirstStepCases(b, 0, ReturnsEarly);
    assert b.members == [NotStarted];
    assert b.nextLock !in b.held by {
      assert forall i :: !InBodyAt(b, i);
    }
    assert !HasWaiter(b.members, b.nextLock);
  }

  /** The dictionary grows without bound: `n` early returns of different keys leave `n` locks. */
  lemma {:induction false} LocksPileUp(keys: seq<string>, capacity: nat) returns (r: Run)
    requires capacity > 0
    requires forall i, j :: 0 <= i < j < |keys| ==> keys[i] != keys[j]
    ensures IsRun(r, capacity) && AllDone(r.states[|r.steps|])
    ensures r.states[|r.steps|].locks.Keys == (set key | key in keys)
    ensures |r.states[|r.steps|].locks| == |keys|
  {
    if keys == [] {
      r := Run([Initial(capacity)], []);
    } else {
      var n := |keys| - 1;
      var q := LocksPileUp(keys[..n], capacity);
      var s := q.states[|q.steps|];
      var key := keys[n];
      assert key !in keys[..n];
      RunKeepsInv(q, |q.steps|, capacity);
      EarlyBatch(s, key, capacity);
      r := Extended(q, Gathers([key]), capacity);
      r := Extended(r, Moves(Begins(0, ReturnsEarly)), capacity);
      assert keys == keys[..n] + [key];
      assert r.states[|r.steps|].locks.Keys == s.locks.Keys + {key};
    }
  }

  lemma Extended(r: Run, step: Step, capacity: nat) returns (longer: Run)
    requires IsRun(r, capacity) && Takes(r.states[|r.steps|], step, capacity)
    ensures IsRun(longer, capacity) && |longer.steps| == |r.steps| + 1
    ensures longer.states[|longer.steps|] == After(r.states[|r.steps|], step)
  {
    longer := Run(r.states + [After(r.states[|r.steps|], step)], r.steps + [step]);
    forall k: nat | k < |longer.steps|
      ensures IsStep(longer, k, capacity)
    {
      assert k < |r.steps| ==> IsStep(r, k, capacity);
    }
  }

  /** The consumer never gets stuck inside a batch. */
  lemma SomebodyCanMove(s: Sys, capacity: nat) returns (m: Move)
    requires Inv(s, capacity) && !AllDone(s)
    ensures Enabled(s, m)
  {
    if s.started < |s.members| {
      m := Begins(s.started, Suspends);
    } else {
      var i :| 0 <= i < |s.members| && s.members[i] != Done;
      assert ActiveAt(s, i);
      if s.members[i].InBody? {
        m := Leaves(i);
      } else {
        var lock := s.members[i].lock;
        assert WaitsFor(s.members, i, lock);
        if lock in s.held {
          var j :| InBodyAt(s, j) && s.members[j].lock == lock;
          m := Leaves(j);
        } else {
          var first := LeastWaiter(s, lock, i);
          m := Resumes(first, Suspends);
        }
      }
    }
  }

  lemma {:induction false} LeastWaiter(s: Sys, lock: nat, i: nat) returns (first: nat)
    requires WaitsFor(s.members, i, lock)
    ensures FirstWaiter(s, lock, first)
  {
    if j :| 0 <= j < i && s.members[j] == Waiting(lock) {
      first := LeastWaiter(s, lock, j);
    } else {
      first := i;
    }
  }

  /** Moves that obey everything but the scheduling rule. */
  ghost predicate UnruledRun(states: seq<Sys>, moves: seq<Move>) {
    && |states| == |moves| + 1
    && forall k, l :: 0 <= k && l == k + 1 < |states| ==>
         Possible(states[k], moves[k]) && states[l] == Apply(states[k], moves[k])
  }

  /** Three members of one key: the first is in the body and the second waits. */
  function TwoStarted(key: string): Sys {
    Sys([key, key, key], [InBody(0), Waiting(0), NotStarted], 2, map[key := 0], {0}, {}, 1, 1)
  }

  /** The first has left and evicted the lock for which the second is woken. */
  function Evicted(key: string): Sys {
    Sys([key, key, key], [Done, Waiting(0), NotStarted], 2, map[], {}, {0}, 1, 2)
  }

  /** The third has started too early and entered under a second lock. */
  function ThirdInBody(key: string): Sys {
    Sys([key, key, key], [Done, Waiting(0), InBody(1)], 3, map[key := 1], {1}, {0}, 2, 1)
  }

  lemma TwoStart(key: string) returns (s0: Sys, s1: Sys)
    ensures s0 == NextBatch(Initial(3), [key, key, key]) && Possible(s0, Begins(0, Suspends))
    ensures s1 == Apply(s0, Begins(0, Suspends)) && Possible(s1, Begins(1, Suspends))
    ensures Apply(s1, Begins(1, Suspends)) == TwoStarted(key)
  {
    var keys := [key, key, key];
    s0 := NextBatch(Initial(3), keys);
    assert s0 == Sys(keys, [NotStarted, NotStarted, NotStarted], 0, map[], {}, {}, 0, 3);
    s1 := Apply(s0, Begins(0, Suspends));
    assert s1 == Sys(keys, [InBody(0), NotStarted, NotStarted], 1, map[key := 0], {0}, {}, 1, 2);
  }

  lemma FirstLeaves(key: string)
    ensures Possible(TwoStarted(key), Leaves(0)) && Apply(TwoStarted(key), Leaves(0)) == Evicted(key)
  {
    assert TwoStarted(key).members[0 := Done] == [Done, Waiting(0), NotStarted];
    assert WaitsFor([Done, Waiting(0), NotStarted], 1, 0);
  }

  lemma ThirdStarts(key: string)
    ensures Possible(Evicted(key), Begins(2, Suspends)) && Apply(Evicted(key), Begins(2, Suspends)) == ThirdInBody(key)
  {
  }

  lemma SecondResumes(key: string)
    ensures Possible(ThirdInBody(key), Resumes(1, Suspends))
    ensures !Exclusive(Apply(ThirdInBody(key), Resumes(1, Suspends)))
  {
    var last := Apply(ThirdInBody(key), Resumes(1, Suspends));
    assert last.members == [Done, InBody(0), InBody(1)] && last.keys == [key, key, key];
    assert InBodyAt(last, 1) && InBodyAt(last, 2);
  }

  /** Without the rule that all first steps come first, the eviction is unsafe: a member that
      starts after a lock was evicted under a waiter gets a second lock for the same key. */
  lemma FirstStepsMustComeFirst(key: string) returns (states: seq<Sys>, moves: seq<Move>)
    ensures UnruledRun(states, moves) && states[0] == NextBatch(Initial(3), [key, key, key])
    ensures !Exclusive(states[|states| - 1])
  {
    var s0, s1 := TwoStart(key);
    FirstLeaves(key);
    ThirdStarts(key);
    SecondResumes(key);
    states := [s0, s1, TwoStarted(key), Evicted(key), ThirdInBody(key), Apply(ThirdInBody(key), Resumes(1, Suspends))];
    moves := [Begins(0, Suspends), Begins(1, Suspends), Leaves(0), Begins(2, Suspends), Resumes(1, Suspends)];
  }
}
