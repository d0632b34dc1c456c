/**
 The end-of-file monitor of the player test: any number of callbacks increment a counter under a mutex
 while one waiter polls it, releasing the mutex around each sleep. The threads are interleaved in every
 possible way, one atomic step at a time.
 */
module EofMonitor {
  import opened Arithmetic
  import opened Bytes

  /** A callback: about to lock, to load the counter, to store what it loaded plus one, to unlock, returned. */
  datatype CallbackPc = CbLock | CbLoad | CbStore(tmp: int) | CbUnlock | CbDone

  /** The waiter: first lock, loop test, unlock before sleeping, sleep, lock again, last unlock, returned. */
  datatype WaiterPc = WLock | WTest | WRelease | WSleep | WRelock | WUnlock | WDone

  datatype Thread = Callback(i: nat) | Waiter

  datatype Params = Params(target: int, refresh: int, timeout: int)

  datatype State = State(
    neof: int, owner: Option<Thread>, callbacks: seq<CallbackPc>, waiter: WaiterPc, timeMs: int, sleeps: nat)

  function Init(n: nat): State
  {
    State(0, None, seq(n, _ => CbLock), WLock, 0, 0)
  }

  /** One atomic step of a thread; None when it has returned or waits for the mutex. */
  function StepCallback(s: State, i: nat): Option<State>
  {
    if i >= |s.callbacks| then None
    else
      match s.callbacks[i]
      case CbLock =>
        if s.owner.Some? then None
        else Some(s.(owner := Some(Callback(i)), callbacks := s.callbacks[i := CbLoad]))
      case CbLoad => Some(s.(callbacks := s.callbacks[i := CbStore(s.neof)]))
      case CbStore(tmp) => Some(s.(neof := tmp + 1, callbacks := s.callbacks[i := CbUnlock]))
      case CbUnlock => Some(s.(owner := None, callbacks := s.callbacks[i := CbDone]))
      case CbDone => None
  }

  function StepWaiter(s: State, p: Params): Option<State>
  {
    match s.waiter
    case WLock => if s.owner.Some? then None else Some(s.(owner := Some(Waiter), waiter := WTest))
    case WTest => Some(s.(waiter := if s.timeMs < p.timeout && s.neof < p.target then WRelease else WUnlock))
    case WRelease => Some(s.(owner := None, waiter := WSleep))
    case WSleep => Some(s.(timeMs := s.timeMs + p.refresh, sleeps := s.sleeps + 1, waiter := WRelock))
    case WRelock => if s.owner.Some? then None else Some(s.(owner := Some(Waiter), waiter := WTest))
    case WUnlock => Some(s.(owner := None, waiter := WDone))
    case WDone => None
  }

  function Step(s: State, p: Params, t: Thread): Option<State>
  {
    match t
    case Callback(i) => StepCallback(s, i)
    case Waiter => StepWaiter(s, p)
  }

  /** The state after a schedule; None when the schedule picks a thread that cannot move. */
  function Run(s: State, p: Params, schedule: seq<Thread>): Option<State>
    decreases |schedule|
  {
    if schedule == [] then Some(s)
    else
      var next := Step(s, p, schedule[0]);
      if next.None? then None else Run(next.value, p, schedule[1..])
  }

  /* ---- what every state keeps ---- */

  function Increments(callbacks: seq<CallbackPc>): nat
  {
    if callbacks == [] then 0
    else
      var last := callbacks[|callbacks| - 1];
      Increments(callbacks[..|callbacks| - 1]) + if last == CbUnlock || last == CbDone then 1 else 0
  }

  predicate CallbackHolds(pc: CallbackPc)
  {
    pc == CbLoad || pc.CbStore? || pc == CbUnlock
  }

  predicate WaiterHolds(pc: WaiterPc)
  {
    pc == WTest || pc == WRelease || pc == WUnlock
  }

  /** The mutex is owned by a thread exactly while that thread is inside its critical section, a loaded
      counter is still the counter when it is stored, the counter counts completed increments, and time is
      the time slept. */
  ghost predicate Inv(s: State, p: Params)
  {
    && (forall i :: 0 <= i < |s.callbacks| ==> (CallbackHolds(s.callbacks[i]) <==> s.owner == Some(Callback(i))))
    && (WaiterHolds(s.waiter) <==> s.owner == Some(Waiter))
    && (s.owner.Some? && s.owner.value.Callback? ==> s.owner.value.i < |s.callbacks|)
    && (forall i :: 0 <= i < |s.callbacks| && s.callbacks[i].CbStore? ==> s.callbacks[i].tmp == s.neof)
    && s.neof == Increments(s.callbacks)
    && s.timeMs == Slept(s.sleeps, p)
    && (s.waiter == WRelease || s.waiter == WSleep ==> s.timeMs < p.timeout)
    && (s.waiter == WRelease ==> s.neof < p.target)
    && (s.sleeps > 0 ==> Slept(s.sleeps - 1, p) < p.timeout)
    && (s.waiter == WUnlock || s.waiter == WDone ==> s.neof >= p.target || s.timeMs >= p.timeout)
  }

  function Slept(sleeps: nat, p: Params): int
  {
    if sleeps == 0 then 0 else Slept(sleeps - 1, p) + p.refresh
  }

  lemma {:induction false} IncrementsUpdate(callbacks: seq<CallbackPc>, i: nat, pc: CallbackPc)
    requires i < |callbacks|
    ensures Increments(callbacks[i := pc])
         == Increments(callbacks) + (if pc == CbUnlock || pc == CbDone then 1 else 0)
            - (if callbacks[i] == CbUnlock || callbacks[i] == CbDone then 1 else 0)
  {
    var k := |callbacks| - 1;
    var front := callbacks[..k];
    if i < k {
      assert callbacks[i := pc][..k] == front[i := pc];
      IncrementsUpdate(front, i, pc);
    } else {
      assert callbacks[i := pc][..k] == front;
    }
  }

  lemma {:induction false} IncrementsInitial(n: nat)
    ensures Increments(seq(n, _ => CbLock)) == 0
  {
    if n > 0 {
      assert seq(n, _ => CbLock)[..n - 1] == seq(n - 1, _ => CbLock);
      IncrementsInitial(n - 1);
    }
  }

  lemma InitInv(n: nat, p: Params)
    ensures Inv(Init(n), p)
  {
    IncrementsInitial(n);
  }

  function Next(pc: CallbackPc, neof: int): CallbackPc
  {
    match pc
    case CbLock => CbLoad
    case CbLoad => CbStore(neof)
    case CbStore(_) => CbUnlock
    case _ => CbDone
  }

  lemma CallbackInv(s: State, p: Params, i: nat)
    requires Inv(s, p) && StepCallback(s, i).Some?
    ensures var s' := StepCallback(s, i).value;
            Inv(s', p) && s'.neof >= s.neof && |s'.callbacks| == |s.callbacks|
  {
    IncrementsUpdate(s.callbacks, i, Next(s.callbacks[i], s.neof));
  }

  lemma WaiterInv(s: State, p: Params)
    requires Inv(s, p) && StepWaiter(s, p).Some?
    ensures Inv(StepWaiter(s, p).value, p)
  {
  }

  lemma StepInv(s: State, p: Params, t: Thread)
    requires Inv(s, p) && Step(s, p, t).Some?
    ensures Inv(Step(s, p, t).value, p)
    ensures Step(s, p, t).value.neof >= s.neof && |Step(s, p, t).value.callbacks| == |s.callbacks|
  {
    match t
    case Callback(i) => CallbackInv(s, p, i);
    case Waiter => WaiterInv(s, p);
  }

  /** Every state of every interleaving keeps the invariant, and the counter never goes back. */
  lemma {:induction false} RunInv(s: State, p: Params, schedule: seq<Thread>)
    requires Inv(s, p) && Run(s, p, schedule).Some?
    ensures Inv(Run(s, p, schedule).value, p)
    ensures Run(s, p, schedule).value.neof >= s.neof
    ensures |Run(s, p, schedule).value.callbacks| == |s.callbacks|
    decreases |schedule|
  {
    if schedule != [] {
      StepInv(s, p, schedule[0]);
      RunInv(Step(s, p, schedule[0]).value, p, schedule[1..]);
    }
  }

  /* ---- what follows for the waiter ---- */

  lemma {:induction false} SleptIs(sleeps: nat, p: Params)
    ensures Slept(sleeps, p) == sleeps * p.refresh
  {
    if sleeps > 0 {
      SleptIs(sleeps - 1, p);
    }
  }

  /** Least number of refresh periods that cover the timeout. */
  function MaxSleeps(p: Params): nat
    requires p.refresh > 0
  {
    if p.timeout <= 0 then 0 else (p.timeout + p.refresh - 1) / p.refresh
  }

  lemma SleepsBounded(s: State, p: Params)
    requires Inv(s, p) && p.refresh > 0
    ensures s.sleeps <= MaxSleeps(p)
    ensures s.waiter == WSleep || s.waiter == WRelease ==> s.sleeps < MaxSleeps(p)
  {
    var r, t := p.refresh, p.timeout;
    SleptIs(s.sleeps, p);
    if s.sleeps > 0 {
      SleptIs(s.sleeps - 1, p);
      CeilingAbove(s.sleeps - 1, r, t);
    }
    if s.waiter == WSleep || s.waiter == WRelease {
      CeilingAbove(s.sleeps, r, t);
    }
  }

  lemma CeilingAbove(k: nat, r: int, t: int)
    requires r > 0 && k * r < t
    ensures k + 1 <= (t + r - 1) / r
  {
    assert (k + 1) * r == k * r + r;
    DivAtLeast(t + r - 1, r, k + 1);
  }

  /** Whatever the interleaving, the waiter never sleeps while owning the mutex; when it returns it does
      not own it either, it has slept at most ceil(timeout / refresh) times, and the target was reached
      or the timeout is spent. */
  lemma WaiterReturns(n: nat, p: Params, schedule: seq<Thread>)
    requires p.refresh > 0 && Run(Init(n), p, schedule).Some?
    ensures var s := Run(Init(n), p, schedule).value;
            && (s.waiter == WSleep || s.waiter == WDone ==> s.owner != Some(Waiter))
            && s.sleeps <= MaxSleeps(p)
            && (s.waiter == WDone ==> s.neof >= p.target || s.timeMs >= p.timeout)
            && (p.timeout <= 0 || p.target <= 0 ==> s.sleeps == 0)
  {
    InitInv(n, p);
    RunInv(Init(n), p, schedule);
    SleepsBounded(Run(Init(n), p, schedule).value, p);
    if p.target <= 0 {
      TargetEndsWait(Init(n), p, schedule);
    }
  }

  /** A sleep that is already decided. */
  function SleepsDecided(pc: WaiterPc): nat
  {
    if pc == WRelease || pc == WSleep then 1 else 0
  }

  /** Once the target is reached, no interleaving makes the waiter sleep again, except for a sleep decided before;
      from its test, or anywhere but between a failed test and the sleep, it sleeps no more. */
  lemma {:induction false} TargetEndsWait(s: State, p: Params, schedule: seq<Thread>)
    requires Inv(s, p) && s.neof >= p.target && Run(s, p, schedule).Some?
    ensures var end := Run(s, p, schedule).value;
            s.sleeps <= end.sleeps && end.sleeps + SleepsDecided(end.waiter) <= s.sleeps + SleepsDecided(s.waiter)
    decreases |schedule|
  {
    if schedule != [] {
      StepInv(s, p, schedule[0]);
      TargetEndsWait(Step(s, p, schedule[0]).value, p, schedule[1..]);
    }
  }

  /** Over a whole run: at most one sleep after the target is reached, and none if it is reached when the
      waiter stands at its test. */
  lemma AtMostOneMoreSleep(n: nat, p: Params, before: seq<Thread>, after: seq<Thread>)
    requires Run(Init(n), p, before).Some? && Run(Init(n), p, before).value.neof >= p.target
    requires Run(Run(Init(n), p, before).value, p, after).Some?
    ensures var s := Run(Init(n), p, before).value; var end := Run(s, p, after).value;
            && end.sleeps <= s.sleeps + 1
            && (s.waiter == WTest || s.waiter == WLock || s.waiter == WRelock ==> end.sleeps == s.sleeps)
  {
    InitInv(n, p);
    RunInv(Init(n), p, before);
    TargetEndsWait(Run(Init(n), p, before).value, p, after);
  }

  lemma {:induction false} AllIncrements(callbacks: seq<CallbackPc>)
    requires forall i :: 0 <= i < |callbacks| ==> callbacks[i] == CbDone
    ensures Increments(callbacks) == |callbacks|
  {
    if callbacks != [] {
      AllIncrements(callbacks[..|callbacks| - 1]);
    }
  }

  /** No increment is lost: once all callbacks have returned, the counter is their number. */
  lemma NoIncrementLost(n: nat, p: Params, schedule: seq<Thread>)
    requires Run(Init(n), p, schedule).Some?
    requires forall i :: 0 <= i < |Run(Init(n), p, schedule).value.callbacks| ==>
               Run(Init(n), p, schedule).value.callbacks[i] == CbDone
    ensures Run(Init(n), p, schedule).value.neof == n
  {
    InitInv(n, p);
    RunInv(Init(n), p, schedule);
    AllIncrements(Run(Init(n), p, schedule).value.callbacks);
  }

  /** The mutex is what this rests on: two callbacks past their lock at once can lose an increment. */
  lemma UnlockedLoses(p: Params)
    ensures var s := Init(2).(callbacks := [CbLoad, CbLoad]);
            var end := Run(s, p, [Callback(0), Callback(1), Callback(0), Callback(1), Callback(0), Callback(1)]);
            end.Some? && end.value.callbacks == [CbDone, CbDone] && end.value.neof == 1
  {
    var s := Init(2).(callbacks := [CbLoad, CbLoad]);
    var s1 := s.(callbacks := s.callbacks[0 := CbStore(0)]);
    var s2 := s1.(callbacks := s1.callbacks[1 := CbStore(0)]);
    var s3 := s2.(neof := 1, callbacks := s2.callbacks[0 := CbUnlock]);
    var s4 := s3.(neof := 1, callbacks := s3.callbacks[1 := CbUnlock]);
    var s5 := s4.(callbacks := s4.callbacks[0 := CbDone]);
    var s6 := s5.(callbacks := s5.callbacks[1 := CbDone]);
    var all := [Callback(0), Callback(1), Callback(0), Callback(1), Callback(0), Callback(1)];
    RunStep(s, p, all, s1);
    RunStep(s1, p, all[1..], s2);
    RunStep(s2, p, all[1..][1..], s3);
    RunStep(s3, p, all[1..][1..][1..], s4);
    RunStep(s4, p, all[1..][1..][1..][1..], s5);
    RunStep(s5, p, all[1..][1..][1..][1..][1..], s6);
  }

  lemma RunStep(s: State, p: Params, schedule: seq<Thread>, s': State)
    requires schedule != [] && Step(s, p, schedule[0]) == Some(s')
    ensures Run(s, p, schedule) == Run(s', p, schedule[1..])
  {
  }

  predicate AllReturned(s: State)
  {
    s.waiter == WDone && forall i :: 0 <= i < |s.callbacks| ==> s.callbacks[i] == CbDone
  }

  /** There is no deadlock: until every thread has returned, some thread can move. */
  lemma SomeThreadMoves(s: State, p: Params) returns (t: Thread)
    requires Inv(s, p) && !AllReturned(s)
    ensures Step(s, p, t).Some?
  {
    if s.owner.Some? {
      t := s.owner.value;
    } else if s.waiter != WDone {
      t := Waiter;
    } else {
      var i :| 0 <= i < |s.callbacks| && s.callbacks[i] != CbDone;
      t := Callback(i);
    }
  }

  /* ---- every run ends ---- */

  function StepsLeft(pc: CallbackPc): nat
  {
    match pc
    case CbLock => 4
    case CbLoad => 3
    case CbStore(_) => 2
    case CbUnlock => 1
    case CbDone => 0
  }

  function Pending(callbacks: seq<CallbackPc>): nat
  {
    if callbacks == [] then 0
    else
      var last := callbacks[|callbacks| - 1];
      Pending(callbacks[..|callbacks| - 1])
      + StepsLeft(last)
  }

  lemma {:induction false} PendingUpdate(callbacks: seq<CallbackPc>, i: nat, neof: int)
    requires i < |callbacks| && callbacks[i] != CbDone
    ensures Pending(callbacks[i := Next(callbacks[i], neof)]) == Pending(callbacks) - 1
  {
    var next := Next(callbacks[i], neof);
    var k := |callbacks| - 1;
    var front := callbacks[..k];
    if i < k {
      assert callbacks[i := next][..k] == front[i := next];
      PendingUpdate(front, i, neof);
    } else {
      assert callbacks[i := next][..k] == front;
    }
  }

  /** Steps the waiter may still take. */
  function WaiterPending(s: State, p: Params): int
    requires p.refresh > 0
  {
    4 * (MaxSleeps(p) - s.sleeps)
    + match s.waiter
      case WLock => 3
      case WTest => 2
      case WRelease => 1
      case WSleep => 0
      case WRelock => 3
      case WUnlock => 1
      case WDone => 0
  }

  lemma StepDecreases(s: State, p: Params, t: Thread)
    requires Inv(s, p) && p.refresh > 0 && Step(s, p, t).Some?
    ensures var s' := Step(s, p, t).value;
            Pending(s'.callbacks) + WaiterPending(s', p) < Pending(s.callbacks) + WaiterPending(s, p)
  {
    if t.Callback? {
      PendingUpdate(s.callbacks, t.i, s.neof);
    }
  }

  lemma {:induction false} RunBounded(s: State, p: Params, schedule: seq<Thread>)
    requires Inv(s, p) && p.refresh > 0 && Run(s, p, schedule).Some?
    ensures |schedule| <= Pending(s.callbacks) + WaiterPending(s, p)
    decreases |schedule|
  {
    SleepsBounded(s, p);
    if schedule != [] {
      StepInv(s, p, schedule[0]);
      StepDecreases(s, p, schedule[0]);
      RunBounded(Step(s, p, schedule[0]).value, p, schedule[1..]);
    }
  }

  lemma {:induction false} PendingInitial(n: nat)
    ensures Pending(seq(n, _ => CbLock)) == 4 * n
  {
    if n > 0 {
      assert seq(n, _ => CbLock)[..n - 1] == seq(n - 1, _ => CbLock);
      PendingInitial(n - 1);
    }
  }

  /** No schedule of n callbacks and the waiter is longer than 4n + 4 * ceil(timeout / refresh) + 3 steps:
      with no deadlock, every maximal run ends with all threads returned. */
  lemma RunsAreFinite(n: nat, p: Params, schedule: seq<Thread>)
    requires p.refresh > 0 && Run(Init(n), p, schedule).Some?
    ensures |schedule| <= 4 * n + 4 * MaxSleeps(p) + 3
  {
    InitInv(n, p);
    PendingInitial(n);
    RunBounded(Init(n), p, schedule);
  }

  /* ---- without a positive refresh time ---- */

  /** The waiter has nothing to wait for: it takes the mutex, looks and leaves. */
  predicate NothingToWaitFor(p: Params)
  {
    p.timeout <= 0 || p.target <= 0
  }

  ghost predicate NeverSlept(s: State, p: Params)
  {
    && s.timeMs == 0
    && (s.waiter == WLock || s.waiter == WTest || s.waiter == WUnlock || s.waiter == WDone)
  }

  function LooksPending(pc: WaiterPc): nat
  {
    match pc
    case WLock => 3
    case WTest => 2
    case WUnlock => 1
    case _ => 0
  }

  lemma LookingStep(s: State, p: Params, t: Thread)
    requires NothingToWaitFor(p) && Inv(s, p) && NeverSlept(s, p) && Step(s, p, t).Some?
    ensures var s' := Step(s, p, t).value;
            && NeverSlept(s', p)
            && Pending(s'.callbacks) + LooksPending(s'.waiter) < Pending(s.callbacks) + LooksPending(s.waiter)
  {
    if t.Callback? {
      PendingUpdate(s.callbacks, t.i, s.neof);
    }
  }

  lemma {:induction false} LookingBounded(s: State, p: Params, schedule: seq<Thread>)
    requires NothingToWaitFor(p) && Inv(s, p) && NeverSlept(s, p) && Run(s, p, schedule).Some?
    ensures |schedule| <= Pending(s.callbacks) + LooksPending(s.waiter)
    decreases |schedule|
  {
    if schedule != [] {
      StepInv(s, p, schedule[0]);
      LookingStep(s, p, schedule[0]);
      LookingBounded(Step(s, p, schedule[0]).value, p, schedule[1..]);
    }
  }

  /** Otherwise, when the refresh time is not positive, time never advances, and a waiter whose target is
      not reached polls for as long as the schedule lets it. */
  lemma {:induction false} PollsOn(s: State, p: Params, k: nat)
    requires p.refresh <= 0 && s.waiter == WTest && s.neof < p.target && s.timeMs < p.timeout
    ensures Run(s, p, seq(4 * k, _ => Waiter)).Some?
    decreases k
  {
    if k > 0 {
      var all := seq(4 * k, _ => Waiter);
      var s1 := s.(waiter := WRelease);
      var s2 := s1.(owner := None, waiter := WSleep);
      var s3 := s2.(timeMs := s.timeMs + p.refresh, sleeps := s.sleeps + 1, waiter := WRelock);
      var s4 := s3.(owner := Some(Waiter), waiter := WTest);
      assert all[1..][1..][1..][1..] == seq(4 * (k - 1), _ => Waiter);
      assert Run(s3, p, all[1..][1..][1..]) == Run(s4, p, all[1..][1..][1..][1..]);
      assert Run(s2, p, all[1..][1..]) == Run(s3, p, all[1..][1..][1..]);
      assert Run(s1, p, all[1..]) == Run(s2, p, all[1..][1..]);
      PollsOn(s4, p, k - 1);
    }
  }

  /** From the start there are then runs of any length. */
  lemma PollsWithoutEnd(n: nat, p: Params, k: nat) returns (schedule: seq<Thread>)
    requires p.refresh <= 0 && !NothingToWaitFor(p)
    ensures Run(Init(n), p, schedule).Some? && |schedule| > k
  {
    var rest := seq(4 * k, _ => Waiter);
    schedule := [Waiter] + rest;
    var s := Init(n).(owner := Some(Waiter), waiter := WTest);
    PollsOn(s, p, k);
    assert schedule[1..] == rest;
  }

  ghost predicate BoundedBy(n: nat, p: Params, bound: nat)
  {
    forall schedule :: Run(Init(n), p, schedule).Some? ==> |schedule| <= bound
  }

  /** The runs are bounded if and only if the refresh time is positive or there is nothing to wait for. */
  lemma BoundedIff(n: nat, p: Params)
    ensures (exists bound :: BoundedBy(n, p, bound)) <==> p.refresh > 0 || NothingToWaitFor(p)
  {
    if p.refresh > 0 {
      forall schedule | Run(Init(n), p, schedule).Some?
        ensures |schedule| <= 4 * n + 4 * MaxSleeps(p) + 3
      {
        RunsAreFinite(n, p, schedule);
      }
      assert BoundedBy(n, p, 4 * n + 4 * MaxSleeps(p) + 3);
    } else if NothingToWaitFor(p) {
      PendingInitial(n);
      forall schedule | Run(Init(n), p, schedule).Some?
        ensures |schedule| <= 4 * n + 3
      {
        InitInv(n, p);
        LookingBounded(Init(n), p, schedule);
      }
      assert BoundedBy(n, p, 4 * n + 3);
    } else {
      forall bound: nat
        ensures !BoundedBy(n, p, bound)
      {
        var schedule := PollsWithoutEnd(n, p, bound);
      }
    }
  }
}
