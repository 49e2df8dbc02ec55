/** Threads that change think times at once: each first reads the schedule without the
lock, and may then update it with the lock held.  Waiters plan from the head of the queue. */
module ThinkerThreads {
  import opened ThinkerQueue

  /** A call that has passed its lockless read and waits for the lock. */
  datatype Call = Ensure(thinker: nat, target: int, from: nat) | Set(thinker: nat, target: int)

  /** A waiter: when it plans to look again, and whether it was sent a wake since. */
  datatype Waiter = Waiter(plan: int, woken: bool)

  /** A finished call of `EnsureMinThinkTime`, from one instant to another. */
  datatype Done = Done(thinker: nat, target: int, from: nat, to: nat)

  /** `history` is the schedule at every instant so far; the last is the present. */
  datatype System = System(history: seq<Times>, calls: map<nat, Call>, waiters: map<nat, Waiter>, done: seq<Done>) {
    ghost predicate Started() {
      |history| > 0
    }

    function Time(): Times
      requires |history| > 0
    {
      history[|history| - 1]
    }

    function Now(): nat
      requires |history| > 0
    {
      |history| - 1
    }
  }

  const START := System([map[]], map[], map[], [])

  datatype Step =
    | CallEnsure(thread: nat, thinker: nat, target: int)
    | CallSet(thread: nat, thinker: nat, target: int)
    | Locked(thread: nat, clock: int)
    | Service(thinker: nat, target: int, clock: int)
    | Plan(waiter: nat, plan: int)

  /** The granted time is earlier than the head of the queue, so a wake is sent. */
  ghost predicate Wakes(time: Times, when: int) {
    forall t: nat :: when < TimeOf(time, t)
  }

  /** The table sends a wake in the same cases. */
  lemma WakesAtTheHead(table: Thinkers, when: int)
    requires table.Valid()
    ensures Wakes(table.time, when) <==> when < table.NextWake()
  {
    table.NextWakeIsEarliest();
    if table.NextWake() == NEVER { assert TimeOf(table.time, 0) == NEVER; }
  }

  ghost predicate Enabled(s: System, step: Step)
    requires s.Started()
  {
    match step
    case CallEnsure(thread, _, target) => thread !in s.calls && target <= NEVER
    case CallSet(thread, _, target) => thread !in s.calls && target <= NEVER
    case Locked(thread, clock) => thread in s.calls && 0 < clock && clock + 2000 <= NEVER
    case Service(_, target, clock) => target <= NEVER && 0 < clock && clock + 2000 <= NEVER
    case Plan(_, plan) => IsEarliest(s.Time(), plan)
  }

  /** The table after an update, and the waiters after its wake. */
  ghost function Updated(s: System, thinker: nat, when: int): System
    requires s.Started()
  {
    s.(history := s.history + [s.Time()[thinker := when]],
       waiters := if Wakes(s.Time(), when) then (map w | w in s.waiters :: s.waiters[w].(woken := true)) else s.waiters)
  }

  /** Time passes and the table stays as it is. */
  function Kept(s: System): System
    requires s.Started()
  {
    s.(history := s.history + [s.Time()])
  }

  ghost function Next(s: System, step: Step): (s': System)
    requires s.Started() && Enabled(s, step)
    ensures s'.Started()
  {
    match step
    case CallEnsure(thread, thinker, target) =>
      if target < TimeOf(s.Time(), thinker) then Kept(s).(calls := s.calls[thread := Ensure(thinker, target, s.Now())])
      else Kept(s).(done := s.done + [Done(thinker, target, s.Now(), s.Now())])
    case CallSet(thread, thinker, target) =>
      if target == TimeOf(s.Time(), thinker) then Kept(s)
      else Kept(s).(calls := s.calls[thread := Set(thinker, target)])
    case Locked(thread, clock) =>
      (match s.calls[thread]
       case Ensure(thinker, target, from) =>
         (if target < TimeOf(s.Time(), thinker) then Updated(s, thinker, Granted(target, clock)) else Kept(s))
           .(calls := s.calls - {thread}, done := s.done + [Done(thinker, target, from, s.Now() + 1)])
       case Set(thinker, target) =>
         Updated(s, thinker, Granted(target, clock)).(calls := s.calls - {thread}))
    case Service(thinker, target, clock) => Updated(s, thinker, Granted(target, clock))
    case Plan(waiter, plan) => Kept(s).(waiters := s.waiters[waiter := Waiter(plan, false)])
  }

  ghost predicate IsRun(s: System, steps: seq<Step>)
    requires s.Started()
    decreases |steps|
  {
    steps == [] || (Enabled(s, steps[0]) && IsRun(Next(s, steps[0]), steps[1..]))
  }

  ghost function Run(s: System, steps: seq<Step>): (s': System)
    requires s.Started() && IsRun(s, steps)
    ensures s'.Started()
    decreases |steps|
  {
    if steps == [] then s else Run(Next(s, steps[0]), steps[1..])
  }

  // ---------------------------------------------------------------- invariants

  /** Schedules are positive and no later than never. */
  ghost predicate Positive(time: Times) {
    forall t: nat :: 0 < TimeOf(time, t) <= NEVER
  }

  /** At some instant of the call the schedule was no later than it asked for. */
  ghost predicate Reached(history: seq<Times>, d: Done) {
    exists k :: d.from <= k <= d.to < |history| && TimeOf(history[k], d.thinker) <= d.target
  }

  /** A waiter has been woken or planned no later than the head of the queue. */
  ghost predicate Safe(time: Times, w: Waiter) {
    w.woken || forall t: nat :: w.plan <= TimeOf(time, t)
  }

  ghost predicate Inv(s: System) {
    && s.Started()
    && (forall k :: 0 <= k < |s.history| ==> Positive(s.history[k]))
    && (forall c :: c in s.calls && s.calls[c].Ensure? ==> s.calls[c].from < |s.history|)
    && (forall c :: c in s.calls ==> s.calls[c].target <= NEVER)
    && (forall w :: w in s.waiters ==> Safe(s.Time(), s.waiters[w]))
    && (forall d :: d in s.done ==> d.from <= d.to < |s.history|)
    && (forall d :: d in s.done && d.target > 0 ==> Reached(s.history, d))
  }

  lemma SetKeepsPositive(time: Times, thinker: nat, when: int)
    requires Positive(time) && 0 < when <= NEVER
    ensures Positive(time[thinker := when])
  {
    var time' := time[thinker := when];
    assert forall t: nat :: TimeOf(time', t) == (if t == thinker then when else TimeOf(time, t));
  }

  /** An update that is not the new head cannot pass a waiter's plan. */
  lemma SetKeepsSafe(time: Times, thinker: nat, when: int, w: Waiter)
    requires Safe(time, w) && !Wakes(time, when)
    ensures Safe(time[thinker := when], w)
  {
    var time' := time[thinker := when];
    assert forall t: nat :: TimeOf(time', t) == (if t == thinker then when else TimeOf(time, t));
    var u: nat :| TimeOf(time, u) <= when;
  }

  lemma UpdateKeepsInv(s: System, thinker: nat, when: int)
    requires Inv(s) && 0 < when <= NEVER
    ensures Inv(Updated(s, thinker, when))
  {
    var s' := Updated(s, thinker, when);
    SetKeepsPositive(s.Time(), thinker, when);
    if !Wakes(s.Time(), when) {
      forall w | w in s.waiters ensures Safe(s'.Time(), s'.waiters[w]) {
        SetKeepsSafe(s.Time(), thinker, when, s.waiters[w]);
      }
    }
    ReachedStays(s, s'.Time());
  }

  lemma KeptKeepsInv(s: System)
    requires Inv(s)
    ensures Inv(Kept(s))
  {
    ReachedStays(s, s.Time());
  }

  lemma ReachedStays(s: System, time: Times)
    requires Inv(s)
    ensures forall d :: d in s.done && d.target > 0 ==> Reached(s.history + [time], d)
  {
    forall d | d in s.done && d.target > 0 ensures Reached(s.history + [time], d) {
      var k :| d.from <= k <= d.to < |s.history| && TimeOf(s.history[k], d.thinker) <= d.target;
      assert (s.history + [time])[k] == s.history[k];
    }
  }

  lemma StepKeepsInv(s: System, step: Step)
    requires Inv(s) && Enabled(s, step)
    ensures Inv(Next(s, step))
  {
    match step {
      case CallEnsure(thread, thinker, target) =>
        KeptKeepsInv(s);
        CallDone(s, Kept(s), Done(thinker, target, s.Now(), s.Now()), s.Now());
      case CallSet(thread, thinker, target) =>
        KeptKeepsInv(s);
      case Locked(thread, clock) =>
        LockedKeepsInv(s, thread, clock);
      case Service(thinker, target, clock) =>
        UpdateKeepsInv(s, thinker, Granted(target, clock));
      case Plan(waiter, plan) =>
        KeptKeepsInv(s);
    }
  }

  /** The instant k witnesses the finished call. */
  lemma CallDone(s: System, s': System, d: Done, k: nat)
    requires |s'.history| == |s.history| + 1 && d.from <= k <= d.to < |s'.history|
    ensures d.target > 0 && TimeOf(s'.history[k], d.thinker) <= d.target ==> Reached(s'.history, d)
  {
  }

  lemma LockedKeepsInv(s: System, thread: nat, clock: int)
    requires Inv(s) && Enabled(s, Locked(thread, clock))
    ensures Inv(Next(s, Locked(thread, clock)))
  {
    var call := s.calls[thread];
    UpdateKeepsInv(s, call.thinker, Granted(call.target, clock));
    KeptKeepsInv(s);
    if call.Ensure? {
      var d := Done(call.thinker, call.target, call.from, s.Now() + 1);
      var s' := Next(s, Locked(thread, clock));
      CallDone(s, s', d, s.Now() + 1);
    }
  }

  lemma {:induction false} RunKeepsInv(s: System, steps: seq<Step>)
    requires Inv(s) && IsRun(s, steps)
    ensures Inv(Run(s, steps))
    decreases |steps|
  {
    if steps != [] {
      StepKeepsInv(s, steps[0]);
      RunKeepsInv(Next(s, steps[0]), steps[1..]);
    }
  }

  // ---------------------------------------------------------------- what holds of every run

  lemma StartHolds()
    ensures Inv(START)
  {
  }

  /** However the threads interleave, no waiter sleeps past the head of the queue: it was
  sent a wake, or its plan is no later than any schedule. */
  lemma NoLostWakes(steps: seq<Step>, w: nat)
    requires IsRun(START, steps) && w in Run(START, steps).waiters
    ensures var s := Run(START, steps);
            s.waiters[w].woken || forall t: nat :: s.waiters[w].plan <= TimeOf(s.Time(), t)
  {
    StartHolds();
    RunKeepsInv(START, steps);
  }

  /** A finished call of `EnsureMinThinkTime` has an instant during it at which the
  schedule was no later than asked for, exactly when it asked for a time after zero. */
  lemma EnsureMinIsReached(steps: seq<Step>, d: Done)
    requires IsRun(START, steps) && d in Run(START, steps).done
    ensures Reached(Run(START, steps).history, d) <==> d.target > 0
  {
    StartHolds();
    RunKeepsInv(START, steps);
    var s := Run(START, steps);
    forall k | d.from <= k <= d.to ensures TimeOf(s.history[k], d.thinker) > 0 {
      assert Positive(s.history[k]);
    }
  }

  /** On any schedule, the locked update of `EnsureMinThinkTime` moves nothing later exactly
  when it asks for a time after zero or 2 ms from now is early enough anyway. */
  lemma UpdateNeverLater(time: Times, thinker: nat, target: int, clock: int)
    requires Positive(time)
    ensures (forall t: nat :: TimeOf(EnsuredMin(time, thinker, target, clock), t) <= TimeOf(time, t)) <==>
            (target > 0 || clock + 2000 <= TimeOf(time, thinker))
  {
    var time' := EnsuredMin(time, thinker, target, clock);
    assert forall t: nat :: t != thinker ==> TimeOf(time', t) == TimeOf(time, t);
    assert 0 < TimeOf(time, thinker);
  }

  /** After every run, the step in which a pending `EnsureMinThinkTime` gets the lock does
  that update, whatever happened since its lockless read, and so moves no schedule later
  exactly under that condition. */
  lemma EnsureMinNeverLater(steps: seq<Step>, thread: nat, clock: int)
    requires IsRun(START, steps) && Enabled(Run(START, steps), Locked(thread, clock))
    requires Run(START, steps).calls[thread].Ensure?
    ensures var s := Run(START, steps);
            var s', call := Next(s, Locked(thread, clock)), s.calls[thread];
            && s'.Time() == EnsuredMin(s.Time(), call.thinker, call.target, clock)
            && ((forall t: nat :: TimeOf(s'.Time(), t) <= TimeOf(s.Time(), t)) <==>
                (call.target > 0 || clock + 2000 <= TimeOf(s.Time(), call.thinker)))
  {
    StartHolds();
    RunKeepsInv(START, steps);
    var s := Run(START, steps);
    var call := s.calls[thread];
    assert Positive(s.Time());
    UpdateNeverLater(s.Time(), call.thinker, call.target, clock);
  }

  lemma ThreeSteps(s: System, steps: seq<Step>)
    requires |steps| == 3 && s.Started() && Enabled(s, steps[0])
    requires Enabled(Next(s, steps[0]), steps[1]) && Enabled(Next(Next(s, steps[0]), steps[1]), steps[2])
    ensures IsRun(s, steps) && Run(s, steps) == Next(Next(Next(s, steps[0]), steps[1]), steps[2])
  {
    hide Next, Enabled;
    var s1 := Next(s, steps[0]);
    var s2 := Next(s1, steps[1]);
    var last, rest := [steps[2]], [steps[1], steps[2]];
    assert last[1..] == [] && rest[1..] == last && steps[1..] == rest;
    assert IsRun(s2, last) && Run(s2, last) == Next(s2, steps[2]);
    assert IsRun(s1, rest) && Run(s1, rest) == Run(s2, last);
  }

  /** A run in which a request for time zero gets its way: thinker 0, which was scheduled
  for time 5, is moved to time 3000, and at no instant of the call was it due by then. */
  lemma EnsureMinZeroExample(steps: seq<Step>)
    requires steps == [Service(0, 5, 1000), CallEnsure(0, 0, 0), Locked(0, 1000)]
    ensures IsRun(START, steps)
    ensures var s, d := Run(START, steps), Done(0, 0, 1, 3);
            && d in s.done && !Reached(s.history, d)
            && |s.history| == 4 && TimeOf(s.history[2], 0) == 5 && TimeOf(s.Time(), 0) == 3000
  {
    var s1 := Next(START, steps[0]);
    var s2 := Next(s1, steps[1]);
    var s3 := Next(s2, steps[2]);
    assert s2.calls == map[0 := Ensure(0, 0, 1)] && s2.Now() == 2;
    assert s1.history == [map[], map[0 := 5]];
    assert s2.history == [map[], map[0 := 5], map[0 := 5]];
    assert map[0 := 5][0 := 3000] == map[0 := 3000];
    assert s2.Time() == map[0 := 5] && TimeOf(s2.Time(), 0) == 5;
    assert s3.history == s2.history + [s2.Time()[0 := 3000]];
    assert s3.history == [map[], map[0 := 5], map[0 := 5], map[0 := 3000]];
    assert s3.done == [Done(0, 0, 1, 3)];
    ThreeSteps(START, steps);
    EnsureMinIsReached(steps, Done(0, 0, 1, 3));
  }

  // ---------------------------------------------------------------- the table under all interleavings

  /** The step is an update that sends a wake. */
  ghost predicate SendsWake(s: System, step: Step)
    requires s.Started() && Enabled(s, step)
  {
    match step
    case Locked(thread, clock) =>
      var call := s.calls[thread];
      (call.Ensure? ==> call.target < TimeOf(s.Time(), call.thinker)) && Wakes(s.Time(), Granted(call.target, clock))
    case Service(_, target, clock) => Wakes(s.Time(), Granted(target, clock))
    case _ => false
  }

  ghost function WakesSent(s: System, steps: seq<Step>): nat
    requires s.Started() && IsRun(s, steps)
    decreases |steps|
  {
    if steps == [] then 0
    else (if SendsWake(s, steps[0]) then 1 else 0) + WakesSent(Next(s, steps[0]), steps[1..])
  }

  /** There is only one earliest time. */
  lemma OneEarliest(time: Times, h: int, k: int)
    requires IsEarliest(time, h) && IsEarliest(time, k) && forall t: nat :: TimeOf(time, t) <= NEVER
    ensures h == k
  {
    assert h <= TimeOf(time, 0) && k <= TimeOf(time, 0);
  }

  /** One step of the threads, on the table with its queue. */
  method ReplayStep(table: Thinkers, calls: map<nat, Call>, step: Step, now: nat, ghost s: System)
    returns (calls': map<nat, Call>)
    requires table.Valid() && Inv(s) && Enabled(s, step)
    requires table.time == s.Time() && calls == s.calls && now == s.Now()
    modifies table
    ensures table.Valid() && table.time == Next(s, step).Time() && calls' == Next(s, step).calls
    ensures table.wakes == old(table.wakes) + if SendsWake(s, step) then 1 else 0
    ensures step.Plan? ==> table.NextWake() == step.plan
  {
    calls' := calls;
    match step {
      case CallEnsure(thread, thinker, target) =>
        if target < TimeOf(table.time, thinker) { calls' := calls[thread := Ensure(thinker, target, now)]; }
      case CallSet(thread, thinker, target) =>
        if target != TimeOf(table.time, thinker) { calls' := calls[thread := Set(thinker, target)]; }
      case Locked(thread, clock) =>
        var call := calls[thread];
        WakesAtTheHead(table, Granted(call.target, clock));
        table.NextWakeIsEarliest();
        match call {
          case Ensure(thinker, target, _) => table.InternalEnsureMinThinkTime(thinker, target, clock);
          case Set(thinker, target) => table.InternalSetNextThinkTime(thinker, target, clock);
        }
        calls' := calls - {thread};
      case Service(thinker, target, clock) =>
        WakesAtTheHead(table, Granted(target, clock));
        table.InternalSetNextThinkTime(thinker, target, clock);
      case Plan(waiter, plan) =>
        var when := table.GetNextScheduledThinkTime();
        OneEarliest(table.time, when, plan);
    }
  }

  /** However the threads interleave, the table ends up with the schedule of the run, a
  thinker is in its queue exactly when it is scheduled, and it has sent the wakes of the
  run. */
  method Replay(steps: seq<Step>) returns (table: Thinkers)
    requires IsRun(START, steps)
    ensures table.Valid() && table.time == Run(START, steps).Time()
    ensures table.wakes == WakesSent(START, steps)
    ensures forall t: nat :: IndexOf(table.index, t) >= 0 <==> TimeOf(Run(START, steps).Time(), t) != NEVER
  {
    table := new Thinkers();
    ghost var s := START;
    var calls: map<nat, Call> := map[];
    StartHolds();
    assert steps[0..] == steps;
    for i := 0 to |steps|
      invariant table.Valid() && Inv(s) && table.time == s.Time() && calls == s.calls && s.Now() == i
      invariant fresh(table) && IsRun(s, steps[i..]) && Run(s, steps[i..]) == Run(START, steps)
      invariant table.wakes + WakesSent(s, steps[i..]) == WakesSent(START, steps)
    {
      hide Inv;
      assert steps[i..][0] == steps[i] && steps[i..][1..] == steps[i + 1..];
      StepKeepsInv(s, steps[i]);
      calls := ReplayStep(table, calls, steps[i], i, s);
      OneMoreInstant(s, steps[i]);
      s := Next(s, steps[i]);
    }
    assert steps[|steps|..] == [];
  }

  lemma OneMoreInstant(s: System, step: Step)
    requires s.Started() && Enabled(s, step)
    ensures |Next(s, step).history| == |s.history| + 1
  {
  }
}
