/** The table of thinkers: when each wants to run, and a heap of those that do, whose
elements know their place in it. */
module ThinkerQueue {
  import opened HeapOrder

  /** The think time of a thinker that is not scheduled. */
  const NEVER: int := 0x7FFF_FFFF_FFFF_FFFF

  /** Think times by thinker; a thinker that has none yet is not scheduled. */
  type Times = map<nat, int>

  function TimeOf(time: Times, t: nat): int {
    if t in time then time[t] else NEVER
  }

  function IndexOf(index: map<nat, int>, t: nat): int {
    if t in index then index[t] else -1
  }

  function Keys(heap: seq<nat>, time: Times): (k: seq<int>)
    ensures |k| == |heap| && forall i :: 0 <= i < |heap| ==> k[i] == TimeOf(time, heap[i])
  {
    seq(|heap|, i requires 0 <= i < |heap| => TimeOf(time, heap[i]))
  }

  /** Every element of the heap knows where it is, and nothing else claims a place. */
  ghost predicate Indexed(heap: seq<nat>, index: map<nat, int>) {
    && (forall i :: 0 <= i < |heap| ==> IndexOf(index, heap[i]) == i)
    && forall t: nat :: IndexOf(index, t) == -1 || (0 <= IndexOf(index, t) < |heap| && heap[IndexOf(index, t)] == t)
  }

  /** The same thinkers are in the queue. */
  ghost predicate SameQueued(a: map<nat, int>, b: map<nat, int>) {
    forall t: nat :: IndexOf(a, t) >= 0 <==> IndexOf(b, t) >= 0
  }

  /** h is the earliest think time there is. */
  ghost predicate IsEarliest(time: Times, h: int) {
    && (forall t: nat :: h <= TimeOf(time, t))
    && (h == NEVER || exists t: nat :: TimeOf(time, t) == h)
  }

  /** The time that a request for `target` at time now is granted. */
  function Granted(target: int, now: int): int {
    if target <= 0 then now + 2000 else target
  }

  lemma SwapIndexed(heap: seq<nat>, index: map<nat, int>, a: nat, b: nat)
    requires Indexed(heap, index) && a < b < |heap|
    ensures var index' := index[heap[b] := a][heap[a] := b];
            Indexed(Swapped(heap, a, b), index') && SameQueued(index, index')
  {
    var heap', index' := Swapped(heap, a, b), index[heap[b] := a][heap[a] := b];
    assert forall t: nat :: IndexOf(index', t) ==
                            (if t == heap[a] then b else if t == heap[b] then a else IndexOf(index, t));
  }

  lemma InsertIndexed(heap: seq<nat>, index: map<nat, int>, t: nat)
    requires Indexed(heap, index) && IndexOf(index, t) == -1
    ensures Indexed(heap + [t], index[t := |heap|])
    ensures SameQueued(index[t := 0], index[t := |heap|])
  {
    var index' := index[t := |heap|];
    assert forall u: nat :: IndexOf(index', u) == (if u == t then |heap| else IndexOf(index, u));
    assert forall u: nat :: IndexOf(index[t := 0], u) == (if u == t then 0 else IndexOf(index, u));
  }

  /** The last element moves into the gap at i, unless it is the one taken out. */
  lemma RemoveIndexed(heap: seq<nat>, index: map<nat, int>, i: nat)
    requires Indexed(heap, index) && i < |heap|
    ensures var last, n := heap[|heap| - 1], |heap| - 1;
            var index1 := index[heap[i] := -1];
            var index' := if i < n then index1[last := i] else index1;
            Indexed(heap[i := last][..n], index') && SameQueued(index1, index')
  {
    var last, n := heap[|heap| - 1], |heap| - 1;
    var index1 := index[heap[i] := -1];
    var index' := if i < n then index1[last := i] else index1;
    assert IndexOf(index, last) == n && IndexOf(index, heap[i]) == i;
    assert forall u: nat :: IndexOf(index1, u) == (if u == heap[i] then -1 else IndexOf(index, u));
    assert forall u: nat :: IndexOf(index', u) == (if u == last && i < n then i else IndexOf(index1, u));
  }

  class Thinkers {
    var heap: seq<nat>
    var index: map<nat, int>
    var time: Times
    var wakes: nat

    ghost predicate Shaped()
      reads this
    {
      Indexed(heap, index)
    }

    /** A thinker is queued exactly when it is scheduled, and the queue is a heap. */
    ghost predicate Valid()
      reads this
    {
      && Shaped() && Ordered(Keys(heap, time))
      && (forall t: nat :: TimeOf(time, t) <= NEVER)
      && forall t: nat :: IndexOf(index, t) >= 0 <==> TimeOf(time, t) != NEVER
    }

    /** When the head of the queue wants service. */
    function NextWake(): int
      reads this
    {
      if |heap| > 0 then TimeOf(time, heap[0]) else NEVER
    }

    constructor ()
      ensures Valid() && time == map[] && wakes == 0
    {
      heap, index, time, wakes := [], map[], map[], 0;
    }

    // -------------------------------------------------------------- the heap

    method Swap(parent: nat, child: nat)
      requires Shaped() && parent < child < |heap| && TimeOf(time, heap[child]) < TimeOf(time, heap[parent])
      modifies `heap, `index
      ensures Shaped() && heap == Swapped(old(heap), parent, child)
      ensures Keys(heap, time) == Swapped(old(Keys(heap, time)), parent, child)
      ensures SameQueued(old(index), index)
    {
      var tmp := heap[parent];
      heap := heap[parent := heap[child]];
      heap := heap[child := tmp];
      index := index[heap[parent] := parent][heap[child] := child];
      SwapIndexed(old(heap), old(index), parent, child);
    }

    method PercolateDown(start: nat) returns (i: nat)
      requires Shaped() && start < |heap|
      requires OrderedBut(Keys(heap, time), start) && Bridged(Keys(heap, time), start)
      modifies `heap, `index
      ensures Shaped() && |heap| == old(|heap|) && i < |heap|
      ensures SameQueued(old(index), index)
      ensures if i == start then OpenAbove(Keys(heap, time), i) && heap == old(heap) else Ordered(Keys(heap, time))
    {
      i := start;
      while true
        invariant Shaped() && |heap| == old(|heap|) && i < |heap|
        invariant SameQueued(old(index), index)
        invariant OrderedBut(Keys(heap, time), i) && Bridged(Keys(heap, time), i)
        invariant if i == start then heap == old(heap) else i > start && OpenBelow(Keys(heap, time), i)
        decreases |heap| - i
      {
        var larger := LargerChild(i);
        if larger == i { break; }
        SwapDown(Keys(heap, time), i, larger);
        Swap(i, larger);
        i := larger;
      }
    }

    /** The child that should change places with i, or i itself. */
    method LargerChild(i: nat) returns (larger: nat)
      requires i < |heap|
      ensures larger == i ==>
                forall j :: 0 < j < |heap| && Parent(j) == i ==> Keys(heap, time)[i] <= Keys(heap, time)[j]
      ensures larger != i ==>
                && i < larger < |heap| && Parent(larger) == i && Keys(heap, time)[larger] < Keys(heap, time)[i]
                && forall j :: 0 < j < |heap| && Parent(j) == i ==> Keys(heap, time)[larger] <= Keys(heap, time)[j]
    {
      larger := i;
      var child := (i + 1) * 2 - 1;
      if child >= |heap| { return; }
      if TimeOf(time, heap[i]) > TimeOf(time, heap[child]) { larger := child; }
      child := child + 1;
      if child < |heap| {
        if TimeOf(time, heap[larger]) > TimeOf(time, heap[child]) { larger := child; }
      }
      assert forall j :: 0 < j < |heap| && Parent(j) == i ==> j == child - 1 || j == child;
    }

    method PercolateUp(start: nat)
      requires Shaped() && start < |heap| && OpenAbove(Keys(heap, time), start)
      modifies `heap, `index
      ensures Shaped() && |heap| == old(|heap|) && SameQueued(old(index), index)
      ensures Ordered(Keys(heap, time))
    {
      var i: nat := start;
      while i > 0
        invariant Shaped() && |heap| == old(|heap|) && i < |heap|
        invariant SameQueued(old(index), index)
        invariant OpenAbove(Keys(heap, time), i)
        decreases i
      {
        var parent := (i + 1) / 2 - 1;
        if !(TimeOf(time, heap[parent]) > TimeOf(time, heap[i])) { break; }
        SwapUp(Keys(heap, time), i);
        Swap(parent, i);
        i := parent;
      }
    }

    method RevaluateElement(i: nat)
      requires Shaped() && i < |heap|
      requires OrderedBut(Keys(heap, time), i) && Bridged(Keys(heap, time), i)
      modifies `heap, `index
      ensures Shaped() && |heap| == old(|heap|) && SameQueued(old(index), index)
      ensures Ordered(Keys(heap, time))
    {
      var j := PercolateDown(i);
      if j == i { PercolateUp(j); }
    }

    /** Adds a thinker whose time is already set. */
    method Insert(t: nat)
      requires Shaped() && Ordered(Keys(heap, time)) && IndexOf(index, t) == -1
      modifies `heap, `index
      ensures Shaped() && |heap| == old(|heap|) + 1 && SameQueued(old(index)[t := 0], index)
      ensures Ordered(Keys(heap, time))
    {
      var i := |heap|;
      ghost var keys := Keys(heap, time);
      heap := heap + [t];
      index := index[t := i];
      InsertIndexed(old(heap), old(index), t);
      AddedAtTail(keys, Keys(heap, time));
      PercolateUp(i);
    }

    /** Moves the last element into the gap and restores the order. */
    method RemoveAt(i: nat)
      requires Shaped() && i < |heap| && Ordered(Keys(heap, time))
      modifies `heap, `index
      ensures Shaped() && |heap| == old(|heap|) - 1 && SameQueued(old(index)[old(heap[i]) := -1], index)
      ensures Ordered(Keys(heap, time))
    {
      hide OrderedBut, Bridged, Ordered;
      ghost var keys := Keys(heap, time);
      var last := heap[|heap| - 1];
      index := index[heap[i] := -1];
      heap := heap[i := last][..|heap| - 1];
      if i < |heap| {
        index := index[heap[i] := i];
        RemoveIndexed(old(heap), old(index), i);
        Replaced(keys, Keys(heap, time), i);
        RevaluateElement(i);
      } else {
        RemoveIndexed(old(heap), old(index), i);
        Truncated(keys, Keys(heap, time));
      }
    }

    // -------------------------------------------------------------- think times

    method Clear(t: nat)
      requires Valid()
      modifies this
      ensures Valid() && time == old(time)[t := NEVER] && wakes == old(wakes)
    {
      var i := IndexOf(index, t);
      if i >= 0 {
        assert heap[i] == t;
        RemoveAt(i);
        assert IndexOf(old(index)[t := -1], t) == -1;
        assert forall u: nat :: u != t ==> IndexOf(old(index)[t := -1], u) == IndexOf(old(index), u);
        assert IndexOf(index, t) == -1;
      }
      Unqueued(heap, index, time, t, NEVER);
      time := time[t := NEVER];
      assert forall u: nat :: TimeOf(time, u) == (if u == t then NEVER else TimeOf(old(time), u));
    }

    /** `InternalSetNextThinkTime`, with the table locked. */
    method InternalSetNextThinkTime(t: nat, target: int, now: int)
      requires Valid() && Granted(target, now) <= NEVER
      modifies this
      ensures Valid() && time == old(time)[t := Granted(target, now)]
      ensures wakes == old(wakes) + if Granted(target, now) < old(NextWake()) then 1 else 0
    {
      var when := if target <= 0 then now + 2000 else target;
      ghost var next := NextWake();
      assert next <= NEVER;
      if when == NEVER {
        Clear(t);
        return;
      }
      var nextWake := NextWake();
      if IndexOf(index, t) < 0 {
        Schedule(t, when);
      } else {
        Reschedule(t, when);
      }
      if TimeOf(time, t) < nextWake { wakes := wakes + 1; }
    }

    method Schedule(t: nat, when: int)
      requires Valid() && IndexOf(index, t) < 0 && when < NEVER
      modifies this
      ensures Valid() && time == old(time)[t := when] && wakes == old(wakes)
    {
      assert TimeOf(time, t) == NEVER;
      Unqueued(heap, index, time, t, when);
      time := time[t := when];
      Insert(t);
      assert forall u: nat :: IndexOf(old(index)[t := 0], u) == (if u == t then 0 else IndexOf(old(index), u));
      assert forall u: nat :: TimeOf(time, u) == (if u == t then when else TimeOf(old(time), u));
    }

    method Reschedule(t: nat, when: int)
      requires Valid() && IndexOf(index, t) >= 0 && when < NEVER
      modifies this
      ensures Valid() && time == old(time)[t := when] && wakes == old(wakes)
    {
      var i := IndexOf(index, t);
      assert heap[i] == t && TimeOf(time, t) != NEVER;
      ghost var keys := Keys(heap, time);
      time := time[t := when];
      assert forall u: nat :: TimeOf(time, u) == (if u == t then when else TimeOf(old(time), u));
      assert forall j :: 0 <= j < |heap| && j != i ==> heap[j] != t;
      Replaced(keys, Keys(heap, time), i);
      RevaluateElement(i);
    }

    /** `SetNextThinkTime` when no one else is at work. */
    method SetNextThinkTime(t: nat, target: int, now: int)
      requires Valid() && Granted(target, now) <= NEVER
      modifies this
      ensures Valid()
      ensures if target == old(TimeOf(time, t)) then unchanged(this)
              else time == old(time)[t := Granted(target, now)]
    {
      if target == TimeOf(time, t) { return; }
      InternalSetNextThinkTime(t, target, now);
    }

    /** `InternalEnsureMinThinkTime`, with the table locked. */
    method InternalEnsureMinThinkTime(t: nat, target: int, now: int)
      requires Valid() && Granted(target, now) <= NEVER
      modifies this
      ensures Valid() && time == EnsuredMin(old(time), t, target, now)
      ensures wakes == old(wakes) + if TimeOf(time, t) < old(NextWake()) then 1 else 0
    {
      NextWakeIsEarliest();
      if target < TimeOf(time, t) { InternalSetNextThinkTime(t, target, now); }
    }

    lemma NextWakeIsEarliest()
      requires Valid()
      ensures IsEarliest(time, NextWake())
    {
      forall t: nat ensures NextWake() <= TimeOf(time, t) {
        var i := IndexOf(index, t);
        if i >= 0 {
          assert heap[i] == t;
          HeadIsLeast(Keys(heap, time), i);
        }
      }
      if |heap| > 0 { assert TimeOf(time, heap[0]) == NextWake(); }
    }

    /** `Thinker_GetNextScheduledThinkTime` */
    method GetNextScheduledThinkTime() returns (when: int)
      requires Valid()
      ensures when == NextWake() && IsEarliest(time, when)
    {
      NextWakeIsEarliest();
      when := NEVER;
      if |heap| > 0 { when := TimeOf(time, heap[0]); }
    }

    // -------------------------------------------------------------- service

    /** A callback, and what other threads do while it runs: any changes to the table. */
    method Perform(updates: seq<Update>)
      requires Valid() && forall u :: u in updates ==> Granted(u.target, u.now) <= NEVER
      modifies this
      ensures Valid() && time == Applied(old(time), updates)
    {
      var i := 0;
      while i < |updates|
        invariant 0 <= i <= |updates| && Valid()
        invariant Applied(time, updates[i..]) == Applied(old(time), updates)
      {
        assert updates[i] in updates;
        assert updates[i..][1..] == updates[i + 1..];
        InternalSetNextThinkTime(updates[i].thinker, updates[i].target, updates[i].now);
        i := i + 1;
      }
      assert updates[i..] == [];
    }

    /** `Thinker_ProcessThinkers`.  The clock, the locks and the callbacks come from env;
    `states` are the think times before each action and at the end. */
    method ProcessThinkers(env: Environment) returns (log: seq<Action>, capped: bool, ghost states: seq<Times>)
      requires Valid() && env.Valid()
      modifies this
      ensures Valid() && |states| == |log| + 1 && states[0] == old(time) && states[|log|] == time
      ensures forall k :: 0 <= k < |log| ==> IsServed(env, k, states[k], log[k], states[k + 1])
      ensures |log| <= 10000
      ensures capped ==> |log| == 10000 && NextWake() < env.clock(|log|)
      ensures !capped ==> forall t: nat :: TimeOf(time, t) >= env.clock(|log|)
    {
      hide Indexed, IsServed, Ordered;
      log, capped, states := [], false, [time];
      while |heap| > 0
        invariant Valid() && !capped && |states| == |log| + 1 && states[0] == old(time) && states[|log|] == time
        invariant forall k :: 0 <= k < |log| ==> IsServed(env, k, states[k], log[k], states[k + 1])
        invariant |log| <= MAX_ACTIONS
        decreases MAX_ACTIONS - |log|
      {
        var next, now := heap[0], env.clock(|log|);
        NextWakeIsEarliest();
        if TimeOf(time, next) >= now { return; }
        if |log| + 1 > MAX_ACTIONS {
          capped := true;
          return;
        }
        var action := Service(env, |log|, next, now);
        log := log + [action];
        states := states + [time];
      }
      NextWakeIsEarliest();
    }

    /** One action: run the thinker at the head, or put it off if its lock is taken. */
    method Service(env: Environment, n: nat, next: nat, now: int) returns (action: Action)
      requires Valid() && env.Valid() && now == env.clock(n)
      requires TimeOf(time, next) < now && IsEarliest(time, TimeOf(time, next))
      modifies this
      ensures Valid() && IsServed(env, n, old(time), action, time)
    {
      if env.tryLock(n) {
        InternalSetNextThinkTime(next, NEVER, now);
        Perform(env.callback(n));
        action := Ran(next, now);
      } else {
        InternalSetNextThinkTime(next, now + 1000, now);
        action := PutOff(next, now);
      }
    }
  }

  /** Setting the time of a thinker that is not in the heap leaves the heap in order. */
  lemma Unqueued(heap: seq<nat>, index: map<nat, int>, time: Times, t: nat, when: int)
    requires Indexed(heap, index) && IndexOf(index, t) == -1
    ensures Keys(heap, time[t := when]) == Keys(heap, time)
    ensures forall u: nat :: TimeOf(time[t := when], u) == (if u == t then when else TimeOf(time, u))
  {
    var time' := time[t := when];
    assert t !in heap;
    assert forall u: nat :: TimeOf(time', u) == (if u == t then when else TimeOf(time, u));
    assert Keys(heap, time') == Keys(heap, time);
  }

  function EnsuredMin(time: Times, t: nat, target: int, now: int): Times {
    if target < TimeOf(time, t) then time[t := Granted(target, now)] else time
  }

  datatype Update = Update(thinker: nat, target: int, now: int)

  function Applied(time: Times, updates: seq<Update>): Times
    decreases |updates|
  {
    if updates == [] then time
    else Applied(time[updates[0].thinker := Granted(updates[0].target, updates[0].now)], updates[1..])
  }

  const MAX_ACTIONS: nat := 10000

  datatype Action = Ran(thinker: nat, now: int) | PutOff(thinker: nat, now: int)

  /** What the service loop meets: readings of the clock, whether a thinker's lock can be
  taken, and what happens to the table during a callback. */
  datatype Environment = Environment(clock: nat -> int, tryLock: nat -> bool, callback: nat -> seq<Update>) {
    ghost predicate Valid() {
      && (forall n: nat :: 0 < clock(n) < NEVER - 1000)
      && forall n: nat, u :: u in callback(n) ==> Granted(u.target, u.now) <= NEVER
    }
  }

  /** Action n: it takes a thinker with the earliest time of all, which is strictly past;
  a thinker that runs is unscheduled first, and one that is put off comes back in 1 ms. */
  ghost predicate IsServed(env: Environment, n: nat, before: Times, action: Action, after: Times) {
    && action.now == env.clock(n)
    && TimeOf(before, action.thinker) < action.now
    && IsEarliest(before, TimeOf(before, action.thinker))
    && action.Ran? == env.tryLock(n)
    && after == (if action.Ran? then Applied(before[action.thinker := NEVER], env.callback(n))
                 else before[action.thinker := action.now + 1000])
  }

  lemma AddedAtTail(k: seq<int>, r: seq<int>)
    requires Ordered(k) && |r| == |k| + 1 && r[..|k|] == k
    ensures OpenAbove(r, |k|)
  {
    forall j | 0 < j < |r| && j != |k| ensures r[Parent(j)] <= r[j] {
      assert r[..|k|][j] == r[j] && r[..|k|][Parent(j)] == r[Parent(j)];
    }
  }

  lemma Truncated(k: seq<int>, r: seq<int>)
    requires Ordered(k) && |r| <= |k| && r == k[..|r|]
    ensures Ordered(r)
  {
  }
}
