/** What whole rounds of service do for a thinker that no callback reschedules. */
module ThinkerService {
  import opened ThinkerQueue

  /** A round of service, action by action, with the think times in between. */
  ghost predicate Round(env: Environment, log: seq<Action>, states: seq<Times>) {
    |states| == |log| + 1 && forall k :: 0 <= k < |log| ==> IsServed(env, k, states[k], log[k], states[k + 1])
  }

  /** No callback of the first n actions changes the time of t. */
  ghost predicate LeftAlone(env: Environment, n: nat, t: nat) {
    forall k, u :: 0 <= k < n && u in env.callback(k) ==> u.thinker != t
  }

  lemma {:induction false} NotApplied(time: Times, updates: seq<Update>, t: nat)
    requires forall u :: u in updates ==> u.thinker != t
    ensures TimeOf(Applied(time, updates), t) == TimeOf(time, t)
    decreases |updates|
  {
    if updates != [] {
      var first := updates[0];
      assert first in updates;
      NotApplied(time[first.thinker := Granted(first.target, first.now)], updates[1..], t);
    }
  }

  /** One action moves the thinker it takes, and no other that is left alone. */
  lemma ActionMoves(env: Environment, k: nat, before: Times, action: Action, after: Times, t: nat)
    requires IsServed(env, k, before, action, after) && forall u :: u in env.callback(k) ==> u.thinker != t
    ensures TimeOf(after, t) == if action.thinker != t then TimeOf(before, t)
                                else if action.Ran? then NEVER else env.clock(k) + 1000
    ensures action.thinker == t ==> TimeOf(before, t) < env.clock(k)
    ensures TimeOf(before, action.thinker) <= TimeOf(before, t)
  {
    if action.Ran? { NotApplied(before[action.thinker := NEVER], env.callback(k), t); }
  }

  /** The last action that took t among the first n, or n if none did. */
  function LastOn(log: seq<Action>, t: nat, n: nat): (k: nat)
    requires n <= |log|
    ensures k <= |log|
  {
    if n == 0 then |log| else if log[n - 1].thinker == t then n - 1 else LastOn(log, t, n - 1)
  }

  /** The time of t after n actions: as before the round, unless one of them took it; then never if
  it ran, and 1 ms after the last attempt if it was put off. */
  lemma {:induction false} TimeAfter(env: Environment, log: seq<Action>, states: seq<Times>, t: nat, n: nat)
    requires Round(env, log, states) && n <= |log| && LeftAlone(env, n, t)
    ensures var k := LastOn(log, t, n);
            TimeOf(states[n], t) == if k == |log| then TimeOf(states[0], t)
                                    else if env.tryLock(k) then NEVER else env.clock(k) + 1000
    ensures LastOn(log, t, n) == |log| <==> forall k :: 0 <= k < n ==> log[k].thinker != t
    decreases n
  {
    if n > 0 {
      TimeAfter(env, log, states, t, n - 1);
      ActionMoves(env, n - 1, states[n - 1], log[n - 1], states[n], t);
      assert IsServed(env, n - 1, states[n - 1], log[n - 1], states[n]);
    }
  }

  lemma LastOnIs(log: seq<Action>, t: nat, n: nat, i: nat)
    requires i < n <= |log| && log[i].thinker == t
    ensures var k := LastOn(log, t, n);
            i <= k < n && log[k].thinker == t && forall j :: k < j < n ==> log[j].thinker != t
    decreases n
  {
    if log[n - 1].thinker != t { LastOnIs(log, t, n - 1, i); }
  }

  /** A thinker that is taken twice was put off the first time, and more than 1 ms passed; so it
  runs at most once. */
  lemma {:induction false} RunsAtMostOnce(env: Environment, log: seq<Action>, states: seq<Times>,
                                          t: nat, i: nat, j: nat)
    requires Round(env, log, states) && env.Valid() && LeftAlone(env, |log|, t)
    requires i < j < |log| && log[i].thinker == t && log[j].thinker == t
    ensures log[i].PutOff? && env.clock(i) + 1000 < env.clock(j)
    decreases j
  {
    var k := LastOn(log, t, j);
    LastOnIs(log, t, j, i);
    TimeAfter(env, log, states, t, j);
    assert IsServed(env, j, states[j], log[j], states[j + 1]);
    assert IsServed(env, i, states[i], log[i], states[i + 1]);
    assert 0 < env.clock(j) < NEVER;
    if i < k { RunsAtMostOnce(env, log, states, t, i, k); }
  }

  /** When a round ends because nothing is past, a thinker that was past has been taken; and it ran,
  unless it was last put off to a time that is not past. */
  lemma DueIsServed(env: Environment, log: seq<Action>, states: seq<Times>, t: nat)
    requires Round(env, log, states) && LeftAlone(env, |log|, t)
    requires forall u: nat :: TimeOf(states[|log|], u) >= env.clock(|log|)
    requires TimeOf(states[0], t) < env.clock(|log|)
    ensures exists k :: 0 <= k < |log| && log[k].thinker == t && (log[k].Ran? || log[k].now + 1000 >= env.clock(|log|))
  {
    TimeAfter(env, log, states, t, |log|);
    var k := LastOn(log, t, |log|);
    assert k < |log|;
    var i :| 0 <= i < |log| && log[i].thinker == t;
    LastOnIs(log, t, |log|, i);
    assert IsServed(env, k, states[k], log[k], states[k + 1]);
  }

  /** Of two thinkers, the one with the earlier time is taken first. */
  lemma {:induction false} EarlierIsFirst(env: Environment, log: seq<Action>, states: seq<Times>,
                                          a: nat, b: nat, k: nat)
    requires Round(env, log, states) && LeftAlone(env, |log|, a) && LeftAlone(env, |log|, b)
    requires TimeOf(states[0], a) < TimeOf(states[0], b) && k < |log| && log[k].thinker == b
    ensures exists j :: 0 <= j < k && log[j].thinker == a
    decreases k
  {
    TimeAfter(env, log, states, b, k);
    if i :| 0 <= i < k && log[i].thinker == b {
      EarlierIsFirst(env, log, states, a, b, i);
    } else {
      TimeAfter(env, log, states, a, k);
      assert IsServed(env, k, states[k], log[k], states[k + 1]);
    }
  }
}
