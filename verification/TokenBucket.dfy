/** The token bucket rate limiter, over real numbers. */
module TokenBucket {
  /** `deficit` is how far the bucket is from full. */
  datatype State = State(last: int, deficit: real)

  const START := State(0, 0.0)

  /** Tokens that the rate, per second, adds in a time. */
  function Added(usec: int, rate: real): real {
    usec as real * 0.000001 * rate
  }

  function AtLeastZero(x: real): real {
    if x > 0.0 then x else 0.0
  }

  /** The bucket when a call at time now has filled it up. */
  function Refilled(s: State, now: int, rate: real): real {
    AtLeastZero(s.deficit - Added(now - s.last, rate))
  }

  predicate Grants(s: State, now: int, rate: real, burst: real) {
    Refilled(s, now, rate) + 1.0 <= burst
  }

  function Next(s: State, now: int, rate: real, burst: real): State {
    State(now, Refilled(s, now, rate) + (if Grants(s, now, rate, burst) then 1.0 else 0.0))
  }

  class TokenBucketRateLimiter {
    var lastTime: int
    var deficit: real

    ghost function Abstract(): State
      reads this
    {
      State(lastTime, deficit)
    }

    constructor ()
      ensures Abstract() == START
    {
      lastTime, deficit := 0, 0.0;
    }

    method Reset()
      modifies this
      ensures Abstract() == START
    {
      lastTime, deficit := 0, 0.0;
    }

    method Check(now: int, rate: real, burst: real) returns (granted: bool)
      requires burst >= 1.0 && rate > 0.0
      modifies this
      ensures granted == old(Grants(Abstract(), now, rate, burst))
      ensures Abstract() == old(Next(Abstract(), now, rate, burst))
    {
      var elapsed := (now - lastTime) as real * 0.000001;
      lastTime := now;
      var d := deficit - elapsed * rate;
      deficit := if d > 0.0 then d else 0.0;
      if deficit + 1.0 > burst { return false; }
      deficit := deficit + 1.0;
      granted := true;
    }
  }

  // ---------------------------------------------------------------- runs

  /** Calls are made in the order of their times, which start at zero. */
  predicate InOrder(times: seq<int>) {
    && (forall i :: 0 <= i < |times| ==> times[i] >= 0)
    && forall i, j :: 0 <= i <= j < |times| ==> times[i] <= times[j]
  }

  function Run(times: seq<int>, rate: real, burst: real): State {
    if times == [] then START
    else Next(Run(times[..|times| - 1], rate, burst), times[|times| - 1], rate, burst)
  }

  /** Tokens granted from time a to time b. */
  function Granted(times: seq<int>, rate: real, burst: real, a: int, b: int): nat {
    if times == [] then 0
    else
      var before, now := times[..|times| - 1], times[|times| - 1];
      Granted(before, rate, burst, a, b)
      + if a <= now <= b && Grants(Run(before, rate, burst), now, rate, burst) then 1 else 0
  }

  lemma AddedSum(x: int, y: int, rate: real)
    ensures Added(x + y, rate) == Added(x, rate) + Added(y, rate)
  {
    assert (x + y) as real == x as real + y as real;
    Distribute(x as real * 0.000001, y as real * 0.000001, rate);
  }

  lemma Distribute(x: real, y: real, z: real)
    ensures (x + y) * z == x * z + y * z
  {
  }

  lemma AddedPositive(x: int, rate: real)
    requires x >= 0 && rate > 0.0
    ensures Added(x, rate) >= 0.0
  {
  }

  /** The bucket never holds less than nothing. */
  lemma {:induction false} DeficitBounded(times: seq<int>, rate: real, burst: real)
    requires InOrder(times) && rate > 0.0 && burst >= 1.0
    ensures 0.0 <= Run(times, rate, burst).deficit <= burst
    ensures 0 <= Run(times, rate, burst).last
    ensures times != [] ==> Run(times, rate, burst).last == times[|times| - 1]
    decreases |times|
  {
    if times != [] {
      var before, now := times[..|times| - 1], times[|times| - 1];
      DeficitBounded(before, rate, burst);
      var s := Run(before, rate, burst);
      assert s.last <= now by { assert before == [] || before[|before| - 1] == times[|times| - 2]; }
      AddedPositive(now - s.last, rate);
    }
  }

  /** What the tokens of a window are charged to, at each point of a run. */
  ghost predicate Charged(times: seq<int>, rate: real, burst: real, a: int, b: int) {
    var s, n := Run(times, rate, burst), Granted(times, rate, burst, a, b) as real;
    if times == [] || s.last < a then n == 0.0
    else if s.last <= b then n <= s.deficit + Added(s.last - a, rate)
    else n <= burst + Added(b - a, rate)
  }

  lemma {:induction false} RunIsCharged(times: seq<int>, rate: real, burst: real, a: int, b: int)
    requires InOrder(times) && rate > 0.0 && burst >= 1.0 && a <= b
    ensures Charged(times, rate, burst, a, b)
    decreases |times|
  {
    if times != [] {
      var before, now := times[..|times| - 1], times[|times| - 1];
      RunIsCharged(before, rate, burst, a, b);
      DeficitBounded(before, rate, burst);
      assert before != [] ==> before[|before| - 1] == times[|times| - 2];
      CallIsCharged(before, now, rate, burst, a, b);
      assert before + [now] == times;
    }
  }

  lemma CallIsCharged(before: seq<int>, now: int, rate: real, burst: real, a: int, b: int)
    requires rate > 0.0 && burst >= 1.0 && a <= b && Charged(before, rate, burst, a, b)
    requires before != [] ==> before[|before| - 1] <= now
    requires before != [] ==> Run(before, rate, burst).last == before[|before| - 1]
    requires Run(before, rate, burst).deficit <= burst
    ensures Charged(before + [now], rate, burst, a, b)
  {
    hide Added, Granted, Run;
    var times := before + [now];
    var s := Run(before, rate, burst);
    LastCall(before, now, rate, burst, a, b);
    if before != [] && a <= s.last {
      AddedSum(s.last - a, now - s.last, rate);
      if s.last <= b < now {
        AddedSum(s.last - a, b - s.last, rate);
        AddedPositive(b - s.last, rate);
      }
    } else if a <= now {
      AddedPositive(now - a, rate);
      AddedPositive(b - a, rate);
    }
  }

  lemma LastCall(before: seq<int>, now: int, rate: real, burst: real, a: int, b: int)
    ensures var s, times := Run(before, rate, burst), before + [now];
            && Run(times, rate, burst) == Next(s, now, rate, burst)
            && Granted(times, rate, burst, a, b) ==
               Granted(before, rate, burst, a, b) + (if a <= now <= b && Grants(s, now, rate, burst) then 1 else 0)
    ensures before == [] ==> Granted(before, rate, burst, a, b) == 0
  {
    assert (before + [now])[..|before|] == before;
  }

  lemma AddedIs(usec: int, rate: real)
    ensures Added(usec, rate) == rate * usec as real / 1000000.0
  {
    var x := usec as real;
    assert x * 0.000001 * rate == rate * x * 0.000001;
  }

  /** Between any two times of any run, no more tokens are granted than the burst and what
  the rate adds in between. */
  lemma WindowBound(times: seq<int>, rate: real, burst: real, a: int, b: int)
    requires InOrder(times) && rate > 0.0 && burst >= 1.0 && a <= b
    ensures Granted(times, rate, burst, a, b) as real <= burst + rate * (b - a) as real / 1000000.0
  {
    AddedIs(b - a, rate);
    hide Added, Granted, Run;
    RunIsCharged(times, rate, burst, a, b);
    DeficitBounded(times, rate, burst);
    var s := Run(times, rate, burst);
    AddedPositive(b - a, rate);
    if times != [] && a <= s.last <= b {
      AddedSum(s.last - a, b - s.last, rate);
      AddedPositive(b - s.last, rate);
    }
  }

  // ---------------------------------------------------------------- which calls are granted

  /** How many of the calls from number j on are granted. */
  function GrantedSince(times: seq<int>, rate: real, burst: real, j: nat): nat {
    if |times| <= j then 0
    else
      var before, now := times[..|times| - 1], times[|times| - 1];
      GrantedSince(before, rate, burst, j) + if Grants(Run(before, rate, burst), now, rate, burst) then 1 else 0
  }

  /** What the calls from number j on leave missing in the bucket at time now. */
  function Owed(times: seq<int>, rate: real, burst: real, j: nat, now: int): real
    requires j < |times|
  {
    GrantedSince(times, rate, burst, j) as real - Added(now - times[j], rate)
  }

  lemma OwedLater(times: seq<int>, rate: real, burst: real, j: nat, last: int, now: int)
    requires j < |times|
    ensures Owed(times, rate, burst, j, now) == Owed(times, rate, burst, j, last) - Added(now - last, rate)
  {
    AddedSum(last - times[j], now - last, rate);
  }

  lemma NothingAdded(rate: real)
    ensures Added(0, rate) == 0.0
  {
  }

  lemma OwedStep(before: seq<int>, now: int, rate: real, burst: real, j: nat)
    requires j <= |before|
    ensures var g := if Grants(Run(before, rate, burst), now, rate, burst) then 1.0 else 0.0;
            Owed(before + [now], rate, burst, j, now)
            == g + if j < |before| then Owed(before, rate, burst, j, now) else 0.0
  {
    var times := before + [now];
    assert times[..|before|] == before;
    NothingAdded(rate);
    hide Added, Run, Grants;
    if j == |before| { assert times[j] == now && GrantedSince(before, rate, burst, j) == 0; }
  }

  /** After a call, the bucket is as far from full as the calls since some call have left it,
  and no further than those since any other have. */
  lemma {:induction false} DeficitIsOwed(times: seq<int>, rate: real, burst: real) returns (j: nat)
    requires InOrder(times) && rate > 0.0 && burst >= 1.0 && times != []
    ensures var s := Run(times, rate, burst);
            && j < |times| && s.deficit == Owed(times, rate, burst, j, s.last)
            && forall i :: 0 <= i < |times| ==> Owed(times, rate, burst, i, s.last) <= s.deficit
    decreases |times|
  {
    hide Added, Owed, GrantedSince;
    var before, now := times[..|times| - 1], times[|times| - 1];
    assert before + [now] == times;
    var s := Run(before, rate, burst);
    DeficitBounded(times, rate, burst);
    OwedStep(before, now, rate, burst, |before|);
    j := |before|;
    if before == [] {
      AddedPositive(now, rate);
    } else {
      DeficitBounded(before, rate, burst);
      var k := DeficitIsOwed(before, rate, burst);
      hide Run;
      forall i | 0 <= i < |before|
        ensures Owed(times, rate, burst, i, now)
             == Owed(before, rate, burst, i, s.last) - Added(now - s.last, rate)
                + if Grants(s, now, rate, burst) then 1.0 else 0.0
      {
        OwedStep(before, now, rate, burst, i);
        OwedLater(before, rate, burst, i, s.last, now);
      }
      LastCall(before, now, rate, burst, 0, 0);
      if s.deficit - Added(now - s.last, rate) > 0.0 { j := k; }
    }
  }

  /** A call is granted exactly when, for every call before it, the tokens granted from that call
  on and one more are within the burst and what the rate has added since. */
  lemma GrantedExactly(times: seq<int>, now: int, rate: real, burst: real)
    requires InOrder(times + [now]) && rate > 0.0 && burst >= 1.0
    ensures Grants(Run(times, rate, burst), now, rate, burst) <==>
            forall j :: 0 <= j < |times| ==>
              GrantedSince(times, rate, burst, j) as real + 1.0 <= burst + rate * (now - times[j]) as real / 1000000.0
  {
    forall j | 0 <= j < |times|
      ensures Owed(times, rate, burst, j, now)
           == GrantedSince(times, rate, burst, j) as real - rate * (now - times[j]) as real / 1000000.0
    {
      AddedIs(now - times[j], rate);
    }
    EarlierInOrder(times, now);
    DeficitBounded(times, rate, burst);
    var s := Run(times, rate, burst);
    if times == [] {
      AddedPositive(now, rate);
    } else {
      var k := DeficitIsOwed(times, rate, burst);
      hide Owed, Added, Run, GrantedSince;
      forall j | 0 <= j < |times|
        ensures Owed(times, rate, burst, j, now) == Owed(times, rate, burst, j, s.last) - Added(now - s.last, rate)
      {
        OwedLater(times, rate, burst, j, s.last, now);
      }
    }
  }

  lemma EarlierInOrder(times: seq<int>, now: int)
    requires InOrder(times + [now])
    ensures InOrder(times) && now >= 0
  {
    var all := times + [now];
    assert all[|times|] == now;
    assert forall i :: 0 <= i < |times| ==> all[i] == times[i];
  }

  /** A call that comes a token's time after the one before it is never refused. */
  lemma SteadyCallsPass(times: seq<int>, now: int, rate: real, burst: real)
    requires InOrder(times) && rate > 0.0 && burst >= 1.0
    requires times != [] && rate * (now - times[|times| - 1]) as real / 1000000.0 >= 1.0
    ensures Grants(Run(times, rate, burst), now, rate, burst)
  {
    var passed := now - times[|times| - 1];
    assert Added(passed, rate) >= 1.0 by { AddedIs(passed, rate); }
    hide Added, Run, Grants, InOrder;
    DeficitBounded(times, rate, burst);
    OneTokenFits(Run(times, rate, burst), now, rate, burst);
  }

  lemma OneTokenFits(s: State, now: int, rate: real, burst: real)
    requires s.deficit <= burst && burst >= 1.0 && Added(now - s.last, rate) >= 1.0
    ensures Grants(s, now, rate, burst)
  {
    hide Added;
  }

  /** From a full bucket, calls at one moment are all granted as long as they number no
  more than the burst. */
  lemma {:induction false} BurstIsGranted(n: nat, now: int, rate: real, burst: real)
    requires rate > 0.0 && burst >= 1.0 && now >= 0 && n as real <= burst
    ensures var times := seq(n, _ => now);
            Granted(times, rate, burst, now, now) == n && (n > 0 ==> Run(times, rate, burst) == State(now, n as real))
    decreases n
  {
    var times := seq(n, _ => now);
    if n > 0 {
      var before := seq(n - 1, _ => now);
      assert times[..n - 1] == before;
      BurstIsGranted(n - 1, now, rate, burst);
      AddedPositive(now, rate);
      assert n == 1 ==> Run(before, rate, burst) == START;
      assert Added(now - now, rate) == 0.0;
    }
  }
}
