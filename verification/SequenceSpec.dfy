/** What the receive side of a link is meant to do with packet numbers, stated on
plain sets of numbers.

`Flow` is the receiver's state with the duplicate filter written as the set of
numbers processed so far.  `Check`, `Process`, `Reset` and `Rollover` are its
steps, `Run` is any sequence of them.  The masks that implement the filter are
in PacketWindow; the quality score of an interval is in Quality. */
module SequenceSpec {

  /** Index of one of the two network paths of a multi-path link. */
  type Path = p: nat | p < 2

  /** Counters of the current interval. */
  datatype Counters = Counters(recv: nat, dropped: nat, outOfOrder: nat, lurch: nat, duplicate: nat)

  const NO_COUNTS := Counters(0, 0, 0, 0, 0)

  /** Lifetime counters; they do not include the current interval.  `sequenced` does. */
  datatype Totals = Totals(sequenced: nat, dropped: nat, outOfOrder: nat, lurch: nat, duplicate: nat)

  /** Receiver state.

  `arrived[p]` holds the numbers first or later seen on path p.  The last four
  fields are bookkeeping for the conservation laws below, not program state:
  the numbers given up as missing by a jump, the late arrivals that found no
  drop to undo in the current interval, the accepted packets that were never
  processed, and the jumps. */
  datatype Flow = Flow(
    max: int,
    lastInit: int,
    processed: set<int>,
    arrived: seq<set<int>>,
    cur: Counters,
    acc: Totals,
    recvLater: seq<nat>,
    recvSeq: seq<nat>,
    writtenOff: nat,
    uncorrected: nat,
    unprocessed: nat,
    jumps: nat)

  const WIRE_RANGE := 65536
  const BLOCK := 64
  const LURCH_GAP := 100

  /** Conversion to int16. */
  function ToInt16(x: int): int {
    var w := x % WIRE_RANGE;
    if w < 32768 then w else w - WIRE_RANGE
  }

  /** The number nearest to `max` with the given low 16 bits. */
  function Expand(max: int, wire: int): int {
    max + ToInt16(wire - max % WIRE_RANGE)
  }

  /** A number is recovered from its low 16 bits exactly when it is within a
  half-range of the reference. */
  lemma ExpandInverts(max: int, n: int)
    ensures Expand(max, n % 65536) == n <==> -32768 <= n - max <= 32767
    ensures Expand(max, n) == Expand(max, n % 65536)
    ensures (Expand(max, n) - n) % 65536 == 0
  {
    hide ToInt16;
    var a, b := n / WIRE_RANGE, max / WIRE_RANGE;
    SameRemainder(n % WIRE_RANGE - max % WIRE_RANGE, n - max, b - a);
    SameRemainder(n - max % WIRE_RANGE, n - max, b);
    NearestGap(n % WIRE_RANGE - max % WIRE_RANGE, n - max);
    NearestGap(n - max % WIRE_RANGE, n - max);
  }

  lemma SameRemainder(x: int, y: int, k: int)
    requires x == y + k * WIRE_RANGE
    ensures x % WIRE_RANGE == y % WIRE_RANGE
  {
  }

  /** The gap read off 16 bits is the true one exactly within the half-range. */
  lemma NearestGap(x: int, gap: int)
    requires x % WIRE_RANGE == gap % WIRE_RANGE
    ensures ToInt16(x) == gap <==> -32768 <= gap <= 32767
    ensures ToInt16(x) == ToInt16(gap) && (ToInt16(x) - gap) % WIRE_RANGE == 0
  {
    var q := gap / WIRE_RANGE;
    assert gap == q * WIRE_RANGE + gap % WIRE_RANGE;
    if gap % WIRE_RANGE < 32768 {
      SameRemainder(ToInt16(x) - gap, 0, -q);
    } else {
      SameRemainder(ToInt16(x) - gap, 0, -q - 1);
    }
  }

  /** Start of the 64-number block that holds max. */
  function BlockStart(max: int): int {
    max - max % BLOCK
  }

  /** What a plain set would accept: a new maximum, or a number recent enough,
  above the last reset, and not processed before. */
  predicate Acceptable(s: Flow, n: int) {
    n > s.max || (BlockStart(s.max) - BLOCK <= n && n > s.lastInit && n !in s.processed)
  }

  predicate SeenOn(s: Flow, path: Path, n: int)
    requires |s.arrived| == 2
  {
    n <= s.lastInit || n in s.arrived[path]
  }

  function Fresh(): Flow {
    Flow(0, 0, {}, [{}, {}], NO_COUNTS, Totals(0, 0, 0, 0, 0), [0, 0], [0, 0], 0, 0, 0, 0)
  }

  /** Numbers above the last reset, up to the maximum, that never came. */
  function Missing(s: Flow): set<int> {
    set k | s.lastInit < k <= s.max && k !in s.processed
  }

  function Dropped(s: Flow): nat {
    s.acc.dropped + s.cur.dropped
  }

  ghost predicate Shape(s: Flow) {
    |s.arrived| == 2 && |s.recvLater| == 2 && |s.recvSeq| == 2
  }

  /** What ties the sets of a reachable state to its maximum and last reset. */
  ghost predicate FilterInv(s: Flow) {
    && Shape(s)
    && 0 <= s.lastInit <= s.max
    && (forall n :: n in s.processed ==> 0 < n <= s.max)
    && (s.max == s.lastInit || s.max in s.processed)
    && (forall n :: n > s.lastInit ==> (n in s.processed <==> n in s.arrived[0] || n in s.arrived[1]))
  }

  /** What every reachable state satisfies. */
  ghost predicate Inv(s: Flow) {
    && FilterInv(s)
    && s.cur.outOfOrder + s.cur.lurch + s.cur.duplicate <= s.cur.recv
    && Dropped(s) == |Missing(s)| + s.writtenOff + s.uncorrected
    && s.acc.sequenced == s.recvSeq[0] + s.recvSeq[1]
    && s.acc.sequenced + s.jumps ==
       |s.processed| + s.unprocessed + s.recvLater[0] + s.recvLater[1]
       + s.acc.duplicate + s.cur.duplicate + s.acc.lurch + s.cur.lurch
  }

  // ---------------------------------------------------------------- steps

  function CountPacket(s: Flow, path: Path): Flow
    requires Shape(s)
  {
    s.(cur := s.cur.(recv := s.cur.recv + 1),
       acc := s.acc.(sequenced := s.acc.sequenced + 1),
       recvSeq := s.recvSeq[path := s.recvSeq[path] + 1])
  }

  /** Expand a wire number and decide whether to go on; 0 means discard. */
  function Check(s: Flow, wire: int, path: Path): (r: (Flow, int))
    requires Shape(s)
  {
    var n := Expand(s.max, wire);
    var c := CountPacket(s, path);
    if n > s.max then (c, n)
    else if n < BlockStart(s.max) - BLOCK then
      (c.(cur := c.cur.(lurch := c.cur.lurch + 1)), 0)
    else if n <= s.lastInit || n in s.processed then
      if SeenOn(s, path, n) then
        (c.(cur := c.cur.(duplicate := c.cur.duplicate + 1)), 0)
      else
        (c.(recvLater := c.recvLater[path := c.recvLater[path] + 1],
            arrived := c.arrived[path := c.arrived[path] + {n}]), 0)
    else (c, n)
  }

  /** Expect n+1 next and refuse everything up to n. */
  function Reset(s: Flow, n: int): Flow {
    s.(max := n, lastInit := n)
  }

  function Process(s: Flow, n: int, path: Path): Flow
    requires Shape(s)
  {
    var t := s.(processed := s.processed + {n}, arrived := s.arrived[path := s.arrived[path] + {n}]);
    var gap := n - s.max;
    if gap <= 0 then
      if s.cur.dropped > 0 then
        t.(cur := s.cur.(outOfOrder := s.cur.outOfOrder + 1, dropped := s.cur.dropped - 1))
      else
        t.(cur := s.cur.(outOfOrder := s.cur.outOfOrder + 1), uncorrected := s.uncorrected + 1)
    else if gap >= LURCH_GAP then
      Reset(t, n).(cur := s.cur.(lurch := s.cur.lurch + 1),
                   writtenOff := s.writtenOff + |Missing(s)|, jumps := s.jumps + 1)
    else
      t.(max := n, cur := s.cur.(dropped := s.cur.dropped + (gap - 1)))
  }

  function Rollover(s: Flow): Flow {
    s.(acc := s.acc.(dropped := s.acc.dropped + s.cur.dropped,
                     outOfOrder := s.acc.outOfOrder + s.cur.outOfOrder,
                     lurch := s.acc.lurch + s.cur.lurch,
                     duplicate := s.acc.duplicate + s.cur.duplicate),
       cur := NO_COUNTS)
  }

  // ---------------------------------------------------------------- runs

  /** One thing that happens to a receiver.  `initialize` selects the variant of
  the check that adopts the first number it sees; `authentic` says whether the
  packet survives decryption and is processed. */
  datatype Event =
    | Packet(wire: nat, path: Path, initialize: bool, authentic: bool)
    | Connect
    | NextInterval

  function BeforeCheck(s: Flow, e: Event): Flow
    requires e.Packet?
  {
    if e.initialize && s.max == 0 then Reset(s, (e.wire - 1) % WIRE_RANGE) else s
  }

  /** What follows the check of a packet. */
  function AfterCheck(c: Flow, n: int, path: Path, authentic: bool): Flow
    requires Shape(c)
  {
    if n <= 0 then c
    else if authentic then Process(c, n, path)
    else c.(unprocessed := c.unprocessed + 1)
  }

  function Step(s: Flow, e: Event): Flow
    requires Shape(s)
  {
    match e
    case Packet(wire, path, _, authentic) =>
      var (c, n) := Check(BeforeCheck(s, e), wire, path);
      AfterCheck(c, n, path, authentic)
    case Connect => if s.max == 0 then Reset(s, 1) else s
    case NextInterval => Rollover(s)
  }

  /** The numbers a step processes: none or one. */
  function StepLog(s: Flow, e: Event): seq<int>
    requires Shape(s)
  {
    if e.Packet? && e.authentic && Check(BeforeCheck(s, e), e.wire, e.path).1 > 0
    then [Check(BeforeCheck(s, e), e.wire, e.path).1]
    else []
  }

  function Run(s: Flow, events: seq<Event>): (r: Flow)
    requires Shape(s)
    ensures Shape(r)
    decreases |events|
  {
    if events == [] then s else Step(Run(s, events[..|events| - 1]), events[|events| - 1])
  }

  /** All numbers processed in a run, in order. */
  function Log(s: Flow, events: seq<Event>): seq<int>
    requires Shape(s)
    decreases |events|
  {
    if events == [] then []
    else Log(s, events[..|events| - 1]) + StepLog(Run(s, events[..|events| - 1]), events[|events| - 1])
  }

  // ---------------------------------------------------------------- the filter

  /** The check accepts exactly what a plain set would, and returns the expanded
  number when it does. */
  lemma CheckIsSetTest(s: Flow, wire: int, path: Path)
    requires Inv(s)
    ensures var n := Expand(s.max, wire);
            Check(s, wire, path).1 == (if Acceptable(s, n) then n else 0)
    ensures Acceptable(s, Expand(s.max, wire)) ==> Expand(s.max, wire) > 0
  {
  }

  /** A number never processed, above the last reset and at most 64 behind the
  maximum, is always accepted. */
  lemma RecentIsAccepted(s: Flow, n: int, path: Path)
    requires Inv(s)
    requires s.lastInit < n && s.max - 64 <= n <= s.max + 32767 && n !in s.processed
    ensures Check(s, n % WIRE_RANGE, path).1 == n
  {
    ExpandInverts(s.max, n);
  }

  /** The numbers above a, up to b. */
  function Range(a: int, b: int): (r: set<int>)
    ensures forall k :: k in r <==> a < k <= b
    ensures a <= b ==> |r| == b - a
    decreases b - a
  {
    if b <= a then {} else Range(a, b - 1) + {b}
  }

  lemma CheckKeepsInv(s: Flow, wire: int, path: Path)
    requires Inv(s)
    ensures var (c, n) := Check(s, wire, path);
            && (n == 0 ==> Inv(c))
            && (n > 0 ==> Acceptable(c, n) && Inv(c.(unprocessed := c.unprocessed + 1))
                          && c.cur.outOfOrder + c.cur.lurch + c.cur.duplicate + 1 <= c.cur.recv)
  {
    var (c, n) := Check(s, wire, path);
    assert Missing(c) == Missing(s);
  }

  /** Filling one hole. */
  lemma MissingFilled(s: Flow, t: Flow, n: int)
    requires n in Missing(s)
    requires t.lastInit == s.lastInit && t.max == s.max && t.processed == s.processed + {n}
    ensures |Missing(t)| == |Missing(s)| - 1
  {
    assert Missing(t) == Missing(s) - {n};
  }

  /** Moving the maximum to n opens a hole for every number skipped. */
  lemma MissingSkipped(s: Flow, t: Flow, n: int)
    requires s.lastInit <= s.max < n && forall k :: k in s.processed ==> k <= s.max
    requires t.lastInit == s.lastInit && t.max == n && t.processed == s.processed + {n}
    ensures |Missing(t)| == |Missing(s)| + (n - s.max - 1)
  {
    var skipped := Range(s.max, n - 1);
    assert Missing(t) == Missing(s) + skipped;
    assert Missing(s) !! skipped;
  }

  /** `Missing` after each way of processing a number. */
  lemma MissingAfter(s: Flow, n: int, path: Path)
    requires FilterInv(s) && Acceptable(s, n)
    ensures n <= s.max ==> |Missing(Process(s, n, path))| == |Missing(s)| - 1
    ensures s.max < n < s.max + LURCH_GAP ==>
              |Missing(Process(s, n, path))| == |Missing(s)| + (n - s.max - 1)
    ensures s.max + LURCH_GAP <= n ==> Missing(Process(s, n, path)) == {}
  {
    var t := Process(s, n, path);
    if n <= s.max {
      MissingFilled(s, t, n);
    } else if n < s.max + LURCH_GAP {
      MissingSkipped(s, t, n);
    }
  }

  lemma ProcessKeepsInv(s: Flow, n: int, path: Path)
    requires Inv(s.(unprocessed := s.unprocessed + 1)) && Acceptable(s, n)
    requires s.cur.outOfOrder + s.cur.lurch + s.cur.duplicate + 1 <= s.cur.recv
    ensures Inv(Process(s, n, path))
  {
    hide Missing, FilterInv;
    var u := s.(unprocessed := s.unprocessed + 1);
    SameMissing(u, s);
    SameFilter(u, s);
    ProcessKeepsFilter(s, n, path);
    MissingAfter(s, n, path);
  }

  lemma SameFilter(u: Flow, s: Flow)
    requires FilterInv(u) && s == u.(unprocessed := s.unprocessed)
    ensures FilterInv(s)
  {
  }

  lemma ProcessKeepsFilter(s: Flow, n: int, path: Path)
    requires FilterInv(s) && Acceptable(s, n)
    ensures FilterInv(Process(s, n, path)) && |Process(s, n, path).processed| == |s.processed| + 1
  {
    NewNumber(s, n);
    hide Missing, FilterInv;
    MarkKeepsFilter(s, Process(s, n, path), n, path);
  }

  lemma NewNumber(s: Flow, n: int)
    requires FilterInv(s) && Acceptable(s, n)
    ensures Shape(s) && n > 0 && n > s.lastInit && n !in s.processed
  {
  }

  /** A state in which n has been marked, and the maximum and last reset moved if need be. */
  lemma MarkKeepsFilter(s: Flow, t: Flow, n: int, path: Path)
    requires FilterInv(s) && Shape(t) && n > 0 && n > s.lastInit
    requires t.processed == s.processed + {n} && t.arrived == s.arrived[path := s.arrived[path] + {n}]
    requires || (t.lastInit == s.lastInit && t.max == (if n > s.max then n else s.max))
             || (t.lastInit == t.max == n > s.max)
    ensures FilterInv(t)
  {
  }

  lemma SameMissing(u: Flow, s: Flow)
    requires u.max == s.max && u.lastInit == s.lastInit && u.processed == s.processed
    ensures Missing(u) == Missing(s)
  {
  }

  lemma ResetKeepsInv(s: Flow, n: int)
    requires Inv(s) && s.max == 0 && n >= 0
    ensures Inv(Reset(s, n))
  {
    assert Missing(s) == {} == Missing(Reset(s, n));
  }

  lemma BeforeCheckKeepsInv(s: Flow, e: Event)
    requires Inv(s) && e.Packet?
    ensures Inv(BeforeCheck(s, e)) && BeforeCheck(s, e).processed == s.processed
  {
    if e.initialize && s.max == 0 { ResetKeepsInv(s, (e.wire - 1) % WIRE_RANGE); }
  }

  lemma PacketKeepsInv(s: Flow, wire: int, path: Path, authentic: bool)
    requires Inv(s)
    ensures var (c, n) := Check(s, wire, path); Inv(AfterCheck(c, n, path, authentic))
  {
    CheckKeepsInv(s, wire, path);
    var (c, n) := Check(s, wire, path);
    if n > 0 && authentic { ProcessKeepsInv(c, n, path); }
  }

  lemma StepKeepsInv(s: Flow, e: Event)
    requires Inv(s)
    ensures Inv(Step(s, e))
  {
    match e
    case Packet(wire, path, _, authentic) =>
      BeforeCheckKeepsInv(s, e);
      PacketKeepsInv(BeforeCheck(s, e), wire, path, authentic);
    case Connect =>
      if s.max == 0 { ResetKeepsInv(s, 1); }
    case NextInterval =>
      assert Missing(Rollover(s)) == Missing(s);
  }

  lemma CheckKeepsProcessed(s: Flow, wire: int, path: Path)
    requires Shape(s)
    ensures Check(s, wire, path).0.processed == s.processed
  {
  }

  /** A step adds to the processed set exactly what it processes, and that is new. */
  lemma StepProcessesNew(s: Flow, e: Event)
    requires Inv(s)
    ensures Step(s, e).processed == s.processed + (set n | n in StepLog(s, e))
    ensures forall n :: n in StepLog(s, e) ==> n !in s.processed
  {
    hide Missing, Dropped;
    if e.Packet? {
      var b := BeforeCheck(s, e);
      BeforeCheckKeepsInv(s, e);
      CheckIsSetTest(b, e.wire, e.path);
      CheckKeepsProcessed(b, e.wire, e.path);
      var (c, n) := Check(b, e.wire, e.path);
      assert AfterCheck(c, n, e.path, e.authentic).processed ==
             (if n > 0 && e.authentic then s.processed + {n} else s.processed);
    }
  }

  lemma {:induction false} RunKeepsInv(events: seq<Event>)
    ensures Inv(Run(Fresh(), events))
    decreases |events|
  {
    if events == [] {
      assert Missing(Fresh()) == {};
    } else {
      var before, e := events[..|events| - 1], events[|events| - 1];
      RunKeepsInv(before);
      StepKeepsInv(Run(Fresh(), before), e);
    }
  }

  /** Appending fresh numbers to a list without repeats. */
  lemma NoRepeats(log: seq<int>, more: seq<int>, seen: set<int>)
    requires forall i, j :: 0 <= i < j < |log| ==> log[i] != log[j]
    requires seen == (set n | n in log)
    requires |more| <= 1 && forall n :: n in more ==> n !in seen
    ensures forall i, j :: 0 <= i < j < |log + more| ==> (log + more)[i] != (log + more)[j]
    ensures seen + (set n | n in more) == (set n | n in log + more)
  {
    forall i, j | 0 <= i < j < |log + more| ensures (log + more)[i] != (log + more)[j] {
      if j >= |log| { assert log[i] in log && more[0] in more; }
    }
  }

  /** In every run from a fresh receiver no number is processed twice, and the
  set kept is exactly the numbers processed. */
  lemma {:induction false} NothingProcessedTwice(events: seq<Event>)
    ensures var log := Log(Fresh(), events);
            && (forall i, j :: 0 <= i < j < |log| ==> log[i] != log[j])
            && Run(Fresh(), events).processed == (set n | n in log)
    decreases |events|
  {
    if events != [] {
      var before, e := events[..|events| - 1], events[|events| - 1];
      NothingProcessedTwice(before);
      RunKeepsInv(before);
      var s := Run(Fresh(), before);
      StepProcessesNew(s, e);
      NoRepeats(Log(Fresh(), before), StepLog(s, e), s.processed);
    }
  }

  // ---------------------------------------------------------------- dropped packets

  /** A late packet that is accepted always finds a nonzero lifetime drop count,
  so the "No dropped packets" assertion cannot fire. */
  lemma LatePacketWasCountedDropped(s: Flow, n: int)
    requires Inv(s) && Acceptable(s, n) && n <= s.max
    ensures Dropped(s) > 0
  {
    assert n in Missing(s);
  }

  /** The lifetime drop count is never below the number of missing packets. */
  lemma DroppedCoversMissing(events: seq<Event>)
    ensures var s := Run(Fresh(), events); Dropped(s) >= |Missing(s)|
  {
    RunKeepsInv(events);
  }

  ghost predicate NoRollover(events: seq<Event>) {
    forall e :: e in events ==> e != NextInterval
  }

  /** Without a rollover every late packet finds its drop in the current interval. */
  lemma StepCorrectsDrops(s: Flow, e: Event)
    requires Inv(s) && s.acc.dropped == 0 && s.uncorrected == 0 && e != NextInterval
    ensures Step(s, e).acc.dropped == 0 && Step(s, e).uncorrected == 0
  {
    if e.Packet? {
      BeforeCheckKeepsInv(s, e);
      var b := BeforeCheck(s, e);
      CheckIsSetTest(b, e.wire, e.path);
      var n := Check(b, e.wire, e.path).1;
      if 0 < n <= b.max { LatePacketWasCountedDropped(b, n); }
    }
  }

  /** Only a jump writes missing numbers off. */
  lemma StepWritesOffOnJumps(s: Flow, e: Event)
    requires Shape(s) && (s.jumps == 0 ==> s.writtenOff == 0)
    ensures Step(s, e).jumps == 0 ==> Step(s, e).writtenOff == 0
  {
  }

  lemma {:induction false} RunCorrectsDrops(events: seq<Event>)
    requires NoRollover(events)
    ensures var s := Run(Fresh(), events); s.acc.dropped == 0 && s.uncorrected == 0
    decreases |events|
  {
    if events != [] {
      var before, e := events[..|events| - 1], events[|events| - 1];
      assert e in events && forall d :: d in before ==> d in events;
      RunCorrectsDrops(before);
      RunKeepsInv(before);
      StepCorrectsDrops(Run(Fresh(), before), e);
    }
  }

  lemma {:induction false} RunWritesOffOnJumps(events: seq<Event>)
    ensures var s := Run(Fresh(), events); s.jumps == 0 ==> s.writtenOff == 0
    decreases |events|
  {
    if events != [] {
      var before, e := events[..|events| - 1], events[|events| - 1];
      RunWritesOffOnJumps(before);
      StepWritesOffOnJumps(Run(Fresh(), before), e);
    }
  }

  /** In a run without a rollover and without a jump the drop count is exactly
  the number of missing packets. */
  lemma DroppedIsExact(events: seq<Event>)
    requires NoRollover(events) && Run(Fresh(), events).jumps == 0
    ensures var s := Run(Fresh(), events); Dropped(s) == |Missing(s)|
  {
    RunKeepsInv(events);
    RunCorrectsDrops(events);
    RunWritesOffOnJumps(events);
  }

  /** A packet moves the maximum to the number it processes, or leaves it. */
  lemma PacketMovesMax(s: Flow, e: Event)
    requires Inv(s) && e.Packet?
    ensures var b := BeforeCheck(s, e);
            Step(s, e).max == b.max || Step(s, e).max == Expand(b.max, e.wire) > b.max
  {
    BeforeCheckKeepsInv(s, e);
    CheckIsSetTest(BeforeCheck(s, e), e.wire, e.path);
  }
}
