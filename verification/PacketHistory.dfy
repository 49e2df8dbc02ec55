/** The receiver of SequenceSpec told by its history alone: every arrival with the number
it was given, how that number was found, and whether it was processed.  All counters of
the receiver are counts over this history. */
module PacketHistory {
  import opened SequenceSpec

  /** How a number is found when it arrives: not seen before, too old to tell, seen before
  on the same path, or seen before on the other path only. */
  datatype Kind = New | Old | Duplicate | OtherPath

  datatype Arrival = Arrival(n: int, path: Path, kind: Kind, processed: bool)

  /** `base` is the number that the first packet is expected after, `start` the number of
  arrivals before the current interval. */
  datatype History = History(base: int, arrivals: seq<Arrival>, start: nat)

  const EMPTY := History(0, [], 0)

  /** The numbers processed, in order. */
  function Numbers(a: seq<Arrival>): seq<int> {
    if a == [] then []
    else Numbers(a[..|a| - 1]) + if a[|a| - 1].processed then [a[|a| - 1].n] else []
  }

  function Highest(base: int, log: seq<int>): int {
    if log == [] then base
    else
      var h := Highest(base, log[..|log| - 1]);
      if log[|log| - 1] > h then log[|log| - 1] else h
  }

  /** The last number that was 100 or more above all before it, or else the base. */
  function Floor(base: int, log: seq<int>): int {
    if log == [] then base
    else if log[|log| - 1] >= Highest(base, log[..|log| - 1]) + 100 then log[|log| - 1]
    else Floor(base, log[..|log| - 1])
  }

  /** The number arrived on the path when, or after, it was processed. */
  predicate SeenOnPath(a: seq<Arrival>, n: int, path: Path) {
    a != []
    && var before, last := a[..|a| - 1], a[|a| - 1];
    SeenOnPath(before, n, path) || (last.n == n && last.path == path && (last.processed || n in Numbers(before)))
  }

  function KindOf(h: History, n: int, path: Path): Kind {
    var log := Numbers(h.arrivals);
    var known := n <= Floor(h.base, log);
    if n / 64 < Highest(h.base, log) / 64 - 1 then Old
    else if !known && n !in log then New
    else if known || SeenOnPath(h.arrivals, n, path) then Duplicate
    else OtherPath
  }

  /** The base that an event leaves: it is set once, while nothing was received. */
  function BaseAfter(h: History, e: Event): int {
    if Highest(h.base, Numbers(h.arrivals)) != 0 || e == NextInterval then h.base
    else if e == Connect then 1
    else if e.initialize then (e.wire - 1) % WIRE_RANGE
    else h.base
  }

  function ArrivalOf(h: History, wire: nat, path: Path, authentic: bool): Arrival {
    var n := Expand(Highest(h.base, Numbers(h.arrivals)), wire);
    var kind := KindOf(h, n, path);
    Arrival(n, path, kind, kind == New && authentic)
  }

  function Next(h: History, e: Event): History {
    var h1 := h.(base := BaseAfter(h, e));
    match e
    case Packet(wire, path, _, authentic) => h1.(arrivals := h1.arrivals + [ArrivalOf(h1, wire, path, authentic)])
    case Connect => h1
    case NextInterval => h1.(start := |h1.arrivals|)
  }

  function Past(events: seq<Event>): History {
    if events == [] then EMPTY else Next(Past(events[..|events| - 1]), events[|events| - 1])
  }

  // ---------------------------------------------------------------- counts over the history

  function CountKind(a: seq<Arrival>, kind: Kind): nat {
    if a == [] then 0 else CountKind(a[..|a| - 1], kind) + if a[|a| - 1].kind == kind then 1 else 0
  }

  function CountOnPath(a: seq<Arrival>, path: Path): nat {
    if a == [] then 0 else CountOnPath(a[..|a| - 1], path) + if a[|a| - 1].path == path then 1 else 0
  }

  /** Arrivals on the path that the other path had brought first. */
  function CountSecond(a: seq<Arrival>, path: Path): nat {
    if a == [] then 0
    else
      var last := a[|a| - 1];
      CountSecond(a[..|a| - 1], path) + if last.path == path && last.kind == OtherPath then 1 else 0
  }

  /** Numbers processed after a larger one. */
  ghost function CountLate(log: seq<int>): nat {
    if log == [] then 0
    else CountLate(log[..|log| - 1]) + if exists j :: 0 <= j < |log| - 1 && log[j] > log[|log| - 1] then 1 else 0
  }

  /** Numbers that were 100 or more above all before them. */
  function CountJumps(base: int, log: seq<int>): nat {
    if log == [] then 0
    else
      var before, n := log[..|log| - 1], log[|log| - 1];
      CountJumps(base, before) + if n >= Highest(base, before) + 100 then 1 else 0
  }

  /** How many more numbers were skipped than came late; a jump skips nothing. */
  function NetSkipped(base: int, log: seq<int>): int {
    if log == [] then 0
    else
      var before, n := log[..|log| - 1], log[|log| - 1];
      var h := Highest(base, before);
      NetSkipped(base, before) + if n < h then -1 else if n < h + 100 then n - h - 1 else 0
  }

  /** d is the largest surplus of skipped over late numbers in any stretch that ends with
  the log and starts no earlier than `from`. */
  ghost predicate IsSurplus(d: int, base: int, log: seq<int>, from: nat) {
    && from <= |log|
    && (forall j :: from <= j <= |log| ==> NetSkipped(base, log) - NetSkipped(base, log[..j]) <= d)
    && exists j :: from <= j <= |log| && NetSkipped(base, log) - NetSkipped(base, log[..j]) == d
  }

  // ---------------------------------------------------------------- the receiver stands for its history

  /** The filter: maximum, last reset, and what was seen in the window. */
  ghost predicate Placed(s: Flow, h: History)
    requires Shape(s)
  {
    var log := Numbers(h.arrivals);
    && s.max == Highest(h.base, log) && s.lastInit == Floor(h.base, log)
    && (forall n :: n in s.processed <==> n in log)
    && forall p: Path, n :: n > s.lastInit && n / 64 >= s.max / 64 - 1 ==>
         (n in s.arrived[p] <==> SeenOnPath(h.arrivals, n, p))
  }

  /** The counts of arrivals, since the start of the interval and before it. */
  ghost predicate CountedArrivals(s: Flow, h: History)
    requires Shape(s)
  {
    && h.start <= |h.arrivals|
    && var a, past := h.arrivals, h.arrivals[..h.start];
    && s.cur.recv == |a| - h.start && s.acc.sequenced == |a|
    && s.recvSeq[0] == CountOnPath(a, 0) && s.recvSeq[1] == CountOnPath(a, 1)
    && s.recvLater[0] == CountSecond(a, 0) && s.recvLater[1] == CountSecond(a, 1)
    && s.acc.duplicate == CountKind(past, Duplicate)
    && s.acc.duplicate + s.cur.duplicate == CountKind(a, Duplicate)
  }

  /** The counts that the order of the processed numbers gives. */
  ghost predicate CountedOrder(s: Flow, h: History)
    requires h.start <= |h.arrivals|
  {
    var a, past := h.arrivals, h.arrivals[..h.start];
    var log, pastLog := Numbers(a), Numbers(past);
    && s.acc.outOfOrder == CountLate(pastLog) && s.acc.outOfOrder + s.cur.outOfOrder == CountLate(log)
    && s.acc.lurch == CountJumps(h.base, pastLog) + CountKind(past, Old)
    && s.acc.lurch + s.cur.lurch == CountJumps(h.base, log) + CountKind(a, Old)
    && IsSurplus(s.cur.dropped, h.base, log, |pastLog|)
  }

  ghost predicate Counted(s: Flow, h: History)
    requires Shape(s)
  {
    CountedArrivals(s, h) && CountedOrder(s, h)
  }

  ghost predicate Matches(s: Flow, h: History) {
    Shape(s) && Placed(s, h) && Counted(s, h)
  }

  lemma {:induction false} HighestIsHighest(base: int, log: seq<int>)
    ensures base <= Highest(base, log) && forall n :: n in log ==> n <= Highest(base, log)
    ensures Highest(base, log) == base || Highest(base, log) in log
  {
    if log != [] {
      var before := log[..|log| - 1];
      HighestIsHighest(base, before);
      assert log == before + [log[|log| - 1]];
    }
  }

  lemma {:induction false} FloorIsBelow(base: int, log: seq<int>)
    ensures Floor(base, log) <= Highest(base, log)
  {
    if log != [] { FloorIsBelow(base, log[..|log| - 1]); }
  }

  lemma NumbersStep(a: seq<Arrival>, x: Arrival)
    ensures Numbers(a + [x]) == if x.processed then Numbers(a) + [x.n] else Numbers(a)
  {
    assert (a + [x])[..|a|] == a;
  }

  lemma LogStep(base: int, log: seq<int>, n: int)
    ensures var h := Highest(base, log);
            && Highest(base, log + [n]) == (if n > h then n else h)
            && Floor(base, log + [n]) == (if n >= h + 100 then n else Floor(base, log))
            && CountJumps(base, log + [n]) == CountJumps(base, log) + (if n >= h + 100 then 1 else 0)
            && NetSkipped(base, log + [n]) ==
               NetSkipped(base, log) + (if n < h then -1 else if n < h + 100 then n - h - 1 else 0)
  {
    assert (log + [n])[..|log|] == log;
  }

  lemma LateStep(log: seq<int>, n: int)
    ensures CountLate(log + [n]) == CountLate(log) + if exists m :: m in log && m > n then 1 else 0
  {
    var r := log + [n];
    assert r[..|log|] == log;
    if m :| m in log && m > n {
      var j :| 0 <= j < |log| && log[j] == m;
      assert r[j] > r[|r| - 1];
    }
    if j :| 0 <= j < |r| - 1 && r[j] > r[|r| - 1] { assert log[j] in log; }
  }

  lemma SeenStep(a: seq<Arrival>, x: Arrival, n: int, path: Path)
    ensures SeenOnPath(a + [x], n, path) <==>
            SeenOnPath(a, n, path) || (x.n == n && x.path == path && (x.processed || n in Numbers(a)))
  {
    assert (a + [x])[..|a|] == a;
  }

  lemma CountStep(a: seq<Arrival>, x: Arrival, kind: Kind, path: Path)
    ensures CountKind(a + [x], kind) == CountKind(a, kind) + if x.kind == kind then 1 else 0
    ensures CountOnPath(a + [x], path) == CountOnPath(a, path) + if x.path == path then 1 else 0
    ensures CountSecond(a + [x], path) ==
            CountSecond(a, path) + if x.path == path && x.kind == OtherPath then 1 else 0
  {
    assert (a + [x])[..|a|] == a;
  }

  /** Counters that never go below zero keep the largest surplus. */
  lemma SurplusStep(d: int, base: int, log: seq<int>, from: nat, n: int)
    requires IsSurplus(d, base, log, from)
    ensures var d' := d + NetSkipped(base, log + [n]) - NetSkipped(base, log);
            IsSurplus(if d' > 0 then d' else 0, base, log + [n], from)
  {
    hide NetSkipped;
    var r := log + [n];
    var d' := d + NetSkipped(base, r) - NetSkipped(base, log);
    var m := if d' > 0 then d' else 0;
    assert r[..|r|] == r;
    assert forall j :: from <= j <= |log| ==> r[..j] == log[..j];
    forall j | from <= j <= |r| ensures NetSkipped(base, r) - NetSkipped(base, r[..j]) <= m {
      if j <= |log| { assert NetSkipped(base, log) - NetSkipped(base, log[..j]) <= d; }
    }
    var j :| from <= j <= |log| && NetSkipped(base, log) - NetSkipped(base, log[..j]) == d;
    assert NetSkipped(base, r) - NetSkipped(base, r[..j]) == d';
    assert NetSkipped(base, r) - NetSkipped(base, r[..|r|]) == 0;
  }

  /** The kind of an arrival is what the check goes by. */
  lemma KindIsChecked(s: Flow, h: History, wire: nat, path: Path)
    requires Inv(s) && Placed(s, h)
    ensures var (c, n) := Check(s, wire, path);
            var m := Expand(s.max, wire);
            var kind := KindOf(h, m, path);
            && n == (if kind == New then m else 0)
            && c == CountPacket(s, path).(cur := c.cur, recvLater := c.recvLater, arrived := c.arrived)
            && c.cur == CountPacket(s, path).cur.(lurch := s.cur.lurch + (if kind == Old then 1 else 0),
                                                  duplicate := s.cur.duplicate + (if kind == Duplicate then 1 else 0))
            && c.recvLater == (if kind == OtherPath then s.recvLater[path := s.recvLater[path] + 1] else s.recvLater)
            && c.arrived == (if kind == OtherPath then s.arrived[path := s.arrived[path] + {m}] else s.arrived)
            && (kind == New ==> m > 0 && m > s.lastInit && m !in s.processed && m / 64 >= s.max / 64 - 1)
            && (kind == OtherPath ==> m > s.lastInit && m in s.processed && m / 64 >= s.max / 64 - 1)
  {
    var m := Expand(s.max, wire);
    BlockIndex(s.max, m);
    FloorIsBelow(h.base, Numbers(h.arrivals));
    HighestIsHighest(h.base, Numbers(h.arrivals));
    hide Missing, Dropped, Expand, SeenOnPath, Highest, Floor, Numbers;
  }

  lemma BlockIndex(max: int, n: int)
    ensures n < BlockStart(max) - BLOCK <==> n / 64 < max / 64 - 1
    ensures n > max ==> n / 64 >= max / 64 - 1
  {
  }

  // ---------------------------------------------------------------- one event

  /** What an arrival leaves of the filter, by its kind. */
  ghost predicate Filtered(s: Flow, t: Flow, x: Arrival)
    requires Shape(s)
  {
    && (x.processed ==> x.kind == New && t.max == (if x.n > s.max then x.n else s.max))
    && (x.processed ==> t.lastInit == if x.n >= s.max + 100 then x.n else s.lastInit)
    && (!x.processed ==> t.max == s.max && t.lastInit == s.lastInit)
    && t.processed == (if x.processed then s.processed + {x.n} else s.processed)
    && t.arrived == (if x.processed || x.kind == OtherPath
                     then s.arrived[x.path := s.arrived[x.path] + {x.n}] else s.arrived)
    && t.max >= s.max && t.lastInit >= s.lastInit
  }

  lemma AfterArrival(s: Flow, h: History, wire: nat, path: Path, authentic: bool)
    requires Inv(s) && Placed(s, h)
    ensures var (c, n) := Check(s, wire, path);
            var t, x := AfterCheck(c, n, path, authentic), ArrivalOf(h, wire, path, authentic);
            x.n == Expand(s.max, wire) && x.path == path && Filtered(s, t, x) && Shape(t)
  {
    KindIsChecked(s, h, wire, path);
    assert s.lastInit <= s.max;
    hide Inv, Check, KindOf, Expand, SeenOnPath, Highest, Floor, Numbers, Missing;
  }

  lemma ArrivalPlaced(s: Flow, h: History, wire: nat, path: Path, authentic: bool)
    requires Inv(s) && Placed(s, h)
    ensures var (c, n) := Check(s, wire, path);
            var t := AfterCheck(c, n, path, authentic);
            Shape(t) && Placed(t, h.(arrivals := h.arrivals + [ArrivalOf(h, wire, path, authentic)]))
  {
    var (c, n) := Check(s, wire, path);
    var t, x := AfterCheck(c, n, path, authentic), ArrivalOf(h, wire, path, authentic);
    hide Check, AfterCheck, ArrivalOf, Placed, Filtered, Numbers, Floor, SeenOnPath;
    AfterArrival(s, h, wire, path, authentic);
    SeenBefore(h, x, wire, path, authentic);
    FilteredIsPlaced(s, h, t, x);
  }

  lemma FilteredIsPlaced(s: Flow, h: History, t: Flow, x: Arrival)
    requires Shape(s) && Shape(t) && Placed(s, h) && Filtered(s, t, x)
    requires x.kind == Duplicate ==> x.n <= Floor(h.base, Numbers(h.arrivals)) || SeenOnPath(h.arrivals, x.n, x.path)
    requires x.kind == New ==> x.n !in Numbers(h.arrivals)
    requires x.kind == OtherPath ==> x.n in Numbers(h.arrivals)
    requires x.kind == Old ==> x.n / 64 < Highest(h.base, Numbers(h.arrivals)) / 64 - 1
    ensures Placed(t, h.(arrivals := h.arrivals + [x]))
  {
    hide SeenOnPath, Highest, Floor, Numbers;
    NumbersStep(h.arrivals, x);
    if x.processed { LogStep(h.base, Numbers(h.arrivals), x.n); }
    forall p: Path, m | m > t.lastInit && m / 64 >= t.max / 64 - 1
      ensures m in t.arrived[p] <==> SeenOnPath(h.arrivals + [x], m, p)
    {
      SeenOrArrived(s, h, t, x, m, p);
    }
  }

  lemma SeenOrArrived(s: Flow, h: History, t: Flow, x: Arrival, m: int, p: Path)
    requires Shape(s) && Shape(t) && Placed(s, h) && Filtered(s, t, x)
    requires x.kind == Duplicate ==> x.n <= Floor(h.base, Numbers(h.arrivals)) || SeenOnPath(h.arrivals, x.n, x.path)
    requires x.kind == New ==> x.n !in Numbers(h.arrivals)
    requires x.kind == OtherPath ==> x.n in Numbers(h.arrivals)
    requires x.kind == Old ==> x.n / 64 < Highest(h.base, Numbers(h.arrivals)) / 64 - 1
    requires m > t.lastInit && m / 64 >= t.max / 64 - 1
    ensures m in t.arrived[p] <==> SeenOnPath(h.arrivals + [x], m, p)
  {
    hide SeenOnPath, Highest, Floor, Numbers;
    WindowMoves(s, t, m);
    SeenStep(h.arrivals, x, m, p);
    assert m in s.arrived[p] <==> SeenOnPath(h.arrivals, m, p);
  }

  /** The window and the last reset only move up. */
  lemma WindowMoves(s: Flow, t: Flow, m: int)
    requires t.max >= s.max && t.lastInit >= s.lastInit
    ensures m > t.lastInit && m / 64 >= t.max / 64 - 1 ==> m > s.lastInit && m / 64 >= s.max / 64 - 1
  {
  }

  /** A number found as a duplicate was at most the last reset or seen on that path. */
  lemma SeenBefore(h: History, x: Arrival, wire: nat, path: Path, authentic: bool)
    requires x == ArrivalOf(h, wire, path, authentic)
    ensures var log := Numbers(h.arrivals);
            && (x.kind == Duplicate ==> x.n <= Floor(h.base, log) || SeenOnPath(h.arrivals, x.n, path))
            && (x.kind == New ==> x.n !in log)
            && (x.kind == OtherPath ==> x.n in log)
            && (x.kind == Old <==> x.n / 64 < Highest(h.base, log) / 64 - 1)
  {
  }

  /** Marks of the past stay where they are when an arrival is added. */
  lemma PastStays(h: History, x: Arrival)
    requires h.start <= |h.arrivals|
    ensures (h.arrivals + [x])[..h.start] == h.arrivals[..h.start]
  {
  }

  /** What a packet does to the counters, by the kind of its arrival. */
  lemma AfterCounts(s: Flow, h: History, wire: nat, path: Path, authentic: bool)
    requires Inv(s) && Placed(s, h)
    ensures var (c, n) := Check(s, wire, path);
            var t, x := AfterCheck(c, n, path, authentic), ArrivalOf(h, wire, path, authentic);
            && t.acc == s.acc.(sequenced := s.acc.sequenced + 1) && t.cur.recv == s.cur.recv + 1
            && t.recvSeq == s.recvSeq[path := s.recvSeq[path] + 1]
            && t.recvLater == (if x.kind == OtherPath then s.recvLater[path := s.recvLater[path] + 1] else s.recvLater)
            && t.cur.duplicate == s.cur.duplicate + (if x.kind == Duplicate then 1 else 0)
            && t.cur.outOfOrder == s.cur.outOfOrder + (if x.processed && x.n < s.max then 1 else 0)
            && t.cur.lurch == s.cur.lurch + (if x.kind == Old then 1 else 0)
                              + (if x.processed && x.n >= s.max + 100 then 1 else 0)
            && (!x.processed ==> t.cur.dropped == s.cur.dropped)
            && (x.processed ==>
                  t.cur.dropped == if x.n < s.max then (if s.cur.dropped > 0 then s.cur.dropped - 1 else 0)
                                   else if x.n < s.max + 100 then s.cur.dropped + (x.n - s.max - 1)
                                   else s.cur.dropped)
            && (x.processed ==> x.n != s.max)
  {
    KindIsChecked(s, h, wire, path);
    assert s.max == s.lastInit || s.max in s.processed;
    hide Inv, Check, KindOf, Expand, SeenOnPath, Highest, Floor, Numbers, Missing;
  }

  lemma LateIsBelow(s: Flow, h: History, n: int)
    requires Inv(s) && Placed(s, h) && n > s.lastInit
    ensures n < s.max <==> exists m :: m in Numbers(h.arrivals) && m > n
  {
    HighestIsHighest(h.base, Numbers(h.arrivals));
    if n < s.max {
      assert s.max in s.processed;
      assert s.max in Numbers(h.arrivals) && s.max > n;
    }
  }

  lemma ArrivalCounted(s: Flow, h: History, wire: nat, path: Path, authentic: bool)
    requires Inv(s) && Placed(s, h) && Counted(s, h)
    ensures var (c, n) := Check(s, wire, path);
            Counted(AfterCheck(c, n, path, authentic),
                    h.(arrivals := h.arrivals + [ArrivalOf(h, wire, path, authentic)]))
  {
    var (c, n) := Check(s, wire, path);
    var t, x := AfterCheck(c, n, path, authentic), ArrivalOf(h, wire, path, authentic);
    assert h.start <= |h.arrivals|;
    hide Check, AfterCheck, ArrivalOf, KindOf, Expand, Highest, Floor, Numbers, Missing, SeenOnPath;
    hide CountedOrder, CountedArrivals;
    AfterCounts(s, h, wire, path, authentic);
    AfterArrival(s, h, wire, path, authentic);
    NewIsAbove(s, h, wire, path, authentic);
    if x.processed { LateIsBelow(s, h, x.n); }
    hide Inv;
    MoreArrivals(s, t, h, x);
    MoreOrder(s, t, h, x);
  }

  lemma MoreArrivals(s: Flow, t: Flow, h: History, x: Arrival)
    requires Shape(s) && Shape(t) && CountedArrivals(s, h)
    requires t.acc == s.acc.(sequenced := s.acc.sequenced + 1) && t.cur.recv == s.cur.recv + 1
    requires t.recvSeq == s.recvSeq[x.path := s.recvSeq[x.path] + 1]
    requires t.recvLater == if x.kind == OtherPath then s.recvLater[x.path := s.recvLater[x.path] + 1] else s.recvLater
    requires t.cur.duplicate == s.cur.duplicate + if x.kind == Duplicate then 1 else 0
    ensures CountedArrivals(t, h.(arrivals := h.arrivals + [x]))
  {
    PastStays(h, x);
    CountStep(h.arrivals, x, Duplicate, 0);
    CountStep(h.arrivals, x, Duplicate, 1);
    hide CountKind, CountOnPath, CountSecond;
  }

  lemma MoreOrder(s: Flow, t: Flow, h: History, x: Arrival)
    requires h.start <= |h.arrivals| && CountedOrder(s, h) && s.max == Highest(h.base, Numbers(h.arrivals))
    requires t.acc == s.acc.(sequenced := t.acc.sequenced)
    requires x.processed ==> x.n != s.max && (x.n < s.max <==> exists m :: m in Numbers(h.arrivals) && m > x.n)
    requires t.cur.outOfOrder == s.cur.outOfOrder + if x.processed && x.n < s.max then 1 else 0
    requires t.cur.lurch == s.cur.lurch + (if x.kind == Old then 1 else 0)
                            + (if x.processed && x.n >= s.max + 100 then 1 else 0)
    requires t.cur.dropped == if !x.processed then s.cur.dropped
                              else if x.n < s.max then (if s.cur.dropped > 0 then s.cur.dropped - 1 else 0)
                              else if x.n < s.max + 100 then s.cur.dropped + (x.n - s.max - 1)
                              else s.cur.dropped
    ensures CountedOrder(t, h.(arrivals := h.arrivals + [x]))
  {
    var log := Numbers(h.arrivals);
    hide Highest, Numbers, IsSurplus, CountLate, CountJumps, CountKind, NetSkipped;
    NumbersStep(h.arrivals, x);
    PastStays(h, x);
    CountStep(h.arrivals, x, Old, 0);
    if x.processed {
      LogStep(h.base, log, x.n);
      LateStep(log, x.n);
      SurplusStep(s.cur.dropped, h.base, log, |Numbers(h.arrivals[..h.start])|, x.n);
    }
  }

  lemma NewIsAbove(s: Flow, h: History, wire: nat, path: Path, authentic: bool)
    requires Inv(s) && Placed(s, h)
    ensures var x := ArrivalOf(h, wire, path, authentic); x.kind == New ==> x.n > s.lastInit
  {
    KindIsChecked(s, h, wire, path);
  }

  lemma {:induction false} NothingProcessed(a: seq<Arrival>, k: nat)
    requires k <= |a| && Numbers(a) == []
    ensures Numbers(a[..k]) == []
    decreases |a|
  {
    if k < |a| {
      var before := a[..|a| - 1];
      assert before[..k] == a[..k];
      NothingProcessed(before, k);
    } else {
      assert a[..k] == a;
    }
  }

  lemma FirstIsBounded(log: seq<int>, bound: int)
    requires forall n :: n in log ==> 0 < n <= bound
    ensures log != [] ==> bound > 0
  {
    if log != [] {
      var n := log[0];
      assert n in log;
      assert 0 < n <= bound;
    }
  }

  lemma NothingYet(s: Flow, h: History)
    requires Inv(s) && Placed(s, h) && s.max == 0
    ensures Numbers(h.arrivals) == []
  {
    var log := Numbers(h.arrivals);
    assert forall n :: n in log ==> 0 < n <= s.max;
    FirstIsBounded(log, s.max);
  }

  /** A reset while nothing was received is a new base. */
  lemma ResetMatches(s: Flow, h: History, n: int)
    requires Inv(s) && Placed(s, h) && Counted(s, h) && s.max == 0 && n >= 0
    ensures Placed(Reset(s, n), h.(base := n)) && Counted(Reset(s, n), h.(base := n))
  {
    var log := Numbers(h.arrivals);
    NothingYet(s, h);
    NothingProcessed(h.arrivals, h.start);
    var t, h' := Reset(s, n), h.(base := n);
    hide Inv, Numbers, SeenOnPath, CountLate, CountKind, CountOnPath, CountSecond;
    forall p: Path, m | m > t.lastInit && m / 64 >= t.max / 64 - 1
      ensures m in t.arrived[p] <==> SeenOnPath(h'.arrivals, m, p)
    {
      WindowMoves(s, t, m) by { assert s.lastInit == 0 by { EmptyFloor(s, h); } }
    }
    assert log[..0] == [];
  }

  lemma EmptyFloor(s: Flow, h: History)
    requires Shape(s) && Placed(s, h) && s.max == 0 && Numbers(h.arrivals) == []
    ensures s.lastInit == 0 && h.base == 0
  {
  }

  lemma IntervalMatches(s: Flow, h: History)
    requires Shape(s) && Placed(s, h) && Counted(s, h)
    ensures var h' := h.(start := |h.arrivals|); Placed(Rollover(s), h') && Counted(Rollover(s), h')
  {
    assert Placed(Rollover(s), h.(start := |h.arrivals|)) by {
      hide Numbers, SeenOnPath, Highest, Floor, Counted;
    }
    assert h.arrivals[..|h.arrivals|] == h.arrivals;
    IntervalCounts(s, h);
    hide Placed, CountedOrder, CountOnPath, CountSecond, CountKind;
  }

  lemma IntervalCounts(s: Flow, h: History)
    requires h.start <= |h.arrivals| && CountedOrder(s, h)
    ensures CountedOrder(Rollover(s), h.(start := |h.arrivals|))
  {
    hide Numbers, CountLate, CountJumps, CountKind, NetSkipped;
    var log := Numbers(h.arrivals);
    assert h.arrivals[..|h.arrivals|] == h.arrivals && log[..|log|] == log;
  }

  lemma AdoptionMatches(s: Flow, h: History, e: Event)
    requires Inv(s) && Matches(s, h) && e.Packet?
    ensures Matches(BeforeCheck(s, e), h.(base := BaseAfter(h, e))) && Inv(BeforeCheck(s, e))
  {
    BeforeCheckKeepsInv(s, e);
    MaxIsHighest(s, h);
    hide Inv, Placed, Counted, Numbers, Highest;
    if e.initialize && s.max == 0 { ResetMatches(s, h, (e.wire - 1) % WIRE_RANGE); }
  }

  lemma ArrivalMatches(s: Flow, h: History, wire: nat, path: Path, authentic: bool)
    requires Inv(s) && Matches(s, h)
    ensures var (c, n) := Check(s, wire, path);
            Matches(AfterCheck(c, n, path, authentic),
                    h.(arrivals := h.arrivals + [ArrivalOf(h, wire, path, authentic)]))
  {
    hide Inv, Placed, Counted, Check, AfterCheck, ArrivalOf;
    ShapeKept(s, wire, path, authentic);
    ArrivalPlaced(s, h, wire, path, authentic);
    ArrivalCounted(s, h, wire, path, authentic);
  }

  lemma PacketMatches(s: Flow, h: History, e: Event)
    requires Inv(s) && Matches(s, h) && e.Packet?
    ensures Matches(Step(s, e), Next(h, e))
    ensures Numbers(Next(h, e).arrivals) == Numbers(h.arrivals) + StepLog(s, e)
  {
    var b, h1 := BeforeCheck(s, e), h.(base := BaseAfter(h, e));
    AdoptionMatches(s, h, e);
    ProcessedIsLogged(b, h1, e.wire, e.path, e.authentic);
    hide Inv, Matches, Numbers, Check, AfterCheck, ArrivalOf, BeforeCheck, BaseAfter;
    ArrivalMatches(b, h1, e.wire, e.path, e.authentic);
    NumbersStep(h.arrivals, ArrivalOf(h1, e.wire, e.path, e.authentic));
  }

  lemma ShapeKept(s: Flow, wire: nat, path: Path, authentic: bool)
    requires Shape(s)
    ensures var (c, n) := Check(s, wire, path); Shape(AfterCheck(c, n, path, authentic))
  {
  }

  lemma ProcessedIsLogged(s: Flow, h: History, wire: nat, path: Path, authentic: bool)
    requires Inv(s) && Placed(s, h)
    ensures var n, x := Check(s, wire, path).1, ArrivalOf(h, wire, path, authentic);
            x.processed == (authentic && n > 0) && (x.processed ==> x.n == n)
  {
    KindIsChecked(s, h, wire, path);
  }

  lemma MaxIsHighest(s: Flow, h: History)
    requires Matches(s, h)
    ensures s.max == Highest(h.base, Numbers(h.arrivals))
  {
  }

  lemma StepMatches(s: Flow, h: History, e: Event)
    requires Inv(s) && Matches(s, h)
    ensures Matches(Step(s, e), Next(h, e))
    ensures Numbers(Next(h, e).arrivals) == Numbers(h.arrivals) + StepLog(s, e)
  {
    MaxIsHighest(s, h);
    hide Inv, Placed, Counted, Numbers, Check, AfterCheck;
    match e
    case Packet(_, _, _, _) => PacketMatches(s, h, e);
    case Connect => if s.max == 0 { ResetMatches(s, h, 1); }
    case NextInterval => IntervalMatches(s, h);
  }

  // ---------------------------------------------------------------- every run

  lemma FreshMatches()
    ensures Matches(Fresh(), EMPTY) && Numbers(EMPTY.arrivals) == []
  {
    var none: seq<int> := [];
    assert EMPTY.arrivals[..0] == [] && none[..0] == [];
  }

  /** After every run the receiver stands for its history: the filter for what was seen, the
  counters for what was counted, in the interval and over the lifetime. */
  lemma {:induction false} RunIsCounted(events: seq<Event>)
    ensures var s, h := Run(Fresh(), events), Past(events);
            Matches(s, h) && Log(Fresh(), events) == Numbers(h.arrivals)
    decreases |events|
  {
    hide Matches, Inv, Step, StepLog, Next, Numbers;
    if events == [] {
      FreshMatches();
    } else {
      var before, e := events[..|events| - 1], events[|events| - 1];
      RunIsCounted(before);
      RunKeepsInv(before);
      StepMatches(Run(Fresh(), before), Past(before), e);
    }
  }

  /** Out-of-order packets over a lifetime are the numbers processed after a larger one. */
  lemma OutOfOrderIsLate(events: seq<Event>)
    ensures var s := Run(Fresh(), events);
            s.acc.outOfOrder + s.cur.outOfOrder == CountLate(Log(Fresh(), events))
  {
    hide Run, Log;
    RunIsCounted(events);
  }

  /** The drops counted when each interval ended. */
  function DropsAtEnds(events: seq<Event>): nat {
    if events == [] then 0
    else
      var before := events[..|events| - 1];
      DropsAtEnds(before) + if events[|events| - 1] == NextInterval then Run(Fresh(), before).cur.dropped else 0
  }

  lemma {:induction false} LifetimeDrops(events: seq<Event>)
    ensures Run(Fresh(), events).acc.dropped == DropsAtEnds(events)
    decreases |events|
  {
    if events != [] { LifetimeDrops(events[..|events| - 1]); }
  }
}
