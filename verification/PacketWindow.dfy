/** The receive-side packet filter as it is implemented: two 64-bit words that
slide in blocks of 64 packets, and one more pair for each path.

Every method is proved to do what SequenceSpec says on sets; `Valid` says which
set the bits stand for. */
module PacketWindow {
  import opened Bits64
  import opened SequenceSpec

  /** Word m stands for the numbers lo .. lo+63: bit k is set exactly when lo+k is
  at most `floor` or in `numbers`. */
  ghost predicate Covers(m: nat, lo: int, numbers: set<int>, floor: int) {
    IsWord(m) && forall k: nat :: k < 64 ==> (Bit(m, k) <==> lo + k <= floor || lo + k in numbers)
  }

  lemma CoversNothing(lo: int, numbers: set<int>, floor: int)
    requires floor < lo && forall n :: lo <= n < lo + 64 ==> n !in numbers
    ensures Covers(0, lo, numbers, floor)
  {
    forall k: nat | k < 64 ensures !Bit(0, k) { ZeroBit(k); }
  }

  lemma CoversAll(lo: int, numbers: set<int>, floor: int)
    requires lo + 63 <= floor
    ensures Covers(AllOnes(), lo, numbers, floor)
  {
    forall k: nat | k < 64 ensures Bit(AllOnes(), k) { LowOnes(64, k); }
  }

  lemma CoversLow(lo: int, numbers: set<int>, floor: int)
    requires lo <= floor < lo + 63 && forall n :: n in numbers ==> n <= floor
    ensures Covers(Shl1(floor - lo + 1) - 1, lo, numbers, floor)
  {
    Shl1Less(floor - lo + 1, 64);
    var m := Shl1(floor - lo + 1) - 1;
    forall k: nat | k < 64 ensures Bit(m, k) <==> lo + k <= floor {
      LowOnes(floor - lo + 1, k);
    }
  }

  lemma CoversAfterSet(m: nat, lo: int, numbers: set<int>, floor: int, k: nat)
    requires Covers(m, lo, numbers, floor) && k < 64
    ensures Covers(Or(m, Shl1(k)), lo, numbers + {lo + k}, floor)
  {
    Shl1Less(k, 64);
    OrBound(m, Shl1(k), 64);
    forall j: nat | j < 64 ensures Bit(Or(m, Shl1(k)), j) <==> Bit(m, j) || k == j { SetBit(m, k, j); }
  }

  lemma {:induction false} HighBits(m: nat, n: nat, k: nat)
    requires m < Shl1(n) && n <= k
    ensures !Bit(m, k)
  {
    if n == 0 { ZeroBit(k); } else { HighBits(m / 2, n - 1, k - 1); }
  }

  /** Start of the block that word i stands for when the maximum is max. */
  function WordStart(max: int, i: nat): int {
    BlockStart(max) - 64 + 64 * i
  }

  /** The words stand for the sets of s, in the window of s. */
  ghost predicate WordsMatch(mask: seq<nat>, pathMask: seq<seq<nat>>, s: Flow)
    requires Shape(s)
  {
    && |mask| == 2 && |pathMask| == 2 && |pathMask[0]| == 2 && |pathMask[1]| == 2
    && (forall i | 0 <= i < 2 :: Covers(mask[i], WordStart(s.max, i), s.processed, s.lastInit))
    && (forall p, i | 0 <= p < 2 && 0 <= i < 2 ::
          Covers(pathMask[p][i], WordStart(s.max, i), s.arrived[p], s.lastInit))
  }

  /** The two words written by a reset to n. */
  lemma ResetCovers(low: nat, high: nat, numbers: set<int>, n: int)
    requires low == AllOnes() && high == (if n % 64 == 63 then AllOnes() else Shl1(n % 64 + 1) - 1)
    requires forall k :: k in numbers ==> k <= n
    ensures Covers(low, WordStart(n, 0), numbers, n) && Covers(high, WordStart(n, 1), numbers, n)
  {
    CoversAll(WordStart(n, 0), numbers, n);
    if n % 64 == 63 { CoversAll(WordStart(n, 1), numbers, n); } else { CoversLow(WordStart(n, 1), numbers, n); }
  }

  lemma ResetMatches(words: seq<nat>, s: Flow)
    requires Shape(s) && s.lastInit == s.max
    requires |words| == 2 && words[0] == AllOnes()
    requires words[1] == (if s.max % 64 == 63 then AllOnes() else Shl1(s.max % 64 + 1) - 1)
    requires forall k :: k in s.processed ==> k <= s.max
    requires forall p, k | 0 <= p < 2 && k in s.arrived[p] :: k <= s.max
    ensures WordsMatch(words, [words, words], s)
  {
    ResetCovers(words[0], words[1], s.processed, s.max);
    ResetCovers(words[0], words[1], s.arrived[0], s.max);
    ResetCovers(words[0], words[1], s.arrived[1], s.max);
  }

  /** `words[idx] |= bit` */
  function OrInto(words: seq<nat>, idx: nat, bit: nat): seq<nat>
    requires idx < |words|
  {
    words[idx := Or(words[idx], bit)]
  }

  /** Setting the bit of n in word idx of the main pair. */
  lemma MarkMain(mask: seq<nat>, pathMask: seq<seq<nat>>, s: Flow, idx: nat, n: int)
    requires Shape(s) && WordsMatch(mask, pathMask, s)
    requires idx < 2 && WordStart(s.max, idx) <= n < WordStart(s.max, idx) + 64
    ensures WordsMatch(OrInto(mask, idx, Shl1(n % 64)), pathMask,
                       s.(processed := s.processed + {n}))
  {
    assert n == WordStart(s.max, idx) + n % 64;
    CoversAfterSet(mask[idx], WordStart(s.max, idx), s.processed, s.lastInit, n % 64);
  }

  /** Setting the bit of n in word idx of one path. */
  lemma MarkPath(mask: seq<nat>, pathMask: seq<seq<nat>>, s: Flow, path: Path, idx: nat, n: int)
    requires Shape(s) && WordsMatch(mask, pathMask, s)
    requires idx < 2 && WordStart(s.max, idx) <= n < WordStart(s.max, idx) + 64
    ensures WordsMatch(mask, pathMask[path := OrInto(pathMask[path], idx, Shl1(n % 64))],
                       s.(arrived := s.arrived[path := s.arrived[path] + {n}]))
  {
    assert n == WordStart(s.max, idx) + n % 64;
    CoversAfterSet(pathMask[path][idx], WordStart(s.max, idx), s.arrived[path], s.lastInit, n % 64);
  }

  /** Reading the bit of n in word idx. */
  lemma LookUp(mask: seq<nat>, pathMask: seq<seq<nat>>, s: Flow, path: Path, idx: nat, n: int)
    requires Shape(s) && WordsMatch(mask, pathMask, s)
    requires idx < 2 && WordStart(s.max, idx) <= n < WordStart(s.max, idx) + 64
    ensures And(mask[idx], Shl1(n % 64)) != 0 <==> n <= s.lastInit || n in s.processed
    ensures And(pathMask[path][idx], Shl1(n % 64)) != 0 <==> SeenOn(s, path, n)
  {
    assert n == WordStart(s.max, idx) + n % 64;
    TestBit(mask[idx], n % 64);
    TestBit(pathMask[path][idx], n % 64);
  }

  /** The sets after n was recorded, in the window n calls for. */
  ghost function Marked(s: Flow, n: int, path: Path): Flow
    requires Shape(s)
  {
    s.(processed := s.processed + {n}, arrived := s.arrived[path := s.arrived[path] + {n}],
       max := if BlockStart(n) > BlockStart(s.max) then n else s.max)
  }

  /** The words only depend on the sets, the last reset and the block. */
  lemma SameWindow(mask: seq<nat>, pathMask: seq<seq<nat>>, s: Flow, t: Flow)
    requires Shape(s) && Shape(t) && WordsMatch(mask, pathMask, s)
    requires BlockStart(s.max) == BlockStart(t.max) && s.lastInit == t.lastInit
    requires s.processed == t.processed && s.arrived == t.arrived
    ensures WordsMatch(mask, pathMask, t)
  {
  }

  /** Processing without a jump records n and keeps the larger of the two maxima. */
  lemma ProcessRecords(s: Flow, n: int, path: Path)
    requires FilterInv(s) && Acceptable(s, n) && n < s.max + LURCH_GAP
    ensures var t := Process(s, n, path);
            && t.processed == Marked(s, n, path).processed && t.arrived == Marked(s, n, path).arrived
            && t.lastInit == s.lastInit && t.max == (if n > s.max then n else s.max)
            && FilterInv(t) && BlockStart(t.max) == BlockStart(Marked(s, n, path).max)
  {
  }

  /** One pair of words after the window moved on to the block of n. */
  function Slide(words: seq<nat>, oneBlock: bool): seq<nat>
    requires |words| == 2
  {
    if oneBlock then [words[1], 0] else [0, 0]
  }

  lemma SlideCovers(words: seq<nat>, numbers: set<int>, floor: int, max: int, n: int)
    requires |words| == 2 && floor <= max && forall k :: k in numbers ==> k <= max
    requires forall i | 0 <= i < 2 :: Covers(words[i], WordStart(max, i), numbers, floor)
    requires BlockStart(n) >= BlockStart(max) + 64
    ensures var w := Slide(words, BlockStart(n) == BlockStart(max) + 64);
            forall i | 0 <= i < 2 :: Covers(w[i], WordStart(n, i), numbers, floor)
  {
    CoversNothing(WordStart(n, 1), numbers, floor);
    if BlockStart(n) != BlockStart(max) + 64 { CoversNothing(WordStart(n, 0), numbers, floor); }
  }

  /** The word that n belongs to, before and after the window has moved. */
  lemma WindowIndex(s: Flow, n: int)
    requires FilterInv(s) && Acceptable(s, n)
    ensures var idx := (n - (s.max - s.max % 64)) / 64 + 1;
            && 0 <= idx
            && (idx < 2 ==>
                  BlockStart(n) <= BlockStart(s.max) && WordStart(s.max, idx) <= n < WordStart(s.max, idx) + 64)
            && (idx >= 2 ==> BlockStart(n) >= BlockStart(s.max) + 64 && WordStart(n, 1) <= n < WordStart(n, 1) + 64)
            && (idx == 2 <==> BlockStart(n) == BlockStart(s.max) + 64)
  {
    var a, b := s.max / 64, n / 64;
    assert s.max - s.max % 64 == 64 * a && n - n % 64 == 64 * b;
    assert (n - 64 * a) / 64 == b - a by { Quotient(n, a); }
  }

  lemma Quotient(n: int, a: int)
    ensures (n - 64 * a) / 64 == n / 64 - a
  {
  }

  /** The words after the window moved on to the block of n. */
  lemma SlideMatches(mask: seq<nat>, pathMask: seq<seq<nat>>, s: Flow, n: int)
    requires FilterInv(s) && WordsMatch(mask, pathMask, s)
    requires BlockStart(n) >= BlockStart(s.max) + 64
    ensures var one := BlockStart(n) == BlockStart(s.max) + 64;
            WordsMatch(Slide(mask, one), [Slide(pathMask[0], one), Slide(pathMask[1], one)], s.(max := n))
  {
    SlideCovers(mask, s.processed, s.lastInit, s.max, n);
    forall p | 0 <= p < 2
      ensures var w := Slide(pathMask[p], BlockStart(n) == BlockStart(s.max) + 64);
              forall i | 0 <= i < 2 :: Covers(w[i], WordStart(n, i), s.arrived[p], s.lastInit)
    {
      SlideCovers(pathMask[p], s.arrived[p], s.lastInit, s.max, n);
    }
  }

  /** `LinkStatsTracker`, the part that looks at packet numbers.  `mask[1]` stands
  for the block of the maximum and `mask[0]` for the block before it. */
  class Tracker {
    var maxRecv: int
    var lastInit: int
    var mask: seq<nat>
    var pathMask: seq<seq<nat>>
    var cur: Counters
    var acc: Totals
    var recvLater: seq<nat>
    var recvSeq: seq<nat>

    /** The state the fields stand for. */
    ghost var flow: Flow

    ghost predicate FieldsMatch()
      reads this
    {
      && flow.max == maxRecv && flow.lastInit == lastInit
      && flow.cur == cur && flow.acc == acc
      && flow.recvLater == recvLater && flow.recvSeq == recvSeq
    }

    ghost predicate Valid()
      reads this
    {
      FieldsMatch() && FilterInv(flow) && WordsMatch(mask, pathMask, flow)
    }

    constructor ()
      ensures Valid() && flow == Fresh()
    {
      flow := Fresh();
      maxRecv, lastInit := 0, 0;
      mask, pathMask := [0, 0], [[0, 0], [0, 0]];
      cur, acc := NO_COUNTS, Totals(0, 0, 0, 0, 0);
      recvLater, recvSeq := [0, 0], [0, 0];
      new;
      InitMaxRecvPktNum(0);
    }

    /** Expect n+1 next and discard everything up to n. */
    method InitMaxRecvPktNum(n: int)
      requires FieldsMatch() && Shape(flow) && 0 <= n
      requires forall k :: k in flow.processed ==> 0 < k <= n
      requires forall p, k | 0 <= p < 2 && k in flow.arrived[p] :: k <= n
      modifies this
      ensures Valid() && flow == Reset(old(flow), n)
    {
      maxRecv := n;
      var low := AllOnes();
      var bitsToSet := n % 64 + 1;
      var high := if bitsToSet == 64 then AllOnes() else Shl1(bitsToSet) - 1;
      mask := [low, high];
      pathMask := [mask, mask];
      lastInit := n;
      flow := Reset(flow, n);

      ResetMatches(mask, flow);
    }

    method CountReceived(path: Path)
      requires Valid()
      modifies this`cur, this`acc, this`recvSeq, this`flow
      ensures Valid() && flow == CountPacket(old(flow), path)
    {
      cur := cur.(recv := cur.recv + 1);
      acc := acc.(sequenced := acc.sequenced + 1);
      recvSeq := recvSeq[path := recvSeq[path] + 1];
      flow := CountPacket(flow, path);
    }

    /** n is known already, but not from this path. */
    method OtherPathWasFirst(n: int, idx: nat, path: Path)
      requires Valid() && n in flow.processed
      requires idx < 2 && WordStart(maxRecv, idx) <= n < WordStart(maxRecv, idx) + 64
      modifies this`recvLater, this`pathMask, this`flow
      ensures Valid()
      ensures flow == old(flow).(recvLater := old(flow).recvLater[path := old(flow).recvLater[path] + 1],
                                 arrived := old(flow).arrived[path := old(flow).arrived[path] + {n}])
    {
      MarkPath(mask, pathMask, flow, path, idx, n);
      recvLater := recvLater[path := recvLater[path] + 1];
      pathMask := pathMask[path := OrInto(pathMask[path], idx, Shl1(n % 64))];
      flow := flow.(recvLater := recvLater, arrived := flow.arrived[path := flow.arrived[path] + {n}]);
    }

    /** Expands a 16-bit wire number and checks it; 0 means discard. */
    method ExpandWirePacketNumberAndCheck(wire: nat, path: Path) returns (r: int)
      requires Valid() && wire < WIRE_RANGE
      modifies this
      ensures Valid() && (flow, r) == Check(old(flow), wire, path)
    {
      var n := maxRecv + ToInt16(wire - maxRecv % WIRE_RANGE);
      CountReceived(path);
      if n > maxRecv { return n; }

      var block := maxRecv - maxRecv % 64;
      var idx := (n - block) / 64 + 1;
      assert idx < 2;
      if idx < 0 {
        cur := cur.(lurch := cur.lurch + 1);
        flow := flow.(cur := cur);
        return 0;
      }
      var bit := Shl1(n % 64);
      LookUp(mask, pathMask, flow, path, idx, n);
      if And(mask[idx], bit) != 0 {
        if And(pathMask[path][idx], bit) != 0 {
          cur := cur.(duplicate := cur.duplicate + 1);
          flow := flow.(cur := cur);
        } else {
          OtherPathWasFirst(n, idx, path);
        }
        return 0;
      }
      assert 0 < n < maxRecv;
      return n;
    }

    /** The same for a link that adopts the first number it sees. */
    method ExpandWirePacketNumberAndCheckMaybeInitialize(wire: nat, path: Path) returns (r: int)
      requires Valid() && wire < WIRE_RANGE
      modifies this
      ensures Valid()
      ensures (flow, r) == Check(BeforeCheck(old(flow), Packet(wire, path, true, true)), wire, path)
    {
      if maxRecv == 0 { InitMaxRecvPktNum((wire - 1) % WIRE_RANGE); }
      r := ExpandWirePacketNumberAndCheck(wire, path);
    }

    /** Moves the window to the block of n if that is ahead; returns n's word. */
    method AdvanceWindow(n: int) returns (idx: int)
      requires Valid() && Acceptable(flow, n)
      modifies this`mask, this`pathMask
      ensures var s := flow.(max := if BlockStart(n) > BlockStart(maxRecv) then n else maxRecv);
              && WordsMatch(mask, pathMask, s)
              && 0 <= idx < 2 && WordStart(s.max, idx) <= n < WordStart(s.max, idx) + 64
    {
      hide Covers, WordStart, BlockStart;
      var block := maxRecv - maxRecv % 64;
      idx := (n - block) / 64 + 1;
      WindowIndex(flow, n);
      ghost var s := flow.(max := if BlockStart(n) > BlockStart(maxRecv) then n else maxRecv);
      assert idx < 2 ==> s == flow;
      if idx >= 2 {
        SlideMatches(mask, pathMask, flow, n);
        if idx == 2 {
          mask := [mask[1], 0];
          pathMask := [[pathMask[0][1], 0], [pathMask[1][1], 0]];
        } else {
          mask := [0, 0];
          pathMask := [[0, 0], [0, 0]];
        }
        idx := 1;
      }
    }

    /** Moves the window to n if need be, and sets the bit of n. */
    method UpdateMasks(n: int, path: Path)
      requires Valid() && Acceptable(flow, n)
      modifies this`mask, this`pathMask
      ensures WordsMatch(mask, pathMask, Marked(flow, n, path))
    {
      var idx := AdvanceWindow(n);
      ghost var s := flow.(max := if BlockStart(n) > BlockStart(maxRecv) then n else maxRecv);
      var bit := Shl1(n % 64);
      MarkMain(mask, pathMask, s, idx, n);
      mask := OrInto(mask, idx, bit);
      MarkPath(mask, pathMask, s.(processed := s.processed + {n}), path, idx, n);
      pathMask := pathMask[path := OrInto(pathMask[path], idx, bit)];
    }

    /** Records a packet that passed the check. */
    method TrackProcessSequencedPacket(n: int, path: Path)
      requires Valid() && Acceptable(flow, n)
      modifies this
      ensures Valid() && flow == Process(old(flow), n, path)
    {
      UpdateMasks(n, path);
      var gap := n - maxRecv;
      if gap >= 100 {
        cur := cur.(lurch := cur.lurch + 1);
        flow := Process(flow, n, path).(max := flow.max, lastInit := flow.lastInit);
        InitMaxRecvPktNum(n);
        return;
      }
      ProcessRecords(flow, n, path);
      SameWindow(mask, pathMask, Marked(flow, n, path), Process(flow, n, path));
      flow := Process(flow, n, path);
      if gap <= 0 {
        cur := if cur.dropped > 0 then cur.(outOfOrder := cur.outOfOrder + 1, dropped := cur.dropped - 1)
               else cur.(outOfOrder := cur.outOfOrder + 1);
        return;
      }
      cur := cur.(dropped := cur.dropped + (gap - 1));
      maxRecv := n;
    }

    method StartNextInterval()
      requires Valid()
      modifies this`cur, this`acc, this`flow
      ensures Valid() && flow == Rollover(old(flow))
    {
      acc := acc.(dropped := acc.dropped + cur.dropped, outOfOrder := acc.outOfOrder + cur.outOfOrder,
                  lurch := acc.lurch + cur.lurch, duplicate := acc.duplicate + cur.duplicate);
      cur := NO_COUNTS;
      flow := Rollover(flow);
    }

    /** What the connection does with a packet that passed the check. */
    method Finish(n: int, path: Path, authentic: bool)
      requires Valid() && Acceptable(flow, n) && n > 0
      modifies this
      ensures Valid() && flow == AfterCheck(old(flow), n, path, authentic)
    {
      if authentic {
        TrackProcessSequencedPacket(n, path);
      } else {
        flow := flow.(unprocessed := flow.unprocessed + 1);
      }
    }

    /** One event of a run: the check of a packet and, if it is authentic, its
    processing; the first reset of a new connection; or an interval's end. */
    method Handle(e: Event)
      requires Valid() && (e.Packet? ==> e.wire < WIRE_RANGE)
      modifies this
      ensures Valid() && flow == Step(old(flow), e)
    {
      match e {
        case Packet(wire, path, initialize, authentic) =>
          var n;
          if initialize {
            n := ExpandWirePacketNumberAndCheckMaybeInitialize(wire, path);
          } else {
            n := ExpandWirePacketNumberAndCheck(wire, path);
          }
          AcceptedNumber(BeforeCheck(old(flow), e), wire, path);
          if n > 0 { Finish(n, path, authentic); }
        case Connect =>
          if maxRecv == 0 { InitMaxRecvPktNum(1); }
        case NextInterval =>
          StartNextInterval();
      }
    }
  }

  lemma AcceptedNumber(s: Flow, wire: int, path: Path)
    requires Shape(s)
    ensures var (c, n) := Check(s, wire, path);
            n > 0 ==> Acceptable(c, n)
  {
  }

  /** A tracker driven through any run is in the state the specification gives,
  and its words stand for that state. */
  method Drive(events: seq<Event>) returns (t: Tracker)
    requires forall e :: e in events && e.Packet? ==> e.wire < WIRE_RANGE
    ensures t.Valid() && t.flow == Run(Fresh(), events)
  {
    t := new Tracker();
    for i := 0 to |events|
      invariant fresh(t) && t.Valid() && t.flow == Run(Fresh(), events[..i])
    {
      assert events[i] in events;
      assert events[..i + 1][..i] == events[..i];
      t.Handle(events[i]);
    }
    assert events[..|events|] == events;
  }

  /** The main word is the union of the words of the two paths. */
  lemma MaskIsUnion(mask: seq<nat>, pathMask: seq<seq<nat>>, s: Flow, i: nat)
    requires FilterInv(s) && WordsMatch(mask, pathMask, s) && i < 2
    ensures mask[i] == Or(pathMask[0][i], pathMask[1][i])
  {
    var a, b := pathMask[0][i], pathMask[1][i];
    var lo := WordStart(s.max, i);
    assert Covers(a, lo, s.arrived[0], s.lastInit) && Covers(b, lo, s.arrived[1], s.lastInit);
    assert Covers(mask[i], lo, s.processed, s.lastInit);
    forall k: nat ensures Bit(mask[i], k) == Bit(Or(a, b), k) {
      OrBit(a, b, k);
      if k >= 64 {
        HighBits(mask[i], 64, k);
        HighBits(a, 64, k);
        HighBits(b, 64, k);
      }
    }
    SameBits(mask[i], Or(a, b));
  }
}
