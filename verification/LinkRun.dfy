/** A sender, a network that drops, duplicates and reorders, and a receiver.

The sender consumes consecutive numbers and puts the low 16 bits on the wire;
the receiver rebuilds the full number.  `ref` is the sender's name for the
receiver's current maximum. */
module LinkRun {
  import opened SequenceSpec

  datatype Net = Net(next: int, flow: Flow, ref: int)

  /** `Arrive(k)` delivers a copy of the packet the sender numbered k. */
  datatype Action =
    | Send
    | Arrive(k: int, path: Path, authentic: bool)
    | Interval

  datatype Arrival = Arrival(sent: int, expanded: int)

  function Start(): Net {
    Net(1, Fresh(), 0)
  }

  function Offset(s: Net): int {
    s.flow.max - s.ref
  }

  /** The sender writes `uint16( m_nNextSendSequenceNumber++ )`. */
  function Wire(k: int): nat {
    k % WIRE_RANGE
  }

  /** `initialize` is the same for the whole run: it is a property of the link. */
  function Received(k: int, path: Path, authentic: bool, initialize: bool): Event {
    Packet(Wire(k), path, initialize, authentic)
  }

  /** The sender's name for the maximum the receiver expands against. */
  function RefAt(s: Net, k: int, initialize: bool): int {
    if initialize && s.flow.max == 0 then k - 1 else s.ref
  }

  function ExpandedNumber(s: Net, k: int, initialize: bool): int
  {
    Expand(BeforeCheck(s.flow, Received(k, 0, true, initialize)).max, Wire(k))
  }

  function NetStep(s: Net, a: Action, initialize: bool): Net
    requires Shape(s.flow)
  {
    match a
    case Send => s.(next := s.next + 1)
    case Interval => s.(flow := Rollover(s.flow))
    case Arrive(k, path, authentic) =>
      Advance(s, k, initialize, Step(s.flow, Received(k, path, authentic, initialize)))
  }

  /** The net after packet k has left the receiver in state t. */
  function Advance(s: Net, k: int, initialize: bool, t: Flow): Net {
    var b := BeforeCheck(s.flow, Received(k, 0, true, initialize));
    s.(flow := t, ref := if t.max > b.max then k else RefAt(s, k, initialize))
  }

  function NetRun(s: Net, acts: seq<Action>, initialize: bool): (r: Net)
    requires Shape(s.flow)
    ensures Shape(r.flow)
    decreases |acts|
  {
    if acts == [] then s else NetRun(NetStep(s, acts[0], initialize), acts[1..], initialize)
  }

  /** Every arrival of a run with the number the receiver rebuilt for it. */
  function Arrivals(s: Net, acts: seq<Action>, initialize: bool): seq<Arrival>
    requires Shape(s.flow)
    decreases |acts|
  {
    if acts == [] then []
    else (if acts[0].Arrive? then [Arrival(acts[0].k, ExpandedNumber(s, acts[0].k, initialize))] else [])
         + Arrivals(NetStep(s, acts[0], initialize), acts[1..], initialize)
  }

  /** The network only delivers what was sent, and nothing more than a
  half-range away from the newest number the receiver holds. */
  ghost predicate Admissible(s: Net, acts: seq<Action>, initialize: bool)
    requires Shape(s.flow)
    decreases |acts|
  {
    acts == [] ||
    (&& (acts[0].Arrive? ==>
           && 1 <= acts[0].k < s.next
           && -32768 <= acts[0].k - RefAt(s, acts[0].k, initialize) <= 32767)
     && Admissible(NetStep(s, acts[0], initialize), acts[1..], initialize))
  }

  ghost predicate NetInv(s: Net) {
    Inv(s.flow) && Offset(s) % WIRE_RANGE == 0
  }

  /** Where an initializing arrival puts the offset. */
  function BlockOffset(k: int): int {
    (k - 1) % WIRE_RANGE - (k - 1)
  }

  /** The offset in force when packet k is expanded. */
  function OffsetAt(s: Net, k: int, initialize: bool): int {
    if initialize && s.flow.max == 0 then BlockOffset(k) else Offset(s)
  }

  lemma ExpandArrival(s: Net, k: int, initialize: bool)
    requires NetInv(s)
    requires -32768 <= k - RefAt(s, k, initialize) <= 32767
    ensures ExpandedNumber(s, k, initialize) == k + OffsetAt(s, k, initialize)
    ensures OffsetAt(s, k, initialize) % WIRE_RANGE == 0
  {
    hide Inv, Expand;
    var max := BeforeCheck(s.flow, Received(k, 0, true, initialize)).max;
    var offset := OffsetAt(s, k, initialize);
    BlockOffsetIsMultiple(k);
    assert max == RefAt(s, k, initialize) + offset;
    SameWire(k, offset);
    ExpandInverts(max, k + offset);
  }

  lemma BlockOffsetIsMultiple(k: int)
    ensures BlockOffset(k) % WIRE_RANGE == 0
    ensures (Wire(k) - 1) % WIRE_RANGE == (k - 1) % WIRE_RANGE
  {
    var q := (k - 1) / WIRE_RANGE;
    assert BlockOffset(k) == -q * WIRE_RANGE;
  }

  lemma SameWire(k: int, offset: int)
    requires offset % WIRE_RANGE == 0
    ensures (k + offset) % WIRE_RANGE == k % WIRE_RANGE
  {
    assert offset == offset / WIRE_RANGE * WIRE_RANGE;
  }

  lemma AdvanceOffset(s: Net, k: int, initialize: bool, t: Flow)
    requires NetInv(s)
    requires -32768 <= k - RefAt(s, k, initialize) <= 32767
    requires var b := BeforeCheck(s.flow, Received(k, 0, true, initialize));
             t.max == b.max || t.max == ExpandedNumber(s, k, initialize) > b.max
    ensures Offset(Advance(s, k, initialize, t)) == OffsetAt(s, k, initialize)
  {
    hide Inv, Expand, ExpandedNumber;
    ExpandArrival(s, k, initialize);
    BlockOffsetIsMultiple(k);
  }

  /** One arrival within range is rebuilt as k plus the offset in force. */
  lemma ArrivalStep(s: Net, k: int, path: Path, authentic: bool, initialize: bool)
    requires NetInv(s)
    requires -32768 <= k - RefAt(s, k, initialize) <= 32767
    ensures var s' := NetStep(s, Arrive(k, path, authentic), initialize);
            && NetInv(s')
            && ExpandedNumber(s, k, initialize) - k == OffsetAt(s, k, initialize) == Offset(s')
            && (s.flow.max > 0 ==> s'.flow.max > 0)
  {
    var e := Received(k, path, authentic, initialize);
    StepKeepsInv(s.flow, e);
    PacketMovesMax(s.flow, e);
    ExpandArrival(s, k, initialize);
    AdvanceOffset(s, k, initialize, Step(s.flow, e));
  }

  lemma QuietStep(s: Net, a: Action, initialize: bool)
    requires NetInv(s) && !a.Arrive?
    ensures var s' := NetStep(s, a, initialize);
            NetInv(s') && Offset(s') == Offset(s) && s'.flow.max == s.flow.max
  {
    if a == Interval { StepKeepsInv(s.flow, NextInterval); }
  }

  /** Once the receiver holds a number, or when it never adopts one, the whole
  rest of the run is rebuilt with one constant multiple of 65536. */
  lemma {:induction false} OffsetIsConstant(s: Net, acts: seq<Action>, initialize: bool)
    requires NetInv(s) && Admissible(s, acts, initialize)
    requires s.flow.max > 0 || !initialize
    ensures forall r :: r in Arrivals(s, acts, initialize) ==> r.expanded - r.sent == Offset(s)
    ensures NetInv(NetRun(s, acts, initialize)) && Offset(NetRun(s, acts, initialize)) == Offset(s)
    decreases |acts|
  {
    if acts != [] {
      match acts[0] {
        case Arrive(k, path, authentic) => ArrivalStep(s, k, path, authentic, initialize);
        case _ => QuietStep(s, acts[0], initialize);
      }
      OffsetIsConstant(NetStep(s, acts[0], initialize), acts[1..], initialize);
    }
  }

  lemma StartHolds()
    ensures NetInv(Start())
  {
    RunKeepsInv([]);
  }

  /** A link that does not adopt the first number rebuilds every number exactly. */
  lemma PlainLinkIsExact(acts: seq<Action>)
    requires Admissible(Start(), acts, false)
    ensures forall r :: r in Arrivals(Start(), acts, false) ==> r.expanded == r.sent
  {
    StartHolds();
    OffsetIsConstant(Start(), acts, false);
  }

  /** The numbers adopted by the receiver in a run: those that arrive while its
  maximum is still 0. */
  function Adopted(s: Net, acts: seq<Action>): seq<int>
    requires Shape(s.flow)
    decreases |acts|
  {
    if acts == [] then []
    else (if acts[0].Arrive? && s.flow.max == 0 then [acts[0].k] else [])
         + Adopted(NetStep(s, acts[0], true), acts[1..])
  }

  /** The differences between rebuilt and sent numbers in a run. */
  function Offsets(rs: seq<Arrival>): set<int> {
    if rs == [] then {} else {rs[0].expanded - rs[0].sent} + Offsets(rs[1..])
  }

  function BlockOffsets(ks: seq<int>): set<int> {
    if ks == [] then {} else {BlockOffset(ks[0])} + BlockOffsets(ks[1..])
  }

  lemma {:induction false} NothingAdopted(s: Net, acts: seq<Action>)
    requires NetInv(s) && Admissible(s, acts, true) && s.flow.max > 0
    ensures Adopted(s, acts) == []
    decreases |acts|
  {
    if acts != [] {
      match acts[0] {
        case Arrive(k, path, authentic) => ArrivalStep(s, k, path, authentic, true);
        case _ => QuietStep(s, acts[0], true);
      }
      NothingAdopted(NetStep(s, acts[0], true), acts[1..]);
    }
  }

  lemma {:induction false} ConstantOffsets(rs: seq<Arrival>, c: int)
    requires forall r :: r in rs ==> r.expanded - r.sent == c
    ensures Offsets(rs) <= {c}
  {
    if rs != [] { ConstantOffsets(rs[1..], c); }
  }

  /** The offsets of the rest of a run after packet k was adopted in state s. */
  lemma AfterAdoption(s: Net, k: int, acts: seq<Action>)
    requires NetInv(s) && Admissible(s, acts, true) && Offset(s) == BlockOffset(k)
    requires s.flow.max == 0 ==> Offsets(Arrivals(s, acts, true)) == BlockOffsets(Adopted(s, acts))
    ensures {BlockOffset(k)} + Offsets(Arrivals(s, acts, true)) ==
            {BlockOffset(k)} + BlockOffsets(Adopted(s, acts))
  {
    if s.flow.max > 0 {
      OffsetIsConstant(s, acts, true);
      ConstantOffsets(Arrivals(s, acts, true), Offset(s));
      NothingAdopted(s, acts);
    }
  }

  /** For a link that adopts the first number it sees, the offsets that occur in a
  run are exactly those of the blocks of the numbers it adopts. */
  lemma {:induction false} AdoptingLinkOffsets(s: Net, acts: seq<Action>)
    requires NetInv(s) && s.flow.max == 0 && Admissible(s, acts, true)
    ensures Offsets(Arrivals(s, acts, true)) == BlockOffsets(Adopted(s, acts))
    decreases |acts|
  {
    hide NetStep, ExpandedNumber, Missing, Dropped;
    if acts != [] {
      var s', rest := NetStep(s, acts[0], true), acts[1..];
      match acts[0] {
        case Arrive(k, path, authentic) =>
          ArrivalStep(s, k, path, authentic, true);
          if s'.flow.max == 0 { AdoptingLinkOffsets(s', rest); }
          AfterAdoption(s', k, rest);
          var r := Arrival(k, ExpandedNumber(s, k, true));
          assert ([r] + Arrivals(s', rest, true))[1..] == Arrivals(s', rest, true);
          assert ([k] + Adopted(s', rest))[1..] == Adopted(s', rest);
        case _ =>
          QuietStep(s, acts[0], true);
          AdoptingLinkOffsets(s', rest);
          assert [] + Arrivals(s', rest, true) == Arrivals(s', rest, true);
          assert [] + Adopted(s', rest) == Adopted(s', rest);
      }
    }
  }

  /** The numbers that will be adopted, read off the actions: the first to arrive, and
  the next only when that one has wire number 1 and is refused after the check, which
  leaves the maximum at 0. */
  function FirstArrivals(acts: seq<Action>): seq<int> {
    if acts == [] then []
    else if !acts[0].Arrive? then FirstArrivals(acts[1..])
    else [acts[0].k] + (if Wire(acts[0].k) == 1 && !acts[0].authentic then FirstArrivals(acts[1..]) else [])
  }

  /** Adopting a packet leaves the maximum at 0 only when it has wire number 1 and is
  refused. */
  lemma AdoptionMovesMax(s: Net, k: int, path: Path, authentic: bool)
    requires NetInv(s) && s.flow.max == 0
    ensures NetStep(s, Arrive(k, path, authentic), true).flow.max == 0 <==> Wire(k) == 1 && !authentic
  {
    var e := Received(k, path, authentic, true);
    var b := BeforeCheck(s.flow, e);
    BeforeCheckKeepsInv(s.flow, e);
    CheckIsSetTest(b, e.wire, path);
    assert b.max == (Wire(k) - 1) % WIRE_RANGE;
    assert (Wire(k) - 1) % WIRE_RANGE == 0 <==> Wire(k) == 1;
    PacketMovesMax(s.flow, e);
    if Wire(k) == 1 { ExpandInverts(0, 1); }
  }

  /** The receiver adopts exactly those numbers. */
  lemma {:induction false} AdoptedIsFirstArrivals(s: Net, acts: seq<Action>)
    requires NetInv(s) && s.flow.max == 0 && Admissible(s, acts, true)
    ensures Adopted(s, acts) == FirstArrivals(acts)
    decreases |acts|
  {
    if acts != [] {
      var s', rest := NetStep(s, acts[0], true), acts[1..];
      match acts[0] {
        case Arrive(k, path, authentic) =>
          ArrivalStep(s, k, path, authentic, true);
          AdoptionMovesMax(s, k, path, authentic);
          if s'.flow.max == 0 { AdoptedIsFirstArrivals(s', rest); } else { NothingAdopted(s', rest); }
        case _ =>
          QuietStep(s, acts[0], true);
          AdoptedIsFirstArrivals(s', rest);
          assert [] + Adopted(s', rest) == Adopted(s', rest);
      }
    }
  }

  ghost predicate AtMostOne(xs: set<int>) {
    forall x, y :: x in xs && y in xs ==> x == y
  }

  /** So the rebuilt numbers of a whole run differ from the sent ones by one
  constant exactly when the first arrivals lie in one block of 65536. */
  lemma AdoptingLinkIsConsistent(acts: seq<Action>)
    requires Admissible(Start(), acts, true)
    ensures AtMostOne(Offsets(Arrivals(Start(), acts, true))) <==> AtMostOne(BlockOffsets(FirstArrivals(acts)))
  {
    StartHolds();
    AdoptingLinkOffsets(Start(), acts);
    AdoptedIsFirstArrivals(Start(), acts);
  }

  function Sends(n: nat): seq<Action> {
    if n == 0 then [] else [Send] + Sends(n - 1)
  }

  lemma {:induction false} SendMany(s: Net, n: nat, rest: seq<Action>)
    requires Shape(s.flow)
    ensures Admissible(s, Sends(n) + rest, true) == Admissible(s.(next := s.next + n), rest, true)
    ensures Arrivals(s, Sends(n) + rest, true) == Arrivals(s.(next := s.next + n), rest, true)
    decreases n
  {
    if n == 0 {
      assert Sends(n) + rest == rest;
    } else {
      assert (Sends(n) + rest)[0] == Send && (Sends(n) + rest)[1..] == Sends(n - 1) + rest;
      SendMany(s.(next := s.next + 1), n - 1, rest);
    }
  }

  lemma RefusedFirstPacket(s: Net)
    requires s == Start().(next := 65538)
    ensures var s' := NetStep(s, Arrive(65537, 0, false), true);
            s'.flow.max == 0 && s'.ref == 65536 && s'.next == 65538
    ensures ExpandedNumber(s, 65537, true) == 1
  {
    assert BeforeCheck(s.flow, Received(65537, 0, false, true)) == s.flow;
  }

  lemma LateSecondPacket(s: Net)
    requires Shape(s.flow) && s.flow.max == 0 && s.next == 65538
    ensures Admissible(s, [Arrive(65536, 0, true)], true)
    ensures Arrivals(s, [Arrive(65536, 0, true)], true) == [Arrival(65536, 65536)]
  {
    assert [Arrive(65536, 0, true)][1..] == [];
  }

  lemma TwoArrivals(s: Net, acts: seq<Action>)
    requires s == Start().(next := 65538)
    requires acts == [Arrive(65537, 0, false), Arrive(65536, 0, true)]
    ensures Admissible(s, acts, true)
    ensures Arrivals(s, acts, true) == [Arrival(65537, 1), Arrival(65536, 65536)]
  {
    RefusedFirstPacket(s);
    LateSecondPacket(NetStep(s, acts[0], true));
    assert acts[1..] == [acts[1]];
  }

  /** The constant offset fails without that condition: n = 65537 packets are
  sent, the last one arrives first and is refused, and the one before it
  arrives late. */
  lemma TwoOffsetsExample(n: nat) returns (acts: seq<Action>)
    requires n == 65537
    ensures Admissible(Start(), acts, true)
    ensures Arrivals(Start(), acts, true) == [Arrival(65537, 1), Arrival(65536, 65536)]
  {
    var arrivals := [Arrive(65537, 0, false), Arrive(65536, 0, true)];
    acts := Sends(n) + arrivals;
    SendMany(Start(), n, arrivals);
    TwoArrivals(Start().(next := 65538), arrivals);
  }
}
