/** Ping samples: the smoothed value, and a ring of time buckets that remembers the range of
the recent pings. */
module PingBuckets {
  const INT_MAX: int := 0x7FFF_FFFF
  const INT_MIN: int := -0x8000_0000
  const MIN_SAMPLE_SPACING: int := 100000

  /** No ping override; -1 stands for a ping that fails. */
  const NO_OVERRIDE: int := -2

  datatype Sample = Sample(ping: int, time: int)

  function Min(a: int, b: int): int {
    if a < b then a else b
  }

  function Max(a: int, b: int): int {
    if a > b then a else b
  }

  // ---------------------------------------------------------------- smoothing

  /** The smoothed value of up to three samples, the newest first. */
  function Smooth(p: seq<Sample>, valid: nat): int
    requires |p| == 3
  {
    if valid == 0 then -1
    else if valid == 1 then p[0].ping
    else if valid == 2 then Min(p[0].ping, p[1].ping)
    else (p[0].ping + p[1].ping + p[2].ping - Max(Max(p[0].ping, p[1].ping), p[2].ping)) / 2
  }

  /** With three samples one spike is ignored: the smoothed value is the mean of the two best,
  rounded down. */
  lemma SmoothIgnoresSpikes(p: seq<Sample>, i: nat, j: nat, k: nat)
    requires |p| == 3 && i < 3 && j < 3 && k < 3 && i != j && j != k && i != k
    requires p[i].ping <= p[j].ping <= p[k].ping
    ensures p[i].ping <= Smooth(p, 3) <= p[j].ping
    ensures 2 * Smooth(p, 3) <= p[i].ping + p[j].ping <= 2 * Smooth(p, 3) + 1
  {
    assert p[0].ping + p[1].ping + p[2].ping == p[i].ping + p[j].ping + p[k].ping;
    assert Max(Max(p[0].ping, p[1].ping), p[2].ping) == p[k].ping;
  }

  /** With fewer, it is the best of the newest ones, and -1 without any. */
  lemma SmoothOfFew(p: seq<Sample>, valid: nat)
    requires |p| == 3 && valid <= 2
    ensures valid == 0 ==> Smooth(p, valid) == -1
    ensures forall i :: 0 <= i < valid ==> Smooth(p, valid) <= p[i].ping
    ensures valid > 0 ==> exists i :: 0 <= i < valid && Smooth(p, valid) == p[i].ping
  {
    if valid > 0 {
      assert Smooth(p, valid) == p[if valid == 2 && p[1].ping < p[0].ping then 1 else 0].ping;
    }
  }

  lemma SmoothIsPing(p: seq<Sample>, valid: nat)
    requires |p| == 3 && 0 < valid <= 3 && forall i :: 0 <= i < valid ==> 0 <= p[i].ping
    ensures 0 <= Smooth(p, valid)
  {
  }

  // ---------------------------------------------------------------- the ring

  datatype Bucket = Bucket(end: int, count: nat, min: int, max: int)

  const EMPTY := Bucket(0, 0, INT_MAX, INT_MIN)

  /** Number and width of the buckets. */
  datatype Shape = Shape(n: nat, width: int) {
    predicate Valid() {
      n > 0 && width > 0
    }

    /** How far back a range looks. */
    function Span(): int {
      (n - 1) * width
    }
  }

  /** The ring, with the samples each bucket stands for, all samples and the time of the last. */
  datatype Ring = Ring(buckets: seq<Bucket>, current: nat, contents: seq<seq<Sample>>, all: seq<Sample>, last: int)

  /** How many buckets ago bucket s was the current one. */
  function Age(shape: Shape, current: nat, s: nat): int {
    if s <= current then current - s else current + shape.n - s
  }

  /** A bucket knows the number and the exact range of its samples, and covers their times. */
  ghost predicate Holds(b: Bucket, c: seq<Sample>, width: int) {
    && |c| == b.count
    && (c == [] ==> b == EMPTY)
    && (c != [] ==> b.end > 0)
    && (forall x :: x in c ==> b.end - width <= x.time < b.end && b.min <= x.ping <= b.max)
    && (c != [] ==> 0 <= b.min && (exists x :: x in c && x.ping == b.min) && (exists x :: x in c && x.ping == b.max))
  }

  /** Each bucket ends at least a width after the one before it. */
  ghost predicate Spaced(shape: Shape, r: Ring, s: nat)
    requires s < |r.buckets| && r.current < |r.buckets|
  {
    r.buckets[s].count > 0 ==> r.buckets[s].end + Age(shape, r.current, s) * shape.width <= r.buckets[r.current].end
  }

  ghost predicate Kept(r: Ring, x: Sample) {
    exists s :: 0 <= s < |r.contents| && x in r.contents[s]
  }

  /** Buckets stand for samples that were received, in time. */
  ghost predicate Received(r: Ring) {
    && (forall s :: 0 <= s < |r.contents| ==> forall x :: x in r.contents[s] ==> x in r.all)
    && (forall x :: x in r.all ==> x.time <= r.last)
  }

  /** Every sample is in a bucket or older than the span. */
  ghost predicate Remembered(shape: Shape, r: Ring) {
    forall x :: x in r.all ==> Kept(r, x) || x.time < r.last - shape.Span()
  }

  predicate Fits(shape: Shape, r: Ring) {
    shape.Valid() && |r.buckets| == shape.n && |r.contents| == shape.n && r.current < shape.n
  }

  ghost predicate Inv(shape: Shape, r: Ring) {
    && Fits(shape, r) && r.last >= 0
    && (forall s :: 0 <= s < shape.n ==> Holds(r.buckets[s], r.contents[s], shape.width))
    && (forall s :: 0 <= s < shape.n ==> Spaced(shape, r, s))
    && Received(r) && Remembered(shape, r)
  }

  function Extended(b: Bucket, ping: int): Bucket {
    Bucket(b.end, b.count + 1, Min(b.min, ping), Max(b.max, ping))
  }

  /** The end of the bucket that a sample starts after one that ended at `end`. */
  function NewEnd(width: int, end: int, now: int): int {
    if end + width / 2 >= now then end + width else now + width
  }

  function Following(shape: Shape, current: nat): nat {
    if current + 1 >= shape.n then 0 else current + 1
  }

  ghost function Placed(shape: Shape, r: Ring, s: nat, b: Bucket, c: seq<Sample>, x: Sample): Ring
    requires s < |r.buckets| && s < |r.contents|
  {
    Ring(r.buckets[s := b], s, r.contents[s := c], r.all + [x], x.time)
  }

  /** The ring after a sample. */
  ghost function Put(shape: Shape, r: Ring, x: Sample): (r': Ring)
    requires Fits(shape, r)
    ensures Fits(shape, r') && r'.all == r.all + [x] && r'.last == x.time
  {
    var b := r.buckets[r.current];
    if b.end > x.time then
      Placed(shape, r, r.current, Extended(b, x.ping), r.contents[r.current] + [x], x)
    else
      var end := NewEnd(shape.width, b.end, x.time);
      Placed(shape, r, Following(shape, r.current), Bucket(end, 1, x.ping, x.ping), [x], x)
  }

  // ---------------------------------------------------------------- what a sample keeps

  lemma ExtendedHolds(b: Bucket, c: seq<Sample>, x: Sample, width: int)
    requires Holds(b, c, width) && c != [] && 0 <= x.ping && b.end - width <= x.time < b.end
    ensures Holds(Extended(b, x.ping), c + [x], width)
  {
    var b', c' := Extended(b, x.ping), c + [x];
    var lo :| lo in c && lo.ping == b.min;
    var hi :| hi in c && hi.ping == b.max;
    assert x in c' && lo in c' && hi in c';
    assert (if b.min < x.ping then lo else x).ping == b'.min;
    assert (if b.max > x.ping then hi else x).ping == b'.max;
  }

  lemma NewHolds(end: int, x: Sample, width: int)
    requires 0 <= x.ping && end - width <= x.time < end && 0 < end
    ensures Holds(Bucket(end, 1, x.ping, x.ping), [x], width)
  {
    assert x in [x];
  }

  /** A new bucket covers its sample, and ends at least a width after the last. */
  lemma NewEndIsApart(width: int, end: int, now: int)
    requires width > 0 && end <= now
    ensures var e := NewEnd(width, end, now);
            && e - width <= now < e && e >= end + width
            && e == if 2 * (now - end) <= width then end + width else now + width
  {
  }

  lemma OneOlder(j: int, width: int)
    ensures (j + 1) * width == j * width + width
  {
  }

  /** The bucket that is overwritten ended at least a span ago. */
  lemma OverwrittenIsOld(shape: Shape, r: Ring, now: int)
    requires Inv(shape, r) && r.buckets[r.current].end <= now
    ensures var s := Following(shape, r.current);
            r.buckets[s].count > 0 ==> r.buckets[s].end <= now - shape.Span()
  {
    hide Received, Remembered, Holds;
    var s := Following(shape, r.current);
    assert Spaced(shape, r, s);
    assert Age(shape, r.current, s) == shape.n - 1;
  }

  lemma NextIsSpaced(shape: Shape, r: Ring, r': Ring)
    requires Inv(shape, r) && |r'.buckets| == shape.n && r'.current == Following(shape, r.current)
    requires forall s :: 0 <= s < shape.n && s != r'.current ==> r'.buckets[s] == r.buckets[s]
    requires r'.buckets[r'.current].end >= r.buckets[r.current].end + shape.width
    ensures forall s :: 0 <= s < shape.n ==> Spaced(shape, r', s)
  {
    hide Received, Remembered, Holds;
    forall s | 0 <= s < shape.n ensures Spaced(shape, r', s) {
      if s == r'.current {
        assert Age(shape, r'.current, s) == 0;
      } else {
        assert Spaced(shape, r, s);
        assert Age(shape, r'.current, s) == Age(shape, r.current, s) + 1;
        OneOlder(Age(shape, r.current, s), shape.width);
      }
    }
  }

  /** Samples that were kept still are, but for those of the bucket that was overwritten. */
  lemma StillRemembered(shape: Shape, r: Ring, x: Sample)
    requires Inv(shape, r) && r.last <= x.time
    ensures Remembered(shape, Put(shape, r, x))
  {
    hide Received, Spaced;
    var r' := Put(shape, r, x);
    var b := r.buckets[r.current];
    forall y | y in r'.all ensures Kept(r', y) || y.time < r'.last - shape.Span() {
      if y == x {
        assert x in r'.contents[r'.current];
      } else if Kept(r, y) {
        var s :| 0 <= s < |r.contents| && y in r.contents[s];
        if b.end > x.time || s != r'.current {
          assert y in r'.contents[s];
        } else {
          assert Holds(r.buckets[s], r.contents[s], shape.width);
          OverwrittenIsOld(shape, r, x.time);
        }
      }
    }
  }

  lemma StillReceived(shape: Shape, r: Ring, x: Sample)
    requires Inv(shape, r) && r.last <= x.time
    ensures Received(Put(shape, r, x))
  {
    hide Remembered, Spaced, Holds;
  }

  lemma PutInCurrent(shape: Shape, r: Ring, x: Sample)
    requires Inv(shape, r) && r.last <= x.time && 0 <= x.ping && r.buckets[r.current].end > x.time
    ensures Inv(shape, Put(shape, r, x))
  {
    hide Remembered, Received;
    var r' := Put(shape, r, x);
    var b, c := r.buckets[r.current], r.contents[r.current];
    assert Holds(b, c, shape.width);
    FirstIsPast(shape, r);
    ExtendedHolds(b, c, x, shape.width);
    forall s | 0 <= s < shape.n ensures Spaced(shape, r', s) {
      assert Spaced(shape, r, s);
    }
    StillRemembered(shape, r, x);
    StillReceived(shape, r, x);
  }

  /** A bucket that is not over was started by a sample. */
  lemma FirstIsPast(shape: Shape, r: Ring)
    requires Inv(shape, r) && r.buckets[r.current].end > 0
    ensures r.contents[r.current] != [] && r.buckets[r.current].end - shape.width <= r.last
  {
    hide Remembered, Spaced;
    var c := r.contents[r.current];
    assert Holds(r.buckets[r.current], c, shape.width);
    assert c[0] in c;
  }

  lemma PutInNext(shape: Shape, r: Ring, x: Sample)
    requires Inv(shape, r) && r.last <= x.time && 0 <= x.ping && r.buckets[r.current].end <= x.time
    ensures Inv(shape, Put(shape, r, x))
  {
    hide Remembered, Received, Spaced;
    var r' := Put(shape, r, x);
    var b := r.buckets[r.current];
    NewEndIsApart(shape.width, b.end, x.time);
    NewHolds(NewEnd(shape.width, b.end, x.time), x, shape.width);
    NextIsSpaced(shape, r, r');
    StillRemembered(shape, r, x);
    StillReceived(shape, r, x);
  }

  lemma PutKeepsInv(shape: Shape, r: Ring, x: Sample)
    requires Inv(shape, r) && r.last <= x.time && 0 <= x.ping
    ensures Inv(shape, Put(shape, r, x))
  {
    if r.buckets[r.current].end > x.time {
      PutInCurrent(shape, r, x);
    } else {
      PutInNext(shape, r, x);
    }
  }

  /** Samples as they come in: no negative pings, and a clock that does not go back. */
  predicate InOrder(xs: seq<Sample>) {
    && (forall i :: 0 <= i < |xs| ==> 0 <= xs[i].ping && 0 <= xs[i].time)
    && forall i, j :: 0 <= i <= j < |xs| ==> xs[i].time <= xs[j].time
  }

  function Fresh(shape: Shape): Ring {
    Ring(seq(shape.n, _ => EMPTY), 0, seq(shape.n, _ => []), [], 0)
  }

  /** The ring after a whole run. */
  ghost function After(shape: Shape, xs: seq<Sample>): (r: Ring)
    requires shape.Valid()
    ensures Fits(shape, r)
  {
    if xs == [] then Fresh(shape) else Put(shape, After(shape, xs[..|xs| - 1]), xs[|xs| - 1])
  }

  lemma {:induction false} RunKeepsInv(shape: Shape, xs: seq<Sample>)
    requires shape.Valid() && InOrder(xs)
    ensures var r := After(shape, xs);
            Inv(shape, r) && r.all == xs && r.last == (if xs == [] then 0 else xs[|xs| - 1].time)
    decreases |xs|
  {
    hide Inv, InOrder, Put, Fresh;
    if xs == [] {
      FreshHolds(shape);
    } else {
      var before, x := xs[..|xs| - 1], xs[|xs| - 1];
      InOrderBefore(xs);
      RunKeepsInv(shape, before);
      PutKeepsInv(shape, After(shape, before), x);
      assert before + [x] == xs;
    }
  }

  lemma InOrderBefore(xs: seq<Sample>)
    requires InOrder(xs) && xs != []
    ensures var before, x := xs[..|xs| - 1], xs[|xs| - 1];
            InOrder(before) && 0 <= x.ping && 0 <= x.time && (before != [] ==> before[|before| - 1].time <= x.time)
  {
  }

  lemma FreshHolds(shape: Shape)
    requires shape.Valid()
    ensures Inv(shape, Fresh(shape)) && Fresh(shape).all == [] && Fresh(shape).last == 0
  {
  }

  // ---------------------------------------------------------------- ranges

  predicate Recent(b: Bucket, threshold: int) {
    b.end >= threshold
  }

  /** lo and hi are the extremes of the start value and the recent buckets. */
  ghost predicate IsRange(buckets: seq<Bucket>, threshold: int, start: int, lo: int, hi: int) {
    && lo <= start <= hi
    && (forall b :: b in buckets && Recent(b, threshold) ==> lo <= b.min && b.max <= hi)
    && (lo == start || exists b :: b in buckets && Recent(b, threshold) && b.min == lo)
    && (hi == start || exists b :: b in buckets && Recent(b, threshold) && b.max == hi)
  }

  function CountRecent(buckets: seq<Bucket>, threshold: int): nat {
    if buckets == [] then 0
    else CountRecent(buckets[..|buckets| - 1], threshold) + if Recent(buckets[|buckets| - 1], threshold) then 1 else 0
  }

  /** The number of places that hold a recent bucket. */
  lemma {:induction false} CountIsNumber(buckets: seq<Bucket>, threshold: int)
    ensures CountRecent(buckets, threshold) == |set i | 0 <= i < |buckets| && buckets[i].end >= threshold|
  {
    var all := set i | 0 <= i < |buckets| && buckets[i].end >= threshold;
    if buckets == [] {
      assert all == {};
    } else {
      var before := buckets[..|buckets| - 1];
      CountIsNumber(before, threshold);
      var some := set i | 0 <= i < |before| && before[i].end >= threshold;
      var last := |buckets| - 1;
      assert all == if buckets[last].end >= threshold then some + {last} else some;
    }
  }

  /** The range at any time from the last sample on covers every sample that is no older
  than the span. */
  lemma RangeCovers(shape: Shape, r: Ring, now: int, start: int, lo: int, hi: int, x: Sample)
    requires Inv(shape, r) && r.last <= now && IsRange(r.buckets, now - shape.Span(), start, lo, hi)
    requires x in r.all && x.time >= now - shape.Span()
    ensures lo <= x.ping <= hi
  {
    hide Received, Spaced;
    assert Kept(r, x);
    var s :| 0 <= s < |r.contents| && x in r.contents[s];
    assert Holds(r.buckets[s], r.contents[s], shape.width);
    assert r.buckets[s] in r.buckets;
  }

  /** In every run, whatever the start value is. */
  lemma RunIsCovered(shape: Shape, xs: seq<Sample>, now: int, start: int, lo: int, hi: int, i: nat)
    requires shape.Valid() && InOrder(xs) && i < |xs| && xs[|xs| - 1].time <= now
    requires IsRange(After(shape, xs).buckets, now - shape.Span(), start, lo, hi)
    requires xs[i].time >= now - shape.Span()
    ensures lo <= xs[i].ping <= hi
  {
    hide Inv, IsRange;
    RunKeepsInv(shape, xs);
    RangeCovers(shape, After(shape, xs), now, start, lo, hi, xs[i]);
  }

  /** Its ends are the start value or samples no older than a width more than the span,
  provided buckets that were never used are out of sight. */
  lemma RangeIsRecent(shape: Shape, r: Ring, now: int, start: int, lo: int, hi: int)
    requires Inv(shape, r) && r.last <= now && IsRange(r.buckets, now - shape.Span(), start, lo, hi)
    requires now > shape.Span()
    ensures lo == start || exists x :: x in r.all && x.time >= now - shape.n * shape.width && x.ping == lo
    ensures hi == start || exists x :: x in r.all && x.time >= now - shape.n * shape.width && x.ping == hi
  {
    hide Inv;
    if lo != start {
      var b :| b in r.buckets && Recent(b, now - shape.Span()) && b.min == lo;
      var x, _ := ExtremesReceived(shape, r, now, b);
    }
    if hi != start {
      var b :| b in r.buckets && Recent(b, now - shape.Span()) && b.max == hi;
      var _, x := ExtremesReceived(shape, r, now, b);
    }
  }

  lemma ExtremesReceived(shape: Shape, r: Ring, now: int, b: Bucket) returns (x: Sample, y: Sample)
    requires Inv(shape, r) && now > shape.Span() && b in r.buckets && Recent(b, now - shape.Span())
    ensures x in r.all && x.time >= now - shape.n * shape.width && x.ping == b.min
    ensures y in r.all && y.time >= now - shape.n * shape.width && y.ping == b.max
  {
    hide Remembered, Spaced;
    OneOlder(shape.n - 1, shape.width);
    var s :| 0 <= s < shape.n && r.buckets[s] == b;
    var c := r.contents[s];
    assert Holds(b, c, shape.width);
    x :| x in c && x.ping == b.min;
    y :| y in c && y.ping == b.max;
  }

  /** What the range query asserts of a recent bucket. */
  predicate Sound(b: Bucket) {
    b.count > 0 && 0 <= b.min <= b.max
  }

  /** Those assertions hold exactly when the threshold is past zero or every bucket has
  been used. */
  lemma AssertionsHold(shape: Shape, r: Ring, threshold: int)
    requires Inv(shape, r)
    ensures (forall b :: b in r.buckets && Recent(b, threshold) ==> Sound(b)) <==>
            (threshold > 0 || forall b :: b in r.buckets ==> b.count > 0)
  {
    hide Received, Remembered, Spaced;
    forall s | 0 <= s < shape.n ensures r.buckets[s].count > 0 ==> Sound(r.buckets[s]) {
      var b, c := r.buckets[s], r.contents[s];
      assert Holds(b, c, shape.width);
      if c != [] { assert c[0] in c; }
    }
    forall s | 0 <= s < shape.n ensures r.buckets[s].count == 0 ==> r.buckets[s] == EMPTY {
      assert Holds(r.buckets[s], r.contents[s], shape.width);
    }
  }

  // ---------------------------------------------------------------- the tracker

  class PingTracker {
    const shape: Shape
    var pings: seq<Sample>
    var valid: nat
    var smoothed: int
    var allowNewSample: int
    var buckets: seq<Bucket>
    var current: nat
    var total: nat
    var pingOverride: int
    ghost var ring: Ring

    /** A ping override has been in effect. */
    ghost var touched: bool

    ghost predicate Valid()
      reads this
    {
      && |pings| == 3 && valid <= 3 && (valid > 0 ==> smoothed == Smooth(pings, valid))
      && (forall i :: 0 <= i < valid ==> 0 <= pings[i].ping)
      && Fits(shape, ring) && ring.buckets == buckets && ring.current == current && total == |ring.all|
      && (!touched ==> Inv(shape, ring) && pingOverride <= NO_OVERRIDE)
      && (!touched && valid == 0 ==> total == 0 && smoothed == -1)
    }

    constructor (shape: Shape)
      requires shape.Valid()
      ensures Valid() && this.shape == shape && ring == Fresh(shape) && !touched
    {
      this.shape := shape;
      pings, valid, smoothed, allowNewSample := seq(3, _ => Sample(0, 0)), 0, -1, 0;
      buckets, current, total := seq(shape.n, _ => EMPTY), 0, 0;
      pingOverride := NO_OVERRIDE;
      ring, touched := Fresh(shape), false;
      new;
      FreshHolds(shape);
    }

    /** `PingTracker::ReceivedPing` */
    method ReceivedSample(ping: int, now: int)
      requires Valid() && 0 <= ping
      modifies `pings, `valid, `smoothed, `allowNewSample
      ensures |pings| == 3 && valid == Min(old(valid) + 1, 3) && smoothed == Smooth(pings, valid)
      ensures forall i :: 0 <= i < valid ==> 0 <= pings[i].ping
      ensures var merged := now < old(allowNewSample) && old(valid) == 3;
              var older := if merged then old(pings[1..]) else old(pings[..2]);
              pings == [Sample(if merged then Min(ping, old(pings[0].ping)) else ping, now)] + older
      ensures allowNewSample == if old(valid) < 2 then 0
                                else if now < old(allowNewSample) && old(valid) == 3 then old(allowNewSample)
                                else now + 100000
    {
      if now < allowNewSample && valid >= 3 {
        if ping >= pings[0].ping {
          pings := pings[0 := pings[0].(time := now)];
          return;
        }
      } else {
        pings := pings[2 := pings[1]];
        pings := pings[1 := pings[0]];
        allowNewSample := now + MIN_SAMPLE_SPACING;
      }
      pings := pings[0 := Sample(ping, now)];
      if valid == 0 {
        valid := 1;
        smoothed := ping;
        allowNewSample := 0;
      } else if valid == 1 {
        valid := 2;
        smoothed := Min(pings[0].ping, pings[1].ping);
        allowNewSample := 0;
      } else {
        valid := 3;
        var max := Max(Max(pings[0].ping, pings[1].ping), pings[2].ping);
        smoothed := (pings[0].ping + pings[1].ping + pings[2].ping - max) / 2;
      }
    }

    /** `PingTrackerBuckets::ReceivedPing`: with an override in effect its value counts as
    received, or nothing does. */
    method ReceivedPing(ping: int, now: int)
      requires Valid() && 0 <= ping && ring.last <= now
      modifies this
      ensures Valid() && touched == old(touched) && pingOverride == old(pingOverride)
      ensures pingOverride == -1 ==> unchanged(this)
      ensures pingOverride != -1 ==>
                var x := Sample(if pingOverride > NO_OVERRIDE then pingOverride else ping, now);
                ring == Put(shape, old(ring), x) && smoothed == Smooth(pings, valid) >= 0
    {
      hide Inv, Smooth, Put;
      var value := ping;
      if pingOverride > NO_OVERRIDE {
        if pingOverride == -1 { return; }
        value := pingOverride;
      }
      if !touched { PutKeepsInv(shape, ring, Sample(value, now)); }
      ReceivedSample(value, now);
      SmoothIsPing(pings, valid);
      total := total + 1;
      PutSample(value, now);
    }

    /** Puts a sample into the current bucket, or starts the next one with it. */
    method PutSample(ping: int, now: int)
      requires Fits(shape, ring) && ring.buckets == buckets && ring.current == current
      modifies `buckets, `current, `ring
      ensures ring == Put(shape, old(ring), Sample(ping, now)) && ring.buckets == buckets && ring.current == current
    {
      var end := buckets[current].end;
      if end > now {
        var b := buckets[current];
        buckets := buckets[current := Bucket(b.end, b.count + 1, Min(b.min, ping), Max(b.max, ping))];
      } else {
        current := current + 1;
        if current >= shape.n { current := 0; }
        var newEnd := if end + shape.width / 2 >= now then end + shape.width else now + shape.width;
        buckets := buckets[current := Bucket(newEnd, 1, ping, ping)];
      }
      ring := Put(shape, ring, Sample(ping, now));
    }

    /** `SetPingOverride`: a value replaces the smoothed ping, the samples kept and the range
    of the current bucket. */
    method SetPingOverride(ping: int)
      requires Valid()
      modifies this
      ensures Valid() && pingOverride == ping && total == old(total) && current == old(current)
      ensures touched == (old(touched) || ping > NO_OVERRIDE)
      ensures ping <= NO_OVERRIDE ==> pings == old(pings) && valid == old(valid) && smoothed == old(smoothed)
                                      && buckets == old(buckets)
      ensures ping == -1 ==> valid == 0 && smoothed == -1 && buckets == old(buckets)
      ensures ping >= 0 ==> smoothed == ping && valid == old(valid)
                            && buckets == old(buckets)[current := old(buckets)[current].(min := ping, max := ping)]
                            && forall i :: 0 <= i < valid ==> pings[i] == Sample(ping, old(pings)[i].time)
    {
      pingOverride := ping;
      if ping <= NO_OVERRIDE { return; }
      touched := true;
      if ping < 0 {
        valid := 0;
        smoothed := -1;
        return;
      }
      smoothed := ping;
      for i := 0 to valid
        invariant |pings| == 3 && valid == old(valid)
        invariant forall j :: 0 <= j < i ==> pings[j] == Sample(ping, old(pings)[j].time)
        invariant forall j :: i <= j < 3 ==> pings[j] == old(pings)[j]
        modifies `pings
      {
        pings := pings[i := pings[i].(ping := ping)];
      }
      var b := buckets[current];
      buckets := buckets[current := Bucket(b.end, b.count, ping, ping)];
      ring := ring.(buckets := buckets);
    }

    /** `GetPingRangeFromRecentBuckets` */
    method GetPingRange(now: int) returns (validBuckets: nat, min: int, max: int)
      ensures smoothed < 0 ==> validBuckets == 0 && min == max == smoothed
      ensures smoothed >= 0 ==> validBuckets == CountRecent(buckets, now - shape.Span())
      ensures smoothed >= 0 ==> IsRange(buckets, now - shape.Span(), smoothed, min, max)
      ensures Valid() && !touched && ring.last <= now ==>
                forall x :: x in ring.all && x.time >= now - shape.Span() ==> min <= x.ping <= max
    {
      hide Inv, Smooth, Fits;
      min, max, validBuckets := smoothed, smoothed, 0;
      if smoothed >= 0 {
        var threshold := now - (shape.n - 1) * shape.width;
        var i := 0;
        while i < |buckets|
          invariant 0 <= i <= |buckets|
          invariant validBuckets == CountRecent(buckets[..i], threshold)
          invariant IsRange(buckets[..i], threshold, smoothed, min, max)
        {
          hide IsRange, CountRecent;
          RangeStep(buckets, i, threshold, smoothed, min, max);
          CountStep(buckets, i, threshold);
          if buckets[i].end >= threshold {
            validBuckets := validBuckets + 1;
            min := Min(min, buckets[i].min);
            max := Max(max, buckets[i].max);
          }
          i := i + 1;
        }
        assert buckets[..i] == buckets;
      }
      if Valid() && !touched && ring.last <= now { RangeIsCovering(now, min, max); }
    }

    /** The range that was found covers the pings received. */
    lemma RangeIsCovering(now: int, min: int, max: int)
      requires Valid() && !touched && ring.last <= now
      requires smoothed >= 0 ==> IsRange(buckets, now - shape.Span(), smoothed, min, max)
      ensures forall x :: x in ring.all && x.time >= now - shape.Span() ==> min <= x.ping <= max
    {
      hide Inv, IsRange;
      if valid > 0 { SmoothIsPing(pings, valid); }
      forall x | x in ring.all && x.time >= now - shape.Span() ensures min <= x.ping <= max {
        RangeCovers(shape, ring, now, smoothed, min, max, x);
      }
    }
  }

  lemma CountStep(buckets: seq<Bucket>, i: nat, threshold: int)
    requires i < |buckets|
    ensures CountRecent(buckets[..i + 1], threshold) ==
            CountRecent(buckets[..i], threshold) + if Recent(buckets[i], threshold) then 1 else 0
  {
    assert buckets[..i + 1][..i] == buckets[..i];
  }

  lemma RangeStep(buckets: seq<Bucket>, i: nat, threshold: int, start: int, lo: int, hi: int)
    requires i < |buckets| && IsRange(buckets[..i], threshold, start, lo, hi)
    ensures var b := buckets[i];
            if Recent(b, threshold) then IsRange(buckets[..i + 1], threshold, start, Min(lo, b.min), Max(hi, b.max))
            else IsRange(buckets[..i + 1], threshold, start, lo, hi)
  {
    var b, s, s' := buckets[i], buckets[..i], buckets[..i + 1];
    assert s' == s + [b] && b in s';
    assert forall c :: c in s' <==> c in s || c == b;
  }
}
