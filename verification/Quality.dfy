/** The quality score of an interval and the histogram of scores. */
module Quality {
  import opened SequenceSpec
  import opened PacketWindow

  datatype Bucket = B100 | B99 | B97 | B95 | B90 | B75 | B50 | B1 | Dead

  /** The bucket a score belongs to, by the lower bounds in the bucket names. */
  function BucketOf(score: nat): Bucket {
    if score >= 100 then B100
    else if score >= 99 then B99
    else if score >= 97 then B97
    else if score >= 95 then B95
    else if score >= 90 then B90
    else if score >= 75 then B75
    else if score >= 50 then B50
    else if score >= 1 then B1
    else Dead
  }

  function Weird(c: Counters): nat {
    c.outOfOrder + c.lurch + c.duplicate
  }

  /** Every packet came, once and in order. */
  predicate Perfect(c: Counters) {
    c.dropped == 0 && Weird(c) == 0
  }

  /** Share of packets that arrived as they should, in percent, rounded down. */
  function Percent(c: Counters): int
    requires c.recv > 0
  {
    (c.recv - Weird(c)) * 100 / (c.recv + c.dropped)
  }

  /** An interval with any imperfection never reaches 100 percent, and never goes
  below 0: the cap at 99 cuts nothing off. */
  lemma ImperfectIsBelow100(c: Counters)
    requires c.recv > 0 && Weird(c) <= c.recv && !Perfect(c)
    ensures 0 <= Percent(c) <= 99
  {
    var good, sent := c.recv - Weird(c), c.recv + c.dropped;
    BelowHundred(good, sent);
  }

  lemma BelowHundred(good: nat, sent: nat)
    requires good < sent
    ensures 0 <= good * 100 / sent <= 99
  {
    var q := good * 100 / sent;
    assert q * sent <= good * 100 < 100 * sent;
    TooMany(q, 100, sent);
  }

  lemma TooMany(q: int, k: int, t: int)
    requires t > 0 && q * t < k * t
    ensures q < k
  {
  }

  function CountIn(samples: seq<nat>, b: Bucket): nat {
    if samples == [] then 0
    else CountIn(samples[..|samples| - 1], b) + (if BucketOf(samples[|samples| - 1]) == b then 1 else 0)
  }

  const ALL_BUCKETS := {B100, B99, B97, B95, B90, B75, B50, B1, Dead}

  function Total(h: map<Bucket, nat>): nat
    requires h.Keys == ALL_BUCKETS
  {
    h[B100] + h[B99] + h[B97] + h[B95] + h[B90] + h[B75] + h[B50] + h[B1] + h[Dead]
  }

  ghost predicate Tallies(h: map<Bucket, nat>, samples: seq<nat>) {
    h.Keys == ALL_BUCKETS && forall b :: b in h ==> h[b] == CountIn(samples, b)
  }

  lemma OneMore(samples: seq<nat>, score: nat, b: Bucket)
    ensures CountIn(samples + [score], b) == CountIn(samples, b) + (if BucketOf(score) == b then 1 else 0)
  {
    assert (samples + [score])[..|samples|] == samples;
  }

  /** The histogram total is the number of samples ever added. */
  lemma {:induction false} TotalIsSampleCount(h: map<Bucket, nat>, samples: seq<nat>)
    requires Tallies(h, samples)
    ensures Total(h) == |samples|
  {
    if samples != [] {
      var before := samples[..|samples| - 1];
      var g := map b | b in h :: CountIn(before, b);
      TotalIsSampleCount(g, before);
    }
  }

  /** The score an interval gets, if it is worth one. */
  datatype Verdict = NoVerdict | Score(score: nat)

  /** What the interval is worth, stated without the buckets.  `elapsed` is in
  seconds. */
  function Judge(c: Counters, elapsed: real, packetsIn: int, packetsOut: int, replyTimeouts: int): Verdict {
    if elapsed <= 4.5 then NoVerdict
    else if c.recv > 5 then
      if Perfect(c) then Score(100)
      else if Percent(c) <= 1 then Score(1)
      else if Percent(c) >= 99 then Score(99)
      else Score(Percent(c))
    else if packetsIn == 0 && packetsOut > elapsed.Floor && replyTimeouts >= 2 then Score(0)
    else NoVerdict
  }

  /** The share of good packets among those sent is at least q and below q + 1 percent. */
  predicate IsPercentage(q: int, good: int, sent: int) {
    q * sent <= 100 * good < (q + 1) * sent
  }

  lemma PercentageIs(q: int, good: int, sent: int)
    requires sent > 0
    ensures IsPercentage(q, good, sent) <==> q == good * 100 / sent
  {
    var p := good * 100 / sent;
    assert p * sent <= 100 * good < p * sent + sent;
    assert (p + 1) * sent == p * sent + sent;
    if IsPercentage(q, good, sent) {
      TooMany(q, p + 1, sent);
      TooMany(p, q + 1, sent);
    }
  }

  /** Which interval gets which score: 100 if more than 5 packets came, each once and in order;
  otherwise the percentage of good packets, and 1 if that is less; 0 if nothing came although
  packets went out and replies are missing; and no score for short intervals and all others. */
  lemma ScoresAreEarned(c: Counters, elapsed: real, packetsIn: int, packetsOut: int, replyTimeouts: int, q: nat)
    requires Weird(c) <= c.recv
    ensures var v := Judge(c, elapsed, packetsIn, packetsOut, replyTimeouts);
            var good, sent := c.recv - c.outOfOrder - c.lurch - c.duplicate, c.recv + c.dropped;
            v == Score(q) <==>
              && elapsed > 4.5
              && if c.recv > 5 then
                   if good == sent then q == 100
                   else 1 <= q <= 99 && (IsPercentage(q, good, sent) || (q == 1 && 100 * good < sent))
                 else q == 0 && packetsIn == 0 && packetsOut > elapsed.Floor && replyTimeouts >= 2
  {
    if c.recv > 5 {
      var good, sent := c.recv - c.outOfOrder - c.lurch - c.duplicate, c.recv + c.dropped;
      PercentageIs(q, good, sent);
      PercentageIs(0, good, sent);
      PercentageIs(1, good, sent);
      if !Perfect(c) { ImperfectIsBelow100(c); }
    }
  }

  /** The least score that each bucket is named for. */
  function LeastScore(b: Bucket): nat {
    match b
    case B100 => 100
    case B99 => 99
    case B97 => 97
    case B95 => 95
    case B90 => 90
    case B75 => 75
    case B50 => 50
    case B1 => 1
    case Dead => 0
  }

  /** A score goes to the highest bucket whose least score it reaches. */
  lemma BucketExactly(score: nat, b: Bucket)
    ensures b == BucketOf(score) <==>
            LeastScore(b) <= score && forall o: Bucket :: LeastScore(o) <= score ==> LeastScore(o) <= LeastScore(b)
  {
    var mine := BucketOf(score);
    assert LeastScore(mine) <= score;
    forall o: Bucket | LeastScore(o) <= score ensures LeastScore(o) <= LeastScore(mine) {}
    if LeastScore(b) == LeastScore(mine) { OneBucket(b, mine); }
  }

  lemma OneBucket(a: Bucket, b: Bucket)
    requires LeastScore(a) == LeastScore(b)
    ensures a == b
  {
  }

  /** `LinkStatsTrackerBase::UpdateInterval` and the statistics it keeps. */
  class IntervalStats {
    const tracker: Tracker
    var samples: seq<nat>
    var histogram: map<Bucket, nat>
    var intervalStart: int
    var droppedPct: real
    var weirdPct: real

    ghost predicate Valid()
      reads this, tracker
    {
      tracker.Valid() && Inv(tracker.flow) && Tallies(histogram, samples)
    }

    constructor (tracker: Tracker, now: int)
      requires tracker.Valid() && Inv(tracker.flow)
      ensures Valid() && this.tracker == tracker && samples == []
    {
      this.tracker := tracker;
      samples := [];
      histogram := map b | b in ALL_BUCKETS :: 0;
      intervalStart := now;
      droppedPct, weirdPct := -1.0, -1.0;
    }

    method AddSample(score: nat, bucket: Bucket)
      requires Tallies(histogram, samples) && bucket == BucketOf(score)
      modifies this`samples, this`histogram
      ensures Tallies(histogram, samples) && samples == old(samples) + [score]
    {
      hide CountIn, BucketOf;
      forall b: Bucket ensures CountIn(samples + [score], b) == CountIn(samples, b) + (if bucket == b then 1 else 0) {
        OneMore(samples, score, b);
      }
      assert bucket in ALL_BUCKETS;
      samples := samples + [score];
      histogram := histogram[bucket := histogram[bucket] + 1];
    }

    method RecordQuality(c: Counters, elapsed: real, packetsIn: int, packetsOut: int, replyTimeouts: int)
      requires Tallies(histogram, samples) && Weird(c) <= c.recv
      modifies this`samples, this`histogram
      ensures Tallies(histogram, samples)
      ensures var v := Judge(c, elapsed, packetsIn, packetsOut, replyTimeouts);
              samples == old(samples) + (if v.Score? then [v.score] else [])
    {
      hide Tallies, CountIn;
      if elapsed > 4.5 {
        if c.recv > 5 {
          var weird := c.outOfOrder + c.lurch + c.duplicate;
          var bad := c.dropped + weird;
          if bad == 0 {
            AddSample(100, B100);
          } else {
            ImperfectIsBelow100(c);
            var totalSent := c.recv + c.dropped;
            var recvGood := c.recv - weird;
            var quality := recvGood * 100 / totalSent;
            if quality >= 99 {
              AddSample(99, B99);
            } else if quality <= 1 {
              AddSample(1, B1);
            } else if quality >= 97 {
              AddSample(quality, B97);
            } else if quality >= 95 {
              AddSample(quality, B95);
            } else if quality >= 90 {
              AddSample(quality, B90);
            } else if quality >= 75 {
              AddSample(quality, B75);
            } else if quality >= 50 {
              AddSample(quality, B50);
            } else {
              AddSample(quality, B1);
            }
          }
        } else if packetsIn == 0 && packetsOut > elapsed.Floor && replyTimeouts >= 2 {
          AddSample(0, Dead);
        }
      }
    }

    /** Ends the interval: scores it, computes the rates, starts the next one. */
    method UpdateInterval(now: int, packetsIn: int, packetsOut: int, replyTimeouts: int)
      requires Valid()
      modifies this, tracker
      ensures Valid() && intervalStart == now
      ensures tracker.flow == Step(old(tracker.flow), NextInterval)
      ensures var seconds := (now - old(intervalStart)) as real / 1000000.0;
              var v := Judge(old(tracker.cur), if seconds > 0.001 then seconds else 0.001,
                             packetsIn, packetsOut, replyTimeouts);
              samples == old(samples) + (if v.Score? then [v.score] else [])
      ensures if old(tracker.cur.recv) == 0 then droppedPct == weirdPct == -1.0
              else 0.0 <= droppedPct && 0.0 <= weirdPct && droppedPct + weirdPct <= 1.0
      ensures old(tracker.cur.recv) > 0 ==>
                var c := old(tracker.cur);
                IsShare(droppedPct, c.dropped, c.recv + c.dropped) && IsShare(weirdPct, Weird(c), c.recv + c.dropped)
    {
      hide IsShare, Judge, Inv, FilterInv, WordsMatch, Tallies;
      WeirdIsBounded(tracker.flow);
      var c := tracker.cur;
      var elapsed := (now - intervalStart) as real / 1000000.0;
      elapsed := if elapsed > 0.001 then elapsed else 0.001;
      RecordQuality(c, elapsed, packetsIn, packetsOut, replyTimeouts);
      var weird := c.outOfOrder + c.lurch + c.duplicate;
      assert weird <= c.recv;
      if c.recv <= 0 {
        droppedPct, weirdPct := -1.0, -1.0;
      } else {
        droppedPct, weirdPct := Shares(c.dropped, weird, c.recv + c.dropped);
      }
      StepKeepsInv(tracker.flow, NextInterval);
      tracker.StartNextInterval();
      intervalStart := now;
    }
  }

  lemma WeirdIsBounded(s: Flow)
    requires Inv(s)
    ensures Weird(s.cur) <= s.cur.recv
  {
  }

  /** q is the part of the total as a fraction. */
  predicate IsShare(q: real, part: nat, total: nat) {
    q * total as real == part as real
  }

  method Shares(dropped: nat, weird: nat, total: nat) returns (d: real, w: real)
    requires total > 0 && dropped + weird <= total
    ensures IsShare(d, dropped, total) && IsShare(w, weird, total)
    ensures 0.0 <= d && 0.0 <= w && d + w <= 1.0
  {
    d, w := dropped as real / total as real, weird as real / total as real;
    IsQuotient(dropped, total);
    IsQuotient(weird, total);
    IsQuotient(dropped + weird, total);
    SumOfQuotients(d, w, (dropped + weird) as real / total as real, total as real);
  }

  lemma IsQuotient(x: nat, t: nat)
    requires 0 < t && x <= t
    ensures var q := x as real / t as real; q * t as real == x as real && 0.0 <= q <= 1.0
  {
    var q := x as real / t as real;
    assert q * t as real == x as real;
    AtMostOne(q, t as real);
  }

  lemma AtMostOne(q: real, t: real)
    requires t > 0.0 && 0.0 <= q * t <= t
    ensures 0.0 <= q <= 1.0
  {
  }

  /** Numbers with the same multiple are the same. */
  lemma SumOfQuotients(d: real, w: real, q: real, t: real)
    requires t > 0.0 && d * t + w * t == q * t
    ensures d + w == q
  {
    assert (d + w) * t == q * t;
  }
}
