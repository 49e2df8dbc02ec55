/** When a link has something to send, and when it should be asked again. */
module LinkThink {
  import ThinkerQueue

  const NEVER: int := ThinkerQueue.NEVER
  const ASAP: int := 1

  const AGGRESSIVE_PING_INTERVAL: int := 200_000
  const KEEPALIVE_ACTIVE: int := 10_000_000
  const KEEPALIVE_IDLE: int := 60_000_000
  const INSTANTANEOUS_INTERVAL: int := 20_000_000
  const INSTANTANEOUS_MAX_INTERVAL: int := 30_000_000
  const LIFETIME_MAX_INTERVAL: int := 140_000_000
  const ACTIVE_SEND_INTERVAL: int := 3_000_000

  datatype Activity = Active | Idle | Disconnected

  datatype Reason = NothingToSend | UrgentPing | KeepAlive | Stats(instantaneous: bool, lifetime: bool)

  /** The packets seen and sent when the peer last acknowledged stats, and when that was. */
  datatype Ack = Ack(time: int, received: int, sent: int)

  datatype Link = Link(activity: Activity, replyTimeout: int, timeouts: nat, lastUrgent: int, lastRecv: int,
                       inFlight: int, instantaneous: Ack, lifetime: Ack, received: int, sent: int)

  // ---------------------------------------------------------------- deadlines

  function UrgentAt(l: Link): int {
    l.lastUrgent + AGGRESSIVE_PING_INTERVAL
  }

  function KeepAliveAt(l: Link): int {
    l.lastRecv + if l.activity.Active? then KEEPALIVE_ACTIVE else KEEPALIVE_IDLE
  }

  function InstantaneousAt(l: Link): int {
    l.instantaneous.time + INSTANTANEOUS_MAX_INTERVAL
  }

  function LifetimeAt(l: Link): int {
    l.lifetime.time + LIFETIME_MAX_INTERVAL
  }

  /** Replies have timed out, so that an active link pings aggressively. */
  predicate WatchesUrgent(l: Link) {
    l.timeouts > 0 && l.activity.Active?
  }

  /** No reply is awaited, so that the link must be kept alive. */
  predicate WatchesKeepAlive(l: Link) {
    l.replyTimeout == 0
  }

  /** Stats are sent by an active link that has none in flight. */
  predicate WatchesStats(l: Link) {
    l.activity.Active? && l.inFlight == 0
  }

  /** All the times that something may have to happen. */
  function Deadlines(l: Link): set<int> {
    (if l.replyTimeout != 0 then {l.replyTimeout} else {})
    + (if WatchesUrgent(l) then {UrgentAt(l)} else {})
    + (if WatchesKeepAlive(l) then {KeepAliveAt(l)} else {})
    + (if WatchesStats(l) then {InstantaneousAt(l), LifetimeAt(l)} else {})
  }

  ghost predicate IsLeast(t: int, s: set<int>) {
    t in s && forall x :: x in s ==> t <= x
  }

  // ---------------------------------------------------------------- the answer

  /** More traffic since the last acknowledgement than a link that is all but idle makes. */
  predicate HasInstantaneous(l: Link, now: int) {
    var threshold := (now - l.instantaneous.time) / ACTIVE_SEND_INTERVAL;
    l.instantaneous.received + threshold < l.received || l.instantaneous.sent + threshold < l.sent
  }

  predicate HasLifetime(l: Link) {
    l.lifetime.received + 100 < l.received || l.lifetime.sent + 100 < l.sent
  }

  predicate Urgent(l: Link, now: int) {
    WatchesUrgent(l) && UrgentAt(l) <= now
  }

  predicate NeedsKeepAlive(l: Link, now: int) {
    WatchesKeepAlive(l) && KeepAliveAt(l) <= now
  }

  function Answer(l: Link, now: int): Reason {
    if l.activity.Disconnected? then NothingToSend
    else if Urgent(l, now) then UrgentPing
    else if NeedsKeepAlive(l, now) then KeepAlive
    else
      var inst := WatchesStats(l) && InstantaneousAt(l) <= now && HasInstantaneous(l, now);
      var life := WatchesStats(l) && LifetimeAt(l) <= now && HasLifetime(l);
      if inst || life then Stats(inst, life) else NothingToSend
  }

  /** The link once it has been asked: stats that are due but empty count as acknowledged. */
  function Asked(l: Link, now: int): Link {
    if l.activity.Disconnected? || Urgent(l, now) || NeedsKeepAlive(l, now) || !WatchesStats(l) then l
    else
      var l1 := if InstantaneousAt(l) <= now && !HasInstantaneous(l, now)
                then l.(instantaneous := Ack(now, l.received, l.sent)) else l;
      if LifetimeAt(l) <= now && !HasLifetime(l) then l1.(lifetime := l1.lifetime.(time := now)) else l1
  }

  /** t is the time to ask again, unless something else comes at `bound`. */
  ghost predicate IsNext(l: Link, bound: int, t: int) {
    if l.activity.Disconnected? then t == bound else IsLeast(t, {bound} + Deadlines(l))
  }

  // ---------------------------------------------------------------- the tracker

  class LinkStatsTracker {
    var activity: Activity
    var replyTimeout: int
    var timeouts: nat
    var lastUrgent: int
    var lastRecv: int
    var inFlight: int
    var instantaneous: Ack
    var lifetime: Ack
    var received: int
    var sent: int

    ghost function Abstract(): Link
      reads this
    {
      Link(activity, replyTimeout, timeouts, lastUrgent, lastRecv, inFlight, instantaneous, lifetime, received, sent)
    }

    /** `BInternalNeedToSendPingImmediate` */
    method NeedToSendPingImmediate(now: int, bound: int) returns (need: bool, t: int)
      ensures need <==> Urgent(Abstract(), now)
      ensures var urgent := UrgentAt(Abstract());
              t == if WatchesUrgent(Abstract()) && !need && urgent < bound then urgent else bound
    {
      t := bound;
      if timeouts == 0 { return false, t; }
      if activity != Active { return false, t; }
      var urgent := lastUrgent + AGGRESSIVE_PING_INTERVAL;
      if urgent <= now { return true, t; }
      if urgent < t { t := urgent; }
      need := false;
    }

    /** `BInternalNeedToSendKeepAlive` */
    method NeedToSendKeepAlive(now: int, bound: int) returns (need: bool, t: int)
      requires !activity.Disconnected?
      ensures need <==> NeedsKeepAlive(Abstract(), now)
      ensures need ==> t == bound
      ensures !need ==> var d := if replyTimeout == 0 then KeepAliveAt(Abstract()) else replyTimeout;
                        t == if d < bound then d else bound
    {
      t := bound;
      if replyTimeout == 0 {
        var next := lastRecv + if activity == Active then KEEPALIVE_ACTIVE else KEEPALIVE_IDLE;
        if next <= now { return true, t; }
        if next < t { t := next; }
      } else if replyTimeout < t {
        t := replyTimeout;
      }
      need := false;
    }

    /** `BCheckHaveDataToSendInstantaneous`: resets the timer and the counters if not. */
    method HaveDataToSendInstantaneous(now: int) returns (have: bool)
      requires activity.Active? && now - instantaneous.time >= INSTANTANEOUS_INTERVAL
      modifies `instantaneous
      ensures have == old(HasInstantaneous(Abstract(), now))
      ensures instantaneous == if have then old(instantaneous) else Ack(now, received, sent)
    {
      var elapsed := now - instantaneous.time;
      var threshold := elapsed / ACTIVE_SEND_INTERVAL;
      if instantaneous.received + threshold < received || instantaneous.sent + threshold < sent { return true; }
      instantaneous := Ack(now, received, sent);
      have := false;
    }

    /** `BCheckHaveDataToSendLifetime`: resets the timer, but not the counters, if not. */
    method HaveDataToSendLifetime(now: int) returns (have: bool)
      requires activity.Active?
      modifies `lifetime
      ensures have == old(HasLifetime(Abstract()))
      ensures lifetime == if have then old(lifetime) else old(lifetime).(time := now)
    {
      if lifetime.received + 100 < received || lifetime.sent + 100 < sent { return true; }
      lifetime := lifetime.(time := now);
      have := false;
    }

    /** `InternalGetSendStatsReasonOrUpdateNextThinkTime` */
    method GetSendStatsReason(now: int, bound: int) returns (inst: bool, life: bool, t: int)
      requires !activity.Disconnected? && !Urgent(Abstract(), now) && !NeedsKeepAlive(Abstract(), now)
      modifies `instantaneous, `lifetime
      ensures Abstract() == old(Asked(Abstract(), now))
      ensures old(Answer(Abstract(), now)) == if inst || life then Stats(inst, life) else NothingToSend
      ensures t <= bound
      ensures !inst && !life ==> IsLeast(t, {bound} + (if replyTimeout > 0 then {replyTimeout} else {})
                                            + (if WatchesStats(Abstract())
                                               then {InstantaneousAt(Abstract()), LifetimeAt(Abstract())} else {}))
    {
      hide HasInstantaneous;
      inst, life, t := false, false, bound;
      if replyTimeout > 0 && replyTimeout < t { t := replyTimeout; }
      if activity != Active { return; }
      if inFlight != 0 { return; }
      if instantaneous.time + INSTANTANEOUS_MAX_INTERVAL <= now { inst := HaveDataToSendInstantaneous(now); }
      if !inst {
        var next := instantaneous.time + INSTANTANEOUS_MAX_INTERVAL;
        if next < t { t := next; }
      }
      if lifetime.time + LIFETIME_MAX_INTERVAL <= now { life := HaveDataToSendLifetime(now); }
      if !life {
        var next := lifetime.time + LIFETIME_MAX_INTERVAL;
        if next < t { t := next; }
      }
    }

    /** `GetSendReasonOrUpdateNextThinkTime` */
    method GetSendReasonOrUpdateNextThinkTime(now: int, bound: int) returns (reason: Reason, t: int)
      modifies `instantaneous, `lifetime
      ensures reason == old(Answer(Abstract(), now)) && Abstract() == old(Asked(Abstract(), now))
      ensures t <= bound && (reason.NothingToSend? ==> IsNext(Abstract(), bound, t))
    {
      hide Asked;
      t := bound;
      if activity == Disconnected {
        AskedQuickly(Abstract(), now);
        return NothingToSend, t;
      }
      if replyTimeout > 0 && replyTimeout < t { t := replyTimeout; }
      var need;
      need, t := NeedToSendPingImmediate(now, t);
      if need {
        AskedQuickly(Abstract(), now);
        return UrgentPing, t;
      }
      need, t := NeedToSendKeepAlive(now, t);
      if need {
        AskedQuickly(Abstract(), now);
        return KeepAlive, t;
      }
      var inst, life;
      inst, life, t := GetSendStatsReason(now, t);
      reason := if inst || life then Stats(inst, life) else NothingToSend;
    }

    /** `GetNextThinkTime` */
    method GetNextThinkTime(now: int) returns (t: int)
      modifies `instantaneous, `lifetime
      ensures Abstract() == old(Asked(Abstract(), now))
      ensures if old(Answer(Abstract(), now)).NothingToSend? then IsNext(Abstract(), NEVER, t) else t == ASAP
    {
      var reason;
      reason, t := GetSendReasonOrUpdateNextThinkTime(now, NEVER);
      if !reason.NothingToSend? { t := ASAP; }
    }
  }

  lemma AskedQuickly(l: Link, now: int)
    requires l.activity.Disconnected? || Urgent(l, now) || NeedsKeepAlive(l, now)
    ensures Asked(l, now) == l
  {
  }

  // ---------------------------------------------------------------- what asking promises

  /** When there is nothing to send, everything that the link watches lies ahead. */
  lemma QuietIsAhead(l: Link, now: int, d: int)
    requires !l.activity.Disconnected? && Answer(l, now).NothingToSend?
    requires d in Deadlines(Asked(l, now)) && d != l.replyTimeout
    ensures d > now
  {
  }

  /** Asking a link that has nothing to send does not change what it watches. */
  lemma AskedWatches(l: Link, now: int)
    ensures var m := Asked(l, now);
            && m.activity == l.activity && m.replyTimeout == l.replyTimeout
            && (WatchesUrgent(m) <==> WatchesUrgent(l)) && (WatchesStats(m) <==> WatchesStats(l))
            && UrgentAt(m) == UrgentAt(l) && KeepAliveAt(m) == KeepAliveAt(l)
  {
  }

  /** Until its deadlines a link has nothing to send, and asking it changes nothing. */
  lemma QuietUntilDeadlines(l: Link, now: int)
    requires forall d :: d in Deadlines(l) ==> now < d
    ensures Answer(l, now).NothingToSend? && Asked(l, now) == l
  {
    assert WatchesUrgent(l) ==> UrgentAt(l) in Deadlines(l);
    assert WatchesKeepAlive(l) ==> KeepAliveAt(l) in Deadlines(l);
    assert WatchesStats(l) ==> InstantaneousAt(l) in Deadlines(l) && LifetimeAt(l) in Deadlines(l);
  }

  /** If a link reports nothing to send and t as the time to ask again, then asking it
  again at any time before t, with no event in between, still reports nothing, again gives
  t, and changes nothing, although the first question may have reset timers. */
  lemma NothingBeforeNextThink(l: Link, now: int, bound: int, t: int, later: int, t': int)
    requires Answer(l, now).NothingToSend? && IsNext(Asked(l, now), bound, t)
    requires now <= later < t && IsNext(Asked(Asked(l, now), later), bound, t')
    ensures Answer(Asked(l, now), later).NothingToSend?
    ensures Asked(Asked(l, now), later) == Asked(l, now) && t' == t
  {
    hide Asked, Answer, Deadlines;
    var m := Asked(l, now);
    AskedKeepsActivity(l, now);
    if !l.activity.Disconnected? {
      QuietUntilDeadlines(m, later);
    } else {
      AskedQuickly(m, later);
      DisconnectedIsQuiet(m, later);
    }
  }

  lemma AskedKeepsActivity(l: Link, now: int)
    ensures Asked(l, now).activity == l.activity
  {
  }

  lemma DisconnectedIsQuiet(l: Link, now: int)
    requires l.activity.Disconnected?
    ensures Answer(l, now).NothingToSend?
  {
  }

  /** Times are far enough from the end of time that no deadline reaches it. */
  predicate Sane(l: Link, now: int) {
    var limit := NEVER - LIFETIME_MAX_INTERVAL;
    && now < limit && l.lastUrgent < limit && l.lastRecv < limit
    && l.instantaneous.time < limit && l.lifetime.time < limit
    && l.replyTimeout < NEVER
  }

  /** A link is left alone for ever only if it is disconnected. */
  lemma NeverOnlyDisconnected(l: Link, now: int, t: int)
    requires Sane(l, now) && IsNext(Asked(l, now), NEVER, t)
    ensures t == NEVER <==> l.activity.Disconnected?
  {
    var m := Asked(l, now);
    if !l.activity.Disconnected? {
      assert m.replyTimeout == l.replyTimeout && KeepAliveAt(m) == KeepAliveAt(l);
      assert (if m.replyTimeout == 0 then KeepAliveAt(m) else m.replyTimeout) in Deadlines(m);
    }
  }

  /** The time to ask again is after now, exactly unless a reply is overdue. */
  lemma NextThinkIsAhead(l: Link, now: int, bound: int, t: int)
    requires !l.activity.Disconnected? && Answer(l, now).NothingToSend? && now < bound
    requires IsNext(Asked(l, now), bound, t)
    ensures t > now <==> (l.replyTimeout == 0 || l.replyTimeout > now)
  {
    var m := Asked(l, now);
    AskedWatches(l, now);
    if t != bound && t != l.replyTimeout { QuietIsAhead(l, now, t); }
    assert l.replyTimeout != 0 ==> l.replyTimeout in Deadlines(m);
  }

  // ---------------------------------------------------------------- when a link speaks

  /** Replies have timed out, and the last urgent ping was 200 ms ago. */
  predicate PingIsUrgent(l: Link, now: int) {
    l.activity == Active && l.timeouts > 0 && now - l.lastUrgent >= 200_000
  }

  /** No reply is awaited, and nothing was heard for 10 s, or 60 s on an idle link. */
  predicate SilentTooLong(l: Link, now: int) {
    l.replyTimeout == 0 && now - l.lastRecv >= if l.activity == Active then 10_000_000 else 60_000_000
  }

  /** Stats may be sent: the link is active, has none in flight, and nothing else is due. */
  predicate FreeForStats(l: Link, now: int) {
    l.activity == Active && l.inFlight == 0 && !PingIsUrgent(l, now) && !SilentTooLong(l, now)
  }

  /** The peer acknowledged instantaneous stats 30 s ago, and since then more than one packet
  every 3 s was received, or more than one every 3 s sent. */
  predicate InstantaneousDue(l: Link, now: int) {
    var elapsed, ack := now - l.instantaneous.time, l.instantaneous;
    && elapsed >= 30_000_000
    && (3_000_000 * (l.received - ack.received) > elapsed || 3_000_000 * (l.sent - ack.sent) > elapsed)
  }

  /** It acknowledged lifetime stats 140 s ago, and since more than 100 packets were received,
  or more than 100 sent. */
  predicate LifetimeDue(l: Link, now: int) {
    && now - l.lifetime.time >= 140_000_000
    && (l.received - l.lifetime.received > 100 || l.sent - l.lifetime.sent > 100)
  }

  lemma PerThreeSeconds(elapsed: int, n: int)
    ensures elapsed / 3_000_000 < n <==> elapsed < 3_000_000 * n
  {
  }

  /** The reason for sending, in terms of the fields of a link, with all the intervals. */
  lemma ReasonExactly(l: Link, now: int)
    ensures Answer(l, now) ==
            if l.activity == Disconnected then NothingToSend
            else if PingIsUrgent(l, now) then UrgentPing
            else if SilentTooLong(l, now) then KeepAlive
            else if FreeForStats(l, now) && (InstantaneousDue(l, now) || LifetimeDue(l, now))
            then Stats(InstantaneousDue(l, now), LifetimeDue(l, now))
            else NothingToSend
  {
    var elapsed := now - l.instantaneous.time;
    PerThreeSeconds(elapsed, l.received - l.instantaneous.received);
    PerThreeSeconds(elapsed, l.sent - l.instantaneous.sent);
  }

  /** Asking changes a link only where stats are due and there is no traffic to report: the
  acknowledgement is taken as given now, with its counts for instantaneous stats and
  without them for lifetime stats. */
  lemma AskedExactly(l: Link, now: int)
    ensures var m := Asked(l, now);
            var free := FreeForStats(l, now);
            var noInst := free && now - l.instantaneous.time >= 30_000_000 && !InstantaneousDue(l, now);
            var noLife := free && now - l.lifetime.time >= 140_000_000 && !LifetimeDue(l, now);
            && m == l.(instantaneous := m.instantaneous, lifetime := m.lifetime)
            && m.instantaneous == (if noInst then Ack(now, l.received, l.sent) else l.instantaneous)
            && m.lifetime == (if noLife then Ack(now, l.lifetime.received, l.lifetime.sent) else l.lifetime)
  {
    var elapsed := now - l.instantaneous.time;
    PerThreeSeconds(elapsed, l.received - l.instantaneous.received);
    PerThreeSeconds(elapsed, l.sent - l.instantaneous.sent);
  }

  /** The time to ask again is no later than an awaited reply times out. */
  lemma RepliesAreWatched(l: Link, now: int, bound: int, t: int)
    requires !l.activity.Disconnected? && IsNext(Asked(l, now), bound, t)
    ensures t <= bound && (l.replyTimeout != 0 ==> t <= l.replyTimeout)
  {
    AskedWatches(l, now);
    assert l.replyTimeout != 0 ==> l.replyTimeout in Deadlines(Asked(l, now));
  }

  /** The time to ask again is not too early: by then a reply is overdue, there is something
  to send, or asking resets a timer. */
  lemma NextThinkIsDue(l: Link, now: int, bound: int, t: int)
    requires !l.activity.Disconnected? && Answer(l, now).NothingToSend?
    requires IsNext(Asked(l, now), bound, t) && t < bound
    ensures var m := Asked(l, now);
            t == l.replyTimeout || !Answer(m, t).NothingToSend? || Asked(m, t) != m
  {
    var m := Asked(l, now);
    AskedWatches(l, now);
    assert t in Deadlines(m);
  }
}
