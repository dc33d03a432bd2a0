/** The token bucket with additive-increase, multiplicative-decrease adaptation of its rate. Times
    are seconds on a real line; the configured rate is at least one request per second. */
module RateLimiter {

  const AIMD_DECREASE_FACTOR := 0.5
  const AIMD_RECOVERY_STEP := 0.1
  const AIMD_MIN_RATE := 1.0

  datatype Bucket = Bucket(tokens: real, capacity: real, rate: real, configured: real, last: real)

  datatype Answer = Granted | Wait(seconds: real)

  function Min(a: real, b: real): real {
    if a <= b then a else b
  }

  function Max(a: real, b: real): real {
    if a <= b then b else a
  }

  ghost predicate Sound(b: Bucket) {
    AIMD_MIN_RATE <= b.rate <= b.configured && 0.0 <= b.tokens <= b.capacity
  }

  // ---------------------------------------------------------------------
  // Specification of the operations
  // ---------------------------------------------------------------------

  /** Time since the last refill; a clock reading before it counts as none. */
  function Elapsed(b: Bucket, now: real): real {
    if now >= b.last then now - b.last else 0.0
  }

  /** What a rate adds in a span of time. */
  function Accrued(rate: real, span: real): real {
    rate * span
  }

  function Refilled(b: Bucket, now: real): Bucket {
    b.(tokens := Min(b.tokens + Accrued(b.rate, Elapsed(b, now)), b.capacity), last := now)
  }

  function Asked(b: Bucket, now: real): (Bucket, Answer)
    requires b.rate > 0.0
  {
    var r := Refilled(b, now);
    if r.tokens >= 1.0 then (r.(tokens := r.tokens - 1.0), Granted) else (r, Wait((1.0 - r.tokens) / r.rate))
  }

  function Drained(b: Bucket, now: real): Bucket {
    b.(tokens := 0.0, last := now, rate := Max(b.rate * AIMD_DECREASE_FACTOR, AIMD_MIN_RATE))
  }

  function Rewarded(b: Bucket): Bucket {
    if b.rate < b.configured then b.(rate := Min(b.rate + AIMD_RECOVERY_STEP, b.configured)) else b
  }

  /** The bucket, updated in place under its lock. */
  class TokenBucket {
    var tokens: real
    var capacity: real
    var refillRate: real
    var configuredRate: real
    var lastRefill: real

    constructor (requestsPerSecond: nat, burstSize: nat, now: real)
      requires requestsPerSecond >= 1
      ensures View() == Bucket(burstSize as real, burstSize as real,
                               requestsPerSecond as real, requestsPerSecond as real, now)
      ensures Sound(View())
    {
      tokens, capacity := burstSize as real, burstSize as real;
      refillRate, configuredRate := requestsPerSecond as real, requestsPerSecond as real;
      lastRefill := now;
    }

    function View(): Bucket
      reads this
    {
      Bucket(tokens, capacity, refillRate, configuredRate, lastRefill)
    }

    method Refill(now: real)
      modifies `tokens, `lastRefill
      ensures View() == Refilled(old(View()), now)
    {
      var elapsed := if now >= lastRefill then now - lastRefill else 0.0;
      var tokensToAdd := elapsed * refillRate;
      tokens := Min(tokens + tokensToAdd, capacity);
      lastRefill := now;
    }

    method TryConsumeOrWait(now: real) returns (answer: Answer)
      requires Sound(View())
      modifies `tokens, `lastRefill
      ensures (View(), answer) == Asked(old(View()), now)
      // a clock that went back brings nothing and takes nothing
      ensures now <= old(lastRefill) ==> (answer.Granted? <==> old(tokens) >= 1.0) && lastRefill == now
      ensures Sound(View())
    {
      AskedSound(View(), now);
      Refill(now);
      if tokens >= 1.0 {
        tokens := tokens - 1.0;
        return Granted;
      }
      var tokensNeeded := 1.0 - tokens;
      return Wait(tokensNeeded / refillRate);
    }

    method Drain(now: real)
      requires Sound(View())
      modifies `tokens, `lastRefill, `refillRate
      ensures View() == Drained(old(View()), now)
      ensures Sound(View())
      ensures tokens == 0.0 && refillRate == if old(refillRate) / 2.0 < 1.0 then 1.0 else old(refillRate) / 2.0
    {
      tokens := 0.0;
      lastRefill := now;
      refillRate := Max(refillRate * AIMD_DECREASE_FACTOR, AIMD_MIN_RATE);
    }

    method Reward()
      requires Sound(View())
      modifies `refillRate
      ensures View() == Rewarded(old(View()))
      ensures Sound(View())
      ensures refillRate == if old(refillRate) + 0.1 < configuredRate then old(refillRate) + 0.1 else configuredRate
    {
      if refillRate < configuredRate {
        refillRate := Min(refillRate + AIMD_RECOVERY_STEP, configuredRate);
      }
    }
  }

  lemma AskedSound(b: Bucket, now: real)
    requires Sound(b)
    ensures Sound(Asked(b, now).0)
  {
    AccruedSigns(b.rate, Elapsed(b, now));
  }

  lemma AccruedSigns(rate: real, span: real)
    requires rate >= 0.0 && span >= 0.0
    ensures Accrued(rate, span) >= 0.0 && Accrued(rate, 0.0) == 0.0
  {
  }

  lemma AccruedSplit(rate: real, a: real, b: real, c: real)
    ensures Accrued(rate, c - a) == Accrued(rate, b - a) + Accrued(rate, c - b)
  {
  }

  lemma AccruedGrows(low: real, high: real, span: real)
    requires low <= high && span >= 0.0
    ensures Accrued(low, span) <= Accrued(high, span)
  {
  }

  lemma AccruedCompares(rate: real, short: real, long: real)
    requires rate > 0.0
    ensures Accrued(rate, short) < Accrued(rate, long) <==> short < long
  {
  }

  // ---------------------------------------------------------------------
  // Interleavings
  // ---------------------------------------------------------------------

  datatype Event = Ask(now: real) | Drain(now: real) | Reward

  function After(b: Bucket, e: Event): Bucket
    requires b.rate > 0.0
  {
    match e
    case Ask(now) => Asked(b, now).0
    case Drain(now) => Drained(b, now)
    case Reward => Rewarded(b)
  }

  lemma AfterSound(b: Bucket, e: Event)
    requires Sound(b)
    ensures Sound(After(b, e)) && After(b, e).configured == b.configured && After(b, e).capacity == b.capacity
  {
    if e.Ask? {
      AskedSound(b, e.now);
    }
  }

  /** The bucket after a whole interleaving keeps its rate between the floor and the configured
      ceiling, and its tokens between none and the burst. */
  ghost function Run(b: Bucket, events: seq<Event>): (r: Bucket)
    requires Sound(b)
    ensures Sound(r) && r.configured == b.configured && r.capacity == b.capacity
    decreases |events|
  {
    if events == [] then b
    else
      AfterSound(b, events[0]);
      Run(After(b, events[0]), events[1..])
  }

  /** How many asks of the interleaving are granted. */
  ghost function Grants(b: Bucket, events: seq<Event>): nat
    requires Sound(b)
    decreases |events|
  {
    if events == [] then 0
    else
      AfterSound(b, events[0]);
      (if events[0].Ask? && Asked(b, events[0].now).1.Granted? then 1 else 0)
      + Grants(After(b, events[0]), events[1..])
  }

  function Rewards(events: seq<Event>): nat {
    if events == [] then 0 else (if events[0].Reward? then 1 else 0) + Rewards(events[1..])
  }

  /** The events read a non-decreasing clock between start and end. */
  ghost predicate Clocked(start: real, events: seq<Event>, end: real)
    decreases |events|
  {
    if events == [] then start <= end
    else if events[0].Reward? then Clocked(start, events[1..], end)
    else start <= events[0].now && Clocked(events[0].now, events[1..], end)
  }

  lemma {:induction false} ClockedOrder(start: real, events: seq<Event>, end: real)
    requires Clocked(start, events, end)
    ensures start <= end
    decreases |events|
  {
    if events != [] {
      ClockedOrder(if events[0].Reward? then start else events[0].now, events[1..], end);
    }
  }

  /** The most tokens the bucket can show at time s if its rate never exceeds top. */
  function Level(b: Bucket, s: real, top: real): real {
    Min(b.tokens + Accrued(top, s - b.last), b.capacity)
  }

  /** The rate cannot exceed top during the events. */
  ghost predicate Capped(b: Bucket, events: seq<Event>, top: real) {
    b.configured <= top || b.rate + AIMD_RECOVERY_STEP * (Rewards(events) as real) <= top
  }

  lemma CappedNext(b: Bucket, events: seq<Event>, top: real)
    requires Sound(b) && events != [] && Capped(b, events, top)
    ensures Capped(After(b, events[0]), events[1..], top) && b.rate <= top
  {
    AfterSound(b, events[0]);
  }

  /** Asking at time t turns what the bucket can show then into a grant and what is left. */
  lemma LevelAsk(b: Bucket, s: real, t: real, top: real)
    requires Sound(b) && b.rate <= top && b.last <= s <= t
    ensures Level(Asked(b, t).0, t, top) + (if Asked(b, t).1.Granted? then 1.0 else 0.0)
            <= Level(b, s, top) + Accrued(top, t - s)
  {
    hide Accrued;
    AccruedGrows(b.rate, top, t - b.last);
    AccruedSplit(top, b.last, s, t);
    AccruedSigns(top, t - s);
    AccruedSigns(b.rate, t - b.last);
    assert Asked(b, t).0.last == t;
  }

  lemma LevelDrain(b: Bucket, s: real, t: real, top: real)
    requires Sound(b) && b.rate <= top && b.last <= s <= t
    ensures Level(Drained(b, t), t, top) <= Level(b, s, top) + Accrued(top, t - s)
  {
    hide Accrued;
    AccruedSigns(top, t - s);
    AccruedSigns(top, s - b.last);
  }

  lemma LevelReward(b: Bucket, s: real, top: real)
    ensures Rewarded(b).last == b.last && Level(Rewarded(b), s, top) == Level(b, s, top)
  {
  }

  /** Over every interleaving from s to end, grants are at most what the bucket can show at s plus
      the top rate times the elapsed time. */
  lemma {:induction false} GrantBound(b: Bucket, events: seq<Event>, s: real, end: real, top: real)
    requires Sound(b) && b.last <= s && Clocked(s, events, end) && Capped(b, events, top)
    ensures Grants(b, events) as real <= Level(b, s, top) + Accrued(top, end - s)
    decreases |events|
  {
    hide Accrued;
    if events == [] {
      AccruedSigns(top, end - s);
      AccruedSigns(top, s - b.last);
    } else {
      hide Level;
      hide Rewarded;
      CappedNext(b, events, top);
      AfterSound(b, events[0]);
      var next := After(b, events[0]);
      match events[0]
      case Ask(t) =>
        LevelAsk(b, s, t, top);
        GrantBound(next, events[1..], t, end, top);
        AccruedSplit(top, s, t, end);
      case Drain(t) =>
        LevelDrain(b, s, t, top);
        GrantBound(next, events[1..], t, end, top);
        AccruedSplit(top, s, t, end);
      case Reward =>
        LevelReward(b, s, top);
        GrantBound(next, events[1..], s, end, top);
    }
  }

  // ---------------------------------------------------------------------
  // Headline results
  // ---------------------------------------------------------------------

  /** In any window, whatever came before it, grants are at most the burst plus the configured rate
      times the length of the window. */
  lemma WindowBound(b: Bucket, events: seq<Event>, s: real, end: real)
    requires Sound(b) && b.last <= s && Clocked(s, events, end)
    ensures Grants(b, events) as real <= b.capacity + Accrued(b.configured, end - s)
  {
    hide Accrued;
    GrantBound(b, events, s, end, b.configured);
  }

  /** After a drain there is no burst, and k rewards raise the halved rate by at most k steps. */
  lemma DrainedBound(b: Bucket, events: seq<Event>, s: real, end: real)
    requires Sound(b) && b.last <= s && Clocked(s, events, end)
    ensures Sound(Drained(b, s))
    ensures Grants(Drained(b, s), events) as real
            <= Accrued(Max(1.0, b.rate / 2.0) + 0.1 * (Rewards(events) as real), end - s)
  {
    hide Accrued;
    AfterSound(b, Drain(s));
    var d := Drained(b, s);
    var top := Max(1.0, b.rate / 2.0) + 0.1 * (Rewards(events) as real);
    GrantBound(d, events, s, end, top);
    AccruedSigns(top, 0.0);
  }

  /** Asks that are refused and rewards: what others may do while a waiter sleeps. */
  ghost predicate Idle(b: Bucket, events: seq<Event>)
    requires Sound(b)
    decreases |events|
  {
    if events == [] then true
    else
      AfterSound(b, events[0]);
      && !events[0].Drain? && (events[0].Ask? ==> Asked(b, events[0].now).1.Wait?)
      && Idle(After(b, events[0]), events[1..])
  }

  /** The tokens the bucket shows at time t, before the cap. */
  function Pending(b: Bucket, t: real): real {
    b.tokens + Accrued(b.rate, t - b.last)
  }

  /** While nobody consumes or drains, what is pending at a later time never falls. */
  lemma {:induction false} PendingKept(b: Bucket, events: seq<Event>, s: real, t: real)
    requires Sound(b) && b.capacity >= 1.0 && b.last <= s && Clocked(s, events, t) && Idle(b, events)
    ensures Run(b, events).last <= t && Pending(Run(b, events), t) >= Pending(b, t)
    decreases |events|
  {
    hide Accrued;
    ClockedOrder(s, events, t);
    if events != [] {
      hide Pending;
      AfterSound(b, events[0]);
      var next := After(b, events[0]);
      match events[0]
      case Ask(now) =>
        ClockedOrder(now, events[1..], t);
        PendingAsk(b, now, t);
        PendingKept(next, events[1..], now, t);
      case Reward =>
        PendingReward(b, t);
        PendingKept(next, events[1..], s, t);
    }
  }

  lemma PendingAsk(b: Bucket, now: real, t: real)
    requires Sound(b) && b.capacity >= 1.0 && b.last <= now && Asked(b, now).1.Wait?
    ensures Pending(Asked(b, now).0, t) == Pending(b, t)
  {
    hide Accrued;
    AccruedSplit(b.rate, b.last, now, t);
  }

  lemma PendingReward(b: Bucket, t: real)
    requires Sound(b) && b.last <= t
    ensures Pending(Rewarded(b), t) >= Pending(b, t)
  {
    hide Accrued;
    AccruedGrows(b.rate, Rewarded(b).rate, t - b.last);
  }

  /** An ask is granted exactly when a whole token is pending, if the burst is at least one. */
  lemma GrantedWhenPending(b: Bucket, t: real)
    requires Sound(b) && b.capacity >= 1.0 && b.last <= t
    ensures Asked(b, t).1.Granted? <==> Pending(b, t) >= 1.0
  {
    hide Accrued;
  }

  /** At the end of the reported wait exactly one token is pending. */
  lemma WaitFills(b: Bucket, now: real)
    requires Sound(b) && Asked(b, now).1.Wait?
    ensures var (after, answer) := Asked(b, now);
      0.0 < answer.seconds <= 1.0 && after.last == now && after.rate == b.rate
      && after.tokens + Accrued(after.rate, answer.seconds) == 1.0
  {
    AskedSound(b, now);
    QuotientFills(1.0 - Asked(b, now).0.tokens, b.rate);
    hide Accrued;
  }

  lemma QuotientFills(x: real, rate: real)
    requires 0.0 < x <= 1.0 && rate >= 1.0
    ensures Accrued(rate, x / rate) == x && 0.0 < x / rate <= 1.0
  {
    var q := x / rate;
    assert q * rate == x;
    assert q > 0.0 by {
      assert q <= 0.0 ==> q * rate <= 0.0;
    }
    assert q <= 1.0 by {
      assert q > 1.0 ==> q * rate > 1.0 * rate;
    }
  }

  /** A refused caller is told to wait at most a second. Whoever asks once that wait has passed is
      granted, if the burst is at least one and nobody consumed or drained meanwhile. */
  lemma WaitSuffices(b: Bucket, now: real, events: seq<Event>, t: real)
    requires Sound(b) && b.capacity >= 1.0 && b.last <= now && Asked(b, now).1.Wait?
    requires Sound(Asked(b, now).0) && Idle(Asked(b, now).0, events) && Clocked(now, events, t)
    requires t >= now + Asked(b, now).1.seconds
    ensures 0.0 < Asked(b, now).1.seconds <= 1.0
    ensures Asked(Run(Asked(b, now).0, events), t).1.Granted?
  {
    hide Accrued;
    WaitFills(b, now);
    var (r, answer) := Asked(b, now);
    hide Asked;
    AccruedCompares(r.rate, t - now, answer.seconds);
    PendingKept(r, events, now, t);
    GrantedWhenPending(Run(r, events), t);
  }

  /** The wait is exact when no reward comes either: asking sooner is refused. */
  lemma WaitExact(b: Bucket, now: real, t: real)
    requires Sound(b) && b.capacity >= 1.0 && b.last <= now <= t && Asked(b, now).1.Wait?
    ensures Asked(Asked(b, now).0, t).1.Granted? <==> t >= now + Asked(b, now).1.seconds
  {
    hide Accrued;
    WaitFills(b, now);
    AskedSound(b, now);
    var (r, answer) := Asked(b, now);
    assert r.capacity == b.capacity;
    hide Asked;
    AccruedCompares(r.rate, t - now, answer.seconds);
    GrantedWhenPending(r, t);
  }

  /** With a burst below one no ask is ever granted. */
  lemma {:induction false} NoBurstNoGrant(b: Bucket, events: seq<Event>)
    requires Sound(b) && b.capacity < 1.0
    ensures Grants(b, events) == 0
    decreases |events|
  {
    if events != [] {
      AfterSound(b, events[0]);
      NoBurstNoGrant(After(b, events[0]), events[1..]);
    }
  }

  // ---------------------------------------------------------------------
  // The exact rate and the exact tokens
  // ---------------------------------------------------------------------

  ghost predicate NoDrain(events: seq<Event>) {
    forall e :: e in events ==> !e.Drain?
  }

  lemma RewardCount(events: seq<Event>)
    requires events != []
    ensures multiset(events)[Reward] == multiset(events[1..])[Reward] + if events[0] == Reward then 1 else 0
  {
    assert events == [events[0]] + events[1..];
  }

  /** Without a drain each reward raises the rate by a tenth, up to the configured rate; asks in between
      do not change it. */
  lemma {:induction false} RateExact(b: Bucket, events: seq<Event>)
    requires Sound(b) && NoDrain(events)
    ensures var k := multiset(events)[Reward] as real;
            Run(b, events).rate == if b.rate + 0.1 * k < b.configured then b.rate + 0.1 * k else b.configured
    decreases |events|
  {
    if events != [] {
      AfterSound(b, events[0]);
      RewardCount(events);
      var next := After(b, events[0]);
      assert next.rate == if events[0] == Reward then (if b.rate + 0.1 < b.configured then b.rate + 0.1 else b.configured)
                          else b.rate;
      RateExact(next, events[1..]);
    }
  }

  /** A drain halves the rate, to no less than one, and k rewards later it is a tenth of k higher or
      back at the configured rate. */
  lemma DrainedRate(b: Bucket, t: real, events: seq<Event>)
    requires Sound(b) && NoDrain(events)
    ensures var low := if b.rate / 2.0 < 1.0 then 1.0 else b.rate / 2.0;
            var k := multiset(events)[Reward] as real;
            Run(b, [Drain(t)] + events).rate == if low + 0.1 * k < b.configured then low + 0.1 * k else b.configured
    ensures Run(b, [Drain(t)]).tokens == 0.0
  {
    AfterSound(b, Drain(t));
    var all := [Drain(t)] + events;
    assert all[1..] == events;
    assert [Drain(t)][1..] == [];
    RateExact(After(b, Drain(t)), events);
  }

  /** So enough rewards always restore the configured rate. */
  lemma RewardsRestore(b: Bucket, events: seq<Event>)
    requires Sound(b) && NoDrain(events)
    requires multiset(events)[Reward] as real >= 10.0 * b.configured
    ensures Run(b, events).rate == b.configured
  {
    RateExact(b, events);
  }

  /** While the burst does not bind, an ask moves what has accrued into a grant and what is left. */
  lemma AskConserves(b: Bucket, t: real)
    requires Sound(b) && b.last <= t && b.tokens + Accrued(b.rate, t - b.last) <= b.capacity
    ensures Asked(b, t).0.tokens + (if Asked(b, t).1.Granted? then 1.0 else 0.0) == b.tokens + Accrued(b.rate, t - b.last)
    ensures Asked(b, t).0.last == t && Asked(b, t).0.rate == b.rate && Asked(b, t).0.capacity == b.capacity
  {
    hide Accrued;
  }

  lemma {:induction false} AsksBalance(b: Bucket, events: seq<Event>, s: real, end: real)
    requires Sound(b) && b.last <= s && Clocked(s, events, end) && (forall e :: e in events ==> e.Ask?)
    requires b.tokens + Accrued(b.rate, end - b.last) <= b.capacity
    ensures var r := Run(b, events);
            Grants(b, events) as real + r.tokens == b.tokens + Accrued(b.rate, r.last - b.last)
    decreases |events|
  {
    hide Accrued;
    if events == [] {
      AccruedSigns(b.rate, 0.0);
    } else {
      AfterSound(b, events[0]);
      var t := events[0].now;
      ClockedOrder(t, events[1..], end);
      AccruedSplit(b.rate, b.last, t, end);
      AccruedSigns(b.rate, end - t);
      AskConserves(b, t);
      var next := After(b, events[0]);
      hide Asked;
      AsksBalance(next, events[1..], t, end);
      AccruedSplit(b.rate, b.last, t, Run(next, events[1..]).last);
    }
  }

  /** While the burst does not bind, every token is accounted for: those granted and those left are
      those at the start and the rate times the time passed. */
  lemma AsksConserve(b: Bucket, events: seq<Event>, s: real, end: real)
    requires Sound(b) && b.last <= s && Clocked(s, events, end) && (forall e :: e in events ==> e.Ask?)
    requires b.tokens + b.rate * (end - b.last) <= b.capacity
    ensures var r := Run(b, events);
            Grants(b, events) as real + r.tokens == b.tokens + b.rate * (r.last - b.last)
  {
    hide Accrued;
    hide Run;
    hide Grants;
    hide Clocked;
    AccruedIs(b.rate, end - b.last);
    AsksBalance(b, events, s, end);
    AccruedIs(b.rate, Run(b, events).last - b.last);
  }

  lemma AccruedIs(rate: real, span: real)
    ensures Accrued(rate, span) == rate * span
  {
  }
}
