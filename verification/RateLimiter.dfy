/** The token bucket `RateLimiter` of exchange/src/client.rs.

    One loop iteration under the two locks is one event; events are ordered by the time the
    locks are held, and each carries the clock reading taken before the locks were asked for. */
module RateLimiting {
  import opened Common

  /** Capacity in weight units; the refill rate is the capacity per minute, in milliseconds. */
  datatype Limits = Limits(capacity: nat)

  function Capacity(c: Limits): real { c.capacity as real }

  function Rate(c: Limits): (r: real)
    ensures r >= 0.0 && (r > 0.0 <==> c.capacity > 0)
  {
    c.capacity as real / 60000.0
  }

  /** The level that flows in during `ms` milliseconds. */
  function Refilled(c: Limits, ms: real): real { Rate(c) * ms }

  datatype Bucket = Bucket(tokens: real, lastFill: real)

  predicate InRange(c: Limits, b: Bucket) { 0.0 <= b.tokens <= Capacity(c) }

  // ----- one iteration

  /** `duration_since` saturates at zero for a reading older than the last refill. */
  function Refill(c: Limits, b: Bucket, now: real): Bucket {
    var refill := Max(now - b.lastFill, 0.0) * Rate(c);
    if refill > 0.0 then Bucket(Min(b.tokens + refill, Capacity(c)), now) else b
  }

  predicate Grants(c: Limits, b: Bucket, now: real, weight: nat) { Refill(c, b, now).tokens >= weight as real }

  function Try(c: Limits, b: Bucket, now: real, weight: nat): Bucket {
    var b' := Refill(c, b, now);
    if Grants(c, b, now, weight) then b'.(tokens := b'.tokens - weight as real) else b'
  }

  function FromHeader(c: Limits, b: Bucket, used: real): Bucket {
    b.(tokens := Max(Capacity(c) - used, 0.0))
  }

  function Ceil(x: real): int { if x.Floor as real == x then x.Floor else x.Floor + 1 }

  /** The sleep computed when `tokens` fall short of `weight`, in milliseconds. */
  function SleepMs(c: Limits, tokens: real, weight: nat): (ms: int)
    requires Rate(c) > 0.0
    ensures ms >= 1 && ms as real * Rate(c) >= weight as real - tokens
  {
    var exact := (weight as real - tokens) / Rate(c);
    var ms := Ceil(exact);
    assert ms as real >= exact;
    assert exact * Rate(c) == weight as real - tokens;
    RealMulMono(exact, ms as real, Rate(c));
    if ms < 1 then
      RealMulMono(ms as real, 1.0, Rate(c));
      1
    else ms
  }

  lemma RealMulMono(x: real, y: real, z: real)
    requires x <= y && z >= 0.0
    ensures x * z <= y * z
  {
    assert (y - x) * z >= 0.0;
  }

  /** The level stays in [0, capacity], except that a header reporting a negative used weight
      pushes it above. */
  lemma LevelInRange(c: Limits, b: Bucket, now: real, weight: nat, used: real)
    requires InRange(c, b)
    ensures InRange(c, Try(c, b, now, weight))
    ensures InRange(c, FromHeader(c, b, used)) <==> used >= 0.0
  {
    hide Rate;
  }

  /** A full minute refills the whole capacity, and the refill grows evenly. */
  lemma MinuteRefillsAll(c: Limits, ms: real)
    ensures Refilled(c, 60000.0) == c.capacity as real
    ensures Refilled(c, ms) * 60000.0 == c.capacity as real * ms
  {
    var rate := Rate(c);
    assert rate * 60000.0 == c.capacity as real;
    assert rate * ms * 60000.0 == (rate * 60000.0) * ms;
  }

  /** The level before a grant: what was there and what flowed in since, up to the capacity. */
  function Level(c: Limits, b: Bucket, now: real): real {
    Min(b.tokens + Refilled(c, Max(now - b.lastFill, 0.0)), c.capacity as real)
  }

  /** Nothing is lost and nothing is made: the level splits into what is granted and what is left, and
      a weight is granted exactly when the level covers it. */
  lemma AttemptBalances(c: Limits, b: Bucket, now: real, weight: nat)
    requires InRange(c, b)
    ensures Grants(c, b, now, weight) <==> Level(c, b, now) >= weight as real
    ensures var granted := if Grants(c, b, now, weight) then weight as real else 0.0;
            Try(c, b, now, weight).tokens + granted == Level(c, b, now)
    ensures Try(c, b, now, weight).lastFill == (if c.capacity > 0 && now > b.lastFill then now else b.lastFill)
  {
    LevelIs(c, b, now);
    hide Rate, Refill, Level;
  }

  lemma LevelIs(c: Limits, b: Bucket, now: real)
    requires InRange(c, b)
    ensures Refill(c, b, now).tokens == Level(c, b, now)
    ensures Refill(c, b, now).lastFill == (if c.capacity > 0 && now > b.lastFill then now else b.lastFill)
  {
    var r := Rate(c);
    var d := Max(now - b.lastFill, 0.0);
    assert d * r == Refilled(c, d);
    assert r > 0.0 <==> c.capacity > 0;
    hide Rate;
    if d > 0.0 && r > 0.0 { RealMulPositive(d, r); } else { assert d * r == 0.0; }
  }

  /** After a header the level and the usage make up the capacity, as long as the usage fits it. */
  lemma HeaderBalances(c: Limits, b: Bucket, used: real)
    ensures used <= c.capacity as real ==> FromHeader(c, b, used).tokens + used == c.capacity as real
    ensures used > c.capacity as real ==> FromHeader(c, b, used).tokens == 0.0
    ensures FromHeader(c, b, used).lastFill == b.lastFill
  {
  }

  /** No shorter sleep of at least a millisecond would have sufficed. */
  lemma SleepIsLeast(c: Limits, b: Bucket, first: real, weight: nat, ms: int)
    requires InRange(c, b) && b.lastFill <= first && Rate(c) > 0.0
    requires !Grants(c, b, first, weight)
    requires 1 <= ms < SleepMs(c, Refill(c, b, first).tokens, weight)
    ensures !Grants(c, Refill(c, b, first), first + ms as real, weight)
  {
    var b1 := Refill(c, b, first);
    RefillFacts(c, b, first);
    RefillDates(c, b, first);
    LeastSleep(c, b1.tokens, weight, ms);
    LevelIs(c, b1, first + ms as real);
    hide Rate, SleepMs, Refill;
    assert Max(first + ms as real - b1.lastFill, 0.0) == ms as real;
    assert Refilled(c, ms as real) == Rate(c) * ms as real;
  }

  lemma RefillDates(c: Limits, b: Bucket, now: real)
    requires Rate(c) > 0.0 && b.lastFill <= now
    ensures Refill(c, b, now).lastFill == now
  {
    var r := Rate(c);
    hide Rate;
    if b.lastFill < now { RealMulPositive(now - b.lastFill, r); }
  }

  lemma LeastSleep(c: Limits, tokens: real, weight: nat, ms: int)
    requires Rate(c) > 0.0 && 1 <= ms < SleepMs(c, tokens, weight)
    ensures tokens + Rate(c) * ms as real < weight as real
  {
    var r := Rate(c);
    hide Rate;
    var exact := (weight as real - tokens) / r;
    assert exact * r == weight as real - tokens;
    assert ms < Ceil(exact);
    assert ms as real < exact;
    RealMulPositive(exact - ms as real, r);
    assert (exact - ms as real) * r == exact * r - ms as real * r;
  }

  lemma TryMeans(c: Limits, b: Bucket, now: real, weight: nat, refill: real)
    requires refill == Max(now - b.lastFill, 0.0) * Rate(c)
    ensures var b' := if refill > 0.0 then Bucket(Min(b.tokens + refill, c.capacity as real), now) else b;
            && (Grants(c, b, now, weight) <==> b'.tokens >= weight as real)
            && Try(c, b, now, weight) ==
               if b'.tokens >= weight as real then b'.(tokens := b'.tokens - weight as real) else b'
  {
    hide Rate;
  }

  class RateLimiter {
    const limits: Limits
    const tokensPerMs: real
    var tokens: real
    var lastFill: real

    ghost predicate Valid()
      reads this
    {
      tokensPerMs == Rate(limits) && InRange(limits, Abstract())
    }

    ghost function Abstract(): Bucket
      reads this
    {
      Bucket(tokens, lastFill)
    }

    constructor (maxWeightPerMinute: nat, now: real)
      ensures Valid() && limits == Limits(maxWeightPerMinute)
      ensures Abstract() == Bucket(maxWeightPerMinute as real, now)
    {
      limits := Limits(maxWeightPerMinute);
      tokens := maxWeightPerMinute as real;
      lastFill := now;
      tokensPerMs := maxWeightPerMinute as real / 60000.0;
    }

    method UpdateFromHeaders(used: real)
      requires tokensPerMs == Rate(limits)
      modifies `tokens
      ensures Abstract() == FromHeader(limits, old(Abstract()), used)
    {
      var remaining := Max(limits.capacity as real - used, 0.0);
      tokens := remaining;
    }

    method TryAcquire(now: real, weight: nat) returns (granted: bool)
      requires Valid()
      modifies this
      ensures Valid()
      ensures granted == Grants(limits, old(Abstract()), now, weight)
      ensures Abstract() == Try(limits, old(Abstract()), now, weight)
    {
      LevelInRange(limits, Abstract(), now, weight, 0.0);
      var elapsed := Max(now - lastFill, 0.0);
      var refill := elapsed * tokensPerMs;
      TryMeans(limits, Abstract(), now, weight, refill);
      hide Rate, InRange, Refill, Grants, Try, Max;
      if refill > 0.0 {
        tokens := Min(tokens + refill, limits.capacity as real);
        lastFill := now;
      }
      if tokens >= weight as real {
        tokens := tokens - weight as real;
        return true;
      }
      return false;
    }

    /** A lone waiter whose weight fits the capacity: at most two iterations, the second one
        right after the computed sleep (plus whatever the timer oversleeps). */
    method Wait(weight: nat, first: real, oversleep: nat -> real) returns (attempts: nat, grantedAt: real)
      requires Valid() && lastFill <= first && weight <= limits.capacity
      requires forall n :: oversleep(n) >= 0.0
      modifies this
      ensures Valid() && attempts <= 2
      ensures attempts == 1 <==> Grants(limits, old(Abstract()), first, weight)
      ensures attempts == 1 ==> grantedAt == first
      ensures attempts == 2 ==>
                var left := Refill(limits, old(Abstract()), first).tokens;
                grantedAt == first + SleepMs(limits, left, weight) as real + oversleep(0)
      ensures var b := if attempts == 1 then old(Abstract()) else Refill(limits, old(Abstract()), first);
              Grants(limits, b, grantedAt, weight)
    {
      ghost var start := Abstract();
      var now := first;
      attempts := 0;
      while true
        invariant Valid() && attempts <= 1
        invariant attempts == 0 ==> now == first && Abstract() == start
        invariant attempts == 1 ==> !Grants(limits, start, first, weight) && Abstract() == Refill(limits, start, first)
        invariant attempts == 1 ==> Rate(limits) > 0.0
        invariant attempts == 1 ==> now == first + SleepMs(limits, tokens, weight) as real + oversleep(0)
        decreases 2 - attempts
      {
        if attempts == 1 { SleepIsEnough(limits, start, first, weight, now); }
        var granted := TryAcquire(now, weight);
        attempts := attempts + 1;
        if granted { return attempts, now; }
        var waitMs := SleepMs(limits, tokens, weight);
        now := now + waitMs as real + oversleep(attempts - 1);
      }
    }
  }

  lemma SleepIsEnough(c: Limits, b: Bucket, first: real, weight: nat, second: real)
    requires InRange(c, b) && b.lastFill <= first && weight <= c.capacity && Rate(c) > 0.0
    requires second >= first + SleepMs(c, Refill(c, b, first).tokens, weight) as real
    ensures Grants(c, Refill(c, b, first), second, weight)
  {
    hide Rate, SleepMs, Refill;
    var b1 := Refill(c, b, first);
    var ms := SleepMs(c, b1.tokens, weight) as real;
    RefillFacts(c, b, first);
    RealMulMono(ms, second - first, Rate(c));
    RealMulMono(1.0, second - first, Rate(c));
    RefillAfter(c, b1, second);
  }

  lemma RefillAfter(c: Limits, b: Bucket, now: real)
    requires now >= b.lastFill && (now - b.lastFill) * Rate(c) > 0.0
    ensures Refill(c, b, now).tokens == Min(b.tokens + (now - b.lastFill) * Rate(c), Capacity(c))
  {
    hide Rate;
  }

  lemma RateTimes(c: Limits, x: real)
    requires x >= 0.0
    ensures Refilled(c, x) >= 0.0
  {
    RealMulMono(0.0, x, Rate(c));
  }

  // ----- interleavings

  datatype Event =
    | Attempt(readAt: real, at: real, weight: nat)
    | Header(at: real, used: real)

  function Apply(c: Limits, b: Bucket, e: Event): Bucket {
    match e
    case Attempt(readAt, _, weight) => Try(c, b, readAt, weight)
    case Header(_, used) => FromHeader(c, b, used)
  }

  predicate Within(e: Event, from: real, to: real) { from <= e.at <= to }

  function GrantOf(c: Limits, b: Bucket, e: Event): real {
    if e.Attempt? && Grants(c, b, e.readAt, e.weight) then e.weight as real else 0.0
  }

  function RaiseOf(c: Limits, b: Bucket, e: Event): real {
    if e.Header? then Max(FromHeader(c, b, e.used).tokens - b.tokens, 0.0) else 0.0
  }

  /** What a header adds is exactly the rise of the level. */
  lemma RaiseIsTheRise(c: Limits, b: Bucket, e: Event)
    requires e.Header?
    ensures b.tokens + RaiseOf(c, b, e) == Max(Apply(c, b, e).tokens, b.tokens)
  {
  }

  /** Weight granted while the locks were held in [from, to]. */
  function Granted(c: Limits, b: Bucket, events: seq<Event>, from: real, to: real): real
    decreases events
  {
    if events == [] then 0.0 else
    (if Within(events[0], from, to) then GrantOf(c, b, events[0]) else 0.0)
    + Granted(c, Apply(c, b, events[0]), events[1..], from, to)
  }

  /** Level added by header updates in [from, to]. */
  function Raised(c: Limits, b: Bucket, events: seq<Event>, from: real, to: real): real
    decreases events
  {
    if events == [] then 0.0 else
    (if Within(events[0], from, to) then RaiseOf(c, b, events[0]) else 0.0)
    + Raised(c, Apply(c, b, events[0]), events[1..], from, to)
  }

  /** Lock order is time order; a clock reading is at most `delay` older than its lock. */
  ghost predicate Timed(events: seq<Event>, delay: real) {
    && (forall i, j :: 0 <= i < j < |events| ==> events[i].at <= events[j].at)
    && (forall i :: 0 <= i < |events| && events[i].Attempt? ==>
          events[i].readAt <= events[i].at <= events[i].readAt + delay)
    && (forall i :: 0 <= i < |events| && events[i].Header? ==> events[i].used >= 0.0)
  }

  lemma TimedTail(events: seq<Event>, delay: real)
    requires Timed(events, delay) && events != []
    ensures Timed(events[1..], delay)
    ensures forall i :: 0 <= i < |events[1..]| ==> events[0].at <= events[1..][i].at
  {
    assert forall i :: 0 <= i < |events[1..]| ==> events[1..][i] == events[i + 1];
  }

  /** One event: what is granted comes out of the level, the refill and the raise. */
  lemma EventBalance(c: Limits, b: Bucket, e: Event)
    requires InRange(c, b) && (e.Header? ==> e.used >= 0.0)
    ensures var b' := Apply(c, b, e);
            && InRange(c, b')
            && b'.tokens + GrantOf(c, b, e) <= b.tokens + Refilled(c, b'.lastFill - b.lastFill) + RaiseOf(c, b, e)
            && b.lastFill <= b'.lastFill
            && (e.Attempt? ==> b'.tokens + GrantOf(c, b, e) <= Capacity(c))
            && (e.Attempt? ==> b'.lastFill == b.lastFill || b'.lastFill == e.readAt)
            && (e.Attempt? && Rate(c) > 0.0 ==> e.readAt <= b'.lastFill)
            && GrantOf(c, b, e) >= 0.0 && RaiseOf(c, b, e) >= 0.0
  {
    match e
    case Attempt(readAt, _, weight) =>
      LevelInRange(c, b, readAt, weight, 0.0);
      RefillFacts(c, b, readAt);
      hide Rate, Refill;
    case Header(_, used) =>
      LevelInRange(c, b, 0.0, 0, used);
      hide Rate;
  }

  lemma RefillFacts(c: Limits, b: Bucket, now: real)
    requires InRange(c, b)
    ensures var b' := Refill(c, b, now);
            && InRange(c, b') && b.lastFill <= b'.lastFill
            && b'.tokens <= b.tokens + Refilled(c, b'.lastFill - b.lastFill)
            && (b'.lastFill == b.lastFill || b'.lastFill == now)
            && (Rate(c) > 0.0 ==> now <= b'.lastFill)
  {
    var r := Rate(c);
    hide Rate;
    var d := Max(now - b.lastFill, 0.0);
    assert d * r > 0.0 <==> d > 0.0 && r > 0.0;
    assert Refilled(c, b.lastFill - b.lastFill) == 0.0;
    assert d * r == Refilled(c, d);
  }

  lemma {:induction false} NothingAfter(c: Limits, b: Bucket, events: seq<Event>, from: real, to: real)
    requires forall i :: 0 <= i < |events| ==> events[i].at > to
    ensures Granted(c, b, events, from, to) == 0.0 && Raised(c, b, events, from, to) == 0.0
    decreases events
  {
    if events == [] {
    } else {
      assert forall i :: 0 <= i < |events[1..]| ==> events[1..][i] == events[i + 1];
      NothingAfter(c, Apply(c, b, events[0]), events[1..], from, to);
    }
  }

  lemma GrantedStep(c: Limits, b: Bucket, events: seq<Event>, from: real, to: real)
    requires events != []
    ensures Granted(c, b, events, from, to) ==
            (if Within(events[0], from, to) then GrantOf(c, b, events[0]) else 0.0)
            + Granted(c, Apply(c, b, events[0]), events[1..], from, to)
    ensures Raised(c, b, events, from, to) ==
            (if Within(events[0], from, to) then RaiseOf(c, b, events[0]) else 0.0)
            + Raised(c, Apply(c, b, events[0]), events[1..], from, to)
  {
    hide Apply, GrantOf, RaiseOf;
  }

  /** From a state inside the window: level plus refill plus raises bound what is granted. */
  lemma {:induction false} GrantedFromLevel(c: Limits, b: Bucket, events: seq<Event>, delay: real, from: real, to: real)
    requires InRange(c, b) && Timed(events, delay) && b.lastFill <= to
    requires forall i :: 0 <= i < |events| ==> events[i].at >= from
    ensures Granted(c, b, events, from, to) <= b.tokens + Refilled(c, to - b.lastFill) + Raised(c, b, events, from, to)
    decreases events
  {
    RateTimes(c, to - b.lastFill);
    if events == [] {
    } else {
      var e := events[0];
      var b' := Apply(c, b, e);
      EventBalance(c, b, e);
      TimedTail(events, delay);
      GrantedStep(c, b, events, from, to);
      if e.at > to {
        hide Granted, Raised, Apply, GrantOf, RaiseOf, Refilled;
        NothingAfter(c, b, events, from, to);
      } else {
        hide Granted, Raised, Apply, GrantOf, RaiseOf, Refilled, InRange, Timed;
        AttemptNotAfter(events, delay, to);
        GrantedFromLevel(c, b', events[1..], delay, from, to);
        FlowSplits(c, b.lastFill, b'.lastFill, to);
      }
    }
  }

  lemma AttemptNotAfter(events: seq<Event>, delay: real, to: real)
    requires Timed(events, delay) && events != [] && events[0].at <= to
    ensures events[0].Attempt? ==> events[0].readAt <= to
  {
  }

  lemma FlowSplits(c: Limits, x: real, y: real, z: real)
    ensures Refilled(c, z - x) == Refilled(c, z - y) + Refilled(c, y - x)
  {
    hide Rate;
    assert (z - x) == (z - y) + (y - x);
  }

  /** For every interleaving and every window: what is granted is at most the capacity, plus
      the refill over the window lengthened by the longest delay between reading the clock and
      holding the locks, plus what header updates added. */
  lemma {:induction false} GrantedInWindow(c: Limits, b: Bucket, events: seq<Event>, delay: real, from: real, to: real)
    requires InRange(c, b) && Timed(events, delay) && from <= to && delay >= 0.0
    requires forall i :: 0 <= i < |events| ==> b.lastFill <= events[i].at
    ensures Granted(c, b, events, from, to) <= Capacity(c) + Refilled(c, to - from + delay)
        + Raised(c, b, events, from, to)
    decreases events
  {
    RateTimes(c, to - from + delay);
    if events == [] {
    } else {
      var e := events[0];
      var b' := Apply(c, b, e);
      EventBalance(c, b, e);
      TimedTail(events, delay);
      GrantedStep(c, b, events, from, to);
      if e.Attempt? && Within(e, from, to) {
        FirstAttempt(c, b, events, delay, from, to);
      } else {
        assert e.at >= b'.lastFill;
        hide Granted, Raised, Apply, GrantOf, RaiseOf, Refilled, InRange, Timed;
        GrantedInWindow(c, b', events[1..], delay, from, to);
      }
    }
  }

  lemma FirstAttempt(c: Limits, b: Bucket, events: seq<Event>, delay: real, from: real, to: real)
    requires InRange(c, b) && Timed(events, delay) && from <= to && delay >= 0.0
    requires events != [] && events[0].Attempt? && Within(events[0], from, to) && b.lastFill <= events[0].at
    ensures Granted(c, b, events, from, to) <= Capacity(c) + Refilled(c, to - from + delay)
        + Raised(c, b, events, from, to)
  {
    var e := events[0];
    var b' := Apply(c, b, e);
    EventBalance(c, b, e);
    TimedTail(events, delay);
    assert e.readAt + delay >= e.at >= e.readAt;
    GrantedStep(c, b, events, from, to);
    hide Granted, Raised, Apply, GrantOf, RaiseOf, Refilled, InRange, Timed;
    GrantedFromLevel(c, b', events[1..], delay, from, to);
    LateEnough(c, to - b'.lastFill, to - from + delay);
  }

  lemma LateEnough(c: Limits, x: real, y: real)
    requires Rate(c) > 0.0 ==> x <= y
    ensures Refilled(c, x) <= Refilled(c, y)
  {
    var r := Rate(c);
    hide Rate;
    if r > 0.0 { RealMulMono(x, y, r); }
  }

  // ----- when the plain bound holds

  function Full(c: Limits): Bucket { Bucket(Capacity(c), 0.0) }

  /** Every header update lowers the level, or leaves it. */
  ghost predicate OnlyLowering(c: Limits, b: Bucket, events: seq<Event>)
    decreases events
  {
    events == [] || (RaiseOf(c, b, events[0]) == 0.0 && OnlyLowering(c, Apply(c, b, events[0]), events[1..]))
  }

  lemma {:induction false} NothingRaised(c: Limits, b: Bucket, events: seq<Event>, from: real, to: real)
    requires OnlyLowering(c, b, events)
    ensures Raised(c, b, events, from, to) == 0.0
    decreases events
  {
    if events == [] {
    } else {
      NothingRaised(c, Apply(c, b, events[0]), events[1..], from, to);
    }
  }

  /** The bound one would like: capacity plus rate times length, for every window of every run. */
  ghost predicate PlainBound(c: Limits, delay: real) {
    forall events: seq<Event>, from: real, to: real ::
      from <= to && Timed(events, delay) && OnlyLowering(c, Full(c), events)
      && (forall i :: 0 <= i < |events| ==> 0.0 <= events[i].at)
      ==> Granted(c, Full(c), events, from, to) <= Capacity(c) + Refilled(c, to - from)
  }

  /** It holds exactly when the clock is read under the locks: with any delay at all, a waiter
      that read the clock early and one that read it late can together exceed it. */
  lemma PlainBoundIff(c: Limits, delay: real)
    requires delay >= 0.0 && c.capacity >= 1
    ensures PlainBound(c, delay) <==> delay == 0.0
  {
    if delay == 0.0 {
      hide *;
      PlainBoundWithoutDelay(c);
    } else {
      var gap := ExcessGap(c, delay);
      var events := ExcessRun(c, delay, gap);
      hide *;
      ExcessTimed(c, delay, gap);
      GapRefillsOne(c, delay);
      ExcessGrants(c, delay, gap);
      assert (delay + gap) - delay == gap;
      BoundFails(c, delay, events, delay, delay + gap);
    }
  }

  lemma PlainBoundWithoutDelay(c: Limits)
    ensures PlainBound(c, 0.0)
  {
    hide Timed, OnlyLowering, Granted, Refilled;
    forall events: seq<Event>, from: real, to: real |
      from <= to && Timed(events, 0.0) && OnlyLowering(c, Full(c), events)
      && (forall i :: 0 <= i < |events| ==> 0.0 <= events[i].at)
      ensures Granted(c, Full(c), events, from, to) <= Capacity(c) + Refilled(c, to - from)
    {
      GrantedInWindow(c, Full(c), events, 0.0, from, to);
      NothingRaised(c, Full(c), events, from, to);
    }
  }

  lemma BoundFails(c: Limits, delay: real, events: seq<Event>, from: real, to: real)
    requires from <= to && Timed(events, delay) && OnlyLowering(c, Full(c), events)
    requires forall i :: 0 <= i < |events| ==> 0.0 <= events[i].at
    requires Granted(c, Full(c), events, from, to) > Capacity(c) + Refilled(c, to - from)
    ensures !PlainBound(c, delay)
  {
    hide Timed, OnlyLowering, Granted, Refilled;
  }

  /** Time still needed, after `delay`, for one unit to be refilled. */
  function ExcessGap(c: Limits, delay: real): (gap: real)
    requires delay > 0.0 && c.capacity >= 1
    ensures gap >= 0.0
  {
    var unit := 60000.0 / c.capacity as real;
    if unit > delay then unit - delay else 0.0
  }

  lemma GapRefillsOne(c: Limits, delay: real)
    requires delay > 0.0 && c.capacity >= 1
    ensures Refilled(c, ExcessGap(c, delay)) < 1.0
    ensures Refilled(c, delay + ExcessGap(c, delay)) >= 1.0
  {
    var unit := 60000.0 / c.capacity as real;
    var r := Rate(c);
    assert r * unit == 1.0;
    hide Rate;
    FlowSplits(c, 0.0, delay, unit);
    assert Refilled(c, unit - 0.0) == 1.0;
    RealMulPositive(r, delay);
    if unit <= delay { RealMulMono(unit, delay, r); }
  }

  lemma RealMulPositive(x: real, y: real)
    requires x > 0.0 && y > 0.0
    ensures x * y > 0.0
  {
  }

  function ExcessRun(c: Limits, delay: real, gap: real): seq<Event> {
    [Attempt(0.0, delay, c.capacity), Attempt(delay + gap, delay + gap, 1)]
  }

  lemma ExcessTimed(c: Limits, delay: real, gap: real)
    requires delay > 0.0 && gap >= 0.0
    ensures Timed(ExcessRun(c, delay, gap), delay) && OnlyLowering(c, Full(c), ExcessRun(c, delay, gap))
    ensures forall i :: 0 <= i < |ExcessRun(c, delay, gap)| ==> 0.0 <= ExcessRun(c, delay, gap)[i].at
  {
    var events := ExcessRun(c, delay, gap);
    var b1 := Apply(c, Full(c), events[0]);
    hide Apply;
    assert events[1..][1..] == [];
    assert OnlyLowering(c, b1, events[1..]);
  }

  lemma ExcessGrants(c: Limits, delay: real, gap: real)
    requires delay > 0.0 && gap >= 0.0 && c.capacity >= 1
    requires Refilled(c, delay + gap) >= 1.0
    ensures Granted(c, Full(c), ExcessRun(c, delay, gap), delay, delay + gap) == Capacity(c) + 1.0
  {
    var events := ExcessRun(c, delay, gap);
    var b1 := Apply(c, Full(c), events[0]);
    FirstWaiterTakesAll(c, delay);
    SecondWaiterTakesOne(c, delay + gap);
    hide Apply, GrantOf, Rate;
    assert events[1..] == [events[1]] && events[1..][1..] == [];
    assert Granted(c, b1, events[1..], delay, delay + gap) == 1.0;
  }

  lemma FirstWaiterTakesAll(c: Limits, at: real)
    ensures Apply(c, Full(c), Attempt(0.0, at, c.capacity)) == Bucket(0.0, 0.0)
    ensures GrantOf(c, Full(c), Attempt(0.0, at, c.capacity)) == Capacity(c)
  {
  }

  lemma SecondWaiterTakesOne(c: Limits, at: real)
    requires c.capacity >= 1 && at > 0.0 && Refilled(c, at) >= 1.0
    ensures GrantOf(c, Bucket(0.0, 0.0), Attempt(at, at, 1)) == 1.0
  {
    hide Rate;
    assert Max(at - 0.0, 0.0) == at;
    assert at * Rate(c) == Refilled(c, at);
  }

  /** What attempts ask for together. */
  function Asked(events: seq<Event>): nat {
    if events == [] then 0 else (if events[0].Attempt? then events[0].weight else 0) + Asked(events[1..])
  }

  /** Attempts that the level covers together are all granted, in any order, at any times, and without
      a sleep. */
  lemma {:induction false} CoveredAttemptsAllGranted(c: Limits, b: Bucket, events: seq<Event>, n: nat)
    requires InRange(c, b) && n < |events| && forall i :: 0 <= i < |events| ==> events[i].Attempt?
    requires Asked(events) as real <= b.tokens
    ensures Grants(c, After(c, b, events[..n]), events[n].readAt, events[n].weight)
    decreases n
  {
    AttemptBalances(c, b, events[0].readAt, events[0].weight);
    LevelAtLeast(c, b, events[0].readAt);
    AskedAtLeastFirst(events);
    if n == 0 {
      assert events[..0] == [];
    } else {
      var e := events[0];
      LevelInRange(c, b, e.readAt, e.weight, 0.0);
      assert Apply(c, b, e) == Try(c, b, e.readAt, e.weight);
      hide Grants, Try, Level, InRange, Rate;
      CoveredAttemptsAllGranted(c, Apply(c, b, e), events[1..], n - 1);
      assert events[..n][1..] == events[1..][..n - 1] && events[..n][0] == e;
      assert events[1..][n - 1] == events[n];
    }
  }

  lemma AskedAtLeastFirst(events: seq<Event>)
    requires events != [] && events[0].Attempt?
    ensures Asked(events) == events[0].weight + Asked(events[1..])
  {
  }

  lemma LevelAtLeast(c: Limits, b: Bucket, now: real)
    requires InRange(c, b)
    ensures Level(c, b, now) >= b.tokens
  {
    RateTimes(c, Max(now - b.lastFill, 0.0));
    hide Rate;
  }

  /** From a full bucket that is every list of attempts up to the capacity. */
  lemma FullBucketGrantsCapacity(c: Limits, events: seq<Event>, n: nat)
    requires n < |events| && forall i :: 0 <= i < |events| ==> events[i].Attempt?
    requires Asked(events) <= c.capacity
    ensures Grants(c, After(c, Full(c), events[..n]), events[n].readAt, events[n].weight)
  {
    CoveredAttemptsAllGranted(c, Full(c), events, n);
  }

  /** A weight above the capacity is never granted, in any run. */
  lemma {:induction false} OversizedNeverGranted(c: Limits, b: Bucket, events: seq<Event>, n: nat)
    requires InRange(c, b) && n < |events| && events[n].Attempt? && events[n].weight > c.capacity
    requires forall i :: 0 <= i < |events| && events[i].Header? ==> events[i].used >= 0.0
    ensures GrantOf(c, After(c, b, events[..n]), events[n]) == 0.0
    decreases n
  {
    AfterInRange(c, b, events[..n]);
    RefillFacts(c, After(c, b, events[..n]), events[n].readAt);
    hide After, Rate, Refill;
  }

  function After(c: Limits, b: Bucket, events: seq<Event>): Bucket
    decreases events
  {
    if events == [] then b else After(c, Apply(c, b, events[0]), events[1..])
  }

  lemma {:induction false} AfterInRange(c: Limits, b: Bucket, events: seq<Event>)
    requires InRange(c, b) && forall i :: 0 <= i < |events| && events[i].Header? ==> events[i].used >= 0.0
    ensures InRange(c, After(c, b, events))
    decreases events
  {
    if events == [] {
    } else {
      EventBalance(c, b, events[0]);
      AfterInRange(c, Apply(c, b, events[0]), events[1..]);
    }
  }
}
