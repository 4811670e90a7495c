/** The circuit breaker and the replay filter of executor/src/recovery.rs.  Times are reals,
    every clock reading is a parameter, and the clock is monotone. */
module Recovery {
  import opened Common

  datatype BreakerConfig = BreakerConfig(failureThreshold: nat, windowSeconds: real, cooldownSeconds: real)

  // ----- the reference: full history since the last reset, nothing pruned

  datatype Breaker = Breaker(history: seq<real>, trippedAt: Option<real>)

  const CLOSED := Breaker([], None)

  /** The entries of `times` later than `cutoff`, in order. */
  function Later(times: seq<real>, cutoff: real): seq<real> {
    if times == [] then [] else
    (if times[0] > cutoff then [times[0]] else []) + Later(times[1..], cutoff)
  }

  predicate Sorted(times: seq<real>) { forall i, j :: 0 <= i < j < |times| ==> times[i] <= times[j] }

  predicate UpTo(times: seq<real>, now: real) { forall i :: 0 <= i < |times| ==> times[i] <= now }

  /** Failures since the last reset that lie in (now - window, now]. */
  function Recent(c: BreakerConfig, b: Breaker, now: real): nat { |Later(b.history, now - c.windowSeconds)| }

  function Failure(c: BreakerConfig, b: Breaker, now: real): Breaker {
    var b' := b.(history := b.history + [now]);
    if b.trippedAt.None? && Recent(c, b', now) >= c.failureThreshold then b'.(trippedAt := Some(now)) else b'
  }

  predicate Cooled(c: BreakerConfig, b: Breaker, now: real) {
    b.trippedAt.Some? && now - b.trippedAt.value > c.cooldownSeconds
  }

  function Query(c: BreakerConfig, b: Breaker, now: real): Breaker { if Cooled(c, b, now) then CLOSED else b }

  predicate Open(c: BreakerConfig, b: Breaker, now: real) { b.trippedAt.Some? && !Cooled(c, b, now) }

  // ----- the pruned deque

  /** `deque` is `history` less what was outside the window when last pruned. */
  ghost predicate Pruned(history: seq<real>, deque: seq<real>, prunedAt: real, window: real) {
    Sorted(history) && UpTo(history, prunedAt) && deque == Later(history, prunedAt - window)
  }

  class CircuitBreaker {
    const config: BreakerConfig
    var failures: seq<real>
    var trippedAt: Option<real>
    ghost var history: seq<real>
    ghost var prunedAt: real

    ghost predicate Valid()
      reads this
    {
      Pruned(history, failures, prunedAt, config.windowSeconds)
    }

    ghost function Abstract(): Breaker
      reads this
    {
      Breaker(history, trippedAt)
    }

    constructor (config: BreakerConfig, ghost now: real)
      ensures Valid() && Abstract() == CLOSED && prunedAt == now && this.config == config
    {
      this.config := config;
      failures, trippedAt, history, prunedAt := [], None, [], now;
    }

    method CleanupOldFailures(now: real)
      requires Sorted(failures)
      modifies `failures
      ensures failures == Later(old(failures), now - config.windowSeconds)
    {
      var cutoff := now - config.windowSeconds;
      while failures != [] && failures[0] <= cutoff
        invariant Sorted(failures)
        invariant Later(failures, cutoff) == Later(old(failures), cutoff)
        decreases |failures|
      {
        failures := failures[1..];
      }
      LaterKeepsAll(failures, cutoff);
    }

    method RecordFailure(now: real)
      requires Valid() && prunedAt <= now
      modifies this
      ensures Valid() && prunedAt == now
      ensures Abstract() == Failure(config, old(Abstract()), now)
    {
      PrunedStep(history, failures, prunedAt, config.windowSeconds, now);
      FailureIs(config, Abstract(), now);
      hide Pruned, Later, Sorted, Recent, Failure;
      history := history + [now];
      prunedAt := now;
      failures := failures + [now];
      CleanupOldFailures(now);
      if |failures| >= config.failureThreshold {
        Trip(now);
      }
    }

    method Trip(now: real)
      modifies `trippedAt
      ensures trippedAt == if old(trippedAt).None? then Some(now) else old(trippedAt)
    {
      if trippedAt.None? { trippedAt := Some(now); }
    }

    method IsOpen(now: real) returns (open: bool)
      requires Valid()
      modifies this
      ensures Valid() && prunedAt == old(prunedAt)
      ensures open == Open(config, old(Abstract()), now)
      ensures Abstract() == Query(config, old(Abstract()), now)
    {
      if trippedAt.Some? {
        if now - trippedAt.value > config.cooldownSeconds {
          Reset();
          return false;
        }
        return true;
      }
      return false;
    }

    method Reset()
      modifies `failures, `trippedAt, `history
      ensures failures == [] && trippedAt == None && history == []
    {
      trippedAt := None;
      failures := [];
      history := [];
    }
  }

  lemma FailureIs(c: BreakerConfig, b: Breaker, now: real)
    ensures var h := b.history + [now];
            var trips := b.trippedAt.None? && |Later(h, now - c.windowSeconds)| >= c.failureThreshold;
            Failure(c, b, now) == Breaker(h, if trips then Some(now) else b.trippedAt)
  {
    hide Later;
  }

  lemma LaterStep(a: seq<real>, cutoff: real)
    requires a != []
    ensures Later(a, cutoff) == (if a[0] > cutoff then [a[0]] else []) + Later(a[1..], cutoff)
  {
  }

  lemma Associates(a: seq<real>, b: seq<real>, c: seq<real>)
    ensures (a + b) + c == a + (b + c)
  {
  }

  lemma {:induction false} LaterAppend(a: seq<real>, b: seq<real>, cutoff: real)
    ensures Later(a + b, cutoff) == Later(a, cutoff) + Later(b, cutoff)
    decreases a
  {
    if a == [] {
      assert a + b == b;
      assert [] + Later(b, cutoff) == Later(b, cutoff);
    } else {
      hide *;
      LaterAppend(a[1..], b, cutoff);
      assert (a + b)[1..] == a[1..] + b && (a + b)[0] == a[0];
      LaterStep(a, cutoff);
      LaterStep(a + b, cutoff);
      Associates(if a[0] > cutoff then [a[0]] else [], Later(a[1..], cutoff), Later(b, cutoff));
    }
  }

  lemma {:induction false} LaterTwice(a: seq<real>, c1: real, c2: real)
    requires c1 <= c2
    ensures Later(Later(a, c1), c2) == Later(a, c2)
    decreases a
  {
    if a == [] {
    } else {
      LaterTwice(a[1..], c1, c2);
      if a[0] > c1 {
        LaterAppend([a[0]], Later(a[1..], c1), c2);
        assert [a[0]][1..] == [];
      } else {
        assert Later(a, c1) == Later(a[1..], c1);
      }
    }
  }

  lemma {:induction false} LaterKeepsAll(a: seq<real>, cutoff: real)
    requires Sorted(a) && (a == [] || a[0] > cutoff)
    ensures Later(a, cutoff) == a
    decreases a
  {
    if |a| > 1 { assert a[1..][0] == a[1]; }
    if a == [] {
    } else {
      LaterKeepsAll(a[1..], cutoff);
    }
  }

  lemma {:induction false} LaterMembers(a: seq<real>, cutoff: real)
    ensures forall x :: x in Later(a, cutoff) <==> x in a && x > cutoff
    decreases a
  {
    if a == [] {
    } else {
      LaterMembers(a[1..], cutoff);
      assert forall x :: x in a <==> x == a[0] || x in a[1..];
    }
  }

  lemma {:induction false} LaterSorted(a: seq<real>, cutoff: real, now: real)
    requires Sorted(a) && UpTo(a, now)
    ensures Sorted(Later(a, cutoff)) && UpTo(Later(a, cutoff), now)
    decreases a
  {
    if a == [] {
    } else {
      SortedTail(a, now);
      LaterSorted(a[1..], cutoff, now);
      LaterMembers(a[1..], cutoff);
      var rest := Later(a[1..], cutoff);
      assert Later(a, cutoff) == (if a[0] > cutoff then [a[0]] else []) + rest;
      assert [] + rest == rest;
      hide *;
      assert forall i :: 0 <= i < |rest| ==> rest[i] in rest;
      SortedPrepend(a[0], rest, now);
    }
  }

  lemma SortedTail(a: seq<real>, now: real)
    requires a != [] && Sorted(a) && UpTo(a, now)
    ensures Sorted(a[1..]) && UpTo(a[1..], now) && a[0] <= now
    ensures forall x :: x in a[1..] ==> a[0] <= x
  {
  }

  lemma SortedPrepend(x: real, a: seq<real>, now: real)
    requires Sorted(a) && UpTo(a, now) && x <= now && forall i :: 0 <= i < |a| ==> x <= a[i]
    ensures Sorted([x] + a) && UpTo([x] + a, now)
  {
  }

  lemma SortedAppend(a: seq<real>, now: real)
    requires Sorted(a) && UpTo(a, now)
    ensures Sorted(a + [now]) && UpTo(a + [now], now)
  {
  }

  /** What earlier pruning removed is outside every later window. */
  lemma PruningLosesNothing(history: seq<real>, prunedAt: real, window: real, now: real)
    requires Sorted(history) && UpTo(history, prunedAt) && prunedAt <= now
    ensures Sorted(history + [now]) && UpTo(history + [now], now)
    ensures var deque := Later(history, prunedAt - window) + [now];
            Sorted(deque) && Later(deque, now - window) == Later(history + [now], now - window)
  {
    LaterSorted(history, prunedAt - window, prunedAt);
    SortedAppend(history, now);
    SortedAppend(Later(history, prunedAt - window), now);
    LaterAppend(history, [now], now - window);
    LaterAppend(Later(history, prunedAt - window), [now], now - window);
    LaterTwice(history, prunedAt - window, now - window);
  }

  lemma PrunedStep(history: seq<real>, deque: seq<real>, prunedAt: real, window: real, now: real)
    requires Pruned(history, deque, prunedAt, window) && prunedAt <= now
    ensures Sorted(deque + [now])
    ensures Later(deque + [now], now - window) == Later(history + [now], now - window)
    ensures Pruned(history + [now], Later(deque + [now], now - window), now, window)
  {
    PruningLosesNothing(history, prunedAt, window, now);
    hide Later, Sorted, UpTo;
  }

  // ----- what the reference says

  /** Tripping, counted on the full history: an untripped breaker trips at `now` exactly
      when the window ending at `now` holds the threshold of failures, this one included. */
  lemma TripsIff(c: BreakerConfig, b: Breaker, now: real)
    requires b.trippedAt.None? && Sorted(b.history) && UpTo(b.history, now)
    ensures Failure(c, b, now).trippedAt.Some? <==>
            CountWithin(b.history + [now], now - c.windowSeconds, now) >= c.failureThreshold
    ensures Failure(c, b, now).trippedAt.Some? ==> Failure(c, b, now).trippedAt.value == now
  {
    var h := b.history + [now];
    LaterCounts(h, now - c.windowSeconds, now);
  }

  /** How many entries lie in the half-open interval (from, to]. */
  function CountWithin(times: seq<real>, from: real, to: real): nat {
    if times == [] then 0 else (if from < times[0] <= to then 1 else 0) + CountWithin(times[1..], from, to)
  }

  lemma {:induction false} LaterCounts(times: seq<real>, from: real, to: real)
    requires UpTo(times, to)
    ensures |Later(times, from)| == CountWithin(times, from, to)
    decreases times
  {
    if times == [] {
    } else {
      LaterCounts(times[1..], from, to);
    }
  }

  datatype Event = Fail(at: real) | Ask(at: real)

  function Apply(c: BreakerConfig, b: Breaker, e: Event): Breaker {
    match e
    case Fail(at) => Failure(c, b, at)
    case Ask(at) => Query(c, b, at)
  }

  function Run(c: BreakerConfig, b: Breaker, events: seq<Event>): Breaker
    decreases events
  {
    if events == [] then b else Run(c, Apply(c, b, events[0]), events[1..])
  }

  /** The answers given to the queries of a run. */
  function Answers(c: BreakerConfig, b: Breaker, events: seq<Event>): seq<bool>
    decreases events
  {
    if events == [] then [] else
    (if events[0].Ask? then [Open(c, b, events[0].at)] else []) + Answers(c, Apply(c, b, events[0]), events[1..])
  }

  lemma {:induction false} RunAppend(c: BreakerConfig, b: Breaker, events: seq<Event>)
    requires events != []
    ensures Run(c, b, events) == Apply(c, Run(c, b, events[..|events| - 1]), events[|events| - 1])
    decreases events
  {
    if |events| == 1 {
      assert events[1..] == [] && events[..0] == [];
    } else {
      hide Apply;
      var rest := events[1..];
      RunAppend(c, Apply(c, b, events[0]), rest);
      assert events[..|events| - 1][1..] == rest[..|rest| - 1] && events[..|events| - 1][0] == events[0];
    }
  }

  /** Event k of a run from the closed state is a failure at which an untripped breaker's window
      holds the threshold. */
  ghost predicate TripsAt(c: BreakerConfig, events: seq<Event>, k: nat)
    requires k < |events|
  {
    var before := Run(c, CLOSED, events[..k]);
    && events[k].Fail? && before.trippedAt.None?
    && |Later(before.history + [events[k].at], events[k].at - c.windowSeconds)| >= c.failureThreshold
  }

  /** No query since event k lies past its cooldown. */
  predicate NotCooled(c: BreakerConfig, events: seq<Event>, k: nat)
    requires k < |events|
  {
    forall j :: k < j < |events| && events[j].Ask? ==> events[j].at <= events[k].at + c.cooldownSeconds
  }

  ghost predicate HeldBy(c: BreakerConfig, events: seq<Event>, k: nat) {
    k < |events| && TripsAt(c, events, k) && NotCooled(c, events, k)
  }

  lemma HeldByEarlier(c: BreakerConfig, events: seq<Event>, k: nat)
    requires k + 1 < |events|
    ensures var last := events[|events| - 1];
            HeldBy(c, events, k) <==>
            HeldBy(c, events[..|events| - 1], k) && (last.Ask? ==> last.at <= events[k].at + c.cooldownSeconds)
  {
    var init := events[..|events| - 1];
    assert init[..k] == events[..k] && init[k] == events[k];
    hide TripsAt, Run, Later;
    assert TripsAt(c, events, k) <==> TripsAt(c, init, k) by { hide *; TripsAtPrefix(c, events, k); }
    assert forall j :: 0 <= j < |init| ==> init[j] == events[j];
  }

  lemma TripsAtPrefix(c: BreakerConfig, events: seq<Event>, k: nat)
    requires k + 1 < |events|
    ensures TripsAt(c, events, k) <==> TripsAt(c, events[..|events| - 1], k)
  {
    assert events[..|events| - 1][..k] == events[..k];
  }

  /** The breaker is tripped at t exactly when some failure at t tripped it and no query since lay
      past the cooldown. */
  lemma {:induction false} TrippedIff(c: BreakerConfig, events: seq<Event>)
    ensures forall k: nat :: HeldBy(c, events, k) ==> Run(c, CLOSED, events).trippedAt == Some(events[k].at)
    ensures Run(c, CLOSED, events).trippedAt.Some? ==> exists k: nat :: HeldBy(c, events, k)
    decreases events
  {
    if events == [] {
    } else {
      var init, last := events[..|events| - 1], events[|events| - 1];
      TrippedIff(c, init);
      RunAppend(c, CLOSED, events);
      var before := Run(c, CLOSED, init);
      LastTrips(c, events);
      hide Run, Later, TripsAt, NotCooled;
      forall k: nat | HeldBy(c, events, k)
        ensures Run(c, CLOSED, events).trippedAt == Some(events[k].at)
      {
        HeldInRange(c, events, k);
        if k + 1 < |events| {
          HeldByEarlier(c, events, k);
          assert init[k] == events[k];
        }
      }
      if Run(c, CLOSED, events).trippedAt.Some? && before.trippedAt.Some? && !HeldBy(c, events, |init|) {
        var k: nat :| HeldBy(c, init, k);
        HeldInRange(c, init, k);
        HeldByEarlier(c, events, k);
        assert init[k] == events[k];
      }
    }
  }

  lemma HeldInRange(c: BreakerConfig, events: seq<Event>, k: nat)
    ensures HeldBy(c, events, k) ==> k < |events|
  {
  }

  lemma LastTrips(c: BreakerConfig, events: seq<Event>)
    requires events != []
    ensures var n := |events| - 1; var before := Run(c, CLOSED, events[..n]);
            HeldBy(c, events, n) <==>
            events[n].Fail? && before.trippedAt.None? && Failure(c, before, events[n].at).trippedAt.Some?
  {
    hide Later, Run;
  }

  /** In every run from the closed state a query answers "open" exactly when some failure tripped the
      breaker, no query since lay past its cooldown, and this one does not either. */
  lemma OpenIff(c: BreakerConfig, events: seq<Event>, now: real)
    ensures Open(c, Run(c, CLOSED, events), now) <==>
            exists k: nat :: HeldBy(c, events, k) && now <= events[k].at + c.cooldownSeconds
  {
    TrippedIff(c, events);
    hide Run, TripsAt, NotCooled;
    if Open(c, Run(c, CLOSED, events), now) {
      var k: nat :| HeldBy(c, events, k);
      HeldInRange(c, events, k);
      assert now <= events[k].at + c.cooldownSeconds;
    }
    if k: nat :| HeldBy(c, events, k) && now <= events[k].at + c.cooldownSeconds {
      assert Run(c, CLOSED, events).trippedAt == Some(events[k].at);
    }
  }

  /** Once tripped at t, every query up to t + cooldown is answered "open", whatever failures
      come in between; the first later query is answered "closed" and clears all state. */
  lemma {:induction false} StaysOpenThroughCooldown(c: BreakerConfig, b: Breaker, events: seq<Event>, after: real)
    requires b.trippedAt.Some?
    requires forall i :: 0 <= i < |events| && events[i].Ask? ==> events[i].at <= b.trippedAt.value + c.cooldownSeconds
    requires after > b.trippedAt.value + c.cooldownSeconds
    ensures forall i :: 0 <= i < |Answers(c, b, events)| ==> Answers(c, b, events)[i]
    ensures Run(c, b, events).trippedAt == b.trippedAt
    ensures !Open(c, Run(c, b, events), after) && Query(c, Run(c, b, events), after) == CLOSED
    decreases events
  {
    if events == [] {
    } else {
      assert events[0].Ask? ==> !Cooled(c, b, events[0].at);
      assert Apply(c, b, events[0]).trippedAt == b.trippedAt;
      forall i | 0 <= i < |events[1..]| && events[1..][i].Ask?
        ensures events[1..][i].at <= b.trippedAt.value + c.cooldownSeconds
      {
        assert events[1..][i] == events[i + 1];
      }
      StaysOpenThroughCooldown(c, Apply(c, b, events[0]), events[1..], after);
    }
  }

  /** A tripped breaker recorded its trip at a failure at which the window ending there held
      the threshold of failures. */
  ghost predicate Justified(c: BreakerConfig, b: Breaker) {
    b.trippedAt.Some? ==>
      exists n :: 0 < n <= |b.history| && b.history[n - 1] == b.trippedAt.value &&
        |Later(b.history[..n], b.trippedAt.value - c.windowSeconds)| >= c.failureThreshold
  }

  lemma FailureJustified(c: BreakerConfig, b: Breaker, now: real)
    requires Justified(c, b)
    ensures Justified(c, Failure(c, b, now))
  {
    var b' := Failure(c, b, now);
    if b.trippedAt.Some? {
      var n :| 0 < n <= |b.history| && b.history[n - 1] == b.trippedAt.value &&
        |Later(b.history[..n], b.trippedAt.value - c.windowSeconds)| >= c.failureThreshold;
      assert b'.history[..n] == b.history[..n];
    } else if b'.trippedAt.Some? {
      assert b'.history[..|b'.history|] == b'.history;
    }
  }

  lemma {:induction false} NeverOpenWithoutCause(c: BreakerConfig, b: Breaker, events: seq<Event>)
    requires Justified(c, b)
    ensures Justified(c, Run(c, b, events))
    decreases events
  {
    if events == [] {
    } else {
      if events[0].Fail? { FailureJustified(c, b, events[0].at); }
      NeverOpenWithoutCause(c, Apply(c, b, events[0]), events[1..]);
    }
  }

  // ----- replay protection

  /** The reference keeps the last completion time of every id for ever. */
  predicate Duplicate(marked: map<string, real>, ttl: real, id: string, now: real) {
    id in marked && marked[id] > now - ttl
  }

  class ReplayProtection {
    const ttlSeconds: real
    var executed: map<string, real>
    ghost var marked: map<string, real>
    ghost var clock: real

    ghost predicate Valid()
      reads this
    {
      && (forall id :: id in marked ==> marked[id] <= clock)
      && (forall id :: id in executed ==> id in marked && executed[id] == marked[id])
      && (forall id :: id in marked && id !in executed ==> marked[id] <= clock - ttlSeconds)
    }

    constructor (ttlSeconds: real, ghost now: real)
      ensures Valid() && marked == map[] && clock == now && this.ttlSeconds == ttlSeconds
    {
      this.ttlSeconds := ttlSeconds;
      executed, marked, clock := map[], map[], now;
    }

    /** Pruning expired entries never changes an answer. */
    method IsDuplicate(id: string, now: real) returns (duplicate: bool)
      requires Valid() && clock <= now
      modifies this
      ensures Valid() && clock == now && marked == old(marked)
      ensures duplicate == Duplicate(old(marked), ttlSeconds, id, now)
    {
      Cleanup(now);
      clock := now;
      duplicate := id in executed;
    }

    method MarkExecuted(id: string, now: real)
      requires Valid() && clock <= now
      modifies this
      ensures Valid() && clock == now && marked == old(marked)[id := now]
    {
      executed := executed[id := now];
      marked := marked[id := now];
      clock := now;
    }

    method Cleanup(now: real)
      modifies `executed
      ensures executed == map id | id in old(executed) && old(executed)[id] > now - ttlSeconds :: old(executed)[id]
    {
      var cutoff := now - ttlSeconds;
      executed := map id | id in executed && executed[id] > cutoff :: executed[id];
    }
  }
}
