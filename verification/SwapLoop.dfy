/** The tick-walking loop of `UniswapV3Pool::get_amount_out` (pricing/src/amm.rs). */
module SwapLoop {
  import opened Common
  import opened ConstantProduct
  import opened ConcentratedLiquidity

  datatype SwapState = SwapState(remaining: int, calculated: int, sqrtPrice: nat, tick: int, liquidity: nat)

  function Bound(zeroForOne: bool): int { if zeroForOne then MIN_TICK else MAX_TICK }

  /** Initialized ticks still ahead of the price in the direction of the swap. */
  function Ahead(ticks: map<int, int>, current: int, zeroForOne: bool): set<int> {
    set t | t in ticks && (if zeroForOne then t <= current else t > current)
  }

  ghost predicate Nearest(ahead: set<int>, t: int, zeroForOne: bool) {
    t in ahead && forall u :: u in ahead ==> if zeroForOne then u <= t else t <= u
  }

  lemma HasElement(s: set<int>)
    ensures s == {} || exists t :: t in s
  {
    if forall t :: t !in s { assert s == {}; }
  }

  lemma {:induction false} NearestExists(ahead: set<int>, zeroForOne: bool)
    requires ahead != {}
    ensures exists t :: Nearest(ahead, t, zeroForOne)
    decreases |ahead|
  {
    HasElement(ahead);
    var t :| t in ahead;
    if ahead == {t} {
      assert Nearest(ahead, t, zeroForOne);
    } else {
      NearestExists(ahead - {t}, zeroForOne);
      var u :| Nearest(ahead - {t}, u, zeroForOne);
      var best := if (if zeroForOne then u > t else u < t) then u else t;
      assert forall v :: v in ahead ==> v == t || v in ahead - {t};
      assert Nearest(ahead, best, zeroForOne);
    }
  }

  /** The next tick and whether it is initialized. */
  ghost function NextTick(ticks: map<int, int>, current: int, zeroForOne: bool): (r: (int, bool))
    ensures r.1 <==> Ahead(ticks, current, zeroForOne) != {}
    ensures r.1 ==> r.0 in ticks && Nearest(Ahead(ticks, current, zeroForOne), r.0, zeroForOne)
    ensures !r.1 ==> r.0 == Bound(zeroForOne) == if zeroForOne then -887272 else 887272
  {
    var ahead := Ahead(ticks, current, zeroForOne);
    if ahead == {} then (Bound(zeroForOne), false) else
    NearestExists(ahead, zeroForOne);
    var t :| Nearest(ahead, t, zeroForOne);
    (t, true)
  }

  lemma NextTickUnique(ticks: map<int, int>, current: int, zeroForOne: bool, next: int)
    requires Nearest(Ahead(ticks, current, zeroForOne), next, zeroForOne)
    ensures NextTick(ticks, current, zeroForOne) == (next, true)
  {
    var t := NextTick(ticks, current, zeroForOne).0;
    assert t in Ahead(ticks, current, zeroForOne);
  }

  lemma MoveOver(all: set<int>, seen: set<int>, rest: set<int>, t: int)
    requires t in rest && seen + rest == all && seen !! rest
    ensures (seen + {t}) + (rest - {t}) == all && (seen + {t}) !! (rest - {t}) && |rest - {t}| < |rest|
  {
  }

  lemma NothingAhead(ticks: map<int, int>, current: int, zeroForOne: bool)
    ensures Ahead(ticks, current, zeroForOne) == {} ==>
        NextTick(ticks, current, zeroForOne) == (Bound(zeroForOne), false)
  {
  }

  lemma NearestSingleton(t: int, zeroForOne: bool)
    ensures Nearest({t}, t, zeroForOne)
  {
  }

  lemma NearestExtends(seen: set<int>, t: int, best: int, zeroForOne: bool)
    requires Nearest(seen, best, zeroForOne)
    ensures Nearest(seen + {t}, if (if zeroForOne then t > best else t < best) then t else best, zeroForOne)
  {
  }

  /** `get_next_tick`: the sorted scan keeps the nearest tick ahead. */
  method GetNextTick(ticks: map<int, int>, current: int, zeroForOne: bool) returns (next: int, initialized: bool)
    ensures (next, initialized) == NextTick(ticks, current, zeroForOne)
  {
    var ahead := Ahead(ticks, current, zeroForOne);
    NothingAhead(ticks, current, zeroForOne);
    hide *;
    var seen: set<int>, rest := {}, ahead;
    next, initialized := Bound(zeroForOne), false;
    while rest != {}
      invariant seen + rest == ahead && seen !! rest
      invariant if initialized then Nearest(seen, next, zeroForOne) else seen == {} && next == Bound(zeroForOne)
      decreases |rest|
    {
      HasElement(rest);
      var t :| t in rest;
      if initialized {
        NearestExtends(seen, t, next, zeroForOne);
      } else {
        NearestSingleton(t, zeroForOne);
        assert seen + {t} == {t};
      }
      MoveOver(ahead, seen, rest, t);
      seen, rest := seen + {t}, rest - {t};
      if !initialized || (if zeroForOne then t > next else t < next) {
        next, initialized := t, true;
      }
    }
    assert seen == ahead by { assert seen + {} == seen; }
    if initialized { NextTickUnique(ticks, current, zeroForOne, next); }
  }

  /** `u128 as i128`. */
  function AsI128(x: nat): int { if x < TWO_127 then x else x - TWO_128 }

  predicate InI128(x: int) { -TWO_127 <= x < TWO_127 }

  /** Crossing a tick: saturating below, and ignored when it would overflow u128. */
  function ApplyNet(liquidity: nat, net: int): nat {
    if net < 0 then if liquidity >= -net then liquidity + net else 0
    else if liquidity + net < TWO_128 then liquidity + net else liquidity
  }

  /** Crossing a tick one way and its opposite back restores the liquidity exactly when neither
      limit of u128 was met on the way. */
  lemma CrossingIsUndoneIff(liquidity: nat, net: int)
    requires liquidity < TWO_128 && -TWO_127 < net < TWO_127
    ensures ApplyNet(ApplyNet(liquidity, net), -net) == liquidity <==> 0 <= liquidity + net < TWO_128
    ensures ApplyNet(liquidity, net) < TWO_128
  {
  }

  ghost function StepOf(tm: TickMath, pool: V3Pool, zeroForOne: bool, s: SwapState): Result<Step>
    requires s.remaining > 0
  {
    ComputeSwapStep(s.sqrtPrice, tm.ratio(NextTick(pool.ticks, s.tick, zeroForOne).0), s.liquidity, s.remaining,
        pool.fee)
  }

  ghost predicate Crosses(tm: TickMath, pool: V3Pool, zeroForOne: bool, s: SwapState)
    requires s.remaining > 0 && StepOf(tm, pool, zeroForOne, s).Ok?
  {
    var (next, initialized) := NextTick(pool.ticks, s.tick, zeroForOne);
    initialized && StepOf(tm, pool, zeroForOne, s).value.next == tm.ratio(next)
  }

  lemma CrossesInitialized(tm: TickMath, pool: V3Pool, zeroForOne: bool, s: SwapState)
    requires s.remaining > 0 && StepOf(tm, pool, zeroForOne, s).Ok? && Crosses(tm, pool, zeroForOne, s)
    ensures NextTick(pool.ticks, s.tick, zeroForOne).1
  {
  }

  /** One iteration of the loop.  The tick is read back from the price as a u128. */
  ghost function Body(tm: TickMath, pool: V3Pool, zeroForOne: bool, s: SwapState): (r: Result<SwapState>)
    requires s.remaining > 0
    ensures r.Ok? ==> StepOf(tm, pool, zeroForOne, s).Ok?
  {
    var (next, initialized) := NextTick(pool.ticks, s.tick, zeroForOne);
    var st :- StepOf(tm, pool, zeroForOne, s);
    var calculated := s.calculated + AsI128(st.amountOut);
    if !InI128(calculated) then Err(Overflow) else
    var remaining := s.remaining - (st.amountIn + st.fee);
    if st.next == tm.ratio(next) && initialized then
      var tick := if zeroForOne then next - 1 else next;
      Ok(SwapState(remaining, calculated, st.next, tick, ApplyNet(s.liquidity, pool.ticks[next])))
    else if st.next >= TWO_128 then Err(Overflow)
    else Ok(SwapState(remaining, calculated, st.next, tm.tickAt(st.next), s.liquidity))
  }

  /** What one iteration guarantees: it never overcharges, and unless it finishes it lands
      on its target and, on an initialized tick, leaves exactly that tick behind. */
  lemma BodyProgress(tm: TickMath, pool: V3Pool, zeroForOne: bool, s: SwapState)
    requires s.remaining > 0 && Body(tm, pool, zeroForOne, s).Ok?
    ensures var s' := Body(tm, pool, zeroForOne, s).value;
            var st := StepOf(tm, pool, zeroForOne, s).value;
            var (next, initialized) := NextTick(pool.ticks, s.tick, zeroForOne);
            && 0 <= s'.remaining == s.remaining - (st.amountIn + st.fee)
            && InI128(s'.calculated) && s'.calculated == s.calculated + AsI128(st.amountOut)
            && s'.sqrtPrice == st.next
            && (s'.remaining > 0 ==> st.next == tm.ratio(next))
            && (s'.remaining > 0 && initialized ==> Crosses(tm, pool, zeroForOne, s))
            && (Crosses(tm, pool, zeroForOne, s) ==>
                  Ahead(pool.ticks, s'.tick, zeroForOne) == Ahead(pool.ticks, s.tick, zeroForOne) - {next})
            && (!initialized && s'.remaining > 0 ==> s'.tick == tm.tickAt(s'.sqrtPrice))
  {
    var target := tm.ratio(NextTick(pool.ticks, s.tick, zeroForOne).0);
    hide ComputeSwapStep;
    StepCharges(s.sqrtPrice, target, s.liquidity, s.remaining, pool.fee);
  }

  // ----- the whole loop

  datatype End = Done | AtBound | Failed(error: Error)

  /** How the loop ended, its last state, the steps it took and the ticks it crossed. */
  datatype Outcome = Outcome(end: End, state: SwapState, steps: seq<Step>, crossed: seq<int>)

  /** The loop up to the moment it finishes, aborts, or stands at the uninitialized bound
      with input left. */
  ghost function Walk(tm: TickMath, pool: V3Pool, zeroForOne: bool, s: SwapState): Outcome
    decreases |Ahead(pool.ticks, s.tick, zeroForOne)|
  {
    if s.remaining <= 0 then Outcome(Done, s, [], []) else
    match Body(tm, pool, zeroForOne, s)
    case Err(e) => Outcome(Failed(e), s, [], [])
    case Ok(s') =>
      var (next, initialized) := NextTick(pool.ticks, s.tick, zeroForOne);
      var st := StepOf(tm, pool, zeroForOne, s).value;
      var crossed := if Crosses(tm, pool, zeroForOne, s) then [next] else [];
      if s'.remaining <= 0 then Outcome(Done, s', [st], crossed)
      else if !initialized then Outcome(AtBound, s', [st], crossed)
      else
        BodyProgress(tm, pool, zeroForOne, s);
        var rest := Walk(tm, pool, zeroForOne, s');
        rest.(steps := [st] + rest.steps, crossed := crossed + rest.crossed)
  }

  function Charged(steps: seq<Step>): nat {
    if steps == [] then 0 else steps[0].amountIn + steps[0].fee + Charged(steps[1..])
  }

  function PaidOut(steps: seq<Step>): int {
    if steps == [] then 0 else AsI128(steps[0].amountOut) + PaidOut(steps[1..])
  }

  ghost predicate StrictlyAlong(ticks: seq<int>, zeroForOne: bool) {
    forall i, j :: 0 <= i < j < |ticks| ==> if zeroForOne then ticks[j] < ticks[i] else ticks[i] < ticks[j]
  }

  lemma PrependAlong(t: int, crossed: seq<int>, ahead: set<int>, zeroForOne: bool)
    requires Nearest(ahead, t, zeroForOne) && StrictlyAlong(crossed, zeroForOne)
    requires forall u :: u in crossed ==> u in ahead - {t}
    ensures StrictlyAlong([t] + crossed, zeroForOne) && forall u :: u in [t] + crossed ==> u in ahead
  {
    forall i, j | 0 <= i < j < |crossed| + 1
      ensures var c := [t] + crossed; if zeroForOne then c[j] < c[i] else c[i] < c[j]
    {
      assert crossed[j - 1] in crossed;
    }
  }

  /** Every run conserves the specified amount, crosses each initialized tick at most once
      and in strictly monotone order, and needs at most one step more than there are
      initialized ticks ahead. */
  lemma {:induction false} WalkConserves(tm: TickMath, pool: V3Pool, zeroForOne: bool, s: SwapState)
    requires s.remaining >= 0
    ensures var o := Walk(tm, pool, zeroForOne, s);
            && o.state.remaining >= 0
            && o.state.remaining + Charged(o.steps) == s.remaining
            && o.state.calculated == s.calculated + PaidOut(o.steps)
            && |o.steps| <= |Ahead(pool.ticks, s.tick, zeroForOne)| + 1
            && (o.end == Done ==> o.state.remaining == 0)
            && (o.end == AtBound ==> o.state.remaining > 0 && o.state.sqrtPrice == tm.ratio(Bound(zeroForOne)))
    ensures var o := Walk(tm, pool, zeroForOne, s);
            && StrictlyAlong(o.crossed, zeroForOne)
            && (forall t :: t in o.crossed ==> t in Ahead(pool.ticks, s.tick, zeroForOne))
    decreases |Ahead(pool.ticks, s.tick, zeroForOne)|
  {
    hide Body, StepOf, Ahead, NextTick, Crosses, AsI128;
    if s.remaining <= 0 || Body(tm, pool, zeroForOne, s).Err? {
    } else {
      BodyProgress(tm, pool, zeroForOne, s);
      var s' := Body(tm, pool, zeroForOne, s).value;
      var st := StepOf(tm, pool, zeroForOne, s).value;
      assert [st][1..] == [];
      var (next, initialized) := NextTick(pool.ticks, s.tick, zeroForOne);
      if Crosses(tm, pool, zeroForOne, s) { assert initialized by { CrossesInitialized(tm, pool, zeroForOne, s); } }
      if s'.remaining > 0 && initialized {
        WalkConserves(tm, pool, zeroForOne, s');
        var rest := Walk(tm, pool, zeroForOne, s');
        assert ([st] + rest.steps)[1..] == rest.steps;
        assert Walk(tm, pool, zeroForOne, s).crossed == [next] + rest.crossed;
        PrependAlong(next, rest.crossed, Ahead(pool.ticks, s.tick, zeroForOne), zeroForOne);
      }
    }
  }

  /** In every run from a u128 liquidity it stays one. */
  lemma {:induction false} LiquidityFits(tm: TickMath, pool: V3Pool, zeroForOne: bool, s: SwapState)
    requires s.liquidity < TWO_128
    ensures Walk(tm, pool, zeroForOne, s).state.liquidity < TWO_128
    decreases |Ahead(pool.ticks, s.tick, zeroForOne)|
  {
    if s.remaining <= 0 || Body(tm, pool, zeroForOne, s).Err? {
    } else {
      var s' := Body(tm, pool, zeroForOne, s).value;
      BodyProgress(tm, pool, zeroForOne, s);
      BodyLiquidity(tm, pool, zeroForOne, s);
      hide Body, StepOf, Crosses;
      if s'.remaining > 0 && NextTick(pool.ticks, s.tick, zeroForOne).1 {
        LiquidityFits(tm, pool, zeroForOne, s');
      }
    }
  }

  lemma BodyLiquidity(tm: TickMath, pool: V3Pool, zeroForOne: bool, s: SwapState)
    requires s.remaining > 0 && s.liquidity < TWO_128 && Body(tm, pool, zeroForOne, s).Ok?
    ensures Body(tm, pool, zeroForOne, s).value.liquidity < TWO_128
  {
    hide StepOf;
  }

  // ----- the quote

  function Start(pool: V3Pool, amountIn: nat): SwapState {
    SwapState(amountIn, 0, pool.sqrtPrice, pool.tick, pool.liquidity)
  }

  predicate ZeroForOne(pool: V3Pool, tokenIn: Token) { tokenIn.address == pool.token0.address }

  /** The quote of a V3 pool.  It never comes back with an error: a failed conversion, `unwrap` or
      checked operation panics, and `Diverges` stands for the run that the source never leaves
      (see `LoopEndsIff`). */
  ghost function V3AmountOut(tm: TickMath, pool: V3Pool, amountIn: nat, tokenIn: Token): Result<nat> {
    if amountIn == 0 then Ok(0)
    else if !InI128(amountIn) then Err(Panicked)
    else
      var o := Walk(tm, pool, ZeroForOne(pool, tokenIn), Start(pool, amountIn));
      match o.end
      case Failed(_) => Err(Panicked)
      case AtBound => Err(Diverges)
      case Done => if o.state.calculated < 0 then Err(Panicked) else Ok(o.state.calculated)
  }

  /** The statements of one iteration. */
  method RunBody(tm: TickMath, pool: V3Pool, zeroForOne: bool, s: SwapState)
    returns (r: Result<SwapState>, initialized: bool)
    requires s.remaining > 0
    ensures r == Body(tm, pool, zeroForOne, s) && initialized == NextTick(pool.ticks, s.tick, zeroForOne).1
  {
    hide ComputeSwapStep, Ahead, NextTick, AsI128, InI128, ApplyNet;
    var state := s;
    var next;
    next, initialized := GetNextTick(pool.ticks, state.tick, zeroForOne);
    var target := tm.ratio(next);
    var step := ComputeSwapStep(state.sqrtPrice, target, state.liquidity, state.remaining, pool.fee);
    if step.Err? { return Err(step.error), initialized; }
    var st := step.value;
    var calculated := state.calculated + AsI128(st.amountOut);
    if !InI128(calculated) { return Err(Overflow), initialized; }
    state := state.(sqrtPrice := st.next, calculated := calculated);
    state := state.(remaining := state.remaining - (st.amountIn + st.fee));
    if st.next == target && initialized {
      state := state.(liquidity := ApplyNet(state.liquidity, pool.ticks[next]));
      state := state.(tick := if zeroForOne then next - 1 else next);
    } else {
      if st.next >= TWO_128 { return Err(Overflow), initialized; }
      state := state.(tick := tm.tickAt(st.next));
    }
    return Ok(state), initialized;
  }

  lemma FewerAhead(tm: TickMath, pool: V3Pool, zeroForOne: bool, s: SwapState)
    requires s.remaining > 0 && Body(tm, pool, zeroForOne, s).Ok?
    ensures var s' := Body(tm, pool, zeroForOne, s).value;
            s'.remaining > 0 && NextTick(pool.ticks, s.tick, zeroForOne).1 ==>
              |Ahead(pool.ticks, s'.tick, zeroForOne)| < |Ahead(pool.ticks, s.tick, zeroForOne)|
  {
    BodyProgress(tm, pool, zeroForOne, s);
    hide Body, Ahead, Crosses, StepOf;
  }

  method GetAmountOut(tm: TickMath, pool: V3Pool, amountIn: nat, tokenIn: Token) returns (r: Result<nat>)
    ensures r == V3AmountOut(tm, pool, amountIn, tokenIn)
  {
    hide ComputeSwapStep, Ahead, NextTick, InI128, Walk, Body;
    if amountIn == 0 { return Ok(0); }
    if !InI128(amountIn) { return Err(Panicked); }
    var zeroForOne := ZeroForOne(pool, tokenIn);
    var state := Start(pool, amountIn);
    ghost var whole := Walk(tm, pool, zeroForOne, state);
    WalkStep(tm, pool, zeroForOne, state);
    while state.remaining > 0
      invariant state.remaining <= 0 ==> whole.end == Done && whole.state == state
      invariant var rest := Walk(tm, pool, zeroForOne, state); rest.end == whole.end && rest.state == whole.state
      decreases if state.remaining > 0 then |Ahead(pool.ticks, state.tick, zeroForOne)| + 1 else 0
    {
      WalkStep(tm, pool, zeroForOne, state);
      var body, initialized := RunBody(tm, pool, zeroForOne, state);
      if body.Err? { return Err(Panicked); }
      FewerAhead(tm, pool, zeroForOne, state);
      state := body.value;
      WalkStep(tm, pool, zeroForOne, state);
      if state.remaining > 0 && !initialized { return Err(Diverges); }
    }
    if state.calculated < 0 { return Err(Panicked); }
    return Ok(state.calculated);
  }

  /** How the loop goes on from a state. */
  lemma WalkStep(tm: TickMath, pool: V3Pool, zeroForOne: bool, s: SwapState)
    ensures s.remaining <= 0 ==> Walk(tm, pool, zeroForOne, s) == Outcome(Done, s, [], [])
    ensures s.remaining > 0 ==>
              var o, body := Walk(tm, pool, zeroForOne, s), Body(tm, pool, zeroForOne, s);
              if body.Err? then o.end == Failed(body.error) && o.state == s && |o.steps| == 0
              else if body.value.remaining <= 0 then o.end == Done && o.state == body.value && |o.steps| == 1
              else if !NextTick(pool.ticks, s.tick, zeroForOne).1 then o.end == AtBound && o.state == body.value
              else
                var rest := Walk(tm, pool, zeroForOne, body.value);
                o.end == rest.end && o.state == rest.state && |o.steps| == 1 + |rest.steps|
  {
    hide Body, NextTick, Crosses;
  }

  // ----- the path of the price

  ghost predicate GoodTickMath(tm: TickMath, pool: V3Pool) {
    && (forall a, b :: a <= b ==> tm.ratio(a) <= tm.ratio(b))
    && (forall t :: tm.ratio(t) < TWO_128)
    && (forall t :: t in pool.ticks ==> MIN_TICK <= t <= MAX_TICK)
  }

  /** The state's price has not passed any tick that is still ahead, nor the bound. */
  ghost predicate Consistent(tm: TickMath, pool: V3Pool, zeroForOne: bool, s: SwapState) {
    forall t :: t in Ahead(pool.ticks, s.tick, zeroForOne) || t == Bound(zeroForOne) ==>
      if zeroForOne then tm.ratio(t) <= s.sqrtPrice else s.sqrtPrice <= tm.ratio(t)
  }

  /** The next target lies in the direction of the swap. */
  ghost predicate Facing(tm: TickMath, pool: V3Pool, zeroForOne: bool, s: SwapState) {
    var target := tm.ratio(NextTick(pool.ticks, s.tick, zeroForOne).0);
    if zeroForOne then target <= s.sqrtPrice else s.sqrtPrice <= target
  }

  /** On a monotone map the nearest target decides for all the others. */
  lemma FacingIsConsistent(tm: TickMath, pool: V3Pool, zeroForOne: bool, s: SwapState)
    requires GoodTickMath(tm, pool)
    ensures Facing(tm, pool, zeroForOne, s) <==> Consistent(tm, pool, zeroForOne, s)
  {
    var (next, initialized) := NextTick(pool.ticks, s.tick, zeroForOne);
    if Consistent(tm, pool, zeroForOne, s) {
      assert next in Ahead(pool.ticks, s.tick, zeroForOne) || next == Bound(zeroForOne);
    }
  }

  /** The pool's price lies in its tick. */
  ghost predicate InTick(tm: TickMath, pool: V3Pool) {
    MIN_TICK <= pool.tick < MAX_TICK && tm.ratio(pool.tick) <= pool.sqrtPrice <= tm.ratio(pool.tick + 1)
  }

  /** Then a quote starts consistently in both directions. */
  lemma StartIsConsistent(tm: TickMath, pool: V3Pool, zeroForOne: bool, amountIn: nat)
    requires GoodTickMath(tm, pool) && InTick(tm, pool)
    ensures Consistent(tm, pool, zeroForOne, Start(pool, amountIn))
  {
    forall t | t in Ahead(pool.ticks, pool.tick, zeroForOne) || t == Bound(zeroForOne)
      ensures if zeroForOne then tm.ratio(t) <= pool.sqrtPrice else pool.sqrtPrice <= tm.ratio(t)
    {
      assert if zeroForOne then t <= pool.tick else pool.tick + 1 <= t;
    }
  }

  ghost predicate PricesAlong(p: nat, steps: seq<Step>, last: nat, zeroForOne: bool)
    decreases steps
  {
    if steps == [] then last == p
    else (if zeroForOne then steps[0].next <= p else p <= steps[0].next)
         && PricesAlong(steps[0].next, steps[1..], last, zeroForOne)
  }

  /** The first step overflows and stops short, which needs a price above 2^128. */
  ghost predicate LeavesAtOnce(tm: TickMath, pool: V3Pool, zeroForOne: bool, s: SwapState) {
    s.remaining > 0 && StepOf(tm, pool, zeroForOne, s).Ok? &&
    OverflowsShort(s.sqrtPrice, tm.ratio(NextTick(pool.ticks, s.tick, zeroForOne).0), s.liquidity, s.remaining,
        pool.fee)
  }

  lemma NarrowPriceStays(tm: TickMath, pool: V3Pool, zeroForOne: bool, s: SwapState)
    requires GoodTickMath(tm, pool)
    ensures LeavesAtOnce(tm, pool, zeroForOne, s) ==> s.sqrtPrice > TWO_128
  {
    if LeavesAtOnce(tm, pool, zeroForOne, s) {
      var target := tm.ratio(NextTick(pool.ticks, s.tick, zeroForOne).0);
      hide ComputeSwapStep, OverflowsShort;
      OverflowNeedsWidePrice(s.sqrtPrice, target, s.liquidity, s.remaining, pool.fee);
    }
  }

  lemma BodyPrice(tm: TickMath, pool: V3Pool, zeroForOne: bool, s: SwapState)
    requires GoodTickMath(tm, pool) && Consistent(tm, pool, zeroForOne, s)
    requires s.remaining > 0 && Body(tm, pool, zeroForOne, s).Ok?
    ensures var s' := Body(tm, pool, zeroForOne, s).value;
            var target := tm.ratio(NextTick(pool.ticks, s.tick, zeroForOne).0);
            && s'.sqrtPrice == StepOf(tm, pool, zeroForOne, s).value.next < TWO_128
            && (if zeroForOne then s'.sqrtPrice <= s.sqrtPrice else s.sqrtPrice <= s'.sqrtPrice)
            && (!LeavesAtOnce(tm, pool, zeroForOne, s) ==> Between(s'.sqrtPrice, s.sqrtPrice, target))
            && (Crosses(tm, pool, zeroForOne, s) ==> Consistent(tm, pool, zeroForOne, s'))
  {
    var (next, initialized) := NextTick(pool.ticks, s.tick, zeroForOne);
    var target := tm.ratio(next);
    StepStaysInsideIff(s.sqrtPrice, target, s.liquidity, s.remaining, pool.fee);
    StepHeadsForTarget(s.sqrtPrice, target, s.liquidity, s.remaining, pool.fee);
    BodyProgress(tm, pool, zeroForOne, s);
    FacingIsConsistent(tm, pool, zeroForOne, s);
    BodyWidth(tm, pool, zeroForOne, s);
    hide ComputeSwapStep, OverflowsShort;
    var s' := Body(tm, pool, zeroForOne, s).value;
    if Crosses(tm, pool, zeroForOne, s) {
      BehindIsConsistent(tm, pool, zeroForOne, s', Ahead(pool.ticks, s.tick, zeroForOne), next);
    }
    if s.sqrtPrice == target {
      assert LeavesAtOnce(tm, pool, zeroForOne, s) ==> false by {
        OverflowsShortIs(s.sqrtPrice, target, s.liquidity, s.remaining, pool.fee);
      }
    }
  }

  lemma BodyWidth(tm: TickMath, pool: V3Pool, zeroForOne: bool, s: SwapState)
    requires GoodTickMath(tm, pool) && s.remaining > 0 && Body(tm, pool, zeroForOne, s).Ok?
    ensures Body(tm, pool, zeroForOne, s).value.sqrtPrice < TWO_128
  {
    hide ComputeSwapStep;
  }

  lemma BehindIsConsistent(tm: TickMath, pool: V3Pool, zeroForOne: bool, s: SwapState, before: set<int>, next: int)
    requires GoodTickMath(tm, pool) && next in pool.ticks && Nearest(before, next, zeroForOne)
    requires Ahead(pool.ticks, s.tick, zeroForOne) == before - {next} && s.sqrtPrice == tm.ratio(next)
    ensures Consistent(tm, pool, zeroForOne, s)
  {
    hide Ahead;
  }

  /** Up to its end every run that starts consistently moves the price one way only, and never
      past the bound unless its first step overflows. */
  lemma {:induction false} PriceMovesOneWay(tm: TickMath, pool: V3Pool, zeroForOne: bool, s: SwapState)
    requires GoodTickMath(tm, pool) && Consistent(tm, pool, zeroForOne, s)
    ensures var o := Walk(tm, pool, zeroForOne, s);
            && PricesAlong(s.sqrtPrice, o.steps, o.state.sqrtPrice, zeroForOne)
            && (!LeavesAtOnce(tm, pool, zeroForOne, s) ==>
                  Between(o.state.sqrtPrice, s.sqrtPrice, tm.ratio(Bound(zeroForOne))))
    decreases |Ahead(pool.ticks, s.tick, zeroForOne)|
  {
    if s.remaining <= 0 || Body(tm, pool, zeroForOne, s).Err? {
    } else {
      BodyPrice(tm, pool, zeroForOne, s);
      BodyProgress(tm, pool, zeroForOne, s);
      var s' := Body(tm, pool, zeroForOne, s).value;
      NarrowPriceStays(tm, pool, zeroForOne, s');
      hide Body, StepOf, Crosses, LeavesAtOnce;
      var st := StepOf(tm, pool, zeroForOne, s).value;
      assert [st][1..] == [];
      var (next, initialized) := NextTick(pool.ticks, s.tick, zeroForOne);
      if s'.remaining > 0 && initialized {
        PriceMovesOneWay(tm, pool, zeroForOne, s');
        var rest := Walk(tm, pool, zeroForOne, s');
        assert ([st] + rest.steps)[1..] == rest.steps;
      }
    }
  }

  /** The exact condition on the start: the next target lies ahead, or the first step is too
      small to move the price towards it. */
  lemma DirectionKeptIff(tm: TickMath, pool: V3Pool, zeroForOne: bool, s: SwapState)
    requires GoodTickMath(tm, pool) && s.remaining > 0 && Body(tm, pool, zeroForOne, s).Ok?
    ensures var o := Walk(tm, pool, zeroForOne, s);
            var target := tm.ratio(NextTick(pool.ticks, s.tick, zeroForOne).0);
            PricesAlong(s.sqrtPrice, o.steps, o.state.sqrtPrice, zeroForOne) <==>
            Facing(tm, pool, zeroForOne, s) || TooSmallToMove(s.sqrtPrice, target, s.liquidity, s.remaining, pool.fee)
  {
    var target := tm.ratio(NextTick(pool.ticks, s.tick, zeroForOne).0);
    FacingIsConsistent(tm, pool, zeroForOne, s);
    if Facing(tm, pool, zeroForOne, s) {
      PriceMovesOneWay(tm, pool, zeroForOne, s);
    } else {
      StepMovesNothingIff(s.sqrtPrice, target, s.liquidity, s.remaining, pool.fee);
      StepHeadsForTarget(s.sqrtPrice, target, s.liquidity, s.remaining, pool.fee);
      StepCharges(s.sqrtPrice, target, s.liquidity, s.remaining, pool.fee);
      BodyProgress(tm, pool, zeroForOne, s);
      WalkStarts(tm, pool, zeroForOne, s);
      hide ComputeSwapStep, Walk, Body, Crosses, NextTick;
    }
  }

  /** Such a start exists: at a price above 2^128, past a bound that saturates below it, one unit of
      token 1 moves the price down. */
  lemma WrongWayStart(tm: TickMath, pool: V3Pool)
    requires GoodTickMath(tm, pool) && tm.ratio(MAX_TICK) == TWO_128 - 1
    requires pool.sqrtPrice == TWO_128 + 2 && pool.liquidity == 1 && pool.fee == 0 && pool.ticks == map[]
    ensures var s := Start(pool, 1); var o := Walk(tm, pool, false, s);
            && o.end == Done && o.state.sqrtPrice < s.sqrtPrice
            && !PricesAlong(s.sqrtPrice, o.steps, o.state.sqrtPrice, false)
  {
    var s := Start(pool, 1);
    assert Ahead(pool.ticks, s.tick, false) == {};
    StepCanLeave();
    OverflowsShortIs(TWO_128 + 2, TWO_128 - 1, 1, 1, 0);
    StepCharges(TWO_128 + 2, TWO_128 - 1, 1, 1, 0);
    TooSmallIs(TWO_128 + 2, TWO_128 - 1, 1, 1, 0);
    NothingAhead(pool.ticks, s.tick, false);
    StepPays(TWO_128 + 2, TWO_128 - 1, 1, 1, 0);
    hide ComputeSwapStep, Ahead, NextTick, OverflowsShort, TooSmallToMove, StopsShort, LessFee, AmountInMax;
    assert StepOf(tm, pool, false, s).Ok?;
    assert Body(tm, pool, false, s).Ok?;
    DirectionKeptIff(tm, pool, false, s);
    WalkStep(tm, pool, false, s);
    BodyProgress(tm, pool, false, s);
    hide Walk, Body, PricesAlong;
  }

  lemma StepPays(p: nat, t: nat, l: nat, remaining: nat, fee: nat)
    requires ComputeSwapStep(p, t, l, remaining, fee).Ok?
    ensures ComputeSwapStep(p, t, l, remaining, fee).value.amountOut < TWO_128
  {
    hide LessFee, AmountInMax, NextPrice, Delta0, Delta1, Mul, Div;
  }

  lemma WalkStarts(tm: TickMath, pool: V3Pool, zeroForOne: bool, s: SwapState)
    requires s.remaining > 0 && Body(tm, pool, zeroForOne, s).Ok?
    ensures var (o, s') := (Walk(tm, pool, zeroForOne, s), Body(tm, pool, zeroForOne, s).value);
            && o.steps != [] && o.steps[0] == StepOf(tm, pool, zeroForOne, s).value
            && (s'.remaining <= 0 ==> o.steps[1..] == [] && o.state == s')
  {
    hide Body, StepOf, Crosses, NextTick;
  }

  // ----- standing at the bound

  ghost function Iterate(tm: TickMath, pool: V3Pool, zeroForOne: bool, s: SwapState, n: nat): Result<SwapState>
    decreases n
  {
    if n == 0 || s.remaining <= 0 then Ok(s) else
    var s' :- Body(tm, pool, zeroForOne, s);
    Iterate(tm, pool, zeroForOne, s', n - 1)
  }

  /** Input is left, and every target still ahead has the price reached. */
  ghost predicate Standing(tm: TickMath, pool: V3Pool, zeroForOne: bool, s: SwapState) {
    && s.remaining > 0 && InI128(s.calculated) && LessFee(s.remaining, pool.fee).Ok?
    && s.sqrtPrice == tm.ratio(Bound(zeroForOne)) && 0 < s.sqrtPrice < TWO_128
    && forall t :: t in Ahead(pool.ticks, s.tick, zeroForOne) ==> tm.ratio(t) == s.sqrtPrice
  }

  /** Every initialized tick ahead of the tick read back from the bound has the bound's price, as
      in the float conversions, which saturate there. */
  ghost predicate Settled(tm: TickMath, pool: V3Pool, zeroForOne: bool) {
    var bound := tm.ratio(Bound(zeroForOne));
    forall t :: t in Ahead(pool.ticks, tm.tickAt(bound), zeroForOne) ==> tm.ratio(t) == bound
  }

  /** Which follows for every pool from a monotone map that reads the bound back on its own side. */
  lemma SettledOnEveryPool(tm: TickMath, pool: V3Pool, zeroForOne: bool)
    requires GoodTickMath(tm, pool)
    requires var bound := tm.ratio(Bound(zeroForOne)); var back := tm.tickAt(bound);
             if zeroForOne then tm.ratio(back) <= bound else bound <= tm.ratio(back + 1)
    ensures Settled(tm, pool, zeroForOne)
  {
    var bound := tm.ratio(Bound(zeroForOne));
    var back := tm.tickAt(bound);
    forall t | t in Ahead(pool.ticks, back, zeroForOne)
      ensures tm.ratio(t) == bound
    {
      assert if zeroForOne then MIN_TICK <= t <= back else back + 1 <= t <= MAX_TICK;
    }
  }

  lemma StandingStep(p: nat, l: nat, remaining: nat, fee: nat)
    requires p > 0 && LessFee(remaining, fee).Ok?
    ensures ComputeSwapStep(p, p, l, remaining, fee) == Ok(Step(p, 0, 0, 0))
  {
    MulIs(l, 0);
    MulIs(0, Q96);
    MulIs(0, fee);
    MulIs(p, p);
    FloorLe(0, Q96, 1);
    FloorLe(0, Q96, 0);
    FloorLe(0, MulOr(p, p, 1), 1);
    FloorLe(PIPS - 1, PIPS, 1);
    FloorLe(PIPS - 1, PIPS, 0);
    assert p * p > 0;
    hide LessFee, Mul, Div;
  }

  /** An iteration from there may change the liquidity and the tick, and nothing else. */
  lemma StandingStays(tm: TickMath, pool: V3Pool, zeroForOne: bool, s: SwapState)
    requires Settled(tm, pool, zeroForOne) && Standing(tm, pool, zeroForOne, s)
    ensures Body(tm, pool, zeroForOne, s).Ok?
    ensures var s' := Body(tm, pool, zeroForOne, s).value;
            && Standing(tm, pool, zeroForOne, s')
            && s'.remaining == s.remaining && s'.sqrtPrice == s.sqrtPrice && s'.calculated == s.calculated
  {
    StandingStep(s.sqrtPrice, s.liquidity, s.remaining, pool.fee);
    var (next, initialized) := NextTick(pool.ticks, s.tick, zeroForOne);
    assert tm.ratio(next) == s.sqrtPrice;
    hide ComputeSwapStep;
    assert Body(tm, pool, zeroForOne, s).Ok?;
    BodyProgress(tm, pool, zeroForOne, s);
    if initialized { assert Crosses(tm, pool, zeroForOne, s); }
  }

  lemma {:induction false} StandingIsForever(tm: TickMath, pool: V3Pool, zeroForOne: bool, s: SwapState, n: nat)
    requires Settled(tm, pool, zeroForOne) && Standing(tm, pool, zeroForOne, s)
    ensures Iterate(tm, pool, zeroForOne, s, n).Ok?
    ensures var end := Iterate(tm, pool, zeroForOne, s, n).value;
            end.remaining == s.remaining && end.sqrtPrice == s.sqrtPrice && end.calculated == s.calculated
    decreases n
  {
    if n == 0 {
    } else {
      StandingStays(tm, pool, zeroForOne, s);
      hide Settled, Standing, Body;
      StandingIsForever(tm, pool, zeroForOne, Body(tm, pool, zeroForOne, s).value, n - 1);
    }
  }

  /** The last iteration of a run that reaches the bound with input left. */
  lemma BoundStands(tm: TickMath, pool: V3Pool, zeroForOne: bool, s: SwapState)
    requires Settled(tm, pool, zeroForOne) && s.remaining > 0 && Body(tm, pool, zeroForOne, s).Ok?
    requires !NextTick(pool.ticks, s.tick, zeroForOne).1 && Body(tm, pool, zeroForOne, s).value.remaining > 0
    ensures Standing(tm, pool, zeroForOne, Body(tm, pool, zeroForOne, s).value)
  {
    BodyProgress(tm, pool, zeroForOne, s);
    var s' := Body(tm, pool, zeroForOne, s).value;
    var target := tm.ratio(Bound(zeroForOne));
    ZeroDenominatorNeedsZeroPrice(s.sqrtPrice, target, s.liquidity, s.remaining, pool.fee);
    LessFeeShrinks(s'.remaining, s.remaining, pool.fee);
    hide ComputeSwapStep;
  }

  lemma {:induction false} WalkStands(tm: TickMath, pool: V3Pool, zeroForOne: bool, s: SwapState)
    requires Settled(tm, pool, zeroForOne) && Walk(tm, pool, zeroForOne, s).end == AtBound
    ensures Standing(tm, pool, zeroForOne, Walk(tm, pool, zeroForOne, s).state)
    decreases |Ahead(pool.ticks, s.tick, zeroForOne)|
  {
    hide *;
    WalkStep(tm, pool, zeroForOne, s);
    if NextTick(pool.ticks, s.tick, zeroForOne).1 {
      FewerAhead(tm, pool, zeroForOne, s);
      WalkStands(tm, pool, zeroForOne, Body(tm, pool, zeroForOne, s).value);
    } else {
      BoundStands(tm, pool, zeroForOne, s);
    }
  }

  /** A run that reaches the bound with input left keeps it, and the price, for any number of
      further iterations, even where it crosses the ticks on the bound again and again. */
  lemma BoundIsForever(tm: TickMath, pool: V3Pool, zeroForOne: bool, s: SwapState, n: nat)
    requires Settled(tm, pool, zeroForOne) && Walk(tm, pool, zeroForOne, s).end == AtBound
    ensures var end := Walk(tm, pool, zeroForOne, s).state;
            var r := Iterate(tm, pool, zeroForOne, end, n);
            && end.remaining > 0 && r.Ok?
            && r.value.remaining == end.remaining && r.value.sqrtPrice == end.sqrtPrice
            && r.value.calculated == end.calculated
  {
    WalkStands(tm, pool, zeroForOne, s);
    var end := Walk(tm, pool, zeroForOne, s).state;
    StandingIsForever(tm, pool, zeroForOne, end, n);
    assert end.remaining > 0 by { hide Walk, Settled, Iterate; }
    hide *;
  }

  /** After n iterations a run is where its walk says: finished, aborted, or still going. */
  lemma {:induction false} WalkDecides(tm: TickMath, pool: V3Pool, zeroForOne: bool, s: SwapState, n: nat)
    requires Settled(tm, pool, zeroForOne)
    ensures var o, r := Walk(tm, pool, zeroForOne, s), Iterate(tm, pool, zeroForOne, s, n);
            && (o.end == Done ==> r.Ok? && (n >= |o.steps| ==> r.value.remaining <= 0))
            && (o.end == AtBound ==> r.Ok? && r.value.remaining > 0)
            && (o.end.Failed? ==> (r.Ok? ==> r.value.remaining > 0) && (n > |o.steps| ==> r == Err(o.end.error)))
    decreases n
  {
    hide *;
    WalkStep(tm, pool, zeroForOne, s);
    IterateStep(tm, pool, zeroForOne, s, n);
    if s.remaining <= 0 || n == 0 || Body(tm, pool, zeroForOne, s).Err? {
    } else {
      var s' := Body(tm, pool, zeroForOne, s).value;
      if s'.remaining <= 0 {
        IterateStep(tm, pool, zeroForOne, s', n - 1);
      } else if NextTick(pool.ticks, s.tick, zeroForOne).1 {
        WalkDecides(tm, pool, zeroForOne, s', n - 1);
      } else {
        BoundStands(tm, pool, zeroForOne, s);
        StandingIsForever(tm, pool, zeroForOne, s', n - 1);
      }
    }
  }

  lemma IterateStep(tm: TickMath, pool: V3Pool, zeroForOne: bool, s: SwapState, n: nat)
    ensures s.remaining <= 0 || n == 0 ==> Iterate(tm, pool, zeroForOne, s, n) == Ok(s)
    ensures s.remaining > 0 && n > 0 ==>
              var body, r := Body(tm, pool, zeroForOne, s), Iterate(tm, pool, zeroForOne, s, n);
              if body.Err? then r == Err(body.error) else r == Iterate(tm, pool, zeroForOne, body.value, n - 1)
  {
    hide Body;
  }

  ghost predicate FinishesIn(tm: TickMath, pool: V3Pool, zeroForOne: bool, s: SwapState, n: nat) {
    var r := Iterate(tm, pool, zeroForOne, s, n); r.Ok? && r.value.remaining <= 0
  }

  ghost predicate AbortsIn(tm: TickMath, pool: V3Pool, zeroForOne: bool, s: SwapState, n: nat) {
    Iterate(tm, pool, zeroForOne, s, n).Err?
  }

  /** The loop finishes, aborts or goes on for ever exactly as its walk ends. */
  lemma LoopEndsIff(tm: TickMath, pool: V3Pool, zeroForOne: bool, s: SwapState)
    requires Settled(tm, pool, zeroForOne)
    ensures (exists n: nat :: FinishesIn(tm, pool, zeroForOne, s, n)) <==> Walk(tm, pool, zeroForOne, s).end == Done
    ensures (exists n: nat :: AbortsIn(tm, pool, zeroForOne, s, n)) <==> Walk(tm, pool, zeroForOne, s).end.Failed?
    ensures (forall n: nat :: !FinishesIn(tm, pool, zeroForOne, s, n) && !AbortsIn(tm, pool, zeroForOne, s, n)) <==>
            Walk(tm, pool, zeroForOne, s).end == AtBound
  {
    var o := Walk(tm, pool, zeroForOne, s);
    forall n: nat
      ensures FinishesIn(tm, pool, zeroForOne, s, n) ==> o.end == Done
      ensures AbortsIn(tm, pool, zeroForOne, s, n) ==> o.end.Failed?
    {
      WalkDecides(tm, pool, zeroForOne, s, n);
      hide Settled, Walk, Iterate;
    }
    WalkDecides(tm, pool, zeroForOne, s, |o.steps|);
    WalkDecides(tm, pool, zeroForOne, s, |o.steps| + 1);
    assert o.end == Done ==> FinishesIn(tm, pool, zeroForOne, s, |o.steps|) by { hide Walk, Iterate; }
    assert o.end.Failed? ==> AbortsIn(tm, pool, zeroForOne, s, |o.steps| + 1) by { hide Walk, Iterate; }
    hide *;
  }

  /** With no initialized tick ahead one step decides: the loop finishes exactly when the input
      stops short of the bound, or the way there costs all of it. */
  lemma NoTickAheadEndsIff(tm: TickMath, pool: V3Pool, zeroForOne: bool, s: SwapState)
    requires Ahead(pool.ticks, s.tick, zeroForOne) == {} && s.remaining > 0
    requires Body(tm, pool, zeroForOne, s).Ok?
    ensures var bound := tm.ratio(Bound(zeroForOne));
            Walk(tm, pool, zeroForOne, s).end == Done <==>
            StopsShort(s.sqrtPrice, bound, s.liquidity, s.remaining, pool.fee) ||
            FullCharge(s.sqrtPrice, bound, s.liquidity, pool.fee) == s.remaining
  {
    var bound := tm.ratio(Bound(zeroForOne));
    StepUsesAllIff(s.sqrtPrice, bound, s.liquidity, s.remaining, pool.fee);
    BodyProgress(tm, pool, zeroForOne, s);
    WalkStep(tm, pool, zeroForOne, s);
    hide ComputeSwapStep, Walk, StopsShort, FullCharge;
  }

  // ----- quotes that stay in their tick

  ghost function FirstTarget(tm: TickMath, pool: V3Pool, tokenIn: Token): nat {
    tm.ratio(NextTick(pool.ticks, pool.tick, ZeroForOne(pool, tokenIn)).0)
  }

  /** The input runs out before the first target. */
  ghost predicate StaysInTick(tm: TickMath, pool: V3Pool, amountIn: nat, tokenIn: Token) {
    var target := FirstTarget(tm, pool, tokenIn);
    && LessFee(amountIn, pool.fee).Ok? && AmountInMax(pool.sqrtPrice, target, pool.liquidity).Ok?
    && StopsShort(pool.sqrtPrice, target, pool.liquidity, amountIn, pool.fee)
  }

  /** Then the quote is what its one step pays. */
  lemma InTickQuote(tm: TickMath, pool: V3Pool, amountIn: nat, tokenIn: Token)
    requires amountIn > 0 && StaysInTick(tm, pool, amountIn, tokenIn) && V3AmountOut(tm, pool, amountIn, tokenIn).Ok?
    ensures var target := FirstTarget(tm, pool, tokenIn);
            var step := ComputeSwapStep(pool.sqrtPrice, target, pool.liquidity, amountIn, pool.fee);
            step.Ok? && V3AmountOut(tm, pool, amountIn, tokenIn) == Ok(step.value.amountOut)
  {
    var zeroForOne := ZeroForOne(pool, tokenIn);
    var s := Start(pool, amountIn);
    WalkStep(tm, pool, zeroForOne, s);
    FullBody(tm, pool, zeroForOne, s);
    BodyProgress(tm, pool, zeroForOne, s);
    StepPays(pool.sqrtPrice, FirstTarget(tm, pool, tokenIn), pool.liquidity, amountIn, pool.fee);
    hide ComputeSwapStep, Walk, Body, NextTick, StopsShort, LessFee, AmountInMax;
  }

  /** One step that uses up the input makes the quote. */
  lemma OneStepQuote(tm: TickMath, pool: V3Pool, amountIn: nat, tokenIn: Token, st: Step)
    requires 0 < amountIn < TWO_127 && st.amountIn + st.fee == amountIn
    requires st.next < TWO_128 && st.amountOut < TWO_127
    requires var target := FirstTarget(tm, pool, tokenIn);
             ComputeSwapStep(pool.sqrtPrice, target, pool.liquidity, amountIn, pool.fee) == Ok(st)
    ensures V3AmountOut(tm, pool, amountIn, tokenIn) == Ok(st.amountOut)
  {
    var zeroForOne := ZeroForOne(pool, tokenIn);
    var s := Start(pool, amountIn);
    hide ComputeSwapStep, NextTick;
    assert Body(tm, pool, zeroForOne, s).Ok?;
    BodyProgress(tm, pool, zeroForOne, s);
    WalkStep(tm, pool, zeroForOne, s);
    hide Walk, Body;
  }

  /** Out and back through one pool, both quotes on the same price and within the tick, gains only
      if the step with token 0 in overpays. */
  lemma OutAndBackInTick(tm: TickMath, pool: V3Pool, amountIn: nat, there: Token, back: Token)
    requires there.address != back.address && pool.token0.address in {there.address, back.address}
    requires FirstTarget(tm, pool, pool.token0) <= pool.sqrtPrice
    requires pool.sqrtPrice <= FirstTarget(tm, pool, if ZeroForOne(pool, there) then back else there)
    requires amountIn > 0 && StaysInTick(tm, pool, amountIn, there)
    requires var out := V3AmountOut(tm, pool, amountIn, there);
             out.Ok? && out.value > 0 && StaysInTick(tm, pool, out.value, back) &&
             V3AmountOut(tm, pool, out.value, back).Ok?
    ensures var out := V3AmountOut(tm, pool, amountIn, there).value;
            var with0 := LessFee(if ZeroForOne(pool, there) then amountIn else out, pool.fee).value;
            && PriceDivisor(Q96, pool.sqrtPrice, pool.liquidity, with0) > 0
            && (V3AmountOut(tm, pool, out, back).value > amountIn ==>
                  OverpaysShort(Q96, pool.sqrtPrice, pool.liquidity, with0))
  {
    var out := V3AmountOut(tm, pool, amountIn, there).value;
    var (p, l) := (pool.sqrtPrice, pool.liquidity);
    assert Q96 > 0;
    assert ZeroForOne(pool, there) <==> !ZeroForOne(pool, back);
    SameSideTarget(tm, pool, there);
    SameSideTarget(tm, pool, back);
    StaysShort(tm, pool, amountIn, there);
    StaysShort(tm, pool, out, back);
    hide *;
    InTickQuote(tm, pool, amountIn, there);
    InTickQuote(tm, pool, out, back);
    ShortStepWorth(p, FirstTarget(tm, pool, there), l, amountIn, pool.fee);
    ShortStepWorth(p, FirstTarget(tm, pool, back), l, out, pool.fee);
    var (x, y) := (LessFee(amountIn, pool.fee).value, LessFee(out, pool.fee).value);
    var gain := V3AmountOut(tm, pool, out, back).value;
    if ZeroForOne(pool, there) {
      if !OverpaysShort(Q96, p, l, x) { WorthThereAndBack(Q96, p, amountIn, x, out, y, gain); }
    } else {
      if !OverpaysShort(Q96, p, l, y) { WorthThereAndBack(p, Q96, amountIn, x, out, y, gain); }
    }
  }

  lemma SameSideTarget(tm: TickMath, pool: V3Pool, t: Token)
    ensures ZeroForOne(pool, t) ==> FirstTarget(tm, pool, t) == FirstTarget(tm, pool, pool.token0)
  {
    hide NextTick;
  }

  /** A step that stops short is to another price. */
  lemma StaysShort(tm: TickMath, pool: V3Pool, amountIn: nat, tokenIn: Token)
    requires StaysInTick(tm, pool, amountIn, tokenIn)
    ensures FirstTarget(tm, pool, tokenIn) != pool.sqrtPrice
    ensures LessFee(amountIn, pool.fee).Ok?
    ensures AmountInMax(pool.sqrtPrice, FirstTarget(tm, pool, tokenIn), pool.liquidity).Ok?
    ensures StopsShort(pool.sqrtPrice, FirstTarget(tm, pool, tokenIn), pool.liquidity, amountIn, pool.fee)
  {
    var target := FirstTarget(tm, pool, tokenIn);
    if pool.sqrtPrice >= target {
      ShortMoveDown(pool.sqrtPrice, target, pool.liquidity, LessFee(amountIn, pool.fee).value);
    }
    hide AmountInMax, LessFee, NextTick;
  }

  /** At the price of `Token0InCanOverpay` the two units of token 1 buy back far more than one of
      token 0. */
  lemma OutAndBackQuotes(tm: TickMath, pool: V3Pool)
    requires pool.sqrtPrice == 0x4000_0000_0000_0000 && pool.liquidity == 2 * Q96
    requires pool.fee == 0 && pool.tick == 0 && pool.token0.address != pool.token1.address
    requires pool.ticks.Keys == {-1, 1}
    requires tm.ratio(-1) == 0x3C00_0000_0000_0000 && tm.ratio(1) == 0x4400_0000_0000_0000
    ensures V3AmountOut(tm, pool, 1, pool.token0) == Ok(2)
    ensures V3AmountOut(tm, pool, 2, pool.token1).Ok? && V3AmountOut(tm, pool, 2, pool.token1).value > 1
  {
    assert Ahead(pool.ticks, 0, true) == {-1} && Ahead(pool.ticks, 0, false) == {1};
    assert NextTick(pool.ticks, 0, true) == (-1, true) && NextTick(pool.ticks, 0, false) == (1, true);
    assert FirstTarget(tm, pool, pool.token0) == 0x3C00_0000_0000_0000;
    assert FirstTarget(tm, pool, pool.token1) == 0x4400_0000_0000_0000;
    assert TWO_127 == 0x8000_0000_0000_0000_0000_0000_0000_0000;
    Token0InCanOverpay();
    BackStep();
    hide NextTick, ComputeSwapStep, V3AmountOut, FirstTarget;
    OneStepQuote(tm, pool, 1, pool.token0, Step(0x4000_0000_0000_0000 - 1, 1, 2, 0));
    OneStepQuote(tm, pool, 2, pool.token1,
                 ComputeSwapStep(0x4000_0000_0000_0000, 0x4400_0000_0000_0000, 2 * Q96, 2, 0).value);
  }

  lemma BackStep()
    ensures var st := ComputeSwapStep(0x4000_0000_0000_0000, 0x4400_0000_0000_0000, 2 * Q96, 2, 0);
            && st.Ok? && st.value.next == 0x4000_0000_0000_0001 && st.value.amountIn == 2 && st.value.fee == 0
            && 1 < st.value.amountOut < TWO_127
  {
    BackInput();
    BackBound();
    BackPrice();
    BackPayout();
    hide LessFee, AmountInMax, NextPrice, PayoutUp, Mul, Div;
  }

  lemma BackInput()
    ensures LessFee(2, 0) == Ok(2)
  {
    MulIs(2, PIPS);
    FloorLe(2 * PIPS, PIPS, 2);
    FloorLe(2 * PIPS, PIPS, 3);
    hide Mul, Div;
  }

  lemma BackBound()
    ensures AmountInMax(0x4000_0000_0000_0000, 0x4400_0000_0000_0000, 2 * Q96) == Ok(0x800_0000_0000_0000)
  {
    MulIs(2 * Q96, 0x400_0000_0000_0000);
    FloorLe(2 * Q96 * 0x400_0000_0000_0000, Q96, 0x800_0000_0000_0000);
    FloorLe(2 * Q96 * 0x400_0000_0000_0000, Q96, 0x800_0000_0000_0001);
    hide Mul, Div;
  }

  lemma BackPrice()
    ensures NextPrice(0x4000_0000_0000_0000, 0x4400_0000_0000_0000, 2 * Q96, 2) == Ok(0x4000_0000_0000_0001)
  {
    MulIs(2, Q96);
    FloorLe(2 * Q96, 2 * Q96, 1);
    FloorLe(2 * Q96, 2 * Q96, 2);
    hide Mul, Div;
  }

  lemma BackPayout()
    ensures var out := PayoutUp(0x4000_0000_0000_0000, 2 * Q96, 0x4000_0000_0000_0001);
            out.Ok? && 1 < out.value < TWO_127
  {
    var den: nat := 0x1000_0000_0000_0000_4000_0000_0000_0000;
    MulIs(2 * Q96, 1);
    MulIs(2 * Q96, Q96);
    MulIs(0x4000_0000_0000_0000, 0x4000_0000_0000_0001);
    FloorLe(2 * Q96 * Q96, den, 2);
    FloorLe(2 * Q96 * Q96, den, TWO_127);
    hide Mul, Div;
  }

  // ----- how much a direction takes

  /** The least input that is not used up on the way from a price to the bound: at each target
      ahead, enough for a full step and more than what that step charges. */
  ghost function Capacity(tm: TickMath, pool: V3Pool, zeroForOne: bool, price: nat, tick: int, liquidity: nat): nat
    requires pool.fee <= PIPS
    decreases |Ahead(pool.ticks, tick, zeroForOne)|
  {
    var (next, initialized) := NextTick(pool.ticks, tick, zeroForOne);
    var target := tm.ratio(next);
    if AmountInMax(price, target, liquidity).Err? then 0 else
    var charge := FullCharge(price, target, liquidity, pool.fee);
    var here := AtLeast(Needed(AmountInMax(price, target, liquidity).value, pool.fee), charge + 1);
    if !initialized then here
    else
      var tick' := if zeroForOne then next - 1 else next;
      LeavesOneBehind(pool.ticks, tick, zeroForOne);
      AtLeast(here, charge + Capacity(tm, pool, zeroForOne, target, tick', ApplyNet(liquidity, pool.ticks[next])))
  }

  function AtLeast(x: nat, y: nat): nat { if x >= y then x else y }

  lemma LeavesOneBehind(ticks: map<int, int>, tick: int, zeroForOne: bool)
    requires NextTick(ticks, tick, zeroForOne).1
    ensures var next := NextTick(ticks, tick, zeroForOne).0;
            var after := Ahead(ticks, if zeroForOne then next - 1 else next, zeroForOne);
            after == Ahead(ticks, tick, zeroForOne) - {next} && |after| < |Ahead(ticks, tick, zeroForOne)|
  {
    var next := NextTick(ticks, tick, zeroForOne).0;
    var before := Ahead(ticks, tick, zeroForOne);
    assert next in before;
    assert |before - {next}| == |before| - 1;
  }

  /** How the capacity goes on from a state. */
  lemma CapacityStep(tm: TickMath, pool: V3Pool, zeroForOne: bool, price: nat, tick: int, liquidity: nat)
    requires pool.fee <= PIPS
    requires AmountInMax(price, tm.ratio(NextTick(pool.ticks, tick, zeroForOne).0), liquidity).Ok?
    ensures var (next, initialized) := NextTick(pool.ticks, tick, zeroForOne);
            var target := tm.ratio(next);
            var charge := FullCharge(price, target, liquidity, pool.fee);
            var here := AtLeast(Needed(AmountInMax(price, target, liquidity).value, pool.fee), charge + 1);
            var capacity := Capacity(tm, pool, zeroForOne, price, tick, liquidity);
            if !initialized then capacity == here
            else
              var tick' := if zeroForOne then next - 1 else next;
              var rest := Capacity(tm, pool, zeroForOne, target, tick', ApplyNet(liquidity, pool.ticks[next]));
              capacity == AtLeast(here, charge + rest)
  {
    hide NextTick, AmountInMax, FullCharge, Needed, AtLeast, ApplyNet;
  }

  /** What a full step leaves to the rest of the walk. */
  lemma FullBody(tm: TickMath, pool: V3Pool, zeroForOne: bool, s: SwapState)
    requires s.remaining > 0 && Body(tm, pool, zeroForOne, s).Ok?
    ensures var (next, initialized) := NextTick(pool.ticks, s.tick, zeroForOne);
            var target := tm.ratio(next);
            var s' := Body(tm, pool, zeroForOne, s).value;
            && LessFee(s.remaining, pool.fee).Ok? && AmountInMax(s.sqrtPrice, target, s.liquidity).Ok?
            && (StopsShort(s.sqrtPrice, target, s.liquidity, s.remaining, pool.fee) ==> s'.remaining == 0)
            && (!StopsShort(s.sqrtPrice, target, s.liquidity, s.remaining, pool.fee) ==>
                  && s'.remaining == s.remaining - FullCharge(s.sqrtPrice, target, s.liquidity, pool.fee) >= 0
                  && s'.sqrtPrice == target
                  && (initialized ==> s'.tick == (if zeroForOne then next - 1 else next)
                                      && s'.liquidity == ApplyNet(s.liquidity, pool.ticks[next])))
  {
    var target := tm.ratio(NextTick(pool.ticks, s.tick, zeroForOne).0);
    StepCharges(s.sqrtPrice, target, s.liquidity, s.remaining, pool.fee);
    FullStepCharges(s.sqrtPrice, target, s.liquidity, s.remaining, pool.fee);
    BodyProgress(tm, pool, zeroForOne, s);
    hide ComputeSwapStep, StopsShort, FullCharge, LessFee, AmountInMax;
  }

  lemma FullStepCharges(p: nat, t: nat, l: nat, remaining: nat, fee: nat)
    requires ComputeSwapStep(p, t, l, remaining, fee).Ok?
    ensures !StopsShort(p, t, l, remaining, fee) ==> var s := ComputeSwapStep(p, t, l, remaining, fee).value;
            s.amountIn + s.fee == FullCharge(p, t, l, fee)
  {
    var m := AmountInMax(p, t, l).value;
    StepCases(p, t, l, remaining, fee);
    if !StopsShort(p, t, l, remaining, fee) { FullStepFacts(p, t, l, m, fee); }
    hide ComputeSwapStep, StopsShort, AmountInMax, LessFee, FullStep, Mul, Div;
  }

  /** A threshold on the input alone: a run that does not abort is used up exactly below the
      capacity of its direction, and stands at the bound from there on. */
  lemma {:induction false} CapacityDecides(tm: TickMath, pool: V3Pool, zeroForOne: bool, s: SwapState)
    requires pool.fee <= PIPS && 0 < s.remaining < TWO_128
    requires !Walk(tm, pool, zeroForOne, s).end.Failed?
    ensures Walk(tm, pool, zeroForOne, s).end == AtBound <==>
            s.remaining >= Capacity(tm, pool, zeroForOne, s.sqrtPrice, s.tick, s.liquidity)
    decreases |Ahead(pool.ticks, s.tick, zeroForOne)|
  {
    hide *;
    WalkStep(tm, pool, zeroForOne, s);
    FullBody(tm, pool, zeroForOne, s);
    var (next, initialized) := NextTick(pool.ticks, s.tick, zeroForOne);
    var target := tm.ratio(next);
    CapacityStep(tm, pool, zeroForOne, s.sqrtPrice, s.tick, s.liquidity);
    StopsShortIff(s.sqrtPrice, target, s.liquidity, s.remaining, pool.fee);
    var charge := FullCharge(s.sqrtPrice, target, s.liquidity, pool.fee);
    AtLeastIs(Needed(AmountInMax(s.sqrtPrice, target, s.liquidity).value, pool.fee), charge + 1, s.remaining);
    var s' := Body(tm, pool, zeroForOne, s).value;
    if initialized {
      var here := AtLeast(Needed(AmountInMax(s.sqrtPrice, target, s.liquidity).value, pool.fee), charge + 1);
      var tick' := if zeroForOne then next - 1 else next;
      var rest := Capacity(tm, pool, zeroForOne, target, tick', ApplyNet(s.liquidity, pool.ticks[next]));
      AtLeastIs(here, charge + rest, s.remaining);
      if s'.remaining > 0 {
        FewerAhead(tm, pool, zeroForOne, s);
        CapacityDecides(tm, pool, zeroForOne, s');
      }
    }
  }

  lemma AtLeastIs(x: nat, y: nat, r: nat)
    ensures r >= AtLeast(x, y) <==> r >= x && r >= y
  {
  }

  /** So a quote that does not panic returns exactly below the capacity of the pool. */
  lemma QuoteReturnsIff(tm: TickMath, pool: V3Pool, amountIn: nat, tokenIn: Token)
    requires pool.fee <= PIPS && amountIn > 0 && V3AmountOut(tm, pool, amountIn, tokenIn) != Err(Panicked)
    ensures V3AmountOut(tm, pool, amountIn, tokenIn).Returns() <==>
            amountIn < Capacity(tm, pool, ZeroForOne(pool, tokenIn), pool.sqrtPrice, pool.tick, pool.liquidity)
  {
    CapacityDecides(tm, pool, ZeroForOne(pool, tokenIn), Start(pool, amountIn));
    hide Walk, Capacity;
  }

  /** An input that does not fit i128 panics, whatever the pool. */
  lemma HugeInputPanics(tm: TickMath, pool: V3Pool, amountIn: nat, tokenIn: Token)
    requires amountIn >= TWO_127
    ensures V3AmountOut(tm, pool, amountIn, tokenIn) == Err(Panicked)
  {
  }

  /** It never comes back with an error. */
  lemma NoErrorComesBack(tm: TickMath, pool: V3Pool, amountIn: nat, tokenIn: Token)
    ensures V3AmountOut(tm, pool, amountIn, tokenIn).Returns() <==> V3AmountOut(tm, pool, amountIn, tokenIn).Ok?
  {
    hide Walk;
  }

  /** With no tick ahead the capacity is one, the least there is, exactly on a free ride. */
  lemma NoTickCapacityIff(tm: TickMath, pool: V3Pool, zeroForOne: bool, price: nat, tick: int, liquidity: nat)
    requires pool.fee <= PIPS && Ahead(pool.ticks, tick, zeroForOne) == {}
    requires AmountInMax(price, tm.ratio(Bound(zeroForOne)), liquidity).Ok?
    ensures Capacity(tm, pool, zeroForOne, price, tick, liquidity) >= 1
    ensures Capacity(tm, pool, zeroForOne, price, tick, liquidity) == 1 <==>
            FreeRide(price, tm.ratio(Bound(zeroForOne)), liquidity)
  {
    var bound := tm.ratio(Bound(zeroForOne));
    NothingAhead(pool.ticks, tick, zeroForOne);
    CapacityStep(tm, pool, zeroForOne, price, tick, liquidity);
    FullChargeIsFreeIff(price, bound, liquidity, pool.fee);
    FreeMaximum(price, bound, liquidity);
    NeededIs(AmountInMax(price, bound, liquidity).value, pool.fee);
    hide Capacity, FreeRide, AmountInMax, Needed;
    assert FullCharge(price, bound, liquidity, pool.fee) >= AmountInMax(price, bound, liquidity).value by {
      hide Mul, Div;
    }
  }

  /** On a free ride no amount at all returns. */
  lemma FreeRideNeverReturns(tm: TickMath, pool: V3Pool, amountIn: nat, tokenIn: Token)
    requires Ahead(pool.ticks, pool.tick, ZeroForOne(pool, tokenIn)) == {} && amountIn > 0
    requires FreeRide(pool.sqrtPrice, tm.ratio(Bound(ZeroForOne(pool, tokenIn))), pool.liquidity)
    ensures !V3AmountOut(tm, pool, amountIn, tokenIn).Returns()
  {
    var zeroForOne := ZeroForOne(pool, tokenIn);
    var s := Start(pool, amountIn);
    if V3AmountOut(tm, pool, amountIn, tokenIn) != Err(Panicked) {
      QuoteWalks(tm, pool, amountIn, tokenIn);
      WalkStep(tm, pool, zeroForOne, s);
      FullBody(tm, pool, zeroForOne, s);
      NothingAhead(pool.ticks, pool.tick, zeroForOne);
      LessFeeBounds(amountIn, pool.fee);
      NoTickCapacityIff(tm, pool, zeroForOne, pool.sqrtPrice, pool.tick, pool.liquidity);
      QuoteReturnsIff(tm, pool, amountIn, tokenIn);
    }
    hide *;
  }

  /** Which is what becomes of a pool loaded without ticks at price 1 and a liquidity of 2^65 or
      more: no amount of token 0 is ever quoted. */
  lemma PlainPoolNeverReturns(tm: TickMath, pool: V3Pool, amountIn: nat)
    requires pool.ticks == map[] && pool.sqrtPrice == Q96 && pool.liquidity >= 0x2_0000_0000_0000_0000
    requires tm.ratio(MIN_TICK) == 4295128739 && amountIn > 0
    ensures !V3AmountOut(tm, pool, amountIn, pool.token0).Returns()
  {
    assert Ahead(pool.ticks, pool.tick, true) == {};
    FreeRideAtPriceOne(4295128739, pool.liquidity);
    hide FreeRide, V3AmountOut;
    FreeRideNeverReturns(tm, pool, amountIn, pool.token0);
  }

  /** And otherwise one unit does, where no product on its way leaves its width: with no tick ahead
      some amount returns exactly off a free ride. */
  lemma SomeAmountReturnsIff(tm: TickMath, pool: V3Pool, tokenIn: Token)
    requires Ahead(pool.ticks, pool.tick, ZeroForOne(pool, tokenIn)) == {}
    requires 0 < pool.fee <= PIPS && 0 < pool.sqrtPrice < TWO_128
    requires var bound := tm.ratio(Bound(ZeroForOne(pool, tokenIn)));
             && AmountInMax(pool.sqrtPrice, bound, pool.liquidity).Ok?
             && (pool.sqrtPrice >= bound ==> Mul(Mul(pool.liquidity, pool.sqrtPrice), Q96) < TWO_256)
    ensures (exists a: nat :: a > 0 && V3AmountOut(tm, pool, a, tokenIn).Returns()) <==>
            !FreeRide(pool.sqrtPrice, tm.ratio(Bound(ZeroForOne(pool, tokenIn))), pool.liquidity)
  {
    var zeroForOne := ZeroForOne(pool, tokenIn);
    var bound := tm.ratio(Bound(zeroForOne));
    FreeMaximum(pool.sqrtPrice, bound, pool.liquidity);
    if FreeRide(pool.sqrtPrice, bound, pool.liquidity) {
      forall a: nat | a > 0
        ensures !V3AmountOut(tm, pool, a, tokenIn).Returns()
      {
        FreeRideNeverReturns(tm, pool, a, tokenIn);
      }
      hide *;
    } else {
      OneUnitStopsShort(pool.sqrtPrice, bound, pool.liquidity, pool.fee);
      OneUnitReturns(tm, pool, tokenIn);
      hide *;
    }
  }

  lemma OneUnitReturns(tm: TickMath, pool: V3Pool, tokenIn: Token)
    requires var zeroForOne := ZeroForOne(pool, tokenIn);
             && Ahead(pool.ticks, pool.tick, zeroForOne) == {} && pool.sqrtPrice < TWO_128
             && ComputeSwapStep(pool.sqrtPrice, tm.ratio(Bound(zeroForOne)), pool.liquidity, 1, pool.fee)
                == Ok(Step(pool.sqrtPrice, 0, 0, 1))
    ensures V3AmountOut(tm, pool, 1, tokenIn) == Ok(0)
    ensures V3AmountOut(tm, pool, 1, tokenIn).Returns()
  {
    var zeroForOne := ZeroForOne(pool, tokenIn);
    var s := Start(pool, 1);
    NothingAhead(pool.ticks, pool.tick, zeroForOne);
    hide ComputeSwapStep, Ahead, NextTick;
    assert Body(tm, pool, zeroForOne, s).Ok?;
    var s' := Body(tm, pool, zeroForOne, s).value;
    assert s'.remaining == 0 && s'.calculated == 0;
    WalkStep(tm, pool, zeroForOne, s);
    hide Walk, Body;
  }

  lemma QuoteWalks(tm: TickMath, pool: V3Pool, amountIn: nat, tokenIn: Token)
    requires amountIn > 0 && V3AmountOut(tm, pool, amountIn, tokenIn) != Err(Panicked)
    ensures InI128(amountIn)
    ensures !Walk(tm, pool, ZeroForOne(pool, tokenIn), Start(pool, amountIn)).end.Failed?
  {
    hide Walk;
  }

  /** Three values of the float conversions: every tick above 443636 saturates at 2^128 - 1, and
      443636 is what is read back from there. */
  ghost predicate Saturates(tm: TickMath) {
    tm.ratio(887220) == tm.ratio(MAX_TICK) == TWO_128 - 1 && tm.tickAt(TWO_128 - 1) == 443636
  }

  /** One full-range position of liquidity 1, no fee, price 1. */
  predicate FullRange(pool: V3Pool) {
    && pool.liquidity == 1 && pool.sqrtPrice == Q96 && pool.tick == 0 && pool.fee == 0
    && pool.ticks == map[-887220 := 1, 887220 := -1]
  }

  const PAST_RANGE := SwapState(2, 0, TWO_128 - 1, 887220, 0)

  /** A concrete quote that never returns, for an input of 2^32 of token 1.  The way to the upper end
      costs 2^32 - 2; after that the loop crosses tick 887220 again and again. */
  lemma FullRangeQuoteDiverges(tm: TickMath, pool: V3Pool, tokenIn: Token, n: nat)
    requires Saturates(tm) && FullRange(pool) && tokenIn.address != pool.token0.address
    ensures V3AmountOut(tm, pool, 0x1_0000_0000, tokenIn) == Err(Diverges)
    ensures var r := Iterate(tm, pool, false, Start(pool, 0x1_0000_0000), n);
            r.Ok? && r.value.remaining > 0 && (n > 0 ==> r.value.remaining == 2)
  {
    var s := Start(pool, 0x1_0000_0000);
    assert s.remaining == 0x1_0000_0000 && PAST_RANGE.remaining == 2;
    assert InI128(0x1_0000_0000) && !ZeroForOne(pool, tokenIn);
    FullRangeEnters(tm, pool);
    FullRangeStands(tm, pool);
    QuoteAtBound(tm, pool, 0x1_0000_0000, tokenIn);
    hide *;
    WalkStep(tm, pool, false, s);
    WalkStep(tm, pool, false, PAST_RANGE);
    IterateStep(tm, pool, false, s, n);
    if n > 0 { StandingIsForever(tm, pool, false, PAST_RANGE, n - 1); }
  }

  lemma QuoteAtBound(tm: TickMath, pool: V3Pool, amountIn: nat, tokenIn: Token)
    requires amountIn > 0 && InI128(amountIn)
    ensures Walk(tm, pool, ZeroForOne(pool, tokenIn), Start(pool, amountIn)).end == AtBound ==>
              V3AmountOut(tm, pool, amountIn, tokenIn) == Err(Diverges)
  {
    hide Walk, Start;
  }

  lemma FullRangeEnters(tm: TickMath, pool: V3Pool)
    requires Saturates(tm) && FullRange(pool)
    ensures var s := Start(pool, 0x1_0000_0000);
            Body(tm, pool, false, s) == Ok(PAST_RANGE) && NextTick(pool.ticks, s.tick, false).1
  {
    assert Ahead(pool.ticks, 0, false) == {887220};
    FullRangeFirstStep();
    hide ComputeSwapStep, LessFee;
  }

  lemma FullRangeStands(tm: TickMath, pool: V3Pool)
    requires Saturates(tm) && FullRange(pool)
    ensures Settled(tm, pool, false) && Standing(tm, pool, false, PAST_RANGE)
    ensures Body(tm, pool, false, PAST_RANGE).Ok? && Body(tm, pool, false, PAST_RANGE).value.remaining == 2
    ensures !NextTick(pool.ticks, PAST_RANGE.tick, false).1
  {
    assert Ahead(pool.ticks, 887220, false) == {};
    assert Ahead(pool.ticks, 443636, false) == {887220};
    LessFeeOfTwo();
    hide ComputeSwapStep, LessFee;
    assert Settled(tm, pool, false) && Standing(tm, pool, false, PAST_RANGE);
    StandingStays(tm, pool, false, PAST_RANGE);
    hide Body, Settled, Standing;
  }

  lemma LessFeeOfTwo()
    ensures LessFee(2, 0).Ok?
  {
    MulIs(2, PIPS);
  }

  lemma FullRangeFirstStep()
    ensures ComputeSwapStep(Q96, TWO_128 - 1, 1, 0x1_0000_0000, 0) == Ok(Step(TWO_128 - 1, 0xFFFF_FFFE, 0, 0))
  {
    FullRangeInput();
    FullRangeAmounts();
    MulIs(0xFFFF_FFFE, 0);
    FloorLe(PIPS - 1, PIPS, 1);
    hide Mul, Div, LessFee, Delta0, Delta1;
  }

  lemma FullRangeInput()
    ensures LessFee(0x1_0000_0000, 0) == Ok(0x1_0000_0000)
  {
    MulIs(0x1_0000_0000, PIPS);
    FloorLe(0x1_0000_0000 * PIPS, PIPS, 0x1_0000_0000);
    FloorLe(0x1_0000_0000 * PIPS, PIPS, 0x1_0000_0001);
    hide Mul, Div;
  }

  lemma FullRangeAmounts()
    ensures Delta1(1, Q96, TWO_128 - 1) == 0xFFFF_FFFE && Delta0(1, Q96, TWO_128 - 1) == Ok(0)
  {
    var lm := TWO_128 - 1 - Q96;
    MulIs(1, lm);
    MulIs(lm, Q96);
    MulIs(Q96, TWO_128 - 1);
    FloorLe(lm, Q96, 0xFFFF_FFFE);
    FloorLe(lm, Q96, 0xFFFF_FFFF);
    FloorLe(lm * Q96, Q96 * (TWO_128 - 1), 1);
    hide Mul, Div;
  }

  lemma LessFeeShrinks(r: nat, r': nat, fee: nat)
    requires r <= r' && LessFee(r', fee).Ok?
    ensures LessFee(r, fee).Ok?
  {
    MulIs(r, PIPS - fee);
    MulIs(r', PIPS - fee);
    MulMono(r, r', PIPS - fee);
    hide Mul, Div;
  }
}
