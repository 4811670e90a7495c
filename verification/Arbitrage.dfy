/** Cycles: `find_arbitrage_loops` of pricing/src/router.rs, and the closed form of a route
    over constant-product pools that decides which cycles can ever pay. */
module Arbitrage {
  import opened Common
  import opened ConstantProduct
  import opened Router
  import opened RouteFinding
  import ConcentratedLiquidity
  import SwapLoop

  type V3Pool = ConcentratedLiquidity.V3Pool

  // ----- the closed form of a V2 route

  /** The fraction p·a / (q + r·a) as a function of the input a. */
  datatype Fraction = Fraction(p: nat, q: nat, r: nat)

  const IDENTITY := Fraction(1, 1, 0)

  /** Ordered reserves and fee multiplier of a V2 pool entered with a token. */
  datatype Hop = Hop(reserveIn: nat, reserveOut: nat, multiplier: nat)

  ghost predicate AllV2(pools: seq<Pool>, path: seq<Token>) {
    |path| >= |pools| && forall i :: 0 <= i < |pools| ==>
      pools[i].V2? && pools[i].pair.feeBps <= BPS && GetReservesOrdered(pools[i].pair, path[i]).Ok?
  }

  ghost function HopOf(p: Pool, t: Token): Hop
    requires p.V2? && p.pair.feeBps <= BPS && GetReservesOrdered(p.pair, t).Ok?
  {
    var (ri, ro) := GetReservesOrdered(p.pair, t).value;
    Hop(ri, ro, BPS - p.pair.feeBps)
  }

  function Compose(f: Fraction, h: Hop): Fraction {
    Fraction(h.multiplier * h.reserveOut * f.p,
             BPS * h.reserveIn * f.q,
             BPS * h.reserveIn * f.r + h.multiplier * f.p)
  }

  /** The fraction of a whole route, built hop by hop. */
  ghost function RouteFraction(f: Fraction, pools: seq<Pool>, path: seq<Token>): Fraction
    requires AllV2(pools, path)
    decreases pools
  {
    if pools == [] then f else RouteFraction(Compose(f, HopOf(pools[0], path[0])), pools[1..], path[1..])
  }

  /** An amount reached from `a` lies on or below a fraction; a dead fraction means a dead route. */
  ghost predicate Below(x: nat, f: Fraction, a: nat) {
    x * (f.q + f.r * a) <= f.p * a && (f.q == 0 ==> x == 0)
  }

  lemma HopBelow(x: nat, f: Fraction, a: nat, h: Hop)
    requires Below(x, f, a)
    ensures Below(Quote(h.reserveIn, h.reserveOut, h.multiplier, x), Compose(f, h), a)
  {
    var o := Quote(h.reserveIn, h.reserveOut, h.multiplier, x);
    if h.reserveIn == 0 || x == 0 {
      assert o == 0;
    } else {
      QuoteIsLargest(h.reserveIn, h.reserveOut, h.multiplier, x, o);
      QuoteBelowReserve(h.reserveIn, h.reserveOut, h.multiplier, x);
      hide Quote;
      HopAlgebra(BPS * h.reserveIn, h.reserveOut, h.multiplier, x, o, f.q + f.r * a, f.p * a);
      ComposeAlgebra(BPS * h.reserveIn, h.reserveOut, h.multiplier, f, a, o);
      if Compose(f, h).q == 0 { MulIsZero(BPS * h.reserveIn, f.q); }
    }
  }

  lemma MulIsZero(x: nat, y: nat)
    requires x * y == 0
    ensures x == 0 || y == 0
  {
  }

  /** o·b <= g·x·(ro - o) and x·s <= t give o·(b·s + g·t) <= g·ro·t. */
  lemma HopAlgebra(b: nat, ro: nat, g: nat, x: nat, o: nat, s: nat, t: nat)
    requires o <= ro && (b + g * x) * (ro - o) >= b * ro
    requires x * s <= t
    ensures o * (b * s) + o * (g * t) <= g * ro * t
  {
    var k := g * (ro - o);
    assert (b + g * x) * (ro - o) == b * ro - o * b + k * x;
    ScaleDown(o * b, k, x, s, t);
    assert t * k == g * ro * t - o * (g * t);
    assert (o * b) * s == o * (b * s);
  }

  lemma ScaleDown(u: nat, k: nat, x: nat, s: nat, t: nat)
    requires u <= k * x && x * s <= t
    ensures u * s <= t * k
  {
    MulMono(u, k * x, s);
    MulMono(x * s, t, k);
    assert (k * x) * s == (x * s) * k;
  }

  lemma ComposeAlgebra(b: nat, ro: nat, g: nat, f: Fraction, a: nat, o: nat)
    requires o * (b * (f.q + f.r * a)) + o * (g * (f.p * a)) <= g * ro * (f.p * a)
    ensures o * (b * f.q + (b * f.r + g * f.p) * a) <= g * ro * f.p * a
  {
    var (u, v) := (b * (f.q + f.r * a), g * (f.p * a));
    var w := b * f.q + (b * f.r + g * f.p) * a;
    DenominatorOf(b, g, f, a);
    assert o * u + o * v == o * (u + v);
    assert g * ro * (f.p * a) == g * ro * f.p * a;
  }

  lemma DenominatorOf(b: nat, g: nat, f: Fraction, a: nat)
    ensures b * (f.q + f.r * a) + g * (f.p * a) == b * f.q + (b * f.r + g * f.p) * a
  {
    assert b * (f.q + f.r * a) == b * f.q + (b * f.r) * a;
    assert g * (f.p * a) == (g * f.p) * a;
  }

  lemma {:induction false} RouteBelow(tm: TickMath, pools: seq<Pool>, path: seq<Token>, x: nat, f: Fraction, a: nat)
    requires AllV2(pools, path) && Below(x, f, a) && RouteOutput(tm, pools, path, x).Ok?
    ensures Below(RouteOutput(tm, pools, path, x).value, RouteFraction(f, pools, path), a)
    decreases pools
  {
    hide Below, Compose, GetAmountOut;
    if pools == [] {
    } else {
      var h := HopOf(pools[0], path[0]);
      HopBelow(x, f, a, h);
      AmountOutIsQuote(pools[0].pair, x, path[0]);
      hide Quote;
      assert AllV2(pools[1..], path[1..]);
      RouteBelow(tm, pools[1..], path[1..], PoolQuote(tm, pools[0], x, path[0]).value, Compose(f, h), a);
    }
  }

  /** However many hops, the floored output is at most the floor of one composed fraction. */
  lemma OutputBelowComposedFraction(tm: TickMath, route: Route, a: nat)
    requires AllV2(route.pools, route.path) && RouteOutput(tm, route.pools, route.path, a).Ok?
    ensures var f := RouteFraction(IDENTITY, route.pools, route.path);
            var out := RouteOutput(tm, route.pools, route.path, a).value;
            if f.q == 0 then out == 0 else f.q + f.r * a > 0 && out <= Div(f.p * a, f.q + f.r * a)
  {
    RouteBelow(tm, route.pools, route.path, a, IDENTITY, a);
    hide *;
    BelowIsFloor(RouteOutput(tm, route.pools, route.path, a).value, RouteFraction(IDENTITY, route.pools, route.path),
        a);
  }

  lemma BelowIsFloor(x: nat, f: Fraction, a: nat)
    requires Below(x, f, a)
    ensures if f.q == 0 then x == 0 else f.q + f.r * a > 0 && x <= Div(f.p * a, f.q + f.r * a)
  {
    hide Div;
    if f.q > 0 {
      MulMono(0, f.r, a);
      FloorLe(f.p * a, f.q + f.r * a, x);
    }
  }

  /** A cycle whose output products do not exceed its input products never pays, whatever
      the amount. */
  lemma UnprofitableForEveryAmount(tm: TickMath, route: Route, a: nat)
    requires AllV2(route.pools, route.path) && RouteOutput(tm, route.pools, route.path, a).Ok?
    requires var f := RouteFraction(IDENTITY, route.pools, route.path); f.p <= f.q
    ensures RouteOutput(tm, route.pools, route.path, a).value <= a
  {
    RouteBelow(tm, route.pools, route.path, a, IDENTITY, a);
    var f := RouteFraction(IDENTITY, route.pools, route.path);
    hide *;
    BelowNoGain(RouteOutput(tm, route.pools, route.path, a).value, f, a);
  }

  lemma BelowNoGain(x: nat, f: Fraction, a: nat)
    requires Below(x, f, a) && f.p <= f.q
    ensures x <= a
  {
    if f.q > 0 {
      MulMono(f.p, f.q, a);
      MulMono(f.q, f.q + f.r * a, x);
      MulCancel(x, a, f.q);
    }
  }

  /** p is the product of (10000 - fee)·reserveOut and q the product of 10000·reserveIn. */
  lemma {:induction false} FractionIsProducts(f: Fraction, pools: seq<Pool>, path: seq<Token>)
    requires AllV2(pools, path)
    ensures RouteFraction(f, pools, path).p == OutProduct(pools, path) * f.p
    ensures RouteFraction(f, pools, path).q == InProduct(pools, path) * f.q
    decreases pools
  {
    if pools == [] {
    } else {
      var h := HopOf(pools[0], path[0]);
      assert AllV2(pools[1..], path[1..]);
      FractionIsProducts(Compose(f, h), pools[1..], path[1..]);
      ThreeFactors(OutProduct(pools[1..], path[1..]), h.multiplier * h.reserveOut, f.p);
      ThreeFactors(InProduct(pools[1..], path[1..]), BPS * h.reserveIn, f.q);
    }
  }

  lemma ThreeFactors(x: nat, y: nat, z: nat)
    ensures x * (y * z) == (y * x) * z
  {
  }

  ghost function OutProduct(pools: seq<Pool>, path: seq<Token>): nat
    requires AllV2(pools, path)
    decreases pools
  {
    if pools == [] then 1 else
    var h := HopOf(pools[0], path[0]);
    (h.multiplier * h.reserveOut) * OutProduct(pools[1..], path[1..])
  }

  ghost function InProduct(pools: seq<Pool>, path: seq<Token>): nat
    requires AllV2(pools, path)
    decreases pools
  {
    if pools == [] then 1 else
    var h := HopOf(pools[0], path[0]);
    (BPS * h.reserveIn) * InProduct(pools[1..], path[1..])
  }

  // ----- the same route without floors

  ghost function ExactOutput(pools: seq<Pool>, path: seq<Token>, x: real): real
    requires AllV2(pools, path) && Live(pools, path) && x >= 0.0
    decreases pools
  {
    if pools == [] then x else
    var h := HopOf(pools[0], path[0]);
    ExactHopPositive(h, x);
    ExactOutput(pools[1..], path[1..], ExactHop(h, x))
  }

  ghost predicate Live(pools: seq<Pool>, path: seq<Token>)
    requires AllV2(pools, path)
  {
    forall i :: 0 <= i < |pools| ==> HopOf(pools[i], path[i]).reserveIn > 0
  }

  ghost function ExactHop(h: Hop, x: real): real
    requires h.reserveIn > 0 && x >= 0.0
  {
    var g := h.multiplier as real;
    assert g * x >= 0.0;
    g * x * h.reserveOut as real / ((BPS * h.reserveIn) as real + g * x)
  }

  lemma ExactHopPositive(h: Hop, x: real)
    requires h.reserveIn > 0 && x >= 0.0
    ensures ExactHop(h, x) >= 0.0
    ensures var g := h.multiplier as real;
            ExactHop(h, x) * ((BPS * h.reserveIn) as real + g * x) == g * x * h.reserveOut as real
  {
    var g := h.multiplier as real;
    assert g * x >= 0.0;
    assert g * x * h.reserveOut as real >= 0.0;
  }

  ghost predicate OnFraction(x: real, f: Fraction, a: real) {
    x * (f.q as real + f.r as real * a) == f.p as real * a
  }

  lemma HopOnFraction(x: real, f: Fraction, a: real, h: Hop)
    requires h.reserveIn > 0 && x >= 0.0 && OnFraction(x, f, a)
    ensures ExactHop(h, x) >= 0.0 && OnFraction(ExactHop(h, x), Compose(f, h), a)
  {
    ExactHopPositive(h, x);
    var o := ExactHop(h, x);
    hide ExactHop;
    var b, g, ro := (BPS * h.reserveIn) as real, h.multiplier as real, h.reserveOut as real;
    var p, q, r := f.p as real, f.q as real, f.r as real;
    var f' := Compose(f, h);
    assert f'.p as real == g * ro * p && f'.q as real == b * q && f'.r as real == b * r + g * p;
    hide *;
    ExactAlgebra(o, x, b, g, ro, q + r * a, p * a);
    assert o * (b * (q + r * a)) + o * (g * (p * a)) == o * (b * q + (b * r + g * p) * a);
    assert g * ro * (p * a) == g * ro * p * a;
  }

  lemma ExactAlgebra(o: real, x: real, b: real, g: real, ro: real, s: real, t: real)
    requires o * (b + g * x) == g * x * ro && x * s == t
    ensures o * (b * s) + o * (g * t) == g * ro * t
  {
    assert (o * (b + g * x)) * s == o * (b * s) + o * (g * (x * s));
    assert (g * x * ro) * s == g * ro * (x * s);
  }

  lemma {:induction false} ExactOutputOnFraction(pools: seq<Pool>, path: seq<Token>, x: real, f: Fraction, a: real)
    requires AllV2(pools, path) && Live(pools, path) && x >= 0.0 && OnFraction(x, f, a)
    ensures OnFraction(ExactOutput(pools, path, x), RouteFraction(f, pools, path), a)
    decreases pools
  {
    if pools == [] {
    } else {
      var h := HopOf(pools[0], path[0]);
      HopOnFraction(x, f, a, h);
      hide OnFraction, ExactHop, Compose;
      assert AllV2(pools[1..], path[1..]);
      assert forall i :: 0 <= i < |pools[1..]| ==>
          HopOf(pools[1..][i], path[1..][i]) == HopOf(pools[i + 1], path[i + 1]);
      ExactOutputOnFraction(pools[1..], path[1..], ExactHop(h, x), Compose(f, h), a);
    }
  }

  /** Without floors the closed form is exact, and a live cycle pays for the amount a > 0
      exactly when r·a < p - q: so it pays for some amount exactly when p > q. */
  lemma ExactProfitIff(route: Route, a: real)
    requires AllV2(route.pools, route.path) && Live(route.pools, route.path) && a > 0.0
    ensures var f := RouteFraction(IDENTITY, route.pools, route.path);
            ExactOutput(route.pools, route.path, a) > a <==> f.r as real * a < f.p as real - f.q as real
  {
    assert OnFraction(a, IDENTITY, a);
    assert IDENTITY.q == 1;
    hide *;
    ExactOutputOnFraction(route.pools, route.path, a, IDENTITY, a);
    FractionIsProducts(IDENTITY, route.pools, route.path);
    InProductPositive(route.pools, route.path);
    ProfitOnFraction(ExactOutput(route.pools, route.path, a), RouteFraction(IDENTITY, route.pools, route.path), a);
  }

  lemma ProfitOnFraction(out: real, f: Fraction, a: real)
    requires a > 0.0 && f.q > 0 && OnFraction(out, f, a)
    ensures out > a <==> f.r as real * a < f.p as real - f.q as real
  {
    ProfitAlgebra(out, a, f.p as real, f.q as real, f.r as real);
  }

  lemma ProfitAlgebra(out: real, a: real, p: real, q: real, r: real)
    requires a > 0.0 && q > 0.0 && r >= 0.0 && out * (q + r * a) == p * a
    ensures out > a <==> r * a < p - q
  {
    var d := q + r * a;
    assert r * a >= 0.0;
    assert (out - a) * d == (p - d) * a;
    if out > a { assert (out - a) * d > 0.0; } else { assert (out - a) * d <= 0.0; }
    if p > d { assert (p - d) * a > 0.0; } else { assert (p - d) * a <= 0.0; }
  }

  lemma {:induction false} InProductPositive(pools: seq<Pool>, path: seq<Token>)
    requires AllV2(pools, path) && Live(pools, path)
    ensures InProduct(pools, path) > 0
    decreases pools
  {
    if pools == [] {
    } else {
      assert AllV2(pools[1..], path[1..]);
      assert forall i :: 0 <= i < |pools[1..]| ==>
          HopOf(pools[1..][i], path[1..][i]) == HopOf(pools[i + 1], path[i + 1]);
      InProductPositive(pools[1..], path[1..]);
    }
  }

  // ----- loops

  /** A cycle of 2 to `maxHops` hops through `tokenIn`, with no other token met twice. */
  ghost predicate IsCycle(pools: seq<Pool>, tokenIn: Token, maxHops: nat, r: Route) {
    && IsWalk(pools, r)
    && 2 <= |r.pools| <= maxHops
    && r.path[0] == tokenIn && r.path[|r.pools|].address == tokenIn.address
    && DistinctTokens(r.path[1..])
  }

  ghost predicate Profitable(tm: TickMath, amountIn: nat, r: Route) {
    Shaped(r) && RouteOutput(tm, r.pools, r.path, amountIn).Ok?
        && RouteOutput(tm, r.pools, r.path, amountIn).value > amountIn
  }

  function Through(e: Edge, tokenIn: Token, sub: Route): Route {
    Route([e.pool] + sub.pools, [tokenIn] + sub.path)
  }

  /** A cycle is one edge followed by a simple route back. */
  lemma CycleIsEdgeAndRoute(pools: seq<Pool>, tokenIn: Token, maxHops: nat, e: Edge, sub: Route)
    requires maxHops > 1 && Shaped(sub)
    ensures IsCycle(pools, tokenIn, maxHops, Through(e, tokenIn, sub)) && sub.path[0] == e.to <==>
            e in Neighbors(pools, tokenIn.address) && IsSimpleRoute(pools, e.to, tokenIn, maxHops - 1, sub)
  {
    var r := Through(e, tokenIn, sub);
    NeighborsAreJoins(pools, tokenIn, e);
    hide Neighbors, Joins;
    assert r.path[1..] == sub.path;
    if IsCycle(pools, tokenIn, maxHops, r) && sub.path[0] == e.to {
      assert Joins(r.pools[0], r.path[0], r.path[1]);
      forall i | 0 <= i < |sub.pools|
        ensures sub.pools[i] in pools && Joins(sub.pools[i], sub.path[i], sub.path[i + 1])
      {
        assert r.pools[i + 1] in pools && Joins(r.pools[i + 1], r.path[i + 1], r.path[i + 2]);
      }
    }
    if e in Neighbors(pools, tokenIn.address) && IsSimpleRoute(pools, e.to, tokenIn, maxHops - 1, sub) {
      forall i | 0 <= i < |r.pools|
        ensures r.pools[i] in pools && Joins(r.pools[i], r.path[i], r.path[i + 1])
      {
        if i > 0 { assert sub.pools[i - 1] in pools && Joins(sub.pools[i - 1], sub.path[i - 1], sub.path[i]); }
      }
    }
  }

  /** Some of the first `n` edges out of `tokenIn` starts the cycle `r`. */
  ghost predicate StartsWithin(edges: seq<Edge>, n: nat, r: Route)
    requires n <= |edges|
  {
    Shaped(r) && |r.pools| > 0 && exists k :: 0 <= k < n && edges[k] == Edge(r.pools[0], r.path[1])
  }

  /** The quote of the cycle comes back. */
  ghost predicate Answered(tm: TickMath, amountIn: nat, r: Route) {
    Shaped(r) && RouteOutput(tm, r.pools, r.path, amountIn).Returns()
  }

  /** Comes back exactly when the quote of every cycle does, and then with exactly the profitable
      ones. */
  method FindArbitrageLoops(tm: TickMath, graph: Graph, ghost pools: seq<Pool>, tokenIn: Token, amountIn: nat,
                            maxHops: nat)
    returns (found: Result<seq<Route>>)
    requires GraphOf(graph, pools)
    ensures found.Ok? <==> forall r :: IsCycle(pools, tokenIn, maxHops, r) ==> Answered(tm, amountIn, r)
    ensures found.Err? ==> !found.error.Returned()
    ensures found.Ok? ==>
              forall r :: r in found.value <==> IsCycle(pools, tokenIn, maxHops, r) && Profitable(tm, amountIn, r)
    ensures found.Ok? && NoRepeats(pools) ==> NoRepeats(found.value)
  {
    hide *;
    var loops: seq<Route> := [];
    NothingRepeats<Route>();
    var neighbors := if tokenIn.address in graph then graph[tokenIn.address] else [];
    assert neighbors == Neighbors(pools, tokenIn.address) by { GraphLookup(graph, pools, tokenIn.address); }
    if maxHops <= 1 {
      NoShortCycles(pools, tokenIn, maxHops);
      return Ok(loops);
    }
    NothingYet(pools, neighbors, tokenIn, maxHops);
    for n := 0 to |neighbors|
      invariant forall r :: r in loops <==>
                  CycleWithin(pools, neighbors, n, tokenIn, maxHops, r) && Profitable(tm, amountIn, r)
      invariant forall r :: CycleWithin(pools, neighbors, n, tokenIn, maxHops, r) ==> Answered(tm, amountIn, r)
      invariant NoRepeats(pools) ==> NoRepeats(loops)
    {
      var e := neighbors[n];
      var subRoutes := FindAllRoutes(graph, pools, e.to, tokenIn, maxHops - 1);
      ghost var before := loops;
      NothingThrough(e, tokenIn, subRoutes);
      for k := 0 to |subRoutes|
        invariant forall r :: r in loops <==>
                    r in before || (GoesThrough(e, tokenIn, subRoutes, k, r) && Profitable(tm, amountIn, r))
        invariant forall r :: GoesThrough(e, tokenIn, subRoutes, k, r) ==> Answered(tm, amountIn, r)
        invariant NoRepeats(pools) ==> NoRepeats(loops)
      {
        assert subRoutes[k] in subRoutes;
        SimpleIsShaped(pools, e, tokenIn, maxHops - 1, subRoutes[k]);
        var full := Through(e, tokenIn, subRoutes[k]);
        forall r
          ensures GoesThrough(e, tokenIn, subRoutes, k + 1, r) <==>
                  GoesThrough(e, tokenIn, subRoutes, k, r) || r == full
        {
          OneMoreRoute(e, tokenIn, subRoutes, k, k + 1, r);
        }
        OutputMeans(tm, amountIn, full);
        var output := GetOutput(tm, full, amountIn);
        if output.Err? && !output.error.Returned() {
          CycleIsEdgeAndRoute(pools, tokenIn, maxHops, e, subRoutes[k]);
          assert e in neighbors;
          return Err(output.error);
        }
        if output.Ok? && output.value > amountIn {
          if NoRepeats(pools) {
            LoopIsNew(pools, neighbors, n, tokenIn, maxHops, subRoutes, k);
            AppendNew(loops, full);
          }
          loops := loops + [full];
        }
      }
      forall r
        ensures CycleWithin(pools, neighbors, n + 1, tokenIn, maxHops, r) <==>
                CycleWithin(pools, neighbors, n, tokenIn, maxHops, r) ||
                GoesThrough(e, tokenIn, subRoutes, |subRoutes|, r)
      {
        OneMoreEdge(pools, neighbors, n, tokenIn, maxHops, subRoutes, r);
      }
    }
    forall r
      ensures CycleWithin(pools, neighbors, |neighbors|, tokenIn, maxHops, r) <==> IsCycle(pools, tokenIn, maxHops, r)
    {
      AllEdges(pools, neighbors, tokenIn, maxHops, r);
    }
    return Ok(loops);
  }

  ghost predicate CycleWithin(pools: seq<Pool>, edges: seq<Edge>, n: nat, tokenIn: Token, maxHops: nat, r: Route)
    requires n <= |edges|
  {
    StartsWithin(edges, n, r) && IsCycle(pools, tokenIn, maxHops, r)
  }

  /** The cycle takes the edge and then one of the first `k` routes. */
  ghost predicate GoesThrough(e: Edge, tokenIn: Token, subRoutes: seq<Route>, k: nat, r: Route)
    requires k <= |subRoutes|
  {
    exists i :: 0 <= i < k && r == Through(e, tokenIn, subRoutes[i])
  }

  lemma NothingThrough(e: Edge, tokenIn: Token, subRoutes: seq<Route>)
    ensures forall r :: !GoesThrough(e, tokenIn, subRoutes, 0, r)
  {
  }

  lemma OneMoreRoute(e: Edge, tokenIn: Token, subRoutes: seq<Route>, k: nat, next: nat, r: Route)
    requires k < |subRoutes| && next == k + 1
    ensures GoesThrough(e, tokenIn, subRoutes, next, r) <==>
            GoesThrough(e, tokenIn, subRoutes, k, r) || r == Through(e, tokenIn, subRoutes[k])
  {
  }

  lemma OutputMeans(tm: TickMath, amountIn: nat, r: Route)
    requires Shaped(r) && |r.path| >= |r.pools|
    ensures var output := RouteOutput(tm, r.pools, r.path, amountIn);
            && (Profitable(tm, amountIn, r) <==> output.Ok? && output.value > amountIn)
            && (Answered(tm, amountIn, r) <==> output.Ok? || output.error.Returned())
  {
    hide RouteOutput;
  }

  lemma NothingRepeats<T>()
    ensures NoRepeats<T>([])
  {
  }

  lemma AppendNew<T>(s: seq<T>, x: T)
    requires NoRepeats(s) && x !in s
    ensures NoRepeats(s + [x])
  {
  }

  /** With distinct pools a cycle is not met before: its first edge was not, since an edge listed
      twice leads back to the start, and its way back is new among those from that edge. */
  lemma LoopIsNew(pools: seq<Pool>, edges: seq<Edge>, n: nat, tokenIn: Token, maxHops: nat,
                  subRoutes: seq<Route>, k: nat)
    requires NoRepeats(pools) && NoRepeats(subRoutes) && k < |subRoutes|
    requires n < |edges| && edges == Neighbors(pools, tokenIn.address) && maxHops > 1
    requires forall s :: s in subRoutes <==> IsSimpleRoute(pools, edges[n].to, tokenIn, maxHops - 1, s)
    ensures !CycleWithin(pools, edges, n, tokenIn, maxHops, Through(edges[n], tokenIn, subRoutes[k]))
    ensures !GoesThrough(edges[n], tokenIn, subRoutes, k, Through(edges[n], tokenIn, subRoutes[k]))
  {
    var e, sub := edges[n], subRoutes[k];
    var full := Through(e, tokenIn, sub);
    assert sub in subRoutes;
    NeighborsDiffer(pools, tokenIn.address, {tokenIn.address});
    hide Neighbors, Joins, IsCycle;
    assert e.to.address != tokenIn.address;
    assert full.pools[0] == e.pool && full.path[1] == sub.path[0] == e.to;
    forall i | 0 <= i < k
      ensures full != Through(e, tokenIn, subRoutes[i])
    {
      ThroughIsInjective(e, tokenIn, subRoutes[i], sub);
    }
  }

  lemma ThroughIsInjective(e: Edge, tokenIn: Token, a: Route, b: Route)
    ensures Through(e, tokenIn, a) == Through(e, tokenIn, b) ==> a == b
  {
    var (f, g) := (Through(e, tokenIn, a), Through(e, tokenIn, b));
    assert a == Route(f.pools[1..], f.path[1..]) && b == Route(g.pools[1..], g.path[1..]);
  }

  lemma SimpleIsShaped(pools: seq<Pool>, e: Edge, tokenIn: Token, maxHops: nat, sub: Route)
    requires IsSimpleRoute(pools, e.to, tokenIn, maxHops, sub)
    ensures Shaped(sub) && sub.path[0] == e.to
    ensures Shaped(Through(e, tokenIn, sub)) && |Through(e, tokenIn, sub).path| >= |Through(e, tokenIn, sub).pools|
  {
  }

  lemma NothingYet(pools: seq<Pool>, edges: seq<Edge>, tokenIn: Token, maxHops: nat)
    ensures forall r :: !CycleWithin(pools, edges, 0, tokenIn, maxHops, r)
  {
  }

  lemma NoShortCycles(pools: seq<Pool>, tokenIn: Token, maxHops: nat)
    requires maxHops <= 1
    ensures forall r :: !IsCycle(pools, tokenIn, maxHops, r)
  {
  }

  lemma OneMoreEdge(pools: seq<Pool>, edges: seq<Edge>, n: nat, tokenIn: Token, maxHops: nat,
                    subRoutes: seq<Route>, r: Route)
    requires n < |edges| && edges == Neighbors(pools, tokenIn.address) && maxHops > 1
    requires forall s :: s in subRoutes <==> IsSimpleRoute(pools, edges[n].to, tokenIn, maxHops - 1, s)
    ensures CycleWithin(pools, edges, n + 1, tokenIn, maxHops, r) <==>
            CycleWithin(pools, edges, n, tokenIn, maxHops, r) ||
            GoesThrough(edges[n], tokenIn, subRoutes, |subRoutes|, r)
  {
    hide Neighbors, IsSimpleRoute, Joins;
    var e := edges[n];
    if CycleWithin(pools, edges, n + 1, tokenIn, maxHops, r) && !CycleWithin(pools, edges, n, tokenIn, maxHops, r) {
      var sub := Route(r.pools[1..], r.path[1..]);
      assert e == Edge(r.pools[0], r.path[1]);
      assert r.pools == [r.pools[0]] + r.pools[1..] && r.path == [r.path[0]] + r.path[1..];
      assert r == Through(e, tokenIn, sub);
      CycleIsEdgeAndRoute(pools, tokenIn, maxHops, e, sub);
      assert sub in subRoutes;
      var i :| 0 <= i < |subRoutes| && subRoutes[i] == sub;
      assert r == Through(e, tokenIn, subRoutes[i]);
    }
    if GoesThrough(e, tokenIn, subRoutes, |subRoutes|, r) {
      var i :| 0 <= i < |subRoutes| && r == Through(e, tokenIn, subRoutes[i]);
      var sub := subRoutes[i];
      assert sub in subRoutes;
      assert Shaped(sub) by { SimpleIsShaped(pools, e, tokenIn, maxHops - 1, sub); }
      CycleIsEdgeAndRoute(pools, tokenIn, maxHops, e, sub);
      assert r.pools[0] == e.pool && r.path[1] == sub.path[0];
      assert edges[n] == Edge(r.pools[0], r.path[1]);
    }
  }

  lemma AllEdges(pools: seq<Pool>, edges: seq<Edge>, tokenIn: Token, maxHops: nat, r: Route)
    requires edges == Neighbors(pools, tokenIn.address)
    ensures CycleWithin(pools, edges, |edges|, tokenIn, maxHops, r) <==> IsCycle(pools, tokenIn, maxHops, r)
  {
    if IsCycle(pools, tokenIn, maxHops, r) {
      assert Joins(r.pools[0], r.path[0], r.path[1]);
      NeighborsAreJoins(pools, tokenIn, Edge(r.pools[0], r.path[1]));
      hide Neighbors;
      var k :| 0 <= k < |edges| && edges[k] == Edge(r.pools[0], r.path[1]);
    }
  }

  /** Over V2 pools the cycle search always comes back. */
  lemma PlainCyclesAnswered(tm: TickMath, pools: seq<Pool>, tokenIn: Token, amountIn: nat, maxHops: nat, r: Route)
    requires Plain(pools) && IsCycle(pools, tokenIn, maxHops, r)
    ensures Answered(tm, amountIn, r)
  {
    assert Plain(r.pools) by { hide Joins; }
    PlainRouteReturns(tm, r.pools, r.path, amountIn);
    hide RouteOutput;
  }

  /** Out through a V2 pool and straight back through it never pays, although both quotes
      are taken on the unchanged reserves. */
  lemma OutAndBackNeverPays(tm: TickMath, pools: seq<Pool>, tokenIn: Token, amountIn: nat, maxHops: nat, r: Route)
    requires IsCycle(pools, tokenIn, maxHops, r) && |r.pools| == 2
    requires r.pools[0] == r.pools[1] && r.pools[0].V2? && r.pools[0].pair.feeBps <= BPS
    ensures !Profitable(tm, amountIn, r)
  {
    hide GetAmountOut, RouteOutput;
    OutAndBackHops(pools, tokenIn, maxHops, r);
    if RouteOutput(tm, r.pools, r.path, amountIn).Ok? {
      UnprofitableForEveryAmount(tm, r, amountIn);
    }
  }

  lemma TwoHopOutput(tm: TickMath, r: Route, a: nat)
    requires Shaped(r) && |r.pools| == 2
    ensures var first := PoolQuote(tm, r.pools[0], a, r.path[0]);
            RouteOutput(tm, r.pools, r.path, a) ==
            if first.Err? then first else PoolQuote(tm, r.pools[1], first.value, r.path[1])
  {
    var first := PoolQuote(tm, r.pools[0], a, r.path[0]);
    OutputStep(tm, r, 0, a);
    assert r.pools[0..] == r.pools && r.path[0..] == r.path && r.pools[2..] == [];
    if first.Ok? {
      OutputStep(tm, r, 1, first.value);
      var second := PoolQuote(tm, r.pools[1], first.value, r.path[1]);
      if second.Ok? { assert RouteOutput(tm, r.pools[2..], r.path[2..], second.value) == second; }
    }
    hide RouteOutput, PoolQuote;
  }

  lemma OutAndBackTokens(pools: seq<Pool>, tokenIn: Token, maxHops: nat, r: Route)
    requires IsCycle(pools, tokenIn, maxHops, r) && |r.pools| == 2 && r.pools[0] == r.pools[1]
    ensures var (t0, t1) := Tokens(r.pools[0]);
            && r.path[0].address != r.path[1].address
            && r.path[0].address in {t0.address, t1.address} && r.path[1].address in {t0.address, t1.address}
  {
    assert Joins(r.pools[0], r.path[0], r.path[1]) && Joins(r.pools[1], r.path[1], r.path[2]);
    assert r.path[1..][0].address != r.path[1..][1].address;
  }

  /** Each way of the loop stays in the pool's tick. */
  ghost predicate StaysBothWays(tm: TickMath, pool: V3Pool, r: Route, a: nat)
    requires |r.path| >= 2
  {
    SwapLoop.StaysInTick(tm, pool, a, r.path[0]) &&
    var out := SwapLoop.V3AmountOut(tm, pool, a, r.path[0]);
    out.Ok? && SwapLoop.StaysInTick(tm, pool, out.value, r.path[1])
  }

  /** The fee-reduced amount that enters with token 0. */
  ghost function WithToken0(tm: TickMath, pool: V3Pool, r: Route, a: nat): nat
    requires |r.path| >= 2 && StaysBothWays(tm, pool, r, a)
  {
    var out := SwapLoop.V3AmountOut(tm, pool, a, r.path[0]).value;
    ConcentratedLiquidity.LessFee(if SwapLoop.ZeroForOne(pool, r.path[0]) then a else out, pool.fee).value
  }

  /** Out through a V3 pool and straight back, both within its tick, pays only if the step with
      token 0 in overpays, which price, liquidity and amount decide. */
  lemma OutAndBackV3NeedsOverpay(tm: TickMath, pools: seq<Pool>, tokenIn: Token, a: nat, maxHops: nat, r: Route,
                                 pool: V3Pool)
    requires IsCycle(pools, tokenIn, maxHops, r) && r.pools == [Pool.V3(pool), Pool.V3(pool)]
    requires SwapLoop.FirstTarget(tm, pool, pool.token0) <= pool.sqrtPrice
                 <= SwapLoop.FirstTarget(tm, pool, pool.token1)
    requires StaysBothWays(tm, pool, r, a)
    ensures Profitable(tm, a, r) ==>
              && ConcentratedLiquidity.Q96 > 0
              && ConcentratedLiquidity.PriceDivisor(ConcentratedLiquidity.Q96, pool.sqrtPrice, pool.liquidity,
                                                    WithToken0(tm, pool, r, a)) > 0
              && ConcentratedLiquidity.OverpaysShort(ConcentratedLiquidity.Q96, pool.sqrtPrice, pool.liquidity,
                                                     WithToken0(tm, pool, r, a))
  {
    OutAndBackTokens(pools, tokenIn, maxHops, r);
    TwoHopOutput(tm, r, a);
    var out := SwapLoop.V3AmountOut(tm, pool, a, r.path[0]);
    assert PoolQuote(tm, r.pools[0], a, r.path[0]) == out;
    assert Tokens(r.pools[0]) == (pool.token0, pool.token1);
    if Profitable(tm, a, r) {
      assert PoolQuote(tm, r.pools[1], out.value, r.path[1]) == SwapLoop.V3AmountOut(tm, pool, out.value, r.path[1]);
      NothingForNothing(tm, pool, r.path[0]);
      NothingForNothing(tm, pool, r.path[1]);
      OtherTarget(tm, pool, r.path[0], r.path[1]);
      hide RouteOutput, PoolQuote, SwapLoop.V3AmountOut, SwapLoop.StaysInTick, SwapLoop.FirstTarget;
      hide ConcentratedLiquidity.OverpaysShort, ConcentratedLiquidity.LessFee, ConcentratedLiquidity.PriceDivisor;
      SwapLoop.OutAndBackInTick(tm, pool, a, r.path[0], r.path[1]);
    }
  }

  lemma NothingForNothing(tm: TickMath, pool: V3Pool, t: Token)
    ensures SwapLoop.V3AmountOut(tm, pool, 0, t) == Ok(0)
  {
  }

  lemma OtherTarget(tm: TickMath, pool: V3Pool, there: Token, back: Token)
    requires there.address != back.address
    requires there.address in {pool.token0.address, pool.token1.address}
    requires back.address in {pool.token0.address, pool.token1.address}
    ensures pool.token0.address in {there.address, back.address}
    ensures SwapLoop.FirstTarget(tm, pool, if SwapLoop.ZeroForOne(pool, there) then back else there)
            == SwapLoop.FirstTarget(tm, pool, pool.token1)
  {
    hide SwapLoop.NextTick;
  }

  /** And it can pay: at the square-root price 2^62/2^96, one unit of token 0 buys two of token 1,
      and those buy some 2^69 of token 0 on the unchanged pool. */
  lemma OutAndBackV3CanPay(tm: TickMath, pool: V3Pool)
    requires pool.sqrtPrice == 0x4000_0000_0000_0000 && pool.liquidity == 2 * ConcentratedLiquidity.Q96
    requires pool.fee == 0 && pool.tick == 0 && pool.token0.address != pool.token1.address
    requires pool.ticks.Keys == {-1, 1}
    requires tm.ratio(-1) == 0x3C00_0000_0000_0000 && tm.ratio(1) == 0x4400_0000_0000_0000
    ensures var r := Route([Pool.V3(pool), Pool.V3(pool)], [pool.token0, pool.token1, pool.token0]);
            IsCycle([Pool.V3(pool)], pool.token0, 2, r) && Profitable(tm, 1, r)
  {
    var r := Route([Pool.V3(pool), Pool.V3(pool)], [pool.token0, pool.token1, pool.token0]);
    ThereAndBackIsCycle(Pool.V3(pool));
    SwapLoop.OutAndBackQuotes(tm, pool);
    TwoHopOutput(tm, r, 1);
    V3Quotes(tm, pool, 1, pool.token0);
    V3Quotes(tm, pool, 2, pool.token1);
    ProfitableIs(tm, 1, r);
    hide *;
  }

  lemma V3Quotes(tm: TickMath, pool: V3Pool, a: nat, t: Token)
    ensures PoolQuote(tm, Pool.V3(pool), a, t) == SwapLoop.V3AmountOut(tm, pool, a, t)
  {
    hide SwapLoop.V3AmountOut;
  }

  lemma ProfitableIs(tm: TickMath, a: nat, r: Route)
    requires Shaped(r)
    ensures Profitable(tm, a, r) <==>
            RouteOutput(tm, r.pools, r.path, a).Ok? && RouteOutput(tm, r.pools, r.path, a).value > a
  {
    hide RouteOutput;
  }

  lemma ThereAndBackIsCycle(p: Pool)
    requires Tokens(p).0.address != Tokens(p).1.address
    ensures var (t0, t1) := Tokens(p); IsCycle([p], t0, 2, Route([p, p], [t0, t1, t0]))
  {
    var (t0, t1) := Tokens(p);
    assert [t0, t1, t0][1..] == [t1, t0];
  }

  lemma OutAndBackHops(pools: seq<Pool>, tokenIn: Token, maxHops: nat, r: Route)
    requires IsCycle(pools, tokenIn, maxHops, r) && |r.pools| == 2
    requires r.pools[0] == r.pools[1] && r.pools[0].V2? && r.pools[0].pair.feeBps <= BPS
    ensures AllV2(r.pools, r.path)
    ensures var f := RouteFraction(IDENTITY, r.pools, r.path); f.p <= f.q
  {
    assert Joins(r.pools[0], r.path[0], r.path[1]) && Joins(r.pools[1], r.path[1], r.path[2]);
    assert r.path[1..][0].address != r.path[1..][1].address;
    var h0, h1 := HopOf(r.pools[0], r.path[0]), HopOf(r.pools[1], r.path[1]);
    assert h1 == Hop(h0.reserveOut, h0.reserveIn, h0.multiplier);
    SamePoolFraction(h0.reserveIn, h0.reserveOut, h0.multiplier);
    hide Compose, HopOf, Joins;
    assert AllV2(r.pools, r.path);
    TwoHopFraction(r.pools, r.path);
  }

  lemma NextHop(f: Fraction, pools: seq<Pool>, path: seq<Token>)
    requires AllV2(pools, path)
    ensures pools == [] ==> RouteFraction(f, pools, path) == f
    ensures pools != [] ==> AllV2(pools[1..], path[1..])
    ensures pools != [] ==>
              RouteFraction(f, pools, path)
                  == RouteFraction(Compose(f, HopOf(pools[0], path[0])), pools[1..], path[1..])
  {
    hide Compose, HopOf;
  }

  lemma TwoHopFraction(pools: seq<Pool>, path: seq<Token>)
    requires AllV2(pools, path) && |pools| == 2
    ensures RouteFraction(IDENTITY, pools, path)
            == Compose(Compose(IDENTITY, HopOf(pools[0], path[0])), HopOf(pools[1], path[1]))
  {
    hide Compose, HopOf, RouteFraction;
    NextHop(IDENTITY, pools, path);
    var f1 := Compose(IDENTITY, HopOf(pools[0], path[0]));
    NextHop(f1, pools[1..], path[1..]);
    NextHop(Compose(f1, HopOf(pools[1], path[1])), pools[1..][1..], path[1..][1..]);
  }

  lemma SamePoolFraction(ri: nat, ro: nat, g: nat)
    requires g <= BPS
    ensures var f := Compose(Compose(IDENTITY, Hop(ri, ro, g)), Hop(ro, ri, g)); f.p <= f.q
  {
    var k := ro * ri;
    assert g * ri * (g * ro * 1) == (g * g) * k;
    assert BPS * ro * (BPS * ri * 1) == (BPS * BPS) * k;
    MulMono(g, BPS, g);
    MulMono(g, BPS, BPS);
    MulMono(g * g, BPS * BPS, k);
  }
}
