/** `RouteFinder` of pricing/src/router.rs: the backtracking search on shared stacks,
    the quotes along a route, and the selection by net output. */
module RouteFinding {
  import opened Common
  import opened ConstantProduct
  import opened Router
  import ConcentratedLiquidity
  import SwapLoop

  /** The four `&mut` arguments of `dfs`. */
  class Search {
    var visited: set<int>
    var pathTokens: seq<Token>
    var pathPools: seq<Pool>
    var results: seq<Route>

    constructor (start: Token)
      ensures visited == {start.address} && pathTokens == [start] && pathPools == [] && results == []
    {
      visited, pathTokens, pathPools, results := {start.address}, [start], [], [];
    }

    /** Every call restores the stacks and appends exactly the routes that continue them. */
    method Dfs(graph: Graph, ghost pools: seq<Pool>, current: Token, target: Token, hopsRemaining: nat)
      requires GraphOf(graph, pools)
      modifies this
      ensures visited == old(visited) && pathTokens == old(pathTokens) && pathPools == old(pathPools)
      ensures results == old(results) +
                         Routes(pools, current, target, hopsRemaining, old(visited), old(pathTokens), old(pathPools))
      decreases hopsRemaining
    {
      hide *;
      RoutesAtEnd(pools, current, target, hopsRemaining, visited, pathTokens, pathPools);
      if current.address == target.address {
        if pathPools != [] {
          results := results + [Route(pathPools, pathTokens)];
        }
        return;
      }
      if hopsRemaining == 0 { return; }
      GraphLookup(graph, pools, current.address);
      var neighbors := if current.address in graph then graph[current.address] else [];
      ghost var v0, t0, p0, r0 := visited, pathTokens, pathPools, results;
      ghost var found: seq<Route> := [];
      var i := 0;
      while i < |neighbors|
        invariant 0 <= i <= |neighbors|
        invariant visited == v0 && pathTokens == t0 && pathPools == p0
        invariant results == r0 + found
        invariant RoutesVia(pools, neighbors, target, hopsRemaining, v0, t0, p0)
                  == found + RoutesVia(pools, neighbors[i..], target, hopsRemaining, v0, t0, p0)
      {
        var e := neighbors[i];
        ghost var next: seq<Route> := [];
        if e.to.address !in visited {
          visited := visited + {e.to.address};
          pathTokens := pathTokens + [e.to];
          pathPools := pathPools + [e.pool];
          Dfs(graph, pools, e.to, target, hopsRemaining - 1);
          next := Routes(pools, e.to, target, hopsRemaining - 1, v0 + {e.to.address}, t0 + [e.to], p0 + [e.pool]);
          pathPools := pathPools[..|pathPools| - 1];
          pathTokens := pathTokens[..|pathTokens| - 1];
          visited := visited - {e.to.address};
        }
        RoutesViaStep(pools, neighbors, i, target, hopsRemaining, v0, t0, p0, next, found);
        found := found + next;
        i := i + 1;
      }
      RoutesOfNeighbors(pools, current, neighbors, i, target, hopsRemaining, v0, t0, p0);
    }
  }

  lemma GraphLookup(graph: Graph, pools: seq<Pool>, a: int)
    requires GraphOf(graph, pools)
    ensures (if a in graph then graph[a] else []) == Neighbors(pools, a)
  {
  }

  lemma RoutesViaStep(pools: seq<Pool>, edges: seq<Edge>, i: nat, target: Token, hops: nat,
                      visited: set<int>, toks: seq<Token>, pls: seq<Pool>, next: seq<Route>, found: seq<Route>)
    requires hops > 0 && i < |edges|
    requires var e := edges[i];
             next == if e.to.address in visited then []
                     else Routes(pools, e.to, target, hops - 1, visited + {e.to.address}, toks + [e.to], pls + [e.pool])
    ensures found + RoutesVia(pools, edges[i..], target, hops, visited, toks, pls) ==
            (found + next) + RoutesVia(pools, edges[i + 1..], target, hops, visited, toks, pls)
  {
    assert edges[i..][1..] == edges[i + 1..];
  }

  lemma RoutesOfNeighbors(pools: seq<Pool>, current: Token, edges: seq<Edge>, i: nat, target: Token, hops: nat,
                          visited: set<int>, toks: seq<Token>, pls: seq<Pool>)
    requires hops > 0 && current.address != target.address && i == |edges| && edges == Neighbors(pools, current.address)
    ensures Routes(pools, current, target, hops, visited, toks, pls) ==
            RoutesVia(pools, edges, target, hops, visited, toks, pls)
    ensures RoutesVia(pools, edges[i..], target, hops, visited, toks, pls) == []
  {
  }

  lemma RoutesAtEnd(pools: seq<Pool>, current: Token, target: Token, hops: nat,
                    visited: set<int>, toks: seq<Token>, pls: seq<Pool>)
    ensures current.address == target.address ==>
              Routes(pools, current, target, hops, visited, toks, pls) == if pls == [] then [] else [Route(pls, toks)]
    ensures current.address != target.address && hops == 0 ==>
              Routes(pools, current, target, hops, visited, toks, pls) == []
  {
  }

  method FindAllRoutes(graph: Graph, ghost pools: seq<Pool>, tokenIn: Token, tokenOut: Token, maxHops: nat)
    returns (routes: seq<Route>)
    requires GraphOf(graph, pools)
    ensures routes == AllRoutes(pools, tokenIn, tokenOut, maxHops)
    ensures forall r :: r in routes <==> IsSimpleRoute(pools, tokenIn, tokenOut, maxHops, r)
    ensures NoRepeats(pools) ==> NoRepeats(routes)
  {
    var search := new Search(tokenIn);
    search.Dfs(graph, pools, tokenIn, tokenOut, maxHops);
    routes := search.results;
    forall r
      ensures r in routes <==> IsSimpleRoute(pools, tokenIn, tokenOut, maxHops, r)
    {
      AllRoutesExact(pools, tokenIn, tokenOut, maxHops, r);
    }
    if NoRepeats(pools) { AllRoutesNoRepeats(pools, tokenIn, tokenOut, maxHops); }
  }

  // ----- quotes along a route

  ghost function RouteOutput(tm: TickMath, pools: seq<Pool>, path: seq<Token>, amount: nat): Result<nat>
    requires |path| >= |pools|
    decreases pools
  {
    if pools == [] then Ok(amount) else
    var next :- PoolQuote(tm, pools[0], amount, path[0]);
    RouteOutput(tm, pools[1..], path[1..], next)
  }

  lemma OutputStep(tm: TickMath, route: Route, i: nat, amount: nat)
    requires |route.path| >= |route.pools| && i < |route.pools|
    ensures var quote := PoolQuote(tm, route.pools[i], amount, route.path[i]);
            RouteOutput(tm, route.pools[i..], route.path[i..], amount) ==
            if quote.Err? then quote else RouteOutput(tm, route.pools[i + 1..], route.path[i + 1..], quote.value)
  {
    assert route.pools[i..][1..] == route.pools[i + 1..] && route.path[i..][1..] == route.path[i + 1..];
    hide PoolQuote;
  }

  method GetOutput(tm: TickMath, route: Route, amountIn: nat) returns (r: Result<nat>)
    requires |route.path| >= |route.pools|
    ensures r == RouteOutput(tm, route.pools, route.path, amountIn)
  {
    var current := amountIn;
    for i := 0 to |route.pools|
      invariant RouteOutput(tm, route.pools, route.path, amountIn)
                == RouteOutput(tm, route.pools[i..], route.path[i..], current)
    {
      OutputStep(tm, route, i, current);
      var quote := GetPoolAmountOut(tm, route.pools[i], current, route.path[i]);
      if quote.Err? { return quote; }
      current := quote.value;
    }
    return Ok(current);
  }

  /** The list of amounts starts with the input, chains pool quotes, and ends with the
      output of the route. */
  method GetIntermediateAmounts(tm: TickMath, route: Route, amountIn: nat) returns (r: Result<seq<nat>>)
    requires |route.path| >= |route.pools|
    ensures r.Ok? <==> RouteOutput(tm, route.pools, route.path, amountIn).Ok?
    ensures r.Err? ==> RouteOutput(tm, route.pools, route.path, amountIn) == Err(r.error)
    ensures r.Ok? ==>
              var amounts := r.value;
              && |amounts| == |route.pools| + 1 && amounts[0] == amountIn
              && amounts[|route.pools|] == RouteOutput(tm, route.pools, route.path, amountIn).value
              && forall i :: 0 <= i < |route.pools| ==>
                  PoolQuote(tm, route.pools[i], amounts[i], route.path[i]) == Ok(amounts[i + 1])
  {
    hide PoolQuote;
    var amounts := [amountIn];
    for i := 0 to |route.pools|
      invariant |amounts| == i + 1 && amounts[0] == amountIn
      invariant RouteOutput(tm, route.pools, route.path, amountIn)
                == RouteOutput(tm, route.pools[i..], route.path[i..], amounts[i])
      invariant forall k :: 0 <= k < i ==>
          PoolQuote(tm, route.pools[k], amounts[k], route.path[k]) == Ok(amounts[k + 1])
    {
      OutputStep(tm, route, i, amounts[i]);
      var quote := GetPoolAmountOut(tm, route.pools[i], amounts[i], route.path[i]);
      hide RouteOutput;
      if quote.Err? { return Err(quote.error); }
      amounts := amounts + [quote.value];
    }
    return Ok(amounts);
  }

  // ----- net output

  function EstimateGas(r: Route): nat { 150_000 + 100_000 * |r.pools| }

  predicate IsEth(t: Token) { t.symbol == "WETH" || t.symbol == "ETH" }

  /** The first neighbour that is ether prices the gas. */
  ghost function CostVia(tm: TickMath, edges: seq<Edge>, cost: nat): Result<Option<nat>> {
    if edges == [] then Ok(None)
    else if IsEth(edges[0].to) then OrNone(PoolQuote(tm, edges[0].pool, cost, edges[0].to))
    else CostVia(tm, edges[1..], cost)
  }

  ghost function TokenCost(tm: TickMath, pools: seq<Pool>, cost: nat, tokenOut: Token): Result<Option<nat>> {
    if IsEth(tokenOut) then Ok(Some(cost)) else CostVia(tm, Neighbors(pools, tokenOut.address), cost)
  }

  method ConvertEthToTokenCost(tm: TickMath, graph: Graph, ghost pools: seq<Pool>, cost: nat, tokenOut: Token)
    returns (r: Result<Option<nat>>)
    requires GraphOf(graph, pools)
    ensures r == TokenCost(tm, pools, cost, tokenOut)
  {
    if IsEth(tokenOut) { return Ok(Some(cost)); }
    if tokenOut.address in graph {
      GraphLookup(graph, pools, tokenOut.address);
      var neighbors := graph[tokenOut.address];
      for i := 0 to |neighbors|
        invariant CostVia(tm, neighbors, cost) == CostVia(tm, neighbors[i..], cost)
      {
        assert neighbors[i..][1..] == neighbors[i + 1..];
        if IsEth(neighbors[i].to) {
          var quote := GetPoolAmountOut(tm, neighbors[i].pool, cost, neighbors[i].to);
          return OrNone(quote);
        }
      }
    } else {
      GraphLookup(graph, pools, tokenOut.address);
    }
    return Ok(None);
  }

  ghost function Gross(tm: TickMath, r: Route, amountIn: nat): Result<nat>
    requires Shaped(r)
  {
    OrZero(RouteOutput(tm, r.pools, r.path, amountIn))
  }

  function GasCostEth(r: Route, gasPriceGwei: nat): nat { EstimateGas(r) * (gasPriceGwei * 1_000_000_000) }

  function Less(gross: nat, cost: Option<nat>): nat {
    match cost
    case None => gross
    case Some(c) => if gross >= c then gross - c else 0
  }

  /** Gross output less the gas cost in the output token, floored at zero. */
  ghost function Net(tm: TickMath, pools: seq<Pool>, tokenOut: Token, amountIn: nat, gasPriceGwei: nat, r: Route)
    : Result<nat>
    requires Shaped(r)
  {
    var gross :- Gross(tm, r, amountIn);
    var cost :- TokenCost(tm, pools, GasCostEth(r, gasPriceGwei), tokenOut);
    Ok(Less(gross, cost))
  }

  /** The quotes that the search asks for on behalf of a route all come back. */
  ghost predicate Answers(tm: TickMath, pools: seq<Pool>, tokenOut: Token, amountIn: nat, gasPriceGwei: nat, r: Route)
    requires Shaped(r)
  {
    RouteOutput(tm, r.pools, r.path, amountIn).Returns() &&
    TokenCost(tm, pools, GasCostEth(r, gasPriceGwei), tokenOut).Ok?
  }

  lemma {:induction false} CostErrorIsAbort(tm: TickMath, edges: seq<Edge>, cost: nat)
    ensures CostVia(tm, edges, cost).Err? ==> !CostVia(tm, edges, cost).error.Returned()
    decreases edges
  {
    if edges == [] {
    } else {
      hide PoolQuote;
      CostErrorIsAbort(tm, edges[1..], cost);
    }
  }

  /** A route has a net output exactly when its quotes come back; what stops it is no error that
      the search could swallow. */
  lemma NetAnswersIff(tm: TickMath, pools: seq<Pool>, tokenOut: Token, amountIn: nat, gasPriceGwei: nat, r: Route)
    requires Shaped(r)
    ensures var net := Net(tm, pools, tokenOut, amountIn, gasPriceGwei, r);
            && (net.Ok? <==> Answers(tm, pools, tokenOut, amountIn, gasPriceGwei, r))
            && (net.Err? ==> !net.error.Returned())
  {
    CostErrorIsAbort(tm, Neighbors(pools, tokenOut.address), GasCostEth(r, gasPriceGwei));
    hide RouteOutput, CostVia, GasCostEth;
  }

  datatype RouteAnalysis = RouteAnalysis(route: Route, grossOutput: nat, gasEstimate: nat,
                                         gasCostEth: nat, gasCostToken: Option<nat>, netOutput: nat)

  ghost predicate Analyzes(tm: TickMath, pools: seq<Pool>, tokenOut: Token, amountIn: nat, gasPriceGwei: nat,
                           a: RouteAnalysis) {
    && Shaped(a.route)
    && Gross(tm, a.route, amountIn) == Ok(a.grossOutput)
    && a.gasEstimate == EstimateGas(a.route)
    && a.gasCostEth == GasCostEth(a.route, gasPriceGwei)
    && TokenCost(tm, pools, a.gasCostEth, tokenOut) == Ok(a.gasCostToken)
    && Net(tm, pools, tokenOut, amountIn, gasPriceGwei, a.route) == Ok(a.netOutput)
  }

  predicate IsEthSymbol(symbol: string) { symbol == "WETH" || symbol == "ETH" }

  /** What the gas costs in the output token: the cost itself for ether; otherwise the quote of the
      first pool to ether, nothing without one or if it fails. */
  ghost predicate PricesGas(tm: TickMath, pools: seq<Pool>, tokenOut: Token, eth: nat, cost: Option<nat>) {
    var edges := Neighbors(pools, tokenOut.address);
    if IsEthSymbol(tokenOut.symbol) then cost == Some(eth)
    else
      && ((forall i :: 0 <= i < |edges| ==> !IsEthSymbol(edges[i].to.symbol)) ==> cost == None)
      && (forall i :: 0 <= i < |edges| && IsEthSymbol(edges[i].to.symbol)
                      && (forall j :: 0 <= j < i ==> !IsEthSymbol(edges[j].to.symbol)) ==>
            var quote := PoolQuote(tm, edges[i].pool, eth, edges[i].to);
            quote.Returns() && cost == if quote.Ok? then Some(quote.value) else None)
  }

  /** The fields of an analysis, added up: one hop costs 250000 gas and each further one 100000 more,
      priced in gwei; a failed route grosses nothing; gross is net plus the cost, if it covers it. */
  ghost predicate AddsUp(tm: TickMath, pools: seq<Pool>, tokenOut: Token, amountIn: nat, gasPriceGwei: nat,
                         a: RouteAnalysis) {
    && Shaped(a.route)
    && a.gasEstimate == 250_000 + 100_000 * (|a.route.pools| - 1)
    && a.gasCostEth == a.gasEstimate * gasPriceGwei * 1_000_000_000
    && (var output := RouteOutput(tm, a.route.pools, a.route.path, amountIn);
        output.Returns() && a.grossOutput == if output.Ok? then output.value else 0)
    && PricesGas(tm, pools, tokenOut, a.gasCostEth, a.gasCostToken)
    && (a.gasCostToken.None? ==> a.netOutput == a.grossOutput)
    && (a.gasCostToken.Some? ==>
          if a.grossOutput >= a.gasCostToken.value then a.netOutput + a.gasCostToken.value == a.grossOutput
          else a.netOutput == 0)
  }

  lemma AnalysisAddsUp(tm: TickMath, pools: seq<Pool>, tokenOut: Token, amountIn: nat, gasPriceGwei: nat,
                       a: RouteAnalysis)
    requires Analyzes(tm, pools, tokenOut, amountIn, gasPriceGwei, a) && |a.route.pools| >= 1
    ensures AddsUp(tm, pools, tokenOut, amountIn, gasPriceGwei, a)
  {
    GasAddsUp(a.route, gasPriceGwei);
    CostPricesGas(tm, pools, tokenOut, a.gasCostEth);
    hide RouteOutput, TokenCost, PricesGas, GasCostEth, EstimateGas;
  }

  lemma GasAddsUp(r: Route, gasPriceGwei: nat)
    ensures EstimateGas(r) == 250_000 + 100_000 * (|r.pools| - 1)
    ensures GasCostEth(r, gasPriceGwei) == EstimateGas(r) * gasPriceGwei * 1_000_000_000
  {
    var gas := EstimateGas(r);
    assert gas * (gasPriceGwei * 1_000_000_000) == gas * gasPriceGwei * 1_000_000_000;
  }

  lemma CostPricesGas(tm: TickMath, pools: seq<Pool>, tokenOut: Token, eth: nat)
    ensures TokenCost(tm, pools, eth, tokenOut).Ok? ==>
              PricesGas(tm, pools, tokenOut, eth, TokenCost(tm, pools, eth, tokenOut).value)
  {
    var edges := Neighbors(pools, tokenOut.address);
    if !IsEthSymbol(tokenOut.symbol) && CostVia(tm, edges, eth).Ok? {
      if forall i :: 0 <= i < |edges| ==> !IsEthSymbol(edges[i].to.symbol) {
        CostAfter(tm, edges, |edges|, eth);
      }
      forall i | 0 <= i < |edges| && IsEthSymbol(edges[i].to.symbol)
                 && (forall j :: 0 <= j < i ==> !IsEthSymbol(edges[j].to.symbol))
        ensures var quote := PoolQuote(tm, edges[i].pool, eth, edges[i].to);
                quote.Returns() && CostVia(tm, edges, eth).value == if quote.Ok? then Some(quote.value) else None
      {
        CostAfter(tm, edges, i, eth);
      }
    }
    hide CostVia, PoolQuote, Neighbors;
  }

  lemma {:induction false} CostAfter(tm: TickMath, edges: seq<Edge>, n: nat, eth: nat)
    requires n <= |edges| && forall j :: 0 <= j < n ==> !IsEthSymbol(edges[j].to.symbol)
    ensures n == |edges| ==> CostVia(tm, edges, eth) == Ok(None)
    ensures n < |edges| && IsEthSymbol(edges[n].to.symbol) ==>
              CostVia(tm, edges, eth) == OrNone(PoolQuote(tm, edges[n].pool, eth, edges[n].to))
    decreases n
  {
    hide PoolQuote;
    if n == 0 {
    } else {
      assert forall j :: 0 <= j < n - 1 ==> edges[1..][j] == edges[j + 1];
      CostAfter(tm, edges[1..], n - 1, eth);
    }
  }

  /** Free gas costs nothing, so that the largest gross output wins. */
  lemma FreeGasNetIsGross(tm: TickMath, pools: seq<Pool>, tokenOut: Token, amountIn: nat, r: Route)
    requires Shaped(r)
    ensures Net(tm, pools, tokenOut, amountIn, 0, r) == Gross(tm, r, amountIn)
  {
    assert GasCostEth(r, 0) == 0;
    NothingCostsNothing(tm, Neighbors(pools, tokenOut.address));
    hide GasCostEth, RouteOutput, CostVia;
  }

  lemma {:induction false} NothingCostsNothing(tm: TickMath, edges: seq<Edge>)
    ensures CostVia(tm, edges, 0) in {Ok(None), Ok(Some(0))}
    decreases edges
  {
    if edges == [] {
    } else {
      NothingCostsNothing(tm, edges[1..]);
    }
  }

  /** Gas that costs no more: nothing, or no more than the other. */
  predicate NoDearer(c1: Option<nat>, c2: Option<nat>) {
    c1.None? || (c2.Some? && c1.value <= c2.value)
  }

  /** Less ether for gas costs no more in a token that is ether, or where V2 pools price it and can
      quote the larger amount. */
  lemma LessGasIsNoDearer(tm: TickMath, pools: seq<Pool>, tokenOut: Token, e1: nat, e2: nat)
    requires e1 <= e2 && (IsEth(tokenOut) || Plain(pools))
    ensures var (c1, c2) := (TokenCost(tm, pools, e1, tokenOut), TokenCost(tm, pools, e2, tokenOut));
            c1.Ok? && c2.Ok? && (c2.value.Some? ==> NoDearer(c1.value, c2.value))
  {
    if !IsEth(tokenOut) {
      var edges := Neighbors(pools, tokenOut.address);
      forall e | e in edges
        ensures e.pool.V2? && e.pool.pair.feeBps <= BPS
      {
        EdgesComeFromPools(pools, tokenOut.address, e);
      }
      PlainCostReturns(tm, edges, e1);
      PlainCostReturns(tm, edges, e2);
      hide Neighbors, CostVia;
      if CostVia(tm, edges, e2).value.Some? { CheaperViaV2(tm, edges, e1, e2); }
    }
  }

  /** Of two routes with equal gross output the one with the dearer gas never nets more. */
  lemma DearerNeverNetsMore(gross: nat, c1: Option<nat>, c2: Option<nat>)
    requires NoDearer(c1, c2)
    ensures Less(gross, c1) >= Less(gross, c2)
  {
  }

  /** So the shorter of two such routes never nets less. */
  lemma ShorterNeverNetsLess(tm: TickMath, pools: seq<Pool>, tokenOut: Token, amountIn: nat, gasPriceGwei: nat,
                             short: Route, long: Route)
    requires Shaped(short) && Shaped(long) && |short.pools| <= |long.pools|
    requires Gross(tm, short, amountIn) == Gross(tm, long, amountIn) && Gross(tm, long, amountIn).Ok?
    requires IsEth(tokenOut) || Plain(pools)
    ensures var (n1, n2) := (Net(tm, pools, tokenOut, amountIn, gasPriceGwei, short),
                             Net(tm, pools, tokenOut, amountIn, gasPriceGwei, long));
            var cost := TokenCost(tm, pools, GasCostEth(long, gasPriceGwei), tokenOut);
            n1.Ok? && n2.Ok? && cost.Ok? && (cost.value.Some? ==> n1.value >= n2.value)
  {
    MulMono(EstimateGas(short), EstimateGas(long), gasPriceGwei * 1_000_000_000);
    var (e1, e2) := (GasCostEth(short, gasPriceGwei), GasCostEth(long, gasPriceGwei));
    assert e1 <= e2;
    hide RouteOutput, GasCostEth, EstimateGas, TokenCost, Less;
    LessGasIsNoDearer(tm, pools, tokenOut, e1, e2);
    var gross := Gross(tm, long, amountIn).value;
    var (c1, c2) := (TokenCost(tm, pools, e1, tokenOut).value, TokenCost(tm, pools, e2, tokenOut).value);
    if c2.Some? { DearerNeverNetsMore(gross, c1, c2); }
  }

  lemma {:induction false} CheaperViaV2(tm: TickMath, edges: seq<Edge>, c1: nat, c2: nat)
    requires c1 <= c2 && forall e :: e in edges ==> e.pool.V2? && e.pool.pair.feeBps <= BPS
    requires CostVia(tm, edges, c2).Ok? && CostVia(tm, edges, c2).value.Some?
    ensures CostVia(tm, edges, c1).Ok? && CostVia(tm, edges, c1).value.Some?
    ensures CostVia(tm, edges, c1).value.value <= CostVia(tm, edges, c2).value.value
    decreases edges
  {
    var e := edges[0];
    if IsEth(e.to) {
      SmallerInputQuotes(e.pool.pair, c1, c2, e.to);
      QuoteGrows(e.pool.pair, c1, c2, e.to);
      hide GetAmountOut;
    } else {
      hide PoolQuote;
      CheaperViaV2(tm, edges[1..], c1, c2);
    }
  }

  lemma SimpleHops(pools: seq<Pool>, tokenIn: Token, tokenOut: Token, maxHops: nat, r: Route)
    requires IsSimpleRoute(pools, tokenIn, tokenOut, maxHops, r)
    ensures |r.pools| >= 1
  {
  }

  lemma SimpleShape(pools: seq<Pool>, tokenIn: Token, tokenOut: Token, maxHops: nat, r: Route)
    requires IsSimpleRoute(pools, tokenIn, tokenOut, maxHops, r)
    ensures Shaped(r) && |r.path| >= |r.pools|
  {
  }

  lemma AnalysisIs(tm: TickMath, pools: seq<Pool>, tokenOut: Token, amountIn: nat, gasPriceGwei: nat, r: Route)
    requires Shaped(r) && |r.path| >= |r.pools|
    ensures var gross := OrZero(RouteOutput(tm, r.pools, r.path, amountIn));
            var eth := GasCostEth(r, gasPriceGwei);
            var cost := TokenCost(tm, pools, eth, tokenOut);
            var net := Net(tm, pools, tokenOut, amountIn, gasPriceGwei, r);
            if gross.Err? then net == Err(gross.error)
            else if cost.Err? then net == Err(cost.error)
            else
              var less := Less(gross.value, cost.value);
              var analysis := RouteAnalysis(r, gross.value, EstimateGas(r), eth, cost.value, less);
              Analyzes(tm, pools, tokenOut, amountIn, gasPriceGwei, analysis)
  {
    hide RouteOutput, TokenCost;
  }

  /** Some simple route asks for a quote that does not come back. */
  ghost predicate Hangs(tm: TickMath, pools: seq<Pool>, tokenIn: Token, tokenOut: Token, amountIn: nat,
                        gasPriceGwei: nat, maxHops: nat) {
    exists route :: IsSimpleRoute(pools, tokenIn, tokenOut, maxHops, route) &&
      !Answers(tm, pools, tokenOut, amountIn, gasPriceGwei, route)
  }

  lemma HangsOn(tm: TickMath, pools: seq<Pool>, tokenIn: Token, tokenOut: Token, amountIn: nat,
                gasPriceGwei: nat, maxHops: nat, route: Route)
    requires IsSimpleRoute(pools, tokenIn, tokenOut, maxHops, route)
    ensures Shaped(route)
    ensures Net(tm, pools, tokenOut, amountIn, gasPriceGwei, route).Err? ==>
              && Hangs(tm, pools, tokenIn, tokenOut, amountIn, gasPriceGwei, maxHops)
              && !Net(tm, pools, tokenOut, amountIn, gasPriceGwei, route).error.Returned()
  {
    NetAnswersIff(tm, pools, tokenOut, amountIn, gasPriceGwei, route);
    hide Net, Answers;
  }

  /** Comes back exactly when every quote it asks for does, and then with one analysis per simple
      route, in the order of the search. */
  method CompareRoutes(tm: TickMath, graph: Graph, ghost pools: seq<Pool>, tokenIn: Token, tokenOut: Token,
                       amountIn: nat, gasPriceGwei: nat, maxHops: nat)
    returns (r: Result<seq<RouteAnalysis>>)
    requires GraphOf(graph, pools)
    ensures r.Err? <==> Hangs(tm, pools, tokenIn, tokenOut, amountIn, gasPriceGwei, maxHops)
    ensures r.Err? ==> !r.error.Returned()
    ensures r.Ok? ==> |r.value| == |AllRoutes(pools, tokenIn, tokenOut, maxHops)|
    ensures r.Ok? ==> forall i :: 0 <= i < |r.value| ==>
              && r.value[i].route == AllRoutes(pools, tokenIn, tokenOut, maxHops)[i]
              && Analyzes(tm, pools, tokenOut, amountIn, gasPriceGwei, r.value[i])
              && AddsUp(tm, pools, tokenOut, amountIn, gasPriceGwei, r.value[i])
  {
    hide *;
    var routes := FindAllRoutes(graph, pools, tokenIn, tokenOut, maxHops);
    var results: seq<RouteAnalysis> := [];
    for k := 0 to |routes|
      invariant |results| == k
      invariant forall i :: 0 <= i < k ==>
                  results[i].route == routes[i] && Analyzes(tm, pools, tokenOut, amountIn, gasPriceGwei, results[i])
      invariant forall i :: 0 <= i < k ==> AddsUp(tm, pools, tokenOut, amountIn, gasPriceGwei, results[i])
    {
      var route := routes[k];
      assert route in routes;
      SimpleHops(pools, tokenIn, tokenOut, maxHops, route);
      SimpleShape(pools, tokenIn, tokenOut, maxHops, route);
      HangsOn(tm, pools, tokenIn, tokenOut, amountIn, gasPriceGwei, maxHops, route);
      AnalysisIs(tm, pools, tokenOut, amountIn, gasPriceGwei, route);
      var output := GetOutput(tm, route, amountIn);
      var gross := OrZero(output);
      if gross.Err? { return Err(gross.error); }
      var gasCostEth := GasCostEth(route, gasPriceGwei);
      var cost := ConvertEthToTokenCost(tm, graph, pools, gasCostEth, tokenOut);
      if cost.Err? { return Err(cost.error); }
      var net := Less(gross.value, cost.value);
      var analysis := RouteAnalysis(route, gross.value, EstimateGas(route), gasCostEth, cost.value, net);
      AnalysisAddsUp(tm, pools, tokenOut, amountIn, gasPriceGwei, analysis);
      results := results + [analysis];
    }
    AllAnswered(tm, pools, tokenIn, tokenOut, amountIn, gasPriceGwei, maxHops, results);
    return Ok(results);
  }

  lemma AnalyzedAnswers(tm: TickMath, pools: seq<Pool>, tokenOut: Token, amountIn: nat, gasPriceGwei: nat,
                        a: RouteAnalysis)
    requires Analyzes(tm, pools, tokenOut, amountIn, gasPriceGwei, a)
    ensures Shaped(a.route) && Answers(tm, pools, tokenOut, amountIn, gasPriceGwei, a.route)
    ensures Net(tm, pools, tokenOut, amountIn, gasPriceGwei, a.route) == Ok(a.netOutput)
  {
    NetAnswersIff(tm, pools, tokenOut, amountIn, gasPriceGwei, a.route);
    hide Net, Gross, TokenCost, Answers;
  }

  lemma AllAnswered(tm: TickMath, pools: seq<Pool>, tokenIn: Token, tokenOut: Token, amountIn: nat,
                    gasPriceGwei: nat, maxHops: nat, analyses: seq<RouteAnalysis>)
    requires |analyses| == |AllRoutes(pools, tokenIn, tokenOut, maxHops)|
    requires forall i :: 0 <= i < |analyses| ==>
               && analyses[i].route == AllRoutes(pools, tokenIn, tokenOut, maxHops)[i]
               && Analyzes(tm, pools, tokenOut, amountIn, gasPriceGwei, analyses[i])
    ensures !Hangs(tm, pools, tokenIn, tokenOut, amountIn, gasPriceGwei, maxHops)
  {
    var all := AllRoutes(pools, tokenIn, tokenOut, maxHops);
    hide AllRoutes, IsSimpleRoute, Answers, Analyzes;
    forall r | IsSimpleRoute(pools, tokenIn, tokenOut, maxHops, r)
      ensures Shaped(r) && Answers(tm, pools, tokenOut, amountIn, gasPriceGwei, r)
    {
      AllRoutesExact(pools, tokenIn, tokenOut, maxHops, r);
      var k :| 0 <= k < |all| && all[k] == r;
      AnalyzedAnswers(tm, pools, tokenOut, amountIn, gasPriceGwei, analyses[k]);
    }
  }

  /** `NoRoute` exactly when no simple route exists; nothing comes back exactly when some simple
      route asks for a quote that does not; otherwise the answer is a simple route whose net
      output no simple route of the graph exceeds. */
  method FindBestRoute(tm: TickMath, graph: Graph, ghost pools: seq<Pool>, tokenIn: Token, tokenOut: Token,
                       amountIn: nat, gasPriceGwei: nat, maxHops: nat)
    returns (r: Result<(Route, nat)>)
    requires GraphOf(graph, pools)
    ensures r == Err(NoRoute) <==> !exists route :: IsSimpleRoute(pools, tokenIn, tokenOut, maxHops, route)
    ensures !r.Returns() <==> Hangs(tm, pools, tokenIn, tokenOut, amountIn, gasPriceGwei, maxHops)
    ensures r.Err? && r.Returns() ==> r == Err(NoRoute)
    ensures r.Ok? ==>
              && IsSimpleRoute(pools, tokenIn, tokenOut, maxHops, r.value.0)
              && Net(tm, pools, tokenOut, amountIn, gasPriceGwei, r.value.0) == Ok(r.value.1)
              && forall route :: IsSimpleRoute(pools, tokenIn, tokenOut, maxHops, route) ==>
                   var net := Net(tm, pools, tokenOut, amountIn, gasPriceGwei, route);
                   net.Ok? && net.value <= r.value.1
    // among equals the one found last wins
    ensures r.Ok? ==>
              var all := AllRoutes(pools, tokenIn, tokenOut, maxHops);
              exists k :: 0 <= k < |all| && all[k] == r.value.0 &&
                forall j :: k < j < |all| ==>
                  Shaped(all[j]) && NetBelow(tm, pools, tokenOut, amountIn, gasPriceGwei, all[j], r.value.1)
  {
    hide *;
    var compared := CompareRoutes(tm, graph, pools, tokenIn, tokenOut, amountIn, gasPriceGwei, maxHops);
    NoRouteComesBack();
    if compared.Err? {
      SomeRoute(tm, pools, tokenIn, tokenOut, amountIn, gasPriceGwei, maxHops);
      return Err(compared.error);
    }
    var analyses := compared.value;
    if |analyses| == 0 {
      NoSimpleRoutes(pools, tokenIn, tokenOut, maxHops);
      return Err(NoRoute);
    }
    var best := 0;
    for i := 1 to |analyses|
      invariant 0 <= best < |analyses|
      invariant forall k :: 0 <= k < i ==> analyses[k].netOutput <= analyses[best].netOutput
      invariant forall k :: best < k < i ==> analyses[k].netOutput < analyses[best].netOutput
    {
      if analyses[i].netOutput >= analyses[best].netOutput { best := i; }
    }
    BestOfAll(tm, pools, tokenIn, tokenOut, amountIn, gasPriceGwei, maxHops, analyses, best);
    return Ok((analyses[best].route, analyses[best].netOutput));
  }

  ghost predicate NetBelow(tm: TickMath, pools: seq<Pool>, tokenOut: Token, amountIn: nat, gasPriceGwei: nat,
                           r: Route, limit: nat)
    requires Shaped(r)
  {
    var net := Net(tm, pools, tokenOut, amountIn, gasPriceGwei, r); net.Ok? && net.value < limit
  }

  lemma NoRouteComesBack()
    ensures NoRoute.Returned()
    ensures forall r: Result<(Route, nat)> :: r.Returns() <==> r.Ok? || r.error.Returned()
  {
  }

  lemma SomeRoute(tm: TickMath, pools: seq<Pool>, tokenIn: Token, tokenOut: Token, amountIn: nat,
                  gasPriceGwei: nat, maxHops: nat)
    requires Hangs(tm, pools, tokenIn, tokenOut, amountIn, gasPriceGwei, maxHops)
    ensures exists route :: IsSimpleRoute(pools, tokenIn, tokenOut, maxHops, route)
  {
    hide IsSimpleRoute, Answers;
  }

  lemma NoSimpleRoutes(pools: seq<Pool>, tokenIn: Token, tokenOut: Token, maxHops: nat)
    requires |AllRoutes(pools, tokenIn, tokenOut, maxHops)| == 0
    ensures !exists route :: IsSimpleRoute(pools, tokenIn, tokenOut, maxHops, route)
  {
    hide *;
    forall route
      ensures !IsSimpleRoute(pools, tokenIn, tokenOut, maxHops, route)
    {
      AllRoutesExact(pools, tokenIn, tokenOut, maxHops, route);
    }
  }

  lemma BestOfAll(tm: TickMath, pools: seq<Pool>, tokenIn: Token, tokenOut: Token, amountIn: nat, gasPriceGwei: nat,
                  maxHops: nat, analyses: seq<RouteAnalysis>, best: nat)
    requires |analyses| == |AllRoutes(pools, tokenIn, tokenOut, maxHops)| && best < |analyses|
    requires forall i :: 0 <= i < |analyses| ==>
               && analyses[i].route == AllRoutes(pools, tokenIn, tokenOut, maxHops)[i]
               && Analyzes(tm, pools, tokenOut, amountIn, gasPriceGwei, analyses[i])
    requires forall k :: 0 <= k < |analyses| ==> analyses[k].netOutput <= analyses[best].netOutput
    requires forall k :: best < k < |analyses| ==> analyses[k].netOutput < analyses[best].netOutput
    ensures var (route, best) := (analyses[best].route, analyses[best].netOutput);
            && IsSimpleRoute(pools, tokenIn, tokenOut, maxHops, route)
            && Net(tm, pools, tokenOut, amountIn, gasPriceGwei, route) == Ok(best)
            && (forall r :: IsSimpleRoute(pools, tokenIn, tokenOut, maxHops, r) ==>
                  var net := Net(tm, pools, tokenOut, amountIn, gasPriceGwei, r); net.Ok? && net.value <= best)
            && var all := AllRoutes(pools, tokenIn, tokenOut, maxHops);
               exists k :: 0 <= k < |all| && all[k] == route &&
                 forall j :: k < j < |all| ==>
                   Shaped(all[j]) && NetBelow(tm, pools, tokenOut, amountIn, gasPriceGwei, all[j], best)
  {
    var all := AllRoutes(pools, tokenIn, tokenOut, maxHops);
    hide AllRoutes, IsSimpleRoute, Net, Analyzes;
    AllRoutesExact(pools, tokenIn, tokenOut, maxHops, analyses[best].route);
    AnalyzedAnswers(tm, pools, tokenOut, amountIn, gasPriceGwei, analyses[best]);
    assert all[best] == analyses[best].route;
    forall j | best < j < |all|
      ensures Shaped(all[j])
      ensures NetBelow(tm, pools, tokenOut, amountIn, gasPriceGwei, all[j], analyses[best].netOutput)
    {
      assert analyses[j].route == all[j];
      AnalyzedAnswers(tm, pools, tokenOut, amountIn, gasPriceGwei, analyses[j]);
    }
    forall r | IsSimpleRoute(pools, tokenIn, tokenOut, maxHops, r)
      ensures Shaped(r)
      ensures var net := Net(tm, pools, tokenOut, amountIn, gasPriceGwei, r);
              net.Ok? && net.value <= analyses[best].netOutput
    {
      AllRoutesExact(pools, tokenIn, tokenOut, maxHops, r);
      var k :| 0 <= k < |all| && all[k] == r;
      assert analyses[k].route == r;
      AnalyzedAnswers(tm, pools, tokenOut, amountIn, gasPriceGwei, analyses[k]);
    }
  }

  // ----- when the search comes back

  /** Only V2 pools, with a fee of at most 100%. */
  predicate Plain(pools: seq<Pool>) { forall i :: 0 <= i < |pools| ==> pools[i].V2? && pools[i].pair.feeBps <= BPS }

  lemma PlainQuoteReturns(tm: TickMath, p: Pool, a: nat, t: Token)
    requires p.V2? && p.pair.feeBps <= BPS
    ensures PoolQuote(tm, p, a, t).Returns()
  {
    hide Mul, Div;
  }

  lemma {:induction false} PlainRouteReturns(tm: TickMath, pools: seq<Pool>, path: seq<Token>, amount: nat)
    requires |path| >= |pools| && Plain(pools)
    ensures RouteOutput(tm, pools, path, amount).Returns()
    decreases pools
  {
    if pools == [] {
    } else {
      PlainQuoteReturns(tm, pools[0], amount, path[0]);
      var quote := PoolQuote(tm, pools[0], amount, path[0]);
      hide PoolQuote;
      if quote.Ok? { PlainRouteReturns(tm, pools[1..], path[1..], quote.value); }
    }
  }

  lemma {:induction false} PlainCostReturns(tm: TickMath, edges: seq<Edge>, cost: nat)
    requires forall e :: e in edges ==> e.pool.V2? && e.pool.pair.feeBps <= BPS
    ensures CostVia(tm, edges, cost).Ok?
    decreases edges
  {
    if edges == [] {
    } else {
      PlainQuoteReturns(tm, edges[0].pool, cost, edges[0].to);
      hide PoolQuote;
      PlainCostReturns(tm, edges[1..], cost);
    }
  }

  /** On a graph of V2 pools the search always comes back. */
  lemma PlainGraphNeverHangs(tm: TickMath, pools: seq<Pool>, tokenIn: Token, tokenOut: Token, amountIn: nat,
                             gasPriceGwei: nat, maxHops: nat)
    requires Plain(pools)
    ensures !Hangs(tm, pools, tokenIn, tokenOut, amountIn, gasPriceGwei, maxHops)
  {
    var edges := Neighbors(pools, tokenOut.address);
    forall e | e in edges
      ensures e.pool.V2? && e.pool.pair.feeBps <= BPS
    {
      EdgesComeFromPools(pools, tokenOut.address, e);
    }
    forall r | IsSimpleRoute(pools, tokenIn, tokenOut, maxHops, r)
      ensures Shaped(r) && Answers(tm, pools, tokenOut, amountIn, gasPriceGwei, r)
    {
      assert Plain(r.pools) by { hide Joins; }
      PlainRouteReturns(tm, r.pools, r.path, amountIn);
      PlainCostReturns(tm, edges, GasCostEth(r, gasPriceGwei));
      hide RouteOutput, CostVia, Neighbors, IsSimpleRoute, GasCostEth;
    }
  }

  /** One pool whose quote does not come back, alone in a graph, is enough to hang the search. */
  lemma OnePoolHangsIff(tm: TickMath, p: Pool, tokenOut: Token, amountIn: nat, gasPriceGwei: nat, maxHops: nat)
    requires maxHops >= 1 && IsEth(tokenOut)
    requires tokenOut == Tokens(p).0 && tokenOut.address != Tokens(p).1.address
    ensures Hangs(tm, [p], Tokens(p).1, tokenOut, amountIn, gasPriceGwei, maxHops) <==>
            !PoolQuote(tm, p, amountIn, Tokens(p).1).Returns()
  {
    var tokenIn := Tokens(p).1;
    var only := Route([p], [tokenIn, tokenOut]);
    assert IsSimpleRoute([p], tokenIn, tokenOut, maxHops, only);
    hide PoolQuote;
    OneHop(tm, p, tokenIn, tokenOut, amountIn);
    forall r | IsSimpleRoute([p], tokenIn, tokenOut, maxHops, r)
      ensures r == only
    {
      OnlyRoute(p, tokenIn, tokenOut, maxHops, r);
    }
    hide RouteOutput, IsSimpleRoute;
  }

  lemma OneHop(tm: TickMath, p: Pool, tokenIn: Token, tokenOut: Token, amountIn: nat)
    ensures RouteOutput(tm, [p], [tokenIn, tokenOut], amountIn) == PoolQuote(tm, p, amountIn, tokenIn)
  {
    hide PoolQuote;
    assert [p][1..] == [];
  }

  lemma OnlyRoute(p: Pool, tokenIn: Token, tokenOut: Token, maxHops: nat, r: Route)
    requires tokenOut == Tokens(p).0 && tokenIn == Tokens(p).1 && tokenOut.address != tokenIn.address
    requires IsSimpleRoute([p], tokenIn, tokenOut, maxHops, r)
    ensures r == Route([p], [tokenIn, tokenOut])
  {
    assert Joins(r.pools[0], r.path[0], r.path[1]);
    if |r.pools| >= 2 {
      BackAgain(p, r);
      assert false;
    }
  }

  lemma BackAgain(p: Pool, r: Route)
    requires IsWalk([p], r) && |r.pools| >= 2 && Tokens(p).0.address != Tokens(p).1.address
    ensures r.path[0].address == r.path[2].address
  {
    assert Joins(r.pools[0], r.path[0], r.path[1]) && Joins(r.pools[1], r.path[1], r.path[2]);
  }

  /** It happens: the full-range pool whose quote never returns hangs the search through it. */
  lemma SearchCanHang(tm: TickMath, pool: ConcentratedLiquidity.V3Pool, gasPriceGwei: nat, maxHops: nat)
    requires SwapLoop.Saturates(tm) && SwapLoop.FullRange(pool) && maxHops >= 1
    requires IsEth(pool.token0) && pool.token0.address != pool.token1.address
    ensures Hangs(tm, [Pool.V3(pool)], pool.token1, pool.token0, 0x1_0000_0000, gasPriceGwei, maxHops)
  {
    SwapLoop.FullRangeQuoteDiverges(tm, pool, pool.token1, 0);
    OnePoolHangsIff(tm, Pool.V3(pool), pool.token0, 0x1_0000_0000, gasPriceGwei, maxHops);
    hide Hangs, IsEth, SwapLoop.FullRange, SwapLoop.Saturates, SwapLoop.V3AmountOut;
  }

  /** So does any simple route that enters a V3 pool without ticks on a free ride. */
  lemma FreeRideHangsTheSearch(tm: TickMath, pools: seq<Pool>, tokenIn: Token, tokenOut: Token, amountIn: nat,
                               gasPriceGwei: nat, maxHops: nat, r: Route, pool: ConcentratedLiquidity.V3Pool)
    requires IsSimpleRoute(pools, tokenIn, tokenOut, maxHops, r) && r.pools[0] == Pool.V3(pool) && amountIn > 0
    requires var zeroForOne := SwapLoop.ZeroForOne(pool, tokenIn);
             && SwapLoop.Ahead(pool.ticks, pool.tick, zeroForOne) == {}
             && ConcentratedLiquidity.FreeRide(pool.sqrtPrice, tm.ratio(SwapLoop.Bound(zeroForOne)), pool.liquidity)
    ensures Hangs(tm, pools, tokenIn, tokenOut, amountIn, gasPriceGwei, maxHops)
  {
    SwapLoop.FreeRideNeverReturns(tm, pool, amountIn, tokenIn);
    hide SwapLoop.V3AmountOut, SwapLoop.Ahead, ConcentratedLiquidity.FreeRide, TokenCost, GasCostEth;
    assert !PoolQuote(tm, r.pools[0], amountIn, r.path[0]).Returns();
    assert !Answers(tm, pools, tokenOut, amountIn, gasPriceGwei, r);
  }
}
