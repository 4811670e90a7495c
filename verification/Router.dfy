/** The route search of pricing/src/router.rs. */
module Router {
  import opened Common
  import opened ConstantProduct
  import ConcentratedLiquidity
  import SwapLoop

  // ----- pools and edges

  datatype Pool = V2(pair: Pair) | V3(v3: ConcentratedLiquidity.V3Pool)

  type TickMath = ConcentratedLiquidity.TickMath

  function Tokens(p: Pool): (Token, Token) {
    match p
    case V2(pair) => (pair.token0, pair.token1)
    case V3(v3) => (v3.token0, v3.token1)
  }

  ghost function PoolQuote(tm: TickMath, p: Pool, a: nat, t: Token): Result<nat> {
    match p
    case V2(pair) => ConstantProduct.GetAmountOut(pair, a, t)
    case V3(v3) => SwapLoop.V3AmountOut(tm, v3, a, t)
  }

  method GetPoolAmountOut(tm: TickMath, p: Pool, a: nat, t: Token) returns (r: Result<nat>)
    ensures r == PoolQuote(tm, p, a, t)
  {
    match p
    case V2(pair) => r := ConstantProduct.GetAmountOut(pair, a, t);
    case V3(v3) => r := SwapLoop.GetAmountOut(tm, v3, a, t);
  }

  datatype Edge = Edge(pool: Pool, to: Token)

  /** The pool joins token `a` to token `b`. */
  predicate Joins(p: Pool, a: Token, b: Token) {
    var (t0, t1) := Tokens(p);
    (a.address == t0.address && b == t1) || (a.address == t1.address && b == t0)
  }

  function EdgesOf(p: Pool, a: int): seq<Edge> {
    var (t0, t1) := Tokens(p);
    (if t0.address == a then [Edge(p, t1)] else []) + (if t1.address == a then [Edge(p, t0)] else [])
  }

  /** The adjacency list of an address, in the order in which the graph is built. */
  function Neighbors(pools: seq<Pool>, a: int): seq<Edge> {
    if pools == [] then [] else Neighbors(pools[..|pools| - 1], a) + EdgesOf(pools[|pools| - 1], a)
  }

  lemma {:induction false} NeighborsAreJoins(pools: seq<Pool>, a: Token, e: Edge)
    ensures e in Neighbors(pools, a.address) <==> e.pool in pools && Joins(e.pool, a, e.to)
  {
    if pools == [] {
    } else {
      NeighborsAreJoins(pools[..|pools| - 1], a, e);
      assert pools == pools[..|pools| - 1] + [pools[|pools| - 1]];
      assert e in EdgesOf(pools[|pools| - 1], a.address) <==> e.pool == pools[|pools| - 1] && Joins(e.pool, a, e.to);
    }
  }

  type Graph = map<int, seq<Edge>>

  function AdjacentTo(graph: Graph, a: int): seq<Edge> { if a in graph then graph[a] else [] }

  /** `entry(a).or_insert_with(Vec::new).push(e)`. */
  function AddEdge(graph: Graph, a: int, e: Edge): Graph { graph[a := AdjacentTo(graph, a) + [e]] }

  ghost predicate GraphOf(graph: Graph, pools: seq<Pool>) {
    forall a :: AdjacentTo(graph, a) == Neighbors(pools, a)
  }

  method BuildGraph(pools: seq<Pool>) returns (graph: Graph)
    ensures GraphOf(graph, pools)
  {
    graph := map[];
    assert GraphOf(graph, pools[..0]);
    hide GraphOf, AddEdge, Neighbors;
    for i := 0 to |pools|
      invariant GraphOf(graph, pools[..i])
    {
      var (t0, t1) := Tokens(pools[i]);
      AddPool(graph, pools, i);
      graph := AddEdge(graph, t0.address, Edge(pools[i], t1));
      graph := AddEdge(graph, t1.address, Edge(pools[i], t0));
    }
    assert pools[..|pools|] == pools;
  }

  lemma AdjacentAfter(graph: Graph, a: int, e: Edge, x: int)
    ensures AdjacentTo(AddEdge(graph, a, e), x) == AdjacentTo(graph, x) + (if x == a then [e] else [])
  {
    assert AdjacentTo(graph, x) + [] == AdjacentTo(graph, x);
  }

  function AddBoth(graph: Graph, p: Pool): Graph {
    var (t0, t1) := Tokens(p);
    AddEdge(AddEdge(graph, t0.address, Edge(p, t1)), t1.address, Edge(p, t0))
  }

  lemma AddBothAt(graph: Graph, p: Pool, a: int)
    ensures AdjacentTo(AddBoth(graph, p), a) == AdjacentTo(graph, a) + EdgesOf(p, a)
  {
    var (t0, t1) := Tokens(p);
    AdjacentAfter(graph, t0.address, Edge(p, t1), a);
    AdjacentAfter(AddEdge(graph, t0.address, Edge(p, t1)), t1.address, Edge(p, t0), a);
    hide AddEdge, AdjacentTo;
  }

  lemma NeighborsNext(pools: seq<Pool>, i: nat, a: int)
    requires i < |pools|
    ensures Neighbors(pools[..i + 1], a) == Neighbors(pools[..i], a) + EdgesOf(pools[i], a)
  {
    assert pools[..i + 1][..i] == pools[..i];
    hide EdgesOf;
  }

  lemma AddPool(graph: Graph, pools: seq<Pool>, i: nat)
    requires i < |pools| && GraphOf(graph, pools[..i])
    ensures GraphOf(AddBoth(graph, pools[i]), pools[..i + 1])
  {
    hide AddBoth, AdjacentTo, Neighbors, EdgesOf;
    forall a: int
      ensures AdjacentTo(AddBoth(graph, pools[i]), a) == Neighbors(pools[..i + 1], a)
    {
      AddBothAt(graph, pools[i], a);
      NeighborsNext(pools, i, a);
    }
  }

  // ----- routes

  datatype Route = Route(pools: seq<Pool>, path: seq<Token>)

  predicate Shaped(r: Route) { |r.path| == |r.pools| + 1 }

  ghost predicate DistinctTokens(path: seq<Token>) {
    forall i, j :: 0 <= i < j < |path| ==> path[i].address != path[j].address
  }

  /** A walk over the given pools: pool i joins token i to token i + 1. */
  ghost predicate IsWalk(pools: seq<Pool>, r: Route) {
    Shaped(r) && forall i :: 0 <= i < |r.pools| ==> r.pools[i] in pools && Joins(r.pools[i], r.path[i], r.path[i + 1])
  }

  ghost predicate IsSimpleRoute(pools: seq<Pool>, tokenIn: Token, tokenOut: Token, maxHops: nat, r: Route) {
    && IsWalk(pools, r)
    && 1 <= |r.pools| <= maxHops
    && r.path[0] == tokenIn && r.path[|r.pools|].address == tokenOut.address
    && DistinctTokens(r.path)
  }

  ghost predicate NoRepeats<T>(s: seq<T>) { forall i, j :: 0 <= i < j < |s| ==> s[i] != s[j] }

  // ----- the search as a function of its stacks

  ghost function Routes(pools: seq<Pool>, current: Token, target: Token, hops: nat,
                        visited: set<int>, toks: seq<Token>, pls: seq<Pool>): seq<Route>
    decreases hops, 1, 0
  {
    if current.address == target.address then (if pls == [] then [] else [Route(pls, toks)])
    else if hops == 0 then []
    else RoutesVia(pools, Neighbors(pools, current.address), target, hops, visited, toks, pls)
  }

  ghost function RoutesVia(pools: seq<Pool>, edges: seq<Edge>, target: Token, hops: nat,
                           visited: set<int>, toks: seq<Token>, pls: seq<Pool>): seq<Route>
    requires hops > 0
    decreases hops, 0, |edges|
  {
    if edges == [] then [] else
    var e := edges[0];
    (if e.to.address in visited then []
     else Routes(pools, e.to, target, hops - 1, visited + {e.to.address}, toks + [e.to], pls + [e.pool]))
    + RoutesVia(pools, edges[1..], target, hops, visited, toks, pls)
  }

  /** What may be appended to the stacks: a walk from `current` to the first token with the
      target's address, through unvisited tokens. */
  ghost predicate IsTail(pools: seq<Pool>, current: Token, target: Token, hops: nat,
                         visited: set<int>, toks: seq<Token>, pls: seq<Pool>)
    decreases hops
  {
    |toks| == |pls| <= hops &&
    if pls == [] then current.address == target.address
    else
      && current.address != target.address
      && pls[0] in pools && Joins(pls[0], current, toks[0])
      && toks[0].address !in visited
      && IsTail(pools, toks[0], target, hops - 1, visited + {toks[0].address}, toks[1..], pls[1..])
  }

  ghost predicate Continues(pools: seq<Pool>, current: Token, target: Token, hops: nat,
                            visited: set<int>, toks: seq<Token>, pls: seq<Pool>, r: Route) {
    toks <= r.path && pls <= r.pools &&
    IsTail(pools, current, target, hops, visited, r.path[|toks|..], r.pools[|pls|..])
  }

  lemma {:induction false} RoutesExact(pools: seq<Pool>, current: Token, target: Token, hops: nat,
                                       visited: set<int>, toks: seq<Token>, pls: seq<Pool>, r: Route)
    ensures r in Routes(pools, current, target, hops, visited, toks, pls) <==>
            r.pools != [] && Continues(pools, current, target, hops, visited, toks, pls, r)
    decreases hops, 1, 0
  {
    if current.address == target.address {
      if toks <= r.path && pls <= r.pools && r.path[|toks|..] == [] && r.pools[|pls|..] == [] {
        assert r.path == toks && r.pools == pls;
        assert r == Route(pls, toks);
      }
      if r == Route(pls, toks) {
        assert r.path[|toks|..] == [] && r.pools[|pls|..] == [];
      }
    } else if hops > 0 {
      var edges := Neighbors(pools, current.address);
      RoutesViaExact(pools, current, edges, target, hops, visited, toks, pls, r);
      forall e: Edge
        ensures e in edges <==> e.pool in pools && Joins(e.pool, current, e.to)
      {
        NeighborsAreJoins(pools, current, e);
      }
      TailGoesByEdge(pools, current, edges, target, hops, visited, toks, pls, r);
    }
  }

  ghost predicate TailAfter(pools: seq<Pool>, e: Edge, target: Token, hops: nat,
                            visited: set<int>, toks: seq<Token>, pls: seq<Pool>, r: Route)
    requires hops > 0
  {
    e.to.address !in visited &&
    Continues(pools, e.to, target, hops - 1, visited + {e.to.address}, toks + [e.to], pls + [e.pool], r)
  }

  lemma {:induction false} RoutesViaExact(pools: seq<Pool>, current: Token, edges: seq<Edge>, target: Token, hops: nat,
                                          visited: set<int>, toks: seq<Token>, pls: seq<Pool>, r: Route)
    requires hops > 0
    ensures r in RoutesVia(pools, edges, target, hops, visited, toks, pls) <==>
            r.pools != [] && exists e :: e in edges && TailAfter(pools, e, target, hops, visited, toks, pls, r)
    decreases hops, 0, |edges|
  {
    if edges == [] {
    } else {
      var e := edges[0];
      if e.to.address !in visited {
        RoutesExact(pools, e.to, target, hops - 1, visited + {e.to.address}, toks + [e.to], pls + [e.pool], r);
      }
      RoutesViaExact(pools, current, edges[1..], target, hops, visited, toks, pls, r);
      var first := if e.to.address in visited then []
                   else Routes(pools, e.to, target, hops - 1, visited + {e.to.address}, toks + [e.to], pls + [e.pool]);
      assert r in first <==> r.pools != [] && TailAfter(pools, e, target, hops, visited, toks, pls, r);
      assert forall x :: x in edges <==> x == e || x in edges[1..];
      if x :| x in edges && TailAfter(pools, x, target, hops, visited, toks, pls, r) {
        assert x == e || x in edges[1..];
      }
    }
  }

  lemma TailGoesByEdge(pools: seq<Pool>, current: Token, edges: seq<Edge>, target: Token, hops: nat,
                       visited: set<int>, toks: seq<Token>, pls: seq<Pool>, r: Route)
    requires hops > 0 && current.address != target.address
    requires forall e: Edge :: e in edges <==> e.pool in pools && Joins(e.pool, current, e.to)
    ensures (exists e :: e in edges && TailAfter(pools, e, target, hops, visited, toks, pls, r)) <==>
            Continues(pools, current, target, hops, visited, toks, pls, r)
  {
    if Continues(pools, current, target, hops, visited, toks, pls, r) {
      var e := Edge(r.pools[|pls|], r.path[|toks|]);
      assert r.path[|toks|..][1..] == r.path[|toks + [e.to]|..];
      assert r.pools[|pls|..][1..] == r.pools[|pls + [e.pool]|..];
      assert e in edges && TailAfter(pools, e, target, hops, visited, toks, pls, r);
    }
    if e :| e in edges && TailAfter(pools, e, target, hops, visited, toks, pls, r) {
      assert r.path[|toks|] == (toks + [e.to])[|toks|] == e.to;
      assert r.pools[|pls|] == (pls + [e.pool])[|pls|] == e.pool;
      assert r.path[|toks|..][1..] == r.path[|toks + [e.to]|..];
      assert r.pools[|pls|..][1..] == r.pools[|pls + [e.pool]|..];
    }
  }

  // ----- tails are simple routes

  /** The tail read forwards: a walk over fresh, pairwise distinct tokens to the target. */
  ghost predicate SimpleFrom(pools: seq<Pool>, current: Token, target: Token, hops: nat,
                             visited: set<int>, toks: seq<Token>, pls: seq<Pool>) {
    && |pls| <= hops
    && IsWalk(pools, Route(pls, [current] + toks))
    && ([current] + toks)[|pls|].address == target.address
    && DistinctTokens(toks)
    && (forall i :: 0 <= i < |toks| ==> toks[i].address !in visited)
  }

  lemma {:induction false} TailIsSimple(pools: seq<Pool>, current: Token, target: Token, hops: nat,
                                        visited: set<int>, toks: seq<Token>, pls: seq<Pool>)
    requires current.address in visited
    ensures IsTail(pools, current, target, hops, visited, toks, pls) <==>
            SimpleFrom(pools, current, target, hops, visited, toks, pls)
    decreases hops
  {
    if |toks| == |pls| && 0 < |pls| <= hops {
      TailIsSimple(pools, toks[0], target, hops - 1, visited + {toks[0].address}, toks[1..], pls[1..]);
      hide SimpleFrom, Joins;
      SimpleUnfolds(pools, current, target, hops, visited, toks, pls);
    } else {
      hide Joins;
    }
  }

  lemma SimpleUnfolds(pools: seq<Pool>, current: Token, target: Token, hops: nat,
                      visited: set<int>, toks: seq<Token>, pls: seq<Pool>)
    requires current.address in visited && |toks| == |pls| && 0 < |pls| <= hops
    ensures SimpleFrom(pools, current, target, hops, visited, toks, pls) <==>
            && current.address != target.address
            && pls[0] in pools && Joins(pls[0], current, toks[0])
            && toks[0].address !in visited
            && SimpleFrom(pools, toks[0], target, hops - 1, visited + {toks[0].address}, toks[1..], pls[1..])
  {
    hide Joins, IsWalk, DistinctTokens;
    var next, rest := toks[0], toks[1..];
    assert toks == [next] + rest;
    WalkUnfolds(pools, current, toks, pls);
    DistinctSplits(next, rest);
    assert forall i :: 0 <= i < |rest| ==> rest[i] == toks[i + 1];
    assert ([current] + toks)[|pls|] == toks[|pls| - 1];
    assert ([next] + rest)[|pls[1..]|] == toks[|pls| - 1];
    assert (forall i :: 0 <= i < |toks| ==> toks[i].address !in visited) <==>
        next.address !in visited && forall i :: 0 <= i < |rest| ==> rest[i].address !in visited;
  }

  lemma WalkUnfolds(pools: seq<Pool>, current: Token, toks: seq<Token>, pls: seq<Pool>)
    requires |toks| == |pls| > 0
    ensures IsWalk(pools, Route(pls, [current] + toks)) <==>
            pls[0] in pools && Joins(pls[0], current, toks[0]) && IsWalk(pools, Route(pls[1..], [toks[0]] + toks[1..]))
  {
    hide Joins;
    var whole, rest := [current] + toks, [toks[0]] + toks[1..];
    assert rest == toks;
    assert whole[1..] == rest;
    if IsWalk(pools, Route(pls, whole)) {
      assert Joins(pls[0], whole[0], whole[1]);
      forall i | 0 <= i < |pls[1..]|
        ensures pls[1..][i] in pools && Joins(pls[1..][i], rest[i], rest[i + 1])
      {
        assert Joins(pls[i + 1], whole[i + 1], whole[i + 2]);
      }
    }
    if pls[0] in pools && Joins(pls[0], current, toks[0]) && IsWalk(pools, Route(pls[1..], rest)) {
      forall i | 0 <= i < |pls|
        ensures pls[i] in pools && Joins(pls[i], whole[i], whole[i + 1])
      {
        if i > 0 { assert Joins(pls[1..][i - 1], rest[i - 1], rest[i]); }
      }
    }
  }

  ghost function AllRoutes(pools: seq<Pool>, tokenIn: Token, tokenOut: Token, maxHops: nat): seq<Route> {
    Routes(pools, tokenIn, tokenOut, maxHops, {tokenIn.address}, [tokenIn], [])
  }

  /** The search finds exactly the simple routes of 1 to `maxHops` hops. */
  lemma AllRoutesExact(pools: seq<Pool>, tokenIn: Token, tokenOut: Token, maxHops: nat, r: Route)
    ensures r in AllRoutes(pools, tokenIn, tokenOut, maxHops) <==> IsSimpleRoute(pools, tokenIn, tokenOut, maxHops, r)
  {
    RoutesExact(pools, tokenIn, tokenOut, maxHops, {tokenIn.address}, [tokenIn], [], r);
    if [tokenIn] <= r.path {
      var toks := r.path[1..];
      assert r.path == [tokenIn] + toks && r.pools[0..] == r.pools;
      TailIsSimple(pools, tokenIn, tokenOut, maxHops, {tokenIn.address}, toks, r.pools);
      assert Route(r.pools, [tokenIn] + toks) == r;
      DistinctSplits(tokenIn, toks);
    } else if r.path != [] {
      assert r.path[0] != tokenIn;
    }
  }

  lemma DistinctSplits(t: Token, toks: seq<Token>)
    ensures DistinctTokens([t] + toks) <==>
            DistinctTokens(toks) && forall i :: 0 <= i < |toks| ==> toks[i].address !in {t.address}
  {
    var whole := [t] + toks;
    if DistinctTokens(whole) {
      forall i, j | 0 <= i < j < |toks|
        ensures toks[i].address != toks[j].address
      {
        assert whole[i + 1].address != whole[j + 1].address;
      }
      forall i | 0 <= i < |toks|
        ensures toks[i].address != t.address
      {
        assert whole[0].address != whole[i + 1].address;
      }
    }
  }

  // ----- no route is found twice

  lemma NoRepeatsConcat<T>(a: seq<T>, b: seq<T>)
    requires NoRepeats(a) && NoRepeats(b) && forall x :: x in a ==> x !in b
    ensures NoRepeats(a + b)
  {
    forall i, j | 0 <= i < j < |a + b|
      ensures (a + b)[i] != (a + b)[j]
    {
      if i < |a| <= j { assert a[i] in a && b[j - |a|] in b; }
    }
  }

  /** Two equal edges among the given ones lead to a visited token. */
  ghost predicate FreshEdgesDiffer(edges: seq<Edge>, visited: set<int>) {
    forall i, j :: 0 <= i < j < |edges| && edges[i] == edges[j] ==> edges[i].to.address in visited
  }

  lemma {:induction false} NeighborsDiffer(pools: seq<Pool>, a: int, visited: set<int>)
    requires NoRepeats(pools) && a in visited
    ensures FreshEdgesDiffer(Neighbors(pools, a), visited)
  {
    if pools == [] {
    } else {
      var init, last := pools[..|pools| - 1], pools[|pools| - 1];
      NeighborsDiffer(init, a, visited);
      var es: seq<Edge>, le: seq<Edge> := Neighbors(init, a), EdgesOf(last, a);
      assert last !in init;
      forall x: Edge | x in es
        ensures x.pool != last
      {
        EdgesComeFromPools(init, a, x);
      }
      FreshEdgesConcat(es, le, visited);
    }
  }

  lemma FreshEdgesConcat(a: seq<Edge>, b: seq<Edge>, visited: set<int>)
    requires FreshEdgesDiffer(a, visited) && FreshEdgesDiffer(b, visited) && forall x :: x in a ==> x !in b
    ensures FreshEdgesDiffer(a + b, visited)
  {
    forall i: int, j: int | 0 <= i < j < |a + b| && (a + b)[i] == (a + b)[j]
      ensures (a + b)[i].to.address in visited
    {
      if i < |a| { assert (a + b)[i] in a; }
      if j >= |a| { assert (a + b)[j] in b; }
    }
  }

  lemma {:induction false} EdgesComeFromPools(pools: seq<Pool>, a: int, e: Edge)
    requires e in Neighbors(pools, a)
    ensures e.pool in pools
  {
    if pools == [] || e in EdgesOf(pools[|pools| - 1], a) {
    } else {
      EdgesComeFromPools(pools[..|pools| - 1], a, e);
    }
  }

  lemma {:induction false} RoutesNoRepeats(pools: seq<Pool>, current: Token, target: Token, hops: nat,
                                           visited: set<int>, toks: seq<Token>, pls: seq<Pool>)
    requires NoRepeats(pools) && current.address in visited
    ensures NoRepeats(Routes(pools, current, target, hops, visited, toks, pls))
    decreases hops, 1, 0
  {
    if current.address != target.address && hops > 0 {
      var edges := Neighbors(pools, current.address);
      NeighborsDiffer(pools, current.address, visited);
      RoutesViaNoRepeats(pools, current, edges, target, hops, visited, toks, pls);
    }
  }

  lemma {:induction false} RoutesViaNoRepeats(pools: seq<Pool>, current: Token, edges: seq<Edge>, target: Token,
                                              hops: nat, visited: set<int>, toks: seq<Token>, pls: seq<Pool>)
    requires hops > 0 && NoRepeats(pools) && FreshEdgesDiffer(edges, visited)
    ensures NoRepeats(RoutesVia(pools, edges, target, hops, visited, toks, pls))
    decreases hops, 0, |edges|
  {
    if edges == [] {
    } else {
      var e := edges[0];
      RoutesViaNoRepeats(pools, current, edges[1..], target, hops, visited, toks, pls);
      if e.to.address !in visited {
        var visited', toks', pls' := visited + {e.to.address}, toks + [e.to], pls + [e.pool];
        var first := Routes(pools, e.to, target, hops - 1, visited', toks', pls');
        var rest := RoutesVia(pools, edges[1..], target, hops, visited, toks, pls);
        RoutesNoRepeats(pools, e.to, target, hops - 1, visited', toks', pls');
        assert e !in edges[1..] by { FirstEdgeIsNew(edges, visited); }
        forall r | r in first
          ensures r !in rest
        {
          RoutesExact(pools, e.to, target, hops - 1, visited', toks', pls', r);
          RoutesViaExact(pools, current, edges[1..], target, hops, visited, toks, pls, r);
          forall x | x in edges[1..]
            ensures !TailAfter(pools, x, target, hops, visited, toks, pls, r)
          {
            TailFixesEdge(pools, x, e, target, hops, visited, toks, pls, r);
          }
        }
        NoRepeatsConcat(first, rest);
      }
    }
  }

  lemma FirstEdgeIsNew(edges: seq<Edge>, visited: set<int>)
    requires edges != [] && FreshEdgesDiffer(edges, visited) && edges[0].to.address !in visited
    ensures edges[0] !in edges[1..]
  {
    assert forall k :: 0 <= k < |edges[1..]| ==> edges[1..][k] == edges[k + 1];
  }

  lemma TailFixesEdge(pools: seq<Pool>, x: Edge, e: Edge, target: Token, hops: nat,
                      visited: set<int>, toks: seq<Token>, pls: seq<Pool>, r: Route)
    requires hops > 0 && TailAfter(pools, e, target, hops, visited, toks, pls, r)
    ensures TailAfter(pools, x, target, hops, visited, toks, pls, r) ==> x == e
  {
    assert r.path[|toks|] == (toks + [e.to])[|toks|] && r.pools[|pls|] == (pls + [e.pool])[|pls|];
    assert toks + [x.to] <= r.path && pls + [x.pool] <= r.pools ==>
        (toks + [x.to])[|toks|] == r.path[|toks|] && (pls + [x.pool])[|pls|] == r.pools[|pls|];
  }

  lemma AllRoutesNoRepeats(pools: seq<Pool>, tokenIn: Token, tokenOut: Token, maxHops: nat)
    requires NoRepeats(pools)
    ensures NoRepeats(AllRoutes(pools, tokenIn, tokenOut, maxHops))
  {
    RoutesNoRepeats(pools, tokenIn, tokenOut, maxHops, {tokenIn.address}, [tokenIn], []);
  }
}
