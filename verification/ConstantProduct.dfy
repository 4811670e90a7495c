/** The constant-product pair: `UniswapV2Pair` of pricing/src/amm.rs.

    `GetAmountOut`, `GetAmountIn` and `SimulateSwap` follow the source branch by
    branch, 256-bit overflow included.  `Quote` is the same floor division without
    the overflow checks; the theorems say what that integer means. */
module ConstantProduct {
  import opened Common

  const BPS: nat := 10000

  datatype Token = Token(address: int, decimals: nat, symbol: string)

  datatype Pair = Pair(address: int, token0: Token, token1: Token, reserve0: nat, reserve1: nat, feeBps: nat)

  function GetReservesOrdered(p: Pair, t: Token): Result<(nat, nat)> {
    if t.address == p.token0.address then Ok((p.reserve0, p.reserve1))
    else if t.address == p.token1.address then Ok((p.reserve1, p.reserve0))
    else Err(TokenNotInPair)
  }

  /** `10000 - fee_bps` on u32: a larger fee aborts. */
  function FeeMultiplier(p: Pair): Result<nat> {
    if p.feeBps <= BPS then Ok(BPS - p.feeBps) else Err(FeeTooLarge)
  }

  function GetAmountOut(p: Pair, amountIn: nat, tokenIn: Token): (r: Result<nat>)
    ensures r.Ok? ==> GetReservesOrdered(p, tokenIn).Ok?
  {
    var (ri, ro) :- GetReservesOrdered(p, tokenIn);
    if amountIn == 0 || ri == 0 || ro == 0 then Ok(0) else
    var g :- FeeMultiplier(p);
    var amountInWithFee :- CheckedMul(amountIn, g);
    var numerator :- CheckedMul(amountInWithFee, ro);
    var base :- CheckedMul(ri, BPS);
    var denominator :- CheckedAdd(base, amountInWithFee);
    if denominator == 0 then Err(ZeroDenominator) else Ok(Div(numerator, denominator))
  }

  function GetAmountIn(p: Pair, amountOut: nat, token: Token): (r: Result<nat>)
    ensures r.Ok? ==> GetReservesOrdered(p, token).Ok? && p.feeBps < BPS
    ensures r.Ok? ==> 0 < amountOut < GetReservesOrdered(p, token).value.1
  {
    var (ri, ro) :- GetReservesOrdered(p, token);
    if amountOut == 0 || amountOut >= ro then Err(InsufficientLiquidity) else
    var product :- CheckedMul(ri, amountOut);
    var numerator :- CheckedMul(product, BPS);
    var g :- FeeMultiplier(p);
    var denominator :- CheckedMul(ro - amountOut, g);
    if denominator == 0 then Err(ZeroDenominator) else
    var q := Div(numerator, denominator);
    Ok(if q + 1 < TWO_256 then q + 1 else TWO_256 - 1)
  }

  function SimulateSwap(p: Pair, amountIn: nat, tokenIn: Token): (r: Result<Pair>)
    ensures r.Ok? ==> GetAmountOut(p, amountIn, tokenIn).Ok?
  {
    var out :- GetAmountOut(p, amountIn, tokenIn);
    if tokenIn.address == p.token0.address then
      var r0 :- CheckedAdd(p.reserve0, amountIn);
      var r1 :- CheckedSub(p.reserve1, out);
      Ok(p.(reserve0 := r0, reserve1 := r1))
    else if tokenIn.address == p.token1.address then
      var r1 :- CheckedAdd(p.reserve1, amountIn);
      var r0 :- CheckedSub(p.reserve0, out);
      Ok(p.(reserve0 := r0, reserve1 := r1))
    else
      Err(TokenNotInPair)
  }

  // ----- the reference: the unchecked quote on ordered reserves

  ghost function Quote(ri: nat, ro: nat, g: nat, a: nat): nat {
    if a == 0 || ri == 0 || ro == 0 then 0 else
    Div(Mul(Mul(a, g), ro), Mul(ri, BPS) + Mul(a, g))
  }

  /** The fee-adjusted invariant of the Uniswap v2 Core whitepaper, section 3.2.1:
      a trade that puts `a` in and takes `o` out is admissible. */
  ghost predicate Admissible(ri: nat, ro: nat, g: nat, a: nat, o: int) {
    (BPS * ri + g * a) * (ro - o) >= BPS * ri * ro
  }

  /** On a live input reserve the zero cases agree with the fraction. */
  lemma QuoteIsFraction(ri: nat, ro: nat, g: nat, a: nat)
    requires ri > 0
    ensures BPS * ri + g * a > 0
    ensures Quote(ri, ro, g, a) == Div(g * a * ro, BPS * ri + g * a)
  {
    MulIs(a, g);
    MulIs(a * g, ro);
    MulIs(ri, BPS);
    hide Mul, Div;
    assert g * a == a * g;
    FloorLe(0, BPS * ri + g * a, 1);
    FloorLe(0, BPS * ri + g * a, 0);
  }

  /** The quote is exactly the largest admissible output. */
  lemma QuoteIsLargest(ri: nat, ro: nat, g: nat, a: nat, o: int)
    requires ri > 0
    ensures o <= Quote(ri, ro, g, a) <==> Admissible(ri, ro, g, a, o)
  {
    hide Quote, Mul, Div;
    QuoteIsFraction(ri, ro, g, a);
    var d := BPS * ri + g * a;
    var n := g * a * ro;
    assert d * (ro - o) == d * ro - o * d;
    assert d * ro == BPS * ri * ro + n;
    FloorLe(n, d, o);
  }

  lemma QuoteBelowReserve(ri: nat, ro: nat, g: nat, a: nat)
    ensures Quote(ri, ro, g, a) <= ro
    ensures ro > 0 ==> Quote(ri, ro, g, a) < ro
  {
    if ri > 0 && ro > 0 {
      hide Quote;
      QuoteIsLargest(ri, ro, g, a, ro);
      assert (BPS * ri + g * a) * (ro - ro) == 0;
      MulMono(1, BPS * ri, ro);
    }
  }

  /** A successful call returns the quote. */
  lemma AmountOutIsQuote(p: Pair, a: nat, t: Token)
    requires GetAmountOut(p, a, t).Ok?
    ensures var (ri, ro) := GetReservesOrdered(p, t).value;
            GetAmountOut(p, a, t).value == if p.feeBps <= BPS then Quote(ri, ro, BPS - p.feeBps, a) else 0
  {
    hide Mul, Div;
  }

  /** `GetAmountOut` pinned down without its formula: on live reserves it returns the
      largest admissible output, otherwise zero. */
  lemma AmountOutIsLargestAdmissible(p: Pair, a: nat, t: Token, o: int)
    requires GetAmountOut(p, a, t).Ok?
    ensures var (ri, ro) := GetReservesOrdered(p, t).value;
            var out := GetAmountOut(p, a, t).value;
            if a == 0 || ri == 0 || ro == 0 then out == 0
            else p.feeBps <= BPS && out < ro && (o <= out <==> Admissible(ri, ro, BPS - p.feeBps, a, o))
  {
    var (ri, ro) := GetReservesOrdered(p, t).value;
    AmountOutIsQuote(p, a, t);
    if a != 0 && ri != 0 && ro != 0 {
      QuoteIsLargest(ri, ro, BPS - p.feeBps, a, o);
      QuoteBelowReserve(ri, ro, BPS - p.feeBps, a);
    }
  }

  /** With Uniswap's own reserve width (uint112) no check can fire. */
  lemma NoOverflowOnUint112(p: Pair, a: nat, t: Token)
    requires p.feeBps <= BPS
    requires p.reserve0 < 0x1_0000_0000_0000_0000_0000_0000_0000 && p.reserve1 < 0x1_0000_0000_0000_0000_0000_0000_0000
    requires a < 0x1_0000_0000_0000_0000_0000_0000_0000
    ensures GetAmountOut(p, a, t).Ok? <==> t.address in {p.token0.address, p.token1.address}
  {
    if t.address in {p.token0.address, p.token1.address} {
      var (ri, ro) := GetReservesOrdered(p, t).value;
      var w: nat := 0x1_0000_0000_0000_0000_0000_0000_0000;
      var g := BPS - p.feeBps;
      MulIs(a, g);
      MulIs(a * g, ro);
      MulIs(ri, BPS);
      hide Mul, Div;
      ProductBound(a, g, w, BPS);
      ProductBound(a * g, ro, w * BPS, w);
    }
  }

  lemma ProductBound(x: nat, y: nat, limX: nat, limY: nat)
    requires x <= limX && y <= limY
    ensures x * y <= limX * limY
  {
    MulMono(x, limX, y);
    MulMono(y, limY, limX);
  }

  /** More input never quotes less. */
  lemma QuoteGrows(p: Pair, y: nat, x: nat, t: Token)
    requires y <= x && GetAmountOut(p, x, t).Ok? && GetAmountOut(p, y, t).Ok?
    ensures GetAmountOut(p, y, t).value <= GetAmountOut(p, x, t).value
  {
    var (ri, ro) := GetReservesOrdered(p, t).value;
    var out := GetAmountOut(p, y, t).value;
    AmountOutIsLargestAdmissible(p, y, t, out);
    AmountOutIsLargestAdmissible(p, x, t, out);
    if 0 < y && 0 < ri && 0 < ro { AdmissibleGrows(ri, ro, BPS - p.feeBps, y, x, out); }
    hide GetAmountOut, Admissible;
  }

  lemma AdmissibleGrows(ri: nat, ro: nat, g: nat, y: nat, x: nat, o: nat)
    requires y <= x && o <= ro && Admissible(ri, ro, g, y, o)
    ensures Admissible(ri, ro, g, x, o)
  {
    MulMono(y, x, g);
    MulMono(BPS * ri + g * y, BPS * ri + g * x, ro - o);
  }

  /** A quote succeeds exactly when the token is known and, on live reserves, the fee is at most
      100% and the two sides of the fraction fit 256 bits. */
  lemma AmountOutOkIff(p: Pair, a: nat, t: Token)
    ensures GetAmountOut(p, a, t).Ok? <==>
            (t.address == p.token0.address || t.address == p.token1.address) &&
            var (r0, r1) := (p.reserve0, p.reserve1);
            var (ri, ro) := if t.address == p.token0.address then (r0, r1) else (r1, r0);
            a == 0 || ri == 0 || ro == 0 ||
            (&& p.feeBps <= 10000
             && a * (10000 - p.feeBps) * ro < TWO_256
             && ri * 10000 + a * (10000 - p.feeBps) < TWO_256)
  {
    if t.address == p.token0.address || t.address == p.token1.address {
      var (ri, ro) := GetReservesOrdered(p, t).value;
      if a > 0 && ri > 0 && ro > 0 && p.feeBps <= BPS {
        var g := BPS - p.feeBps;
        MulIs(a, g);
        MulIs(a * g, ro);
        MulIs(ri, BPS);
        MulMono(1, ro, a * g);
      }
    }
    hide Mul, Div;
  }

  /** An inverse quote succeeds exactly when the token is known, the output is positive and below its
      reserve, the fee is below 100% and both products fit 256 bits. */
  lemma AmountInOkIff(p: Pair, o: nat, t: Token)
    ensures GetAmountIn(p, o, t).Ok? <==>
            (t.address == p.token0.address || t.address == p.token1.address) &&
            var (r0, r1) := (p.reserve0, p.reserve1);
            var (ri, ro) := if t.address == p.token0.address then (r0, r1) else (r1, r0);
            0 < o < ro && p.feeBps < 10000 && ri * o * 10000 < TWO_256 && (ro - o) * (10000 - p.feeBps) < TWO_256
  {
    if t.address == p.token0.address || t.address == p.token1.address {
      var (ri, ro) := GetReservesOrdered(p, t).value;
      if 0 < o < ro && p.feeBps <= BPS {
        MulIs(ri, o);
        MulIs(ri * o, BPS);
        MulIs(ro - o, BPS - p.feeBps);
        MulPositive(ro - o, BPS - p.feeBps);
      }
    }
    hide Mul, Div;
  }

  /** With Uniswap's own reserve width (uint112) the products always fit. */
  lemma AmountInOnUint112(p: Pair, o: nat, t: Token)
    requires p.reserve0 < 0x1_0000_0000_0000_0000_0000_0000_0000 && p.reserve1 < 0x1_0000_0000_0000_0000_0000_0000_0000
    requires p.feeBps < 10000
    ensures GetAmountIn(p, o, t).Ok? <==>
            (t.address == p.token0.address || t.address == p.token1.address) &&
            0 < o < (if t.address == p.token0.address then p.reserve1 else p.reserve0)
  {
    AmountInOkIff(p, o, t);
    var (ri, ro) := if t.address == p.token0.address then (p.reserve0, p.reserve1) else (p.reserve1, p.reserve0);
    if 0 < o < ro {
      var w: nat := 0x1_0000_0000_0000_0000_0000_0000_0000;
      ProductBound(ri, o, w, w);
      ProductBound(ro - o, BPS - p.feeBps, w, BPS);
    }
    hide GetAmountIn;
  }

  // ----- the product of the reserves

  ghost function K(p: Pair): nat { p.reserve0 * p.reserve1 }

  lemma QuoteOfNothing(ri: nat, ro: nat, g: nat)
    ensures Quote(ri, ro, g, 0) == 0 && Quote(ri, 0, g, ri) == 0
  {
  }

  lemma QuoteKeepsProduct(ri: nat, ro: nat, g: nat, a: nat)
    requires g <= BPS
    ensures var o := Quote(ri, ro, g, a); o <= ro && (ri + a) * (ro - o) >= ri * ro
  {
    hide Quote;
    var o := Quote(ri, ro, g, a);
    QuoteBelowReserve(ri, ro, g, a);
    if ri > 0 {
      QuoteIsLargest(ri, ro, g, a, o);
      AdmissibleKeepsProduct(BPS, ri, ro, g, a, ro - o);
    }
  }

  lemma AdmissibleKeepsProduct(b: nat, ri: nat, ro: nat, g: nat, a: nat, left: nat)
    requires 0 < b && g <= b
    requires (b * ri + g * a) * left >= b * ri * ro
    ensures (ri + a) * left >= ri * ro
  {
    MulMono(g, b, a);
    assert b * ri + g * a <= b * (ri + a);
    MulMono(b * ri + g * a, b * (ri + a), left);
    assert ((ri + a) * left) * b == (b * (ri + a)) * left;
    assert (ri * ro) * b == b * ri * ro;
    MulCancel(ri * ro, (ri + a) * left, b);
  }

  /** One successful swap: what moves, and what it does to the product. */
  lemma SwapStep(p: Pair, a: nat, t: Token)
    requires SimulateSwap(p, a, t).Ok?
    ensures GetAmountOut(p, a, t).Ok?
    ensures var p' := SimulateSwap(p, a, t).value;
            var out := GetAmountOut(p, a, t).value;
            && GetReservesOrdered(p', t)
                == Ok((GetReservesOrdered(p, t).value.0 + a, GetReservesOrdered(p, t).value.1 - out))
            && p' == p.(reserve0 := p'.reserve0, reserve1 := p'.reserve1)
            && K(p') >= K(p)
            && (K(p) > 0 ==> p'.reserve0 > 0 && p'.reserve1 > 0)
  {
    hide GetAmountOut, Quote;
    var (ri, ro) := GetReservesOrdered(p, t).value;
    var out := GetAmountOut(p, a, t).value;
    var p' := SimulateSwap(p, a, t).value;
    AmountOutIsQuote(p, a, t);
    if p.feeBps > BPS {
      MulMono(ri, ri + a, ro);
    } else {
      QuoteKeepsProduct(ri, ro, BPS - p.feeBps, a);
    }
    assert (p'.reserve0 == ri + a && p'.reserve1 == ro - out && p.reserve0 == ri && p.reserve1 == ro)
        || (p'.reserve1 == ri + a && p'.reserve0 == ro - out && p.reserve1 == ri && p.reserve0 == ro);
    hide *;
    KMeans(p, p', ri, ro, ri + a, ro - out);
  }

  lemma KMeans(p: Pair, p': Pair, ri: nat, ro: nat, ri': nat, ro': nat)
    requires (p'.reserve0 == ri' && p'.reserve1 == ro' && p.reserve0 == ri && p.reserve1 == ro)
          || (p'.reserve1 == ri' && p'.reserve0 == ro' && p.reserve1 == ri && p.reserve0 == ro)
    requires ri' * ro' >= ri * ro
    ensures K(p') >= K(p) && (K(p) > 0 ==> p'.reserve0 > 0 && p'.reserve1 > 0)
  {
    assert ri' == 0 || ro' == 0 ==> ri' * ro' == 0;
  }

  /** The checked subtraction of the output never fails: the only arithmetic failure
      of a swap that has a quote is the addition of the input. */
  lemma SwapFailsOnlyOnInput(p: Pair, a: nat, t: Token)
    requires GetAmountOut(p, a, t).Ok?
    ensures SimulateSwap(p, a, t).Ok? <==> GetReservesOrdered(p, t).value.0 + a < TWO_256
  {
    var (ri, ro) := GetReservesOrdered(p, t).value;
    AmountOutIsQuote(p, a, t);
    QuoteBelowReserve(ri, ro, if p.feeBps <= BPS then BPS - p.feeBps else 0, a);
  }

  // ----- runs of swaps, either direction

  datatype Swap = Swap(amountIn: nat, tokenIn: Token)

  function Run(p: Pair, swaps: seq<Swap>): Result<Pair>
    decreases swaps
  {
    if swaps == [] then Ok(p) else
    var p' :- SimulateSwap(p, swaps[0].amountIn, swaps[0].tokenIn);
    Run(p', swaps[1..])
  }

  lemma {:induction false} RunKeepsProduct(p: Pair, swaps: seq<Swap>)
    requires Run(p, swaps).Ok?
    ensures K(Run(p, swaps).value) >= K(p)
    ensures K(p) > 0 ==> Run(p, swaps).value.reserve0 > 0 && Run(p, swaps).value.reserve1 > 0
    decreases swaps
  {
    if swaps == [] {
    } else {
      SwapStep(p, swaps[0].amountIn, swaps[0].tokenIn);
      RunKeepsProduct(SimulateSwap(p, swaps[0].amountIn, swaps[0].tokenIn).value, swaps[1..]);
    }
  }

  /** No run of swaps takes one token out of a live pool without putting some of the
      other token in. */
  lemma NoFreeLunch(p: Pair, swaps: seq<Swap>)
    requires Run(p, swaps).Ok? && p.reserve0 > 0 && p.reserve1 > 0
    ensures var p' := Run(p, swaps).value;
            && (p'.reserve0 < p.reserve0 ==> p'.reserve1 > p.reserve1)
            && (p'.reserve1 < p.reserve1 ==> p'.reserve0 > p.reserve0)
  {
    hide Run;
    RunKeepsProduct(p, swaps);
    var p' := Run(p, swaps).value;
    if p'.reserve1 <= p.reserve1 {
      MulMono(p'.reserve1, p.reserve1, p'.reserve0);
      MulCancel(p.reserve0, p'.reserve0, p.reserve1);
    }
    if p'.reserve0 <= p.reserve0 {
      MulMono(p'.reserve0, p.reserve0, p'.reserve1);
      MulCancel(p.reserve1, p'.reserve1, p.reserve0);
    }
  }

  /** There and back: selling the proceeds on the updated pool returns at most the input. */
  lemma RoundTripNeverGains(p: Pair, a: nat, t: Token, back: Token)
    requires p.token0.address != p.token1.address
    requires t.address in {p.token0.address, p.token1.address}
    requires back.address in {p.token0.address, p.token1.address} && back.address != t.address
    requires SimulateSwap(p, a, t).Ok?
    requires GetAmountOut(SimulateSwap(p, a, t).value, GetAmountOut(p, a, t).value, back).Ok?
    ensures GetAmountOut(SimulateSwap(p, a, t).value, GetAmountOut(p, a, t).value, back).value <= a
  {
    hide GetAmountOut, SimulateSwap, Quote;
    var out := GetAmountOut(p, a, t).value;
    var p1 := SimulateSwap(p, a, t).value;
    SwapStep(p, a, t);
    var (ri, ro) := GetReservesOrdered(p, t).value;
    AmountOutIsQuote(p1, out, back);
    var g := if p.feeBps <= BPS then BPS - p.feeBps else 0;
    var o2 := Quote(ro - out, ri + a, g, out);
    QuoteKeepsProduct(ro - out, ri + a, g, out);
    if ro == 0 {
      QuoteBelowReserve(ri, ro, g, a);
      QuoteOfNothing(ro - out, ri + a, g);
    } else {
      assert ro * (ri + a - o2) >= (ro - out) * (ri + a) >= ri * ro;
      MulCancel(ri, ri + a - o2, ro);
    }
  }

  // ----- splitting an order

  /** Outputs of same-direction swaps executed one after another. */
  function SplitOutput(p: Pair, amounts: seq<nat>, t: Token): Result<nat>
    decreases amounts
  {
    if amounts == [] then Ok(0) else
    var out :- GetAmountOut(p, amounts[0], t);
    var p' :- SimulateSwap(p, amounts[0], t);
    var rest :- SplitOutput(p', amounts[1..], t);
    Ok(out + rest)
  }

  ghost function SplitQuote(ri: nat, ro: nat, g: nat, amounts: seq<nat>): nat
    decreases amounts
  {
    if amounts == [] then 0 else
    var o := QuoteBound(ri, ro, g, amounts[0]);
    o + SplitQuote(ri + amounts[0], ro - o, g, amounts[1..])
  }

  /** Two orders: with D1 = 10000·ri + g·a and D2 = 10000·(ri+a) + g·b, chaining the two
      admissibility conditions dominates the condition of the joint order, because
      10000·(ri+a) >= D1. */
  lemma TwoOrdersNeverHelp(ri: nat, ro: nat, g: nat, a: nat, b: nat)
    requires ri > 0 && g <= BPS
    ensures Quote(ri, ro, g, a) <= ro
    ensures Quote(ri, ro, g, a) + Quote(ri + a, ro - Quote(ri, ro, g, a), g, b) <= Quote(ri, ro, g, a + b)
  {
    hide Quote, Mul, Div, Admissible;
    QuoteBelowReserve(ri, ro, g, a);
    var o1 := Quote(ri, ro, g, a);
    var o2 := Quote(ri + a, ro - o1, g, b);
    QuoteIsLargest(ri, ro, g, a, o1);
    QuoteIsLargest(ri + a, ro - o1, g, b, o2);
    QuoteIsLargest(ri, ro, g, a + b, o1 + o2);
    QuoteBelowReserve(ri + a, ro - o1, g, b);
    JointAdmissible(ri, ro, g, a, b, o1, o2);
  }

  lemma JointAdmissible(ri: nat, ro: nat, g: nat, a: nat, b: nat, o1: nat, o2: nat)
    requires ri > 0 && g <= BPS && o1 + o2 <= ro
    requires Admissible(ri, ro, g, a, o1) && Admissible(ri + a, ro - o1, g, b, o2)
    ensures Admissible(ri, ro, g, a + b, o1 + o2)
  {
    var m, m', x, y := BPS * ri, BPS * (ri + a), g * a, g * b;
    assert m' >= m + x by { MulMono(g, BPS, a); }
    assert g * (a + b) == x + y;
    JointCondition(m, m', x, y, ro, ro - o1, ro - o1 - o2);
  }

  lemma JointCondition(m: nat, m': nat, x: nat, y: nat, r: nat, r1: nat, r2: nat)
    requires m > 0 && m' >= m + x
    requires (m + x) * r1 >= m * r
    requires (m' + y) * r2 >= m' * r1
    ensures (m + x + y) * r2 >= m * r
  {
    var d := m + x;
    // d·(m'+y)·r2 >= d·m'·r1 >= m'·m·r, and (d+y)·m' >= (m'+y)·d
    ChainProducts(m' + y, r2, m', r1, d);
    ChainProducts(d, r1, m, r, m');
    CrossTerms(d, m', y, r2);
    assert (m * r) * m' <= ((d + y) * r2) * m';
    MulCancel(m * r, (d + y) * r2, m');
  }

  lemma ChainProducts(u: nat, v: nat, w: nat, z: nat, k: nat)
    requires u * v >= w * z
    ensures (u * v) * k >= (w * z) * k == (w * k) * z == (k * z) * w
  {
    MulMono(w * z, u * v, k);
  }

  lemma CrossTerms(d: nat, m': nat, y: nat, r2: nat)
    requires m' >= d
    ensures ((m' + y) * r2) * d <= ((d + y) * r2) * m'
  {
    MulMono(d, m', y);
    assert (m' + y) * d <= (d + y) * m';
    MulMono((m' + y) * d, (d + y) * m', r2);
    assert ((m' + y) * d) * r2 == ((m' + y) * r2) * d;
    assert ((d + y) * m') * r2 == ((d + y) * r2) * m';
  }

  /** A pool on which no split can help: a live input reserve, or nothing to pay out. */
  predicate SplitSafe(ri: nat, ro: nat, g: nat) { ri > 0 || ro <= 1 || g == 0 }

  lemma {:induction false} SplitQuoteNeverHelps(ri: nat, ro: nat, g: nat, amounts: seq<nat>)
    requires SplitSafe(ri, ro, g) && g <= BPS
    ensures SplitQuote(ri, ro, g, amounts) <= Quote(ri, ro, g, SumNat(amounts))
    decreases amounts
  {
    hide Quote, Mul, Div;
    if amounts == [] {
      QuoteOfNothing(ri, ro, g);
    } else {
      var a, b := amounts[0], SumNat(amounts[1..]);
      SplitQuoteNeverHelps(ri + a, ro - QuoteBound(ri, ro, g, a), g, amounts[1..]);
      OrderThenRest(ri, ro, g, a, b);
    }
  }

  ghost function QuoteBound(ri: nat, ro: nat, g: nat, a: nat): (o: nat)
    ensures o == Quote(ri, ro, g, a) <= ro && (ro > 0 ==> o < ro)
  {
    QuoteBelowReserve(ri, ro, g, a);
    Quote(ri, ro, g, a)
  }

  lemma OrderThenRest(ri: nat, ro: nat, g: nat, a: nat, b: nat)
    requires SplitSafe(ri, ro, g) && g <= BPS
    ensures var o := QuoteBound(ri, ro, g, a);
            o + Quote(ri + a, ro - o, g, b) <= Quote(ri, ro, g, a + b)
  {
    var o := QuoteBound(ri, ro, g, a);
    if ri > 0 {
      TwoOrdersNeverHelp(ri, ro, g, a, b);
    } else if ro <= 1 {
      hide Quote;
      QuoteBelowReserve(ri + a, ro - o, g, b);
    } else {
      QuoteNoFeeLeft(ri + a, ro - o, b);
    }
  }

  lemma QuoteNoFeeLeft(ri: nat, ro: nat, a: nat)
    ensures Quote(ri, ro, 0, a) == 0
  {
    if ri > 0 {
      QuoteIsFraction(ri, ro, 0, a);
      FloorLe(0, BPS * ri, 1);
    }
  }

  lemma {:induction false} SplitOutputIsQuote(p: Pair, amounts: seq<nat>, t: Token)
    requires p.feeBps <= BPS && SplitOutput(p, amounts, t).Ok? && GetReservesOrdered(p, t).Ok?
    ensures var (ri, ro) := GetReservesOrdered(p, t).value;
            SplitOutput(p, amounts, t).value == SplitQuote(ri, ro, BPS - p.feeBps, amounts)
    decreases amounts
  {
    hide GetAmountOut, SimulateSwap, Quote;
    if amounts == [] {
    } else {
      SwapStep(p, amounts[0], t);
      AmountOutIsQuote(p, amounts[0], t);
      SplitOutputIsQuote(SimulateSwap(p, amounts[0], t).value, amounts[1..], t);
    }
  }

  /** Splitting an order into any list of smaller ones never pays more than the whole
      order on the original pool, floors included. */
  lemma SplitNeverHelps(p: Pair, amounts: seq<nat>, t: Token)
    requires p.feeBps <= BPS
    requires SplitOutput(p, amounts, t).Ok? && GetAmountOut(p, SumNat(amounts), t).Ok?
    requires SplitSafe(GetReservesOrdered(p, t).value.0, GetReservesOrdered(p, t).value.1, BPS - p.feeBps)
    ensures SplitOutput(p, amounts, t).value <= GetAmountOut(p, SumNat(amounts), t).value
  {
    var (ri, ro) := GetReservesOrdered(p, t).value;
    SplitOutputIsQuote(p, amounts, t);
    AmountOutIsQuote(p, SumNat(amounts), t);
    SplitQuoteNeverHelps(ri, ro, BPS - p.feeBps, amounts);
  }

  ghost predicate NoSplitHelps(p: Pair, t: Token) {
    forall amounts: seq<nat> ::
      SplitOutput(p, amounts, t).Ok? && GetAmountOut(p, SumNat(amounts), t).Ok? ==>
        SplitOutput(p, amounts, t).value <= GetAmountOut(p, SumNat(amounts), t).value
  }

  /** A reserve that no fee-adjusted input can be multiplied by without leaving 256 bits. */
  predicate NeverPays(ro: nat, g: nat) { Mul(g, ro) >= TWO_256 }

  /** The exact condition.  An empty input reserve quotes zero, so one unit of dust followed by a
      further order beats both at once; every other pool is safe, and so is one whose every
      quote overflows. */
  lemma SplitNeverHelpsIff(p: Pair, t: Token)
    requires p.feeBps <= BPS && GetReservesOrdered(p, t).Ok?
    ensures var (ri, ro) := GetReservesOrdered(p, t).value;
            NoSplitHelps(p, t) <==> SplitSafe(ri, ro, BPS - p.feeBps) || NeverPays(ro, BPS - p.feeBps)
  {
    var (ri, ro) := GetReservesOrdered(p, t).value;
    var g := BPS - p.feeBps;
    if SplitSafe(ri, ro, g) || NeverPays(ro, g) {
      forall amounts: seq<nat> | SplitOutput(p, amounts, t).Ok? && GetAmountOut(p, SumNat(amounts), t).Ok?
        ensures SplitOutput(p, amounts, t).value <= GetAmountOut(p, SumNat(amounts), t).value
      {
        if SplitSafe(ri, ro, g) { SplitNeverHelps(p, amounts, t); } else { OverflowNeverPays(p, amounts, t); }
      }
    } else {
      SplitHelpsOnEmptyReserve(p, t);
    }
  }

  lemma {:induction false} OverflowNeverPays(p: Pair, amounts: seq<nat>, t: Token)
    requires p.feeBps <= BPS && GetReservesOrdered(p, t).Ok? && SplitOutput(p, amounts, t).Ok?
    requires NeverPays(GetReservesOrdered(p, t).value.1, BPS - p.feeBps)
    ensures SplitOutput(p, amounts, t).value == 0
    decreases amounts
  {
    if amounts == [] {
    } else {
      OverflowQuotesZero(p, amounts[0], t);
      hide GetAmountOut, SimulateSwap, NeverPays;
      SwapStep(p, amounts[0], t);
      OverflowNeverPays(SimulateSwap(p, amounts[0], t).value, amounts[1..], t);
    }
  }

  lemma OverflowQuotesZero(p: Pair, a: nat, t: Token)
    requires p.feeBps <= BPS && GetAmountOut(p, a, t).Ok?
    requires NeverPays(GetReservesOrdered(p, t).value.1, BPS - p.feeBps)
    ensures GetAmountOut(p, a, t).value == 0
  {
    var ro := GetReservesOrdered(p, t).value.1;
    if a > 0 { ScaledProduct(a, BPS - p.feeBps, ro); }
    hide Mul, Div;
  }

  lemma ScaledProduct(a: nat, g: nat, ro: nat)
    requires a > 0
    ensures Mul(Mul(a, g), ro) >= Mul(g, ro)
  {
    hide Mul;
    MulIs(g, ro);
    MulIs(a, g);
    MulIs(a * g, ro);
    MulMono(1, a, g * ro);
    assert a * g * ro == a * (g * ro);
  }

  lemma EmptyReserveQuotesZero(p: Pair, a: nat, t: Token)
    requires GetReservesOrdered(p, t).Ok? && GetReservesOrdered(p, t).value.0 == 0
    ensures GetAmountOut(p, a, t) == Ok(0)
  {
  }

  /** The second order that pays after one unit of dust: 1 if it can, else 10000. */
  function SecondOrder(ro: nat, g: nat): nat { if Mul(g, ro) >= 2 * BPS * BPS then 1 else BPS }

  lemma DustIsAdmissible(ro: nat, g: nat)
    requires ro >= 2 && 1 <= g <= BPS
    ensures Admissible(1, ro, g, SecondOrder(ro, g), 1)
  {
    MulIs(g, ro);
    var a := SecondOrder(ro, g);
    hide Mul;
    assert (BPS * 1 + g * a) * (ro - 1) - BPS * 1 * ro == (g * a) * (ro - 1) - BPS;
    if a == 1 {
      assert g * (ro - 1) == g * ro - g;
    } else {
      MulMono(1, g, ro - 1);
      assert (g * BPS) * (ro - 1) == BPS * (g * (ro - 1));
    }
  }

  lemma DustIsQuoted(p: Pair, t: Token)
    requires p.feeBps < BPS && GetReservesOrdered(p, t).Ok? && GetReservesOrdered(p, t).value.0 == 1
    requires !NeverPays(GetReservesOrdered(p, t).value.1, BPS - p.feeBps)
    ensures GetAmountOut(p, SecondOrder(GetReservesOrdered(p, t).value.1, BPS - p.feeBps), t).Ok?
  {
    var ro, g := GetReservesOrdered(p, t).value.1, BPS - p.feeBps;
    var a := SecondOrder(ro, g);
    MulIs(g, ro);
    MulIs(a, g);
    MulIs(a * g, ro);
    MulIs(1, BPS);
    hide Mul, Div;
    assert a * g * ro == a * (g * ro);
    assert a * g <= BPS * BPS by { MulMono(a, BPS, g); }
  }

  lemma SplitHelpsOnEmptyReserve(p: Pair, t: Token)
    requires p.feeBps < BPS && GetReservesOrdered(p, t).Ok?
    requires GetReservesOrdered(p, t).value.0 == 0 && GetReservesOrdered(p, t).value.1 >= 2
    requires !NeverPays(GetReservesOrdered(p, t).value.1, BPS - p.feeBps)
    ensures var a := SecondOrder(GetReservesOrdered(p, t).value.1, BPS - p.feeBps);
            && SplitOutput(p, [1, a], t).Ok? && SplitOutput(p, [1, a], t).value >= 1
            && GetAmountOut(p, SumNat([1, a]), t) == Ok(0)
  {
    var (ri, ro) := GetReservesOrdered(p, t).value;
    var g := BPS - p.feeBps;
    var a := SecondOrder(ro, g);
    assert a <= BPS by { hide Mul; }
    hide GetAmountOut, Quote, SecondOrder, NeverPays;
    EmptyReserveQuotesZero(p, 1, t);
    EmptyReserveQuotesZero(p, SumNat([1, a]), t);
    var p1 := SimulateSwap(p, 1, t).value;
    DustIsQuoted(p1, t);
    AmountOutIsQuote(p1, a, t);
    SwapFailsOnlyOnInput(p1, a, t);
    DustIsAdmissible(ro, g);
    QuoteIsLargest(1, ro, g, a, 1);
    var p2 := SimulateSwap(p1, a, t).value;
    assert [1, a][1..] == [a] && [a][1..] == [];
    assert SplitOutput(p2, [], t) == Ok(0);
    assert SplitOutput(p1, [a], t) == Ok(GetAmountOut(p1, a, t).value);
  }

  // ----- the inverse

  ghost function InverseNumerator(p: Pair, o: nat, t: Token): nat
    requires GetReservesOrdered(p, t).Ok?
  {
    GetReservesOrdered(p, t).value.0 * o * BPS
  }

  ghost function InverseDenominator(p: Pair, o: nat, t: Token): (d: nat)
    requires GetAmountIn(p, o, t).Ok?
    ensures d > 0
  {
    MulIs(GetReservesOrdered(p, t).value.1 - o, BPS - p.feeBps);
    (GetReservesOrdered(p, t).value.1 - o) * (BPS - p.feeBps)
  }

  /** An input pays at least `o` exactly when it covers the inverse fraction. */
  lemma PaysIff(p: Pair, o: nat, t: Token, x: nat)
    requires GetAmountIn(p, o, t).Ok? && GetAmountOut(p, x, t).Ok?
    requires GetReservesOrdered(p, t).value.0 > 0
    ensures GetAmountOut(p, x, t).value >= o <==>
            x * InverseDenominator(p, o, t) >= InverseNumerator(p, o, t)
  {
    var (ri, ro) := GetReservesOrdered(p, t).value;
    hide GetAmountOut, GetAmountIn, Quote;
    var g := BPS - p.feeBps;
    AmountOutIsQuote(p, x, t);
    QuoteIsLargest(ri, ro, g, x, o);
    InverseAlgebra(ri, ro, g, x, o);
  }

  lemma InverseAlgebra(ri: nat, ro: nat, g: nat, x: nat, o: nat)
    requires o <= ro
    ensures Admissible(ri, ro, g, x, o) <==> x * ((ro - o) * g) >= ri * o * BPS
  {
    var l := ro - o;
    var b := BPS * ri;
    assert (b + g * x) * l == b * l + (g * x) * l;
    assert b * l == b * ro - b * o;
    assert b * o == ri * o * BPS;
    assert (g * x) * l == x * (l * g);
  }

  /** `GetAmountIn` is enough input, exactly when the pool holds any of that token:
      on an empty input reserve it answers 1, which buys nothing. */
  lemma AmountInCovers(p: Pair, o: nat, t: Token)
    requires GetAmountIn(p, o, t).Ok? && GetAmountOut(p, GetAmountIn(p, o, t).value, t).Ok?
    ensures GetAmountOut(p, GetAmountIn(p, o, t).value, t).value >= o <==>
            GetReservesOrdered(p, t).value.0 > 0
  {
    var (ri, ro) := GetReservesOrdered(p, t).value;
    hide GetAmountOut, GetAmountIn, InverseNumerator, InverseDenominator;
    if ri > 0 {
      var x := GetAmountIn(p, o, t).value;
      var n, d := InverseNumerator(p, o, t), InverseDenominator(p, o, t);
      AmountInIsExact(p, o, t);
      PaysIff(p, o, t, x);
      FloorLe(n, d, x);
    } else {
      EmptyReserveQuotesZero(p, GetAmountIn(p, o, t).value, t);
    }
  }

  /** The saturating addition of one never saturates when the result can be quoted. */
  lemma AmountInIsExact(p: Pair, o: nat, t: Token)
    requires GetAmountIn(p, o, t).Ok? && GetReservesOrdered(p, t).value.0 > 0
    requires GetAmountOut(p, GetAmountIn(p, o, t).value, t).Ok?
    ensures GetAmountIn(p, o, t).value == Div(InverseNumerator(p, o, t), InverseDenominator(p, o, t)) + 1
  {
    hide *;
    var x := GetAmountIn(p, o, t).value;
    AmountInIsQuotient(p, o, t);
    if Div(InverseNumerator(p, o, t), InverseDenominator(p, o, t)) + 1 >= TWO_256 {
      AmountOutFits(p, x, t);
      LargestInputOverflows(x, BPS - p.feeBps, GetReservesOrdered(p, t).value.1);
      assert false;
    }
  }

  lemma AmountInIsQuotient(p: Pair, o: nat, t: Token)
    requires GetAmountIn(p, o, t).Ok?
    ensures var q := Div(InverseNumerator(p, o, t), InverseDenominator(p, o, t)) + 1;
            GetAmountIn(p, o, t).value == if q < TWO_256 then q else TWO_256 - 1
    ensures GetAmountIn(p, o, t).value > 0
  {
    var (ri, ro) := GetReservesOrdered(p, t).value;
    MulIs(ri, o);
    MulIs(ri * o, BPS);
    MulIs(ro - o, BPS - p.feeBps);
    hide Mul, Div;
  }

  lemma LargestInputOverflows(x: nat, g: nat, ro: nat)
    requires g >= 1 && ro >= 2
    ensures x * g * ro >= 2 * x
  {
    MulMono(1, g, x);
    MulMono(2, ro, x * g);
  }

  lemma AmountOutFits(p: Pair, x: nat, t: Token)
    requires GetAmountOut(p, x, t).Ok? && x > 0 && p.feeBps <= BPS
    requires GetReservesOrdered(p, t).value.0 > 0 && GetReservesOrdered(p, t).value.1 > 0
    ensures x * (BPS - p.feeBps) * GetReservesOrdered(p, t).value.1 < TWO_256
  {
    MulIs(x, BPS - p.feeBps);
    MulIs(x * (BPS - p.feeBps), GetReservesOrdered(p, t).value.1);
    hide Mul, Div;
  }

  /** No input smaller than `GetAmountIn - 1` suffices; `GetAmountIn` itself is the
      least sufficient input exactly when the division it makes leaves a remainder. */
  lemma AmountInIsLeastIff(p: Pair, o: nat, t: Token)
    requires GetAmountIn(p, o, t).Ok? && GetAmountOut(p, GetAmountIn(p, o, t).value, t).Ok?
    requires GetReservesOrdered(p, t).value.0 > 0
    ensures forall y: nat :: Pays(p, t, y, o) ==> y >= GetAmountIn(p, o, t).value - 1
    ensures (forall y: nat :: Pays(p, t, y, o) ==> y >= GetAmountIn(p, o, t).value)
            <==> Remainder(InverseNumerator(p, o, t), InverseDenominator(p, o, t)) != 0
  {
    var n, d := InverseNumerator(p, o, t), InverseDenominator(p, o, t);
    var x := GetAmountIn(p, o, t).value;
    AmountInIsExact(p, o, t);
    hide *;
    forall y: nat | Pays(p, t, y, o)
      ensures y >= x - 1 && (Remainder(n, d) != 0 ==> y >= x)
    {
      LeastInput(p, o, t, y);
    }
    if Remainder(n, d) == 0 {
      SmallerInputQuotes(p, x - 1, x, t);
      LeastInput(p, o, t, x - 1);
    }
  }

  ghost predicate Pays(p: Pair, t: Token, y: nat, o: nat) {
    GetAmountOut(p, y, t).Ok? && GetAmountOut(p, y, t).value >= o
  }

  lemma LeastInput(p: Pair, o: nat, t: Token, y: nat)
    requires GetAmountIn(p, o, t).Ok? && GetReservesOrdered(p, t).value.0 > 0
    requires GetAmountOut(p, y, t).Ok?
    ensures var n, d := InverseNumerator(p, o, t), InverseDenominator(p, o, t);
            Pays(p, t, y, o) <==> y >= Div(n, d) + (if Remainder(n, d) == 0 then 0 else 1)
  {
    hide GetAmountOut, GetAmountIn, InverseNumerator, InverseDenominator;
    PaysIff(p, o, t, y);
    CeilLe(InverseNumerator(p, o, t), InverseDenominator(p, o, t), y);
  }

  lemma SmallerInputQuotes(p: Pair, y: nat, x: nat, t: Token)
    requires y <= x && GetAmountOut(p, x, t).Ok?
    ensures GetAmountOut(p, y, t).Ok?
  {
    var (ri, ro) := GetReservesOrdered(p, t).value;
    if y != 0 && ri != 0 && ro != 0 {
      var g := BPS - p.feeBps;
      hide Mul, Div;
      SmallerProducts(y, x, g, ro);
    }
  }

  lemma SmallerProducts(y: nat, x: nat, g: nat, ro: nat)
    requires y <= x
    ensures Mul(y, g) <= Mul(x, g) && Mul(Mul(y, g), ro) <= Mul(Mul(x, g), ro)
  {
    hide Mul;
    MulIs(x, g);
    MulIs(y, g);
    MulIs(x * g, ro);
    MulIs(y * g, ro);
    MulMono(y, x, g);
    MulMono(y * g, x * g, ro);
  }
}
