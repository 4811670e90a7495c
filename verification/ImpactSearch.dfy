/** The bounded binary search of pricing/src/bin/impact_analyzer.rs over the price impact of
    pricing/src/amm.rs.  Prices are reals. */
module ImpactSearch {
  import opened Common
  import opened ConstantProduct

  const ITERATIONS: nat := 128

  /** A V3 pool enters with its spot price, which is all the impact reads. */
  datatype PricedPool = V2(pair: Pair) | V3(spot: Option<real>)

  // ----- price impact

  function Pow10(n: nat): (r: real)
    ensures r > 0.0
  {
    if n == 0 then 1.0 else 10.0 * Pow10(n - 1)
  }

  const TWO_96: nat := 0x1_0000_0000_0000_0000_0000_0000

  /** A decimal holds 96 bits; a wider amount does not parse and falls back to zero. */
  function ToDecimal(amount: nat, decimals: nat): real {
    if amount < TWO_96 then amount as real / Pow10(decimals) else 0.0
  }

  function OtherToken(p: Pair, t: Token): Token { if t.address == p.token0.address then p.token1 else p.token0 }

  function SpotPrice(p: PricedPool, t: Token): Result<real> {
    match p
    case V3(spot) => if spot.Some? then Ok(spot.value) else Err(NoPrice)
    case V2(pair) => PairSpotPrice(pair, t)
  }

  function PairSpotPrice(p: Pair, t: Token): Result<real> {
    var (ri, ro) :- GetReservesOrdered(p, t);
    var rIn, rOut := ToDecimal(ri, t.decimals), ToDecimal(ro, OtherToken(p, t).decimals);
    Ok(if rIn == 0.0 then 0.0 else rOut / rIn)
  }

  /** A V3 pool executes at its spot price, whatever the amount. */
  function ExecutionPrice(p: PricedPool, amountIn: nat, t: Token): Result<real> {
    match p
    case V3(_) => SpotPrice(p, t)
    case V2(pair) => PairExecutionPrice(pair, amountIn, t)
  }

  function PairExecutionPrice(p: Pair, amountIn: nat, t: Token): Result<real> {
    var out :- GetAmountOut(p, amountIn, t);
    var aIn, aOut := ToDecimal(amountIn, t.decimals), ToDecimal(out, OtherToken(p, t).decimals);
    Ok(if aIn == 0.0 then 0.0 else aOut / aIn)
  }

  function PriceImpact(p: PricedPool, amountIn: nat, t: Token): Result<real> {
    var spot :- SpotPrice(p, t);
    var exec :- ExecutionPrice(p, amountIn, t);
    Ok(if spot == 0.0 then 0.0 else (spot - exec) / spot)
  }

  predicate Meets(p: PricedPool, t: Token, target: real, amount: nat) {
    PriceImpact(p, amount, t).Ok? && PriceImpact(p, amount, t).value <= target
  }

  function Bound(p: PricedPool, t: Token): nat {
    if p.V2? && GetReservesOrdered(p.pair, t).Ok? then GetReservesOrdered(p.pair, t).value.0
    else 1_000_000_000_000_000_000_000_000_000_000
  }

  // ----- the search as a function of the sizes that meet the target

  function Middle(low: nat, high: nat): nat { (low + high) / 2 }

  /** The range left after n halvings. */
  ghost function Narrow(meeting: iset<nat>, low: nat, high: nat, n: nat): (nat, nat)
    requires low >= 1
    decreases n
  {
    if n == 0 || low > high then (low, high)
    else
      var mid := Middle(low, high);
      if mid in meeting then Narrow(meeting, mid + 1, high, n - 1) else Narrow(meeting, low, mid - 1, n - 1)
  }

  ghost function Meeting(p: PricedPool, t: Token, target: real): iset<nat> {
    iset a: nat | Meets(p, t, target, a)
  }

  /** The last size that met the target: everything below the range left. */
  ghost function Found(meeting: iset<nat>, bound: nat): (best: nat)
    ensures best == 0 || best in meeting
  {
    NarrowKeeps(meeting, 1, bound, ITERATIONS);
    Narrow(meeting, 1, bound, ITERATIONS).0 - 1
  }

  /** A fee above 100% makes every quote of a live pool panic. */
  predicate AbortsOnFee(p: PricedPool, t: Token) {
    && p.V2? && p.pair.feeBps > BPS && GetReservesOrdered(p.pair, t).Ok?
    && GetReservesOrdered(p.pair, t).value.0 > 0 && GetReservesOrdered(p.pair, t).value.1 > 0
  }

  /** A search that meets no such pool comes back, and errors on its way count as too large. */
  method FindMaxSizeForImpact(p: PricedPool, tokenIn: Token, maxImpactPct: real) returns (r: Result<nat>)
    ensures r == if AbortsOnFee(p, tokenIn) then Err(FeeTooLarge)
                 else Ok(Found(Meeting(p, tokenIn, maxImpactPct / 100.0), Bound(p, tokenIn)))
  {
    AbortNeedsSize(p, tokenIn);
    hide *;
    var low, high := 1, Bound(p, tokenIn);
    var best := 0;
    var target := maxImpactPct / 100.0;
    ghost var meeting := Meeting(p, tokenIn, target);
    var i := 0;
    while i < 128
      invariant 0 <= i <= 128 && low >= 1 && best == low - 1
      invariant i > 0 ==> !AbortsOnFee(p, tokenIn)
      invariant i == 0 ==> low == 1 && high == Bound(p, tokenIn)
      invariant Narrow(meeting, 1, Bound(p, tokenIn), 128) == Narrow(meeting, low, high, 128 - i)
    {
      NarrowStep(meeting, low, high, 128 - i);
      if low > high { break; }
      var mid := (low + high) / 2;
      MeetingIs(p, tokenIn, target, mid);
      ImpactAbortsIff(p, tokenIn, mid);
      var impact := PriceImpact(p, mid, tokenIn);
      if impact.Err? && !impact.error.Returned() { return Err(impact.error); }
      if impact.Ok? && impact.value <= target {
        best := mid;
        low := mid + 1;
      } else {
        high := mid - 1;
      }
      i := i + 1;
    }
    NarrowStep(meeting, low, high, 128 - i);
    FoundIs(meeting, Bound(p, tokenIn));
    return Ok(best);
  }

  lemma AbortNeedsSize(p: PricedPool, t: Token)
    ensures AbortsOnFee(p, t) ==> Bound(p, t) >= 1
  {
  }

  lemma ImpactAbortsIff(p: PricedPool, t: Token, a: nat)
    requires a > 0
    ensures var impact := PriceImpact(p, a, t);
            && (impact.Err? && !impact.error.Returned() <==> AbortsOnFee(p, t))
            && (AbortsOnFee(p, t) ==> impact == Err(FeeTooLarge))
  {
    hide Mul, Div, Pow10;
  }

  lemma NarrowStep(meeting: iset<nat>, low: nat, high: nat, n: nat)
    requires low >= 1
    ensures n == 0 || low > high ==> Narrow(meeting, low, high, n) == (low, high)
    ensures n > 0 && low <= high ==>
              var mid := (low + high) / 2;
              mid >= 1 && Narrow(meeting, low, high, n) ==
                if mid in meeting then Narrow(meeting, mid + 1, high, n - 1) else Narrow(meeting, low, mid - 1, n - 1)
  {
  }

  lemma MeetingIs(p: PricedPool, t: Token, target: real, a: nat)
    ensures a in Meeting(p, t, target) <==> PriceImpact(p, a, t).Ok? && PriceImpact(p, a, t).value <= target
  {
    hide PriceImpact;
  }

  lemma FoundIs(meeting: iset<nat>, bound: nat)
    ensures Narrow(meeting, 1, bound, 128).0 >= 1 && Found(meeting, bound) == Narrow(meeting, 1, bound, 128).0 - 1
  {
    NarrowKeeps(meeting, 1, bound, 128);
  }

  /** What every halving keeps: below the range the last size meets the target, above it the
      first size fails or is past the bound. */
  lemma {:induction false} NarrowKeeps(meeting: iset<nat>, low: nat, high: nat, n: nat)
    requires low >= 1
    ensures var (lo, hi) := Narrow(meeting, low, high, n);
            && lo >= low && hi <= high
            && (lo == low || lo - 1 in meeting)
            && (hi == high || hi + 1 !in meeting)
            && (low <= high + 1 ==> lo <= hi + 1)
    decreases n
  {
    if n == 0 || low > high {
    } else {
      var mid := Middle(low, high);
      if mid in meeting {
        NarrowKeeps(meeting, mid + 1, high, n - 1);
      } else {
        NarrowKeeps(meeting, low, mid - 1, n - 1);
      }
    }
  }

  // ----- convergence

  function Pow2(n: nat): (r: nat)
    ensures r >= 1
  {
    if n == 0 then 1 else 2 * Pow2(n - 1)
  }

  lemma {:induction false} NarrowConverges(meeting: iset<nat>, low: nat, high: nat, n: nat)
    requires low >= 1 && high + 1 - low < Pow2(n)
    ensures var (lo, hi) := Narrow(meeting, low, high, n); lo > hi
    decreases n
  {
    if n == 0 || low > high {
    } else {
      var mid := Middle(low, high);
      if mid in meeting {
        NarrowConverges(meeting, mid + 1, high, n - 1);
      } else {
        NarrowConverges(meeting, low, mid - 1, n - 1);
      }
    }
  }

  predicate AnySize(a: nat) { true }

  ghost function EverySize(): iset<nat> { iset a: nat | AnySize(a) }

  lemma {:induction false} NarrowIsTooShort(meeting: iset<nat>, low: nat, high: nat, n: nat)
    requires low >= 1 && high + 1 - low >= Pow2(n)
    requires forall a: nat :: a <= high ==> a in meeting
    ensures var (lo, hi) := Narrow(meeting, low, high, n); lo <= hi
    decreases n
  {
    if n == 0 {
    } else {
      var mid := Middle(low, high);
      NarrowIsTooShort(meeting, mid + 1, high, n - 1);
    }
  }

  ghost predicate Converges(meeting: iset<nat>, bound: nat) {
    var (lo, hi) := Narrow(meeting, 1, bound, ITERATIONS); lo > hi
  }

  /** The 128 iterations suffice whatever sizes meet the target exactly when the bound is below
      2^128. */
  lemma ConvergesIff(bound: nat)
    ensures (forall meeting: iset<nat> :: Converges(meeting, bound)) <==> bound < Pow2(ITERATIONS)
  {
    if bound < Pow2(ITERATIONS) {
      forall meeting: iset<nat>
        ensures Converges(meeting, bound)
      {
        NarrowConverges(meeting, 1, bound, ITERATIONS);
      }
    } else {
      NarrowIsTooShort(EverySize(), 1, bound, ITERATIONS);
      assert !Converges(EverySize(), bound);
    }
  }

  // ----- what is found

  /** Below 2^128 the answer is 0 or meets the target, and its successor fails or is past the
      bound. */
  lemma FoundIsLocallyMaximal(meeting: iset<nat>, bound: nat)
    requires bound < Pow2(ITERATIONS)
    ensures var best := Found(meeting, bound);
            && best <= bound
            && (best == 0 || best in meeting)
            && (best == bound || best + 1 !in meeting)
  {
    hide Narrow, Pow2;
    NarrowKeeps(meeting, 1, bound, ITERATIONS);
    NarrowConverges(meeting, 1, bound, ITERATIONS);
  }

  /** Whenever a size within the bound meets the target, so does every smaller positive one. */
  ghost predicate DownClosed(meeting: iset<nat>, bound: nat) {
    forall x: nat, y: nat :: 1 <= x <= y <= bound && y in meeting ==> x in meeting
  }

  lemma FoundIsMaximum(meeting: iset<nat>, bound: nat)
    requires bound < Pow2(ITERATIONS) && DownClosed(meeting, bound)
    ensures forall x: nat :: 1 <= x <= bound ==> (x in meeting <==> x <= Found(meeting, bound))
  {
    FoundIsLocallyMaximal(meeting, bound);
  }

  // ----- the unfloored impact

  /** 1 - g·ri / (10000·ri + g·a): the impact without the floor in the output. */
  ghost function UnflooredImpact(ri: nat, g: nat, a: nat): real
    requires ri > 0
  {
    1.0 - (g * ri) as real / (BPS * ri + g * a) as real
  }

  ghost function UnflooredMeeting(ri: nat, g: nat, target: real): iset<nat>
    requires ri > 0
  {
    iset a: nat | UnflooredImpact(ri, g, a) <= target
  }

  lemma UnflooredIsMonotone(ri: nat, g: nat, a: nat, b: nat)
    requires ri > 0 && a <= b
    ensures UnflooredImpact(ri, g, a) <= UnflooredImpact(ri, g, b)
  {
    MulMono(a, b, g);
    Reciprocal((g * ri) as real, (BPS * ri + g * a) as real, (BPS * ri + g * b) as real);
  }

  lemma Reciprocal(n: real, x: real, y: real)
    requires n >= 0.0 && 0.0 < x <= y
    ensures n / x >= n / y
  {
    var (u, v) := (n / x, n / y);
    assert u * x == n && v * y == n;
    SameSign(v, y, n);
    TimesMono(x, y, v);
    assert (u - v) * x == v * y - v * x;
    SameSign(u - v, x, (u - v) * x);
  }

  /** On the unfloored impact the search returns the global maximum. */
  lemma UnflooredSearchIsGlobal(ri: nat, g: nat, target: real)
    requires 0 < ri < Pow2(ITERATIONS)
    ensures var best := Found(UnflooredMeeting(ri, g, target), ri);
            forall x: nat :: 1 <= x <= ri ==> (UnflooredImpact(ri, g, x) <= target <==> x <= best)
  {
    var meeting := UnflooredMeeting(ri, g, target);
    forall x: nat
      ensures x in meeting <==> UnflooredImpact(ri, g, x) <= target
    {
    }
    hide *;
    forall x: nat, y: nat | 1 <= x <= y <= ri && y in meeting
      ensures x in meeting
    {
      UnflooredIsMonotone(ri, g, x, y);
    }
    ClosedIs(meeting, ri);
    FoundIsMaximum(meeting, ri);
  }

  lemma ClosedIs(meeting: iset<nat>, bound: nat)
    requires forall x: nat, y: nat :: 1 <= x <= y <= bound && y in meeting ==> x in meeting
    ensures DownClosed(meeting, bound)
  {
  }

  // ----- the floored impact that the code searches

  /** The output is worth at least the target share of the input at the spot price. */
  ghost predicate Covers(ri: nat, ro: nat, a: nat, out: nat, target: real) {
    out as real * ri as real >= (1.0 - target) * (a as real * ro as real)
  }

  /** Both reserves are live and fit a decimal. */
  predicate Narrow96(ri: nat, ro: nat) { 0 < ri < TWO_96 && 0 < ro < TWO_96 }

  /** Decimals cancel: an amount meets the target exactly when its output covers the target
      share of the spot value. */
  lemma MeetsIff(p: Pair, t: Token, target: real, a: nat)
    requires GetReservesOrdered(p, t).Ok? && 0 < a < TWO_96
    requires Narrow96(GetReservesOrdered(p, t).value.0, GetReservesOrdered(p, t).value.1)
    ensures var (ri, ro) := GetReservesOrdered(p, t).value;
            Meets(V2(p), t, target, a) <==>
            GetAmountOut(p, a, t).Ok? && Covers(ri, ro, a, GetAmountOut(p, a, t).value, target)
  {
    var (ri, ro) := GetReservesOrdered(p, t).value;
    var (pin, pout) := (Pow10(t.decimals), Pow10(OtherToken(p, t).decimals));
    assert ri > 0 && ro > 0;
    hide *;
    MeetsIs(p, t, target, a);
    NoImpactWithoutQuote(p, t, a);
    if GetAmountOut(p, a, t).Ok? {
      var out := GetAmountOut(p, a, t).value;
      OutputIsNarrow(p, t, a);
      ImpactIs(p, t, a, ri, ro, out, pin, pout);
      ImpactCovers(ri, ro, a, out, pin, pout, target);
    }
  }

  lemma ImpactCovers(ri: nat, ro: nat, a: nat, out: nat, pin: real, pout: real, target: real)
    requires ri > 0 && ro > 0 && a > 0 && pin > 0.0 && pout > 0.0 && Ratio(ri as real, ro as real, pin, pout) > 0.0
    ensures var (spot, exec) := (Ratio(ri as real, ro as real, pin, pout), Ratio(a as real, out as real, pin, pout));
            (spot - exec) / spot <= target <==> Covers(ri, ro, a, out, target)
  {
    hide Ratio;
    ImpactAlgebra(ri as real, ro as real, a as real, out as real, pin, pout, target);
  }

  lemma OutputIsNarrow(p: Pair, t: Token, a: nat)
    requires GetAmountOut(p, a, t).Ok?
    ensures GetReservesOrdered(p, t).Ok?
    ensures GetReservesOrdered(p, t).value.1 < TWO_96 ==> GetAmountOut(p, a, t).value < TWO_96
  {
    AmountOutIsLargestAdmissible(p, a, t, 0);
  }

  lemma NoImpactWithoutQuote(p: Pair, t: Token, a: nat)
    ensures GetAmountOut(p, a, t).Err? ==> PriceImpact(V2(p), a, t).Err?
  {
    hide GetAmountOut, Pow10;
  }

  lemma MeetsIs(p: Pair, t: Token, target: real, a: nat)
    ensures Meets(V2(p), t, target, a) <==> PriceImpact(V2(p), a, t).Ok? && PriceImpact(V2(p), a, t).value <= target
  {
    hide PriceImpact;
  }

  function Ratio(x: real, y: real, px: real, py: real): real
    requires px > 0.0 && py > 0.0 && x > 0.0
  {
    DecimalPositive(x, px);
    (y / py) / (x / px)
  }

  /** Each decimal is a factor of ten. */
  lemma {:induction false} Pow10Adds(m: nat, n: nat)
    ensures Pow10(m + n) == Pow10(m) * Pow10(n) && Pow10(1) == 10.0
    decreases m
  {
    if m == 0 {
    } else {
      Pow10Adds(m - 1, n);
    }
  }

  /** `price` is y / x, each scaled down by its power of ten. */
  ghost predicate ScaledRatio(price: real, x: real, px: real, y: real, py: real) { price * (x * py) == y * px }

  function DecimalsOut(p: Pair, t: Token): nat {
    if t.address == p.token0.address then p.token1.decimals else p.token0.decimals
  }

  /** The spot price is the ratio of the reserves, each scaled by the decimals of its own token, and
      the execution price that of output to input. */
  lemma PricesAreScaled(p: Pair, t: Token, a: nat)
    requires GetReservesOrdered(p, t).Ok? && GetAmountOut(p, a, t).Ok? && 0 < a < TWO_96
    requires Narrow96(GetReservesOrdered(p, t).value.0, GetReservesOrdered(p, t).value.1)
    ensures var (ri, ro) := GetReservesOrdered(p, t).value;
            var (spot, exec) := (SpotPrice(V2(p), t), ExecutionPrice(V2(p), a, t));
            var (px, py) := (Pow10(t.decimals), Pow10(DecimalsOut(p, t)));
            && spot.Ok? && ScaledRatio(spot.value, ri as real, px, ro as real, py)
            && exec.Ok? && ScaledRatio(exec.value, a as real, px, GetAmountOut(p, a, t).value as real, py)
  {
    var (ri, ro) := GetReservesOrdered(p, t).value;
    var out := GetAmountOut(p, a, t).value;
    OutputIsNarrow(p, t, a);
    SpotIsRatio(p, t);
    ExecutionIsRatio(p, t, a);
    assert ri > 0;
    hide *;
    RatioIsScaled(ri as real, Pow10(t.decimals), ro as real, Pow10(DecimalsOut(p, t)));
    RatioIsScaled(a as real, Pow10(t.decimals), out as real, Pow10(DecimalsOut(p, t)));
  }

  lemma RatioIsScaled(x: real, px: real, y: real, py: real)
    requires x > 0.0 && px > 0.0 && py > 0.0
    ensures ScaledRatio(Ratio(x, y, px, py), x, px, y, py)
  {
    DecimalQuotient(x, y, px, py);
    hide Ratio;
  }

  lemma SpotIsRatio(p: Pair, t: Token)
    requires GetReservesOrdered(p, t).Ok?
    requires Narrow96(GetReservesOrdered(p, t).value.0, GetReservesOrdered(p, t).value.1)
    ensures GetReservesOrdered(p, t).value.0 > 0
    ensures var (ri, ro) := GetReservesOrdered(p, t).value;
            var spot := SpotPrice(V2(p), t);
            spot.Ok? && spot.value == Ratio(ri as real, ro as real, Pow10(t.decimals), Pow10(DecimalsOut(p, t)))
  {
    DecimalPositive(GetReservesOrdered(p, t).value.0 as real, Pow10(t.decimals));
    hide Pow10;
  }

  lemma ExecutionIsRatio(p: Pair, t: Token, a: nat)
    requires GetAmountOut(p, a, t).Ok? && 0 < a < TWO_96 && GetAmountOut(p, a, t).value < TWO_96
    ensures var exec, out := ExecutionPrice(V2(p), a, t), GetAmountOut(p, a, t).value;
            exec.Ok? && exec.value == Ratio(a as real, out as real, Pow10(t.decimals), Pow10(DecimalsOut(p, t)))
  {
    DecimalPositive(a as real, Pow10(t.decimals));
    hide GetAmountOut, Pow10;
  }

  lemma DecimalPositive(x: real, p: real)
    requires x > 0.0 && p > 0.0
    ensures x / p > 0.0
  {
  }

  lemma DecimalQuotient(x: real, y: real, px: real, py: real)
    requires x > 0.0 && px > 0.0 && py > 0.0
    ensures Ratio(x, y, px, py) * (x * py) == y * px
  {
    var (u, v) := (x / px, y / py);
    assert u * px == x && v * py == y && u > 0.0;
    var q := v / u;
    assert q * u == v;
    assert q * (x * py) == (q * u) * (px * py);
  }

  lemma ImpactIs(p: Pair, t: Token, a: nat, ri: nat, ro: nat, out: nat, pin: real, pout: real)
    requires GetReservesOrdered(p, t) == Ok((ri, ro)) && GetAmountOut(p, a, t) == Ok(out)
    requires Narrow96(ri, ro) && 0 < a < TWO_96 && out < TWO_96
    requires pin == Pow10(t.decimals) && pout == Pow10(OtherToken(p, t).decimals)
    ensures Ratio(ri as real, ro as real, pin, pout) > 0.0
    ensures var (spot, exec) := (Ratio(ri as real, ro as real, pin, pout), Ratio(a as real, out as real, pin, pout));
            var impact := PriceImpact(V2(p), a, t);
            impact.Ok? && impact.value == (spot - exec) / spot
  {
    hide GetAmountOut, Pow10;
    DecimalPositive(ri as real, pin);
    DecimalPositive(a as real, pin);
    DecimalPositive(ro as real, pout);
    DecimalPositive(ro as real / pout, ri as real / pin);
  }

  lemma ImpactAlgebra(ri: real, ro: real, a: real, out: real, pin: real, pout: real, target: real)
    requires ri > 0.0 && ro > 0.0 && a > 0.0 && pin > 0.0 && pout > 0.0
    requires Ratio(ri, ro, pin, pout) > 0.0
    ensures var (spot, exec) := (Ratio(ri, ro, pin, pout), Ratio(a, out, pin, pout));
            (spot - exec) / spot <= target <==> out * ri >= (1.0 - target) * (a * ro)
  {
    var (spot, exec) := (Ratio(ri, ro, pin, pout), Ratio(a, out, pin, pout));
    DecimalQuotient(ri, ro, pin, pout);
    DecimalQuotient(a, out, pin, pout);
    hide *;
    ShareOfSpot(spot, exec, target);
    CommonFactor(ri, ro, a, out, pin, pout, spot, exec, 1.0 - target);
  }

  lemma ShareOfSpot(spot: real, exec: real, target: real)
    requires spot > 0.0
    ensures (spot - exec) / spot <= target <==> exec - (1.0 - target) * spot >= 0.0
  {
    var impact := (spot - exec) / spot;
    assert impact * spot == spot - exec;
    SameSign(target - impact, spot, (target - impact) * spot);
  }

  /** spot and exec over the common positive factor ri·a·pout. */
  lemma CommonFactor(ri: real, ro: real, a: real, out: real, pin: real, pout: real, spot: real, exec: real, c: real)
    requires ri > 0.0 && a > 0.0 && pin > 0.0 && pout > 0.0
    requires spot * (ri * pout) == ro * pin && exec * (a * pout) == out * pin
    ensures exec - c * spot >= 0.0 <==> out * ri >= c * (a * ro)
  {
    var k := ri * (a * pout);
    TimesSign(a, pout);
    TimesSign(ri, a * pout);
    assert spot * k == (spot * (ri * pout)) * a;
    assert exec * k == (exec * (a * pout)) * ri;
    var gap := exec - c * spot;
    assert gap * k == exec * k - c * (spot * k);
    assert gap * k == (out * ri - c * (a * ro)) * pin;
    SameSign(gap, k, gap * k);
    SameSign(out * ri - c * (a * ro), pin, gap * k);
  }

  lemma SameSign(x: real, y: real, z: real)
    requires y > 0.0 && x * y == z
    ensures x >= 0.0 <==> z >= 0.0
  {
    if x >= 0.0 { TimesSign(x, y); } else { TimesSign(-x, y); }
  }

  /** The impact is not below the exact one, and above it by less than ri / (a·ro). */
  ghost predicate NearAbove(impact: real, exact: real, ri: nat, ro: nat, a: nat) {
    exact <= impact && (impact - exact) * (a as real * ro as real) < ri as real
  }

  /** The floor can only worsen the impact, and by less than ri / (a·ro). */
  lemma FlooredImpactIsNear(p: Pair, t: Token, a: nat)
    requires p.feeBps <= BPS && GetAmountOut(p, a, t).Ok? && 0 < a < TWO_96
    requires GetReservesOrdered(p, t).Ok?
    requires Narrow96(GetReservesOrdered(p, t).value.0, GetReservesOrdered(p, t).value.1)
    ensures var (ri, ro) := GetReservesOrdered(p, t).value;
            var impact := PriceImpact(V2(p), a, t);
            impact.Ok? && NearAbove(impact.value, UnflooredImpact(ri, BPS - p.feeBps, a), ri, ro, a)
  {
    var (ri, ro) := GetReservesOrdered(p, t).value;
    var out, g := GetAmountOut(p, a, t).value, BPS - p.feeBps;
    assert ri > 0 && ro > 0;
    hide *;
    ImpactValue(p, t, a);
    AmountOutIsQuote(p, a, t);
    QuoteIsLargest(ri, ro, g, a, out);
    QuoteIsLargest(ri, ro, g, a, out + 1);
    NearQuote(PriceImpact(V2(p), a, t).value, ri, ro, g, a, out);
  }

  lemma NearQuote(impact: real, ri: nat, ro: nat, g: nat, a: nat, out: nat)
    requires ri > 0 && ro > 0 && a > 0 && Admissible(ri, ro, g, a, out) && !Admissible(ri, ro, g, a, out + 1)
    requires OnOutput(impact, ri, ro, a, out)
    ensures NearAbove(impact, UnflooredImpact(ri, g, a), ri, ro, a)
  {
    QuoteOnFraction(ri, ro, g, a, out);
    UnflooredValue(ri, g, a);
    hide Admissible, UnflooredImpact;
    NearAlgebra(impact, UnflooredImpact(ri, g, a), a as real * ro as real,
                (BPS * ri + g * a) as real, g as real, ri as real, out as real);
  }

  lemma QuoteOnFraction(ri: nat, ro: nat, g: nat, a: nat, out: nat)
    requires ri > 0 && ro > 0 && a > 0 && Admissible(ri, ro, g, a, out) && !Admissible(ri, ro, g, a, out + 1)
    ensures var d := (BPS * ri + g * a) as real; var spot := a as real * ro as real;
            d > 0.0 && spot > 0.0 && out as real * d <= g as real * spot < (out as real + 1.0) * d
  {
    var d := BPS * ri + g * a;
    assert d * (ro - out) == d * ro - out * d && d * (ro - (out + 1)) == d * ro - (out + 1) * d;
    assert d * ro == BPS * ri * ro + g * (a * ro);
    TimesSign(a as real, ro as real);
    assert (a * ro) as real == a as real * ro as real;
    assert (g * (a * ro)) as real == g as real * (a * ro) as real;
    assert (out * d) as real == out as real * d as real;
    assert ((out + 1) * d) as real == (out as real + 1.0) * d as real;
  }

  lemma UnflooredValue(ri: nat, g: nat, a: nat)
    requires ri > 0
    ensures var d := (BPS * ri + g * a) as real;
            UnflooredImpact(ri, g, a) * d == d - g as real * ri as real
  {
    var d := (BPS * ri + g * a) as real;
    var share := (g * ri) as real / d;
    assert share * d == (g * ri) as real == g as real * ri as real;
    assert (1.0 - share) * d == d - share * d;
  }

  /** The impact is 1 - out·ri / (a·ro), multiplied out. */
  ghost predicate OnOutput(impact: real, ri: nat, ro: nat, a: nat, out: nat) {
    impact * (a as real * ro as real) == a as real * ro as real - out as real * ri as real
  }

  lemma ImpactValue(p: Pair, t: Token, a: nat)
    requires GetAmountOut(p, a, t).Ok? && 0 < a < TWO_96 && GetReservesOrdered(p, t).Ok?
    requires Narrow96(GetReservesOrdered(p, t).value.0, GetReservesOrdered(p, t).value.1)
    ensures var (ri, ro) := GetReservesOrdered(p, t).value; var impact := PriceImpact(V2(p), a, t);
            impact.Ok? && OnOutput(impact.value, ri, ro, a, GetAmountOut(p, a, t).value)
  {
    var (ri, ro) := GetReservesOrdered(p, t).value;
    var out := GetAmountOut(p, a, t).value;
    assert ri > 0 && ro > 0;
    hide *;
    OutputIsNarrow(p, t, a);
    NarrowReserves(ri, ro);
    ImpactIs(p, t, a, ri, ro, out, Pow10(t.decimals), Pow10(OtherToken(p, t).decimals));
    var impact := PriceImpact(V2(p), a, t).value;
    var exact := ExactTarget(ri, ro, a, out);
    MeetsIs(p, t, impact, a);
    MeetsIff(p, t, impact, a);
    MeetsIs(p, t, exact, a);
    MeetsIff(p, t, exact, a);
    LeastTarget(ri, ro, a, out, impact);
  }

  lemma NarrowReserves(ri: nat, ro: nat)
    ensures Narrow96(ri, ro) <==> 0 < ri < TWO_96 && 0 < ro < TWO_96
  {
  }

  /** The least target that the output covers. */
  ghost function ExactTarget(ri: nat, ro: nat, a: nat, out: nat): real
    requires ro > 0 && a > 0
  {
    TimesSign(a as real, ro as real);
    1.0 - out as real * ri as real / (a as real * ro as real)
  }

  lemma LeastTarget(ri: nat, ro: nat, a: nat, out: nat, impact: real)
    requires ro > 0 && a > 0
    requires Covers(ri, ro, a, out, impact)
    requires Covers(ri, ro, a, out, ExactTarget(ri, ro, a, out)) ==> impact <= ExactTarget(ri, ro, a, out)
    ensures OnOutput(impact, ri, ro, a, out)
  {
    TimesSign(a as real, ro as real);
    var spot, worth := a as real * ro as real, out as real * ri as real;
    TargetOrder(impact, worth, spot);
  }

  lemma TargetOrder(impact: real, worth: real, spot: real)
    requires spot > 0.0 && worth >= (1.0 - impact) * spot
    ensures worth >= (1.0 - (1.0 - worth / spot)) * spot
    ensures impact <= 1.0 - worth / spot ==> impact * spot == spot - worth
  {
    var share := worth / spot;
    assert share * spot == worth;
    if impact <= 1.0 - share { TimesMonoLeft(impact, 1.0 - share, spot); }
  }

  ghost function Answer(p: Pair, t: Token, target: real): nat { Found(Meeting(V2(p), t, target), Bound(V2(p), t)) }

  lemma AnswerIs(p: Pair, t: Token, target: real)
    ensures Answer(p, t, target) == Found(Meeting(V2(p), t, target), Bound(V2(p), t))
  {
    hide Found, Meeting, Bound;
  }

  lemma AnswerIsLocallyMaximal(p: Pair, t: Token, target: real)
    requires GetReservesOrdered(p, t).Ok? && GetReservesOrdered(p, t).value.0 < TWO_96
    ensures Answer(p, t, target) < GetReservesOrdered(p, t).value.0 ==>
        !Meets(V2(p), t, target, Answer(p, t, target) + 1)
  {
    hide *;
    var ri := GetReservesOrdered(p, t).value.0;
    AnswerIs(p, t, target);
    BoundIs(p, t, ri);
    NextFails(p, t, target, ri);
  }

  lemma NextFails(p: Pair, t: Token, target: real, bound: nat)
    requires bound < TWO_96
    ensures var best := Found(Meeting(V2(p), t, target), bound);
            best < bound ==> !Meets(V2(p), t, target, best + 1)
  {
    hide *;
    NarrowFits(bound);
    FoundIsLocallyMaximal(Meeting(V2(p), t, target), bound);
    MembersMeet(p, t, target, Found(Meeting(V2(p), t, target), bound) + 1);
  }

  /** So whenever the search stops below a size that meets the target, rounding alone did it: the
      exact impact of the size after the answer is within the target, and the target is less
      than one unit of output above it. */
  lemma MissIsLessThanOneUnit(p: Pair, t: Token, target: real, x: nat)
    requires GetReservesOrdered(p, t).Ok? && p.feeBps <= BPS
    requires Narrow96(GetReservesOrdered(p, t).value.0, GetReservesOrdered(p, t).value.1)
    ensures var (ri, ro) := GetReservesOrdered(p, t).value; var next := Answer(p, t, target) + 1;
            ri > 0 && (next <= x <= ri && Meets(V2(p), t, target, x) ==>
              NearAbove(target, UnflooredImpact(ri, BPS - p.feeBps, next), ri, ro, next))
  {
    hide *;
    NarrowReserves(GetReservesOrdered(p, t).value.0, GetReservesOrdered(p, t).value.1);
    AnswerIsLocallyMaximal(p, t, target);
    var next := Answer(p, t, target) + 1;
    if next <= x <= GetReservesOrdered(p, t).value.0 {
      RoundedAway(p, t, target, next, x);
    }
  }

  lemma RoundedAway(p: Pair, t: Token, target: real, a: nat, x: nat)
    requires GetReservesOrdered(p, t).Ok? && p.feeBps <= BPS && 0 < a <= x < TWO_96
    requires Narrow96(GetReservesOrdered(p, t).value.0, GetReservesOrdered(p, t).value.1)
    ensures var (ri, ro) := GetReservesOrdered(p, t).value;
            ri > 0 && (Meets(V2(p), t, target, x) && !Meets(V2(p), t, target, a) ==>
              NearAbove(target, UnflooredImpact(ri, BPS - p.feeBps, a), ri, ro, a))
  {
    var (ri, ro) := GetReservesOrdered(p, t).value;
    NarrowReserves(ri, ro);
    hide *;
    QuotedWhenMet(p, t, target, x);
    if Meets(V2(p), t, target, x) && !Meets(V2(p), t, target, a) {
      SmallerInputQuotes(p, a, x, t);
      MeetsIs(p, t, target, a);
      MeetsIs(p, t, target, x);
      FlooredImpactIsNear(p, t, a);
      FlooredImpactIsNear(p, t, x);
      UnflooredIsMonotone(ri, BPS - p.feeBps, a, x);
      NearBetween(PriceImpact(V2(p), a, t).value, PriceImpact(V2(p), x, t).value, target,
                  UnflooredImpact(ri, BPS - p.feeBps, a), UnflooredImpact(ri, BPS - p.feeBps, x), ri, ro, a, x);
    }
  }

  lemma NearBetween(impact: real, later: real, target: real, exact: real, exactLater: real,
                    ri: nat, ro: nat, a: nat, b: nat)
    requires NearAbove(impact, exact, ri, ro, a) && NearAbove(later, exactLater, ri, ro, b)
    requires exact <= exactLater && later <= target < impact && a > 0
    ensures NearAbove(target, exact, ri, ro, a)
  {
    TimesSign(a as real, ro as real + 1.0);
    assert a as real * ro as real >= 0.0;
    TimesMonoLeft(target - exact, impact - exact, a as real * ro as real);
  }

  lemma NearAlgebra(i: real, u: real, spot: real, d: real, g: real, ri: real, out: real)
    requires spot > 0.0 && d > 0.0 && ri > 0.0
    requires i * spot == spot - out * ri && u * d == d - g * ri
    requires out * d <= g * spot < (out + 1.0) * d
    ensures u <= i && (i - u) * spot < ri
  {
    var gap := (i - u) * spot;
    var rest := g * spot - out * d;
    assert gap * d == (i * spot) * d - (u * d) * spot;
    assert (i * spot) * d == spot * d - (out * d) * ri;
    assert (u * d) * spot == spot * d - (g * spot) * ri;
    assert gap * d == rest * ri;
    TimesMonoLeft(0.0, rest, ri);
    SameSign(gap, d, rest * ri);
    SameSign(i - u, spot, gap);
    TimesSign(d - rest, ri);
    assert (ri - gap) * d == (d - rest) * ri;
    if gap >= ri { TimesMonoLeft(ri - gap, 0.0, d); }
  }

  /** (1 - target)·ro / ri is the integer s. */
  ghost predicate IntegralCutoff(ri: nat, ro: nat, target: real, s: int) {
    (s * ri) as real == (1.0 - target) * ro as real
  }

  /** When the cutoff (1 - target)·ro / ri is an integer the floor does no harm, and the
      search on the code's own impact returns the global maximum. */
  lemma IntegralCutoffIsGlobal(p: Pair, t: Token, target: real, s: int)
    requires GetReservesOrdered(p, t).Ok? && p.feeBps <= BPS
    requires var (ri, ro) := GetReservesOrdered(p, t).value;
             Narrow96(ri, ro) && IntegralCutoff(ri, ro, target, s)
    ensures var best := Found(Meeting(V2(p), t, target), Bound(V2(p), t));
            forall x: nat :: 1 <= x <= Bound(V2(p), t) ==> (Meets(V2(p), t, target, x) <==> x <= best)
  {
    var meeting := Meeting(V2(p), t, target);
    var ri := GetReservesOrdered(p, t).value.0;
    BoundIs(p, t, ri);
    assert forall x: nat :: x in meeting <==> Meets(V2(p), t, target, x);
    assert ri < TWO_96;
    hide *;
    NarrowFits(ri);
    forall x: nat, y: nat | 1 <= x <= y <= ri && y in meeting
      ensures x in meeting
    {
      CutoffIsClosed(p, t, target, s, x, y);
    }
    ClosedIs(meeting, ri);
    FoundIsMaximum(meeting, ri);
  }

  lemma {:induction false} Pow2Splits(m: nat, n: nat)
    ensures Pow2(m + n) == Pow2(m) * Pow2(n)
    decreases m
  {
    if m == 0 {
    } else {
      Pow2Splits(m - 1, n);
    }
  }

  lemma Pow2Of16()
    ensures Pow2(16) == 0x1_0000
  {
    assert Pow2(4) == 16;
    Pow2Splits(4, 4);
    Pow2Splits(8, 8);
  }

  lemma Pow2Is()
    ensures Pow2(128) == TWO_96 * 0x1_0000_0000 && Pow2(112) == 0x1_0000_0000_0000_0000_0000_0000_0000
  {
    Pow2Of16();
    hide Pow2;
    Pow2Splits(16, 16);
    Pow2Splits(32, 32);
    Pow2Splits(32, 64);
    Pow2Splits(16, 96);
    Pow2Splits(32, 96);
  }

  lemma NarrowFits(x: nat)
    ensures x < TWO_96 ==> x < Pow2(ITERATIONS)
    ensures x < 0x1_0000_0000_0000_0000_0000_0000_0000 ==> x < Pow2(ITERATIONS)
  {
    Pow2Is();
  }

  lemma CutoffIsClosed(p: Pair, t: Token, target: real, s: int, x: nat, y: nat)
    requires GetReservesOrdered(p, t).Ok? && p.feeBps <= BPS && 1 <= x <= y < TWO_96
    requires var (ri, ro) := GetReservesOrdered(p, t).value; Narrow96(ri, ro) && IntegralCutoff(ri, ro, target, s)
    requires Meets(V2(p), t, target, y)
    ensures Meets(V2(p), t, target, x)
  {
    var (ri, ro) := GetReservesOrdered(p, t).value;
    var g := BPS - p.feeBps;
    hide *;
    QuotedWhenMet(p, t, target, y);
    SmallerInputQuotes(p, x, y, t);
    MeetsIffCuts(p, t, target, s, x);
    MeetsIffCuts(p, t, target, s, y);
    CutsDown(ri, ro, g, s, x, y);
  }

  lemma QuotedWhenMet(p: Pair, t: Token, target: real, a: nat)
    ensures Meets(V2(p), t, target, a) ==> GetAmountOut(p, a, t).Ok?
  {
    NoImpactWithoutQuote(p, t, a);
    hide GetAmountOut, PriceImpact;
  }

  ghost predicate Cuts(ri: nat, ro: nat, g: nat, s: int, a: nat) { s * (BPS * ri + g * a) <= g * ro }

  lemma CutsDown(ri: nat, ro: nat, g: nat, s: int, x: nat, y: nat)
    requires x <= y && Cuts(ri, ro, g, s, y)
    ensures Cuts(ri, ro, g, s, x)
  {
    if s > 0 {
      MulMono(x, y, g);
      MulMono(BPS * ri + g * x, BPS * ri + g * y, s);
    } else {
      MulMono(s, 0, BPS * ri + g * x);
    }
  }

  lemma MeetsIffCuts(p: Pair, t: Token, target: real, s: int, a: nat)
    requires GetReservesOrdered(p, t).Ok? && p.feeBps <= BPS && 0 < a < TWO_96 && GetAmountOut(p, a, t).Ok?
    requires var (ri, ro) := GetReservesOrdered(p, t).value; Narrow96(ri, ro) && IntegralCutoff(ri, ro, target, s)
    ensures var (ri, ro) := GetReservesOrdered(p, t).value;
            Meets(V2(p), t, target, a) <==> Cuts(ri, ro, BPS - p.feeBps, s, a)
  {
    var (ri, ro) := GetReservesOrdered(p, t).value;
    var g := BPS - p.feeBps;
    assert ri > 0;
    hide *;
    MeetsIff(p, t, target, a);
    AmountOutIsQuote(p, a, t);
    CutoffMeans(ri, ro, target, s, a, GetAmountOut(p, a, t).value);
    CutoffAdmissible(ri, ro, g, s, a);
    QuoteIsLargest(ri, ro, g, a, s * a);
  }

  lemma CutoffMeans(ri: nat, ro: nat, target: real, s: int, a: nat, out: nat)
    requires ri > 0 && IntegralCutoff(ri, ro, target, s)
    ensures Covers(ri, ro, a, out, target) <==> out >= s * a
  {
    assert (1.0 - target) * (a as real * ro as real) == (s * ri) as real * a as real;
    assert (s * ri) as real * a as real == (s * a * ri) as real;
    assert out as real * ri as real == (out * ri) as real;
    if out >= s * a { MulMono(s * a, out, ri); } else { MulMono(out + 1, s * a, ri); }
  }

  /** The integer cutoff is admissible exactly up to a size that does not depend on rounding. */
  lemma CutoffAdmissible(ri: nat, ro: nat, g: nat, s: int, a: nat)
    requires a > 0
    ensures Admissible(ri, ro, g, a, s * a) <==> Cuts(ri, ro, g, s, a)
  {
    var d := BPS * ri + g * a;
    assert d * (ro - s * a) == d * ro - (s * d) * a;
    assert d * ro == BPS * ri * ro + (g * ro) * a;
    if s * d <= g * ro { MulMono(s * d, g * ro, a); } else { MulMono(g * ro + 1, s * d, a); }
  }

  /** A reserve too wide for a decimal makes the spot price zero, and then every size that can be
      quoted shows no impact at all. */
  lemma WideReserveShowsNoImpact(p: Pair, t: Token, target: real, a: nat)
    requires GetReservesOrdered(p, t).Ok?
    requires GetReservesOrdered(p, t).value.0 >= TWO_96 || GetReservesOrdered(p, t).value.1 >= TWO_96
    ensures Meets(V2(p), t, target, a) <==> GetAmountOut(p, a, t).Ok? && 0.0 <= target
  {
    NoImpactWithoutQuote(p, t, a);
    hide GetAmountOut, Pow10;
  }

  /** So on such a pool, whatever the target, the search answers with the whole input reserve. */
  lemma WideReserveFindsAll(p: Pair, t: Token, target: real)
    requires GetReservesOrdered(p, t).Ok? && p.feeBps <= BPS && target >= 0.0
    requires p.reserve0 < 0x1_0000_0000_0000_0000_0000_0000_0000 && p.reserve1 < 0x1_0000_0000_0000_0000_0000_0000_0000
    requires p.reserve0 >= TWO_96 || p.reserve1 >= TWO_96
    ensures Found(Meeting(V2(p), t, target), Bound(V2(p), t)) == GetReservesOrdered(p, t).value.0
  {
    var meeting := Meeting(V2(p), t, target);
    var (ri, ro) := GetReservesOrdered(p, t).value;
    WideIsOrdered(p, t);
    BoundIs(p, t, ri);
    hide *;
    NarrowFits(ri);
    forall x: nat | x <= ri
      ensures x in meeting
    {
      NoOverflowOnUint112(p, x, t);
      TokenIsKnown(p, t);
      WideReserveShowsNoImpact(p, t, target, x);
      MembersMeet(p, t, target, x);
    }
    FoundIsLocallyMaximal(meeting, ri);
  }

  lemma WideIsOrdered(p: Pair, t: Token)
    requires GetReservesOrdered(p, t).Ok?
    ensures var (ri, ro) := GetReservesOrdered(p, t).value;
            (ri == p.reserve0 && ro == p.reserve1) || (ri == p.reserve1 && ro == p.reserve0)
  {
  }

  lemma TokenIsKnown(p: Pair, t: Token)
    ensures GetReservesOrdered(p, t).Ok? <==> t.address in {p.token0.address, p.token1.address}
  {
  }

  /** On a pool that can quote its whole input reserve the search converges for every target exactly
      when that reserve is below 2^128. */
  lemma PoolConvergesIff(p: Pair, t: Token)
    requires GetReservesOrdered(p, t).Ok? && GetAmountOut(p, GetReservesOrdered(p, t).value.0, t).Ok?
    ensures (forall target: real :: Converges(Meeting(V2(p), t, target), Bound(V2(p), t))) <==>
            GetReservesOrdered(p, t).value.0 < Pow2(ITERATIONS)
  {
    var ri := GetReservesOrdered(p, t).value.0;
    BoundIs(p, t, ri);
    hide *;
    if ri < Pow2(ITERATIONS) {
      forall target: real
        ensures Converges(Meeting(V2(p), t, target), ri)
      {
        ConvergesBelow(Meeting(V2(p), t, target), ri);
      }
    } else {
      WidePoolRunsOut(p, t, ri);
    }
  }

  lemma ConvergesBelow(meeting: iset<nat>, bound: nat)
    requires bound < Pow2(ITERATIONS)
    ensures Converges(meeting, bound)
  {
    hide Pow2;
    NarrowConverges(meeting, 1, bound, ITERATIONS);
  }

  lemma RunsOut(meeting: iset<nat>, bound: nat)
    requires bound >= Pow2(ITERATIONS) && forall a: nat :: a <= bound ==> a in meeting
    ensures !Converges(meeting, bound)
  {
    hide Pow2;
    NarrowIsTooShort(meeting, 1, bound, ITERATIONS);
  }

  lemma WidePoolRunsOut(p: Pair, t: Token, ri: nat)
    requires GetReservesOrdered(p, t).Ok? && GetReservesOrdered(p, t).value.0 == ri >= Pow2(ITERATIONS)
    requires GetAmountOut(p, ri, t).Ok?
    ensures !Converges(Meeting(V2(p), t, 0.0), ri)
  {
    hide *;
    Pow2Is();
    WideAbove(ri);
    forall a: nat | a <= ri
      ensures a in Meeting(V2(p), t, 0.0)
    {
      SmallerInputQuotes(p, a, ri, t);
      WideReserveShowsNoImpact(p, t, 0.0, a);
      MembersMeet(p, t, 0.0, a);
    }
    RunsOut(Meeting(V2(p), t, 0.0), ri);
  }

  lemma WideAbove(x: nat)
    ensures x >= Pow2(ITERATIONS) ==> x >= TWO_96
  {
    Pow2Is();
  }

  /** A V3 pool never shows an impact, so its answer is all or nothing. */
  lemma V3SearchIsAllOrNothing(spot: Option<real>, t: Token, target: real)
    ensures Found(Meeting(V3(spot), t, target), Bound(V3(spot), t)) ==
            if spot.Some? && target >= 0.0 then 1_000_000_000_000_000_000_000_000_000_000 else 0
  {
    var p, meeting := V3(spot), Meeting(V3(spot), t, target);
    var bound: nat := 1_000_000_000_000_000_000_000_000_000_000;
    assert Bound(p, t) == bound;
    forall a: nat
      ensures a in meeting <==> spot.Some? && target >= 0.0
    {
      V3ShowsNoImpact(spot, t, target, a);
      assert a in meeting <==> Meets(p, t, target, a);
    }
    hide *;
    NarrowFits(bound);
    FoundIsLocallyMaximal(meeting, bound);
  }

  lemma V3ShowsNoImpact(spot: Option<real>, t: Token, target: real, a: nat)
    ensures PriceImpact(V3(spot), a, t) == (if spot.Some? then Ok(0.0) else Err(NoPrice))
    ensures Meets(V3(spot), t, target, a) <==> spot.Some? && target >= 0.0
  {
  }

  /** Without that condition the floor makes the impact rise and fall, and the search can stop
      below the maximum: reserves 10 and 10, no fee, target 45%, answer 5, yet 7 meets it. */
  lemma FlooredSearchCanMiss(t0: Token, t1: Token)
    requires t0.address != t1.address
    ensures var p := V2(Pair(0, t0, t1, 10, 10, 0));
            Found(Meeting(p, t0, 0.45), Bound(p, t0)) == 5 && Meets(p, t0, 0.45, 7)
  {
    var p := Pair(0, t0, t1, 10, 10, 0);
    SmallQuote(p, t0, 5, 3);
    SmallQuote(p, t0, 6, 3);
    SmallQuote(p, t0, 7, 4);
    SmallQuote(p, t0, 8, 4);
    var meeting := Meeting(V2(p), t0, 0.45);
    assert GetReservesOrdered(p, t0) == Ok((10, 10));
    assert Narrow96(10, 10) && 10 < TWO_96;
    hide *;
    MeetsIff(p, t0, 0.45, 5);
    MeetsIff(p, t0, 0.45, 6);
    MeetsIff(p, t0, 0.45, 7);
    MeetsIff(p, t0, 0.45, 8);
    SmallCovers();
    MembersMeet(p, t0, 0.45, 5);
    MembersMeet(p, t0, 0.45, 6);
    MembersMeet(p, t0, 0.45, 8);
    NarrowStep(meeting, 1, 10, 128);
    NarrowStep(meeting, 6, 10, 127);
    NarrowStep(meeting, 6, 7, 126);
    NarrowStep(meeting, 6, 5, 125);
    FoundIs(meeting, 10);
    BoundIs(p, t0, 10);
  }

  lemma SmallCovers()
    ensures Covers(10, 10, 5, 3, 0.45) && !Covers(10, 10, 6, 3, 0.45)
    ensures Covers(10, 10, 7, 4, 0.45) && !Covers(10, 10, 8, 4, 0.45)
  {
  }

  lemma MembersMeet(p: Pair, t: Token, target: real, a: nat)
    ensures a in Meeting(V2(p), t, target) <==> Meets(V2(p), t, target, a)
  {
    hide Meets;
  }

  lemma BoundIs(p: Pair, t: Token, ri: nat)
    requires GetReservesOrdered(p, t).Ok? && GetReservesOrdered(p, t).value.0 == ri
    ensures Bound(V2(p), t) == ri
  {
  }

  lemma SmallQuote(p: Pair, t: Token, a: nat, out: nat)
    requires GetReservesOrdered(p, t) == Ok((10, 10)) && p.feeBps == 0 && p.reserve0 == 10 && p.reserve1 == 10
    requires 0 < a < 100 && out * (10 + a) <= 10 * a < (out + 1) * (10 + a)
    ensures GetAmountOut(p, a, t) == Ok(out)
  {
    hide GetAmountOut, Quote;
    NoOverflowOnUint112(p, a, t);
    AmountOutIsQuote(p, a, t);
    SmallAdmissible(a, out);
    hide Admissible;
    QuoteIsLargest(10, 10, BPS, a, out);
    QuoteIsLargest(10, 10, BPS, a, out + 1);
  }

  lemma SmallAdmissible(a: nat, out: nat)
    requires out * (10 + a) <= 10 * a < (out + 1) * (10 + a)
    ensures Admissible(10, 10, BPS, a, out) && !Admissible(10, 10, BPS, a, out + 1)
  {
    assert (BPS * 10 + BPS * a) * (10 - out) == BPS * (100 + 10 * a - out * (10 + a));
    assert (BPS * 10 + BPS * a) * (10 - (out + 1)) == BPS * (100 + 10 * a - (out + 1) * (10 + a));
  }
}
