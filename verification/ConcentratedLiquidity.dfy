/** The concentrated-liquidity pool: `UniswapV3Pool` of pricing/src/amm.rs.

    `ComputeSwapStep` follows `compute_swap_step` with its overflow fallbacks
    (`unwrap_or`), its aborts (`unwrap`, `to::<u128>`) and its operator order.
    The float tick conversions are a parameter, `TickMath`. */
module ConcentratedLiquidity {
  import opened Common
  import opened ConstantProduct

  const Q96: nat := 0x1_0000_0000_0000_0000_0000_0000
  const TWO_128: nat := 0x1_0000_0000_0000_0000_0000_0000_0000_0000
  const TWO_127: int := 0x8000_0000_0000_0000_0000_0000_0000_0000
  const PIPS: nat := 1_000_000
  const MIN_TICK: int := -887272
  const MAX_TICK: int := 887272

  /** `ticks` maps an initialized tick to its net liquidity. */
  datatype V3Pool = V3Pool(
    address: int, token0: Token, token1: Token,
    liquidity: nat, sqrtPrice: nat, tick: int, fee: nat, ticks: map<int, int>)

  /** `get_sqrt_ratio_at_tick` and `get_tick_at_sqrt_ratio`. */
  datatype TickMath = TickMath(ratio: int -> nat, tickAt: nat -> int)

  datatype Step = Step(next: nat, amountIn: nat, amountOut: nat, fee: nat)

  // ----- one step inside a tick

  function MulOr(x: nat, y: nat, fallback: nat): nat {
    if Mul(x, y) < TWO_256 then Mul(x, y) else fallback
  }

  function ToU128(x: nat): Result<nat> {
    if x < TWO_128 then Ok(x) else Err(Overflow)
  }

  function CheckedDiv(n: nat, d: nat): Result<nat> {
    if d == 0 then Err(ZeroDenominator) else Ok(Div(n, d))
  }

  function AbsDiff(x: nat, y: nat): nat { if x >= y then x - y else y - x }

  /** `(a * (1_000_000 - fee)) / 1_000_000` on u128. */
  function LessFee(remaining: nat, fee: nat): Result<nat> {
    if fee > PIPS then Err(FeeTooLarge) else
    var product :- ToU128(Mul(remaining, PIPS - fee));
    Ok(Div(product, PIPS))
  }

  /** Token-1 amount between two prices, L·|P-T| / 2^96, with its fallback. */
  function Delta1(l: nat, p: nat, t: nat): nat {
    Div(MulOr(l, AbsDiff(p, t), 0), Q96)
  }

  /** Token-0 amount between two prices, L·|P-T|·2^96 / (P·T), with its fallbacks. */
  function Delta0(l: nat, p: nat, t: nat): Result<nat> {
    CheckedDiv(MulOr(MulOr(l, AbsDiff(p, t), 0), Q96, 0), MulOr(p, t, 1))
  }

  function AmountInMax(p: nat, t: nat, l: nat): Result<nat> {
    var amount :- if p >= t then Delta0(l, p, t) else Ok(Delta1(l, p, t));
    ToU128(amount)
  }

  /** The target is reached: everything up to it is traded, and the fee is rounded up. */
  function FullStep(p: nat, t: nat, l: nat, amountInMax: nat, fee: nat): Result<Step> {
    var out0 :- if p >= t then Ok(Delta1(l, p, t)) else Delta0(l, p, t);
    var out :- ToU128(out0);
    var feeProduct :- ToU128(Mul(amountInMax, fee));
    Ok(Step(t, amountInMax, out, Div(feeProduct + (PIPS - 1), PIPS)))
  }

  function NextPrice(p: nat, t: nat, l: nat, x: nat): Result<nat> {
    if p >= t then
      var lp :- CheckedMul(l, p);
      var num :- CheckedMul(lp, Q96);
      var lq :- CheckedMul(l, Q96);
      var xp :- CheckedMul(x, p);
      var den :- CheckedAdd(lq, xp);
      CheckedDiv(num, den)
    else
      var xq :- CheckedMul(x, Q96);
      var move :- CheckedDiv(xq, l);
      CheckedAdd(p, move)
  }

  /** Token 1 paid out when the price falls from `p` to `next`. */
  function PayoutDown(p: nat, l: nat, next: nat): Result<nat> {
    var diff :- CheckedSub(p, next);
    var num :- CheckedMul(l, diff);
    ToU128(Div(num, Q96))
  }

  /** Token 0 paid out when the price rises from `p` to `next`. */
  function PayoutUp(p: nat, l: nat, next: nat): Result<nat> {
    var diff :- CheckedSub(next, p);
    var lm :- CheckedMul(l, diff);
    var num :- CheckedMul(lm, Q96);
    var den :- CheckedMul(p, next);
    var out :- CheckedDiv(num, den);
    ToU128(out)
  }

  /** The input runs out first: the price moves part of the way. */
  function ShortStep(p: nat, t: nat, l: nat, x: nat, remaining: nat): Result<Step> {
    var next :- NextPrice(p, t, l, x);
    var out :- if p >= t then PayoutDown(p, l, next) else PayoutUp(p, l, next);
    var fee :- CheckedSub(remaining, x);
    Ok(Step(next, x, out, fee))
  }

  function ComputeSwapStep(p: nat, t: nat, l: nat, remaining: nat, fee: nat): (r: Result<Step>)
    ensures r.Ok? ==> LessFee(remaining, fee).Ok? && AmountInMax(p, t, l).Ok?
  {
    var x :- LessFee(remaining, fee);
    var amountInMax :- AmountInMax(p, t, l);
    if x >= amountInMax then FullStep(p, t, l, amountInMax, fee)
    else ShortStep(p, t, l, x, remaining)
  }

  /** The guard of the short branch, which a caller can evaluate beforehand. */
  predicate StopsShort(p: nat, t: nat, l: nat, remaining: nat, fee: nat)
    requires LessFee(remaining, fee).Ok? && AmountInMax(p, t, l).Ok?
  {
    LessFee(remaining, fee).value < AmountInMax(p, t, l).value
  }

  // ----- what a step charges

  lemma LessFeeBounds(remaining: nat, fee: nat)
    requires LessFee(remaining, fee).Ok?
    ensures fee <= PIPS
    ensures var x := LessFee(remaining, fee).value;
            x * PIPS <= remaining * (PIPS - fee) < (x + 1) * PIPS && x <= remaining
  {
    MulIs(remaining, PIPS - fee);
    DivIs(remaining * (PIPS - fee), PIPS);
    hide Mul, Div;
    MulMono(PIPS - fee, PIPS, remaining);
  }

  /** m + ceil(m·f/10^6) <= r whenever m <= r·(1 - f/10^6). */
  lemma FeeFits(m: nat, f: nat, r: nat)
    requires f <= PIPS && m * PIPS <= r * (PIPS - f)
    ensures m + Div(m * f + (PIPS - 1), PIPS) <= r
  {
    DivIs(m * f + (PIPS - 1), PIPS);
    var c := Div(m * f + (PIPS - 1), PIPS);
    hide Div;
    assert m * PIPS * (PIPS + f) == (m * PIPS + m * f) * PIPS;
    assert (r * (PIPS - f)) * (PIPS + f) == (r * PIPS) * PIPS - r * (f * f) by {
      assert (PIPS - f) * (PIPS + f) == PIPS * PIPS - f * f;
      assert (r * (PIPS - f)) * (PIPS + f) == r * ((PIPS - f) * (PIPS + f));
    }
    assert r * (f * f) >= 0;
    MulMono(m * PIPS, r * (PIPS - f), PIPS + f);
    MulCancel(m * PIPS + m * f, r * PIPS, PIPS);
  }

  /** A step never charges more than remains; a step that stops short charges exactly
      what remains, any other step ends on the target. */
  lemma StepCharges(p: nat, t: nat, l: nat, remaining: nat, fee: nat)
    requires ComputeSwapStep(p, t, l, remaining, fee).Ok?
    ensures var s := ComputeSwapStep(p, t, l, remaining, fee).value;
            && s.amountIn + s.fee <= remaining
            && (if StopsShort(p, t, l, remaining, fee) then s.amountIn + s.fee == remaining else s.next == t)
  {
    hide *;
    var x := LessFee(remaining, fee).value;
    var m := AmountInMax(p, t, l).value;
    LessFeeBounds(remaining, fee);
    StepCases(p, t, l, remaining, fee);
    if x >= m {
      FullStepFacts(p, t, l, m, fee);
      FullFeeFits(m, x, fee, remaining);
    } else {
      ShortStepFacts(p, t, l, x, remaining);
    }
  }

  lemma FullFeeFits(m: nat, x: nat, fee: nat, remaining: nat)
    requires fee <= PIPS && m <= x && x * PIPS <= remaining * (PIPS - fee)
    ensures m + Div(Mul(m, fee) + (PIPS - 1), PIPS) <= remaining
  {
    hide Div, Mul;
    MulIs(m, fee);
    MulMono(m, x, PIPS);
    FeeFits(m, fee, remaining);
  }

  /** The two branches of a step. */
  lemma StepCases(p: nat, t: nat, l: nat, remaining: nat, fee: nat)
    requires LessFee(remaining, fee).Ok? && AmountInMax(p, t, l).Ok?
    ensures var x, m := LessFee(remaining, fee).value, AmountInMax(p, t, l).value;
            && (StopsShort(p, t, l, remaining, fee) <==> x < m)
            && ComputeSwapStep(p, t, l, remaining, fee) ==
               if x >= m then FullStep(p, t, l, m, fee) else ShortStep(p, t, l, x, remaining)
  {
    hide LessFee, AmountInMax, FullStep, ShortStep;
  }

  lemma FullStepFacts(p: nat, t: nat, l: nat, m: nat, fee: nat)
    requires FullStep(p, t, l, m, fee).Ok?
    ensures var s := FullStep(p, t, l, m, fee).value;
            s.next == t && s.amountIn == m && s.fee == Div(Mul(m, fee) + (PIPS - 1), PIPS)
  {
    hide Delta0, Delta1, Mul, Div;
  }

  lemma ShortStepFacts(p: nat, t: nat, l: nat, x: nat, remaining: nat)
    requires ShortStep(p, t, l, x, remaining).Ok?
    ensures NextPrice(p, t, l, x).Ok? && x <= remaining
    ensures var s := ShortStep(p, t, l, x, remaining).value;
            && s.next == NextPrice(p, t, l, x).value && s.amountIn == x && s.fee == remaining - x
            && Ok(s.amountOut) == if p >= t then PayoutDown(p, l, s.next) else PayoutUp(p, l, s.next)
  {
    hide NextPrice, PayoutDown, PayoutUp;
  }

  // ----- where a step lands

  ghost predicate Between(x: nat, a: nat, b: nat) { a <= x <= b || b <= x <= a }

  lemma ShortMoveUp(p: nat, t: nat, l: nat, x: nat)
    requires p < t && AmountInMax(p, t, l).Ok? && x < AmountInMax(p, t, l).value
    ensures l > 0 && x * Q96 < l * (t - p)
  {
    MulIs(l, t - p);
    FloorLe(MulOr(l, t - p, 0), Q96, x + 1);
    hide Mul, Div;
  }

  lemma AmountInMaxDown(p: nat, t: nat, l: nat)
    requires p >= t && AmountInMax(p, t, l).Ok?
    ensures MulOr(p, t, 1) > 0
    ensures AmountInMax(p, t, l).value == Div(MulOr(MulOr(l, p - t, 0), Q96, 0), MulOr(p, t, 1)) < TWO_128
  {
    hide Mul, Div, MulOr;
  }

  lemma ShortMoveDown(p: nat, t: nat, l: nat, x: nat)
    requires p >= t && AmountInMax(p, t, l).Ok? && x < AmountInMax(p, t, l).value
    ensures l > 0 && p > t > 0
    ensures if p * t < TWO_256 then (x + 1) * (p * t) <= l * (p - t) * Q96 else l * (p - t) * Q96 < TWO_128
  {
    AmountInMaxDown(p, t, l);
    hide *;
    var num, den := MulOr(MulOr(l, p - t, 0), Q96, 0), MulOr(p, t, 1);
    FloorLe(num, den, x + 1);
    FloorLe(num, den, TWO_128);
    MulMono(1, x + 1, den);
    MulOrIs(l, p - t, 0);
    MulOrIs(MulOr(l, p - t, 0), Q96, 0);
    MulOrIs(p, t, 1);
  }

  lemma MulOrIs(x: nat, y: nat, fallback: nat)
    ensures MulOr(x, y, fallback) == if x * y < TWO_256 then x * y else fallback
  {
    MulIs(x, y);
  }

  lemma NextUp(p: nat, t: nat, l: nat, x: nat)
    requires p < t && NextPrice(p, t, l, x).Ok?
    ensures var next := NextPrice(p, t, l, x).value;
            l > 0 && next >= p && (next - p) * l <= x * Q96 < (next - p + 1) * l
  {
    MulIs(x, Q96);
    DivIs(x * Q96, l);
    hide Mul, Div;
  }

  /** `next` is the downward price move rounded down, at fixed-point unit `q`. */
  ghost predicate PriceDown(q: nat, p: nat, l: nat, x: nat, next: nat) {
    var d := l * q + x * p;
    d > 0 && next * d <= l * p * q < (next + 1) * d
  }

  lemma NextDown(p: nat, t: nat, l: nat, x: nat)
    requires p >= t && NextPrice(p, t, l, x).Ok?
    ensures PriceDown(Q96, p, l, x, NextPrice(p, t, l, x).value)
  {
    hide *;
    NextPriceDownIs(p, t, l, x);
    DownFloor(Q96, p, l, x);
  }

  lemma NextPriceDownIs(p: nat, t: nat, l: nat, x: nat)
    requires p >= t && NextPrice(p, t, l, x).Ok?
    ensures Mul(l, Q96) + Mul(x, p) > 0
    ensures NextPrice(p, t, l, x).value == Div(Mul(Mul(l, p), Q96), Mul(l, Q96) + Mul(x, p))
  {
    hide Mul, Div;
  }

  lemma DownFloor(q: nat, p: nat, l: nat, x: nat)
    requires Mul(l, q) + Mul(x, p) > 0
    ensures PriceDown(q, p, l, x, Div(Mul(Mul(l, p), q), Mul(l, q) + Mul(x, p)))
  {
    hide Mul, Div;
    MulIs(l, p);
    MulIs(l * p, q);
    MulIs(l, q);
    MulIs(x, p);
    DivIs(l * p * q, l * q + x * p);
  }

  lemma LandsInside(p: nat, t: nat, l: nat, x: nat)
    requires AmountInMax(p, t, l).Ok? && x < AmountInMax(p, t, l).value && NextPrice(p, t, l, x).Ok?
    ensures var next := NextPrice(p, t, l, x).value;
            Between(next, p, t) <==> p < t || p * t < TWO_256 || x == 0
  {
    var next := NextPrice(p, t, l, x).value;
    if p < t {
      ShortMoveUp(p, t, l, x);
      NextUp(p, t, l, x);
      hide NextPrice, AmountInMax;
      MulCancel(next - p, t - p, l);
    } else {
      ShortMoveDown(p, t, l, x);
      NextDown(p, t, l, x);
      hide NextPrice, AmountInMax;
      hide *;
      DownwardMove(Q96, TWO_256, p, t, l, x, next);
    }
  }

  /** The algebra of a downward move, for any fixed-point unit `q` and word size `w`. */
  lemma DownwardMove(q: nat, w: nat, p: nat, t: nat, l: nat, x: nat, next: nat)
    requires l > 0 && p > t > 0 && q > 0
    requires PriceDown(q, p, l, x, next)
    requires p * t < w ==> (x + 1) * (p * t) <= l * (p - t) * q
    requires p * t >= w ==> l * (p - t) * q < w
    ensures next <= p
    ensures next >= t <==> p * t < w || x == 0
  {
    var d, n := l * q + x * p, l * p * q;
    var pt, m := p * t, l * (p - t) * q;
    DownIdentities(q, p, t, l, x);
    assert (x + 1) * pt == x * pt + pt;
    if x > 0 { MulMono(1, x, pt); }
    assert t * d <= n <==> pt < w || x == 0;
    hide *;
    Squeeze(next, d, n, p, t);
  }

  lemma Squeeze(next: nat, d: nat, n: nat, p: nat, t: nat)
    requires d > 0 && next * d <= n < (next + 1) * d && (p + 1) * d > n
    ensures next <= p && (next >= t <==> t * d <= n)
  {
    MulCancelStrict(next, p + 1, d);
    MulCancelStrict(t, next + 1, d);
    if next >= t { MulMono(t, next, d); }
  }

  lemma DownIdentities(q: nat, p: nat, t: nat, l: nat, x: nat)
    requires l > 0 && q > 0 && p > t > 0
    ensures l * q + x * p > 0
    ensures (p + 1) * (l * q + x * p) > l * p * q
    ensures t * (l * q + x * p) == l * p * q - l * (p - t) * q + x * (p * t)
    ensures l * (p - t) * q > 0
  {
    var lq := l * q;
    assert lq > 0;
    assert t * (lq + x * p) == t * lq + x * (p * t);
    assert (p + 1) * (lq + x * p) == lq * p + lq + (p + 1) * (x * p);
    assert l * p * q == lq * p;
    assert l * (p - t) * q == lq * p - t * lq;
    MulMono(t + 1, p, lq);
  }

  lemma MulCancelStrict(x: int, y: int, z: nat)
    requires z > 0
    ensures x * z < y * z ==> x < y
  {
    if y <= x { MulMono(y, x, z); }
  }

  /** A falling step between prices so high that their product leaves 256 bits, so that the
      bound on the input is divided by the fallback 1, and an input that runs out short of it. */
  predicate OverflowsShort(p: nat, t: nat, l: nat, remaining: nat, fee: nat)
    requires LessFee(remaining, fee).Ok? && AmountInMax(p, t, l).Ok?
  {
    p > t && p * t >= TWO_256 && StopsShort(p, t, l, remaining, fee) && LessFee(remaining, fee).value > 0
  }

  /** A successful step ends between its start and its target, except in exactly that case. */
  lemma StepStaysInsideIff(p: nat, t: nat, l: nat, remaining: nat, fee: nat)
    requires ComputeSwapStep(p, t, l, remaining, fee).Ok?
    ensures Between(ComputeSwapStep(p, t, l, remaining, fee).value.next, p, t) <==>
            !OverflowsShort(p, t, l, remaining, fee)
  {
    OverflowsShortIs(p, t, l, remaining, fee);
    var x := LessFee(remaining, fee).value;
    var m := AmountInMax(p, t, l).value;
    hide *;
    StepCases(p, t, l, remaining, fee);
    if x < m {
      ShortStepFacts(p, t, l, x, remaining);
      LandsInside(p, t, l, x);
      if p >= t { ShortMoveDown(p, t, l, x); }
    } else {
      FullStepFacts(p, t, l, m, fee);
      TargetIsBetween(p, t);
    }
  }

  lemma OverflowsShortIs(p: nat, t: nat, l: nat, remaining: nat, fee: nat)
    requires LessFee(remaining, fee).Ok? && AmountInMax(p, t, l).Ok?
    ensures OverflowsShort(p, t, l, remaining, fee) <==>
            p > t && p * t >= TWO_256 && StopsShort(p, t, l, remaining, fee) && LessFee(remaining, fee).value > 0
  {
    hide LessFee, AmountInMax, StopsShort;
  }

  lemma ProductBelow(x: nat, y: nat)
    requires x <= TWO_128 && y < TWO_128
    ensures x * y < TWO_256
  {
    MulMono(x, TWO_128, y);
  }

  /** It needs a start above 2^128. */
  lemma OverflowNeedsWidePrice(p: nat, t: nat, l: nat, remaining: nat, fee: nat)
    requires LessFee(remaining, fee).Ok? && AmountInMax(p, t, l).Ok? && t < TWO_128
    ensures OverflowsShort(p, t, l, remaining, fee) ==> p > TWO_128
  {
    OverflowsShortIs(p, t, l, remaining, fee);
    if p <= TWO_128 { ProductBelow(p, t); }
    hide *;
  }

  /** The exception occurs: prices next to 2^128, one unit of liquidity, one unit of input. */
  lemma StepCanLeave()
    ensures var (p, t) := (TWO_128 + 2, TWO_128 - 1);
            && ComputeSwapStep(p, t, 1, 1, 0).Ok?
            && ComputeSwapStep(p, t, 1, 1, 0).value.next < t
            && OverflowsShort(p, t, 1, 1, 0)
  {
    var (p, t) := (TWO_128 + 2, TWO_128 - 1);
    LeavingBound();
    LeavingPrice();
    OverpayInput();
    var next := NextPrice(p, t, 1, 1).value;
    LeavingPayout(p, next);
    LeavingOverflows();
    hide Mul, Div, LessFee, AmountInMax, NextPrice, PayoutDown;
    assert StopsShort(p, t, 1, 1, 0);
  }

  lemma LeavingOverflows()
    ensures (TWO_128 + 2) * (TWO_128 - 1) >= TWO_256
  {
  }

  lemma LeavingBound()
    ensures AmountInMax(TWO_128 + 2, TWO_128 - 1, 1).Ok?
    ensures AmountInMax(TWO_128 + 2, TWO_128 - 1, 1).value > 1
  {
    MulIs(1, 3);
    MulIs(3, Q96);
    MulIs(TWO_128 + 2, TWO_128 - 1);
    FloorLe(3 * Q96, 1, 2);
    FloorLe(3 * Q96, 1, TWO_128);
    hide Mul, Div;
  }

  lemma LeavingPrice()
    ensures NextPrice(TWO_128 + 2, TWO_128 - 1, 1, 1).Ok?
    ensures NextPrice(TWO_128 + 2, TWO_128 - 1, 1, 1).value < Q96
  {
    var p := TWO_128 + 2;
    MulIs(1, p);
    MulIs(p, Q96);
    MulIs(1, Q96);
    FloorLe(p * Q96, Q96 + p, Q96);
    hide Mul, Div;
  }

  lemma LeavingPayout(p: nat, next: nat)
    requires next < p < 2 * TWO_128
    ensures PayoutDown(p, 1, next).Ok?
  {
    MulIs(1, p - next);
    FloorLe(p - next, Q96, TWO_128);
    hide Mul, Div;
  }

  /** Whatever it overflows, a step never moves the price away from its target. */
  lemma StepHeadsForTarget(p: nat, t: nat, l: nat, remaining: nat, fee: nat)
    requires ComputeSwapStep(p, t, l, remaining, fee).Ok?
    ensures var next := ComputeSwapStep(p, t, l, remaining, fee).value.next;
            if p >= t then next <= p else p <= next
  {
    var x := LessFee(remaining, fee).value;
    var m := AmountInMax(p, t, l).value;
    hide *;
    StepCases(p, t, l, remaining, fee);
    if x >= m {
      FullStepFacts(p, t, l, m, fee);
    } else {
      ShortStepFacts(p, t, l, x, remaining);
      LandsBefore(p, t, l, x);
    }
  }

  /** The input runs out before it can move the price by one unit. */
  predicate TooSmallToMove(p: nat, t: nat, l: nat, remaining: nat, fee: nat)
    requires LessFee(remaining, fee).Ok? && AmountInMax(p, t, l).Ok?
  {
    && StopsShort(p, t, l, remaining, fee)
    && (if p >= t then LessFee(remaining, fee).value == 0 else LessFee(remaining, fee).value * Q96 < l)
  }

  /** A step to another price stays where it is exactly then. */
  lemma StepMovesNothingIff(p: nat, t: nat, l: nat, remaining: nat, fee: nat)
    requires p != t && ComputeSwapStep(p, t, l, remaining, fee).Ok?
    ensures ComputeSwapStep(p, t, l, remaining, fee).value.next == p <==> TooSmallToMove(p, t, l, remaining, fee)
  {
    var x := LessFee(remaining, fee).value;
    var m := AmountInMax(p, t, l).value;
    TooSmallIs(p, t, l, remaining, fee);
    hide *;
    StepCases(p, t, l, remaining, fee);
    if x >= m {
      FullStepFacts(p, t, l, m, fee);
    } else {
      ShortStepFacts(p, t, l, x, remaining);
      LandsBefore(p, t, l, x);
    }
  }

  lemma TooSmallIs(p: nat, t: nat, l: nat, remaining: nat, fee: nat)
    requires LessFee(remaining, fee).Ok? && AmountInMax(p, t, l).Ok?
    ensures var x := LessFee(remaining, fee).value;
            TooSmallToMove(p, t, l, remaining, fee) <==>
            StopsShort(p, t, l, remaining, fee) && (if p >= t then x == 0 else x * Q96 < l)
  {
    hide LessFee, AmountInMax, StopsShort;
  }

  lemma LandsBefore(p: nat, t: nat, l: nat, x: nat)
    requires AmountInMax(p, t, l).Ok? && x < AmountInMax(p, t, l).value && NextPrice(p, t, l, x).Ok?
    ensures var next := NextPrice(p, t, l, x).value;
            if p >= t then next <= p && (next == p <==> x == 0) else p <= next && (next == p <==> x * Q96 < l)
  {
    var next := NextPrice(p, t, l, x).value;
    if p < t {
      NextUp(p, t, l, x);
      hide *;
      if next > p { MulMono(1, next - p, l); }
    } else {
      ShortMoveDown(p, t, l, x);
      NextDown(p, t, l, x);
      hide *;
      DownwardStop(Q96, p, l, x, next);
    }
  }

  lemma DownwardStop(q: nat, p: nat, l: nat, x: nat, next: nat)
    requires l > 0 && p > 0 && PriceDown(q, p, l, x, next)
    ensures q > 0 ==> next <= p && (next == p <==> x == 0)
  {
    var d, n := l * q + x * p, l * p * q;
    assert p * d == n + x * (p * p);
    if q > 0 {
      assert l * q > 0 by { MulMono(1, l, q); }
      assert (p + 1) * d == p * d + d;
      MulCancelStrict(next, p + 1, d);
      MulPositive(p, p);
      MulPositive(x, p * p);
      if next == p { assert x * (p * p) <= 0; }
      if x == 0 { MulCancelStrict(p, next + 1, d); }
    }
  }

  lemma TargetIsBetween(p: nat, t: nat)
    ensures Between(t, p, t)
  {
  }

  // ----- what a step pays out

  /** Short step with token 1 in: never more than the exact curve
      L·x·2^192 / (P·(L·P + x·2^96)). */
  lemma Token1InNeverOverpays(p: nat, t: nat, l: nat, remaining: nat, fee: nat)
    requires p < t && ComputeSwapStep(p, t, l, remaining, fee).Ok?
    requires StopsShort(p, t, l, remaining, fee)
    ensures var s := ComputeSwapStep(p, t, l, remaining, fee).value; var x := s.amountIn;
            s.amountOut * p * (l * p + x * Q96) <= l * (x * Q96) * Q96
  {
    hide *;
    var s := ComputeSwapStep(p, t, l, remaining, fee).value;
    ShortStepUpIs(p, t, l, remaining, fee);
    NextUp(p, t, l, s.amountIn);
    UpPayout(Q96, p, l, s.amountIn, s.next - p, s.amountOut);
  }

  lemma ShortStepUpIs(p: nat, t: nat, l: nat, remaining: nat, fee: nat)
    requires p < t && ComputeSwapStep(p, t, l, remaining, fee).Ok?
    requires StopsShort(p, t, l, remaining, fee)
    ensures var s := ComputeSwapStep(p, t, l, remaining, fee).value;
            && NextPrice(p, t, l, s.amountIn) == Ok(s.next)
            && s.next >= p && Mul(p, s.next) > 0
            && s.amountOut == Div(Mul(Mul(l, s.next - p), Q96), Mul(p, s.next))
  {
    hide *;
    StepCases(p, t, l, remaining, fee);
    ShortStepFacts(p, t, l, LessFee(remaining, fee).value, remaining);
    PayoutUpIs(p, l, ComputeSwapStep(p, t, l, remaining, fee).value.next);
  }

  lemma PayoutUpIs(p: nat, l: nat, next: nat)
    requires PayoutUp(p, l, next).Ok?
    ensures next >= p && Mul(p, next) > 0 && PayoutUp(p, l, next).value == Div(Mul(Mul(l, next - p), Q96), Mul(p, next))
  {
    hide Mul, Div;
  }

  lemma PayoutDownIs(p: nat, l: nat, next: nat)
    requires PayoutDown(p, l, next).Ok?
    ensures next <= p && PayoutDown(p, l, next).value == Div(Mul(l, p - next), Q96)
  {
    hide Mul, Div;
  }

  lemma UpPayout(q: nat, p: nat, l: nat, x: nat, m: nat, out: nat)
    requires Mul(p, p + m) > 0 && out == Div(Mul(Mul(l, m), q), Mul(p, p + m))
    requires m * l <= x * q
    ensures out * p * (l * p + x * q) <= l * (x * q) * q
  {
    hide *;
    MulIs(l, m);
    MulIs(l * m, q);
    MulIs(p, p + m);
    DivIs(l * m * q, p * (p + m));
    assert (out * p) * (p + m) == out * (p * (p + m));
    CurveBound(q, out * p, p, m, l, x * q);
  }

  lemma CurveBound(q: nat, a: nat, p: nat, m: nat, l: nat, xq: nat)
    requires p > 0 && m * l <= xq
    requires a * (p + m) <= l * m * q
    ensures a * (l * p + xq) <= l * xq * q
  {
    var k := l * q - a;
    assert k * m == l * m * q - a * m;
    assert a * p <= k * m;
    if k < 0 {
      MulMono(k, 0, m);
      MulMono(1, p, a);
    }
    assert k >= 0 || a * p <= 0;
    if k >= 0 {
      MulMono(a * p, k * m, l);
      MulMono(m * l, xq, k);
      assert k * xq == l * xq * q - a * xq;
      assert (k * m) * l == (m * l) * k;
      assert a * p * l == a * (l * p);
    }
  }

  /** The payout is below the curve L·x·P^2 / (q·(L·q + x·P)) plus L/q and above it minus 1. */
  ghost predicate PayoutNear(q: nat, p: nat, l: nat, x: nat, out: nat) {
    var d := l * q + x * p;
    out * q * d < l * x * (p * p) + l * d && l * x * (p * p) < (out + 1) * q * d
  }

  /** Short step with token 0 in: the price is rounded down, so the payout can exceed the
      exact curve L·x·P^2 / (2^96·(L·2^96 + x·P)), but by less than L/2^96; and it is
      more than the curve minus one. */
  lemma Token0InOverpaysByLess(p: nat, t: nat, l: nat, remaining: nat, fee: nat)
    requires p >= t && ComputeSwapStep(p, t, l, remaining, fee).Ok?
    requires StopsShort(p, t, l, remaining, fee)
    ensures var s := ComputeSwapStep(p, t, l, remaining, fee).value; var x := s.amountIn;
            PayoutNear(Q96, p, l, x, s.amountOut)
  {
    assert Q96 > 0;
    hide *;
    var s := ComputeSwapStep(p, t, l, remaining, fee).value;
    ShortStepDownIs(p, t, l, remaining, fee);
    NextDown(p, t, l, s.amountIn);
    ShortMoveDown(p, t, l, s.amountIn);
    DownPayout(Q96, p, l, s.amountIn, s.next, s.amountOut);
  }

  lemma DownPayout(q: nat, p: nat, l: nat, x: nat, next: nat, out: nat)
    requires q > 0 && l > 0 && next <= p && PriceDown(q, p, l, x, next) && out == Div(Mul(l, p - next), q)
    ensures PayoutNear(q, p, l, x, out)
  {
    hide PriceDown, PayoutNear, Mul, Div;
    MulIs(l, p - next);
    DivIs(l * (p - next), q);
    PayoutBound(q, p, l, x, next, out);
  }

  lemma ShortStepDownIs(p: nat, t: nat, l: nat, remaining: nat, fee: nat)
    requires p >= t && ComputeSwapStep(p, t, l, remaining, fee).Ok?
    requires StopsShort(p, t, l, remaining, fee)
    ensures var s := ComputeSwapStep(p, t, l, remaining, fee).value;
            && s.amountIn < AmountInMax(p, t, l).value
            && NextPrice(p, t, l, s.amountIn) == Ok(s.next)
            && s.next <= p && s.amountOut == Div(Mul(l, p - s.next), Q96)
  {
    assert Q96 > 0;
    hide *;
    StepCases(p, t, l, remaining, fee);
    ShortStepFacts(p, t, l, LessFee(remaining, fee).value, remaining);
    PayoutDownIs(p, l, ComputeSwapStep(p, t, l, remaining, fee).value.next);
  }

  lemma PayoutBound(q: nat, p: nat, l: nat, x: nat, next: nat, out: nat)
    requires l > 0 && next <= p && q > 0
    requires PriceDown(q, p, l, x, next)
    requires out * q <= l * (p - next) < (out + 1) * q
    ensures PayoutNear(q, p, l, x, out)
  {
    var d := l * q + x * p;
    var gap := l * p * q - next * d;
    GapIdentity(q, p, l, x, next);
    assert 0 <= gap < d;
    PayoutUpper(q, d, l, l * (p - next), out, gap, l * x * (p * p));
    PayoutLower(q, d, l, l * (p - next), out, gap, l * x * (p * p));
  }

  lemma PayoutUpper(q: nat, d: nat, l: nat, a: nat, out: nat, gap: nat, curve: nat)
    requires out * q <= a && a * d == curve + gap * l && gap < d && l > 0
    ensures out * q * d < curve + l * d
  {
    MulMono(out * q, a, d);
    MulMono(gap + 1, d, l);
  }

  lemma PayoutLower(q: nat, d: nat, l: nat, a: nat, out: nat, gap: nat, curve: nat)
    requires a < (out + 1) * q && a * d == curve + gap * l && d > 0
    ensures curve < (out + 1) * q * d
  {
    MulMono(a + 1, (out + 1) * q, d);
    MulMono(0, gap, l);
  }

  lemma GapIdentity(q: nat, p: nat, l: nat, x: nat, next: nat)
    ensures var d := l * q + x * p;
            (l * (p - next)) * d == l * x * (p * p) + (l * p * q - next * d) * l
  {
    var d := l * q + x * p;
    assert (l * p) * d == l * x * (p * p) + l * (l * p * q) by {
      assert (l * p) * (l * q) == l * (l * p * q);
      assert (l * p) * (x * p) == l * x * (p * p);
    }
    assert (l * (p - next)) * d == (l * p) * d - l * (next * d);
  }

  /** The payout lies above the curve L·x·P^2 / (q·(L·q + x·P)). */
  ghost predicate OverCurve(q: nat, p: nat, l: nat, x: nat, out: nat) {
    out * q * (l * q + x * p) > l * x * (p * p)
  }

  /** The divisor of the price division, L·q + x·P. */
  function PriceDivisor(q: nat, p: nat, l: nat, x: nat): nat { Mul(l, q) + Mul(x, p) }

  /** What the price division L·P·q / (L·q + x·P) leaves. */
  function PriceRemainder(q: nat, p: nat, l: nat, x: nat): nat
    requires PriceDivisor(q, p, l, x) > 0
  {
    Remainder(Mul(Mul(l, p), q), PriceDivisor(q, p, l, x))
  }

  /** What the payout division L·(P - next) / q leaves. */
  function PayoutRemainder(q: nat, p: nat, l: nat, x: nat): nat
    requires q > 0 && PriceDivisor(q, p, l, x) > 0
  {
    var next := Div(Mul(Mul(l, p), q), PriceDivisor(q, p, l, x));
    if next <= p then Remainder(Mul(l, p - next), q) else 0
  }

  /** The remainder of the price, weighed by the liquidity, outweighs that of the payout. */
  predicate OverpaysShort(q: nat, p: nat, l: nat, x: nat)
    requires q > 0 && PriceDivisor(q, p, l, x) > 0
  {
    Mul(l, PriceRemainder(q, p, l, x)) > Mul(PayoutRemainder(q, p, l, x), PriceDivisor(q, p, l, x))
  }

  /** A short step with token 0 in pays more than the curve exactly when, of its two divisions,
      the remainder of the first outweighs that of the second. */
  lemma Token0InOverpaysIff(p: nat, t: nat, l: nat, remaining: nat, fee: nat)
    requires p >= t && ComputeSwapStep(p, t, l, remaining, fee).Ok?
    requires StopsShort(p, t, l, remaining, fee)
    ensures Q96 > 0 && PriceDivisor(Q96, p, l, LessFee(remaining, fee).value) > 0
    ensures var s := ComputeSwapStep(p, t, l, remaining, fee).value; var x := LessFee(remaining, fee).value;
            s.amountIn == x && (OverCurve(Q96, p, l, x, s.amountOut) <==> OverpaysShort(Q96, p, l, x))
  {
    assert Q96 > 0;
    hide *;
    var s := ComputeSwapStep(p, t, l, remaining, fee).value;
    StepCases(p, t, l, remaining, fee);
    ShortStepFacts(p, t, l, LessFee(remaining, fee).value, remaining);
    ShortStepDownIs(p, t, l, remaining, fee);
    NextPriceDownIs(p, t, l, s.amountIn);
    DivisorIs(Q96, p, l, s.amountIn);
    RemaindersDecide(Q96, p, l, s.amountIn, s.next, s.amountOut);
  }

  lemma DivisorIs(q: nat, p: nat, l: nat, x: nat)
    ensures PriceDivisor(q, p, l, x) == Mul(l, q) + Mul(x, p)
  {
    hide Mul;
  }

  lemma RemaindersDecide(q: nat, p: nat, l: nat, x: nat, next: nat, out: nat)
    requires q > 0 && next <= p && PriceDivisor(q, p, l, x) > 0
    requires next == Div(Mul(Mul(l, p), q), PriceDivisor(q, p, l, x)) && out == Div(Mul(l, p - next), q)
    ensures OverCurve(q, p, l, x, out) <==> OverpaysShort(q, p, l, x)
  {
    var r1, r2 := PriceRemainder(q, p, l, x), PayoutRemainder(q, p, l, x);
    var d := PriceDivisor(q, p, l, x);
    hide Div, Mul, Remainder;
    MulIs(l, r1);
    MulIs(r2, d);
    MulIs(l, p);
    MulIs(l * p, q);
    MulIs(l, q);
    MulIs(x, p);
    MulIs(l, p - next);
    assert l * p * q == next * d + r1 by { hide PriceDivisor; }
    assert l * (p - next) == out * q + r2;
    assert d == l * q + x * p;
    hide *;
    WeighRemainders(q, p, l, x, next, out, r1, r2);
    OverCurveIs(q, p, l, x, out);
  }

  lemma OverCurveIs(q: nat, p: nat, l: nat, x: nat, out: nat)
    ensures OverCurve(q, p, l, x, out) <==> out * q * (l * q + x * p) > l * x * (p * p)
  {
  }

  lemma WeighRemainders(q: nat, p: nat, l: nat, x: nat, next: nat, out: nat, r1: nat, r2: nat)
    requires next <= p
    requires l * p * q == next * (l * q + x * p) + r1 && l * (p - next) == out * q + r2
    ensures out * q * (l * q + x * p) > l * x * (p * p) <==> l * r1 > r2 * (l * q + x * p)
  {
    var d := l * q + x * p;
    GapIdentity(q, p, l, x, next);
    assert (out * q + r2) * d == out * q * d + r2 * d;
    assert (l * p * q - next * d) * l == l * r1;
  }

  /** Two cases that a caller can tell beforehand: an exact price division never overpays, and
      with L up to 2^96 the excess is less than one unit. */
  lemma Token0InOverpaysAtMostOneUnit(p: nat, t: nat, l: nat, remaining: nat, fee: nat)
    requires p >= t && ComputeSwapStep(p, t, l, remaining, fee).Ok?
    requires StopsShort(p, t, l, remaining, fee)
    ensures Q96 > 0 && PriceDivisor(Q96, p, l, LessFee(remaining, fee).value) > 0
    ensures var out := ComputeSwapStep(p, t, l, remaining, fee).value.amountOut;
            var x := LessFee(remaining, fee).value;
            && (PriceRemainder(Q96, p, l, x) == 0 ==> !OverCurve(Q96, p, l, x, out))
            && (l <= Q96 && out > 0 ==> !OverCurve(Q96, p, l, x, out - 1))
  {
    assert Q96 > 0;
    hide *;
    var s := ComputeSwapStep(p, t, l, remaining, fee).value;
    Token0InOverpaysIff(p, t, l, remaining, fee);
    ExactNeverOverpays(Q96, p, l, s.amountIn);
    Token0InOverpaysByLess(p, t, l, remaining, fee);
    if s.amountOut > 0 { OneUnitLess(Q96, p, l, s.amountIn, s.amountOut); }
  }

  lemma ExactNeverOverpays(q: nat, p: nat, l: nat, x: nat)
    requires q > 0 && PriceDivisor(q, p, l, x) > 0
    ensures PriceRemainder(q, p, l, x) == 0 ==> !OverpaysShort(q, p, l, x)
  {
    MulIs(l, 0);
    hide PriceRemainder, PayoutRemainder, PriceDivisor;
  }

  lemma OneUnitLess(q: nat, p: nat, l: nat, x: nat, out: nat)
    requires out > 0
    ensures PayoutNear(q, p, l, x, out) && l <= q ==> !OverCurve(q, p, l, x, out - 1)
  {
    var d := l * q + x * p;
    assert out * q * d == (out - 1) * q * d + q * d;
    if l <= q { MulMono(l, q, d); }
  }

  /** At the square-root price p/q the amount `out` is worth no more than `x` of the other token:
      of token 1 for token 0, or with `p` and `q` exchanged of token 0 for token 1. */
  ghost predicate WorthNoMore(q: nat, p: nat, x: nat, out: nat) { out * (q * q) <= x * (p * p) }

  /** A short step pays no more than its input is worth at the price it starts from, unless it has
      token 0 in and overpays. */
  lemma ShortStepWorth(p: nat, t: nat, l: nat, remaining: nat, fee: nat)
    requires ComputeSwapStep(p, t, l, remaining, fee).Ok? && StopsShort(p, t, l, remaining, fee)
    ensures Q96 > 0 && p > 0
    ensures p >= t ==> PriceDivisor(Q96, p, l, LessFee(remaining, fee).value) > 0
    ensures var s := ComputeSwapStep(p, t, l, remaining, fee).value; var x := LessFee(remaining, fee).value;
            && s.amountIn == x <= remaining
            && (p < t ==> WorthNoMore(p, Q96, x, s.amountOut))
            && (p >= t && !OverpaysShort(Q96, p, l, x) ==> WorthNoMore(Q96, p, x, s.amountOut))
  {
    assert Q96 > 0;
    hide *;
    var s := ComputeSwapStep(p, t, l, remaining, fee).value;
    var x := LessFee(remaining, fee).value;
    StepCases(p, t, l, remaining, fee);
    ShortStepFacts(p, t, l, x, remaining);
    ZeroDenominatorNeedsZeroPrice(p, t, l, remaining, fee);
    if p >= t {
      ShortMoveDown(p, t, l, x);
      Token0InOverpaysIff(p, t, l, remaining, fee);
      DownWorth(Q96, p, l, x, s.amountOut);
    } else {
      ShortMoveUp(p, t, l, x);
      Token1InNeverOverpays(p, t, l, remaining, fee);
      UpWorth(Q96, p, l, x, s.amountOut);
    }
  }

  lemma DownWorth(q: nat, p: nat, l: nat, x: nat, out: nat)
    requires l > 0
    ensures !OverCurve(q, p, l, x, out) ==> WorthNoMore(q, p, x, out)
  {
    if !OverCurve(q, p, l, x, out) {
      var d := l * q + x * p;
      assert d >= l * q by { MulMono(0, x, p); }
      MulMono(l * q, d, out * q);
      assert (out * (q * q)) * l == (l * q) * (out * q);
      assert (x * (p * p)) * l == l * x * (p * p);
      MulCancel(out * (q * q), x * (p * p), l);
    }
  }

  lemma UpWorth(q: nat, p: nat, l: nat, x: nat, out: nat)
    requires l > 0 && out * p * (l * p + x * q) <= l * (x * q) * q
    ensures WorthNoMore(p, q, x, out)
  {
    var d := l * p + x * q;
    assert d >= l * p by { MulMono(0, x, q); }
    MulMono(l * p, d, out * p);
    assert (out * (p * p)) * l == (l * p) * (out * p);
    assert (x * (q * q)) * l == l * (x * q) * q;
    MulCancel(out * (p * p), x * (q * q), l);
  }

  /** Out and back at one price, each way worth no more than its input, gains nothing. */
  lemma WorthThereAndBack(q: nat, p: nat, a: nat, x: nat, out: nat, y: nat, back: nat)
    requires q > 0 && x <= a && y <= out
    requires WorthNoMore(q, p, x, out) && WorthNoMore(p, q, y, back)
    ensures p > 0 ==> back <= a
  {
    if p > 0 {
      MulMono(y, out, q * q);
      MulMono(x, a, p * p);
      MulPositive(p, p);
      MulCancel(back, a, p * p);
    }
  }

  /** The rounding is against the pool: at the square-root price 2^62/2^96 one unit of token 0 is worth
      about 2^-68 units of token 1, and this step pays two. */
  lemma Token0InCanOverpay()
    ensures ComputeSwapStep(0x4000_0000_0000_0000, 0x3C00_0000_0000_0000, 2 * Q96, 1, 0)
              == Ok(Step(0x4000_0000_0000_0000 - 1, 1, 2, 0))
    ensures var l, p, x := 2 * Q96, 0x4000_0000_0000_0000, 1;
            2 * Q96 * (l * Q96 + x * p) > 0x1_0000_0000_0000_0000 * (l * x * (p * p))
  {
    OverpayInput();
    OverpayBound();
    OverpayPrice();
    OverpayOutput();
    hide Mul, Div, LessFee, AmountInMax, NextPrice;
  }

  lemma OverpayInput()
    ensures LessFee(1, 0) == Ok(1)
  {
    MulIs(1, PIPS);
    FloorLe(PIPS, PIPS, 1);
    FloorLe(PIPS, PIPS, 2);
    hide Mul, Div;
  }

  lemma OverpayOutput()
    ensures Mul(2 * Q96, 1) == 2 * Q96 && Div(2 * Q96, Q96) == 2
  {
    MulIs(2 * Q96, 1);
    FloorLe(2 * Q96, Q96, 2);
    FloorLe(2 * Q96, Q96, 3);
    hide Mul, Div;
  }

  lemma OverpayBound()
    ensures AmountInMax(0x4000_0000_0000_0000, 0x3C00_0000_0000_0000, 2 * Q96).Ok?
    ensures AmountInMax(0x4000_0000_0000_0000, 0x3C00_0000_0000_0000, 2 * Q96).value > 1
  {
    var p, t, l := 0x4000_0000_0000_0000, 0x3C00_0000_0000_0000, 2 * Q96;
    MulIs(l, 0x400_0000_0000_0000);
    MulIs(0x800000000000000000000000000000000000000, Q96);
    MulIs(p, t);
    FloorLe(0x800000000000000000000000000000000000000000000000000000000000000, 0xF000000000000000000000000000000, 2);
    FloorLe(0x800000000000000000000000000000000000000000000000000000000000000, 0xF000000000000000000000000000000,
        TWO_128);
    hide Mul, Div;
  }

  lemma OverpayPrice()
    ensures NextPrice(0x4000_0000_0000_0000, 0x3C00_0000_0000_0000, 2 * Q96, 1) == Ok(0x4000_0000_0000_0000 - 1)
  {
    var p, l := 0x4000_0000_0000_0000, 2 * Q96;
    MulIs(l, p);
    MulIs(0x8000000000000000000000000000000000000000, Q96);
    MulIs(l, Q96);
    MulIs(1, p);
    FloorLe(0x8000000000000000000000000000000000000000000000000000000000000000,
        0x2000000000000000000000000000000004000000000000000, p - 1);
    FloorLe(0x8000000000000000000000000000000000000000000000000000000000000000,
        0x2000000000000000000000000000000004000000000000000, p);
    hide Mul, Div;
  }

  /** Zero liquidity is never divided by: such a step takes the full branch. */
  lemma ZeroLiquidityTradesNothing(p: nat, t: nat, remaining: nat, fee: nat)
    requires ComputeSwapStep(p, t, 0, remaining, fee).Ok?
    ensures ComputeSwapStep(p, t, 0, remaining, fee) == Ok(Step(t, 0, 0, 0))
  {
    MulIs(0, AbsDiff(p, t));
    MulIs(0, Q96);
    MulIs(0, fee);
    FloorLe(0, Q96, 1);
    FloorLe(0, Q96, 0);
    FloorLe(0, MulOr(p, t, 1), 1);
    FloorLe(PIPS - 1, PIPS, 1);
    FloorLe(PIPS - 1, PIPS, 0);
    hide LessFee, Mul, Div;
  }

  /** A division by zero needs a zero price; a successful step has both prices positive. */
  lemma ZeroDenominatorNeedsZeroPrice(p: nat, t: nat, l: nat, remaining: nat, fee: nat)
    ensures ComputeSwapStep(p, t, l, remaining, fee) == Err(ZeroDenominator) ==> p == 0 || t == 0
    ensures ComputeSwapStep(p, t, l, remaining, fee).Ok? ==> p > 0 && t > 0
  {
    MulIs(p, t);
    MulPositive(p, t);
    hide Mul, Div;
    if LessFee(remaining, fee).Ok? && AmountInMax(p, t, l).Ok? && StopsShort(p, t, l, remaining, fee) {
      var x := LessFee(remaining, fee).value;
      if p > 0 && t > 0 {
        NoZeroDivisorShort(p, t, l, x);
      } else {
        ZeroPriceShort(p, t, l, x);
      }
      hide NextPrice, AmountInMax, LessFee;
    }
  }

  lemma NoZeroDivisorShort(p: nat, t: nat, l: nat, x: nat)
    requires p > 0 && t > 0 && AmountInMax(p, t, l).Ok? && x < AmountInMax(p, t, l).value
    ensures NextPrice(p, t, l, x) != Err(ZeroDenominator)
    ensures NextPrice(p, t, l, x).Ok? && p < t ==> Mul(p, NextPrice(p, t, l, x).value) > 0
  {
    if p >= t {
      ShortMoveDown(p, t, l, x);
      MulIs(l, Q96);
      hide Div, AmountInMax;
    } else {
      ShortMoveUp(p, t, l, x);
      if NextPrice(p, t, l, x).Ok? {
        NextUp(p, t, l, x);
        MulIs(p, NextPrice(p, t, l, x).value);
      }
      hide Mul, Div, AmountInMax;
    }
  }

  lemma ZeroPriceShort(p: nat, t: nat, l: nat, x: nat)
    requires p == 0 || t == 0
    requires AmountInMax(p, t, l).Ok? && x < AmountInMax(p, t, l).value
    ensures p == 0 && p < t
    ensures NextPrice(p, t, l, x).Ok? ==> Mul(p, NextPrice(p, t, l, x).value) == 0
  {
    if p >= t {
      ShortMoveDown(p, t, l, x);
    } else if NextPrice(p, t, l, x).Ok? {
      MulIs(0, NextPrice(p, t, l, x).value);
    }
    hide NextPrice, AmountInMax, Mul;
  }

  /** Crossing a price range and crossing it back is zero-sum before fees: each full step
      pays out exactly what the opposite one takes in. */
  lemma FullStepReverses(p: nat, t: nat, l: nat, feeThere: nat, feeBack: nat)
    requires AmountInMax(p, t, l).Ok? && AmountInMax(t, p, l).Ok?
    requires FullStep(p, t, l, AmountInMax(p, t, l).value, feeThere).Ok?
    requires FullStep(t, p, l, AmountInMax(t, p, l).value, feeBack).Ok?
    requires p != t
    ensures FullStep(p, t, l, AmountInMax(p, t, l).value, feeThere).value.amountOut == AmountInMax(t, p, l).value
    ensures FullStep(t, p, l, AmountInMax(t, p, l).value, feeBack).value.amountOut == AmountInMax(p, t, l).value
  {
    MulIs(p, t);
    MulIs(t, p);
    hide Mul, Div;
  }

  // ----- what a full step charges and pays

  /** Input and fee of a full step. */
  function FullCharge(p: nat, t: nat, l: nat, fee: nat): nat
    requires AmountInMax(p, t, l).Ok?
  {
    var m := AmountInMax(p, t, l).value;
    m + Div(Mul(m, fee) + (PIPS - 1), PIPS)
  }

  /** The input is used up exactly when the step stops short or the way costs all of it. */
  lemma StepUsesAllIff(p: nat, t: nat, l: nat, remaining: nat, fee: nat)
    requires ComputeSwapStep(p, t, l, remaining, fee).Ok?
    ensures var s := ComputeSwapStep(p, t, l, remaining, fee).value;
            s.amountIn + s.fee == remaining <==>
            StopsShort(p, t, l, remaining, fee) || FullCharge(p, t, l, fee) == remaining
  {
    var m := AmountInMax(p, t, l).value;
    assert FullCharge(p, t, l, fee) == m + Div(Mul(m, fee) + (PIPS - 1), PIPS) by { hide AmountInMax, Mul, Div; }
    hide *;
    StepCharges(p, t, l, remaining, fee);
    StepCases(p, t, l, remaining, fee);
    if !StopsShort(p, t, l, remaining, fee) { FullStepFacts(p, t, l, m, fee); }
  }

  /** L·|P-T|, the amount of token 1 between two prices in units of 2^-96. */
  function Distance(l: nat, p: nat, t: nat): nat { Mul(l, AbsDiff(p, t)) }

  /** A full step to the target moves `one` of token 1 and `zero` of token 0; where the products
      fit 256 bits both are the exact amounts rounded down. */
  ghost predicate ExactAmounts(l: nat, p: nat, t: nat, one: nat, zero: nat) {
    var lm := Distance(l, p, t);
    && (lm < TWO_256 ==> one * Q96 <= lm < (one + 1) * Q96)
    && (lm * Q96 < TWO_256 && p * t < TWO_256 ==> zero * (p * t) <= lm * Q96 < (zero + 1) * (p * t))
  }

  /** What a full step charges and pays are the exact amounts, rounded down, and its fee is
      rounded up. */
  lemma FullStepIsExact(p: nat, t: nat, l: nat, remaining: nat, fee: nat)
    requires ComputeSwapStep(p, t, l, remaining, fee).Ok?
    requires !StopsShort(p, t, l, remaining, fee)
    ensures var s := ComputeSwapStep(p, t, l, remaining, fee).value;
            && (if p >= t then ExactAmounts(l, p, t, s.amountOut, s.amountIn)
                else ExactAmounts(l, p, t, s.amountIn, s.amountOut))
            && (s.fee - 1) * PIPS < s.amountIn * fee <= s.fee * PIPS
  {
    hide *;
    var m := AmountInMax(p, t, l).value;
    var s := ComputeSwapStep(p, t, l, remaining, fee).value;
    StepCases(p, t, l, remaining, fee);
    FullStepFacts(p, t, l, m, fee);
    FullAmounts(p, t, l, m, fee);
    AmountsAreExact(l, p, t);
    FeeRoundsUp(m, fee);
  }

  lemma FullAmounts(p: nat, t: nat, l: nat, m: nat, fee: nat)
    requires AmountInMax(p, t, l) == Ok(m) && FullStep(p, t, l, m, fee).Ok?
    ensures Delta0(l, p, t).Ok?
    ensures var out := FullStep(p, t, l, m, fee).value.amountOut;
            if p >= t then m == Delta0(l, p, t).value && out == Delta1(l, p, t)
            else m == Delta1(l, p, t) && out == Delta0(l, p, t).value
  {
    hide Delta0, Delta1, Mul, Div;
  }

  lemma AmountsAreExact(l: nat, p: nat, t: nat)
    requires Delta0(l, p, t).Ok?
    ensures ExactAmounts(l, p, t, Delta1(l, p, t), Delta0(l, p, t).value)
  {
    var lm := Distance(l, p, t);
    MulIs(lm, Q96);
    MulIs(p, t);
    Delta0Is(l, p, t);
    Delta1Is(l, p, t);
    hide Delta0, Delta1, Distance, Mul, Div;
    if lm < TWO_256 { DivIs(lm, Q96); }
    if lm * Q96 < TWO_256 && p * t < TWO_256 { DivIs(lm * Q96, p * t); }
  }

  lemma Delta1Is(l: nat, p: nat, t: nat)
    ensures var lm := Distance(l, p, t); Delta1(l, p, t) == Div(if lm < TWO_256 then lm else 0, Q96)
  {
    hide Mul, Div;
  }

  lemma Delta0Is(l: nat, p: nat, t: nat)
    requires Delta0(l, p, t).Ok?
    ensures MulOr(p, t, 1) > 0
    ensures var moved := Mul(Distance(l, p, t), Q96);
            Delta0(l, p, t).value == Div(if moved < TWO_256 then moved else 0, MulOr(p, t, 1))
  {
    var lm := Distance(l, p, t);
    MulIs(0, Q96);
    MulIs(lm, Q96);
    hide Mul, Div;
  }

  lemma FeeRoundsUp(m: nat, fee: nat)
    ensures var f := Div(Mul(m, fee) + (PIPS - 1), PIPS); (f - 1) * PIPS < m * fee <= f * PIPS
  {
    MulIs(m, fee);
    hide Mul;
    DivIs(m * fee + (PIPS - 1), PIPS);
  }

  /** The least input, fee included, that is enough for a full step charging `m` before fees.  At a
      fee of 100% none below 2^128 is, unless nothing is charged. */
  function Needed(m: nat, fee: nat): nat
    requires fee <= PIPS
  {
    if m == 0 then 0
    else if fee == PIPS then TWO_128
    else Div(Mul(m, PIPS) + (PIPS - fee - 1), PIPS - fee)
  }

  /** A step is full exactly from there on. */
  lemma StopsShortIff(p: nat, t: nat, l: nat, remaining: nat, fee: nat)
    requires LessFee(remaining, fee).Ok? && AmountInMax(p, t, l).Ok? && remaining < TWO_128
    ensures fee <= PIPS
    ensures StopsShort(p, t, l, remaining, fee) <==> remaining < Needed(AmountInMax(p, t, l).value, fee)
  {
    var m := AmountInMax(p, t, l).value;
    LessFeeBounds(remaining, fee);
    var x := LessFee(remaining, fee).value;
    assert StopsShort(p, t, l, remaining, fee) <==> x < m by { hide LessFee, AmountInMax; }
    NeededIs(m, fee);
    hide *;
    if 0 < m && fee < PIPS {
      EnoughIff(PIPS, PIPS - fee, remaining, x, m, Needed(m, fee));
    }
    if 0 < m && fee == PIPS && x >= 1 { MulMono(1, x, PIPS); }
  }

  lemma NeededIs(m: nat, fee: nat)
    requires fee <= PIPS
    ensures PIPS > 0
    ensures var n := Needed(m, fee);
            if m == 0 then n == 0
            else if fee == PIPS then n == TWO_128
            else (n - 1) * (PIPS - fee) < m * PIPS <= n * (PIPS - fee)
  {
    if m > 0 && fee < PIPS {
      CeilOf(Mul(m, PIPS), PIPS - fee);
      MulIs(m, PIPS);
      hide Mul, Div;
    }
  }

  lemma CeilOf(n: nat, d: nat)
    requires d > 0
    ensures var q := Div(n + (d - 1), d); (q - 1) * d < n <= q * d
  {
    DivIs(n + (d - 1), d);
    var q := Div(n + (d - 1), d);
    hide Div;
    assert (q - 1) * d == q * d - d && (q + 1) * d == q * d + d;
  }

  lemma EnoughIff(unit: nat, share: nat, r: nat, x: nat, m: nat, n: nat)
    requires unit > 0 && share > 0 && x * unit <= r * share < (x + 1) * unit
    requires (n - 1) * share < m * unit <= n * share
    ensures x < m <==> r < n
  {
    if x < m { MulMono(x + 1, m, unit); } else { MulMono(m, x, unit); }
    if r < n { MulMono(r, n - 1, share); } else { MulMono(n, r, share); }
  }

  /** No whole unit of input is due on the way to the target, or the product that measures it
      leaves 256 bits. */
  predicate FreeRide(p: nat, t: nat, l: nat) {
    var lm := Distance(l, p, t);
    if p >= t then Mul(lm, Q96) >= TWO_256 || Mul(lm, Q96) < MulOr(p, t, 1)
    else lm >= TWO_256 || lm < Q96
  }

  /** That is exactly when a step charges nothing. */
  lemma StepIsFreeIff(p: nat, t: nat, l: nat, remaining: nat, fee: nat)
    requires remaining > 0 && ComputeSwapStep(p, t, l, remaining, fee).Ok?
    ensures var s := ComputeSwapStep(p, t, l, remaining, fee).value;
            s.amountIn + s.fee == 0 <==> FreeRide(p, t, l)
  {
    hide *;
    var m := AmountInMax(p, t, l).value;
    FreeMaximum(p, t, l);
    StepCases(p, t, l, remaining, fee);
    if LessFee(remaining, fee).value >= m {
      FullStepFacts(p, t, l, m, fee);
      NoFeeOnNothing(fee);
    } else {
      ShortStepFacts(p, t, l, LessFee(remaining, fee).value, remaining);
    }
  }

  lemma FreeMaximum(p: nat, t: nat, l: nat)
    requires AmountInMax(p, t, l).Ok?
    ensures AmountInMax(p, t, l).value == 0 <==> FreeRide(p, t, l)
  {
    var lm := Distance(l, p, t);
    if p >= t {
      Delta0Is(l, p, t);
      var moved := if Mul(lm, Q96) < TWO_256 then Mul(lm, Q96) else 0;
      FloorLe(moved, MulOr(p, t, 1), 1);
      hide Delta0, Distance, Mul, MulOr, Div;
    } else {
      Delta1Is(l, p, t);
      FloorLe(if lm < TWO_256 then lm else 0, Q96, 1);
      hide Delta1, Distance, Mul, Div;
    }
  }

  lemma NoFeeOnNothing(fee: nat)
    ensures Div(Mul(0, fee) + (PIPS - 1), PIPS) == 0
  {
    MulIs(0, fee);
    FloorLe(PIPS - 1, PIPS, 1);
  }

  /** At price 1 and a liquidity of 2^65 or more the way down to the lower bound is such a ride. */
  lemma FreeRideAtPriceOne(t: nat, l: nat)
    requires t <= 0x2_0000_0000 && l >= 0x2_0000_0000_0000_0000
    ensures FreeRide(Q96, t, l)
  {
    var d := Q96 - t;
    MulIs(l, d);
    MulIs(l * d, Q96);
    MulMono(0x2_0000_0000_0000_0000, l, d);
    WideEnough(l * d);
    hide Mul, MulOr;
  }

  lemma WideEnough(lm: nat)
    requires lm >= 0x2_0000_0000_0000_0000 * (Q96 - 0x2_0000_0000)
    ensures lm * Q96 >= TWO_256
  {
    MulMono(0x2_0000_0000_0000_0000 * (Q96 - 0x2_0000_0000), lm, Q96);
  }

  /** Where the way costs something, one unit of input goes into the fee and moves nothing. */
  lemma OneUnitStopsShort(p: nat, t: nat, l: nat, fee: nat)
    requires 0 < fee <= PIPS && 0 < p < TWO_128 && AmountInMax(p, t, l).Ok? && AmountInMax(p, t, l).value > 0
    requires p >= t ==> Mul(Mul(l, p), Q96) < TWO_256
    ensures ComputeSwapStep(p, t, l, 1, fee) == Ok(Step(p, 0, 0, 1))
  {
    OneUnitLessFee(fee);
    if p >= t {
      ShortMoveDown(p, t, l, 0);
      StayDown(p, t, l);
    } else {
      ShortMoveUp(p, t, l, 0);
      StayUp(p, t, l);
    }
    hide LessFee, AmountInMax, NextPrice, PayoutDown, PayoutUp, Mul, Div;
  }

  lemma OneUnitLessFee(fee: nat)
    requires 0 < fee <= PIPS
    ensures LessFee(1, fee) == Ok(0)
  {
    MulIs(1, PIPS - fee);
    FloorLe(PIPS - fee, PIPS, 1);
    hide Mul, Div;
  }

  lemma StayDown(p: nat, t: nat, l: nat)
    requires p >= t && l > 0 && p > 0 && Mul(Mul(l, p), Q96) < TWO_256
    ensures NextPrice(p, t, l, 0) == Ok(p) && PayoutDown(p, l, p) == Ok(0)
  {
    StayDownPrice(p, t, l);
    NoPayoutDown(p, l);
    hide *;
  }

  lemma StayDownPrice(p: nat, t: nat, l: nat)
    requires p >= t && l > 0 && p > 0 && Mul(Mul(l, p), Q96) < TWO_256
    ensures NextPrice(p, t, l, 0) == Ok(p)
  {
    StayDownFits(Q96, p, l);
    MulIs(0, p);
    hide Mul, Div;
  }

  lemma NoPayoutDown(p: nat, l: nat)
    ensures PayoutDown(p, l, p) == Ok(0)
  {
    MulIs(l, 0);
    FloorLe(0, Q96, 1);
    hide Mul, Div;
  }

  lemma StayDownFits(q: nat, p: nat, l: nat)
    requires l > 0 && p > 0
    ensures q > 0 ==> Mul(l, q) > 0 && Div(Mul(Mul(l, p), q), Mul(l, q)) == p
    ensures q > 0 ==> Mul(l, p) <= Mul(Mul(l, p), q) && Mul(l, q) <= Mul(Mul(l, p), q)
  {
    hide Mul, Div;
    MulIs(l, q);
    MulIs(l, p);
    MulIs(l * p, q);
    if q > 0 {
      var lq := l * q;
      MulMono(1, l, q);
      assert l * p * q == p * lq;
      FloorLe(p * lq, lq, p);
      FloorLe(p * lq, lq, p + 1);
      assert (p + 1) * lq == p * lq + lq;
      MulMono(1, q, l * p);
      MulMono(1, p, lq);
    }
  }

  lemma StayUp(p: nat, t: nat, l: nat)
    requires p < t && l > 0 && 0 < p < TWO_128
    ensures NextPrice(p, t, l, 0) == Ok(p) && PayoutUp(p, l, p) == Ok(0)
  {
    MulIs(0, Q96);
    MulIs(l, 0);
    MulIs(p, p);
    MulPositive(p, p);
    SquareFits(p);
    FloorLe(0, l, 1);
    FloorLe(0, p * p, 1);
    hide Mul, Div;
  }

  lemma SquareFits(p: nat)
    requires p < TWO_128
    ensures p * p < TWO_256
  {
    ProductBelow(p, p);
  }

  /** The way to the target costs nothing exactly then. */
  lemma FullChargeIsFreeIff(p: nat, t: nat, l: nat, fee: nat)
    requires AmountInMax(p, t, l).Ok?
    ensures FullCharge(p, t, l, fee) == 0 <==> FreeRide(p, t, l)
  {
    FreeMaximum(p, t, l);
    NoFeeOnNothing(fee);
    hide AmountInMax, FreeRide, Div, Mul;
  }

  /** And exactly when a free step still pays something out. */
  lemma StepPaysForNothingIff(p: nat, t: nat, l: nat, remaining: nat, fee: nat)
    requires remaining > 0 && ComputeSwapStep(p, t, l, remaining, fee).Ok?
    ensures var s := ComputeSwapStep(p, t, l, remaining, fee).value;
            var lm := Distance(l, p, t);
            s.amountIn + s.fee == 0 && s.amountOut > 0 <==>
              && FreeRide(p, t, l)
              && (if p >= t then Q96 <= lm < TWO_256 else MulOr(p, t, 1) <= Mul(lm, Q96) < TWO_256)
  {
    hide *;
    var m := AmountInMax(p, t, l).value;
    var s := ComputeSwapStep(p, t, l, remaining, fee).value;
    StepIsFreeIff(p, t, l, remaining, fee);
    FreeMaximum(p, t, l);
    StepCases(p, t, l, remaining, fee);
    if FreeRide(p, t, l) {
      FullStepFacts(p, t, l, m, fee);
      FullAmounts(p, t, l, m, fee);
      PaysSomething(p, t, l);
    }
  }

  lemma PaysSomething(p: nat, t: nat, l: nat)
    requires Delta0(l, p, t).Ok?
    ensures var lm := Distance(l, p, t);
            && (Delta1(l, p, t) > 0 <==> Q96 <= lm < TWO_256)
            && (Delta0(l, p, t).value > 0 <==> MulOr(p, t, 1) <= Mul(lm, Q96) < TWO_256)
  {
    var lm := Distance(l, p, t);
    Delta0Is(l, p, t);
    Delta1Is(l, p, t);
    FloorLe(if lm < TWO_256 then lm else 0, Q96, 1);
    FloorLe(if Mul(lm, Q96) < TWO_256 then Mul(lm, Q96) else 0, MulOr(p, t, 1), 1);
    hide Delta0, Delta1, Distance, Mul, MulOr, Div;
  }

  /** It happens at ordinary magnitudes: from the square-root price 2^14 down to 2^-64 at a
      liquidity of 2^64, nothing is charged and 2^78 - 1 units of token 1 are paid out. */
  lemma FullStepCanBeFree()
    ensures var p, t, l := 0x4000_0000_0000_0000_0000_0000_0000, 0x1_0000_0000, 0x1_0000_0000_0000_0000;
            ComputeSwapStep(p, t, l, 1_000_000, 3000) == Ok(Step(t, 0, 0x3FFF_FFFF_FFFF_FFFF_FFFF, 0))
  {
    var p, t, l := 0x4000_0000_0000_0000_0000_0000_0000, 0x1_0000_0000, 0x1_0000_0000_0000_0000;
    FreeInput();
    FreeDistance();
    Delta1Is(l, p, t);
    FreeBound();
    NoFeeOnNothing(3000);
    MulIs(0, 3000);
    hide Mul, Div, LessFee, Delta0, Delta1, Distance, AmountInMax;
    assert AmountInMax(p, t, l) == Ok(0);
  }

  lemma FreeInput()
    ensures LessFee(1_000_000, 3000) == Ok(997_000)
  {
    MulIs(1_000_000, 997_000);
    FloorLe(997_000_000_000, PIPS, 997_000);
    FloorLe(997_000_000_000, PIPS, 997_001);
    hide Mul, Div;
  }

  lemma FreeDistance()
    ensures var lm := Distance(0x1_0000_0000_0000_0000, 0x4000_0000_0000_0000_0000_0000_0000, 0x1_0000_0000);
            && lm == 0x3FFF_FFFF_FFFF_FFFF_FFFF * Q96
            && Mul(lm, Q96) >= TWO_256 && Div(lm, Q96) == 0x3FFF_FFFF_FFFF_FFFF_FFFF
  {
    var lm := 0x3FFF_FFFF_FFFF_FFFF_FFFF * Q96;
    MulIs(0x1_0000_0000_0000_0000, 0x4000_0000_0000_0000_0000_0000_0000 - 0x1_0000_0000);
    MulIs(lm, Q96);
    FloorLe(lm, Q96, 0x3FFF_FFFF_FFFF_FFFF_FFFF);
    FloorLe(lm, Q96, 0x4000_0000_0000_0000_0000);
    hide Mul, Div;
  }

  lemma FreeBound()
    ensures var p, t, l := 0x4000_0000_0000_0000_0000_0000_0000, 0x1_0000_0000, 0x1_0000_0000_0000_0000;
            AmountInMax(p, t, l) == Ok(0)
  {
    var p, t, l := 0x4000_0000_0000_0000_0000_0000_0000, 0x1_0000_0000, 0x1_0000_0000_0000_0000;
    MulIs(p, t);
    FreeDistance();
    FreeMaximumOk(p, t, l);
  }

  lemma FreeMaximumOk(p: nat, t: nat, l: nat)
    requires p >= t && MulOr(p, t, 1) > 0 && Mul(Distance(l, p, t), Q96) >= TWO_256
    ensures AmountInMax(p, t, l) == Ok(0)
  {
    var lm := Distance(l, p, t);
    MulIs(0, Q96);
    FloorLe(0, MulOr(p, t, 1), 1);
    hide Mul, Div;
    assert MulOr(MulOr(l, AbsDiff(p, t), 0), Q96, 0) == 0;
  }
}
