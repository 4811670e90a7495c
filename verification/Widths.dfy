/** When a V3 step, and a whole V3 quote, goes through without a panic: the widths of
    `compute_swap_step` (pricing/src/amm.rs) in plain arithmetic, on products, floor quotients (which
    `MulIs` and `DivIs` pin down) and constants. */
module Widths {
  import opened Common
  import opened ConstantProduct
  import opened ConcentratedLiquidity
  import opened SwapLoop

  /** A product that leaves 256 bits is replaced by its fallback. */
  function Kept(n: nat, fallback: nat): nat { if n < TWO_256 then n else fallback }

  function Distance(p: nat, t: nat): nat { if p >= t then p - t else t - p }

  lemma KeptPositive(x: nat, y: nat)
    ensures Mul(x, y) > 0 <==> x > 0 && y > 0
    ensures Kept(Mul(x, y), 1) > 0 <==> x > 0 && y > 0
  {
    MulIs(x, y);
    MulPositive(x, y);
    hide Mul;
  }

  /** The way from `p` to `t` in token 0, and in token 1. */
  function Way0(l: nat, p: nat, t: nat): nat
    requires p > 0 && t > 0
  {
    KeptPositive(p, t);
    Div(Kept(Mul(Mul(l, Distance(p, t)), Q96), 0), Kept(Mul(p, t), 1))
  }

  function Way1(l: nat, p: nat, t: nat): nat { Div(Kept(Mul(l, Distance(p, t)), 0), Q96) }

  function ChargedWay(l: nat, p: nat, t: nat): nat
    requires p > 0 && t > 0
  {
    if p >= t then Way0(l, p, t) else Way1(l, p, t)
  }

  function PaidWay(l: nat, p: nat, t: nat): nat
    requires p > 0 && t > 0
  {
    if p >= t then Way1(l, p, t) else Way0(l, p, t)
  }

  function AfterFee(remaining: nat, fee: nat): nat
    requires fee <= 1_000_000
  {
    Div(Mul(remaining, 1_000_000 - fee), 1_000_000)
  }

  /** The two sides of the price division. */
  function PriceTop(l: nat, p: nat): nat { Mul(Mul(l, p), Q96) }

  function Grown(l: nat, p: nat, x: nat): nat { Mul(l, Q96) + Mul(x, p) }

  /** Where an input `x` that stops short takes the price, down or up. */
  function PriceBelow(l: nat, p: nat, x: nat): nat
    requires Grown(l, p, x) > 0
  {
    Div(PriceTop(l, p), Grown(l, p, x))
  }

  function PriceAbove(l: nat, p: nat, x: nat): nat
    requires l > 0
  {
    p + Div(Mul(x, Q96), l)
  }

  predicate InputFits(remaining: nat, fee: nat) {
    fee <= 1_000_000 && Mul(remaining, 1_000_000 - fee) < TWO_128
  }

  predicate FullFits(l: nat, p: nat, t: nat, fee: nat)
    requires p > 0 && t > 0
  {
    PaidWay(l, p, t) < TWO_128 && Mul(ChargedWay(l, p, t), fee) < TWO_128
  }

  predicate DownFits(l: nat, p: nat, x: nat) { PriceTop(l, p) < TWO_256 && Grown(l, p, x) < TWO_256 }

  /** The two sides of the quotient that is paid out when the price rises from `p` to `next`. */
  predicate PaidFits(moved: nat, prices: nat) { moved < TWO_256 && prices < TWO_256 && moved < TWO_128 * prices }

  predicate UpFits(l: nat, p: nat, x: nat) {
    l > 0 &&
    var next := PriceAbove(l, p, x);
    PaidFits(Mul(Mul(l, next - p), Q96), Mul(p, next))
  }

  /** Everything that has to fit its width for a step to go through. */
  predicate StepFits(p: nat, t: nat, l: nat, remaining: nat, fee: nat) {
    p > 0 && t > 0 && InputFits(remaining, fee) && ChargedWay(l, p, t) < TWO_128 &&
    if AfterFee(remaining, fee) >= ChargedWay(l, p, t) then FullFits(l, p, t, fee)
    else if p >= t then DownFits(l, p, AfterFee(remaining, fee))
    else UpFits(l, p, AfterFee(remaining, fee))
  }

  /** The words themselves. */
  lemma WordSizes()
    ensures Q96 == 0x1_0000_0000 * 0x1_0000_0000 * 0x1_0000_0000 && TWO_128 == Q96 * 0x1_0000_0000
    ensures TWO_256 == TWO_128 * TWO_128 && 2 * TWO_127 == TWO_128
    ensures PIPS == 1_000_000 && BPS == 10_000 && MIN_TICK == -887272 && MAX_TICK == 887272
  {
  }

  // ----- the step in these terms

  lemma LessFeeIs(remaining: nat, fee: nat)
    ensures LessFee(remaining, fee).Ok? <==> InputFits(remaining, fee)
    ensures InputFits(remaining, fee) ==> LessFee(remaining, fee).value == AfterFee(remaining, fee)
  {
    hide Mul, Div;
  }

  lemma MulOrKept(x: nat, y: nat, fallback: nat)
    ensures MulOr(x, y, fallback) == Kept(Mul(x, y), fallback)
  {
    hide Mul;
  }

  lemma KeptTwice(lm: nat, q: nat)
    requires q > 0
    ensures Kept(Mul(Kept(lm, 0), q), 0) == Kept(Mul(lm, q), 0)
  {
    MulIs(lm, q);
    MulIs(0, q);
    hide Mul;
    MulMono(1, q, lm);
  }

  lemma Way1Is(l: nat, p: nat, t: nat)
    ensures Delta1(l, p, t) == Way1(l, p, t)
  {
    MulOrKept(l, Distance(p, t), 0);
    hide MulOr, Mul, Div, Kept;
  }

  lemma Way0Is(l: nat, p: nat, t: nat)
    ensures Delta0(l, p, t).Ok? <==> p > 0 && t > 0
    ensures p > 0 && t > 0 ==> Delta0(l, p, t).value == Way0(l, p, t)
  {
    var lm := Mul(l, Distance(p, t));
    MulOrKept(l, Distance(p, t), 0);
    MulOrKept(Kept(lm, 0), Q96, 0);
    KeptTwice(lm, Q96);
    MulOrKept(p, t, 1);
    KeptPositive(p, t);
    hide MulOr, Mul, Div, Kept;
  }

  lemma ChargedIs(l: nat, p: nat, t: nat)
    requires p > 0 && t > 0
    ensures AmountInMax(p, t, l).Ok? <==> ChargedWay(l, p, t) < TWO_128
    ensures AmountInMax(p, t, l).Ok? ==> AmountInMax(p, t, l).value == ChargedWay(l, p, t)
  {
    Way0Is(l, p, t);
    Way1Is(l, p, t);
    hide Delta0, Delta1, Way0, Way1;
  }

  function RoundedUp(product: nat): nat { Div(product + 999_999, 1_000_000) }

  lemma FullIs(l: nat, p: nat, t: nat, fee: nat)
    requires p > 0 && t > 0
    ensures var m := ChargedWay(l, p, t);
            FullStep(p, t, l, m, fee) ==
            if !FullFits(l, p, t, fee) then Err(Overflow)
            else Ok(Step(t, m, PaidWay(l, p, t), RoundedUp(Mul(m, fee))))
  {
    var m := ChargedWay(l, p, t);
    PaidIs(l, p, t);
    FullWidths(l, p, t, m, fee);
    RoundedUpIs(m, fee);
    FullFitsIs(l, p, t, fee);
    hide *;
  }

  /** What a full step pays, before its width is checked. */
  function PaidDelta(p: nat, t: nat, l: nat): Result<nat> { if p >= t then Ok(Delta1(l, p, t)) else Delta0(l, p, t) }

  lemma PaidIs(l: nat, p: nat, t: nat)
    requires p > 0 && t > 0
    ensures PaidDelta(p, t, l) == Ok(PaidWay(l, p, t))
  {
    Way0Is(l, p, t);
    Way1Is(l, p, t);
    hide Delta0, Delta1, Way0, Way1;
  }

  lemma FullFitsIs(l: nat, p: nat, t: nat, fee: nat)
    requires p > 0 && t > 0
    ensures FullFits(l, p, t, fee) <==> PaidWay(l, p, t) < TWO_128 && Mul(ChargedWay(l, p, t), fee) < TWO_128
  {
    hide PaidWay, ChargedWay;
  }

  lemma FullWidths(l: nat, p: nat, t: nat, m: nat, fee: nat)
    requires PaidDelta(p, t, l).Ok?
    ensures var paid := PaidDelta(p, t, l).value;
            FullStep(p, t, l, m, fee) ==
            if paid < TWO_128 && Mul(m, fee) < TWO_128
            then Ok(Step(t, m, paid, Div(Mul(m, fee) + (PIPS - 1), PIPS))) else Err(Overflow)
  {
    hide Delta0, Delta1, Mul, Div;
  }

  lemma RoundedUpIs(m: nat, fee: nat)
    ensures Div(Mul(m, fee) + (PIPS - 1), PIPS) == RoundedUp(Mul(m, fee))
  {
    hide Mul, Div;
  }

  lemma PriceBelowIs(l: nat, p: nat, t: nat, x: nat)
    requires p >= t && l > 0 && p > 0
    ensures Grown(l, p, x) > 0
    ensures NextPrice(p, t, l, x).Ok? <==> DownFits(l, p, x)
    ensures DownFits(l, p, x) ==> NextPrice(p, t, l, x).value == PriceBelow(l, p, x)
  {
    assert Q96 > 0;
    StayDownFits(Q96, p, l);
    NextDownWidths(l, p, t, x);
    DownProducts(l, p, x);
    DownFitsIs(l, p, x);
    hide *;
  }

  lemma DownFitsIs(l: nat, p: nat, x: nat)
    ensures DownFits(l, p, x) <==> PriceTop(l, p) < TWO_256 && Grown(l, p, x) < TWO_256
    ensures Grown(l, p, x) > 0 ==> PriceBelow(l, p, x) == Div(PriceTop(l, p), Grown(l, p, x))
  {
    hide PriceTop, Grown;
  }

  lemma NextDownWidths(l: nat, p: nat, t: nat, x: nat)
    requires p >= t && Mul(l, Q96) > 0 && Mul(l, p) <= Mul(Mul(l, p), Q96)
    ensures NextPrice(p, t, l, x).Ok? <==> Mul(Mul(l, p), Q96) < TWO_256 && Mul(l, Q96) + Mul(x, p) < TWO_256
    ensures NextPrice(p, t, l, x).Ok? ==>
              NextPrice(p, t, l, x).value == Div(Mul(Mul(l, p), Q96), Mul(l, Q96) + Mul(x, p))
  {
    hide Mul, Div;
  }

  lemma DownProducts(l: nat, p: nat, x: nat)
    requires Mul(l, Q96) > 0
    ensures Grown(l, p, x) > 0
    ensures Mul(Mul(l, p), Q96) == PriceTop(l, p) && Mul(l, Q96) + Mul(x, p) == Grown(l, p, x)
  {
    hide Mul;
  }

  lemma PayoutBelowIs(l: nat, p: nat, next: nat)
    requires next <= p && PriceTop(l, p) < TWO_256
    ensures PayoutDown(p, l, next) == Ok(Div(Mul(l, p - next), Q96))
  {
    BelowTop(Q96, l, p, p - next);
    FloorLe(Mul(l, p - next), Q96, TWO_128);
    assert Mul(l, p - next) < TWO_128 * Q96 by { hide Mul, Div; }
    hide Mul, Div;
  }

  lemma BelowTop(q: nat, l: nat, p: nat, d: nat)
    requires d <= p && q > 0
    ensures Mul(l, d) * q <= Mul(Mul(l, p), q) && Mul(l, d) <= Mul(Mul(l, p), q)
  {
    hide Mul;
    MulIs(l, d);
    MulIs(l, p);
    MulIs(l * p, q);
    MulMono(d, p, l);
    MulMono(l * d, l * p, q);
    MulMono(1, q, l * d);
  }

  lemma PriceAboveIs(l: nat, p: nat, t: nat, x: nat)
    requires p < t < TWO_256 && l > 0 && x < TWO_128 && x * Q96 <= l * (t - p)
    ensures NextPrice(p, t, l, x) == Ok(PriceAbove(l, p, x))
    ensures PriceAbove(l, p, x) <= t
  {
    MulIs(x, Q96);
    MoveBelow(l, t - p, x * Q96);
    NextUpWidths(l, p, t, x);
    hide NextPrice, Mul, Div;
  }

  lemma MoveBelow(l: nat, gap: nat, moved: nat)
    requires l > 0 && moved <= l * gap
    ensures Div(moved, l) <= gap
  {
    hide Div;
    FloorLe(moved, l, gap + 1);
    assert (gap + 1) * l == l * gap + l;
  }

  lemma NextUpWidths(l: nat, p: nat, t: nat, x: nat)
    requires p < t && l > 0 && Mul(x, Q96) < TWO_256 && p + Div(Mul(x, Q96), l) < TWO_256
    ensures NextPrice(p, t, l, x) == Ok(p + Div(Mul(x, Q96), l))
  {
    hide Mul, Div;
  }

  lemma PayoutAboveIs(l: nat, p: nat, next: nat)
    requires next >= p > 0
    ensures Mul(p, next) > 0
    ensures var (moved, prices) := (Mul(Mul(l, next - p), Q96), Mul(p, next));
            && (PayoutUp(p, l, next).Ok? <==> PaidFits(moved, prices))
            && (PayoutUp(p, l, next).Ok? ==> PayoutUp(p, l, next).value == Div(moved, prices))
  {
    assert Q96 > 0;
    hide *;
    UpProducts(Q96, l, next - p, p, next);
    PayoutUpWidths(l, p, next);
    PaidFitsIff(Mul(Mul(l, next - p), Q96), Mul(p, next));
  }

  lemma PaidFitsIff(moved: nat, prices: nat)
    requires prices > 0
    ensures PaidFits(moved, prices) <==> moved < TWO_256 && prices < TWO_256 && Div(moved, prices) < TWO_128
  {
    FloorLe(moved, prices, TWO_128);
    hide Div;
  }

  lemma PayoutUpWidths(l: nat, p: nat, next: nat)
    requires next >= p && Mul(p, next) > 0 && Mul(l, next - p) <= Mul(Mul(l, next - p), Q96)
    ensures var (moved, den) := (Mul(Mul(l, next - p), Q96), Mul(p, next));
            && (PayoutUp(p, l, next).Ok? <==> moved < TWO_256 && den < TWO_256 && Div(moved, den) < TWO_128)
            && (PayoutUp(p, l, next).Ok? ==> PayoutUp(p, l, next).value == Div(moved, den))
  {
    hide Mul, Div;
  }

  lemma UpProducts(q: nat, l: nat, m: nat, p: nat, next: nat)
    requires q > 0 && p > 0 && next > 0
    ensures Mul(p, next) > 0 && Mul(l, m) <= Mul(Mul(l, m), q)
  {
    hide Mul;
    MulIs(l, m);
    MulIs(l * m, q);
    MulMono(1, q, l * m);
    KeptPositive(p, next);
  }

  // ----- the whole step

  /** The step that an input `x` makes when it stops short on the way down. */
  predicate IsShortDown(p: nat, l: nat, remaining: nat, x: nat, s: Step) {
    && s.amountIn == x && s.fee == remaining - x
    && Grown(l, p, x) > 0 && s.next == PriceBelow(l, p, x)
    && s.next <= p && s.amountOut == Div(Mul(l, p - s.next), Q96)
  }

  /** And on the way up. */
  predicate IsShortUp(p: nat, l: nat, remaining: nat, x: nat, s: Step) {
    && s.amountIn == x && s.fee == remaining - x
    && l > 0 && s.next == PriceAbove(l, p, x)
    && Mul(p, s.next) > 0 && s.amountOut == Div(Mul(Mul(l, s.next - p), Q96), Mul(p, s.next))
  }

  lemma ShortWidths(p: nat, t: nat, l: nat, x: nat, remaining: nat)
    requires x <= remaining
    ensures ShortStep(p, t, l, x, remaining).Ok? <==>
            NextPrice(p, t, l, x).Ok? &&
            var next := NextPrice(p, t, l, x).value;
            (if p >= t then PayoutDown(p, l, next) else PayoutUp(p, l, next)).Ok?
  {
    hide NextPrice, PayoutDown, PayoutUp;
  }

  lemma ShortDownMeans(p: nat, l: nat, remaining: nat, x: nat, s: Step)
    ensures IsShortDown(p, l, remaining, x, s) <==>
            && s.amountIn == x && s.fee == remaining - x
            && Grown(l, p, x) > 0 && s.next == PriceBelow(l, p, x)
            && s.next <= p && s.amountOut == Div(Mul(l, p - s.next), Q96)
  {
    hide Grown, PriceBelow, Mul, Div;
  }

  lemma ShortUpMeans(p: nat, l: nat, remaining: nat, x: nat, s: Step)
    ensures IsShortUp(p, l, remaining, x, s) <==>
            && s.amountIn == x && s.fee == remaining - x
            && l > 0 && s.next == PriceAbove(l, p, x)
            && Mul(p, s.next) > 0 && s.amountOut == Div(Mul(Mul(l, s.next - p), Q96), Mul(p, s.next))
  {
    hide PriceAbove, Mul, Div;
  }

  lemma ShortDownIs(p: nat, t: nat, l: nat, x: nat, remaining: nat)
    requires p >= t && x <= remaining && AmountInMax(p, t, l).Ok? && x < AmountInMax(p, t, l).value
    ensures Grown(l, p, x) > 0
    ensures ShortStep(p, t, l, x, remaining).Ok? <==> DownFits(l, p, x)
    ensures ShortStep(p, t, l, x, remaining).Ok? ==>
              IsShortDown(p, l, remaining, x, ShortStep(p, t, l, x, remaining).value)
  {
    ShortMoveDown(p, t, l, x);
    PriceBelowIs(l, p, t, x);
    ShortWidths(p, t, l, x, remaining);
    if NextPrice(p, t, l, x).Ok? {
      LandsBefore(p, t, l, x);
      DownFitsIs(l, p, x);
      PayoutBelowIs(l, p, NextPrice(p, t, l, x).value);
      if ShortStep(p, t, l, x, remaining).Ok? {
        ShortStepFacts(p, t, l, x, remaining);
        ShortDownMeans(p, l, remaining, x, ShortStep(p, t, l, x, remaining).value);
      }
    }
    hide *;
  }

  lemma ShortUpIs(p: nat, t: nat, l: nat, x: nat, remaining: nat)
    requires 0 < p < t < TWO_256 && x <= remaining && AmountInMax(p, t, l).Ok? && x < AmountInMax(p, t, l).value
    ensures l > 0
    ensures ShortStep(p, t, l, x, remaining).Ok? <==> UpFits(l, p, x)
    ensures ShortStep(p, t, l, x, remaining).Ok? ==>
              IsShortUp(p, l, remaining, x, ShortStep(p, t, l, x, remaining).value)
  {
    hide *;
    ShortMoveUp(p, t, l, x);
    MaxIsNarrow(p, t, l);
    PriceAboveIs(l, p, t, x);
    PriceAboveNotBelow(l, p, x);
    ShortWidths(p, t, l, x, remaining);
    PayoutAboveIs(l, p, PriceAbove(l, p, x));
    UpFitsIs(l, p, x);
    if ShortStep(p, t, l, x, remaining).Ok? {
      ShortStepFacts(p, t, l, x, remaining);
      ShortUpMeans(p, l, remaining, x, ShortStep(p, t, l, x, remaining).value);
    }
  }

  lemma PriceAboveNotBelow(l: nat, p: nat, x: nat)
    requires l > 0
    ensures PriceAbove(l, p, x) >= p
  {
    hide Mul, Div;
  }

  lemma MaxIsNarrow(p: nat, t: nat, l: nat)
    requires AmountInMax(p, t, l).Ok?
    ensures AmountInMax(p, t, l).value < TWO_128
  {
    hide Delta0, Delta1;
  }

  lemma UpFitsIs(l: nat, p: nat, x: nat)
    requires l > 0
    ensures UpFits(l, p, x) <==>
            var next := PriceAbove(l, p, x); PaidFits(Mul(Mul(l, next - p), Q96), Mul(p, next))
  {
    hide Div, Mul, PaidFits;
  }

  lemma StepFitsIs(p: nat, t: nat, l: nat, remaining: nat, fee: nat)
    requires p > 0 && t > 0 && InputFits(remaining, fee) && ChargedWay(l, p, t) < TWO_128
    ensures var x := AfterFee(remaining, fee);
            StepFits(p, t, l, remaining, fee) <==>
            if x >= ChargedWay(l, p, t) then FullFits(l, p, t, fee)
            else if p >= t then DownFits(l, p, x) else UpFits(l, p, x)
  {
    hide AfterFee, InputFits, ChargedWay, FullFits, DownFits, UpFits;
  }

  /** A step goes through exactly when everything fits. */
  lemma StepFitsIff(p: nat, t: nat, l: nat, remaining: nat, fee: nat)
    requires p < TWO_256 && t < TWO_256
    ensures ComputeSwapStep(p, t, l, remaining, fee).Ok? <==> StepFits(p, t, l, remaining, fee)
  {
    LessFeeIs(remaining, fee);
    ZeroDenominatorNeedsZeroPrice(p, t, l, remaining, fee);
    if p > 0 && t > 0 {
      ChargedIs(l, p, t);
      if LessFee(remaining, fee).Ok? && AmountInMax(p, t, l).Ok? {
        StepFitsIs(p, t, l, remaining, fee);
        LessFeeBounds(remaining, fee);
        StepCases(p, t, l, remaining, fee);
        var x := LessFee(remaining, fee).value;
        hide *;
        if x >= AmountInMax(p, t, l).value {
          FullIs(l, p, t, fee);
        } else if p >= t {
          ShortDownIs(p, t, l, x, remaining);
        } else {
          ShortUpIs(p, t, l, x, remaining);
        }
      } else {
        hide AfterFee, ChargedWay, FullFits, DownFits, UpFits, LessFee, AmountInMax, InputFits;
      }
    }
  }

  /** And then it is what plain arithmetic says: the full way with its fee rounded up, */
  lemma FullStepIs(p: nat, t: nat, l: nat, remaining: nat, fee: nat)
    requires p < TWO_256 && t < TWO_256
    ensures StepFits(p, t, l, remaining, fee) && AfterFee(remaining, fee) >= ChargedWay(l, p, t) ==>
              var m := ChargedWay(l, p, t);
              ComputeSwapStep(p, t, l, remaining, fee) == Ok(Step(t, m, PaidWay(l, p, t), RoundedUp(Mul(m, fee))))
  {
    if StepFits(p, t, l, remaining, fee) {
      StepBranch(p, t, l, remaining, fee);
      hide *;
      FullIs(l, p, t, fee);
    }
  }

  /** or the price down as far as the input takes it, */
  lemma FallingStepIs(p: nat, t: nat, l: nat, remaining: nat, fee: nat)
    requires p < TWO_256 && t < TWO_256
    ensures StepFits(p, t, l, remaining, fee) && p >= t && AfterFee(remaining, fee) < ChargedWay(l, p, t) ==>
              var s := ComputeSwapStep(p, t, l, remaining, fee);
              s.Ok? && IsShortDown(p, l, remaining, AfterFee(remaining, fee), s.value)
  {
    if StepFits(p, t, l, remaining, fee) {
      StepBranch(p, t, l, remaining, fee);
      hide *;
      if p >= t && AfterFee(remaining, fee) < ChargedWay(l, p, t) {
        ShortDownIs(p, t, l, AfterFee(remaining, fee), remaining);
      }
    }
  }

  /** or up. */
  lemma RisingStepIs(p: nat, t: nat, l: nat, remaining: nat, fee: nat)
    requires p < TWO_256 && t < TWO_256
    ensures StepFits(p, t, l, remaining, fee) && p < t && AfterFee(remaining, fee) < ChargedWay(l, p, t) ==>
              var s := ComputeSwapStep(p, t, l, remaining, fee);
              s.Ok? && IsShortUp(p, l, remaining, AfterFee(remaining, fee), s.value)
  {
    if StepFits(p, t, l, remaining, fee) {
      StepBranch(p, t, l, remaining, fee);
      hide *;
      if p < t && AfterFee(remaining, fee) < ChargedWay(l, p, t) {
        ShortUpIs(p, t, l, AfterFee(remaining, fee), remaining);
      }
    }
  }

  lemma InputFitsIs(remaining: nat, fee: nat)
    ensures InputFits(remaining, fee) <==> fee <= 1_000_000 && Mul(remaining, 1_000_000 - fee) < TWO_128
  {
    hide Mul;
  }

  lemma StepBranch(p: nat, t: nat, l: nat, remaining: nat, fee: nat)
    requires p < TWO_256 && t < TWO_256 && StepFits(p, t, l, remaining, fee)
    ensures p > 0 && t > 0 && p > 0 && fee <= 1_000_000 && ComputeSwapStep(p, t, l, remaining, fee).Ok?
    ensures var x := AfterFee(remaining, fee);
            && x <= remaining && AmountInMax(p, t, l) == Ok(ChargedWay(l, p, t))
            && ComputeSwapStep(p, t, l, remaining, fee) ==
               if x >= ChargedWay(l, p, t) then FullStep(p, t, l, ChargedWay(l, p, t), fee)
               else ShortStep(p, t, l, x, remaining)
  {
    hide *;
    StepFitsIff(p, t, l, remaining, fee);
    LessFeeIs(remaining, fee);
    InputFitsIs(remaining, fee);
    ZeroDenominatorNeedsZeroPrice(p, t, l, remaining, fee);
    ChargedIs(l, p, t);
    LessFeeBounds(remaining, fee);
    StepCases(p, t, l, remaining, fee);
  }

  // ----- a whole quote

  /** What crossing the ticks ahead can add to the liquidity at most. */
  ghost function LiquidityAhead(ticks: map<int, int>, tick: int, zeroForOne: bool): nat
    decreases |Ahead(ticks, tick, zeroForOne)|
  {
    var (next, initialized) := NextTick(ticks, tick, zeroForOne);
    if !initialized then 0
    else
      LeavesOneBehind(ticks, tick, zeroForOne);
      (if ticks[next] > 0 then ticks[next] else 0)
      + LiquidityAhead(ticks, if zeroForOne then next - 1 else next, zeroForOne)
  }

  /** Room for every product of a step: prices within [lo, hi], liquidity up to `lim`, input up to
      `amount` and no more than `most` paid out. */
  datatype Room = Room(lo: nat, hi: nat, lim: nat, amount: nat, most: nat)

  predicate Spacious(r: Room, fee: nat, zeroForOne: bool) {
    && 0 < r.lo && r.hi < TWO_128 && r.most < TWO_127
    && fee <= 1_000_000 && r.amount * 1_000_000 < TWO_128
    && r.lim * Q96 < TWO_128 * r.lo && r.lim * r.hi < TWO_128 * Q96
    && (if zeroForOne then r.lim * r.hi <= r.most * Q96 else r.lim * Q96 <= r.most * r.lo)
    && (r.lim * r.hi * Q96 < TWO_256 || (!zeroForOne && r.amount * Q96 * Q96 < TWO_256))
  }

  predicate Inside(r: Room, price: nat) { r.lo <= price <= r.hi }

  /** From a state with room to its end: what the prices, the liquidity and the output still can
      become. */
  ghost predicate HasRoom(tm: TickMath, pool: V3Pool, zeroForOne: bool, r: Room, s: SwapState) {
    && Inside(r, s.sqrtPrice) && Inside(r, tm.ratio(Bound(zeroForOne)))
    && (forall t :: t in Ahead(pool.ticks, s.tick, zeroForOne) ==> Inside(r, tm.ratio(t)))
    && s.liquidity + LiquidityAhead(pool.ticks, s.tick, zeroForOne) <= r.lim
    && s.remaining <= r.amount && 0 <= s.calculated
    && s.calculated + (|Ahead(pool.ticks, s.tick, zeroForOne)| + 1) * r.most < TWO_127
  }

  lemma QuotientAtMost(n: nat, d: nat, bound: nat)
    requires d > 0
    ensures n <= bound * d ==> Div(n, d) <= bound
    ensures n < bound * d ==> Div(n, d) < bound
  {
    FloorLe(n, d, bound + 1);
    FloorLe(n, d, bound);
    hide Div;
    assert (bound + 1) * d == bound * d + d;
  }

  /** l·d·q <= (lim·q)·most. */
  lemma ScaleUp(q: nat, l: nat, lim: nat, d: nat, most: nat)
    requires l <= lim && d <= most
    ensures l * d * q <= (lim * q) * most
  {
    MulMono(l, lim, d * q);
    MulMono(d, most, lim * q);
    Reorder(l, d, q);
    Reorder(lim, d, q);
  }

  lemma Reorder(x: nat, y: nat, z: nat)
    ensures x * y * z == x * (y * z) == y * (x * z)
  {
  }

  lemma ScaleLimit(u: nat, bound: nat, lo: nat, least: nat, most: nat)
    requires lo <= least && most > 0
    ensures u <= bound * lo ==> u * most <= bound * (most * least)
    ensures u < bound * lo ==> u * most < bound * (most * least)
  {
    MulMono(lo, least, bound * most);
    Reorder(bound, lo, most);
    Reorder(bound, most, least);
    if u <= bound * lo { MulMono(u, bound * lo, most); }
    if u < bound * lo { MulMono(u + 1, bound * lo, most); }
  }

  lemma Way0Ordered(q: nat, l: nat, lim: nat, most: nat, least: nat, d: nat, lo: nat, bound: nat)
    requires 0 < lo <= least <= most && l <= lim && d <= most
    ensures lim * q <= bound * lo ==> l * d * q <= bound * (most * least)
    ensures lim * q < bound * lo ==> l * d * q < bound * (most * least)
  {
    ScaleUp(q, l, lim, d, most);
    ScaleLimit(lim * q, bound, lo, least, most);
  }

  /** The way in token 0, before it is divided by p·t. */
  lemma Way0Product(q: nat, l: nat, lim: nat, p: nat, t: nat, d: nat, lo: nat, bound: nat)
    requires 0 < lo <= p && lo <= t && l <= lim && (d <= p || d <= t)
    ensures lim * q <= bound * lo ==> l * d * q <= bound * (p * t)
    ensures lim * q < bound * lo ==> l * d * q < bound * (p * t)
  {
    assert p * t == t * p;
    if p >= t { Way0Ordered(q, l, lim, p, t, d, lo, bound); } else { Way0Ordered(q, l, lim, t, p, d, lo, bound); }
  }

  lemma Way0Small(l: nat, lim: nat, p: nat, t: nat, lo: nat, bound: nat)
    requires 0 < lo <= p < TWO_128 && lo <= t < TWO_128 && l <= lim
    ensures p > 0 && t > 0
    ensures lim * Q96 <= bound * lo ==> Way0(l, p, t) <= bound
    ensures lim * Q96 < bound * lo ==> Way0(l, p, t) < bound
  {
    var d := Distance(p, t);
    assert d <= p || d <= t;
    Way0Times(l, p, t);
    hide *;
    ConcentratedLiquidity.ProductBelow(p, t);
    MulPositive(p, t);
    Way0Product(Q96, l, lim, p, t, d, lo, bound);
    QuotientAtMost(l * d * Q96, p * t, bound);
  }

  /** In the mathematical product the way in token 0 is at most l·d·2^96 over p·t. */
  lemma Way0Times(l: nat, p: nat, t: nat)
    requires p > 0 && t > 0
    ensures p * t > 0
    ensures p * t < TWO_256 ==> Way0(l, p, t) <= Div(l * Distance(p, t) * Q96, p * t)
  {
    var d := Distance(p, t);
    MulPositive(p, t);
    MulIs(p, t);
    MulIs(l, d);
    MulIs(l * d, Q96);
    if p * t < TWO_256 { DivGrows(Kept(Mul(Mul(l, d), Q96), 0), Mul(Mul(l, d), Q96), p * t); }
    hide Mul, Div;
  }

  lemma DivGrows(n: nat, m: nat, d: nat)
    requires n <= m && d > 0
    ensures Div(n, d) <= Div(m, d)
  {
    FloorLe(m, d, Div(n, d));
    DivIs(n, d);
    hide Div;
  }

  lemma Way1Small(l: nat, lim: nat, p: nat, t: nat, hi: nat, bound: nat)
    requires p <= hi && t <= hi && l <= lim
    ensures lim * hi <= bound * Q96 ==> Way1(l, p, t) <= bound
    ensures lim * hi < bound * Q96 ==> Way1(l, p, t) < bound
  {
    var d := Distance(p, t);
    MulIs(l, d);
    MulMono(l, lim, d);
    MulMono(d, hi, lim);
    QuotientAtMost(Kept(Mul(l, d), 0), Q96, bound);
    hide Div, Mul;
  }

  lemma InputHasRoom(r: Room, fee: nat, zeroForOne: bool, remaining: nat, m: nat)
    requires Spacious(r, fee, zeroForOne) && remaining <= r.amount
    ensures fee <= 1_000_000 && InputFits(remaining, fee) && AfterFee(remaining, fee) <= remaining
    ensures AfterFee(remaining, fee) >= m ==> Mul(m, fee) < TWO_128
    ensures remaining < TWO_128
  {
    assert fee <= 1_000_000 && r.amount * 1_000_000 < TWO_128;
    hide *;
    InputProducts(remaining, r.amount, fee, m);
    InputFitsIs(remaining, fee);
    LessFeeIs(remaining, fee);
    LessFeeBounds(remaining, fee);
    if AfterFee(remaining, fee) >= m { FeeProduct(remaining, r.amount, fee, m); }
  }

  lemma InputProducts(remaining: nat, amount: nat, fee: nat, m: nat)
    requires remaining <= amount && fee <= 1_000_000
    ensures Mul(remaining, 1_000_000 - fee) <= amount * 1_000_000 && remaining <= amount * 1_000_000
  {
    MulIs(remaining, 1_000_000 - fee);
    hide Mul;
    MulMono(1_000_000 - fee, 1_000_000, remaining);
  }

  lemma FeeProduct(remaining: nat, amount: nat, fee: nat, m: nat)
    requires m <= remaining <= amount && fee <= 1_000_000
    ensures Mul(m, fee) <= amount * 1_000_000
  {
    MulIs(m, fee);
    hide Mul;
    MulMono(m, amount, fee);
    MulMono(fee, 1_000_000, amount);
  }

  /** The short step down, at fixed-point unit `q` and word size `w`. */
  lemma DownRoom(q: nat, w: nat, l: nat, lim: nat, p: nat, t: nat, hi: nat, x: nat)
    requires l <= lim && t < p <= hi && t > 0 && lim * hi * q < w
    requires x * (p * t) <= l * (p - t) * q
    ensures l * p * q < w && l * q + x * p < w
  {
    ScaleUp(q, l, lim, p, hi);
    Reorder(lim, hi, q);
    DownInput(l * q, p, t, x, l * (p - t) * q);
    Reorder(l, p, q);
    Reorder(l, p - t, q);
  }

  lemma DownInput(lq: nat, p: nat, t: nat, x: nat, way: nat)
    requires 0 < t < p && x * (p * t) <= way && way == (p - t) * lq
    ensures lq + x * p <= p * lq
  {
    MulMono(1, t, x * p);
    Reorder(x, p, t);
    MulMono(p - t + 1, p, lq);
    assert (p - t + 1) * lq == (p - t) * lq + lq;
    assert t * (x * p) == x * (p * t);
  }

  /** And up. */
  lemma UpRoom(q: nat, l: nat, lim: nat, p: nat, next: nat, lo: nat, bound: nat)
    requires l <= lim && 0 < lo <= p <= next
    ensures lim * q <= bound * lo ==> l * (next - p) * q <= bound * (p * next)
    ensures lim * q < bound * lo ==> l * (next - p) * q < bound * (p * next)
  {
    Way0Product(q, l, lim, p, next, next - p, lo, bound);
  }

  /** With room a step goes through and pays out no more than it may. */
  lemma StepHasRoom(r: Room, fee: nat, zeroForOne: bool, p: nat, t: nat, l: nat, remaining: nat)
    requires Spacious(r, fee, zeroForOne) && Inside(r, p) && Inside(r, t) && l <= r.lim && remaining <= r.amount
    requires if zeroForOne then t <= p else p <= t
    ensures ComputeSwapStep(p, t, l, remaining, fee).Ok?
    ensures ComputeSwapStep(p, t, l, remaining, fee).value.amountOut <= r.most
  {
    hide *;
    NarrowPrices(r, fee, zeroForOne, p, t);
    InsideIs(r, p);
    InsideIs(r, t);
    RoomForWays(r, fee, zeroForOne);
    MulPositive(p, t);
    WaysAre(l, p, t);
    Way0Small(l, r.lim, p, t, r.lo, TWO_128);
    Way0Small(l, r.lim, p, t, r.lo, r.most);
    Way1Small(l, r.lim, p, t, r.hi, TWO_128);
    Way1Small(l, r.lim, p, t, r.hi, r.most);
    NoWayWhenThere(l, p, t);
    var m := ChargedWay(l, p, t);
    InputHasRoom(r, fee, zeroForOne, remaining, m);
    var x := AfterFee(remaining, fee);
    StepFitsIs(p, t, l, remaining, fee);
    StepFitsIff(p, t, l, remaining, fee);
    if x >= m {
      FullFitsIs(l, p, t, fee);
      FullStepIs(p, t, l, remaining, fee);
    } else if p >= t {
      ShortDownRoom(r, fee, zeroForOne, p, t, l, remaining);
    } else {
      ShortUpRoom(r, fee, zeroForOne, p, t, l, remaining);
    }
  }

  lemma RoomForWays(r: Room, fee: nat, zeroForOne: bool)
    requires Spacious(r, fee, zeroForOne)
    ensures r.lim * Q96 < TWO_128 * r.lo && r.lim * r.hi < TWO_128 * Q96 && 0 < r.lo && r.most < TWO_128
    ensures if zeroForOne then r.lim * r.hi <= r.most * Q96 else r.lim * Q96 <= r.most * r.lo
  {
  }

  lemma WaysAre(l: nat, p: nat, t: nat)
    requires p > 0 && t > 0
    ensures ChargedWay(l, p, t) == if p >= t then Way0(l, p, t) else Way1(l, p, t)
    ensures PaidWay(l, p, t) == if p >= t then Way1(l, p, t) else Way0(l, p, t)
  {
    hide Way0, Way1;
  }

  lemma NoWayWhenThere(l: nat, p: nat, t: nat)
    requires p > 0 && t > 0
    ensures p == t ==> ChargedWay(l, p, t) == 0 && PaidWay(l, p, t) == 0
  {
    if p == t { NoWay(l, p); }
    hide Way0, Way1;
  }

  lemma NarrowPrices(r: Room, fee: nat, zeroForOne: bool, p: nat, t: nat)
    requires Spacious(r, fee, zeroForOne) && Inside(r, p) && Inside(r, t)
    ensures 0 < p < TWO_128 && 0 < t < TWO_128 && p < TWO_256 && t < TWO_256 && fee <= 1_000_000
  {
  }

  lemma NoWay(l: nat, p: nat)
    requires p > 0
    ensures Way0(l, p, p) == 0 && Way1(l, p, p) == 0
  {
    KeptPositive(p, p);
    MulIs(l, 0);
    MulIs(0, Q96);
    QuotientAtMost(0, Kept(Mul(p, p), 1), 0);
    QuotientAtMost(0, Q96, 0);
    hide Div, Mul;
  }

  lemma RoomDown(r: Room, fee: nat)
    requires Spacious(r, fee, true)
    ensures r.lim * r.hi * Q96 < TWO_256 && r.lim * r.hi <= r.most * Q96
  {
  }

  lemma RoomUp(r: Room, fee: nat)
    requires Spacious(r, fee, false)
    ensures r.lim * r.hi * Q96 < TWO_256 || r.amount * Q96 * Q96 < TWO_256
    ensures r.lim * Q96 < TWO_128 * r.lo && r.lim * Q96 <= r.most * r.lo && 0 < r.lo && r.hi < TWO_128
  {
  }

  lemma InsideIs(r: Room, price: nat)
    ensures Inside(r, price) <==> r.lo <= price <= r.hi
  {
  }

  lemma ShortDownRoom(r: Room, fee: nat, zeroForOne: bool, p: nat, t: nat, l: nat, remaining: nat)
    requires Spacious(r, fee, zeroForOne) && Inside(r, p) && Inside(r, t) && l <= r.lim && remaining <= r.amount
    requires t < p && zeroForOne
    ensures p > 0 && t > 0 && fee <= 1_000_000
    ensures AfterFee(remaining, fee) < ChargedWay(l, p, t) < TWO_128 ==>
              var s := ComputeSwapStep(p, t, l, remaining, fee);
              s.Ok? && s.value.amountOut <= r.most
  {
    hide *;
    NarrowPrices(r, fee, zeroForOne, p, t);
    MulPositive(p, t);
    RoomDown(r, fee);
    InsideIs(r, p);
    var x := AfterFee(remaining, fee);
    if x < ChargedWay(l, p, t) < TWO_128 {
      InputHasRoom(r, fee, zeroForOne, remaining, 0);
      ShortDownFacts(p, t, l, x);
      ConcentratedLiquidity.ProductBelow(p, t);
      DownRoom(Q96, TWO_256, l, r.lim, p, t, r.hi, x);
      DownFitsFrom(l, p, x);
      StepFitsIs(p, t, l, remaining, fee);
      StepFitsIff(p, t, l, remaining, fee);
      FallingStepIs(p, t, l, remaining, fee);
      var s := ComputeSwapStep(p, t, l, remaining, fee).value;
      ShortDownMeans(p, l, remaining, x, s);
      DownPayout(l, r.lim, p - s.next, r.hi, r.most);
    }
  }

  lemma DownFitsFrom(l: nat, p: nat, x: nat)
    ensures l * p * Q96 < TWO_256 && l * Q96 + x * p < TWO_256 ==> DownFits(l, p, x)
  {
    MulIs(l, p);
    MulIs(l * p, Q96);
    MulIs(l, Q96);
    MulIs(x, p);
    hide Mul;
  }

  /** What it means to stop short on the way down. */
  lemma ShortDownFacts(p: nat, t: nat, l: nat, x: nat)
    requires t <= p && t > 0 && x < ChargedWay(l, p, t) < TWO_128
    ensures l > 0 && p > t > 0
    ensures p * t < TWO_256 ==> x * (p * t) <= l * (p - t) * Q96
  {
    ChargedIs(l, p, t);
    ShortMoveDown(p, t, l, x);
    hide *;
    MulMono(x, x + 1, p * t);
  }

  lemma DownPayout(l: nat, lim: nat, d: nat, hi: nat, most: nat)
    requires l <= lim && d <= hi && lim * hi <= most * Q96
    ensures Div(Mul(l, d), Q96) <= most
  {
    MulIs(l, d);
    MulMono(l, lim, d);
    MulMono(d, hi, lim);
    QuotientAtMost(l * d, Q96, most);
    hide Div, Mul;
  }

  lemma ShortUpRoom(r: Room, fee: nat, zeroForOne: bool, p: nat, t: nat, l: nat, remaining: nat)
    requires Spacious(r, fee, zeroForOne) && Inside(r, p) && Inside(r, t) && l <= r.lim && remaining <= r.amount
    requires p < t && !zeroForOne
    ensures p > 0 && t > 0 && fee <= 1_000_000
    ensures AfterFee(remaining, fee) < ChargedWay(l, p, t) < TWO_128 ==>
              var s := ComputeSwapStep(p, t, l, remaining, fee);
              s.Ok? && s.value.amountOut <= r.most
  {
    hide *;
    NarrowPrices(r, fee, zeroForOne, p, t);
    MulPositive(p, t);
    RoomUp(r, fee);
    InsideIs(r, p);
    InsideIs(r, t);
    var x := AfterFee(remaining, fee);
    if x < ChargedWay(l, p, t) < TWO_128 {
      InputHasRoom(r, fee, zeroForOne, remaining, 0);
      ShortUpFacts(p, t, l, x);
      var next := PriceAbove(l, p, x);
      MovedFits(Q96, TWO_256, l, r.lim, next - p, r.hi, x, r.amount);
      UpWidths(l, r.lim, p, next, r.lo, r.most);
      UpFitsIs(l, p, x);
      StepFitsIs(p, t, l, remaining, fee);
      StepFitsIff(p, t, l, remaining, fee);
      RisingStepIs(p, t, l, remaining, fee);
      ShortUpMeans(p, l, remaining, x, ComputeSwapStep(p, t, l, remaining, fee).value);
    }
  }

  lemma ShortUpFacts(p: nat, t: nat, l: nat, x: nat)
    requires 0 < p < t < TWO_128 && t > 0 && x < ChargedWay(l, p, t) < TWO_128
    ensures l > 0 && p <= PriceAbove(l, p, x) <= t && l * (PriceAbove(l, p, x) - p) <= x * Q96
  {
    ChargedIs(l, p, t);
    ShortMoveUp(p, t, l, x);
    PriceAboveIs(l, p, t, x);
    MoveCosts(l, p, x);
    hide AmountInMax, ChargedWay, NextPrice;
  }

  lemma UpWidths(l: nat, lim: nat, p: nat, next: nat, lo: nat, most: nat)
    requires 0 < lo <= p <= next < TWO_128 && l <= lim && l * (next - p) * Q96 < TWO_256
    requires lim * Q96 < TWO_128 * lo && lim * Q96 <= most * lo
    ensures Mul(p, next) > 0
    ensures var (moved, prices) := (Mul(Mul(l, next - p), Q96), Mul(p, next));
            PaidFits(moved, prices) && Div(moved, prices) <= most
  {
    hide *;
    ConcentratedLiquidity.ProductBelow(p, next);
    PaidRoom(Q96, l, lim, p, next, lo, TWO_128);
    PaidRoom(Q96, l, lim, p, next, lo, most);
    MulIs(p, next);
    ProductsAre(l, next - p, Q96);
    QuotientAtMost(Mul(Mul(l, next - p), Q96), Mul(p, next), most);
    PaidFitsIs(Mul(Mul(l, next - p), Q96), Mul(p, next));
  }

  lemma ProductsAre(x: nat, y: nat, z: nat)
    ensures Mul(Mul(x, y), z) == x * y * z
  {
    MulIs(x, y);
    MulIs(x * y, z);
    hide Mul;
  }

  lemma PaidFitsIs(moved: nat, prices: nat)
    ensures PaidFits(moved, prices) <==> moved < TWO_256 && prices < TWO_256 && moved < TWO_128 * prices
  {
  }

  lemma PaidRoom(q: nat, l: nat, lim: nat, p: nat, next: nat, lo: nat, bound: nat)
    requires l <= lim && 0 < lo <= p <= next
    ensures Mul(p, next) > 0
    ensures var (moved, prices) := (Mul(Mul(l, next - p), q), Mul(p, next));
            && (lim * q <= bound * lo ==> moved <= bound * prices)
            && (lim * q < bound * lo ==> moved < bound * prices)
  {
    hide *;
    UpRoom(q, l, lim, p, next, lo, bound);
    MulPositive(p, next);
    MulIs(p, next);
    ProductsAre(l, next - p, q);
  }

  lemma MoveCosts(l: nat, p: nat, x: nat)
    requires l > 0
    ensures l * (PriceAbove(l, p, x) - p) <= x * Q96
  {
    MulIs(x, Q96);
    DivIs(x * Q96, l);
    hide Div, Mul;
  }

  lemma MovedFits(q: nat, w: nat, l: nat, lim: nat, m: nat, hi: nat, x: nat, amount: nat)
    requires l <= lim && m <= hi && x <= amount && l * m <= x * q
    requires lim * hi * q < w || amount * q * q < w
    ensures l * m * q < w
  {
    if lim * hi * q < w {
      ScaleUp(q, l, lim, m, hi);
      Reorder(lim, hi, q);
    } else {
      MulMono(x, amount, q);
      MulMono(l * m, amount * q, q);
    }
  }

  // ----- room all the way

  /** The first step from a state with room. */
  lemma FirstStepHasRoom(tm: TickMath, pool: V3Pool, zeroForOne: bool, r: Room, s: SwapState)
    requires GoodTickMath(tm, pool) && Consistent(tm, pool, zeroForOne, s)
    requires Spacious(r, pool.fee, zeroForOne) && HasRoom(tm, pool, zeroForOne, r, s) && s.remaining > 0
    ensures StepOf(tm, pool, zeroForOne, s).Ok?
    ensures StepOf(tm, pool, zeroForOne, s).value.amountOut <= r.most
    ensures StepOf(tm, pool, zeroForOne, s).value.next < TWO_128
  {
    var (p, t, l) := (s.sqrtPrice, tm.ratio(NextTick(pool.ticks, s.tick, zeroForOne).0), s.liquidity);
    assert Inside(r, t) && l <= r.lim && p <= r.hi < TWO_128;
    assert if zeroForOne then t <= p else p <= t by { FacingIsConsistent(tm, pool, zeroForOne, s); }
    StepHasRoom(r, pool.fee, zeroForOne, p, t, l, s.remaining);
    assert t < TWO_128;
    assert StepOf(tm, pool, zeroForOne, s) == ComputeSwapStep(p, t, l, s.remaining, pool.fee) by {
      hide ComputeSwapStep, NextTick;
    }
    hide *;
    StepStaysInsideIff(p, t, l, s.remaining, pool.fee);
    OverflowNeedsWidePrice(p, t, l, s.remaining, pool.fee);
    BetweenBelow(ComputeSwapStep(p, t, l, s.remaining, pool.fee).value.next, p, t, TWO_128);
  }

  lemma BetweenBelow(x: nat, a: nat, b: nat, bound: nat)
    requires a < bound && b < bound
    ensures Between(x, a, b) ==> x < bound
  {
  }

  lemma BodyHasRoom(tm: TickMath, pool: V3Pool, zeroForOne: bool, r: Room, s: SwapState)
    requires GoodTickMath(tm, pool) && Consistent(tm, pool, zeroForOne, s)
    requires Spacious(r, pool.fee, zeroForOne) && HasRoom(tm, pool, zeroForOne, r, s) && s.remaining > 0
    ensures Body(tm, pool, zeroForOne, s).Ok?
    ensures var s' := Body(tm, pool, zeroForOne, s).value;
            && 0 <= s'.calculated
            && (s'.remaining > 0 && NextTick(pool.ticks, s.tick, zeroForOne).1 ==>
                  HasRoom(tm, pool, zeroForOne, r, s') && Consistent(tm, pool, zeroForOne, s'))
  {
    hide *;
    FirstStepHasRoom(tm, pool, zeroForOne, r, s);
    RoomForOne(tm, pool, zeroForOne, r, s);
    StepGoesThrough(tm, pool, zeroForOne, s, r.most);
    BodyProgress(tm, pool, zeroForOne, s);
    BodyPrice(tm, pool, zeroForOne, s);
    if Body(tm, pool, zeroForOne, s).value.remaining > 0 && NextTick(pool.ticks, s.tick, zeroForOne).1 {
      RoomAfter(tm, pool, zeroForOne, r, s);
    }
  }

  lemma RoomForOne(tm: TickMath, pool: V3Pool, zeroForOne: bool, r: Room, s: SwapState)
    requires Spacious(r, pool.fee, zeroForOne) && HasRoom(tm, pool, zeroForOne, r, s)
    ensures 0 <= s.calculated && s.calculated + r.most < TWO_127 && r.most < TWO_127
  {
    MulMono(1, |Ahead(pool.ticks, s.tick, zeroForOne)| + 1, r.most);
    hide Ahead;
  }

  lemma StepGoesThrough(tm: TickMath, pool: V3Pool, zeroForOne: bool, s: SwapState, most: nat)
    requires s.remaining > 0 && StepOf(tm, pool, zeroForOne, s).Ok?
    requires var st := StepOf(tm, pool, zeroForOne, s).value; st.amountOut <= most && st.next < TWO_128
    requires 0 <= s.calculated && s.calculated + most < TWO_127
    ensures Body(tm, pool, zeroForOne, s).Ok? && Body(tm, pool, zeroForOne, s).value.calculated >= 0
  {
    hide StepOf, NextTick, Ahead;
  }

  /** Crossing a tick keeps the room. */
  lemma RoomAfter(tm: TickMath, pool: V3Pool, zeroForOne: bool, r: Room, s: SwapState)
    requires HasRoom(tm, pool, zeroForOne, r, s) && s.remaining > 0 && Body(tm, pool, zeroForOne, s).Ok?
    requires Crosses(tm, pool, zeroForOne, s) && StepOf(tm, pool, zeroForOne, s).value.amountOut <= r.most < TWO_127
    requires s.calculated >= 0
    ensures HasRoom(tm, pool, zeroForOne, r, Body(tm, pool, zeroForOne, s).value)
  {
    var st := StepOf(tm, pool, zeroForOne, s).value;
    assert AsI128(st.amountOut) == st.amountOut;
    hide *;
    BodyProgress(tm, pool, zeroForOne, s);
    CrossedState(tm, pool, zeroForOne, s);
    var next := NextTick(pool.ticks, s.tick, zeroForOne).0;
    var s' := Body(tm, pool, zeroForOne, s).value;
    AheadHas(pool.ticks, s.tick, zeroForOne);
    LeavesOneBehind(pool.ticks, s.tick, zeroForOne);
    LiquidityAheadStep(pool.ticks, s.tick, zeroForOne);
    NetAtMost(s.liquidity, pool.ticks[next]);
    RoomKept(tm, pool, zeroForOne, r, s, s', next);
  }

  lemma RoomKept(tm: TickMath, pool: V3Pool, zeroForOne: bool, r: Room, s: SwapState, s': SwapState, next: int)
    requires HasRoom(tm, pool, zeroForOne, r, s) && next in Ahead(pool.ticks, s.tick, zeroForOne)
    requires Ahead(pool.ticks, s'.tick, zeroForOne) == Ahead(pool.ticks, s.tick, zeroForOne) - {next}
    requires s'.liquidity + LiquidityAhead(pool.ticks, s'.tick, zeroForOne)
             <= s.liquidity + LiquidityAhead(pool.ticks, s.tick, zeroForOne)
    requires s'.sqrtPrice == tm.ratio(next) && s'.remaining <= s.remaining
    requires s.calculated <= s'.calculated <= s.calculated + r.most
    ensures HasRoom(tm, pool, zeroForOne, r, s')
  {
    var before := Ahead(pool.ticks, s.tick, zeroForOne);
    hide Ahead, LiquidityAhead, Inside;
    assert |before - {next}| == |before| - 1;
    OneLess(|before|, r.most);
  }

  lemma AheadHas(ticks: map<int, int>, tick: int, zeroForOne: bool)
    ensures var (next, initialized) := NextTick(ticks, tick, zeroForOne);
            initialized ==> next in Ahead(ticks, tick, zeroForOne)
  {
  }

  lemma OneLess(n: int, most: nat)
    ensures (n + 1) * most == ((n - 1) + 1) * most + most
  {
  }

  lemma CrossedState(tm: TickMath, pool: V3Pool, zeroForOne: bool, s: SwapState)
    requires s.remaining > 0 && Body(tm, pool, zeroForOne, s).Ok? && Crosses(tm, pool, zeroForOne, s)
    ensures NextTick(pool.ticks, s.tick, zeroForOne).1
    ensures var next := NextTick(pool.ticks, s.tick, zeroForOne).0; var s' := Body(tm, pool, zeroForOne, s).value;
            && s'.tick == (if zeroForOne then next - 1 else next) && s'.sqrtPrice == tm.ratio(next)
            && s'.liquidity == ApplyNet(s.liquidity, pool.ticks[next])
  {
    hide StepOf, ApplyNet;
  }

  lemma LiquidityAheadStep(ticks: map<int, int>, tick: int, zeroForOne: bool)
    requires NextTick(ticks, tick, zeroForOne).1
    ensures var next := NextTick(ticks, tick, zeroForOne).0;
            LiquidityAhead(ticks, tick, zeroForOne) ==
            (if ticks[next] > 0 then ticks[next] else 0)
            + LiquidityAhead(ticks, if zeroForOne then next - 1 else next, zeroForOne)
  {
    hide NextTick;
  }

  lemma NetAtMost(liquidity: nat, net: int)
    ensures ApplyNet(liquidity, net) <= liquidity + (if net > 0 then net else 0)
  {
  }

  lemma {:induction false} WalkHasRoom(tm: TickMath, pool: V3Pool, zeroForOne: bool, r: Room, s: SwapState)
    requires GoodTickMath(tm, pool) && Consistent(tm, pool, zeroForOne, s)
    requires Spacious(r, pool.fee, zeroForOne) && HasRoom(tm, pool, zeroForOne, r, s)
    ensures !Walk(tm, pool, zeroForOne, s).end.Failed? && Walk(tm, pool, zeroForOne, s).state.calculated >= 0
    decreases |Ahead(pool.ticks, s.tick, zeroForOne)|
  {
    CalculatedIs(tm, pool, zeroForOne, r, s);
    hide *;
    WalkStep(tm, pool, zeroForOne, s);
    if s.remaining <= 0 {
    } else {
      BodyHasRoom(tm, pool, zeroForOne, r, s);
      var s' := Body(tm, pool, zeroForOne, s).value;
      if s'.remaining > 0 && NextTick(pool.ticks, s.tick, zeroForOne).1 {
        FewerAhead(tm, pool, zeroForOne, s);
        WalkHasRoom(tm, pool, zeroForOne, r, s');
      }
    }
  }

  lemma CalculatedIs(tm: TickMath, pool: V3Pool, zeroForOne: bool, r: Room, s: SwapState)
    requires HasRoom(tm, pool, zeroForOne, r, s)
    ensures s.calculated >= 0
  {
  }

  /** A quote with room never panics: it returns, or runs for ever. */
  lemma QuoteWithRoomNeverPanics(tm: TickMath, pool: V3Pool, amountIn: nat, tokenIn: Token, r: Room)
    requires GoodTickMath(tm, pool) && Consistent(tm, pool, ZeroForOne(pool, tokenIn), Start(pool, amountIn))
    requires Spacious(r, pool.fee, ZeroForOne(pool, tokenIn))
    requires HasRoom(tm, pool, ZeroForOne(pool, tokenIn), r, Start(pool, amountIn))
    ensures V3AmountOut(tm, pool, amountIn, tokenIn) != Err(Panicked)
  {
    var zeroForOne := ZeroForOne(pool, tokenIn);
    WalkHasRoom(tm, pool, zeroForOne, r, Start(pool, amountIn));
    assert amountIn * 1_000_000 < TWO_128 by { MulMono(amountIn, r.amount, 1_000_000); }
    assert InI128(amountIn);
    hide Walk, HasRoom, Spacious, Consistent, GoodTickMath;
  }

  /** So it returns exactly below the capacity of the pool. */
  lemma QuoteWithRoomReturnsIff(tm: TickMath, pool: V3Pool, amountIn: nat, tokenIn: Token, r: Room)
    requires GoodTickMath(tm, pool) && Consistent(tm, pool, ZeroForOne(pool, tokenIn), Start(pool, amountIn))
    requires Spacious(r, pool.fee, ZeroForOne(pool, tokenIn)) && amountIn > 0
    requires HasRoom(tm, pool, ZeroForOne(pool, tokenIn), r, Start(pool, amountIn))
    ensures pool.fee <= PIPS
    ensures V3AmountOut(tm, pool, amountIn, tokenIn).Returns() <==>
            amountIn < Capacity(tm, pool, ZeroForOne(pool, tokenIn), pool.sqrtPrice, pool.tick, pool.liquidity)
  {
    QuoteWithRoomNeverPanics(tm, pool, amountIn, tokenIn, r);
    assert pool.fee <= PIPS;
    QuoteReturnsIff(tm, pool, amountIn, tokenIn);
    hide *;
  }

  /** For instance: at price 1, a liquidity of 10^24, a fee of 3000 pips and no ticks, an order of
      10^18 of token 1 goes through. */
  lemma OrdinaryOrderGoesThrough(tm: TickMath, pool: V3Pool, tokenIn: Token)
    requires GoodTickMath(tm, pool) && tm.ratio(MAX_TICK) == TWO_128 - 1
    requires pool.ticks == map[] && pool.sqrtPrice == Q96 && pool.fee == 3000
    requires pool.liquidity == 1_000_000_000_000_000_000_000_000 && tokenIn.address != pool.token0.address
    ensures V3AmountOut(tm, pool, 1_000_000_000_000_000_000, tokenIn) != Err(Panicked)
  {
    var r := Room(Q96, TWO_128 - 1, 1_000_000_000_000_000_000_000_000, 1_000_000_000_000_000_000,
                  1_000_000_000_000_000_000_000_000);
    var s := Start(pool, 1_000_000_000_000_000_000);
    assert Ahead(pool.ticks, s.tick, false) == {};
    NothingAhead(pool.ticks, s.tick, false);
    assert Consistent(tm, pool, false, s);
    assert Spacious(r, 3000, false);
    assert LiquidityAhead(pool.ticks, s.tick, false) == 0;
    assert HasRoom(tm, pool, false, r, s);
    QuoteWithRoomNeverPanics(tm, pool, 1_000_000_000_000_000_000, tokenIn, r);
    hide *;
  }
}
