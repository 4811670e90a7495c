/** The order-book walk of exchange/src/analyzer.rs, on reals and before rounding. */
module OrderBooks {
  import opened Common

  datatype Level = Level(price: real, qty: real)

  /** A buyer walks the asks; the source takes every other side to be a seller. */
  datatype Side = Buy | Sell

  datatype OrderBook = OrderBook(bids: seq<Level>, asks: seq<Level>, midPrice: real)

  datatype Fill = Fill(price: real, qty: real, cost: real)

  datatype WalkResult = WalkResult(avgPrice: real, totalCost: real, slippageBps: real, levelsConsumed: nat,
                                   fullyFilled: bool, fills: seq<Fill>)

  function LevelsOf(book: OrderBook, side: Side): seq<Level> { if side == Buy then book.asks else book.bids }

  /** Prices positive, sizes not negative. */
  predicate Sound(levels: seq<Level>) {
    forall i :: 0 <= i < |levels| ==> levels[i].price > 0.0 && levels[i].qty >= 0.0
  }

  /** Best price first: asks ascending for a buyer, bids descending for a seller. */
  predicate BestFirst(levels: seq<Level>, side: Side) {
    forall i, j :: 0 <= i < j < |levels| ==>
      if side == Buy then levels[i].price <= levels[j].price else levels[j].price <= levels[i].price
  }

  // ----- the walk as a function of the quantity

  function Depth(levels: seq<Level>): real { if levels == [] then 0.0 else levels[0].qty + Depth(levels[1..]) }

  function Taken(levels: seq<Level>, qty: real): real
    decreases levels
  {
    if levels == [] || qty <= 0.0 then 0.0 else
    var t := Min(qty, levels[0].qty);
    t + Taken(levels[1..], qty - t)
  }

  function Cost(levels: seq<Level>, qty: real): real
    decreases levels
  {
    if levels == [] || qty <= 0.0 then 0.0 else
    var t := Min(qty, levels[0].qty);
    Times(t, levels[0].price) + Cost(levels[1..], qty - t)
  }

  function AvgPrice(levels: seq<Level>, qty: real): real {
    if Taken(levels, qty) == 0.0 then 0.0 else Cost(levels, qty) / Taken(levels, qty)
  }

  function Abs(x: real): real { if x >= 0.0 then x else -x }

  function SumQty(fills: seq<Fill>): real {
    if fills == [] then 0.0 else SumQty(fills[..|fills| - 1]) + fills[|fills| - 1].qty
  }

  function SumCost(fills: seq<Fill>): real {
    if fills == [] then 0.0 else SumCost(fills[..|fills| - 1]) + fills[|fills| - 1].cost
  }

  method WalkTheBook(book: OrderBook, side: Side, qty: real) returns (r: WalkResult)
    ensures var levels := LevelsOf(book, side);
            && r.totalCost == Cost(levels, qty) == SumCost(r.fills)
            && SumQty(r.fills) == Taken(levels, qty)
            && r.avgPrice == AvgPrice(levels, qty)
            && (r.fullyFilled <==> qty <= Taken(levels, qty))
            && r.levelsConsumed == |r.fills| <= |levels|
            && (forall i :: 0 <= i < |r.fills| ==> FillsLevel(r.fills[i], levels[i]))
            && r.slippageBps == if levels == [] || levels[0].price == 0.0 || r.avgPrice == 0.0 then 0.0
                                else Abs(r.avgPrice - levels[0].price) / levels[0].price * 10000.0
  {
    hide *;
    var levels := LevelsOf(book, side);
    var bestPrice := if levels != [] then levels[0].price else 0.0;
    var remaining, totalCost, filled := qty, 0.0, 0.0;
    var consumed := 0;
    var fills: seq<Fill> := [];
    assert levels[0..] == levels;
    EmptyWalk();
    while consumed < |levels| && remaining > 0.0
      invariant 0 <= consumed == |fills| <= |levels|
      invariant totalCost + Cost(levels[consumed..], remaining) == Cost(levels, qty)
      invariant filled + Taken(levels[consumed..], remaining) == Taken(levels, qty)
      invariant remaining == qty - filled
      invariant totalCost == SumCost(fills) && filled == SumQty(fills)
      invariant forall i :: 0 <= i < |fills| ==> FillsLevel(fills[i], levels[i])
    {
      var level := levels[consumed];
      assert levels[consumed..][0] == level && levels[consumed..][1..] == levels[consumed + 1..];
      var take := if remaining <= level.qty then remaining else level.qty;
      var cost := take * level.price;
      WalkStep(levels, consumed, remaining, take, cost, fills);
      fills := fills + [Fill(level.price, take, cost)];
      totalCost := totalCost + cost;
      filled := filled + take;
      remaining := remaining - take;
      consumed := consumed + 1;
    }
    WalkEnd(levels, consumed, remaining);
    var fullyFilled := remaining <= 0.0;
    var avgPrice := if filled == 0.0 then 0.0 else totalCost / filled;
    AvgPriceIs(levels, qty);
    var slippage := if bestPrice == 0.0 || avgPrice == 0.0 then 0.0
        else Abs(avgPrice - bestPrice) / bestPrice * 10000.0;
    r := WalkResult(avgPrice, totalCost, slippage, consumed, fullyFilled, fills);
  }

  /** The distance of the average from the best price in basis points, against the taker: above it for a
      buyer, below it for a seller, and never negative. */
  lemma SlippageIsAgainstTaker(levels: seq<Level>, side: Side, q: real)
    requires Sound(levels) && BestFirst(levels, side) && q > 0.0 && Depth(levels) > 0.0
    ensures levels != []
    ensures var (avg, best) := (AvgPrice(levels, q), levels[0].price);
            var slippage := Abs(avg - best) / best * 10000.0;
            && slippage >= 0.0
            && slippage == (if side == Buy then avg - best else best - avg) / best * 10000.0
  {
    AverageNoBetterThanBest(levels, side, q);
    var (avg, best) := (AvgPrice(levels, q), levels[0].price);
    var gap := if side == Buy then avg - best else best - avg;
    assert gap >= 0.0 && Abs(avg - best) == gap;
    hide AvgPrice, Depth;
    var share := gap / best;
    assert share * best == gap;
    SignOfProduct(share, best);
  }

  predicate FillsLevel(f: Fill, l: Level) {
    f.price == l.price && f.cost == f.qty * f.price && f.qty <= l.qty && (l.qty >= 0.0 ==> f.qty >= 0.0)
  }

  lemma EmptyWalk()
    ensures SumCost([]) == 0.0 && SumQty([]) == 0.0
  {
  }

  lemma AvgPriceIs(levels: seq<Level>, qty: real)
    ensures AvgPrice(levels, qty) == if Taken(levels, qty) == 0.0 then 0.0 else Cost(levels, qty) / Taken(levels, qty)
  {
    hide Cost, Taken;
  }

  lemma WalkStep(levels: seq<Level>, i: nat, remaining: real, take: real, cost: real, fills: seq<Fill>)
    requires i < |levels| && remaining > 0.0
    requires take == (if remaining <= levels[i].qty then remaining else levels[i].qty) && cost == take * levels[i].price
    ensures Cost(levels[i..], remaining) == cost + Cost(levels[i + 1..], remaining - take)
    ensures Taken(levels[i..], remaining) == take + Taken(levels[i + 1..], remaining - take)
    ensures var f := Fill(levels[i].price, take, cost);
            FillsLevel(f, levels[i]) && SumCost(fills + [f]) == SumCost(fills) + cost
                && SumQty(fills + [f]) == SumQty(fills) + take
  {
    var rest := levels[i..];
    assert rest[0] == levels[i] && rest[1..] == levels[i + 1..];
    assert Min(remaining, rest[0].qty) == take;
    assert Times(take, rest[0].price) == cost;
    hide Times;
    var f := Fill(levels[i].price, take, cost);
    assert (fills + [f])[..|fills|] == fills;
  }

  lemma WalkEnd(levels: seq<Level>, i: nat, remaining: real)
    requires i <= |levels| && (i == |levels| || remaining <= 0.0)
    ensures Cost(levels[i..], remaining) == 0.0 && Taken(levels[i..], remaining) == 0.0
  {
  }

  lemma TailSound(levels: seq<Level>)
    requires Sound(levels) && levels != []
    ensures Sound(levels[1..])
  {
  }

  lemma {:induction false} DepthNotNegative(levels: seq<Level>)
    requires Sound(levels)
    ensures Depth(levels) >= 0.0
  {
    if levels == [] {
    } else {
      TailSound(levels);
      DepthNotNegative(levels[1..]);
    }
  }

  /** The walk fills exactly min(qty, depth). */
  lemma {:induction false} TakenIsMin(levels: seq<Level>, qty: real)
    requires Sound(levels) && qty >= 0.0
    ensures Taken(levels, qty) == Min(qty, Depth(levels))
    decreases levels
  {
    DepthNotNegative(levels);
    if levels == [] || qty <= 0.0 {
    } else {
      TailSound(levels);
      DepthNotNegative(levels[1..]);
      TakenIsMin(levels[1..], qty - Min(qty, levels[0].qty));
    }
  }

  /** The walk reports a full fill exactly when the book is deep enough. */
  lemma FullyFilledIff(levels: seq<Level>, qty: real)
    requires Sound(levels)
    ensures qty <= Taken(levels, qty) <==> qty <= Depth(levels)
  {
    DepthNotNegative(levels);
    if qty > 0.0 { TakenIsMin(levels, qty); }
  }

  // ----- the walk is optimal

  /** An allocation: how much to trade at each level, within its size. */
  predicate Allocation(levels: seq<Level>, x: seq<real>) {
    |x| == |levels| && forall i :: 0 <= i < |x| ==> 0.0 <= x[i] <= levels[i].qty
  }

  function Total(x: seq<real>): real { if x == [] then 0.0 else x[0] + Total(x[1..]) }

  function Value(levels: seq<Level>, x: seq<real>): real
    requires |x| == |levels|
  {
    if x == [] then 0.0 else Times(x[0], levels[0].price) + Value(levels[1..], x[1..])
  }

  /** `a` is no better for the taker than `b`: a buyer pays, a seller receives. */
  predicate NoBetter(side: Side, a: real, b: real) { if side == Buy then a >= b else a <= b }

  lemma AllocationTail(levels: seq<Level>, x: seq<real>)
    requires Allocation(levels, x) && x != []
    ensures Allocation(levels[1..], x[1..])
  {
  }

  lemma {:induction false} TotalInDepth(levels: seq<Level>, x: seq<real>)
    requires Allocation(levels, x)
    ensures 0.0 <= Total(x) <= Depth(levels)
    decreases x
  {
    if x == [] {
    } else {
      AllocationTail(levels, x);
      TotalInDepth(levels[1..], x[1..]);
    }
  }

  /** Selling is buying at negated prices. */
  function Negated(levels: seq<Level>): seq<Level> {
    seq(|levels|, i requires 0 <= i < |levels| => Level(-levels[i].price, levels[i].qty))
  }

  predicate Sized(levels: seq<Level>) { forall i :: 0 <= i < |levels| ==> levels[i].qty >= 0.0 }

  predicate Ascending(levels: seq<Level>) {
    forall i, j :: 0 <= i < j < |levels| ==> levels[i].price <= levels[j].price
  }

  lemma {:induction false} CostNegated(levels: seq<Level>, q: real)
    ensures Cost(Negated(levels), q) == -Cost(levels, q)
    ensures Depth(Negated(levels)) == Depth(levels)
    decreases levels
  {
    if levels == [] {
    } else {
      var t := Min(q, levels[0].qty);
      assert Negated(levels)[1..] == Negated(levels[1..]);
      CostNegated(levels[1..], q - t);
      TimesNegative(t, levels[0].price);
      hide Times;
    }
  }

  lemma {:induction false} ValueNegated(levels: seq<Level>, x: seq<real>)
    requires |x| == |levels|
    ensures Value(Negated(levels), x) == -Value(levels, x)
    decreases x
  {
    if x == [] {
    } else {
      assert Negated(levels)[1..] == Negated(levels[1..]);
      ValueNegated(levels[1..], x[1..]);
      TimesNegative(x[0], levels[0].price);
      hide Times;
    }
  }

  lemma {:induction false} SizedDepth(levels: seq<Level>)
    requires Sized(levels)
    ensures Depth(levels) >= 0.0
  {
    if levels == [] {
    } else {
      SizedDepth(levels[1..]);
    }
  }

  lemma CostStep(levels: seq<Level>, q: real)
    requires Sized(levels) && levels != [] && 0.0 <= q
    ensures var t := Min(q, levels[0].qty);
            0.0 <= t <= q && Cost(levels, q) == Times(t, levels[0].price) + Cost(levels[1..], q - t)
  {
    TimesNegative(0.0, levels[0].price);
    hide Times;
  }

  /** Beyond any quantity already taken, each further unit costs at least `p` when every
      level does. */
  lemma {:induction false} Marginal(levels: seq<Level>, p: real, a: real, b: real)
    requires Sized(levels) && 0.0 <= a <= b <= Depth(levels)
    requires forall i :: 0 <= i < |levels| ==> levels[i].price >= p
    ensures Cost(levels, b) - Cost(levels, a) >= Times(b - a, p)
    decreases levels
  {
    if levels == [] {
      TimesNegative(0.0, p);
    } else {
      var l := levels[0];
      SizedDepth(levels[1..]);
      var ta, tb := Min(a, l.qty), Min(b, l.qty);
      Marginal(levels[1..], p, a - ta, b - tb);
      CostStep(levels, a);
      CostStep(levels, b);
      hide Cost, Times;
      TimesMono(p, l.price, tb - ta);
      TimesAdd(ta, tb - ta, l.price);
      TimesAdd((b - tb) - (a - ta), tb - ta, p);
    }
  }

  /** Among all allocations with the same total the walk costs least. */
  lemma {:induction false} WalkIsCheapest(levels: seq<Level>, x: seq<real>)
    requires Sized(levels) && Ascending(levels) && Allocation(levels, x)
    ensures Value(levels, x) >= Cost(levels, Total(x))
    decreases levels
  {
    if levels == [] {
    } else {
      var l, q := levels[0], Total(x);
      AllocationTail(levels, x);
      TotalInDepth(levels, x);
      TotalInDepth(levels[1..], x[1..]);
      WalkIsCheapest(levels[1..], x[1..]);
      CostStep(levels, q);
      var t := Min(q, l.qty);
      Marginal(levels[1..], l.price, q - t, q - x[0]);
      assert Value(levels, x) == Times(x[0], l.price) + Value(levels[1..], x[1..]);
      assert q == x[0] + Total(x[1..]);
      hide Cost, Value, Total, Times;
      TimesAdd(x[0], t - x[0], l.price);
    }
  }

  lemma SellerAscends(levels: seq<Level>)
    requires Sound(levels) && BestFirst(levels, Sell)
    ensures Sized(Negated(levels)) && Ascending(Negated(levels))
  {
  }

  /** Among all allocations with the same total the walk costs a buyer least and pays a
      seller most. */
  lemma WalkIsOptimal(levels: seq<Level>, side: Side, x: seq<real>)
    requires Sound(levels) && BestFirst(levels, side) && Allocation(levels, x)
    ensures NoBetter(side, Value(levels, x), Cost(levels, Total(x)))
  {
    if side == Buy {
      WalkIsCheapest(levels, x);
    } else {
      SellerAscends(levels);
      CostNegated(levels, Total(x));
      ValueNegated(levels, x);
      WalkIsCheapest(Negated(levels), x);
      hide Cost, Value;
    }
  }

  // ----- the average price

  /** cost(b)/b >= cost(a)/a for a <= b, multiplied out. */
  lemma {:induction false} AverageCrossed(levels: seq<Level>, a: real, b: real)
    requires Sized(levels) && Ascending(levels) && 0.0 <= a <= b <= Depth(levels)
    ensures Times(Cost(levels, b), a) >= Times(Cost(levels, a), b)
    decreases levels
  {
    if levels == [] {
      TimesNegative(0.0, a);
      TimesNegative(0.0, b);
    } else {
      var l := levels[0];
      SizedDepth(levels[1..]);
      CostStep(levels, a);
      CostStep(levels, b);
      var q := l.qty;
      var (ta, tb) := (Min(a, q), Min(b, q));
      Marginal(levels[1..], l.price, a - ta, b - tb);
      var (ca, cb) := (Cost(levels[1..], a - ta), Cost(levels[1..], b - tb));
      if a < q {
        assert ca == 0.0;
        hide Cost, Times;
        TimesAdd(tb, b - tb, l.price);
        AllAtBest(Times(tb, l.price) + cb, l.price, a, b);
      } else {
        AverageCrossed(levels[1..], a - q, b - q);
        hide Cost, Times;
        PastBest(l.price, q, a, b, ca, cb);
      }
    }
  }

  /** The smaller quantity is all at the best price p; the larger costs at least p·b. */
  lemma AllAtBest(cost: real, p: real, a: real, b: real)
    requires a >= 0.0 && cost >= Times(b, p)
    ensures Times(cost, a) >= Times(Times(a, p), b)
  {
    TimesMonoLeft(Times(b, p), cost, a);
    assert (b * p) * a == (a * p) * b;
  }

  lemma PastBest(p: real, q: real, a: real, b: real, ca: real, cb: real)
    requires q >= 0.0 && cb - ca >= Times((b - q) - (a - q), p)
    requires Times(cb, a - q) >= Times(ca, b - q)
    ensures Times(Times(q, p) + cb, a) >= Times(Times(q, p) + ca, b)
  {
    var gap := cb - ca - (b - a) * p;
    assert (b - q) - (a - q) == b - a;
    TimesMonoLeft(0.0, gap, q);
    assert (q * p + cb) * a - (q * p + ca) * b == gap * q + (cb * (a - q) - ca * (b - q));
  }

  lemma {:induction false} CostPositive(levels: seq<Level>, q: real)
    requires Sound(levels) && q >= 0.0
    ensures Cost(levels, q) >= 0.0
    ensures Taken(levels, q) > 0.0 ==> Cost(levels, q) > 0.0
    ensures Taken(levels, q) >= 0.0
    decreases levels
  {
    if levels == [] || q <= 0.0 {
    } else {
      TailSound(levels);
      var t := Min(q, levels[0].qty);
      CostPositive(levels[1..], q - t);
      TimesSign(t, levels[0].price);
      hide Times;
    }
  }

  /** Walking past the depth costs what the depth costs. */
  lemma {:induction false} CostIsCapped(levels: seq<Level>, q: real)
    requires Sound(levels) && q >= 0.0
    ensures Cost(levels, q) == Cost(levels, Min(q, Depth(levels)))
    decreases levels
  {
    DepthNotNegative(levels);
    if levels == [] {
    } else {
      var l := levels[0];
      TailSound(levels);
      DepthNotNegative(levels[1..]);
      var m := Min(q, Depth(levels));
      CostStep(levels, q);
      CostStep(levels, m);
      CostIsCapped(levels[1..], q - Min(q, l.qty));
      hide Cost;
    }
  }

  /** As the quantity grows the average price never improves for the taker. */
  lemma AverageMovesAgainstTaker(levels: seq<Level>, side: Side, a: real, b: real)
    requires Sound(levels) && BestFirst(levels, side) && 0.0 < a <= b && Depth(levels) > 0.0
    ensures NoBetter(side, AvgPrice(levels, b), AvgPrice(levels, a))
  {
    var (ta, tb) := (Min(a, Depth(levels)), Min(b, Depth(levels)));
    TakenIsMin(levels, a);
    TakenIsMin(levels, b);
    CostIsCapped(levels, a);
    CostIsCapped(levels, b);
    AvgPriceIs(levels, a);
    AvgPriceIs(levels, b);
    hide Cost, Taken, AvgPrice, Times, Depth;
    if side == Buy {
      AverageCrossed(levels, ta, tb);
    } else {
      SellerAscends(levels);
      CostNegated(levels, ta);
      CostNegated(levels, tb);
      AverageCrossed(Negated(levels), ta, tb);
      TimesNegative(ta, Cost(levels, tb));
      TimesNegative(tb, Cost(levels, ta));
      TimesCommutes(ta, Cost(levels, tb));
      TimesCommutes(tb, Cost(levels, ta));
      TimesCommutes(ta, -Cost(levels, tb));
      TimesCommutes(tb, -Cost(levels, ta));
    }
    QuotientOrder(Cost(levels, ta), ta, Cost(levels, tb), tb);
  }

  lemma QuotientOrder(ca: real, a: real, cb: real, b: real)
    requires a > 0.0 && b > 0.0
    ensures Times(cb, a) >= Times(ca, b) ==> cb / b >= ca / a
    ensures Times(cb, a) <= Times(ca, b) ==> cb / b <= ca / a
  {
    var (x, y) := (ca / a, cb / b);
    assert x * a == ca && y * b == cb;
    assert a * b > 0.0;
    assert (y - x) * (a * b) == cb * a - ca * b;
    SignOfProduct(y - x, a * b);
  }

  lemma SignOfProduct(x: real, y: real)
    requires y > 0.0
    ensures (x * y >= 0.0 <==> x >= 0.0) && (x * y <= 0.0 <==> x <= 0.0)
  {
    if x > 0.0 { TimesSign(x, y); }
    if x < 0.0 { TimesSign(-x, y); }
  }

  /** The average is never better than the best price, and it is positive. */
  lemma AverageNoBetterThanBest(levels: seq<Level>, side: Side, q: real)
    requires Sound(levels) && BestFirst(levels, side) && q > 0.0 && Depth(levels) > 0.0
    ensures levels != [] && NoBetter(side, AvgPrice(levels, q), levels[0].price) && AvgPrice(levels, q) > 0.0
  {
    var t := Min(q, Depth(levels));
    assert levels != [];
    TakenIsMin(levels, q);
    CostIsCapped(levels, q);
    CostPositive(levels, q);
    AvgPriceIs(levels, q);
    CostOfNothing(levels);
    hide Cost, Taken, AvgPrice, Times, Depth;
    var p := levels[0].price;
    if side == Buy {
      Marginal(levels, p, 0.0, t);
    } else {
      SellerAscends(levels);
      CostNegated(levels, t);
      CostNegated(levels, 0.0);
      Marginal(Negated(levels), -p, 0.0, t);
      TimesNegative(t, p);
    }
    QuotientAgainst(Cost(levels, t), t, p);
  }

  lemma CostOfNothing(levels: seq<Level>)
    ensures Cost(levels, 0.0) == 0.0
  {
  }

  lemma QuotientAgainst(cost: real, t: real, p: real)
    requires t > 0.0
    ensures cost >= Times(t, p) ==> cost / t >= p
    ensures cost <= Times(t, p) ==> cost / t <= p
    ensures cost > 0.0 ==> cost / t > 0.0
  {
    var avg := cost / t;
    assert avg * t == cost;
    assert (avg - p) * t == cost - t * p;
    SignOfProduct(avg - p, t);
    SignOfProduct(avg, t);
  }

  // ----- the effective spread

  predicate SoundBook(book: OrderBook) {
    && Sound(book.bids) && Sound(book.asks) && BestFirst(book.bids, Sell) && BestFirst(book.asks, Buy)
    && book.bids != [] && book.asks != [] && book.midPrice > 0.0
  }

  function QuotedSpread(book: OrderBook): real
    requires SoundBook(book)
  {
    (book.asks[0].price - book.bids[0].price) / book.midPrice * 10000.0
  }

  /** `effective_spread` before rounding: zero when either side cannot fill. */
  function Spread(book: OrderBook, qty: real): real {
    var (buy, sell) := (AvgPrice(book.asks, qty), AvgPrice(book.bids, qty));
    if buy == 0.0 || sell == 0.0 || book.midPrice == 0.0 then 0.0 else (buy - sell) / book.midPrice * 10000.0
  }

  method EffectiveSpread(book: OrderBook, qty: real) returns (spread: real)
    ensures spread == Spread(book, qty)
  {
    hide *;
    SidesOf(book);
    var buyWalk := WalkTheBook(book, Buy, qty);
    var sellWalk := WalkTheBook(book, Sell, qty);
    SpreadOf(book, qty);
    if buyWalk.avgPrice == 0.0 || sellWalk.avgPrice == 0.0 || book.midPrice == 0.0 {
      return 0.0;
    }
    return (buyWalk.avgPrice - sellWalk.avgPrice) / book.midPrice * 10000.0;
  }

  lemma SidesOf(book: OrderBook)
    ensures LevelsOf(book, Buy) == book.asks && LevelsOf(book, Sell) == book.bids
  {
  }

  lemma SpreadOf(book: OrderBook, qty: real)
    ensures var (buy, sell) := (AvgPrice(book.asks, qty), AvgPrice(book.bids, qty));
            Spread(book, qty) == if buy == 0.0 || sell == 0.0 || book.midPrice == 0.0 then 0.0
                else (buy - sell) / book.midPrice * 10000.0
  {
    hide AvgPrice;
  }

  /** The effective spread is at least the quoted one exactly when both sides can fill
      something, or the quoted spread was not positive to begin with. */
  lemma EffectiveSpreadIff(book: OrderBook, qty: real)
    requires SoundBook(book)
    ensures Spread(book, qty) >= QuotedSpread(book) <==>
            (qty > 0.0 && Depth(book.asks) > 0.0 && Depth(book.bids) > 0.0) || book.asks[0].price <= book.bids[0].price
  {
    var (buy, sell) := (AvgPrice(book.asks, qty), AvgPrice(book.bids, qty));
    var (ask, bid, mid) := (book.asks[0].price, book.bids[0].price, book.midPrice);
    SpreadOf(book, qty);
    if qty > 0.0 && Depth(book.asks) > 0.0 && Depth(book.bids) > 0.0 {
      AverageNoBetterThanBest(book.asks, Buy, qty);
      AverageNoBetterThanBest(book.bids, Sell, qty);
      hide AvgPrice, Spread;
      DivideMono(ask - bid, buy - sell, mid);
    } else {
      NothingFilled(book.asks, qty);
      NothingFilled(book.bids, qty);
      hide AvgPrice, Spread;
      SignOfQuotient(ask - bid, mid);
    }
  }

  lemma NothingFilled(levels: seq<Level>, qty: real)
    requires Sound(levels)
    ensures qty <= 0.0 || Depth(levels) <= 0.0 ==> AvgPrice(levels, qty) == 0.0
  {
    DepthNotNegative(levels);
    if qty > 0.0 { TakenIsMin(levels, qty); }
  }

  lemma DivideMono(x: real, y: real, z: real)
    requires x <= y && z > 0.0
    ensures x / z * 10000.0 <= y / z * 10000.0
  {
    var (u, v) := (x / z, y / z);
    assert u * z == x && v * z == y;
    assert (v - u) * z == y - x;
    SignOfProduct(v - u, z);
  }

  lemma SignOfQuotient(x: real, z: real)
    requires z > 0.0
    ensures 0.0 >= x / z * 10000.0 <==> x <= 0.0
  {
    var u := x / z;
    assert u * z == x;
    SignOfProduct(u, z);
  }

  // ----- depth within a band

  /** The largest 96-bit decimal, which stands for the distance from a best price of zero. */
  const DECIMAL_MAX: real := 79228162514264337593543950335.0

  predicate InBand(best: real, l: Level, bps: real) {
    (if best == 0.0 then DECIMAL_MAX else Abs(l.price - best) / best * 10000.0) <= bps
  }

  /** The levels before the first one outside the band. */
  function Leading(levels: seq<Level>, best: real, bps: real): seq<Level> {
    if levels == [] || !InBand(best, levels[0], bps) then [] else [levels[0]] + Leading(levels[1..], best, bps)
  }

  /** The levels within the band, wherever they stand in the book. */
  function Band(levels: seq<Level>, best: real, bps: real): seq<Level> {
    if levels == [] then [] else
    (if InBand(best, levels[0], bps) then [levels[0]] else []) + Band(levels[1..], best, bps)
  }

  function Notional(levels: seq<Level>): real {
    if levels == [] then 0.0 else levels[0].price * levels[0].qty + Notional(levels[1..])
  }

  method DepthAtBps(book: OrderBook, side: Side, bps: real) returns (qty: real, cost: real)
    ensures var levels := LevelsOf(book, side);
            if levels == [] then qty == 0.0 && cost == 0.0
            else
              var leading := Leading(levels, levels[0].price, bps);
              qty == Depth(leading) && cost == Notional(leading)
  {
    hide *;
    var levels := LevelsOf(book, side);
    if levels == [] { return 0.0, 0.0; }
    var best := levels[0].price;
    qty, cost := 0.0, 0.0;
    var i := 0;
    assert levels[0..] == levels;
    while i < |levels|
      invariant 0 <= i <= |levels|
      invariant qty + Depth(Leading(levels[i..], best, bps)) == Depth(Leading(levels, best, bps))
      invariant cost + Notional(Leading(levels[i..], best, bps)) == Notional(Leading(levels, best, bps))
    {
      assert levels[i..][0] == levels[i] && levels[i..][1..] == levels[i + 1..];
      LeadingStep(levels[i..], best, bps);
      InBandIs(best, levels[i], bps);
      var distance := if best == 0.0 then DECIMAL_MAX else Abs(levels[i].price - best) / best * 10000.0;
      if distance <= bps {
        qty := qty + levels[i].qty;
        cost := cost + levels[i].price * levels[i].qty;
      } else {
        return;
      }
      i := i + 1;
    }
    assert levels[i..] == [];
    LeadingOfNothing(best, bps);
  }

  lemma InBandIs(best: real, l: Level, bps: real)
    ensures InBand(best, l, bps) <==> (if best == 0.0 then DECIMAL_MAX else Abs(l.price - best) / best * 10000.0) <= bps
  {
    hide Abs, DECIMAL_MAX;
  }

  /** A level is in the band exactly when its price is within that share of the best one, either way. */
  lemma InBandIff(best: real, l: Level, bps: real)
    requires best > 0.0
    ensures InBand(best, l, bps) <==> best * (10000.0 - bps) <= l.price * 10000.0 <= best * (10000.0 + bps)
  {
    var share := Abs(l.price - best) / best;
    assert share * best == Abs(l.price - best);
    SignOfProduct(bps - share * 10000.0, best);
    assert (bps - share * 10000.0) * best == bps * best - Abs(l.price - best) * 10000.0;
  }

  lemma LeadingOfNothing(best: real, bps: real)
    ensures Depth(Leading([], best, bps)) == 0.0 && Notional(Leading([], best, bps)) == 0.0
  {
  }

  lemma LeadingStep(levels: seq<Level>, best: real, bps: real)
    requires levels != []
    ensures var all, rest := Leading(levels, best, bps), Leading(levels[1..], best, bps);
            if InBand(best, levels[0], bps)
            then Depth(all) == levels[0].qty + Depth(rest)
                && Notional(all) == levels[0].price * levels[0].qty + Notional(rest)
            else Depth(all) == 0.0 && Notional(all) == 0.0
  {
    LeadingUnfolds(levels, best, bps);
    LeadingOfNothing(best, bps);
    hide *;
    Prepended(levels[0], Leading(levels[1..], best, bps));
  }

  lemma LeadingUnfolds(levels: seq<Level>, best: real, bps: real)
    requires levels != []
    ensures Leading(levels, best, bps) ==
            if InBand(best, levels[0], bps) then [levels[0]] + Leading(levels[1..], best, bps)
                else Leading([], best, bps)
  {
    hide InBand;
  }

  lemma Prepended(l: Level, rest: seq<Level>)
    ensures Depth([l] + rest) == l.qty + Depth(rest)
    ensures Notional([l] + rest) == l.price * l.qty + Notional(rest)
  {
    assert ([l] + rest)[1..] == rest;
  }

  /** The early exit loses nothing exactly when no level in the band stands behind one outside
      it; a book with the best price first has none. */
  lemma {:induction false} LeadingIsBandIff(levels: seq<Level>, best: real, bps: real)
    ensures Leading(levels, best, bps) == Band(levels, best, bps) <==>
            forall i, j :: 0 <= i < j < |levels| && InBand(best, levels[j], bps) ==> InBand(best, levels[i], bps)
    decreases levels
  {
    hide InBand;
    if levels == [] {
    } else {
      var rest := levels[1..];
      LeadingIsBandIff(rest, best, bps);
      BandEmptyIff(rest, best, bps);
      assert forall i :: 0 <= i < |rest| ==> rest[i] == levels[i + 1];
      if InBand(best, levels[0], bps) {
        assert ([levels[0]] + Leading(rest, best, bps))[1..] == Leading(rest, best, bps);
        assert ([levels[0]] + Band(rest, best, bps))[1..] == Band(rest, best, bps);
      } else {
        assert [] + Band(rest, best, bps) == Band(rest, best, bps);
      }
    }
  }

  lemma {:induction false} BandEmptyIff(levels: seq<Level>, best: real, bps: real)
    ensures Band(levels, best, bps) == [] <==> forall k :: 0 <= k < |levels| ==> !InBand(best, levels[k], bps)
    decreases levels
  {
    hide InBand;
    if levels == [] {
    } else {
      BandEmptyIff(levels[1..], best, bps);
      assert forall k :: 0 <= k < |levels[1..]| ==> levels[1..][k] == levels[k + 1];
    }
  }

  lemma SortedBandIsLeading(levels: seq<Level>, side: Side, bps: real)
    requires Sound(levels) && BestFirst(levels, side) && levels != []
    ensures Leading(levels, levels[0].price, bps) == Band(levels, levels[0].price, bps)
  {
    var best := levels[0].price;
    forall i, j | 0 <= i < j < |levels| && InBand(best, levels[j], bps)
      ensures InBand(best, levels[i], bps)
    {
      DivideMono(Abs(levels[i].price - best), Abs(levels[j].price - best), best);
    }
    LeadingIsBandIff(levels, best, bps);
  }
}
