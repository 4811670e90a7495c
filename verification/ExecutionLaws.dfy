/** What every call, and every run of calls, of `execute` guarantees. */
module ExecutionLaws {
  import opened Common
  import opened Recovery
  import opened Inventory
  import opened Execution

  /** The call got past the breaker, the replay filter and the validity check. */
  ghost predicate Reached(c: Config, w: World, i: Input) { Gates(c, w, i).1.None? }

  /** No leg is attempted while the breaker is open, for an id completed within the TTL, or
      for an invalid signal; in every other case the legs are reached. */
  lemma ReachedIff(c: Config, w: World, i: Input)
    ensures Reached(c, w, i) <==>
            && !Open(c.breaker, w.breaker, i.clock.gate)
            && !(i.signal.signalId in w.replay && w.replay[i.signal.signalId] > i.clock.replay - c.replayTtl)
            && IsValid(i.signal, i.clock.validate)
    ensures !Reached(c, w, i) ==>
              var (w', ctx) := Step(c, w, i);
              w'.effects == w.effects && w'.trades == w.trades && w'.replay == w.replay &&
              w'.breaker == Query(c.breaker, w.breaker, i.clock.gate)
  {
    hide Legs, Open, Query, IsValid;
  }

  /** The result is Done or Failed; Done means both legs filled, and then the profit is set
      and there is no error; Failed means an error and no profit.  Exactly one counter moves. */
  lemma OutcomeLaw(c: Config, w: World, i: Input)
    ensures var (w', ctx) := Step(c, w, i);
            && (ctx.state == Done || ctx.state == Failed)
            && (ctx.state == Done <==> Reached(c, w, i) && Filled1(c, i.signal, i.leg1) && Filled2(i.leg2))
            && (if ctx.state == Done then ctx.actualNetPnl.Some? && ctx.error.None?
                else ctx.actualNetPnl.None? && ctx.error.Some?)
            && w'.attempts == w.attempts + 1
            && w'.successes == w.successes + (if ctx.state == Done then 1 else 0)
            && w'.failures == w.failures + (if ctx.state == Done then 0 else 1)
  {
    hide IsPartial, CalculatePnl, TradeOf, Query, Failure, Open, IsValid;
  }

  /** The calls made to the venues, in order: leg 1 for the signal's size, leg 2 for what leg 1
      filled, and an unwind exactly when leg 1 filled and leg 2 did not. */
  ghost function ExpectedEffects(c: Config, w: World, i: Input): seq<Effect> {
    var l1, l2 := FirstLeg(i.signal.direction), SecondLeg(i.signal.direction);
    if !Reached(c, w, i) then []
    else if !Filled1(c, i.signal, i.leg1) then [Attempt(l1, i.signal.size)]
    else [Attempt(l1, i.signal.size), Attempt(l2, i.leg1.result.filled)]
         + (if Filled2(i.leg2) then [] else [Unwound(if i.leg2.Timeout? then Leg2Timeout else Leg2Failed)])
  }

  lemma EffectLaw(c: Config, w: World, i: Input)
    ensures Step(c, w, i).0.effects == w.effects + ExpectedEffects(c, w, i)
  {
    hide IsPartial, CalculatePnl, TradeOf, Query, Failure, Open, IsValid;
  }

  /** The ledger entries of a call: none unless leg 1 filled, leg 1 alone when leg 2 did not. */
  ghost function AcceptedTrades(c: Config, w: World, i: Input): seq<Trade> {
    var s := i.signal;
    if Reached(c, w, i) && Filled1(c, s, i.leg1)
    then TradeOf(s, FirstLeg(s.direction), i.leg1.result.filled, i.leg1.result.price)
         + (if Filled2(i.leg2) then TradeOf(s, SecondLeg(s.direction), i.leg2.result.filled, i.leg2.result.price)
             else [])
    else []
  }

  lemma TradeLaw(c: Config, w: World, i: Input)
    ensures Step(c, w, i).0.trades == w.trades + AcceptedTrades(c, w, i)
  {
    hide IsPartial, CalculatePnl, TradeOf, Query, Failure, Open, IsValid;
  }

  /** A failed call trips the breaker exactly when the window ending at the failure holds the
      threshold; the call's own re-check clears everything again if the cooldown is over by then. */
  lemma FailedCallTripsIff(c: Config, w: World, i: Input)
    requires Reached(c, w, i) && Step(c, w, i).1.state == Failed
    requires Sorted(w.breaker.history) && UpTo(w.breaker.history, i.clock.failed)
    ensures var h := Query(c.breaker, w.breaker, i.clock.gate).history + [i.clock.failed];
            var tripped := CountWithin(h, i.clock.failed - c.breaker.windowSeconds, i.clock.failed)
                           >= c.breaker.failureThreshold;
            Step(c, w, i).0.breaker ==
              if !tripped then Breaker(h, None)
              else if i.clock.reopen - i.clock.failed > c.breaker.cooldownSeconds then CLOSED
              else Breaker(h, Some(i.clock.failed))
  {
    var b := Query(c.breaker, w.breaker, i.clock.gate);
    assert b.trippedAt.None? by { hide Legs; }
    TripsIff(c.breaker, b, i.clock.failed);
    FailureIs(c.breaker, b, i.clock.failed);
    LegsKeepBreaker(c, Gates(c, w, i).0, NewContext(i.signal, i.clock.started).(state := Validating), i.leg1, i.leg2);
    hide Legs, Failure, CountWithin, IsValid, Gates;
    assert Gates(c, w, i).0.breaker == b by { GatesKeep(c, w, i); }
  }

  /** Over every run from the start the failures are recorded in order, none of them later than the
      last call. */
  lemma {:induction false} HistoryInOrder(c: Config, inputs: seq<Input>, now: real)
    requires Ordered(inputs) && forall i :: 0 <= i < |inputs| ==> inputs[i].clock.finished <= now
    ensures var history := Run(c, FRESH, inputs).breaker.history; Sorted(history) && UpTo(history, now)
    decreases inputs
  {
    if inputs == [] {
    } else {
      var init, i := inputs[..|inputs| - 1], inputs[|inputs| - 1];
      assert Ordered(init);
      HistoryInOrder(c, init, i.clock.started);
      var w := Run(c, FRESH, init);
      assert Run(c, FRESH, inputs) == Step(c, w, i).0;
      hide Run, Step, Ordered;
      StepKeepsOrder(c, w, i, now);
    }
  }

  lemma StepKeepsOrder(c: Config, w: World, i: Input, now: real)
    requires Monotone(i.clock) && i.clock.finished <= now
    requires Sorted(w.breaker.history) && UpTo(w.breaker.history, i.clock.started)
    ensures var history := Step(c, w, i).0.breaker.history; Sorted(history) && UpTo(history, now)
  {
    var gated := Query(c.breaker, w.breaker, i.clock.gate);
    var history := gated.history + [i.clock.failed];
    SortedAppend(gated.history, i.clock.failed);
    BreakerAfterStep(c, w, i);
    hide Step;
  }

  /** The history after a call: as the gate leaves it, with one failure more, or cleared. */
  lemma BreakerAfterStep(c: Config, w: World, i: Input)
    ensures var before := Query(c.breaker, w.breaker, i.clock.gate).history;
            Step(c, w, i).0.breaker.history in {before, before + [i.clock.failed], []}
  {
    GatesKeep(c, w, i);
    LegsKeepBreaker(c, Gates(c, w, i).0, NewContext(i.signal, i.clock.started).(state := Validating), i.leg1, i.leg2);
    hide Legs, Gates, Recent;
  }

  lemma OrderBefore(c: Config, inputs: seq<Input>, n: nat)
    requires Ordered(inputs) && n < |inputs|
    ensures var history := Before(c, FRESH, inputs, n).breaker.history;
            Sorted(history) && UpTo(history, inputs[n].clock.failed)
  {
    assert Ordered(inputs[..n]);
    assert forall k :: 0 <= k < n ==> inputs[..n][k].clock.finished <= inputs[n].clock.started;
    assert Monotone(inputs[n].clock) && inputs[n].clock.started <= inputs[n].clock.failed;
    HistoryInOrder(c, inputs[..n], inputs[n].clock.failed);
    hide Run, Ordered, Sorted;
  }

  /** So in every run from the start a failed call trips the breaker exactly as the window says. */
  lemma RunTripsIff(c: Config, inputs: seq<Input>, n: nat)
    requires Ordered(inputs) && n < |inputs|
    requires Reached(c, Before(c, FRESH, inputs, n), inputs[n])
    requires Step(c, Before(c, FRESH, inputs, n), inputs[n]).1.state == Failed
    ensures var w, i := Before(c, FRESH, inputs, n), inputs[n];
            var h := Query(c.breaker, w.breaker, i.clock.gate).history + [i.clock.failed];
            var tripped := CountWithin(h, i.clock.failed - c.breaker.windowSeconds, i.clock.failed)
                           >= c.breaker.failureThreshold;
            Before(c, FRESH, inputs, n + 1).breaker ==
              if !tripped then Breaker(h, None)
              else if i.clock.reopen - i.clock.failed > c.breaker.cooldownSeconds then CLOSED
              else Breaker(h, Some(i.clock.failed))
  {
    hide *;
    OrderBefore(c, inputs, n);
    BeforeNext(c, FRESH, inputs, n);
    FailedCallTripsIff(c, Before(c, FRESH, inputs, n), inputs[n]);
  }

  lemma GatesKeep(c: Config, w: World, i: Input)
    ensures var w1 := Gates(c, w, i).0;
            w1.breaker == Query(c.breaker, w.breaker, i.clock.gate) && w1.replay == w.replay && w1.trades == w.trades
  {
  }

  lemma LegsKeepBreaker(c: Config, w: World, ctx: Context, o1: LegOutcome, o2: LegOutcome)
    ensures Legs(c, w, ctx, o1, o2).0.breaker == w.breaker && Legs(c, w, ctx, o1, o2).0.replay == w.replay
  {
    hide IsPartial, CalculatePnl, TradeOf;
  }

  // ----- the gates, spelled out

  /** The first call of a fresh executor reaches the legs exactly when its signal is live, allowed and
      promising. */
  lemma FirstCallReachesIff(c: Config, i: Input)
    ensures Reached(c, FRESH, i) <==>
            var s := i.signal;
            i.clock.validate < s.expiry && s.inventoryOk && s.withinLimits && s.expectedNetPnl > 0.0 && s.score > 0.0
  {
    hide Legs;
  }

  /** An expired signal and one without profit to expect reach no leg in any state. */
  lemma HopelessSignalReachesNoLeg(c: Config, w: World, i: Input)
    requires i.signal.expiry <= i.clock.validate || i.signal.expectedNetPnl <= 0.0 || i.signal.score <= 0.0
             || !i.signal.inventoryOk || !i.signal.withinLimits
    ensures !Reached(c, w, i) && Step(c, w, i).0.effects == w.effects && Step(c, w, i).0.trades == w.trades
  {
    ReachedIff(c, w, i);
    hide Step, Reached, Open;
  }

  /** A first leg on the exchange is accepted exactly when it fills the minimum share of the size; for a
      size of zero there is no share, and only a negative fill is refused. */
  lemma ExchangeLegAcceptedIff(c: Config, s: Signal, r: LegResult)
    requires s.direction == BuyCexSellDex && r.success && s.size >= 0.0
    ensures Filled1(c, s, Answered(r)) <==>
            if s.size > 0.0 then r.filled >= c.minFillRatio * s.size else r.filled >= 0.0
  {
    if s.size > 0.0 {
      var share := r.filled / s.size;
      assert share * s.size == r.filled;
      if share < c.minFillRatio {
        TimesSign(c.minFillRatio - share, s.size);
        assert (c.minFillRatio - share) * s.size > 0.0;
      } else {
        TimesSign(share - c.minFillRatio, s.size);
        assert (share - c.minFillRatio) * s.size >= 0.0;
      }
    }
  }

  /** A call is refused with `CircuitOpen` exactly when the gate finds the breaker open. */
  lemma CircuitOpenIff(c: Config, w: World, i: Input)
    ensures Step(c, w, i).1.error == Some(CircuitOpen) <==> Open(c.breaker, w.breaker, i.clock.gate)
  {
    hide IsPartial, CalculatePnl, TradeOf, Failure, IsValid, Open;
  }

  /** The error a call reports, by what happened first. */
  lemma ErrorLaw(c: Config, w: World, i: Input)
    ensures var error := Step(c, w, i).1.error;
            var (o1, o2) := (i.leg1, i.leg2);
            if Open(c.breaker, w.breaker, i.clock.gate) then error == Some(CircuitOpen)
            else if Duplicate(w.replay, c.replayTtl, i.signal.signalId, i.clock.replay) then
              error == Some(DuplicateSignal)
            else if !IsValid(i.signal, i.clock.validate) then error == Some(SignalInvalid)
            else if o1.Timeout? then error == Some(Leg1Timeout)
            else if !o1.result.success then error == Some(Leg1Rejected)
            else if !Filled1(c, i.signal, o1) then error == Some(PartialFill)
            else if o2.Timeout? then error == Some(Leg2Timeout)
            else if !o2.result.success then error == Some(Leg2Failed)
            else error == None
  {
    hide IsPartial, CalculatePnl, TradeOf, Failure, IsValid, Open, Duplicate;
  }

  /** The leg that failed a call, if one did. */
  ghost predicate FailedOn(c: Config, w: World, i: Input, onExchange: bool) {
    Reached(c, w, i) &&
    var firstFails := !Filled1(c, i.signal, i.leg1);
    (firstFails || !Filled2(i.leg2)) && onExchange == (firstFails == (i.signal.direction == BuyCexSellDex))
  }

  /** Each failed leg moves the counter of its venue by one, and nothing else moves them. */
  lemma LegCounterLaw(c: Config, w: World, i: Input)
    ensures var w' := Step(c, w, i).0;
            && w'.cexFailures == w.cexFailures + (if FailedOn(c, w, i, true) then 1 else 0)
            && w'.dexFailures == w.dexFailures + (if FailedOn(c, w, i, false) then 1 else 0)
  {
    hide IsPartial, CalculatePnl, TradeOf, Query, Failure, IsValid, Open, Duplicate;
  }

  /** What the context of a completed call records: both fills, the exchange's order id and the chain's
      transaction hash each in the field of its leg, and the times. */
  lemma ReceiptLaw(c: Config, w: World, i: Input)
    ensures var ctx := Step(c, w, i).1;
            && ctx.signal == i.signal && ctx.startedAt == i.clock.started
            && ctx.finishedAt == (if Reached(c, w, i) then Some(i.clock.finished) else None)
            && (ctx.state == Done ==>
                  && i.leg1.Answered? && i.leg2.Answered?
                  && ctx.leg1FillPrice == Some(i.leg1.result.price) && ctx.leg1FillSize == Some(i.leg1.result.filled)
                  && ctx.leg2FillPrice == Some(i.leg2.result.price) && ctx.leg2FillSize == Some(i.leg2.result.filled)
                  && (i.signal.direction == BuyCexSellDex ==>
                        ctx.leg1OrderId == i.leg1.result.orderId && ctx.leg2TxHash == i.leg2.result.txHash)
                  && (i.signal.direction == BuyDexSellCex ==>
                        ctx.leg1OrderId == i.leg1.result.txHash && ctx.leg2TxHash == i.leg2.result.orderId))
  {
    hide IsPartial, CalculatePnl, TradeOf, Query, Failure, IsValid, Open, Duplicate;
  }

  // ----- the profit and the ledger

  /** What an accepted leg moves, on its own venue only: a buy adds the base less a tenth of a percent
      and takes the quote; a sell takes the base and adds the quote less a tenth of a percent. */
  function Moved(d: Direction, onExchange: bool, base: string, quote: string, filled: real, price: real,
                 v: Venue, asset: string): real {
    if (v == Cex) != onExchange then 0.0
    else if onExchange == (d == BuyCexSellDex) then
      (if asset == base then filled * 0.999 else 0.0) - (if asset == quote then filled * price else 0.0)
    else
      (if asset == quote then filled * price * 0.999 else 0.0) - (if asset == base then filled else 0.0)
  }

  lemma TradeMoves(s: Signal, l: Leg, base: string, quote: string, filled: real, price: real, v: Venue, asset: string)
    requires SplitSlash(s.pair) == [base, quote]
    ensures TotalDelta(TradeOf(s, l, filled, price), v, asset)
            == Moved(s.direction, l == CexLeg, base, quote, filled, price, v, asset)
  {
    var trades := TradeOf(s, l, filled, price);
    assert |trades| == 1 && trades[..0] == [];
    assert TotalDelta(trades, v, asset) == Delta(trades[0], v, asset);
    hide SplitSlash, TotalDelta;
  }

  /** What a call moves: its accepted legs, and nothing for a pair that does not split in two. */
  ghost function CallMoves(c: Config, w: World, i: Input, v: Venue, asset: string): real {
    var s := i.signal;
    var parts := SplitSlash(s.pair);
    if |parts| != 2 || !Reached(c, w, i) || !Filled1(c, s, i.leg1) then 0.0
    else
      var exchangeFirst := s.direction == BuyCexSellDex;
      var r1 := i.leg1.result;
      Moved(s.direction, exchangeFirst, parts[0], parts[1], r1.filled, r1.price, v, asset)
      + (if !Filled2(i.leg2) then 0.0 else
         var r2 := i.leg2.result;
         Moved(s.direction, !exchangeFirst, parts[0], parts[1], r2.filled, r2.price, v, asset))
  }

  lemma CallMovesIs(c: Config, w: World, i: Input, v: Venue, asset: string)
    ensures TotalDelta(AcceptedTrades(c, w, i), v, asset) == CallMoves(c, w, i, v, asset)
  {
    var s := i.signal;
    hide Reached, Moved, IsPartial;
    if Reached(c, w, i) && Filled1(c, s, i.leg1) {
      LegMoves(s, FirstLeg(s.direction), i.leg1.result.filled, i.leg1.result.price, v, asset);
      var first := TradeOf(s, FirstLeg(s.direction), i.leg1.result.filled, i.leg1.result.price);
      if Filled2(i.leg2) {
        LegMoves(s, SecondLeg(s.direction), i.leg2.result.filled, i.leg2.result.price, v, asset);
        var second := TradeOf(s, SecondLeg(s.direction), i.leg2.result.filled, i.leg2.result.price);
        hide TradeOf, SplitSlash, TotalDelta;
        TotalDeltaAppend(first, second, v, asset);
      } else {
        assert first + [] == first;
        hide TradeOf, SplitSlash, TotalDelta;
      }
    }
  }

  lemma LegMoves(s: Signal, l: Leg, filled: real, price: real, v: Venue, asset: string)
    ensures var parts := SplitSlash(s.pair);
            TotalDelta(TradeOf(s, l, filled, price), v, asset) ==
            if |parts| != 2 then 0.0
            else Moved(s.direction, l == CexLeg, parts[0], parts[1], filled, price, v, asset)
  {
    var parts := SplitSlash(s.pair);
    if |parts| == 2 {
      assert parts == [parts[0], parts[1]];
      TradeMoves(s, l, parts[0], parts[1], filled, price, v, asset);
    }
    hide SplitSlash, Moved;
  }

  /** What the two legs move on the venue bought on and on the venue sold on. */
  ghost predicate BuysAndSells(trades: seq<Trade>, d: Direction, base: string, quote: string,
                               s1: real, p1: real, s2: real, p2: real) {
    var (buys, sells) := if d == BuyCexSellDex then (Cex, Wallet) else (Wallet, Cex);
    && TotalDelta(trades, buys, base) == s1 * 0.999 && TotalDelta(trades, buys, quote) == -(s1 * p1)
    && TotalDelta(trades, sells, base) == -s2 && TotalDelta(trades, sells, quote) == s2 * p2 * 0.999
  }

  lemma TwoLegsMove(trades: seq<Trade>, d: Direction, base: string, quote: string,
                    s1: real, p1: real, s2: real, p2: real)
    requires base != quote
    requires forall v: Venue, asset: string ::
               TotalDelta(trades, v, asset) == Moved(d, d == BuyCexSellDex, base, quote, s1, p1, v, asset)
                                               + Moved(d, d != BuyCexSellDex, base, quote, s2, p2, v, asset)
    ensures BuysAndSells(trades, d, base, quote, s1, p1, s2, p2)
  {
    hide TotalDelta;
  }

  lemma OneLegMoves(trades: seq<Trade>, d: Direction, base: string, quote: string, s1: real, p1: real)
    requires base != quote
    requires forall v: Venue, asset: string ::
               TotalDelta(trades, v, asset) == Moved(d, d == BuyCexSellDex, base, quote, s1, p1, v, asset)
    ensures BuysAndSells(trades, d, base, quote, s1, p1, 0.0, 0.0)
  {
    hide TotalDelta;
  }

  /** A completed call, venue by venue: bought on one, sold on the other. */
  lemma DoneMoves(c: Config, w: World, i: Input, base: string, quote: string)
    requires Step(c, w, i).1.state == Done
    requires i.signal.pair == base + "/" + quote && '/' !in base && '/' !in quote && base != quote
    ensures i.leg1.Answered? && i.leg2.Answered?
    ensures BuysAndSells(AcceptedTrades(c, w, i), i.signal.direction, base, quote,
                         i.leg1.result.filled, i.leg1.result.price, i.leg2.result.filled, i.leg2.result.price)
  {
    OutcomeLaw(c, w, i);
    SplitJoin(base, quote);
    assert i.leg1.Answered? && i.leg2.Answered?;
    var (r1, r2) := (i.leg1.result, i.leg2.result);
    var (d, trades) := (i.signal.direction, AcceptedTrades(c, w, i));
    hide Step, Reached, AcceptedTrades, TotalDelta, SplitSlash, Moved, IsPartial;
    forall v: Venue, asset: string
      ensures TotalDelta(trades, v, asset) == Moved(d, d == BuyCexSellDex, base, quote, r1.filled, r1.price, v, asset)
                                              + Moved(d, d != BuyCexSellDex, base, quote, r2.filled, r2.price, v, asset)
    {
      CallMovesIs(c, w, i, v, asset);
    }
    TwoLegsMove(trades, d, base, quote, r1.filled, r1.price, r2.filled, r2.price);
  }

  /** A call whose second leg failed: bought on one venue, nothing moved on the other. */
  lemma LoneLegMoves(c: Config, w: World, i: Input, base: string, quote: string)
    requires Reached(c, w, i) && Filled1(c, i.signal, i.leg1) && !Filled2(i.leg2)
    requires i.signal.pair == base + "/" + quote && '/' !in base && '/' !in quote && base != quote
    ensures BuysAndSells(AcceptedTrades(c, w, i), i.signal.direction, base, quote,
                         i.leg1.result.filled, i.leg1.result.price, 0.0, 0.0)
  {
    SplitJoin(base, quote);
    var r1 := i.leg1.result;
    var (d, trades) := (i.signal.direction, AcceptedTrades(c, w, i));
    hide Reached, AcceptedTrades, TotalDelta, SplitSlash, Moved, IsPartial;
    forall v: Venue, asset: string
      ensures TotalDelta(trades, v, asset) == Moved(d, d == BuyCexSellDex, base, quote, r1.filled, r1.price, v, asset)
    {
      CallMovesIs(c, w, i, v, asset);
    }
    OneLegMoves(trades, d, base, quote, r1.filled, r1.price);
  }

  /** The change of one asset over both venues. */
  ghost function NetDelta(trades: seq<Trade>, asset: string): real {
    TotalDelta(trades, Cex, asset) + TotalDelta(trades, Wallet, asset)
  }

  /** The ledger change in units of quote, the base asset priced at p. */
  ghost function ValuedAt(trades: seq<Trade>, base: string, quote: string, p: real): real {
    NetDelta(trades, base) * p + NetDelta(trades, quote)
  }

  function ReportingGap(s1: real, p1: real, s2: real, p2: real): real {
    (s1 - s2) * (p2 - p1) + 0.001 * (s2 * p2 - s1 * p1)
  }

  /** For a completed call on the pair base/quote with fills s1 at p1 and s2 at p2, the reported
      profit is the ledger change valued at p1 plus (s1-s2)·(p2-p1) + 0.001·(s2·p2 - s1·p1);
      no other asset moves. */
  lemma PnlAgainstLedger(c: Config, w: World, i: Input, base: string, quote: string, other: string)
    requires Step(c, w, i).1.state == Done
    requires i.signal.pair == base + "/" + quote && '/' !in base && '/' !in quote && base != quote
    requires other != base && other != quote
    ensures i.leg1.Answered? && i.leg2.Answered?
    ensures var trades := AcceptedTrades(c, w, i);
            var (s1, p1) := (i.leg1.result.filled, i.leg1.result.price);
            var (s2, p2) := (i.leg2.result.filled, i.leg2.result.price);
            var pnl := Step(c, w, i).1.actualNetPnl;
            && Step(c, w, i).0.trades == w.trades + trades
            && pnl.Some?
            && pnl.value == ValuedAt(trades, base, quote, p1) + ReportingGap(s1, p1, s2, p2)
            && NetDelta(trades, other) == 0.0
  {
    OutcomeLaw(c, w, i);
    TradeLaw(c, w, i);
    SplitJoin(base, quote);
    var s := i.signal;
    var (s1, p1) := (i.leg1.result.filled, i.leg1.result.price);
    var (s2, p2) := (i.leg2.result.filled, i.leg2.result.price);
    DonePnl(c, w, i);
    TradesOfDone(s, base, quote, s1, p1, s2, p2);
    hide Step, TradeOf, BuyThenSell, ReportingGap, NetDelta;
    TwoTradeDeltas(s.direction, base, quote, other, s1, p1, s2, p2);
    PnlAlgebra(s1, p1, s2, p2);
  }

  /** With equal fills the gap is a tenth of a percent of the price move. */
  lemma PnlWithEqualFills(c: Config, w: World, i: Input, base: string, quote: string)
    requires Step(c, w, i).1.state == Done
    requires i.signal.pair == base + "/" + quote && '/' !in base && '/' !in quote && base != quote
    requires i.leg1.Answered? && i.leg2.Answered? && i.leg1.result.filled == i.leg2.result.filled
    ensures var trades := AcceptedTrades(c, w, i);
            var (s, p1, p2) := (i.leg1.result.filled, i.leg1.result.price, i.leg2.result.price);
            var pnl := Step(c, w, i).1.actualNetPnl;
            pnl.Some? && pnl.value == ValuedAt(trades, base, quote, p1) + 0.001 * s * (p2 - p1)
  {
    hide *;
    var other := Unrelated(base, quote);
    PnlAgainstLedger(c, w, i, base, quote, other);
    EqualFills(i.leg1.result.filled, i.leg1.result.price, i.leg2.result.price);
  }

  function Unrelated(base: string, quote: string): (other: string)
    ensures other != base && other != quote
  {
    var other := base + quote + "/";
    assert |other| > |base| && |other| > |quote|;
    other
  }

  lemma EqualFills(s: real, p1: real, p2: real)
    ensures ReportingGap(s, p1, s, p2) == 0.001 * s * (p2 - p1)
  {
    assert (s - s) * (p2 - p1) == 0.0;
  }

  lemma DonePnl(c: Config, w: World, i: Input)
    requires Step(c, w, i).1.state == Done
    ensures i.leg1.Answered? && i.leg2.Answered?
    ensures var (s1, p1, p2) := (i.leg1.result.filled, i.leg1.result.price, i.leg2.result.price);
            var pnl := Step(c, w, i).1.actualNetPnl;
            pnl.Some? && pnl.value == (p2 - p1) * s1 - s1 * p1 * 0.002
  {
    OutcomeLaw(c, w, i);
    DoneContext(c, w, i);
    var ctx := Step(c, w, i).1;
    hide Step;
    var before: Context :| ctx.actualNetPnl == Some(CalculatePnl(before)) && SameFills(before, ctx);
    assert before.signal == i.signal;
    PnlOfContext(before, i.leg1.result.filled, i.leg1.result.price, i.leg2.result.price);
    hide CalculatePnl;
  }

  lemma DoneContext(c: Config, w: World, i: Input)
    requires Step(c, w, i).1.state == Done && i.leg1.Answered? && i.leg2.Answered?
    ensures var ctx := Step(c, w, i).1;
            && ctx.signal == i.signal && ctx.leg1Venue == Some(FirstLeg(i.signal.direction))
            && ctx.leg1FillPrice == Some(i.leg1.result.price) && ctx.leg1FillSize == Some(i.leg1.result.filled)
            && ctx.leg2FillPrice == Some(i.leg2.result.price) && ctx.leg2FillSize == Some(i.leg2.result.filled)
            && exists before: Context :: ctx.actualNetPnl == Some(CalculatePnl(before)) && SameFills(before, ctx)
  {
    hide IsPartial, CalculatePnl, TradeOf, Query, Failure, Open, IsValid;
    var (w1, refusal) := Gates(c, w, i);
    var (w2, res) := Legs(c, w1, NewContext(i.signal, i.clock.started).(state := Validating), i.leg1, i.leg2);
    var before := res.(state := Leg2Pending, actualNetPnl := None);
    assert res.actualNetPnl == Some(CalculatePnl(before));
    assert SameFills(before, Step(c, w, i).1);
  }

  ghost predicate SameFills(a: Context, b: Context) {
    && a.signal == b.signal && a.leg1Venue == b.leg1Venue
    && a.leg1FillPrice == b.leg1FillPrice && a.leg1FillSize == b.leg1FillSize && a.leg2FillPrice == b.leg2FillPrice
  }

  lemma PnlOfContext(ctx: Context, s1: real, p1: real, p2: real)
    requires ctx.leg1Venue == Some(FirstLeg(ctx.signal.direction))
    requires ctx.leg1FillPrice == Some(p1) && ctx.leg1FillSize == Some(s1) && ctx.leg2FillPrice == Some(p2)
    ensures CalculatePnl(ctx) == (p2 - p1) * s1 - s1 * p1 * 0.002
  {
  }

  /** Legs recorded the other way round would flip the gross profit; the fee stays. */
  lemma PnlFlips(ctx: Context, s1: real, p1: real, p2: real)
    requires ctx.leg1Venue == Some(SecondLeg(ctx.signal.direction))
    requires ctx.leg1FillPrice == Some(p1) && ctx.leg1FillSize == Some(s1) && ctx.leg2FillPrice == Some(p2)
    ensures CalculatePnl(ctx) == (p1 - p2) * s1 - s1 * p1 * 0.002
  {
  }

  function BuyThenSell(d: Direction, base: string, quote: string, s1: real, p1: real, s2: real, p2: real): seq<Trade> {
    var (v1, v2) := (VenueOf(FirstLeg(d)), VenueOf(SecondLeg(d)));
    [Trade(v1, "buy", base, quote, s1, s1 * p1, s1 * 0.001, base),
     Trade(v2, "sell", base, quote, s2, s2 * p2, s2 * p2 * 0.001, quote)]
  }

  lemma TradesOfDone(s: Signal, base: string, quote: string, s1: real, p1: real, s2: real, p2: real)
    requires SplitSlash(s.pair) == [base, quote]
    ensures TradeOf(s, FirstLeg(s.direction), s1, p1) + TradeOf(s, SecondLeg(s.direction), s2, p2)
            == BuyThenSell(s.direction, base, quote, s1, p1, s2, p2)
  {
    hide SplitSlash;
  }

  lemma TwoTradeDeltas(d: Direction, base: string, quote: string, other: string, s1: real, p1: real, s2: real, p2: real)
    requires base != quote && other != base && other != quote
    ensures var t := BuyThenSell(d, base, quote, s1, p1, s2, p2);
            && NetDelta(t, base) == s1 - s1 * 0.001 - s2
            && NetDelta(t, quote) == s2 * p2 - s2 * p2 * 0.001 - s1 * p1
            && NetDelta(t, other) == 0.0
  {
    var t := BuyThenSell(d, base, quote, s1, p1, s2, p2);
    assert t[..1] == [t[0]] && t[..1][..0] == [];
    forall v: Venue, x: string
      ensures TotalDelta(t, v, x) == Delta(t[0], v, x) + Delta(t[1], v, x)
    {
      assert TotalDelta(t[..1], v, x) == Delta(t[0], v, x);
    }
    hide TotalDelta;
  }

  lemma PnlAlgebra(s1: real, p1: real, s2: real, p2: real)
    ensures (p2 - p1) * s1 - s1 * p1 * 0.002
            == (s1 - s1 * 0.001 - s2) * p1 + (s2 * p2 - s2 * p2 * 0.001 - s1 * p1)
               + ReportingGap(s1, p1, s2, p2)
  {
  }

  // ----- runs

  predicate Ordered(inputs: seq<Input>) {
    && (forall i :: 0 <= i < |inputs| ==> Monotone(inputs[i].clock))
    && (forall i, j :: 0 <= i < j < |inputs| ==> inputs[i].clock.finished <= inputs[j].clock.started)
  }

  function Run(c: Config, w: World, inputs: seq<Input>): World {
    if inputs == [] then w else Step(c, Run(c, w, inputs[..|inputs| - 1]), inputs[|inputs| - 1]).0
  }

  /** The world before call number n of the run. */
  ghost function Before(c: Config, w: World, inputs: seq<Input>, n: nat): World
    requires n <= |inputs|
  {
    Run(c, w, inputs[..n])
  }

  lemma BeforeNext(c: Config, w: World, inputs: seq<Input>, n: nat)
    requires n < |inputs|
    ensures Before(c, w, inputs, n + 1) == Step(c, Before(c, w, inputs, n), inputs[n]).0
  {
    assert inputs[..n + 1][..n] == inputs[..n];
  }

  lemma {:induction false} AttemptsBalance(c: Config, w: World, inputs: seq<Input>)
    requires w.attempts == w.successes + w.failures
    ensures Run(c, w, inputs).attempts == Run(c, w, inputs).successes + Run(c, w, inputs).failures
    ensures Run(c, w, inputs).attempts == w.attempts + |inputs|
    decreases inputs
  {
    if inputs == [] {
    } else {
      var init := inputs[..|inputs| - 1];
      AttemptsBalance(c, w, init);
      OutcomeLaw(c, Run(c, w, init), inputs[|inputs| - 1]);
      hide Step;
    }
  }

  /** What the accepted legs of a run move, call by call. */
  ghost function RunDelta(c: Config, w: World, inputs: seq<Input>, v: Venue, asset: string): real
    decreases inputs
  {
    if inputs == [] then 0.0 else
    var init, i := inputs[..|inputs| - 1], inputs[|inputs| - 1];
    RunDelta(c, w, init, v, asset) + CallMoves(c, Run(c, w, init), i, v, asset)
  }

  /** Over every run the recorded trades, and with them the ledger, move by exactly the
      fee-adjusted deltas of the accepted legs. */
  lemma {:induction false} LedgerFollowsAcceptedLegs(c: Config, w: World, inputs: seq<Input>, v: Venue, asset: string)
    ensures TotalDelta(Run(c, w, inputs).trades, v, asset)
        == TotalDelta(w.trades, v, asset) + RunDelta(c, w, inputs, v, asset)
    decreases inputs
  {
    if inputs == [] {
    } else {
      var init, i := inputs[..|inputs| - 1], inputs[|inputs| - 1];
      LedgerFollowsAcceptedLegs(c, w, init, v, asset);
      TradeLaw(c, Run(c, w, init), i);
      CallMovesIs(c, Run(c, w, init), i, v, asset);
      hide Step, AcceptedTrades, TotalDelta, CallMoves;
      TotalDeltaAppend(Run(c, w, init).trades, AcceptedTrades(c, Run(c, w, init), i), v, asset);
    }
  }

  /** How many calls of a run from the start were completed, and how many failed on either venue. */
  ghost function Completed(c: Config, inputs: seq<Input>): nat {
    if inputs == [] then 0 else
    var init, i := inputs[..|inputs| - 1], inputs[|inputs| - 1];
    Completed(c, init) + (if Step(c, Run(c, FRESH, init), i).1.state == Done then 1 else 0)
  }

  ghost function FailedLegs(c: Config, inputs: seq<Input>, onExchange: bool): nat {
    if inputs == [] then 0 else
    var init, i := inputs[..|inputs| - 1], inputs[|inputs| - 1];
    FailedLegs(c, init, onExchange) + (if FailedOn(c, Run(c, FRESH, init), i, onExchange) then 1 else 0)
  }

  /** The counters of every run from the start are these numbers. */
  lemma {:induction false} CountersAreHistory(c: Config, inputs: seq<Input>)
    ensures var w := Run(c, FRESH, inputs);
            && w.attempts == |inputs| && w.successes == Completed(c, inputs) && w.failures == |inputs| - w.successes
            && w.cexFailures == FailedLegs(c, inputs, true) && w.dexFailures == FailedLegs(c, inputs, false)
    decreases inputs
  {
    if inputs == [] {
    } else {
      var init, i := inputs[..|inputs| - 1], inputs[|inputs| - 1];
      CountersAreHistory(c, init);
      OutcomeLaw(c, Run(c, FRESH, init), i);
      LegCounterLaw(c, Run(c, FRESH, init), i);
      hide Step, FailedOn;
    }
  }

  lemma ReplayAfterStep(c: Config, w: World, i: Input)
    ensures Step(c, w, i).0.replay ==
            if Reached(c, w, i) then w.replay[i.signal.signalId := i.clock.marked] else w.replay
  {
    GatesKeep(c, w, i);
    LegsKeepBreaker(c, Gates(c, w, i).0, NewContext(i.signal, i.clock.started).(state := Validating), i.leg1, i.leg2);
    hide Legs, Gates, Failure, Query;
  }

  lemma MarkKept(c: Config, w: World, i: Input, id: string, at: real)
    requires at <= i.clock.marked
    requires (id in w.replay && w.replay[id] >= at) || (Reached(c, w, i) && i.signal.signalId == id)
    ensures var replay := Step(c, w, i).0.replay; id in replay && replay[id] >= at
  {
    ReplayAfterStep(c, w, i);
    hide *;
  }

  lemma {:induction false} MarkSticks(c: Config, w: World, inputs: seq<Input>, n: nat, m: nat)
    requires Ordered(inputs) && n < m <= |inputs|
    requires Reached(c, Before(c, w, inputs, n), inputs[n])
    ensures var id := inputs[n].signal.signalId; var replay := Before(c, w, inputs, m).replay;
            id in replay && replay[id] >= inputs[n].clock.marked
    decreases m
  {
    OrderedPair(inputs, n, m - 1);
    hide *;
    BeforeNext(c, w, inputs, m - 1);
    if m > n + 1 {
      MarkSticks(c, w, inputs, n, m - 1);
    } else {
      assert m - 1 == n;
    }
    MarkKept(c, Before(c, w, inputs, m - 1), inputs[m - 1], inputs[n].signal.signalId, inputs[n].clock.marked);
  }

  lemma OrderedPair(inputs: seq<Input>, n: nat, m: nat)
    requires Ordered(inputs) && n <= m < |inputs|
    ensures inputs[n].clock.marked <= inputs[m].clock.marked
  {
  }

  /** Across a whole run, two calls with the same id both reach the legs only if at least the
      TTL lies between the completion of the first and the check of the second. */
  lemma SameIdIsSpacedByTtl(c: Config, w: World, inputs: seq<Input>, n: nat, m: nat)
    requires Ordered(inputs) && n < m < |inputs|
    requires inputs[n].signal.signalId == inputs[m].signal.signalId
    requires Reached(c, Before(c, w, inputs, n), inputs[n]) && Reached(c, Before(c, w, inputs, m), inputs[m])
    ensures inputs[n].clock.marked + c.replayTtl <= inputs[m].clock.replay
  {
    MarkSticks(c, w, inputs, n, m);
    ReachedIff(c, Before(c, w, inputs, m), inputs[m]);
    hide Step, Run, Reached, IsValid, Open;
  }

  lemma TrippedBlocks(c: Config, w: World, i: Input)
    requires w.breaker.trippedAt.Some?
    requires i.clock.gate <= w.breaker.trippedAt.value + c.breaker.cooldownSeconds
    ensures var w' := Step(c, w, i).0; w'.breaker == w.breaker && w'.effects == w.effects && w'.trades == w.trades
  {
    ReachedIff(c, w, i);
    hide Step, Reached, IsValid;
  }

  /** Across a whole run, once the breaker is tripped at t no call that checks it up to
      t + cooldown reaches a leg, and the breaker stays tripped at t. */
  lemma {:induction false} NoLegWhileTripped(c: Config, w: World, inputs: seq<Input>, n: nat, m: nat)
    requires n <= m <= |inputs| && Before(c, w, inputs, n).breaker.trippedAt.Some?
    requires var t := Before(c, w, inputs, n).breaker.trippedAt.value;
             forall k :: n <= k < m ==> inputs[k].clock.gate <= t + c.breaker.cooldownSeconds
    ensures var (wn, wm) := (Before(c, w, inputs, n), Before(c, w, inputs, m));
            wm.breaker == wn.breaker && wm.effects == wn.effects && wm.trades == wn.trades
    decreases m
  {
    hide *;
    if m == n {
    } else {
      NoLegWhileTripped(c, w, inputs, n, m - 1);
      BeforeNext(c, w, inputs, m - 1);
      TrippedBlocks(c, Before(c, w, inputs, m - 1), inputs[m - 1]);
    }
  }

  // ----- who is refused

  /** Call m of a run from the start fails, and the window ending at its failure holds the threshold. */
  ghost predicate TripsIn(c: Config, inputs: seq<Input>, m: nat)
    requires m < |inputs|
  {
    var w, i := Before(c, FRESH, inputs, m), inputs[m];
    Reached(c, w, i) && Step(c, w, i).1.state == Failed && WindowFull(c, w, i)
  }

  predicate WindowFull(c: Config, w: World, i: Input) {
    var h := Query(c.breaker, w.breaker, i.clock.gate).history + [i.clock.failed];
    CountWithin(h, i.clock.failed - c.breaker.windowSeconds, i.clock.failed) >= c.breaker.failureThreshold
  }

  /** The trip of call m is still in force when call n begins: no check since lay past its cooldown. */
  ghost predicate InForce(c: Config, inputs: seq<Input>, m: nat, n: nat) {
    m < n <= |inputs| && TripsIn(c, inputs, m) &&
    var end := inputs[m].clock.failed + c.breaker.cooldownSeconds;
    inputs[m].clock.reopen <= end && forall j :: m < j < n ==> inputs[j].clock.gate <= end
  }

  /** The trip recorded after a call: an old one that its gate did not clear, or its own. */
  lemma TripAfter(c: Config, w: World, i: Input)
    requires Sorted(w.breaker.history) && UpTo(w.breaker.history, i.clock.failed)
    ensures var cooldown := c.breaker.cooldownSeconds;
            var trip := Step(c, w, i).0.breaker.trippedAt;
            if w.breaker.trippedAt.Some? && i.clock.gate <= w.breaker.trippedAt.value + cooldown then
              !Reached(c, w, i) && trip == w.breaker.trippedAt
            else if Reached(c, w, i) && Step(c, w, i).1.state == Failed && WindowFull(c, w, i)
                    && i.clock.reopen <= i.clock.failed + cooldown then
              trip == Some(i.clock.failed)
            else trip == None
  {
    ReachedIff(c, w, i);
    if Reached(c, w, i) {
      if Step(c, w, i).1.state == Failed {
        FailedCallTripsIff(c, w, i);
      } else {
        DoneKeepsBreaker(c, w, i);
      }
    }
    hide Step, Reached, IsValid, CountWithin;
  }

  lemma DoneKeepsBreaker(c: Config, w: World, i: Input)
    requires Reached(c, w, i) && Step(c, w, i).1.state != Failed
    ensures Step(c, w, i).0.breaker == Query(c.breaker, w.breaker, i.clock.gate)
  {
    OutcomeLaw(c, w, i);
    GatesKeep(c, w, i);
    LegsKeepBreaker(c, Gates(c, w, i).0, NewContext(i.signal, i.clock.started).(state := Validating), i.leg1, i.leg2);
    hide Legs, Gates;
  }

  /** The breaker before call n is tripped exactly by the trip in force. */
  lemma {:induction false} TrippedByIff(c: Config, inputs: seq<Input>, n: nat)
    requires Ordered(inputs) && n <= |inputs|
    ensures forall m: nat :: InForce(c, inputs, m, n) ==>
              Before(c, FRESH, inputs, n).breaker.trippedAt == Some(inputs[m].clock.failed)
    ensures Before(c, FRESH, inputs, n).breaker.trippedAt.Some? ==> exists m: nat :: InForce(c, inputs, m, n)
    decreases n
  {
    if n == 0 {
      assert inputs[..0] == [];
    } else {
      TrippedByIff(c, inputs, n - 1);
      OrderBefore(c, inputs, n - 1);
      BeforeNext(c, FRESH, inputs, n - 1);
      var w, i := Before(c, FRESH, inputs, n - 1), inputs[n - 1];
      TripAfter(c, w, i);
      OwnTrip(c, inputs, n);
      hide *;
      forall m: nat | InForce(c, inputs, m, n)
        ensures m < |inputs| && Before(c, FRESH, inputs, n).breaker.trippedAt == Some(inputs[m].clock.failed)
      {
        ForceGoesOn(c, inputs, m, n);
      }
      if Before(c, FRESH, inputs, n).breaker.trippedAt.Some? && !InForce(c, inputs, n - 1, n) {
        var m: nat :| InForce(c, inputs, m, n - 1);
        ForceGoesOn(c, inputs, m, n);
      }
    }
  }

  lemma ForceGoesOn(c: Config, inputs: seq<Input>, m: nat, n: nat)
    requires 0 < n <= |inputs|
    ensures InForce(c, inputs, m, n - 1) ==> m < n - 1
    ensures InForce(c, inputs, m, n) ==> m < n
    ensures m < n - 1 ==>
              (InForce(c, inputs, m, n) <==>
               InForce(c, inputs, m, n - 1) &&
               inputs[n - 1].clock.gate <= inputs[m].clock.failed + c.breaker.cooldownSeconds)
  {
    hide TripsIn;
  }

  lemma OwnTrip(c: Config, inputs: seq<Input>, n: nat)
    requires 0 < n <= |inputs|
    ensures var w, i := Before(c, FRESH, inputs, n - 1), inputs[n - 1];
            InForce(c, inputs, n - 1, n) <==>
            && Reached(c, w, i) && Step(c, w, i).1.state == Failed && WindowFull(c, w, i)
            && i.clock.reopen <= i.clock.failed + c.breaker.cooldownSeconds
  {
    hide Before, Reached, Step, WindowFull;
  }

  /** In every run from the start a call is refused for an open breaker exactly when the trip of an
      earlier call is in force and this check does not lie past its cooldown either. */
  lemma RefusedIff(c: Config, inputs: seq<Input>, n: nat)
    requires Ordered(inputs) && n < |inputs|
    ensures Step(c, Before(c, FRESH, inputs, n), inputs[n]).1.error == Some(CircuitOpen) <==>
            exists m: nat :: InForce(c, inputs, m, n) &&
              inputs[n].clock.gate <= inputs[m].clock.failed + c.breaker.cooldownSeconds
  {
    TrippedByIff(c, inputs, n);
    var w, i := Before(c, FRESH, inputs, n), inputs[n];
    CircuitOpenIff(c, w, i);
    hide Step, Before, TripsIn, Ordered;
    if Open(c.breaker, w.breaker, i.clock.gate) {
      var m: nat :| InForce(c, inputs, m, n);
      assert i.clock.gate <= inputs[m].clock.failed + c.breaker.cooldownSeconds;
    }
    if m: nat :| InForce(c, inputs, m, n) && i.clock.gate <= inputs[m].clock.failed + c.breaker.cooldownSeconds {
      assert w.breaker.trippedAt == Some(inputs[m].clock.failed);
    }
  }
}
