/** Where execution meets the risk gate: the profit recorded after a call, as in the trading
    loop of integration/src/bin/arb_bot.rs. */
module Trading {
  import opened Common
  import opened Inventory
  import opened Execution
  import opened ExecutionLaws
  import Risk

  /** `ctx.actual_net_pnl.unwrap_or(0.0)`. */
  function RecordedPnl(ctx: Context): real { if ctx.actualNetPnl.Some? then ctx.actualNetPnl.value else 0.0 }

  /** A failed call is recorded as a profit of zero, so it ends a loss streak and leaves daily
      profit and capital alone; when leg 1 had filled, its trade stays in the ledger all the same. */
  lemma FailedCallIsInvisibleToRisk(c: Config, w: World, i: Input, s: Risk.RiskState)
    requires Step(c, w, i).1.state == Failed
    requires s.current <= s.peak
    ensures Risk.Record(s, RecordedPnl(Step(c, w, i).1)) == s.(trades := s.trades + 1, streak := 0)
    ensures Reached(c, w, i) && Filled1(c, i.signal, i.leg1) && |SplitSlash(i.signal.pair)| == 2 ==>
              |Step(c, w, i).0.trades| == |w.trades| + 1
  {
    OutcomeLaw(c, w, i);
    TradeLaw(c, w, i);
    hide Step, Filled1, SplitSlash;
  }

  /** The first leg's price, where there is one. */
  function Price1(i: Input): real { if i.leg1.Answered? then i.leg1.result.price else 0.0 }

  /** What the ledger really gained in a call, base valued at the first leg's price. */
  ghost function LedgerGain(c: Config, w: World, i: Input, base: string, quote: string): real {
    ValuedAt(AcceptedTrades(c, w, i), base, quote, Price1(i))
  }

  /** In a failed call the first leg, if it filled, costs its fee, a tenth of a percent. */
  lemma FailedCallGain(c: Config, w: World, i: Input, base: string, quote: string)
    requires Step(c, w, i).1.state == Failed
    requires i.signal.pair == base + "/" + quote && '/' !in base && '/' !in quote && base != quote
    ensures LedgerGain(c, w, i, base, quote) ==
            if Reached(c, w, i) && Filled1(c, i.signal, i.leg1)
            then -0.001 * (i.leg1.result.filled * i.leg1.result.price) else 0.0
  {
    OutcomeLaw(c, w, i);
    SplitJoin(base, quote);
    var s := i.signal;
    if Reached(c, w, i) && Filled1(c, s, i.leg1) {
      var (s1, p1) := (i.leg1.result.filled, i.leg1.result.price);
      var trades := TradeOf(s, FirstLeg(s.direction), s1, p1);
      assert trades + [] == trades;
      assert AcceptedTrades(c, w, i) == trades;
      hide Step, Reached, Filled1, AcceptedTrades;
      BuyGain(s, base, quote, s1, p1);
    } else {
      hide Step;
    }
  }

  lemma BuyGain(s: Signal, base: string, quote: string, s1: real, p1: real)
    requires SplitSlash(s.pair) == [base, quote] && base != quote
    ensures ValuedAt(TradeOf(s, FirstLeg(s.direction), s1, p1), base, quote, p1) == -0.001 * (s1 * p1)
  {
    hide SplitSlash;
    var trades := TradeOf(s, FirstLeg(s.direction), s1, p1);
    var t := Trade(VenueOf(FirstLeg(s.direction)), "buy", base, quote, s1, s1 * p1, s1 * 0.001, base);
    assert trades == [t] && trades[..0] == [];
    assert forall v: Venue, x: string :: TotalDelta(trades, v, x) == Delta(t, v, x);
    hide TotalDelta;
    assert NetDelta(trades, base) == s1 - s1 * 0.001;
    assert NetDelta(trades, quote) == -(s1 * p1);
    assert (s1 - s1 * 0.001) * p1 == s1 * p1 - 0.001 * (s1 * p1);
  }

  /** The profit told to the risk gate is what the ledger gained exactly when no first leg filled,
      or what it filled alone was worth nothing, or both filled and the reporting gap is zero. */
  lemma RecordedPnlIsLedgerIff(c: Config, w: World, i: Input, base: string, quote: string)
    requires i.signal.pair == base + "/" + quote && '/' !in base && '/' !in quote && base != quote
    ensures RecordedPnl(Step(c, w, i).1) == LedgerGain(c, w, i, base, quote) <==>
            !Reached(c, w, i) || !Filled1(c, i.signal, i.leg1) ||
            var (s1, p1) := (i.leg1.result.filled, i.leg1.result.price);
            if !Filled2(i.leg2) then s1 * p1 == 0.0
            else ReportingGap(s1, p1, i.leg2.result.filled, i.leg2.result.price) == 0.0
  {
    OutcomeLaw(c, w, i);
    if Step(c, w, i).1.state == Failed {
      FailedCallGain(c, w, i, base, quote);
    } else {
      PnlAgainstLedger(c, w, i, base, quote, Unrelated(base, quote));
    }
    hide Step, Reached, ReportingGap, ValuedAt, AcceptedTrades;
  }
}
