/** The two-leg execution protocol of executor/src/engine.rs.

    The environment chooses the outcome of each leg and every clock reading; `Step` is one
    call of `execute` on values, and the `Executor` class below is proved to compute it. */
module Execution {
  import opened Common
  import opened Recovery
  import opened Inventory

  datatype Direction = BuyCexSellDex | BuyDexSellCex

  datatype Signal = Signal(signalId: string, pair: string, direction: Direction, cexPrice: real, dexPrice: real,
                           size: real, expectedNetPnl: real, score: real, expiry: real,
                           inventoryOk: bool, withinLimits: bool)

  predicate IsValid(s: Signal, now: real) {
    now < s.expiry && s.inventoryOk && s.withinLimits && s.expectedNetPnl > 0.0 && s.score > 0.0
  }

  datatype ExecutorState = Idle | Validating | Leg1Pending | Leg1Filled | Leg2Pending | Done | Failed | Unwinding

  datatype ExecError = CircuitOpen | DuplicateSignal | SignalInvalid | Leg1Timeout | Leg1Rejected | PartialFill
                     | Leg2Timeout | Leg2Failed

  datatype Leg = CexLeg | DexLeg

  datatype Context = Context(
    signal: Signal, state: ExecutorState,
    leg1Venue: Option<Leg>, leg1OrderId: Option<string>, leg1FillPrice: Option<real>, leg1FillSize: Option<real>,
    leg2Venue: Option<Leg>, leg2TxHash: Option<string>, leg2FillPrice: Option<real>, leg2FillSize: Option<real>,
    startedAt: real, finishedAt: Option<real>, actualNetPnl: Option<real>, error: Option<ExecError>)

  function NewContext(s: Signal, now: real): Context {
    Context(s, Idle, None, None, None, None, None, None, None, None, now, None, None, None)
  }

  datatype LegResult = LegResult(success: bool, price: real, filled: real, orderId: Option<string>,
      txHash: Option<string>)

  /** A leg either answers in time or does not. */
  datatype LegOutcome = Timeout | Answered(result: LegResult)

  datatype Config = Config(minFillRatio: real, breaker: BreakerConfig, replayTtl: real)

  /** The clock readings of one call, in the order in which they are taken. */
  datatype Clock = Clock(started: real, gate: real, replay: real, validate: real, marked: real,
                         failed: real, reopen: real, finished: real)

  predicate Monotone(k: Clock) {
    k.started <= k.gate <= k.replay <= k.validate <= k.marked <= k.failed <= k.reopen <= k.finished
  }

  // ----- pieces of a call

  function SplitSlash(s: string): (parts: seq<string>)
    ensures |parts| >= 1
  {
    if s == "" then [""]
    else
      var rest := SplitSlash(s[1..]);
      if s[0] == '/' then [""] + rest else [[s[0]] + rest[0]] + rest[1..]
  }

  /** A pair with one slash splits into base and quote. */
  lemma {:induction false} SplitJoin(base: string, quote: string)
    requires '/' !in base && '/' !in quote
    ensures SplitSlash(base + "/" + quote) == [base, quote]
    decreases base
  {
    if base == "" {
      SplitNoSlash(quote);
      assert ("" + "/" + quote)[1..] == quote;
    } else {
      SplitJoin(base[1..], quote);
      assert (base + "/" + quote)[1..] == base[1..] + "/" + quote;
      assert [base[0]] + base[1..] == base;
    }
  }

  lemma {:induction false} SplitNoSlash(s: string)
    requires '/' !in s
    ensures SplitSlash(s) == [s]
    decreases s
  {
    if s == "" {
    } else {
      SplitNoSlash(s[1..]);
      assert [s[0]] + s[1..] == s;
    }
  }

  function Slashes(s: string): nat { if s == "" then 0 else (if s[0] == '/' then 1 else 0) + Slashes(s[1..]) }

  /** In general there is one part more than slashes. */
  lemma {:induction false} SplitCounts(s: string)
    ensures |SplitSlash(s)| == 1 + Slashes(s)
    decreases s
  {
    if s == "" {
    } else {
      SplitCounts(s[1..]);
    }
  }

  function VenueOf(l: Leg): Venue { match l case CexLeg => Cex case DexLeg => Wallet }

  /** Whether the signal buys or sells the base at that leg. */
  function SideOf(d: Direction, l: Leg): string {
    match (d, l)
    case (BuyCexSellDex, CexLeg) => "buy"
    case (BuyCexSellDex, DexLeg) => "sell"
    case (BuyDexSellCex, CexLeg) => "sell"
    case (BuyDexSellCex, DexLeg) => "buy"
  }

  /** `update_inventory`: the trade written to the ledger, if the pair has two parts. */
  function TradeOf(s: Signal, l: Leg, filled: real, price: real): seq<Trade> {
    var parts := SplitSlash(s.pair);
    if |parts| != 2 then [] else
    var side := SideOf(s.direction, l);
    var fee := if side == "buy" then filled * 0.001 else filled * price * 0.001;
    var feeAsset := if side == "buy" then parts[0] else parts[1];
    [Trade(VenueOf(l), side, parts[0], parts[1], filled, filled * price, fee, feeAsset)]
  }

  /** `filled / size < ratio` on floats: a zero size divides to an infinity of the sign of
      `filled`, or to NaN, which is below nothing. */
  predicate IsPartial(filled: real, size: real, ratio: real) {
    if size == 0.0 then filled < 0.0 else filled / size < ratio
  }

  function FirstLeg(d: Direction): Leg { if d == BuyCexSellDex then CexLeg else DexLeg }

  function SecondLeg(d: Direction): Leg { if d == BuyCexSellDex then DexLeg else CexLeg }

  /** Leg 1 counts as filled: it answered, succeeded and, on the exchange, was not partial. */
  predicate Filled1(c: Config, s: Signal, o: LegOutcome) {
    o.Answered? && o.result.success &&
    (s.direction == BuyCexSellDex ==> !IsPartial(o.result.filled, s.size, c.minFillRatio))
  }

  predicate Filled2(o: LegOutcome) { o.Answered? && o.result.success }

  function CalculatePnl(ctx: Context): real {
    var p1 := if ctx.leg1FillPrice.Some? then ctx.leg1FillPrice.value else 0.0;
    var p2 := if ctx.leg2FillPrice.Some? then ctx.leg2FillPrice.value else 0.0;
    var size := if ctx.leg1FillSize.Some? then ctx.leg1FillSize.value else 0.0;
    var gross := if ctx.signal.direction == BuyCexSellDex
                 then (if ctx.leg1Venue == Some(CexLeg) then (p2 - p1) * size else (p1 - p2) * size)
                 else (if ctx.leg1Venue == Some(DexLeg) then (p2 - p1) * size else (p1 - p2) * size);
    gross - size * p1 * 0.002
  }

  // ----- one call on values

  datatype Effect = Attempt(leg: Leg, size: real) | Unwound(error: ExecError)

  datatype World = World(breaker: Breaker, replay: map<string, real>, trades: seq<Trade>, effects: seq<Effect>,
                         attempts: nat, successes: nat, failures: nat, cexFailures: nat, dexFailures: nat)

  const FRESH := World(CLOSED, map[], [], [], 0, 0, 0, 0, 0)

  datatype Input = Input(signal: Signal, leg1: LegOutcome, leg2: LegOutcome, clock: Clock)

  function CountLegFailure(w: World, l: Leg): World {
    if l == CexLeg then w.(cexFailures := w.cexFailures + 1) else w.(dexFailures := w.dexFailures + 1)
  }

  /** `execute_cex_first` and `execute_dex_first`. */
  function Legs(c: Config, w: World, ctx: Context, o1: LegOutcome, o2: LegOutcome): (World, Context) {
    var s := ctx.signal;
    var l1, l2 := FirstLeg(s.direction), SecondLeg(s.direction);
    var ctx1 := ctx.(state := Leg1Pending, leg1Venue := Some(l1));
    var w1 := w.(effects := w.effects + [Attempt(l1, s.size)]);
    if o1.Timeout? then (CountLegFailure(w1, l1), ctx1.(state := Failed, error := Some(Leg1Timeout)))
    else if !o1.result.success then (CountLegFailure(w1, l1), ctx1.(state := Failed, error := Some(Leg1Rejected)))
    else if s.direction == BuyCexSellDex && IsPartial(o1.result.filled, s.size, c.minFillRatio) then
      (CountLegFailure(w1, l1), ctx1.(state := Failed, error := Some(PartialFill)))
    else
      var r1 := o1.result;
      var ctx2 := ctx1.(leg1FillPrice := Some(r1.price), leg1FillSize := Some(r1.filled),
                        leg1OrderId := if l1 == CexLeg then r1.orderId else r1.txHash,
                        state := Leg2Pending, leg2Venue := Some(l2));
      var w2 := w1.(trades := w1.trades + TradeOf(s, l1, r1.filled, r1.price),
                    effects := w1.effects + [Attempt(l2, r1.filled)]);
      if o2.Timeout? then
        (CountLegFailure(w2.(effects := w2.effects + [Unwound(Leg2Timeout)]), l2),
         ctx2.(state := Failed, error := Some(Leg2Timeout)))
      else if !o2.result.success then
        (CountLegFailure(w2.(effects := w2.effects + [Unwound(Leg2Failed)]), l2),
         ctx2.(state := Failed, error := Some(Leg2Failed)))
      else
        var r2 := o2.result;
        var ctx3 := ctx2.(leg2FillPrice := Some(r2.price), leg2FillSize := Some(r2.filled),
                          leg2TxHash := if l2 == DexLeg then r2.txHash else r2.orderId);
        (w2.(trades := w2.trades + TradeOf(s, l2, r2.filled, r2.price)),
         ctx3.(actualNetPnl := Some(CalculatePnl(ctx3)), state := Done))
  }

  /** The world as the three gates leave it, and the reason for refusing, if any. */
  function Gates(c: Config, w: World, i: Input): (World, Option<ExecError>) {
    var k := i.clock;
    var w1 := w.(attempts := w.attempts + 1, breaker := Query(c.breaker, w.breaker, k.gate));
    if Open(c.breaker, w.breaker, k.gate) then (w1, Some(CircuitOpen))
    else if Duplicate(w1.replay, c.replayTtl, i.signal.signalId, k.replay) then (w1, Some(DuplicateSignal))
    else if !IsValid(i.signal, k.validate) then (w1, Some(SignalInvalid))
    else (w1, None)
  }

  /** What follows the legs: the id is marked, a failure goes to the breaker, one counter moves. */
  function Conclude(c: Config, w: World, ctx: Context, i: Input): (World, Context) {
    var k := i.clock;
    var w' := w.(replay := w.replay[i.signal.signalId := k.marked]);
    var final := ctx.(finishedAt := Some(k.finished));
    if ctx.state == Done then (w'.(successes := w'.successes + 1), final)
    else
      var failed := Failure(c.breaker, w'.breaker, k.failed);
      (w'.(failures := w'.failures + 1, breaker := Query(c.breaker, failed, k.reopen)), final)
  }

  function Step(c: Config, w: World, i: Input): (World, Context) {
    var ctx := NewContext(i.signal, i.clock.started);
    var (w1, refusal) := Gates(c, w, i);
    if refusal.Some? then (w1.(failures := w1.failures + 1), ctx.(state := Failed, error := refusal))
    else
      var (w2, res) := Legs(c, w1, ctx.(state := Validating), i.leg1, i.leg2);
      Conclude(c, w2, res, i)
  }

  // ----- the executor

  class Executor {
    const config: Config
    const breaker: CircuitBreaker
    const replay: ReplayProtection
    const inventory: InventoryTracker
    var attempts: nat
    var successes: nat
    var failures: nat
    var cexFailures: nat
    var dexFailures: nat
    ghost const opening: Ledger
    ghost var trades: seq<Trade>
    ghost var effects: seq<Effect>

    /** The ledger is its opening state plus exactly the deltas of the recorded trades. */
    ghost predicate Valid()
      reads this, breaker, replay, inventory
    {
      && breaker.Valid() && replay.Valid()
      && breaker.config == config.breaker && replay.ttlSeconds == config.replayTtl
      && (forall v: Venue :: v in inventory.balances)
      && (forall v: Venue, x: string ::
            Available(inventory.balances, v, x) == Available(opening, v, x) + TotalDelta(trades, v, x))
    }

    ghost predicate NotAfter(now: real)
      reads breaker, replay
    {
      breaker.prunedAt <= now && replay.clock <= now
    }

    ghost function Abstract(): World
      reads this, breaker, replay
    {
      World(breaker.Abstract(), replay.marked, trades, effects, attempts, successes, failures, cexFailures, dexFailures)
    }

    constructor (config: Config, inventory: InventoryTracker, ghost now: real)
      requires forall v: Venue :: v in inventory.balances
      ensures Valid() && NotAfter(now) && Abstract() == FRESH
      ensures opening == inventory.balances && this.inventory == inventory && this.config == config
      ensures fresh(breaker) && fresh(replay)
    {
      this.config := config;
      this.inventory := inventory;
      breaker := new CircuitBreaker(config.breaker, now);
      replay := new ReplayProtection(config.replayTtl, now);
      attempts, successes, failures, cexFailures, dexFailures := 0, 0, 0, 0, 0;
      opening, trades, effects := inventory.balances, [], [];
    }

    method UpdateInventory(s: Signal, l: Leg, filled: real, price: real)
      requires Valid()
      modifies inventory, `trades
      ensures Valid() && trades == old(trades) + TradeOf(s, l, filled, price)
    {
      var recorded := TradeOf(s, l, filled, price);
      if |recorded| == 1 {
        inventory.RecordTrade(recorded[0]);
        ghost var before := trades;
        trades := trades + recorded;
        assert trades[..|trades| - 1] == before;
      } else {
        assert recorded == [];
      }
    }

    method IncLegFailure(l: Leg)
      modifies `cexFailures, `dexFailures
      ensures l == CexLeg ==> cexFailures == old(cexFailures) + 1 && dexFailures == old(dexFailures)
      ensures l == DexLeg ==> dexFailures == old(dexFailures) + 1 && cexFailures == old(cexFailures)
    {
      if l == CexLeg { cexFailures := cexFailures + 1; } else { dexFailures := dexFailures + 1; }
    }

    /** Both orders of the legs; the environment's answers are the arguments. */
    method ExecuteLegs(start: Context, o1: LegOutcome, o2: LegOutcome) returns (ctx: Context)
      requires Valid()
      modifies inventory, `trades, `effects, `cexFailures, `dexFailures
      ensures Valid()
      ensures (Abstract(), ctx) == Legs(config, old(Abstract()), start, o1, o2)
    {
      hide TradeOf, CalculatePnl, IsPartial;
      ctx := start;
      var s := ctx.signal;
      var l1, l2 := FirstLeg(s.direction), SecondLeg(s.direction);
      ctx := ctx.(state := Leg1Pending, leg1Venue := Some(l1));
      effects := effects + [Attempt(l1, s.size)];
      if o1.Timeout? {
        ctx := ctx.(state := Failed, error := Some(Leg1Timeout));
        IncLegFailure(l1);
        return;
      }
      if !o1.result.success {
        ctx := ctx.(state := Failed, error := Some(Leg1Rejected));
        IncLegFailure(l1);
        return;
      }
      if s.direction == BuyCexSellDex && IsPartial(o1.result.filled, s.size, config.minFillRatio) {
        ctx := ctx.(state := Failed, error := Some(PartialFill));
        IncLegFailure(l1);
        return;
      }
      UpdateInventory(s, l1, o1.result.filled, o1.result.price);
      ctx := ctx.(leg1FillPrice := Some(o1.result.price), leg1FillSize := Some(o1.result.filled),
                  leg1OrderId := if l1 == CexLeg then o1.result.orderId else o1.result.txHash, state := Leg1Filled);
      ctx := ctx.(state := Leg2Pending, leg2Venue := Some(l2));
      effects := effects + [Attempt(l2, o1.result.filled)];
      if o2.Timeout? || !o2.result.success {
        var error := if o2.Timeout? then Leg2Timeout else Leg2Failed;
        ctx := ctx.(state := Unwinding);
        effects := effects + [Unwound(error)];
        ctx := ctx.(state := Failed, error := Some(error));
        IncLegFailure(l2);
        return;
      }
      UpdateInventory(s, l2, o2.result.filled, o2.result.price);
      ctx := ctx.(leg2FillPrice := Some(o2.result.price), leg2FillSize := Some(o2.result.filled),
                  leg2TxHash := if l2 == DexLeg then o2.result.txHash else o2.result.orderId);
      ctx := ctx.(actualNetPnl := Some(CalculatePnl(ctx)));
      ctx := ctx.(state := Done);
    }

    method PassGates(i: Input) returns (refusal: Option<ExecError>)
      requires Valid() && Monotone(i.clock) && NotAfter(i.clock.started)
      modifies `attempts, breaker, replay
      ensures Valid() && NotAfter(i.clock.validate)
      ensures (Abstract(), refusal) == Gates(config, old(Abstract()), i)
    {
      hide Query, Open, Duplicate, IsValid;
      attempts := attempts + 1;
      var open := breaker.IsOpen(i.clock.gate);
      if open { return Some(CircuitOpen); }
      var duplicate := replay.IsDuplicate(i.signal.signalId, i.clock.replay);
      if duplicate { return Some(DuplicateSignal); }
      if !IsValid(i.signal, i.clock.validate) { return Some(SignalInvalid); }
      return None;
    }

    method Finish(i: Input, res: Context) returns (ctx: Context)
      requires Valid() && Monotone(i.clock) && NotAfter(i.clock.validate)
      modifies `successes, `failures, breaker, replay
      ensures Valid() && NotAfter(i.clock.finished)
      ensures (Abstract(), ctx) == Conclude(config, old(Abstract()), res, i)
    {
      hide Query, Failure;
      replay.MarkExecuted(i.signal.signalId, i.clock.marked);
      if res.state == Done {
        successes := successes + 1;
      } else {
        breaker.RecordFailure(i.clock.failed);
        var reopened := breaker.IsOpen(i.clock.reopen);
        failures := failures + 1;
      }
      ctx := res.(finishedAt := Some(i.clock.finished));
    }

    method Execute(i: Input) returns (ctx: Context)
      requires Valid() && Monotone(i.clock) && NotAfter(i.clock.started)
      modifies this, breaker, replay, inventory
      ensures Valid() && NotAfter(i.clock.finished)
      ensures (Abstract(), ctx) == Step(config, old(Abstract()), i)
    {
      hide Legs, Gates, Conclude;
      ctx := NewContext(i.signal, i.clock.started);
      var refusal := PassGates(i);
      if refusal.Some? {
        failures := failures + 1;
        ctx := ctx.(state := Failed, error := refusal);
        return;
      }
      ctx := ctx.(state := Validating);
      ctx := ExecuteLegs(ctx, i.leg1, i.leg2);
      ctx := Finish(i, ctx);
    }
  }
}
