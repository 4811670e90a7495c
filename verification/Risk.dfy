/** The risk gate of executor/src/position_limits.rs. */
module Risk {
  import opened Common

  datatype RiskLimits = RiskLimits(maxTradeUsd: real, maxTradePct: real, maxDailyLoss: real, maxDrawdownPct: real,
                                   maxTradesPerHour: nat, consecutiveLossLimit: nat)

  datatype RiskState = RiskState(peak: real, current: real, daily: real, trades: nat, streak: nat, initial: real)

  datatype Verdict = Allowed | TradeTooLarge | OverCapitalShare | DailyLossReached | DrawdownReached
                   | LossStreakReached | TradeCountReached

  function New(capital: real): RiskState { RiskState(capital, capital, 0.0, 0, 0, capital) }

  /** `check_pre_trade`, in the order of its tests. */
  function Check(l: RiskLimits, s: RiskState, size: real, price: real): Verdict {
    var value := size * price;
    if value > l.maxTradeUsd then TradeTooLarge
    else if value > s.initial * l.maxTradePct then OverCapitalShare
    else if s.daily <= -l.maxDailyLoss then DailyLossReached
    else if s.peak > 0.0 && (s.peak - s.current) / s.peak >= l.maxDrawdownPct then DrawdownReached
    else if s.streak >= l.consecutiveLossLimit then LossStreakReached
    else if s.trades >= l.maxTradesPerHour then TradeCountReached
    else Allowed
  }

  function Record(s: RiskState, pnl: real): RiskState {
    var current := s.current + pnl;
    RiskState(if current > s.peak then current else s.peak, current, s.daily + pnl, s.trades + 1,
              if pnl < 0.0 then s.streak + 1 else 0, s.initial)
  }

  function SetCapital(s: RiskState, capital: real): RiskState {
    s.(initial := capital, current := capital, peak := capital)
  }

  function ResetDaily(s: RiskState): RiskState { s.(daily := 0.0, trades := 0, streak := 0) }

  class RiskManager {
    const limits: RiskLimits
    var peakCapital: real
    var currentCapital: real
    var dailyPnl: real
    var tradesThisHour: nat
    var consecutiveLosses: nat
    var initialCapital: real

    ghost function Abstract(): RiskState
      reads this
    {
      RiskState(peakCapital, currentCapital, dailyPnl, tradesThisHour, consecutiveLosses, initialCapital)
    }

    constructor (limits: RiskLimits, initialCapital: real)
      ensures Abstract() == New(initialCapital) && this.limits == limits
    {
      this.limits := limits;
      this.initialCapital := initialCapital;
      peakCapital, currentCapital := initialCapital, initialCapital;
      dailyPnl, tradesThisHour, consecutiveLosses := 0.0, 0, 0;
    }

    method CheckPreTrade(size: real, price: real) returns (v: Verdict)
      ensures v == Check(limits, Abstract(), size, price)
    {
      var tradeValue := size * price;
      if tradeValue > limits.maxTradeUsd { return TradeTooLarge; }
      if tradeValue > initialCapital * limits.maxTradePct { return OverCapitalShare; }
      if dailyPnl <= -limits.maxDailyLoss { return DailyLossReached; }
      if peakCapital > 0.0 {
        var drawdown := (peakCapital - currentCapital) / peakCapital;
        if drawdown >= limits.maxDrawdownPct { return DrawdownReached; }
      }
      if consecutiveLosses >= limits.consecutiveLossLimit { return LossStreakReached; }
      if tradesThisHour >= limits.maxTradesPerHour { return TradeCountReached; }
      return Allowed;
    }

    method RecordTrade(pnl: real)
      modifies this
      ensures Abstract() == Record(old(Abstract()), pnl)
    {
      dailyPnl := dailyPnl + pnl;
      currentCapital := currentCapital + pnl;
      if currentCapital > peakCapital { peakCapital := currentCapital; }
      tradesThisHour := tradesThisHour + 1;
      if pnl < 0.0 { consecutiveLosses := consecutiveLosses + 1; } else { consecutiveLosses := 0; }
    }

    method SetCapitalBase(capital: real)
      modifies this
      ensures Abstract() == SetCapital(old(Abstract()), capital)
    {
      initialCapital := capital;
      currentCapital := capital;
      peakCapital := capital;
    }

    method ResetDay()
      modifies this
      ensures Abstract() == ResetDaily(old(Abstract()))
    {
      dailyPnl := 0.0;
      tradesThisHour := 0;
      consecutiveLosses := 0;
    }
  }

  // ----- runs

  datatype Event = Trade(size: real, price: real, pnl: real) | NewDay | Capital(amount: real)

  function Apply(s: RiskState, e: Event): RiskState {
    match e
    case Trade(_, _, pnl) => Record(s, pnl)
    case NewDay => ResetDaily(s)
    case Capital(amount) => SetCapital(s, amount)
  }

  function Run(s: RiskState, events: seq<Event>): RiskState {
    if events == [] then s else Apply(Run(s, events[..|events| - 1]), events[|events| - 1])
  }

  /** Every trade was allowed when it was made and lost at most `worst`. */
  predicate Gated(l: RiskLimits, s: RiskState, events: seq<Event>, worst: real) {
    events == [] ||
    (Gated(l, s, events[..|events| - 1], worst) &&
     var e := events[|events| - 1];
     e.Trade? ==> Check(l, Run(s, events[..|events| - 1]), e.size, e.price) == Allowed && e.pnl >= -worst)
  }

  predicate PositiveCapital(events: seq<Event>) {
    forall i :: 0 <= i < |events| && events[i].Capital? ==> events[i].amount > 0.0
  }

  ghost predicate AboveFloor(l: RiskLimits, s: RiskState, worst: real) {
    s.current > s.peak * (1.0 - l.maxDrawdownPct) - worst
  }

  /** The bounds that a gated run keeps. */
  ghost predicate Bounded(l: RiskLimits, s: RiskState, worst: real) {
    && AboveFloor(l, s, worst)
    && s.daily > -l.maxDailyLoss - worst
    && s.trades <= l.maxTradesPerHour
    && s.streak <= l.consecutiveLossLimit
    && s.current <= s.peak
    && s.peak > 0.0
  }

  /** The gate lets a trade through exactly when all six limits are respected. */
  lemma AllowedIff(l: RiskLimits, s: RiskState, size: real, price: real)
    requires s.peak > 0.0
    ensures Check(l, s, size, price) == Allowed <==>
            && size * price <= l.maxTradeUsd && size * price <= s.initial * l.maxTradePct
            && s.daily > -l.maxDailyLoss
            && s.current > s.peak * (1.0 - l.maxDrawdownPct)
            && s.streak < l.consecutiveLossLimit && s.trades < l.maxTradesPerHour
  {
    var drawdown := (s.peak - s.current) / s.peak;
    assert drawdown * s.peak == s.peak - s.current;
    var d := l.maxDrawdownPct;
    assert s.peak * (1.0 - d) == s.peak - d * s.peak;
    assert (drawdown - d) * s.peak == drawdown * s.peak - d * s.peak;
    if drawdown >= d { assert (drawdown - d) * s.peak >= 0.0; } else { assert (d - drawdown) * s.peak > 0.0; }
  }

  /** Each refusal, exactly: the first limit that is not respected names it. */
  lemma RefusalIff(l: RiskLimits, s: RiskState, size: real, price: real)
    requires s.peak > 0.0
    ensures var v := Check(l, s, size, price);
            var small := size * price <= l.maxTradeUsd;
            var within := small && size * price <= s.initial * l.maxTradePct;
            var earning := within && s.daily > -l.maxDailyLoss;
            var afloat := earning && s.current > s.peak * (1.0 - l.maxDrawdownPct);
            var steady := afloat && s.streak < l.consecutiveLossLimit;
            && (v == TradeTooLarge <==> !small)
            && (v == OverCapitalShare <==> small && !within)
            && (v == DailyLossReached <==> within && !earning)
            && (v == DrawdownReached <==> earning && !afloat)
            && (v == LossStreakReached <==> afloat && !steady)
            && (v == TradeCountReached <==> steady && s.trades >= l.maxTradesPerHour)
  {
    DrawdownIs(l, s);
    hide *;
    CheckInOrder(l, s, size, price);
  }

  /** The refusal that stops trading for the day, in every state. */
  lemma DailyLossIff(l: RiskLimits, s: RiskState, size: real, price: real)
    ensures Check(l, s, size, price) == DailyLossReached <==>
            size * price <= l.maxTradeUsd && size * price <= s.initial * l.maxTradePct && s.daily <= -l.maxDailyLoss
  {
  }

  lemma DrawdownIs(l: RiskLimits, s: RiskState)
    requires s.peak > 0.0
    ensures (s.peak - s.current) / s.peak >= l.maxDrawdownPct <==> !(s.current > s.peak * (1.0 - l.maxDrawdownPct))
  {
    var (drawdown, d) := ((s.peak - s.current) / s.peak, l.maxDrawdownPct);
    assert drawdown * s.peak == s.peak - s.current;
    assert s.peak * (1.0 - d) == s.peak - d * s.peak;
    assert (drawdown - d) * s.peak == drawdown * s.peak - d * s.peak;
    if drawdown >= d { assert (drawdown - d) * s.peak >= 0.0; } else { assert (d - drawdown) * s.peak > 0.0; }
  }

  lemma CheckInOrder(l: RiskLimits, s: RiskState, size: real, price: real)
    requires s.peak > 0.0
    ensures var v := Check(l, s, size, price);
            if size * price > l.maxTradeUsd then v == TradeTooLarge
            else if size * price > s.initial * l.maxTradePct then v == OverCapitalShare
            else if s.daily <= -l.maxDailyLoss then v == DailyLossReached
            else if (s.peak - s.current) / s.peak >= l.maxDrawdownPct then v == DrawdownReached
            else if s.streak >= l.consecutiveLossLimit then v == LossStreakReached
            else if s.trades >= l.maxTradesPerHour then v == TradeCountReached
            else v == Allowed
  {
  }

  lemma FloorAtPeak(l: RiskLimits, peak: real, worst: real)
    requires peak > 0.0 && worst > 0.0 && l.maxDrawdownPct >= 0.0
    ensures peak > peak * (1.0 - l.maxDrawdownPct) - worst
  {
    assert peak * l.maxDrawdownPct >= 0.0;
    assert peak * (1.0 - l.maxDrawdownPct) == peak - peak * l.maxDrawdownPct;
  }

  /** In every gated run on positive capital the losses stay within the limits plus one
      worst trade, and the counters never pass theirs. */
  lemma {:induction false} GatedRunsAreBounded(l: RiskLimits, capital: real, events: seq<Event>, worst: real)
    requires capital > 0.0 && PositiveCapital(events) && worst > 0.0
    requires l.maxDrawdownPct >= 0.0 && l.maxDailyLoss >= 0.0
    requires Gated(l, New(capital), events, worst)
    ensures Bounded(l, Run(New(capital), events), worst)
    decreases events
  {
    if events == [] {
      FloorAtPeak(l, capital, worst);
    } else {
      var init, e := events[..|events| - 1], events[|events| - 1];
      GatedRunsAreBounded(l, capital, init, worst);
      var s := Run(New(capital), init);
      assert Run(New(capital), events) == Apply(s, e);
      assert e.Trade? ==> Check(l, s, e.size, e.price) == Allowed && e.pnl >= -worst;
      hide *;
      EventKeepsBounds(l, s, e, worst);
    }
  }

  lemma EventKeepsBounds(l: RiskLimits, s: RiskState, e: Event, worst: real)
    requires Bounded(l, s, worst) && worst > 0.0 && l.maxDrawdownPct >= 0.0 && l.maxDailyLoss >= 0.0
    requires e.Trade? ==> Check(l, s, e.size, e.price) == Allowed && e.pnl >= -worst
    requires e.Capital? ==> e.amount > 0.0
    ensures Bounded(l, Apply(s, e), worst)
  {
    match e
    case Trade(size, price, pnl) =>
      AllowedIff(l, s, size, price);
      hide Check;
      if s.current + pnl > s.peak { FloorAtPeak(l, s.current + pnl, worst); }
    case NewDay =>
    case Capital(amount) => FloorAtPeak(l, amount, worst);
  }

  /** Every trade has a positive value: a signal of any other size has no profit to expect. */
  predicate PositiveTrades(events: seq<Event>) {
    forall i :: 0 <= i < |events| && events[i].Trade? ==> events[i].size * events[i].price > 0.0
  }

  predicate KeepsBase(events: seq<Event>) { forall i :: 0 <= i < |events| ==> !events[i].Capital? }

  /** The floor on capital, for every gated run of real trades that never resets the capital. */
  ghost predicate FloorKept(l: RiskLimits, capital: real, worst: real) {
    forall events: seq<Event> ::
      Gated(l, New(capital), events, worst) && PositiveTrades(events) && KeepsBase(events) ==>
        AboveFloor(l, Run(New(capital), events), worst)
  }

  /** Without positive capital the share check refuses every trade of positive value. */
  lemma NothingAllowedWithoutCapital(l: RiskLimits, s: RiskState, size: real, price: real)
    requires s.initial <= 0.0 && l.maxTradePct >= 0.0 && size * price > 0.0
    ensures Check(l, s, size, price) != Allowed
  {
    TimesMonoLeft(s.initial, 0.0, l.maxTradePct);
    assert s.initial * l.maxTradePct <= 0.0;
  }

  /** So a run that starts without capital never moves it. */
  lemma {:induction false} NoTradeWithoutCapital(l: RiskLimits, capital: real, events: seq<Event>, worst: real)
    requires capital <= 0.0 && l.maxTradePct >= 0.0
    requires Gated(l, New(capital), events, worst) && PositiveTrades(events) && KeepsBase(events)
    ensures Run(New(capital), events) == New(capital)
    decreases events
  {
    if events == [] {
    } else {
      var init, e := events[..|events| - 1], events[|events| - 1];
      assert PositiveTrades(init) && KeepsBase(init);
      NoTradeWithoutCapital(l, capital, init, worst);
      assert !events[|events| - 1].Capital?;
      if e.Trade? {
        assert e.size * e.price > 0.0;
        NothingAllowedWithoutCapital(l, New(capital), e.size, e.price);
        assert false;
      }
    }
  }

  /** The drawdown check is skipped on a non-positive peak, but then nothing can be traded
      either: the floor is kept in every run exactly when the start respects it. */
  lemma FloorKeptIff(l: RiskLimits, capital: real, worst: real)
    requires worst > 0.0 && l.maxDrawdownPct >= 0.0 && l.maxDailyLoss >= 0.0 && l.maxTradePct >= 0.0
    ensures FloorKept(l, capital, worst) <==>
            capital > 0.0 || capital > capital * (1.0 - l.maxDrawdownPct) - worst
  {
    if FloorKept(l, capital, worst) {
      assert AboveFloor(l, Run(New(capital), []), worst);
    }
    if capital > 0.0 || AboveFloor(l, New(capital), worst) {
      forall events: seq<Event> |
        Gated(l, New(capital), events, worst) && PositiveTrades(events) && KeepsBase(events)
        ensures AboveFloor(l, Run(New(capital), events), worst)
      {
        if capital > 0.0 {
          GatedRunsAreBounded(l, capital, events, worst);
        } else {
          NoTradeWithoutCapital(l, capital, events, worst);
        }
      }
    }
  }

  // ----- the counters as history

  /** Profits recorded since the last new day. */
  function Today(events: seq<Event>): seq<real> {
    if events == [] then [] else
    var before := Today(events[..|events| - 1]);
    match events[|events| - 1]
    case Trade(_, _, pnl) => before + [pnl]
    case NewDay => []
    case Capital(_) => before
  }

  /** The last capital set, and the profits recorded since. */
  function SinceCapital(capital: real, events: seq<Event>): (real, seq<real>) {
    if events == [] then (capital, []) else
    var (base, pnls) := SinceCapital(capital, events[..|events| - 1]);
    match events[|events| - 1]
    case Trade(_, _, pnl) => (base, pnls + [pnl])
    case NewDay => (base, pnls)
    case Capital(amount) => (amount, [])
  }

  function Sum(xs: seq<real>): real { if xs == [] then 0.0 else Sum(xs[..|xs| - 1]) + xs[|xs| - 1] }

  /** The last n entries are losses and the one before them, if any, is not. */
  predicate IsStreak(pnls: seq<real>, n: nat) {
    && n <= |pnls|
    && (forall i :: |pnls| - n <= i < |pnls| ==> pnls[i] < 0.0)
    && (n < |pnls| ==> pnls[|pnls| - n - 1] >= 0.0)
  }

  /** The capital after the first k profits. */
  function CapitalAt(base: real, pnls: seq<real>, k: nat): real
    requires k <= |pnls|
  {
    base + Sum(pnls[..k])
  }

  /** The greatest capital reached on the way. */
  ghost predicate IsPeak(base: real, pnls: seq<real>, peak: real) {
    && (exists k :: 0 <= k <= |pnls| && peak == CapitalAt(base, pnls, k))
    && (forall k :: 0 <= k <= |pnls| ==> CapitalAt(base, pnls, k) <= peak)
  }

  lemma CapitalExtends(base: real, pnls: seq<real>, pnl: real, k: nat)
    requires k <= |pnls| + 1
    ensures CapitalAt(base, pnls + [pnl], k) ==
            if k <= |pnls| then CapitalAt(base, pnls, k) else CapitalAt(base, pnls, |pnls|) + pnl
  {
    var all := pnls + [pnl];
    if k <= |pnls| {
      assert all[..k] == pnls[..k];
    } else {
      assert all[..k] == all && all[..|all| - 1] == pnls == pnls[..|pnls|];
    }
  }

  lemma PeakExtends(base: real, pnls: seq<real>, peak: real, pnl: real)
    requires IsPeak(base, pnls, peak)
    ensures var c := CapitalAt(base, pnls, |pnls|) + pnl; IsPeak(base, pnls + [pnl], if c > peak then c else peak)
  {
    hide CapitalAt;
    forall k: nat | k <= |pnls| + 1
      ensures CapitalAt(base, pnls + [pnl], k) ==
              if k <= |pnls| then CapitalAt(base, pnls, k) else CapitalAt(base, pnls, |pnls|) + pnl
    {
      CapitalExtends(base, pnls, pnl, k);
    }
    var k :| 0 <= k <= |pnls| && peak == CapitalAt(base, pnls, k);
    assert CapitalAt(base, pnls + [pnl], k) == peak;
    assert CapitalAt(base, pnls + [pnl], |pnls| + 1) == CapitalAt(base, pnls, |pnls|) + pnl;
  }

  lemma PeakAtStart(base: real)
    ensures IsPeak(base, [], base)
  {
    assert CapitalAt(base, [], 0) == base;
  }

  lemma StreakExtends(pnls: seq<real>, n: nat, pnl: real)
    requires IsStreak(pnls, n)
    ensures IsStreak(pnls + [pnl], if pnl < 0.0 then n + 1 else 0)
  {
  }

  /** Each field equals its definition over the history of events. */
  lemma {:induction false} FieldsAreHistory(capital: real, events: seq<Event>)
    ensures var s := Run(New(capital), events); var today := Today(events);
            var (base, pnls) := SinceCapital(capital, events);
            && s.daily == Sum(today) && s.trades == |today| && IsStreak(today, s.streak)
            && s.initial == base && s.current == base + Sum(pnls) && IsPeak(base, pnls, s.peak)
    decreases events
  {
    if events == [] {
      CapitalRestarts(New(capital), capital);
      NewDayIsEmpty(New(capital));
    } else {
      var init, e := events[..|events| - 1], events[|events| - 1];
      FieldsAreHistory(capital, init);
      HistoryStep(capital, events);
      var s := Run(New(capital), init);
      var (base, pnls) := SinceCapital(capital, init);
      hide *;
      match e
      case Trade(_, _, pnl) =>
        TradeExtendsHistory(s, Today(init), base, pnls, pnl);
      case NewDay =>
        NewDayIsEmpty(s);
      case Capital(amount) =>
        CapitalRestarts(s, amount);
    }
  }

  lemma HistoryStep(capital: real, events: seq<Event>)
    requires events != []
    ensures var init, e := events[..|events| - 1], events[|events| - 1];
            && Run(New(capital), events) == Apply(Run(New(capital), init), e)
            && Today(events) == (match e case Trade(_, _, pnl) => Today(init) + [pnl]
                                 case NewDay => [] case Capital(_) => Today(init))
            && SinceCapital(capital, events) ==
               (match e case Trade(_, _, pnl) => (SinceCapital(capital, init).0, SinceCapital(capital, init).1 + [pnl])
                case NewDay => SinceCapital(capital, init) case Capital(amount) => (amount, []))
  {
    hide Apply;
  }

  lemma TradeExtendsHistory(s: RiskState, today: seq<real>, base: real, pnls: seq<real>, pnl: real)
    requires s.daily == Sum(today) && s.trades == |today| && IsStreak(today, s.streak)
    requires s.initial == base && s.current == base + Sum(pnls) && IsPeak(base, pnls, s.peak)
    ensures var s' := Apply(s, Trade(0.0, 0.0, pnl)); forall size, price :: Apply(s, Trade(size, price, pnl)) == s'
    ensures var s' := Apply(s, Trade(0.0, 0.0, pnl)); var today', pnls' := today + [pnl], pnls + [pnl];
            && s'.daily == Sum(today') && s'.trades == |today'| && IsStreak(today', s'.streak)
            && s'.initial == base && s'.current == base + Sum(pnls') && IsPeak(base, pnls', s'.peak)
  {
    PeakExtends(base, pnls, s.peak, pnl);
    assert CapitalAt(base, pnls, |pnls|) == base + Sum(pnls) by { assert pnls[..|pnls|] == pnls; }
    StreakExtends(today, s.streak, pnl);
    assert (pnls + [pnl])[..|pnls|] == pnls && (today + [pnl])[..|today|] == today;
    hide IsPeak, IsStreak, CapitalAt;
  }

  lemma NewDayIsEmpty(s: RiskState)
    ensures var s' := Apply(s, NewDay);
            s' == s.(daily := 0.0, trades := 0, streak := 0) && s'.daily == Sum([]) && IsStreak([], s'.streak)
  {
  }

  lemma CapitalRestarts(s: RiskState, amount: real)
    ensures var s' := Apply(s, Capital(amount));
            s' == s.(initial := amount, current := amount, peak := amount) &&
            s'.current == amount + Sum([]) && IsPeak(amount, [], s'.peak)
  {
    PeakAtStart(amount);
    hide IsPeak;
  }
}
