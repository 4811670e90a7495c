# Arbitrage bot: verified model of pricing, routing, execution and limits

The repository is a two-venue arbitrage bot. Before it trades it has to know what an order is
worth (automated-market-maker arithmetic, a route search, an order-book walk), and while it trades
it has to stay within bounds (a two-leg execution protocol behind a circuit breaker and a replay
filter, an inventory ledger, a rate limiter, a risk gate). This project models those parts and
proves what they promise, for all inputs and for all runs.

Verify everything with `dafny verify dfyconfig.toml`.

## Modules

| file | models |
|---|---|
| `Common.dfy` | Option, Result, errors, checked 256-bit operations, one-fact lemmas on products and floors |
| `ConstantProduct.dfy` | the V2 pair: quote, inverse quote, swap step |
| `ConcentratedLiquidity.dfy` | one step of a V3 swap, with its fallbacks and aborts |
| `SwapLoop.dfy` | the tick-walking loop of a V3 quote |
| `Widths.dfy` | when a V3 step and a V3 quote go through without a panic, and what a step is, in plain arithmetic |
| `Router.dfy` | pool graph, routes, and the search as a function of its stacks |
| `RouteFinder.dfy` (module `RouteFinding`) | the backtracking search on shared stacks, quotes along a route, the best route |
| `Arbitrage.dfy` | cycles, and the closed form of a route over V2 pools |
| `Recovery.dfy` | circuit breaker and replay filter |
| `Inventory.dfy` | the ledger |
| `Execution.dfy` | one call of `execute`, as a step function and as the `Executor` class that computes it |
| `ExecutionLaws.dfy` | what every call and every run of calls guarantees |
| `RateLimiter.dfy` (module `RateLimiting`) | the token bucket |
| `OrderBook.dfy` (module `OrderBooks`) | the order-book walk, depth, effective spread |
| `Risk.dfy` | the risk gate |
| `Trading.dfy` | what the risk gate is told about a call |
| `ImpactSearch.dfy` | price impact and the bounded binary search |

Code that changes state step by step is a class or a method, proved equal to a function of the old
state; the laws are proved about that function. 256-bit, 128-bit and signed 128-bit limits are
written out: a failing checked operation is an `Err`, an `unwrap_or` is its fallback value. An error
that the source hands back (`Error.Returned`) is kept apart from one that it turns into a panic
(`unwrap`, `to::<u128>`, a V2 fee above 100%) and from an endless loop, which come out of a quote as
`Panicked`, `FeeTooLarge` and `Diverges` and cannot be swallowed by its callers. `f64` and `Decimal` are reals. Clock readings, leg outcomes and timer
oversleep are arguments, chosen by the environment.

## What the code does differently from what one would expect

Each of these is proved, with the exact condition or a concrete input.

- `get_amount_in` takes its argument for the input token, whatever its name says. It is enough
  input exactly when the pool holds some of that token; on an empty reserve it answers 1, which
  buys nothing (`AmountInCovers`). It is the least sufficient input exactly when its division
  leaves a remainder (`AmountInIsLeastIff`).
- Splitting an order can help in one case: the input reserve is empty, there are at least two units
  to pay out, the fee is not 100% and a quote of one unit does not overflow (`SplitNeverHelpsIff`).
- The pricing engine is documented to match the Solidity integer mathematics exactly (line 43 of the
  repository's own README.md). A V3 step that stops short here rounds the falling price down, not up,
  so it can pay more than the curve, exactly when the remainder of the price division outweighs
  that of the payout division (`Token0InOverpaysIff`): at the square-root price 2^62/2^96 one unit
  of token 0 buys two units of token 1 (`Token0InCanOverpay`). The excess of a short step stays below
  L/2^96 (`Token0InOverpaysByLess`).
- A full step charges its input rounded down, and nothing at all when less than one unit is due or
  when L·|P-T|·2^96 leaves 256 bits and its fallback is zero (`StepIsFreeIff`). It can then still pay
  out, exactly under the condition of `StepPaysForNothingIff`: from the square-root price 2^14 down to
  2^-64 at a liquidity of 2^64 it pays 2^78 - 1 units for nothing (`FullStepCanBeFree`).
- A full step takes its fee from the input instead of grossing it up, and the liquidity change of a
  tick has the same sign in both directions; the theorems hold with both.
- A V3 step leaves the interval between its start and its target when the product of the two prices
  does not fit 256 bits and the input runs out on the way (`StepStaysInsideIff`), which happens
  (`StepCanLeave`).
- A V3 quote moves the price the wrong way when the next target does not lie ahead of the pool's
  price, which no pool whose price is in its tick does (`DirectionKeptIff`, `StartIsConsistent`).
- A V3 quote moves down instead of up from a price above 2^128 (`WrongWayStart`).
- A V3 quote that uses up the liquidity stands at the extreme tick with input left and never returns
  (`LoopEndsIff`). One that does not panic returns exactly below a threshold computed from the full
  charges along the ticks ahead (`CapacityDecides`, `QuoteReturnsIff`). Without a tick ahead the
  threshold is one on a free ride, so that no amount returns (`FreeRideNeverReturns`,
  `SomeAmountReturnsIff`): such is every pool loaded without ticks at price 1 and a liquidity of 2^65
  or more (`PlainPoolNeverReturns`). With one full-range position the loop crosses the same tick for
  ever (`FullRangeQuoteDiverges`).
- A V3 quote never comes back with an error (`NoErrorComesBack`): it returns, panics or runs for ever. So
  does everything that asks for one. The route search, the route comparison and the cycle search come
  back exactly when every quote they ask for does; over V2 pools with fees up to 100% they always do
  (`PlainGraphNeverHangs`, `PlainCyclesAnswered`), and one V3 pool can hang them (`SearchCanHang`,
  `FreeRideHangsTheSearch`).
- Out through one pool and straight back never pays on a V2 pool (`OutAndBackNeverPays`). On a V3 pool,
  within its tick, it pays only if the step with token 0 in overpays (`OutAndBackV3NeedsOverpay`), and
  then it can (`OutAndBackV3CanPay`).
- The rate limiter reads its clock before it takes its locks. The bound "capacity plus rate times
  length" holds for every run exactly when that delay is zero (`PlainBoundIff`); with a delay the
  window grows by it (`GrantedInWindow`). A header that reports negative usage raises the level
  above the capacity (`LevelInRange`).
- The drawdown check is skipped when the peak is not positive. That does no harm, because the share
  check then refuses every trade of positive value: the capital floor is kept in every run exactly
  when the start respects it, as every positive capital and a capital of zero do (`FloorKeptIff`).
  `trades_this_hour` is only reset daily (`FieldsAreHistory`).
- A failed call is recorded as a profit of zero even when its first leg has filled, which costs the
  ledger 0.001·s1·p1 (`FailedCallGain`). The recorded profit is the ledger's exactly when no leg
  filled, or the lone filled leg was worth nothing, or both filled and the reporting gap is zero
  (`RecordedPnlIsLedgerIff`). A first exchange leg that fills less than the minimum
  ratio is rejected without any ledger entry (`TradeLaw`).
- A V3 pool shows no price impact at all, so the size search answers 10^30 for every non-negative
  target (`V3SearchIsAllOrNothing`).
- A V2 pool with a reserve of 2^96 or more shows no price impact either, because the decimal conversion falls
  back to zero, and the size search then answers with the whole reserve (`WideReserveFindsAll`).
  On other pools the floored impact is not monotone and the search can stop early
  (`FlooredSearchCanMiss`), but only by rounding: the target is then within one unit of output
  of the exact impact (`MissIsLessThanOneUnit`).

## Model

| member | source | states |
|---|---|---|
| ConstantProduct.AmountOutIsLargestAdmissible | pricing/src/amm.rs:56-85 | on live reserves the quote is exactly the largest output that satisfies the fee-adjusted invariant of the Uniswap v2 Core whitepaper, section 3.2.1 (an output is admissible if and only if it does not exceed the quote), and it stays below the reserve; otherwise it is zero |
| ConstantProduct.NoOverflowOnUint112 | pricing/src/amm.rs:56-85 | with reserves and input below 2^112 the quote fails if and only if the token is not in the pair |
| ConstantProduct.AmountOutOkIff | pricing/src/amm.rs:56-85 | a quote succeeds if and only if the token is in the pair and, with a positive input on live reserves, the fee is at most 10000 bps and numerator and denominator stay below 2^256 |
| ConstantProduct.QuoteGrows | pricing/src/amm.rs:56-85 | more input never quotes less |
| ConstantProduct.QuoteIsLargest | pricing/src/amm.rs:68-84 | the floor division alone is the largest admissible output, for every integer candidate |
| ConstantProduct.SwapStep | pricing/src/amm.rs:161-189 | a swap adds the input, removes exactly the quoted output, changes nothing else, never lowers the product of the reserves and keeps both positive |
| ConstantProduct.SwapFailsOnlyOnInput | pricing/src/amm.rs:161-189 | a quoted swap fails if and only if the input reserve would leave 256 bits; the checked subtraction never fails |
| ConstantProduct.RunKeepsProduct | pricing/src/amm.rs:161-189 | over every run of swaps in both directions the product never decreases and live reserves stay live |
| ConstantProduct.NoFreeLunch | pricing/src/amm.rs:161-189 | after any run, a reserve that went down means that the other went up |
| ConstantProduct.RoundTripNeverGains | pricing/src/amm.rs:56-85 | selling the proceeds back on the updated pool returns at most the input |
| ConstantProduct.TwoOrdersNeverHelp | pricing/src/amm.rs:68-84 | two consecutive orders pay at most what their sum pays at once, floors included |
| ConstantProduct.SplitNeverHelps | pricing/src/amm.rs:56-189 | any list of same-direction orders run one after another pays at most the quote of the total |
| ConstantProduct.SplitNeverHelpsIff | pricing/src/amm.rs:56-189 | on every pool that holds for every list if and only if the input reserve is live, or at most one unit can be paid out, or the fee is 100%, or a quote of one unit overflows |
| ConstantProduct.OverflowNeverPays | pricing/src/amm.rs:64-70 | on a pool of that last kind every run that succeeds pays nothing |
| ConstantProduct.SplitHelpsOnEmptyReserve | pricing/src/amm.rs:59-61 | the failing family: one unit and then one more (10000 more on a small reserve) pay, both at once pay nothing |
| ConstantProduct.PaysIff | pricing/src/amm.rs:87-110 | an input pays at least o if and only if it covers the inverse fraction |
| ConstantProduct.AmountInOkIff | pricing/src/amm.rs:87-110 | an inverse quote succeeds if and only if the token is in the pair, the output is positive and below its reserve, the fee is below 10000 bps and both products stay below 2^256 |
| ConstantProduct.AmountInOnUint112 | pricing/src/amm.rs:87-110 | with reserves below 2^112 and a fee below 10000 bps the products always fit |
| ConstantProduct.AmountInIsExact | pricing/src/amm.rs:109 | the saturating addition never saturates on an answer that can be quoted |
| ConstantProduct.AmountInCovers | pricing/src/amm.rs:87-110 | quoting the inverse quote yields at least the requested output if and only if the input reserve is live |
| ConstantProduct.AmountInIsLeastIff | pricing/src/amm.rs:87-110 | every sufficient input is at least the answer less one; the answer itself is the least sufficient input if and only if the division leaves a remainder |
| ConcentratedLiquidity.StepCharges | pricing/src/amm.rs:494-603 | a step never charges more than remains, exactly what remains when it stops short, and ends on the target otherwise |
| ConcentratedLiquidity.StepStaysInsideIff | pricing/src/amm.rs:485-604 | a step ends between start and target except, exactly, when the price product leaves 256 bits, the price falls and a non-zero input runs out on the way |
| ConcentratedLiquidity.StepCanLeave | pricing/src/amm.rs:510-587 | a concrete successful step that ends below its target |
| ConcentratedLiquidity.OverflowNeedsWidePrice | pricing/src/amm.rs:510-513 | with a target below 2^128 the exception needs a start above 2^128 |
| ConcentratedLiquidity.StepHeadsForTarget | pricing/src/amm.rs:525-603 | whatever overflows, a step never moves the price away from its target |
| ConcentratedLiquidity.StepMovesNothingIff | pricing/src/amm.rs:558-580 | a step to another price stays where it is if and only if it stops short on an input too small for one unit of price |
| ConcentratedLiquidity.Token1InNeverOverpays | pricing/src/amm.rs:574-595 | a short step with token 1 in never pays more than the curve of the Uniswap v3 Core whitepaper, section 6.2.3 |
| ConcentratedLiquidity.Token0InOverpaysByLess | pricing/src/amm.rs:558-587 | a short step with token 0 in pays less than the curve plus L/2^96 and more than the curve minus one |
| ConcentratedLiquidity.Token0InOverpaysIff | pricing/src/amm.rs:558-587 | a short step with token 0 in pays more than the curve if and only if L times the remainder of the price division exceeds the remainder of the payout division times the price divisor |
| ConcentratedLiquidity.Token0InOverpaysAtMostOneUnit | pricing/src/amm.rs:558-587 | an exact price division never overpays, and with L up to 2^96 one unit less is never too much |
| ConcentratedLiquidity.ShortStepWorth | pricing/src/amm.rs:557-602 | a short step pays no more than its input is worth at the starting price, unless it has token 0 in and overpays |
| ConcentratedLiquidity.Token0InCanOverpay | pricing/src/amm.rs:558-587 | a concrete step that pays more than 2^64 times the exact curve value |
| ConcentratedLiquidity.ZeroLiquidityTradesNothing | pricing/src/amm.rs:485-556 | with zero liquidity a step moves to the target for nothing and divides by no liquidity |
| Widths.StepFitsIff | pricing/src/amm.rs:485-604 | a step goes through if and only if, in plain arithmetic, fee and input fit 128 bits, both prices are positive, the way to the target fits 128 bits, and the products of the branch taken fit their widths |
| Widths.FullStepIs | pricing/src/amm.rs:525-556 | and then a step with enough input charges and pays the plain quotients of the way to the target, with the fee rounded up |
| Widths.FallingStepIs | pricing/src/amm.rs:557-602 | a step that stops short on the way down lands on L·P·2^96/(L·2^96 + x·P), takes what remains and pays L·(P - next)/2^96 |
| Widths.RisingStepIs | pricing/src/amm.rs:557-602 | a step that stops short on the way up lands on P + x·2^96/L, takes what remains and pays L·(next - P)·2^96/(P·next) |
| Widths.StepHasRoom | pricing/src/amm.rs:485-604 | within bounds on prices, liquidity and input a step goes through and pays no more than its bound |
| ConcentratedLiquidity.ZeroDenominatorNeedsZeroPrice | pricing/src/amm.rs:510-595 | a division by zero needs a zero price, and a successful step has both prices positive |
| ConcentratedLiquidity.FullStepReverses | pricing/src/amm.rs:500-556 | crossing a range and crossing it back is zero-sum before fees |
| ConcentratedLiquidity.FullStepIsExact | pricing/src/amm.rs:500-556 | where the products fit 256 bits a full step charges and pays the exact amounts rounded down, with the fee rounded up |
| ConcentratedLiquidity.StepUsesAllIff | pricing/src/amm.rs:525-603 | a step charges all that remains if and only if it stops short or the way to the target costs exactly that |
| ConcentratedLiquidity.StopsShortIff | pricing/src/amm.rs:494-525 | a step stops short if and only if the input is below the least one that covers the full step and its fee |
| ConcentratedLiquidity.StepIsFreeIff | pricing/src/amm.rs:500-556 | a step charges nothing if and only if less than one unit is due, or the product that measures it leaves 256 bits |
| ConcentratedLiquidity.FreeRideAtPriceOne | pricing/src/amm.rs:500-513 | from price 1 to the lower bound that is so at every liquidity of 2^65 or more |
| ConcentratedLiquidity.OneUnitStopsShort | pricing/src/amm.rs:494-603 | where the way costs something and its products fit, one unit of input goes into the fee and moves nothing |
| ConcentratedLiquidity.StepPaysForNothingIff | pricing/src/amm.rs:500-556 | the exact condition under which a free step still pays out |
| ConcentratedLiquidity.FullStepCanBeFree | pricing/src/amm.rs:500-556 | a concrete step at ordinary magnitudes that charges nothing and pays 2^78 - 1 units |
| SwapLoop.GetNextTick | pricing/src/amm.rs:466-483 | returns the nearest initialized tick ahead in the direction of the swap, or the bound if there is none |
| SwapLoop.NextTick | pricing/src/amm.rs:466-483 | the specification of the above: initialized if and only if some tick is ahead, and then no tick ahead is nearer |
| SwapLoop.RunBody | pricing/src/amm.rs:364-419 | the statements of one iteration compute the step function, abort included |
| SwapLoop.BodyProgress | pricing/src/amm.rs:384-418 | an iteration that does not finish lands on its target, and a crossing leaves exactly that tick behind |
| SwapLoop.CrossingIsUndoneIff | pricing/src/amm.rs:389-415 | crossing a tick and its opposite back restores the liquidity if and only if the sum stayed within 128 bits |
| SwapLoop.LiquidityFits | pricing/src/amm.rs:389-415 | in every run the liquidity stays within 128 bits |
| SwapLoop.GetAmountOut | pricing/src/amm.rs:346-422 | the loop terminates by the ticks still ahead and returns the outcome of the walk |
| SwapLoop.WalkConserves | pricing/src/amm.rs:346-422 | in every run remaining plus charged inputs and fees is the specified amount, remaining is never negative, the output is the sum of the step outputs, ticks are crossed at most once in strictly monotone order, and at most one step more than ticks ahead is taken before the run finishes, aborts or stands at the bound |
| SwapLoop.PriceMovesOneWay | pricing/src/amm.rs:364-419 | with a monotone tick map every run that has passed no target yet moves the price one way only, and never past the bound unless its first step overflows |
| SwapLoop.FacingIsConsistent | pricing/src/amm.rs:466-483 | a start has passed no target if and only if its next target lies ahead |
| SwapLoop.StartIsConsistent | pricing/src/amm.rs:353-362 | a pool whose price is in its tick starts so in both directions |
| SwapLoop.DirectionKeptIff | pricing/src/amm.rs:364-419 | for every starting price the price moves one way only if and only if the next target lies ahead or the first step is too small to move it |
| SwapLoop.WrongWayStart | pricing/src/amm.rs:364-419 | a concrete start above 2^128 from which an order of token 1 moves the price down |
| SwapLoop.BoundIsForever | pricing/src/amm.rs:364-419 | a run that stands at the bound with input left keeps input, price and output for any number of iterations, also while it crosses ticks on the bound again and again |
| SwapLoop.SettledOnEveryPool | pricing/src/amm.rs:606-618 | the assumption on the tick map that this needs follows, for every pool, from a monotone map that reads the bound back on its own side |
| SwapLoop.LoopEndsIff | pricing/src/amm.rs:364-419 | some number of iterations finishes the loop if and only if its walk is done, aborts it if and only if the walk failed, and none does either if and only if the walk stands at the bound |
| SwapLoop.NoTickAheadEndsIff | pricing/src/amm.rs:364-419 | with no initialized tick ahead the loop finishes if and only if the input stops short of the bound or the way there costs exactly all of it |
| SwapLoop.CapacityDecides | pricing/src/amm.rs:364-419 | a run that does not abort is used up if and only if its input is below the capacity, a threshold computed from price, liquidity and the ticks ahead; from there on it stands at the bound |
| SwapLoop.QuoteReturnsIff | pricing/src/amm.rs:346-422 | a quote that does not panic returns if and only if its input is below the capacity of the pool |
| Widths.QuoteWithRoomNeverPanics | pricing/src/amm.rs:346-422 | with such bounds over all ticks ahead, from a consistent start on a monotone tick map, a whole quote never panics |
| Widths.QuoteWithRoomReturnsIff | pricing/src/amm.rs:346-422 | so it returns if and only if its input is below the capacity of the pool |
| Widths.OrdinaryOrderGoesThrough | pricing/src/amm.rs:346-422 | for instance 10^18 of token 1 at price 1, liquidity 10^24 and a fee of 3000 pips |
| SwapLoop.NoErrorComesBack | pricing/src/amm.rs:346-422 | a quote that comes back comes back with a value |
| SwapLoop.HugeInputPanics | pricing/src/amm.rs:353-354 | an input of 2^127 or more panics, whatever the pool |
| SwapLoop.NoTickCapacityIff | pricing/src/amm.rs:364-419 | with no tick ahead the capacity is one, the least there is, if and only if the way to the bound is free |
| SwapLoop.FreeRideNeverReturns | pricing/src/amm.rs:346-422 | then no positive amount returns |
| SwapLoop.SomeAmountReturnsIff | pricing/src/amm.rs:346-422 | with a fee, a price below 2^128 and products that fit, some amount returns if and only if the way is not free |
| SwapLoop.PlainPoolNeverReturns | pricing/src/amm.rs:346-422 | on a pool without ticks at price 1 and a liquidity of 2^65 or more no order of token 0 is ever quoted |
| SwapLoop.InTickQuote | pricing/src/amm.rs:346-422 | an input that runs out before the first target is quoted at what its one step pays |
| SwapLoop.OutAndBackInTick | pricing/src/amm.rs:346-422 | out and back on one price and within the tick gains only if the step with token 0 in overpays |
| SwapLoop.FullRangeQuoteDiverges | pricing/src/amm.rs:364-419 | a concrete quote that never returns: one full-range position, 2 of 2^32 units left for ever |
| Router.BuildGraph | pricing/src/router.rs:70-86 | the adjacency list of every address is the list of its pool sides, in pool order |
| Router.NeighborsAreJoins | pricing/src/router.rs:70-86 | an edge is in the list if and only if its pool is known and joins the two tokens |
| Router.AllRoutesExact | pricing/src/router.rs:88-158 | the search finds a route if and only if it is a well-formed walk of 1 to max_hops known pools from the first to the last token with distinct token addresses |
| Router.AllRoutesNoRepeats | pricing/src/router.rs:88-158 | no route is found twice when the pools are distinct |
| RouteFinding.Search.Dfs | pricing/src/router.rs:114-158 | every call restores the visited set and both stacks and appends exactly the routes that continue them |
| RouteFinding.FindAllRoutes | pricing/src/router.rs:88-112 | the result is exactly the set of simple routes, without repeats for distinct pools |
| RouteFinding.GetOutput | pricing/src/router.rs:24-31 | the loop computes the chained quotes, and fails with the first failing hop |
| RouteFinding.GetIntermediateAmounts | pricing/src/router.rs:33-42 | succeeds if and only if the route can be quoted, starts with the input, chains pool quotes and ends with the output; fails as the quote of the route does |
| RouteFinding.ConvertEthToTokenCost | pricing/src/router.rs:217-231 | the cost itself for ether, else the quote of the first pool to an ether token, if any; an error of that quote counts as none, a panic or an endless loop passes on |
| RouteFinding.NetAnswersIff | pricing/src/router.rs:189-202 | a route has a net output if and only if its own quote and that of its gas cost come back; what stops it is never an error that the source swallows |
| RouteFinding.CompareRoutes | pricing/src/router.rs:178-215 | comes back if and only if every quote it asks for does, and then with one analysis per simple route, in the order of the search, whose fields add up: 250000 gas for one hop and 100000 for each further one, ether cost = gas · gwei · 10^9, gross = quoted output or zero, gross = net + cost where the gross covers the cost and net = 0 otherwise, net = gross without a cost |
| RouteFinding.CostPricesGas | pricing/src/router.rs:217-231 | the cost in the output token: the ether cost itself for WETH or ETH, else the quote of the first pool to one of them, none without such a pool or if its quote fails |
| RouteFinding.FreeGasNetIsGross | pricing/src/router.rs:189-202 | at gas price 0 the net output is the gross output, so that the largest gross output wins |
| RouteFinding.ShorterNeverNetsLess | pricing/src/router.rs:189-202 | of two routes with equal gross output the shorter never nets less, where the output token is ether or V2 pools price the gas and can quote the longer route's |
| RouteFinding.FindBestRoute | pricing/src/router.rs:160-176 | fails with "no route" if and only if no simple route exists; does not come back if and only if some simple route asks for a quote that does not; otherwise the answer is a simple route whose gas-adjusted net no simple route of the graph exceeds, the last found among equals |
| RouteFinding.PlainGraphNeverHangs | pricing/src/router.rs:178-231 | on a graph of V2 pools with fees up to 100% every quote the search asks for comes back |
| RouteFinding.OnePoolHangsIff | pricing/src/router.rs:160-215 | the search through a single pool to ether hangs if and only if the quote of that pool does not come back |
| RouteFinding.SearchCanHang | pricing/src/router.rs:160-215 | the full-range pool hangs the search through it |
| RouteFinding.FreeRideHangsTheSearch | pricing/src/router.rs:160-215 | so does any simple route that enters a V3 pool without ticks ahead on a free ride |
| Router.GetPoolAmountOut | pricing/src/amm.rs:737-742 | the quote of a pool is that of its kind |
| Arbitrage.OutputBelowComposedFraction | pricing/src/router.rs:24-31 | over V2 pools the output of any route is at most the floor of one fraction p·a/(q + r·a) composed hop by hop |
| Arbitrage.FractionIsProducts | pricing/src/amm.rs:63-84 | p is the product of (10000 - fee)·reserve_out and q the product of 10000·reserve_in |
| Arbitrage.UnprofitableForEveryAmount | pricing/src/router.rs:253-257 | a route with p at most q returns at most its input, for every amount |
| Arbitrage.ExactProfitIff | pricing/src/amm.rs:63-84 | without floors a live cycle pays for the amount a if and only if r·a < p - q |
| Arbitrage.CycleIsEdgeAndRoute | pricing/src/router.rs:240-251 | a cycle is exactly an edge out of the token followed by a simple route back |
| Arbitrage.FindArbitrageLoops | pricing/src/router.rs:232-264 | comes back if and only if the quote of every cycle of 2 to max_hops hops with distinct tokens apart from the endpoint does, and then with exactly the profitable ones, none twice when the pools are distinct |
| Arbitrage.PlainCyclesAnswered | pricing/src/router.rs:253-257 | over V2 pools with fees up to 100% every cycle's quote comes back |
| Arbitrage.OutAndBackNeverPays | pricing/src/router.rs:232-264 | the two-hop cycle through one V2 pool is never profitable |
| Arbitrage.OutAndBackV3NeedsOverpay | pricing/src/router.rs:232-264 | the two-hop cycle through one V3 pool, each way within its tick, is profitable only if the step with token 0 in overpays |
| Arbitrage.OutAndBackV3CanPay | pricing/src/router.rs:232-264 | a concrete V3 pool with a profitable two-hop cycle: one unit out, some 2^69 back |
| Recovery.CircuitBreaker.RecordFailure | executor/src/recovery.rs:42-50 | on the pruned deque it has the same effect as on the full history of failures |
| Recovery.CircuitBreaker.CleanupOldFailures | executor/src/recovery.rs:115-124 | pruning from the front keeps exactly the failures later than the cutoff |
| Recovery.CircuitBreaker.IsOpen | executor/src/recovery.rs:98-113 | the answer and the lazy reset are those of the full history |
| Recovery.CircuitBreaker.Trip | executor/src/recovery.rs:66-74 | the first trip time is kept |
| Recovery.CircuitBreaker.Reset | executor/src/recovery.rs:110-113 | trip and failures are cleared |
| Recovery.PruningLosesNothing | executor/src/recovery.rs:115-124 | what was pruned earlier is outside every later window |
| Recovery.TripsIff | executor/src/recovery.rs:42-50 | an untripped breaker trips at now if and only if at least failure_threshold failures since the last reset lie in (now - window, now] |
| Recovery.TrippedIff | executor/src/recovery.rs:42-113 | in every run from the closed state the breaker is tripped at t if and only if a failure at t found it untripped with the threshold in its window and no query since lay past the cooldown |
| Recovery.OpenIff | executor/src/recovery.rs:98-108 | in every run from the closed state a query answers open if and only if such a failure exists and this query does not lie past its cooldown either; an untripped breaker answers closed |
| Recovery.StaysOpenThroughCooldown | executor/src/recovery.rs:98-113 | once tripped at t, in any run every query up to t + cooldown answers open, and the first later one answers closed and clears all state |
| Recovery.NeverOpenWithoutCause | executor/src/recovery.rs:42-74 | over every run a recorded trip is the time of a failure at which the window held the threshold |
| Recovery.ReplayProtection.IsDuplicate | executor/src/recovery.rs:147-161 | true if and only if the id was marked less than the TTL ago; pruning never changes an answer |
| Recovery.ReplayProtection.MarkExecuted | executor/src/recovery.rs:152-155 | the completion time of that id alone is replaced |
| Recovery.ReplayProtection.Cleanup | executor/src/recovery.rs:157-161 | exactly the entries marked less than the TTL ago are kept |
| Inventory.InventoryTracker.AddFree | inventory/src/tracker.rs:165-175 | one free balance moves by the amount, created at zero if missing; all others and every locked balance stay |
| Inventory.InventoryTracker.RecordTrade | inventory/src/tracker.rs:153-197 | every free balance moves by exactly the trade's fee-adjusted delta, locked balances and other venues do not move, an unknown venue is ignored |
| Execution.SplitJoin | executor/src/engine.rs:310-315 | a pair splits into base and quote when each has no slash |
| Execution.SplitCounts | executor/src/engine.rs:310-313 | a pair has one part more than slashes, so that only a pair with exactly one is booked |
| Execution.Executor.UpdateInventory | executor/src/engine.rs:302-350 | the ledger stays its opening state plus the deltas of the recorded trades |
| Execution.Executor.ExecuteLegs | executor/src/engine.rs:352-510 | both leg orders compute the leg step, for every outcome of the two legs |
| Execution.Executor.PassGates | executor/src/engine.rs:230-257 | breaker, replay filter and validity are checked in that order, and only the refusal is recorded |
| Execution.Executor.Finish | executor/src/engine.rs:264-299 | the id is marked, a failure goes to the breaker, one counter moves |
| Execution.Executor.Execute | executor/src/engine.rs:226-300 | one call is one step of the abstract world, and keeps the ledger equal to its opening state plus all recorded trades |
| ExecutionLaws.ReachedIff | executor/src/engine.rs:230-257 | a leg is attempted if and only if the breaker is closed, the id was not completed within the TTL and the signal is valid; otherwise nothing but the counters and the breaker's own reset changes |
| ExecutionLaws.FirstCallReachesIff | executor/src/engine.rs:226-257 | the first call of a fresh executor reaches the legs if and only if its signal is not expired, allowed by inventory and limits, and has a positive profit and score |
| ExecutionLaws.HopelessSignalReachesNoLeg | executor/src/engine.rs:250-257 | a signal that is expired, disallowed or without profit or score reaches no leg in any state |
| ExecutionLaws.ExchangeLegAcceptedIff | executor/src/engine.rs:379-384 | a first leg on the exchange is accepted if and only if it fills at least the minimum ratio of a positive size |
| ExecutionLaws.RefusedIff | executor/src/engine.rs:230-238 | in every run from the start a call is refused with an open breaker if and only if an earlier call failed with the threshold in its window, no check since lay past its cooldown, and this one does not either |
| ExecutionLaws.OutcomeLaw | executor/src/engine.rs:226-300 | the result is Done or Failed; Done if and only if both legs were reached and filled, with a profit and no error; each call is one attempt and one success or failure |
| ExecutionLaws.ErrorLaw | executor/src/engine.rs:226-510 | which error a call reports: the first of breaker, duplicate, invalid signal, leg-1 timeout, rejection, partial fill, leg-2 timeout and failure that occurs |
| ExecutionLaws.ReceiptLaw | executor/src/engine.rs:352-510 | what the context of a call records: the times, and for a completed call both fills with the order id and the transaction hash each in the field of its leg |
| ExecutionLaws.LegCounterLaw | executor/src/engine.rs:363-509 | the failure counter of a venue moves by one if and only if the failed leg was on it |
| ExecutionLaws.EffectLaw | executor/src/engine.rs:352-510 | the venue calls in order, with unwind if and only if leg 1 filled and leg 2 did not |
| ExecutionLaws.TradeLaw | executor/src/engine.rs:352-510 | the ledger entries of a call are exactly those of its accepted legs |
| ExecutionLaws.DoneMoves | executor/src/engine.rs:302-350 | a completed call, venue by venue: the venue bought on gains 0.999·s1 of base and loses s1·p1 of quote, the other loses s2 of base and gains 0.999·s2·p2 of quote, the exchange being bought on exactly when the direction is to buy there |
| ExecutionLaws.LoneLegMoves | executor/src/engine.rs:302-350 | a call whose second leg failed moves the first venue alone |
| ExecutionLaws.LedgerFollowsAcceptedLegs | executor/src/engine.rs:302-350 | over every run each balance of each venue moves by exactly the fee-adjusted amounts of the accepted legs on that venue |
| ExecutionLaws.FailedCallTripsIff | executor/src/engine.rs:269-284 | the breaker after a failed call: tripped at its failure if and only if the window ending there holds the threshold, and cleared again if the cooldown is over by the re-check |
| ExecutionLaws.HistoryInOrder | executor/src/recovery.rs:42-50 | over every run from the start the recorded failures are in order and not later than the last call |
| ExecutionLaws.RunTripsIff | executor/src/engine.rs:269-284 | so in every run from the start the breaker after a failed call is as the window says |
| ExecutionLaws.PnlAgainstLedger | executor/src/engine.rs:1035-1053 | the reported profit is the ledger change valued at p1 plus (s1-s2)(p2-p1) + 0.001(s2·p2 - s1·p1), and no third asset moves |
| ExecutionLaws.PnlWithEqualFills | executor/src/engine.rs:1035-1053 | with equal fills the difference is 0.001·s·(p2-p1) |
| ExecutionLaws.PnlFlips | executor/src/engine.rs:1040-1052 | with the legs recorded on the other venues the gross profit changes sign and the fee stays |
| ExecutionLaws.AttemptsBalance | executor/src/engine.rs:226-300 | over every run attempts are successes plus failures |
| ExecutionLaws.CountersAreHistory | executor/src/engine.rs:226-510 | in every run from the start each of the five counters equals its count over the calls |
| ExecutionLaws.SameIdIsSpacedByTtl | executor/src/recovery.rs:147-161 | two calls of a run with one id both reach the legs only if the TTL lies between them |
| ExecutionLaws.NoLegWhileTripped | executor/src/engine.rs:230-238 | over every run no leg is attempted from a trip until its cooldown has passed |
| RateLimiting.RateLimiter.TryAcquire | exchange/src/client.rs:51-62 | one locked iteration refills, caps and grants as specified |
| RateLimiting.AttemptBalances | exchange/src/client.rs:51-62 | what is left plus what is granted is the level before, min(tokens + refill, capacity), and a weight is granted if and only if that level covers it |
| RateLimiting.MinuteRefillsAll | exchange/src/client.rs:28-36 | a minute refills exactly the capacity, evenly |
| RateLimiting.CoveredAttemptsAllGranted | exchange/src/client.rs:44-72 | attempts whose weights the level covers together are all granted without a sleep, in any order |
| RateLimiting.FullBucketGrantsCapacity | exchange/src/client.rs:44-72 | from a full bucket these are all lists of attempts up to the capacity |
| RateLimiting.RateLimiter.UpdateFromHeaders | exchange/src/client.rs:38-42 | the level becomes capacity less reported usage, not below zero |
| RateLimiting.HeaderBalances | exchange/src/client.rs:38-42 | after a header the level and the usage make up the capacity, as long as the usage fits it |
| RateLimiting.RateLimiter.Wait | exchange/src/client.rs:44-72 | a lone waiter within the capacity is granted at once or right after the computed sleep |
| RateLimiting.SleepIsEnough | exchange/src/client.rs:64-70 | after the computed sleep the weight is available |
| RateLimiting.SleepIsLeast | exchange/src/client.rs:64-70 | no shorter sleep of at least a millisecond suffices |
| RateLimiting.LevelInRange | exchange/src/client.rs:38-62 | attempts keep the level in [0, capacity], and a header keeps it there if and only if the usage is not negative |
| RateLimiting.GrantedInWindow | exchange/src/client.rs:38-72 | for every interleaving and window the granted weight is at most the capacity, the refill over the window lengthened by the lock delay, and what headers raised |
| RateLimiting.PlainBoundIff | exchange/src/client.rs:47-57 | capacity plus rate times length bounds every run with lowering headers, for a positive capacity, if and only if the clock is read without delay |
| RateLimiting.OversizedNeverGranted | exchange/src/client.rs:44-72 | a weight above the capacity is never granted, in any run |
| OrderBooks.WalkTheBook | exchange/src/analyzer.rs:31-91 | the loop computes cost, fills, average price, slippage, consumed levels and full-fill flag of the specified walk, on any book |
| OrderBooks.TakenIsMin | exchange/src/analyzer.rs:49-67 | the walk fills min(quantity, depth) |
| OrderBooks.FullyFilledIff | exchange/src/analyzer.rs:69 | a full fill is reported if and only if the depth suffices |
| OrderBooks.WalkIsOptimal | exchange/src/analyzer.rs:49-67 | among all allocations within the level sizes and with the same total the walk costs a buyer least and pays a seller most |
| OrderBooks.AverageMovesAgainstTaker | exchange/src/analyzer.rs:70-74 | the average price never improves as the quantity grows |
| OrderBooks.AverageNoBetterThanBest | exchange/src/analyzer.rs:70-74 | the average is never better than the best price |
| OrderBooks.SlippageIsAgainstTaker | exchange/src/analyzer.rs:76-81 | the slippage is never negative: average over best for a buyer, best over average for a seller |
| OrderBooks.EffectiveSpread | exchange/src/analyzer.rs:138-152 | the spread of the two average prices, zero when a side or the mid price is zero |
| OrderBooks.EffectiveSpreadIff | exchange/src/analyzer.rs:138-152 | the effective spread is at least the quoted one if and only if both sides can fill something or the quoted spread is not positive |
| OrderBooks.DepthAtBps | exchange/src/analyzer.rs:93-124 | quantity and notional of the levels before the first one outside the band |
| OrderBooks.InBandIff | exchange/src/analyzer.rs:109-115 | a level is in the band if and only if its price is within that share of the best one, either way |
| OrderBooks.LeadingIsBandIff | exchange/src/analyzer.rs:108-121 | the early exit finds the whole band if and only if no level in the band stands behind one outside it |
| OrderBooks.SortedBandIsLeading | exchange/src/analyzer.rs:108-121 | on a book with the best price first the early exit loses nothing |
| Risk.RiskManager.CheckPreTrade | executor/src/position_limits.rs:56-125 | the six checks in their order |
| Risk.RiskManager.RecordTrade | executor/src/position_limits.rs:127-160 | the whole new state after a trade |
| Risk.RiskManager.SetCapitalBase | executor/src/position_limits.rs:164-168 | the three capital fields are set, the rest stays |
| Risk.RiskManager.ResetDay | executor/src/position_limits.rs:170-174 | the three daily counters are cleared, capital and peak stay |
| Risk.AllowedIff | executor/src/position_limits.rs:56-125 | with a positive peak a trade passes if and only if all six limits are respected, the drawdown stated as a floor on capital |
| Risk.RefusalIff | executor/src/position_limits.rs:56-125 | with a positive peak each refusal is given if and only if its limit is the first one not respected |
| Risk.DailyLossIff | executor/src/position_limits.rs:80-88 | in every state the daily-loss refusal is given if and only if both size checks pass and the day's profit is at or below the limit |
| Risk.GatedRunsAreBounded | executor/src/position_limits.rs:56-174 | in every gated run on positive capital: capital above peak·(1 - max drawdown) less one worst loss, daily loss within the limit plus one worst loss, trade and streak counters within their limits |
| Risk.NothingAllowedWithoutCapital | executor/src/position_limits.rs:69-78 | without positive capital every trade of positive value is refused |
| Risk.FloorKeptIff | executor/src/position_limits.rs:56-160 | the capital floor holds in every gated run of trades of positive value if and only if the starting capital is positive or itself above the floor |
| Risk.FieldsAreHistory | executor/src/position_limits.rs:127-174 | daily profit, trade count, loss streak, capital and peak equal their definitions over the event history, across new days and capital changes |
| Trading.FailedCallIsInvisibleToRisk | integration/src/bin/arb_bot.rs:974-984 | a failed call ends a loss streak and moves no profit, even when its first leg stays in the ledger |
| Trading.FailedCallGain | executor/src/engine.rs:302-350 | a failed call changes the ledger, valued at p1, by -0.001·s1·p1 when its first leg filled and by nothing otherwise |
| Trading.RecordedPnlIsLedgerIff | integration/src/bin/arb_bot.rs:980-981 | the recorded profit equals the ledger change if and only if leg 1 did not fill, or only leg 1 filled and was worth nothing, or both filled and the reporting gap is zero |
| ImpactSearch.FindMaxSizeForImpact | pricing/src/bin/impact_analyzer.rs:81-124 | the loop returns the result of the specified 128-step halving, and does not come back if and only if a live V2 pool has a fee above 100% |
| ImpactSearch.ImpactAbortsIff | pricing/src/amm.rs:63-63 | the price impact panics if and only if a live V2 pool has a fee above 100% |
| ImpactSearch.NarrowKeeps | pricing/src/bin/impact_analyzer.rs:96-121 | every halving keeps: the last size below the range meets the target, the first above it fails or is past the bound |
| ImpactSearch.ConvergesIff | pricing/src/bin/impact_analyzer.rs:96-121 | 128 iterations suffice whatever sizes meet the target if and only if the bound is below 2^128 |
| ImpactSearch.PoolConvergesIff | pricing/src/bin/impact_analyzer.rs:81-124 | on a pool that can quote its whole input reserve they suffice for every target if and only if that reserve is below 2^128 |
| ImpactSearch.V3SearchIsAllOrNothing | pricing/src/amm.rs:451-464 | on a V3 pool the answer is 10^30 when there is a spot price and the target is not negative, else zero |
| ImpactSearch.FoundIsLocallyMaximal | pricing/src/bin/impact_analyzer.rs:81-124 | the answer is zero or meets the target, and its successor fails or is past the bound |
| ImpactSearch.FoundIsMaximum | pricing/src/bin/impact_analyzer.rs:81-124 | when every smaller size meets the target too, a size within the bound meets it if and only if it does not exceed the answer |
| ImpactSearch.UnflooredSearchIsGlobal | pricing/src/amm.rs:112-159 | on the impact without floors the answer is the global maximum |
| ImpactSearch.MeetsIff | pricing/src/amm.rs:112-159 | decimals cancel: a size meets the target if and only if its output covers the target share of its spot value |
| ImpactSearch.PricesAreScaled | pricing/src/amm.rs:112-148 | spot and execution price are the ratios of reserves and of amounts, each scaled by the decimals of its own token |
| ImpactSearch.FlooredImpactIsNear | pricing/src/amm.rs:112-159 | the code's impact is at least the exact one and exceeds it by less than reserve_in / (a·reserve_out) |
| ImpactSearch.MissIsLessThanOneUnit | pricing/src/bin/impact_analyzer.rs:81-124 | when a larger size meets the target, the size after the answer misses it by rounding of one output unit only |
| ImpactSearch.IntegralCutoffIsGlobal | pricing/src/bin/impact_analyzer.rs:81-124 | when (1 - target)·reserve_out/reserve_in is an integer the answer on the code's own impact is the global maximum |
| ImpactSearch.FlooredSearchCanMiss | pricing/src/bin/impact_analyzer.rs:81-124 | reserves 10 and 10, no fee, target 45%: the answer is 5, yet 7 meets the target |
| ImpactSearch.WideReserveShowsNoImpact | pricing/src/amm.rs:294-299 | a reserve of 2^96 or more makes every size that can be quoted meet every non-negative target |
| ImpactSearch.WideReserveFindsAll | pricing/src/bin/impact_analyzer.rs:81-124 | on such a pool the answer is the whole input reserve, whatever the target |

## Left out

- SwapLoop.GetAmountOut: the float conversions between ticks and prices (pricing/src/amm.rs:606-618) are the parameter `TickMath`. The results on the direction of the price assume of it that it is monotone and below 2^128 and that ticks lie within the bounds.
- SwapLoop.LoopEndsIff: assumes `Settled`, that initialized ticks ahead of the tick read back from the bound have the bound's price; the float conversions saturate so. On a map without it a run that stands at the bound might move again, and the quote is still reported as `Diverges`.
- SwapLoop.GetNextTick: keeps the nearest tick in one pass instead of sorting all ticks and scanning; the result is the same.
- ConcentratedLiquidity.StepCharges: 128-bit products and a fee above 10^6 panic, as in a build that checks arithmetic; wrap-around in a release build is not modelled. The same holds for a V2 fee above 10000. `liquidity_gross` and `tick_spacing` are never read by the quote and have no field.
- Widths.QuoteWithRoomNeverPanics: sufficient bounds over all ticks ahead; the exact widths are stated for a single step (`StepFitsIff`).
- RouteFinding.ShorterNeverNetsLess: where V3 pools price the gas, or a V2 pool cannot quote the longer route's gas, a longer route may pay less for it.
- RouteFinding.FindBestRoute: the gas cost is an unbounded product (64-bit and 256-bit wrap-around of the gas estimate and price are not modelled).
- SwapLoop.SomeAmountReturnsIff: takes a fee, a price below 2^128 and a product of liquidity and price that fits, without which a short step panics; `FreeRideNeverReturns` takes none of these.
- Arbitrage.OutAndBackV3NeedsOverpay: within the tick; a loop through several ticks is not decided.
- Arbitrage.ExactProfitIff: without floors; with floors the same condition is only necessary (`UnprofitableForEveryAmount`), since rounding can eat any small gain.
- Recovery.CircuitBreaker.RecordFailure: the clock is monotone and the webhook alert is not part of the model; `time_until_reset` is left out.
- Execution.Executor.Execute: calls do not overlap, as the trading loop uses them; concurrent calls, leg internals (orders, signing, allowance, RPC, simulation mode) and real timeouts are not modelled, and each leg's outcome is an argument. Error texts are constructors.
- ExecutionLaws.PnlAgainstLedger: real arithmetic; the conversion from float to decimal, which turns values that do not fit into zero, is not modelled.
- RateLimiting.RateLimiter.Wait: one waiter alone; several waiters are covered by the event runs, which bound what is granted but say nothing about fairness. A capacity of zero makes the source sleep practically for ever.
- OrderBooks.EffectiveSpread: before `round_dp` and `normalize`, so the claim on spreads is about unrounded values.
- ImpactSearch.PoolConvergesIff: a pool that cannot quote its whole reserve, because a product leaves 256 bits, is not decided; `ConvergesIff` bounds it from one side.
- Risk.FloorKeptIff: runs without `set_capital`; `GatedRunsAreBounded` covers those with it for positive amounts.
- ImpactSearch.MeetsIff: decimal division is exact; its 28-digit rounding is not modelled, nor is a token of 20 decimals or more, whose power of ten leaves 64 bits.
- ImpactSearch.IntegralCutoffIsGlobal: one direction; `FlooredSearchCanMiss` shows that some condition is needed, and `MissIsLessThanOneUnit` bounds the loss without one.
- ImpactSearch.FindMaxSizeForImpact: the sum of the two ends does not wrap, which needs a reserve below 2^255. The spot price of a V3 pool is an argument.
- The computation of the V3 spot price, price tables and `from_chain` loading.
- `imbalance`, `can_execute`, `skew`, snapshots and balance refreshes: single reads and linear sums.
- `round_quantity`, `round_price`, fee structures, pre-trade validation and signal scoring: one branch or one product each.
- Rebalancing planners and the gas oracle.
- HTTP, WebSocket, JSON, database, Telegram, metrics export, configuration, command lines and dashboards.
- The kill switch and the resume rule of the trading loop.
