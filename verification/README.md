# Verified model of the cyclic-arbitrage stack

A Dafny model of the integer logic of a Solana arbitrage system: how its monitor quotes swaps on
three kinds of pools, sizes a trade, and finds the routes to trade; and how its executor hands an
instruction to an on-chain program that either makes its profit or reverts. Everything is proved for
all inputs, all runs and all reachable states; nothing in it runs the original program.

Check it with `dafny verify dfyconfig.toml` (Dafny 4.11).

## How it is laid out

- **Concentrated liquidity.** `ClmmCurve` has the exact curve and its rounding laws, `TickMath` one
  swap step with the program's 128-bit fall-backs, `SwapWalk` the two loops over tick crossings,
  `SwapProperties` what a whole walk conserves and why splitting it never helps, `PositionDepth`
  where its liquidity comes from, `WhirlpoolLeg` the closed form and the single-tick leg with its
  capacity.
- **Liquidity bins.** `DlmmBin` fills one bin layer by layer, `DlmmFees` adds fees and volatility,
  `DlmmWalk` is the nested loop that jumps by bitmap, `DlmmProperties` its refinement of the plain
  walk, monotonicity, coverage and conservation, `DlmmWaiting` what becomes of a quote as volatility
  decays, `DlmmExamples` whole quotes from one bin into the next.
- **Fees, costs, sizing.** `PumpAmm` and `PumpFeeV2` quote PumpSwap pools, `Cost` is the stepped cost
  model, `Route` composes two legs, `RouteLimits` says what a refused size tells about others,
  `Optimizer` and `OptimizerSearch` choose the size.
- **Routes.** `PoolGraph` defines cycles, `DiscoverPools` and `CyclePruning` the pruning of pools,
  `CycleCount` the counting search, `CycleRoutes`, `SearchPass` and `Discovery` the route index and
  the incremental search.
- **Execution.** `Ix` is the byte format, `Builder` the account list, `Program` the on-chain state
  machine with venues that may do anything, `VenueCalls` what each venue reads in a call.

Loops and objects of the source stay loops and objects: each method is proved against a recursive
specification function, and the theorems are lemmas about that function.

## Where the code and its comments or expectations part

The model follows the code. These places are stated exactly in the lemmas named:

- `single_tick_capacity` is commented as a ceiling but divides down, so the capacity can be one unit
  too small (`WhirlpoolLeg.CapacityWithinOne`).
- `is_viable` is documented as equivalent to "the payment fits the maximum payment"; two corners
  break that (`Cost.ViableIffPaymentFits`, `Cost.FreeLossLooksPayable`).
- `encode_instruction` is documented as the exact inverse of parsing; flag bits above the lowest are
  lost (`Ix.EncodedOfParse`).
- A PumpSwap SELL can be worth up to two units less for a larger size
  (`PumpAmm.SellRisesIffNoDoubleStep`, `PumpAmm.SellFallsByTwo`), so with PumpSwap as the first leg
  the tradable sizes need not form an interval (`RouteLimits.PumpFirstLegLeavesGap`,
  `RouteLimits.AllTradeIffExtremesDo`).
- A lower Meteora fee is no worse for a size that is still quoted, but with the fee on the input it can
  make the same size too big (`DlmmWaiting.LaterIsKeptIff`, `DlmmWaiting.InputFeeLosesAQuote`).
- The swap loop passes over a tick that the pool stands exactly on, so it can go on with liquidity it
  has left (`PositionDepth.AtDepthIff`, `PositionDepth.QuoteOutsidePosition`).
- A Whirlpool leg offered nothing answers "too big" (`WhirlpoolLeg.RejectIsTooBigIff`,
  `WhirlpoolLeg.NothingLooksTooBig`).
- The optimizer takes a size that comes to nothing, or overflows, for proof that the route is dead at
  every size (`RouteLimits.RefusalIsForeverIff`, `RouteLimits.DeadBesideTradable`).
- Route keys name the pools only, which is ambiguous for pairs of pools alone
  (`PoolGraph.AnchorIsUnique`, `PoolGraph.PairHasTwoAnchors`).
- The account and hop counts of an instruction are single bytes and wrap
  (`Builder.CountsAddUpIff`, `Ix.ParseOfEncoded`).
- The intermediate floor is a floor on what the next hop's source account holds, so tokens already
  there count towards it (`Program.IdleVenuePasses`, `Program.FloorIsGainIff`).
- Registering a pool again with other mints leaves it listed under the old ones
  (`CycleRoutes.PoolRegistry.AddPool`).

## Model

| member | source | states |
|---|---|---|
| ClmmCurve.ReachesIffPaid | monitor/src/tick_math.rs:133-153 | The adjunction behind every step: the price reached by an amount passes the target exactly when the amount covers the rounded-up cost of the target, in both directions. |
| ClmmCurve.NeededSplit | monitor/src/tick_math.rs:93-129 | Rounded-up inputs of two adjacent price spans cost at least the input of the whole span. |
| ClmmCurve.ReleasedSplit | monitor/src/tick_math.rs:93-129 | Rounded-down outputs of two adjacent price spans pay at most the output of the whole span. |
| ClmmCurve.GrossIsCeil | monitor/src/tick_math.rs:205-221 | The fee-inclusive price of a net amount, the net plus its rounded-up fee, is the single ceiling of net * PPM / (PPM - fee). |
| ClmmCurve.Afford | monitor/src/tick_math.rs:163-221 | A net amount is available from a gross one exactly when its fee-inclusive price does not exceed it. |
| TickMath.StepMeaning | monitor/src/tick_math.rs:163-221 | A step buys its way to the target when the after-fee input covers the exact cost, and otherwise spends everything and stops strictly short on positive liquidity; no 128-bit fall-back is ever taken except on the output. |
| TickMath.StepConserves | monitor/src/tick_math.rs:163-221 | A step never passes its target, reaches it iff the after-fee input covers the cost, never consumes more than it was given, and consumes everything when it falls short. |
| TickMath.StepMono | monitor/src/tick_math.rs:163-221 | More input to a step never buys less; a smaller step that reaches the target is the same step. |
| SwapWalk.SwapExactInDetailed | monitor/src/tick_math.rs:247-319 | The loop over crossings with mutable remaining, output, price and liquidity computes the recursive walk: output, fee, end price, ticks crossed, and refusal. |
| SwapWalk.SwapExactIn | monitor/src/tick_math.rs:356-419 | The short form of the loop yields exactly the output of the detailed one on every input and crossing list, and no quote where the detailed form refuses. |
| SwapProperties.VisitsAreSound | monitor/src/tick_math.rs:247-319 | Every step taken by a walk starts from exactly the input and price the one before it left, stays between its ends, never overcharges, and has positive liquidity whenever it falls short. |
| SwapProperties.WalkConserves | monitor/src/tick_math.rs:247-319 | The steps of a walk never consume more than its input, so no saturating subtraction saturates; an accepted swap consumes it exactly, as inputs plus fees, and its output and fee are the sums over the steps. |
| SwapProperties.QuoteMono | monitor/src/tick_math.rs:247-319 | Acceptance is downward closed in the input size and the output is monotone in it, across any crossings. |
| SwapProperties.StepSplit | monitor/src/tick_math.rs:163-221 | Stopping once on the way to a target releases no more than going straight, and reaches the target with no more left over. |
| SwapProperties.SplittingNeverHelps | monitor/src/tick_math.rs:247-319 | Inserting a crossing of zero liquidity change anywhere between the current price and the end of the walk never increases the output when both swaps are accepted, in both directions. |
| PositionDepth.WalkIsAtDepth | monitor/src/tick_math.rs:223-231 | A pool is a list of positions (lower price, upper price, amount), and the net of a tick is what starts there less what ends there. From a pool whose liquidity is what is in range just ahead, every stretch of a walk over the ticks up to the limit, in either direction, has exactly the liquidity of the positions that cover it, while the depths met fit 128 bits. |
| PositionDepth.AtDepthIff | monitor/src/tick_math.rs:266-272 | For a pool that stands exactly on a tick and counts the positions of one side of it, that holds of its walk iff it moves to that side or the net of the tick is nothing: the loop passes over the tick it stands on. |
| PositionDepth.QuoteAcrossTick | monitor/src/tick_math.rs:247-319 | A whole quote in each direction: two positions, one of which ends at the next tick; the walk buys out the first stretch at full liquidity and ends in the second at half of it. |
| PositionDepth.QuoteOutsidePosition | monitor/src/tick_math.rs:266-272 | A pool of one position, standing on its lower end, quotes a sale below it, where there is nothing. |
| WhirlpoolLeg.ClosedFormAgrees | monitor/src/math.rs:85-130 | With no crossings and the coverage edge not reached, the closed form is exactly the walk, or 0 where its price-impact guard refuses. |
| WhirlpoolLeg.ExtremeIsNearest | monitor/src/route_engine.rs:81-100 | The boundary tick is the nearest initialized tick in the swap direction: it is initialized, on the right side, and none lies in between. |
| WhirlpoolLeg.BoundaryEndsStretch | monitor/src/route_engine.rs:78-100 | Up to the boundary every tick is loaded, tradable and uninitialized; the boundary itself is initialized, or the edge of the loaded arrays or of the tradable range. So the liquidity does not change before it. |
| WhirlpoolLeg.AcceptedIffWithinTick | monitor/src/route_engine.rs:106-139 | A positive size is quoted iff it does not exceed ceil(T * PPM / (PPM - fee)) for the exact cost T of the boundary; then no tick is crossed, the fee is within the input and the output within what the boundary would release. |
| WhirlpoolLeg.CapacityWithinOne | monitor/src/tick_math.rs:327-352 | The reported capacity is the floor of that quotient, hence the true limit or one below it, and equal to it iff the division is exact. (The comment says ceiling; the code floors.) |
| WhirlpoolLeg.LegIsWalk | monitor/src/route_engine.rs:106-139 | Inside its tick a leg quotes a positive size iff it does not exceed the input that reaches the boundary, for no more than that releases and a fee within the input; any other size is a capacity reject that reports the capacity. |
| WhirlpoolLeg.CapacityIsQuoted | monitor/src/route_engine.rs:106-152 | Every positive size up to the reported capacity is quoted. |
| WhirlpoolLeg.PastCapacityIsRejected | monitor/src/route_engine.rs:106-152 | Every size two or more above the reported capacity is a capacity reject carrying that capacity. |
| WhirlpoolLeg.RejectIsTooBigIff | monitor/src/route_engine.rs:53-56 | After a reject every larger size is rejected too, which is what a capacity reject claims, iff the rejected size is positive or a single unit is rejected as well. |
| WhirlpoolLeg.NothingLooksTooBig | monitor/src/route_engine.rs:106-139 | So the claim fails for every leg inside its tick: size zero is answered with the capacity reject, and one unit is quoted. |
| WhirlpoolLeg.InsideTickExists | monitor/src/route_engine.rs:81-100 | Such a leg: a pool at price 1 whose next initialized tick is one up, at the price the tick table gives. |
| WhirlpoolLeg.SingleTickQuoteIsExact | monitor/src/route_engine.rs:106-139 | A single-tick quote equals the quote of the walk over the real crossings when the nearest of them is the boundary. |
| DlmmBin.WorthIffCovered | monitor/src/meteora_dlmm.rs:414-443 | An input is worth an output at a price exactly when the rounded-up cost of that output does not exceed the input, in both directions. |
| DlmmBin.LayerLaws | monitor/src/meteora_dlmm.rs:557-593 | A layer charges no more than offered, pays no more than it holds, leaves input only when drained, and treats a smaller input no better. |
| DlmmBin.FillBinIsLayered | monitor/src/meteora_dlmm.rs:595-626 | The three-stage fill is the fill of the list of layers, market-maker liquidity first, then processed orders, then open orders. |
| DlmmBin.LayersLaws | monitor/src/meteora_dlmm.rs:595-626 | The same laws for the whole bin: input is left over only when every layer is drained. |
| DlmmBin.LayersInOrder | monitor/src/meteora_dlmm.rs:595-626 | Some first layers are paid for and drained in full, the next at most in part, and those after it are untouched. |
| DlmmBin.OfferedOnce | monitor/src/meteora_dlmm.rs:169-203 | Everything in a bin, limit orders included where they take part, is offered in exactly one of the two directions. |
| DlmmFees.NetOfFee | monitor/src/meteora_dlmm.rs:482-487 | A fee taken from a gross amount leaves the floor of the net share. |
| DlmmFees.NetIffGrossed | monitor/src/meteora_dlmm.rs:469-487 | A gross amount leaves a given net exactly when it is at least that net plus the fee charged on it. |
| DlmmFees.QuoteMeaning | monitor/src/meteora_dlmm.rs:638-702 | What one bin does to an input: drained, it charges the full cost and its fee and keeps going; otherwise it consumes everything and pays what the after-fee input is worth, with the fee on the side the pair collects it. |
| DlmmFees.QuoteLaws | monitor/src/meteora_dlmm.rs:638-702 | A smaller input to a bin gets no more output, and the same quote where the bin is drained. |
| DlmmWalk.VisitAndAdvance | monitor/src/meteora_dlmm.rs:764-826 | One turn of the inner loop, including the mutated volatility copy: the rest of the walk from the new cursor is what it was from the old one, and the bin-id measure falls. |
| DlmmWalk.DlmmQuoteExactIn | monitor/src/meteora_dlmm.rs:728-832 | The nested loops over arrays and bins compute the recursive bitmap walk, with its output, fee and errors, and terminate. |
| DlmmProperties.BitmapWalkIsNaive | monitor/src/meteora_dlmm.rs:135-150 | If a clear bit means no liquidity in that array for this direction, and its loaded bins can be priced, jumping by bitmap gives the same totals and the same error as visiting every bin, for every input, bin and direction. |
| DlmmProperties.QuoteIsNaive | monitor/src/meteora_dlmm.rs:728-832 | So, under the same condition, a quote is the quote of the plain walk: same output, same fee, same error. |
| DlmmProperties.NearestSetIsNearest | monitor/src/meteora_dlmm.rs:131-151 | The bitmap search finds the nearest array at or beyond the start with its bit set, among indices -512 to 511, and nothing iff there is none or the start is outside. |
| DlmmProperties.RefusedAsSuchIff | monitor/src/meteora_dlmm.rs:735-749 | A pair is refused as unsupported iff something is offered and it is disabled or of pair type 1 or 2; an input of nothing is "no fill". |
| DlmmProperties.QuoteMono | monitor/src/meteora_dlmm.rs:728-832 | If a size is quoted, every smaller one is quoted for no larger an output, or comes to nothing (NoFill). |
| DlmmProperties.QuoteBetween | monitor/src/meteora_dlmm.rs:728-832 | Between two quoted sizes every size is quoted, for an output in between. |
| DlmmProperties.WalkHotter | monitor/src/meteora_dlmm.rs:511-519 | References that charge a higher fee rate at every bin, or a smaller input, never end with more output; a quote that succeeds on calmer references succeeds on hotter ones. |
| DlmmProperties.VolatilityIsHot | monitor/src/meteora_dlmm.rs:455-467 | Around the same index reference, more volatility means a fee rate at least as high at every bin. |
| DlmmExamples.VolatilityGrowsByBin | monitor/src/meteora_dlmm.rs:511-519 | At the index bin the accumulator is the volatility reference, and every bin further away, on either side, adds ten thousand; all of it up to the cap. |
| DlmmWaiting.BusyRates | monitor/src/meteora_dlmm.rs:493-519 | Within the filter period the old reference and index still count; after it the index is the active bin and half the volatility is left, until the decay period has passed and none is. |
| DlmmExamples.RateIsCappedAtTenth | monitor/src/meteora_dlmm.rs:463-466 | The fee rate never exceeds a tenth, and reaches it. |
| DlmmExamples.QuoteOverTwoBins | monitor/src/meteora_dlmm.rs:728-832 | Whole quotes from the index bin into the next, in both directions and with the fee on either side: the second bin charges the higher rate, and limit orders are filled exactly on pools of function type 2, and of type 0 without rewards. |
| DlmmWaiting.LaterQuoteIsNoWorse | monitor/src/meteora_dlmm.rs:493-509 | Once the filter period is over, a size that is quoted later is quoted now for no more, or comes to nothing now. |
| DlmmWaiting.QuoteIsKeptOrTooBig | monitor/src/meteora_dlmm.rs:728-832 | A size quoted now is quoted later for at least as much, or is then too big for the loaded bins, or overflows. |
| DlmmWaiting.OutputFeeKeepsQuotes | monitor/src/meteora_dlmm.rs:638-702 | With the fee on the output a size quoted now is quoted later for at least as much, unless the total overflows; it cannot while the loaded bins hold no more than 64 bits in all. |
| DlmmWaiting.InputFeeLosesAQuote | monitor/src/meteora_dlmm.rs:638-702 | With the fee on the input, in either direction, there is a market that quotes a size 30 seconds after its last trade and finds it too big after 600: the lower fee leaves a net input that the loaded bins cannot take. |
| DlmmWaiting.LaterIsKeptIff | monitor/src/meteora_dlmm.rs:123-133 | Over all markets of a fee mode and direction, where the loaded bins hold no more than 64 bits in all, every size quoted now is quoted later iff that mode and direction charge the fee on the output. |
| DlmmProperties.CapacityIsUpwardClosed | monitor/src/meteora_dlmm.rs:541-546 | Once a size gives a capacity error no larger size is quoted. |
| DlmmProperties.MoreCoverageKeepsQuotes | monitor/src/meteora_dlmm.rs:764-832 | Loading more bin arrays never changes a successful quote. |
| DlmmProperties.VisitsAreFair | monitor/src/meteora_dlmm.rs:764-826 | No bin pays more than it holds or charges more than it is offered; bins are met once each in swap order, and one is left only when drained. |
| DlmmProperties.WalkConserves | monitor/src/meteora_dlmm.rs:764-832 | A successful quote consumes its input exactly; output and fee are the sums over the bins visited. |
| PumpAmm.CpmmLaws | monitor/src/math.rs:27-48 | At any fee fraction, constant-product output is monotone in the input, never exceeds the reserve, and never lowers the product of the reserves. |
| PumpAmm.TotalFeeBounds | monitor/src/pump_amm.rs:99-109 | Three separately rounded components exceed the exact fee by less than one unit per nonzero component. |
| PumpAmm.GuessIsClose | monitor/src/pump_amm.rs:217-229 | The closed-form start overpays by at most two units, and one more never fits. |
| PumpAmm.EffectiveBuyInput | monitor/src/pump_amm.rs:217-229 | The result is the largest amount whose fee-inclusive price fits the payment; the first loop decrements at most twice and the second never runs. |
| PumpAmm.SellNearlyMono | monitor/src/pump_amm.rs:78-97 | A larger SELL is worth at most two units less, and output plus the separately rounded fee is exactly the fee-less constant-product output. |
| PumpAmm.NetFallsAtDoubleStep | monitor/src/pump_amm.rs:78-109 | One more gross unit is worth less to the seller iff something is left of the gross and at least two of the three components step up together. |
| PumpAmm.NetRisesIffNoDoubleStep | monitor/src/pump_amm.rs:78-109 | Over any range of gross outputs the net is monotone iff no such double step lies in the range. |
| PumpAmm.SellMonoWithoutDoubleSteps | monitor/src/pump_amm.rs:78-97 | A SELL is monotone over any range of sizes whose gross outputs skip every double step. |
| PumpAmm.SellRisesIffNoDoubleStep | monitor/src/pump_amm.rs:78-97 | Where the base reserve is at least the quote reserve, a SELL is monotone over a range of sizes iff no double step lies between the gross outputs of the smallest and the largest. |
| PumpAmm.SellFallsByTwo | monitor/src/pump_amm.rs:78-97 | The bound of two is reached by two SELL quotes: in a pool of 10^12 on both sides, with fees of 20, 5 and 5 basis points, selling 10002 pays 9968 and selling 10001 pays 9970. |
| PumpAmm.SellAcceptanceUpwardClosed | monitor/src/pump_amm.rs:78-97 | With fees of at most a quarter, a size that yields something is never followed by one that yields nothing. |
| PumpFeeV2.DecodeFeeConfig | monitor/src/pump_feev2.rs:81-145 | The decoder accepts exactly the accounts whose header matches and whose tier table is a valid schedule, returns that table, and reports a wrong discriminator as such. |
| PumpFeeV2.ResolveIsTier | monitor/src/pump_amm.rs:311-333 | The backward search obeys the tier rule (last threshold reached, else the first tier) on every table. |
| PumpFeeV2.TierFor | monitor/src/pump_feev2.rs:180-190 | The forward scan picks, on every schedule the decoder accepts, the tier the backward search resolves to. |
| PumpFeeV2.MarketCapIsSupplyAtPrice | monitor/src/pump_feev2.rs:149-161 | The market cap is the supply at the pool's price, rounded down, wherever the product fits 128 bits and neither the supply nor the base reserve is nothing. |
| PumpFeeV2.SaleAtFourthTier | monitor/src/pump_amm.rs:341-367 | A whole quote in a pool of unequal reserves: its market cap selects the fourth of 24 tiers, and the sale pays that tier's fees. |
| PumpFeeV2.FeeFallsWithMarketCap | monitor/src/pump_feev2.rs:180-217 | A larger market cap never pays a larger fee, on any gross amount. |
| PumpFeeV2.QuoteIsSale | monitor/src/pump_amm.rs:341-367 | A quote is the plain constant product less three fees each rounded up, exactly for a sale of the base into a pool with both tokens and a market cap where something is left; every other input gets the error of the source, in its order. |
| PumpFeeV2.PumpLegLaws | monitor/src/pump_amm.rs:341-367 | A leg that quotes one size quotes every larger one, for at most two units less; it only sells the base, never for nothing, and never lowers the product of the reserves. |
| Cost.NetMonoInTier | common/src/cost.rs:100-115 | Inside one tip tier net profit never falls as gross profit rises. |
| Cost.NetPeaksAtTierEdges | common/src/cost.rs:189-198 | The maximum of net profit over 0..G is at G or just below a threshold not above G. |
| Cost.NetFallsOnlyAtThresholds | common/src/cost.rs:100-115 | Net profit can fall from one gross profit to the next only at the three thresholds. |
| Cost.NetFallsAtFirstThreshold | common/src/cost.rs:100-115 | And it does fall there: a concrete model on which one more lamport of gross profit lowers the net. |
| Cost.ThresholdCostsATenth | common/src/cost.rs:100-121 | With an unclamped tip, the lamport that reaches any of the three thresholds costs a tenth of the threshold. |
| Cost.TipsAroundThresholds | common/src/cost.rs:100-121 | What the tip is just below and at each threshold, from half of the profit to 80%. |
| Cost.EveryCostCounts | common/src/cost.rs:158-192 | The chain of saturating sums is one saturated sum of the signature fee, the priority fee, the extra priority, both rents and the payment; net is gross less that and the margin. |
| Cost.ViableIffPaymentFits | common/src/cost.rs:200-214 | The documented equivalence of viability and "payment fits the maximum payment" holds iff the input is in neither of two corners: nothing is paid and the gross does not cover the other deductions, or the burn saturates on the largest gross. |
| Cost.FreeLossLooksPayable | common/src/cost.rs:200-214 | A concrete model on which that equivalence fails. |
| Route.LegTradesItsMints | monitor/src/route_engine.rs:191-260 | A leg trades its two mints for one another in either direction and refuses every other input; it never calls one of its own mints wrong. |
| Route.LegBetween | monitor/src/route_engine.rs:214-261 | Between two sizes a leg quotes every size is quoted, monotonically; within two units for a PumpSwap leg. |
| Route.FeasibleSizesAreAnInterval | monitor/src/route_engine.rs:321-332 | Between two sizes the first leg quotes every round trip succeeds with its output in between, if the second leg quotes the ends of what the first can yield there (its two outputs; two units beyond them for a PumpSwap first leg). |
| RouteLimits.AllTradeIffExtremesDo | monitor/src/route_engine.rs:321-332 | Whatever the venues, every size of a range trades iff the second leg quotes the least and the greatest amount the first leg yields on it. |
| RouteLimits.PumpFirstLegLeavesGap | monitor/src/route_engine.rs:321-332 | A PumpSwap-then-Meteora route, with a 24-tier schedule and a 0.1% bin fee, on which 9000 and 10002 trade and 10001 is too big: below a PumpSwap leg the sizes need not be an interval. |
| RouteLimits.DeepPoolIsReal | monitor/src/pump_feev2.rs:95-144 | The schedule of that example is one the decoder accepts. |
| RouteLimits.RefusalIsForeverIff | monitor/src/optimizer.rs:80-84 | A reason other than capacity guarantees that the leg refuses every size iff it is neither "no fill" nor overflow. |
| RouteLimits.TooBigIff | monitor/src/optimizer.rs:58-85 | The search takes a size for too big iff one of the legs reports missing bins, exhausted liquidity, or its tick exceeded. |
| RouteLimits.DeadForever | monitor/src/optimizer.rs:58-85 | A size that is dead for the topology or for such a reason is proof that no size trades. |
| RouteLimits.DeadBesideTradable | monitor/src/optimizer.rs:58-85 | Otherwise it is not: a Meteora-then-PumpSwap route on which sizes 1 and 9970 are dead and 9968 trades, so a grid containing either makes the search give up. |
| Optimizer.ShrinkToFeasible | monitor/src/optimizer.rs:124-140 | The binary shrink ends on a tradable size; on a bracket of at most 2^40 the next size is not tradable, and where tradability is downward closed it is the largest tradable size. |
| Optimizer.SizesAreDownwardClosed | monitor/src/optimizer.rs:124-140 | On every route whose first leg is not PumpSwap, in range, tradability is downward closed above any tradable size. |
| Optimizer.TernaryMax | monitor/src/optimizer.rs:111-174 | It returns a tradable size of the bracket scoring no worse than its lower end, and the exact maximum when tradable sizes are downward closed in a bracket of at most 2^40 and the score is strictly unimodal on them. |
| OptimizerSearch.BisectFlip | monitor/src/optimizer.rs:291-306 | Bisection keeps a threshold crossing between its ends, and ends side by side if everything between trades and the bracket is at most 2^48. |
| OptimizerSearch.BoundaryCandidates | monitor/src/optimizer.rs:248-311 | The probes contain both ends, an edge of the tradable sizes when the top is too big (the largest tradable size where smaller sizes trade too), and both sides of every tip-tier crossing seen on the grid, all within the size bounds. |
| OptimizerSearch.ProbesFindTheMaximum | monitor/src/optimizer.rs:272-307 | Between neighbouring grid points where gross profit moves one way, no size with a positive gross profit beats both the better end and the probed sizes: the reason for probing tier boundaries. |
| OptimizerSearch.CandidateIsTheMaximum | monitor/src/optimizer.rs:179-311 | If both stages use one grid, and gross profit moves one way between neighbouring points at most 2^48 apart, the candidate nets at least as much as any size from the first to the last point that nets a positive amount meeting the floor. |
| OptimizerSearch.ScoreGrid | monitor/src/optimizer.rs:179-200 | The coarse pass scores exactly the tradable grid points, or gives up iff one is structurally dead. |
| OptimizerSearch.Refine | monitor/src/optimizer.rs:198-219 | Refinement scores at least every retained point and the peak of the bracket around each. |
| OptimizerSearch.Optimize | monitor/src/optimizer.rs:179-242 | With no dead grid point, every coarse or boundary probe netting a positive amount that meets the floor guarantees a candidate netting at least as much, and so does the peak around each of the best grid points, as many as the grid asks for and at least one, equal scores in grid order; a dead or untradable grid yields none. |
| PoolGraph.CycleIffSimple | monitor/src/discovery.rs:118-171 | The recursive notion of cycle that the searches follow is the plain one: 2..max_hops distinct pools chaining from the base through distinct non-base mints back to it, with the mints paid in. |
| PoolGraph.CompletionCases | monitor/src/bin/discover_pools.rs:251-289 | How a cycle can go on from an open path through a given pool, which is what a search must try. |
| PoolGraph.AnchorIsUnique | monitor/src/discovery.rs:138-157 | A pool sequence of three or more pools is a cycle of one base only, so keying by pools alone loses nothing there. |
| PoolGraph.PairHasTwoAnchors | monitor/src/discovery.rs:138-157 | Two pools of the same pair, in whichever order each lists its mints, are a cycle of both mints: the one case where a key does not determine the base. |
| PoolGraph.TriangleHasTwoCycles | monitor/src/discovery.rs:118-171 | Three pools between three mints can be gone round in exactly two ways, if three hops are allowed. |
| DiscoverPools.TokenDegrees | monitor/src/bin/discover_pools.rs:190-197 | The degree of each token is the number of pool sides that trade it. |
| DiscoverPools.PruneDegree | monitor/src/bin/discover_pools.rs:201-210 | The fixpoint loop terminates with the greatest sublist in which every token has degree at least two. |
| DiscoverPools.PruneOfStable | monitor/src/bin/discover_pools.rs:370-372 | Pruning a list that is already stable removes nothing. |
| DiscoverPools.StableHasNoDeadEnds | monitor/src/bin/discover_pools.rs:201-210 | What the prune is for: whichever token a kept pool of two tokens pays out, another kept pool trades it on. |
| DiscoverPools.ReachableTokens | monitor/src/bin/discover_pools.rs:213-233 | The stack worklist terminates with exactly the tokens reachable from a traded base. |
| DiscoverPools.KeepBaseConnected | monitor/src/bin/discover_pools.rs:213-239 | It keeps exactly the pools between reached tokens. |
| CyclePruning.CycleIsStable | monitor/src/bin/discover_pools.rs:201-210 | The pools of a cycle give every token of theirs degree at least two. |
| CyclePruning.PruneKeepsCycles | monitor/src/bin/discover_pools.rs:201-210 | The degree prune keeps exactly the cycles there were, for every base and length. |
| CyclePruning.ConnectKeepsCycles | monitor/src/bin/discover_pools.rs:213-239 | So does the base-connected filter, for cycles anchored at the bases. |
| CyclePruning.ConnectedStaysStable | monitor/src/bin/discover_pools.rs:370-372 | Filtering a stable list to what is reached leaves it stable. |
| CyclePruning.KeepCycleCapable | monitor/src/bin/discover_pools.rs:370-372 | The whole pipeline keeps every cycle; its result is stable and reached from the bases together, has no repeated address if its input has none, and the trailing prune removes nothing. |
| CycleCount.CycleCounter.CountDfs | monitor/src/bin/discover_pools.rs:251-289 | From an open path the search records exactly the cycles that go on from it, and restores the shared paths. |
| CycleCount.CycleCounter.TryPool | monitor/src/bin/discover_pools.rs:251-289 | One neighbouring pool: exactly the cycles that go on through it. |
| CycleCount.CountCycles | monitor/src/bin/discover_pools.rs:293-315 | The count is the number of base-anchored simple cycles of 2..max_hops pools. |
| CycleCount.CountSurvivesPruning | monitor/src/bin/discover_pools.rs:370-372 | Two lists with the same cycles have the same count. |
| CycleCount.CountAroundPruning | monitor/src/bin/discover_pools.rs:363-372 | Counting, pruning and counting again gives the same number, on any list without repeated addresses. |
| CycleRoutes.PoolRegistry.AddPool | monitor/src/registry.rs:55-80 | Registering a pool lists it under both its mints and changes nothing else; the graph stays exact iff a pool registered again keeps the mints it had. |
| CycleRoutes.RoutesMatchCount | monitor/src/discovery.rs:94-115 | On the same pools the keys the engine indexes are exactly the cycles the pool-discovery count counts, and as many. |
| Discovery.DiscoveryEngine.Dfs | monitor/src/discovery.rs:118-171 | The search adds one route for each cycle that goes on from the path and whose key was not seen before, and restores the paths. |
| Discovery.DiscoveryEngine.BuildCycleIndex | monitor/src/discovery.rs:94-115 | The routes are sound, complete and duplicate-free: their keys are exactly the simple cycles of the listed bases, each once, with the first base that anchors it and aligned input mints. |
| Discovery.DiscoveryEngine.IndexByPool | monitor/src/discovery.rs:110-114 | The per-pool index lists exactly the routes that use the pool. |
| Discovery.DiscoveryEngine.MarkDirty | monitor/src/discovery.rs:174-181 | A pool becomes dirty iff it is on a route, and the answer says so. |
| Discovery.DiscoveryEngine.RunSearch | monitor/src/discovery.rs:190-219 | Exactly the routes that use a dirty pool are evaluated; those that find something are published once each and remembered, unless their last publication was less than the cooldown earlier and no more than 5% worse; the counters agree, nothing stays dirty, and the outcome does not depend on the order the hash set yields. |
| Discovery.DiscoveryEngine.ShouldPublish | monitor/src/discovery.rs:346-360 | Within the cooldown of the last publication only a quote more than 5% better passes; a quote that passes replaces it, one that does not is counted. |
| SearchPass.StillAsBefore | monitor/src/discovery.rs:190-219 | Because no two routes share a key, a route not yet taken still meets the memory it would have met first. |
| SearchPass.RunIsGated | monitor/src/discovery.rs:346-360 | Over any run of searches from an empty memory, on a clock that does not run backwards, the publications of a route pass the gate pairwise in order, and the last is what the engine remembers. |
| SearchPass.RunNeverSpams | monitor/src/discovery.rs:346-360 | So any two publications of a route within the cooldown of each other, however far apart in the run, are more than 5% apart, though the gate compares neighbours only. |
| SearchPass.RunHoldsBackOnlyRepeats | monitor/src/discovery.rs:346-360 | Nothing else is kept back: over any run, whenever a route that was taken finds something that is not published, its last publication in the log was less than the cooldown earlier and no more than 5% worse. |
| Discovery.DiscoveryEngine.Stream | monitor/src/pipeline.rs:100-131 | The update loop, marking a pool and searching if it is on a route, is such a run, emits exactly what its searches publish, and searches once for every update of a pool on a route, taking all the routes through it. |
| Ix.EncodeInstruction | common/src/ix.rs:220-233 | The appended buffer is the header followed by the twelve bytes of each hop. |
| Ix.ParseInstruction | common/src/ix.rs:175-217 | Reading by offset yields the specified parse: the first error in order, or the parameters. |
| Ix.ParseOfEncoded | common/src/ix.rs:175-233 | An encoded instruction parses back to itself iff it is sound (1..4 hops, at least two accounts each, source index inside); otherwise it is refused with the stated error, even when the hop count wraps. |
| Ix.EncodedOfParse | common/src/ix.rs:175-233 | Whatever parses is sound, and encoding it again reproduces the bytes iff every flags byte is 0 or 1. (The comment claims an exact inverse; the other flag bits are ignored and lost.) |
| Ix.FourHopsAsBytes | common/src/ix.rs:4-17 | The layout, byte for byte, on an instruction with one hop through each venue. |
| Ix.SwapDataReads | common/src/ix.rs:236-294 | For every venue the amount and the floor can be read back from the swap data. |
| VenueCalls.DataSays | common/src/ix.rs:236-294 | Read at the fixed offsets of each venue's own layout, the data name the instruction, the exact input, the floor and no price limit: a PumpSwap SELL iff the flag is set, a Whirlpool swap in the direction of the flag whose limit lies at or beyond every price inside the bounds on that side, a Meteora swap without account slices, a Raydium swap of a base input. |
| Builder.BuildArbInstruction | executor/src/builder.rs:45-78 | Payer, base account, then the hops' accounts one after the other, and the encoded parameters. |
| Builder.SlicesComeBack | executor/src/builder.rs:45-78 | Following the account counts cuts the list back into exactly each hop's accounts, for hops of at most 255 accounts. |
| Builder.CountsAddUpIff | executor/src/builder.rs:45-78 | The counts add up to the accounts listed iff no hop has more than 255 accounts; the program refuses a list they do not add up to. |
| Program.TokenAccountIff | program/src/lib.rs:74-109 | The ownership check passes and the amount is read exactly when the account belongs to the token program and its data were laid out with this owner and this amount. |
| Program.SucceedsIffAccepted | program/src/lib.rs:111-226 | Whatever the venues do to the ledger, the program succeeds exactly on the runs that meet every demand, stated without its steps: signer, ownership, exact slices, the right executable programs called with the right data, positive amounts, every intermediate floor, no trailing accounts, and the profit. |
| Program.FloorsCarryOver | program/src/lib.rs:198-211 | Each hop after the first trades at least the floor of the hop before it. |
| Program.IdleVenuePasses | program/src/lib.rs:198-211 | If the next source account already holds the floor, a venue that changes nothing passes the check. |
| Program.FloorIsGainIff | program/src/lib.rs:198-211 | For a runnable hop: passing the floor means having been paid it, whatever the venue, iff that account was empty before the hop. |
| Program.BuiltHopsReachVenues | program/src/lib.rs:132-213 | From the executor to the venues: on success each venue was called with exactly the accounts resolved for its hop, sweeping the resolved source account. |
| VenueCalls.CallsAreOrders | program/src/lib.rs:132-190 | Every call of an accepted run goes to the published program of its hop's venue, which reads it as what the hop asked for: of the size given for the first hop, and of all its source account held for each other. |
| Program.Chain.Step | program/src/lib.rs:132-213 | One pass of the loop body does what the hop specification says, with errors in the order of the source. |
| Program.Chain.ProcessInstruction | program/src/lib.rs:111-226 | The method goes through the specified run or stops with the specified error. |
| Program.Chain.Execute | program/src/lib.rs:111-226 | With the runtime's rollback: the base account gained at least the requested profit, or the ledger is unchanged. |

## Left out

- DlmmBin.FillBinIsLayered: the sum of the three layers' outputs is unbounded here, while the program adds 64-bit numbers; they agree while what a bin holds fits 64 bits in all.
- DlmmFees.QuoteMeaning: intermediate products of the fee rate and powers of ten are unbounded; the program's 128-bit overflow there is not modelled.
- PumpAmm.TotalFeeBounds: the sum of the components is not cut to 64 bits, which the program's cast does for fees far above 100%.
- SwapProperties.SplittingNeverHelps: the inserted price must lie strictly before the crossings and the coverage edge after it, which is what "between" means; liquidity is the same on both sides of it.
- WhirlpoolLeg.SingleTickQuoteIsExact: stated for a boundary that is the first real crossing; when no initialized tick is loaded the boundary is the edge of coverage and there is nothing beyond to compare with.
- DlmmProperties.BitmapWalkIsNaive: the plain walk prices every loaded bin it looks at, so the loaded bins that the bitmap skips must be priceable.
- Discovery.DiscoveryEngine.RunSearch: evaluation of a route, with the clock it reads, is an arbitrary function of the route for the duration of one search.
- Program.SucceedsIffAccepted: borrow failures, compute budget and rent are not modelled; a venue is an arbitrary partial function from ledger and call to ledger.
- 256- and 512-bit intermediates of the swap arithmetic are unbounded naturals; they cannot overflow in the ranges the lemmas require.
- `sqrt_price_from_tick` is a parameter (a table from ticks to prices), as is `price_from_id` (a partial table of positive prices) with the power function behind it.
- The liquidity bitmap is the set of its set bits, not its 64-bit limbs.
- `log_grid` uses floating point; the optimizer takes any strictly increasing grids from the smallest to the largest size.
- The older BUY quote of PumpSwap beyond the inversion of its fee; the current quote refuses BUY, and that is modelled.
- Route keys are the pool lists themselves, not joined strings or SHA-256 ids; hash maps and hash sets are maps and sets, taken in arbitrary order.
- `optimize_input`, `size_analysis` and the evaluation pipeline of the older engine: bounded sampling of a function, with no claim beyond reading it.
- Decoders of account bytes other than the fee configuration, and captured fixtures: flat reads at fixed offsets.
- Transaction compilation, packet size, lookup tables, keys, program-derived addresses, RPC, streaming, bundles: input and output.
- Configuration, arming gates, mint screens and reports: conjunctions and percentiles settled by reading one function.
- The TypeScript monitor: the Rust code is a port of it.
