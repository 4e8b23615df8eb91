/** What a refused size says about other sizes: where the sizes a route trades form an interval, and
    which refusals hold for every size. The examples are routes of the kinds the monitor builds,
    between a PumpSwap and a Meteora pool.
 */
module RouteLimits {
  import opened Common
  import opened Arith
  import opened Cost
  import opened Optimizer
  import opened Route
  import Pump = PumpAmm
  import Fees = PumpFeeV2
  import Dlmm = DlmmWalk
  import Rates = DlmmFees
  import Bins = DlmmBin
  import Bounds = DlmmProperties
  import Waiting = DlmmWaiting
  import Walk = SwapWalk

  // ------------------------------------------------------------------ a certain interval

  ghost predicate Quoted(leg: Leg, input: Mint, low: nat, high: nat)
    requires leg.Ready()
  {
    forall size: nat :: low <= size <= high ==> leg.Quote(input, size).Ok?
  }

  /** The least and the greatest amount a leg yields on a range of sizes. */
  ghost function YieldRange(leg: Leg, input: Mint, low: nat, high: nat): (nat, nat)
    requires leg.Ready() && low <= high && Quoted(leg, input, low, high)
    decreases high - low
  {
    var y := leg.Quote(input, high).value.0;
    if low == high then (y, y)
    else
      var (least, greatest) := YieldRange(leg, input, low, high - 1);
      (Min(least, y), Max(greatest, y))
  }

  lemma {:induction false} YieldRangeIsTight(leg: Leg, input: Mint, low: nat, high: nat) returns (a: nat, b: nat)
    requires leg.Ready() && low <= high && Quoted(leg, input, low, high)
    ensures var (least, greatest) := YieldRange(leg, input, low, high);
            && low <= a <= high && leg.Quote(input, a).value.0 == least
            && low <= b <= high && leg.Quote(input, b).value.0 == greatest
            && forall size: nat :: low <= size <= high ==> least <= leg.Quote(input, size).value.0 <= greatest
    decreases high - low
  {
    hide Leg.Quote;
    a, b := high, high;
    if low < high {
      var a', b' := YieldRangeIsTight(leg, input, low, high - 1);
      var (least, greatest) := YieldRange(leg, input, low, high - 1);
      if least < leg.Quote(input, high).value.0 { a := a'; }
      if leg.Quote(input, high).value.0 < greatest { b := b'; }
    }
  }

  /** Every size of a range trades exactly when the second leg quotes the least and the greatest
      amount that the first leg yields on it, whatever the venues. */
  lemma AllTradeIffExtremesDo(r: TwoLegs, wsol: Mint, low: nat, high: nat)
    requires r.Ready() && low <= high && r.TokenMint(wsol).Some? && Quoted(r.leg1, wsol, low, high)
    requires InRange(r.leg2, r.TokenMint(wsol).value, YieldRange(r.leg1, wsol, low, high).1)
    ensures (forall size: nat :: low <= size <= high ==> r.RoundTrip(wsol, size).Ok?) <==>
              var token, (least, greatest) := r.TokenMint(wsol).value, YieldRange(r.leg1, wsol, low, high);
              r.leg2.Quote(token, least).Ok? && r.leg2.Quote(token, greatest).Ok?
  {
    hide Leg.Quote, InRange, YieldRange, TwoLegs.TokenMint;
    var token := r.TokenMint(wsol).value;
    var a, b := YieldRangeIsTight(r.leg1, wsol, low, high);
    var (least, greatest) := YieldRange(r.leg1, wsol, low, high);
    if r.leg2.Quote(token, least).Ok? && r.leg2.Quote(token, greatest).Ok? {
      forall size: nat | low <= size <= high ensures r.RoundTrip(wsol, size).Ok? {
        LegBetween(r.leg2, token, least, r.leg1.Quote(wsol, size).value.0, greatest);
      }
    }
    if forall size: nat :: low <= size <= high ==> r.RoundTrip(wsol, size).Ok? {
      assert r.RoundTrip(wsol, a).Ok? && r.RoundTrip(wsol, b).Ok?;
    }
  }

  // ------------------------------------------------------------------ example pools

  /** A PumpSwap pool selling `base` for `quote`, a million million units of each, with a schedule of
      24 tiers that charge alike. */
  function DeepPool(base: Mint, quote: Mint): Leg {
    PumpLeg(Fees.PumpPool(base, quote), 1_000_000_000_000, 1_000_000_000_000, 1_000_000_000_000_000, FlatSchedule())
  }

  function FlatSchedule(): Fees.FeeConfig {
    seq(24, (k: nat) => Fees.FeeTier((k + 1) * 1_000_000_000, Pump.FeeSplit(20, 5, 5)))
  }

  /** It is a schedule the decoder accepts, and the pool is in range. */
  lemma DeepPoolIsReal(base: Mint, quote: Mint)
    ensures Fees.Schedule(FlatSchedule()) && |FlatSchedule()| == Fees.TIER_COUNT
    ensures DeepPool(base, quote).Ready()
  {
  }

  lemma DeepPoolSells(base: Mint, quote: Mint, amount: nat, lpFee: nat, otherFee: nat)
    requires 9_000 <= amount <= 100_000
    requires lpFee * BPS < (amount - 1) * 20 + BPS <= lpFee * BPS + BPS
    requires otherFee * BPS < (amount - 1) * 5 + BPS <= otherFee * BPS + BPS
    ensures var fee := lpFee + 2 * otherFee;
            DeepPool(base, quote).Ready() && fee < amount - 1
            && DeepPool(base, quote).Quote(base, amount) == Ok((amount - 1 - fee, fee))
  {
    hide Pump.SellQuote, FloorDiv, Fees.LastReached;
    DeepPoolIsReal(base, quote);
    Pump.DeepPoolSale(amount, lpFee, otherFee);
    FloorIs(1_000_000_000_000_000 * 1_000_000_000_000, 1_000_000_000_000, 1_000_000_000_000_000);
    assert Fees.ResolveFeeV2(1_000_000_000_000, 1_000_000_000_000, 1_000_000_000_000_000, FlatSchedule()).Ok?;
  }

  /** A bin array in which one bin holds some of token Y at a price. */
  function ArrayOfY(at: nat, held: nat, price: nat): (bins: seq<Bins.Bin>)
    requires at < Dlmm.MAX_BIN_PER_ARRAY
    ensures |bins| == Dlmm.MAX_BIN_PER_ARRAY
  {
    Waiting.ArrayWith(at, Bins.Bin(0, held, price, 0, 0, false))
  }

  /** A Meteora pool at bin 0, price 1, with a base fee of 0.1% on the input. Bin 0 holds 9958 of
      token Y; the array below it is initialized, and loaded if `loaded`, in which case its first
      bin holds as much as there can be. */
  function ThinMarket(x: Mint, y: Mint, loaded: bool, prices: map<int, nat>): Dlmm.Market {
    Dlmm.Market(
      Dlmm.LbPair(
        Rates.StaticParameters(10_000, 30, 600, 5_000, 40_000, 350_000, 0, 1, 0),
        Rates.VariableParameters(0, 0, 0, 0), 3, 0, 10, 0, x, y, false, {0, -1}),
      if loaded then map[0 := ArrayOfY(0, 9_958, Q64), -1 := ArrayOfY(69, U64_MAX, Waiting.PRICE_BELOW)]
      else map[0 := ArrayOfY(0, 9_958, Q64)],
      prices)
  }

  ghost predicate Positive(prices: map<int, nat>) {
    forall i :: i in prices ==> prices[i] > 0
  }

  /** The bin takes an input of up to 9968 whole, and 9968 of a larger one. */
  lemma ThinBin(amount: nat, fee: nat)
    requires 0 < amount <= 100_000
    requires fee * 1_000_000_000 < amount * 1_000_000 + 1_000_000_000 <= fee * 1_000_000_000 + 1_000_000_000
    ensures var bin := Bins.Bin(0, 9_958, Q64, 0, 0, false);
            fee <= amount
            && Rates.QuoteAtBin(bin, 1_000_000, amount, Q64, true, false, true)
            == Ok(if amount - fee <= 9_958 then Rates.BinQuote(amount, amount - fee, fee)
                  else Rates.BinQuote(9_968, 9_958, 10))
  {
    hide FloorDiv, CeilDiv;
    CeilIs(amount * 1_000_000, 1_000_000_000, fee);
    CeilIs(9_958 * Q64, Q64, 9_958);
    FloorIs(Q64 * (amount - fee), Q64, amount - fee);
    CeilIs(9_958 * 1_000_000, 999_000_000, 10);
  }

  lemma ThinRate(x: Mint, y: Mint, loaded: bool, prices: map<int, nat>)
    ensures var m := ThinMarket(x, y, loaded, prices);
            Dlmm.RateAt(m, m.pair.vParameters, 0) == 1_000_000
  {
    hide CeilDiv;
    CeilPositive(0, 100_000_000_000);
    assert Rates.Pow10(0) == 1;
  }

  lemma ThinVisit(x: Mint, y: Mint, loaded: bool, prices: map<int, nat>, amount: nat, fee: nat)
    requires Positive(prices) && 0 < amount <= 100_000
    requires fee * 1_000_000_000 < amount * 1_000_000 + 1_000_000_000 <= fee * 1_000_000_000 + 1_000_000_000
    ensures var m := ThinMarket(x, y, loaded, prices);
            && Dlmm.WellFormed(m) && fee <= amount && 0 in m.arrays
            && Dlmm.VisitBin(m, m.pair.vParameters, true, 0, Dlmm.BinAt(m, 0, 0), amount)
            == Ok(if amount - fee <= 9_958 then Rates.BinQuote(amount, amount - fee, fee)
                  else Rates.BinQuote(9_968, 9_958, 10))
  {
    hide Rates.QuoteAtBin, Dlmm.RateAt;
    ThinRate(x, y, loaded, prices);
    ThinBin(amount, fee);
  }

  lemma ThinReferences(x: Mint, y: Mint, loaded: bool, prices: map<int, nat>)
    ensures var m := ThinMarket(x, y, loaded, prices);
            Rates.UpdateReferences(m.pair.parameters, m.pair.vParameters, m.pair.activeId, 0) == m.pair.vParameters
  {
  }

  /** So it quotes up to 9968; beyond that it wants the array below, or overflows on it. */
  lemma ThinQuote(x: Mint, y: Mint, loaded: bool, prices: map<int, nat>, amount: nat, fee: nat)
    requires Positive(prices) && 0 < amount <= 100_000
    requires fee * 1_000_000_000 < amount * 1_000_000 + 1_000_000_000 <= fee * 1_000_000_000 + 1_000_000_000
    ensures var m := ThinMarket(x, y, loaded, prices);
            Dlmm.WellFormed(m) && fee <= amount
            && Dlmm.DlmmQuote(m, true, amount, 0)
            == if amount == fee then Err(Bins.NoFill)
               else if amount - fee <= 9_958 then Ok((amount - fee, fee))
               else if loaded then Err(Bins.MathOverflow)
               else Err(Bins.InsufficientBinCoverage(-1))
  {
    hide Dlmm.VisitBin, Rates.UpdateReferences, ArrayOfY;
    var m := ThinMarket(x, y, loaded, prices);
    ThinVisit(x, y, loaded, prices, amount, fee);
    ThinReferences(x, y, loaded, prices);
    if amount - fee > 9_958 && loaded {
      BelowOverflows(x, y, prices, amount - 9_968);
    }
  }

  lemma BelowOverflows(x: Mint, y: Mint, prices: map<int, nat>, left: nat)
    requires Positive(prices) && 0 < left <= 100_000
    ensures var m := ThinMarket(x, y, true, prices);
            Dlmm.WellFormed(m) && -1 in m.arrays && Dlmm.ArrayOf(-1) == -1
            && Dlmm.VisitBin(m, m.pair.vParameters, true, -1, Dlmm.BinAt(m, -1, -1), left) == Err(Bins.MathOverflow)
  {
    hide Dlmm.RateAt, FloorDiv, CeilDiv;
    var m := ThinMarket(x, y, true, prices);
    Bounds.RateIsCapped(m, m.pair.vParameters, -1);
    Rates.NetOfFee(left, Dlmm.RateAt(m, m.pair.vParameters, -1));
    CeilAtMost(U64_MAX * Q64, Waiting.PRICE_BELOW, U64_MAX);
  }

  // ------------------------------------------------------------------ the gap below a PumpSwap leg

  /** SOL into the PumpSwap pool, and the token back through the Meteora pool. */
  function PumpThenMeteora(prices: map<int, nat>): TwoLegs {
    TwoLegs(DeepPool("SOL", "T"), MeteoraLeg(ThinMarket("T", "SOL", false, prices), 0))
  }

  /** A PumpSwap first leg can leave a gap: 9000 and 10002 trade, while 10001 yields two units more
      than 10002, which is too big for the second leg. */
  lemma PumpFirstLegLeavesGap(prices: map<int, nat>)
    requires Positive(prices)
    ensures var r := PumpThenMeteora(prices);
            && r.Ready() && r.RoundTrip("SOL", 9_000).Ok? && r.RoundTrip("SOL", 10_002).Ok?
            && r.RoundTrip("SOL", 10_001) == Err(Leg2Reject(DlmmReject(Bins.InsufficientBinCoverage(-1))))
  {
    hide Fees.PumpQuoteV2, Dlmm.DlmmQuote, FlatSchedule;
    DeepPoolSells("SOL", "T", 9_000, 18, 5);
    DeepPoolSells("SOL", "T", 10_001, 20, 5);
    DeepPoolSells("SOL", "T", 10_002, 21, 6);
    ThinQuote("T", "SOL", false, prices, 8_971, 9);
    ThinQuote("T", "SOL", false, prices, 9_970, 10);
    ThinQuote("T", "SOL", false, prices, 9_968, 10);
  }

  // ------------------------------------------------------------------ refusals that hold for every size

  /** A refusal for a reason that does not depend on the size. */
  predicate IsForever(e: LegReject) {
    match e
    case WrongMint => true
    case PumpReject(p) => !p.NoFill?
    case DlmmReject(d) => d.PairNotSupported?
    case WhirlpoolReject(w) => !w.SingleTickExceeded?
  }

  lemma ForeverHolds(leg: Leg, input: Mint, a: nat, b: nat)
    requires leg.Ready() && leg.Quote(input, a).Err? && IsForever(leg.Quote(input, a).error)
    ensures leg.Quote(input, b).Err?
  {
    hide Dlmm.BitmapWalk, Walk.SwapQuote, Rates.UpdateReferences, Pump.CpmmAmountOut, Pump.TotalFee, Fees.ResolveFeeV2;
    if leg.MeteoraLeg? {
      var m := leg.market;
      var refs := Rates.UpdateReferences(m.pair.parameters, m.pair.vParameters, m.pair.activeId, leg.now);
      Bounds.WalkErrors(m, refs, input == m.pair.tokenX, m.pair.activeId, Dlmm.Totals(a, 0, 0));
    }
  }

  /** A reason other than "too big" guarantees that the leg refuses every size exactly when it does not
      depend on the size; "no fill" and overflow do, though they are treated alike. */
  lemma RefusalIsForeverIff(e: LegReject)
    requires !e.IsCapacity()
    ensures IsForever(e) <==> forall leg: Leg, input, a: nat, b: nat ::
              leg.Ready() && leg.Quote(input, a) == Err(e) ==> leg.Quote(input, b).Err?
  {
    hide Leg.Quote;
    if IsForever(e) {
      forall leg: Leg, input, a: nat, b: nat | leg.Ready() && leg.Quote(input, a) == Err(e)
        ensures leg.Quote(input, b).Err?
      {
        ForeverHolds(leg, input, a, b);
      }
    } else {
      var leg, input, a, b := PassingRefusal(e);
    }
  }

  lemma PassingRefusal(e: LegReject) returns (leg: Leg, input: Mint, a: nat, b: nat)
    requires !e.IsCapacity() && !IsForever(e)
    ensures leg.Ready() && 0 < a && leg.Quote(input, a) == Err(e) && leg.Quote(input, b).Ok?
  {
    hide Fees.PumpQuoteV2, Dlmm.DlmmQuote;
    if e.PumpReject? {
      DeepPoolIsReal("T", "SOL");
      OneUnitSellsForNothing();
      DeepPoolSells("T", "SOL", 10_001, 20, 5);
      return DeepPool("T", "SOL"), "T", 1, 10_001;
    }
    var loaded := e.dlmm.MathOverflow?;
    var (size, fee) := if loaded then (9_970, 10) else (1, 1);
    ThinQuote("SOL", "T", loaded, map[], size, fee);
    ThinQuote("SOL", "T", loaded, map[], 9_968, 10);
    return MeteoraLeg(ThinMarket("SOL", "T", loaded, map[]), 0), "SOL", size, 9_968;
  }

  lemma OneUnitSellsForNothing()
    ensures DeepPool("T", "SOL").Ready() && DeepPool("T", "SOL").Quote("T", 1) == Err(PumpReject(Pump.NoFill))
  {
    hide FloorDiv, Fees.LastReached, Pump.TotalFee;
    DeepPoolIsReal("T", "SOL");
    FloorIs(1_000_000_000_000_000 * 1_000_000_000_000, 1_000_000_000_000, 1_000_000_000_000_000);
    FloorIs(10_000 * 1_000_000_000_000, 10_000_000_000_000_000 + 10_000, 0);
    assert Fees.ResolveFeeV2(1_000_000_000_000, 1_000_000_000_000, 1_000_000_000_000_000, FlatSchedule()).Ok?;
  }

  // ------------------------------------------------------------------ what the search makes of them

  /** The search takes a size for too big exactly when one of the legs says that it lacks loaded bins,
      liquidity, or room inside its tick. */
  lemma TooBigIff(p: Problem, a: nat)
    requires p.route.Ready()
    ensures ProbeAt(p, a).TooBig? <==>
              match p.route.RoundTrip(p.wsol, a)
              case Err(Leg1Reject(DlmmReject(e))) => e == Bins.ExhaustedLiquidity || e.InsufficientBinCoverage?
              case Err(Leg2Reject(DlmmReject(e))) => e == Bins.ExhaustedLiquidity || e.InsufficientBinCoverage?
              case Err(Leg1Reject(WhirlpoolReject(e))) => e.SingleTickExceeded?
              case Err(Leg2Reject(WhirlpoolReject(e))) => e.SingleTickExceeded?
              case _ => false
    ensures ProbeAt(p, a).Feasible? <==> p.route.RoundTrip(p.wsol, a).Ok?
  {
    hide TwoLegs.RoundTrip, CostModel.Net;
  }

  /** A dead size speaks for every size when the topology or a size-independent refusal killed it. */
  lemma DeadForever(p: Problem, a: nat, b: nat)
    requires p.route.Ready() && p.route.RoundTrip(p.wsol, a).Err?
    requires match p.route.RoundTrip(p.wsol, a).error
             case Leg1Reject(e) => IsForever(e)
             case Leg2Reject(e) => IsForever(e)
             case _ => true
    ensures ProbeAt(p, a).Dead? && !ProbeAt(p, b).Feasible?
  {
    hide Leg.Quote, Leg.OutputMint;
    var token := p.route.TokenMint(p.wsol);
    if token.Some? {
      var first := p.route.leg1.Quote(p.wsol, a);
      if first.Err? {
        ForeverHolds(p.route.leg1, p.wsol, a, b);
      } else if p.route.leg1.Quote(p.wsol, b).Ok? {
        ForeverHolds(p.route.leg2, token.value, first.value.0, p.route.leg1.Quote(p.wsol, b).value.0);
      }
    }
  }

  function MeteoraThenPump(loaded: bool, prices: map<int, nat>): TwoLegs {
    TwoLegs(MeteoraLeg(ThinMarket("SOL", "T", loaded, prices), 0), DeepPool("T", "SOL"))
  }

  /** Otherwise it does not: here 1 and 9970 are dead, one too small and the other overflowing, and
      9968 between them trades; a grid with either of them makes the search give up. */
  lemma DeadBesideTradable(prices: map<int, nat>, cost: CostModel)
    requires Positive(prices)
    ensures var p := Problem(MeteoraThenPump(true, prices), "SOL", cost);
            p.route.Ready() && ProbeAt(p, 1).Dead? && ProbeAt(p, 9_970).Dead? && Score(p, 9_968).Some?
  {
    hide Fees.PumpQuoteV2, Dlmm.DlmmQuote, FlatSchedule, CostModel.Net;
    ThinQuote("SOL", "T", true, prices, 1, 1);
    ThinQuote("SOL", "T", true, prices, 9_970, 10);
    ThinQuote("SOL", "T", true, prices, 9_968, 10);
    DeepPoolSells("T", "SOL", 9_958, 20, 5);
  }
}
