/** A two-leg route WSOL -> token -> WSOL over any of the three venues, and why the sizes it can
    trade form an interval.
 */
module Route {
  import opened Common
  import opened Arith
  import opened Cost
  import Curve = ClmmCurve
  import Clmm = SwapProperties
  import Walk = SwapWalk
  import Whirl = WhirlpoolLeg
  import Fees = PumpFeeV2
  import Pump = PumpAmm
  import Dlmm = DlmmWalk
  import Bins = DlmmBin
  import Bounds = DlmmProperties

  datatype LegReject =
    | WrongMint
    | PumpReject(pump: Pump.PumpError)
    | DlmmReject(dlmm: Bins.DlmmError)
    | WhirlpoolReject(whirlpool: Whirl.WhirlpoolReject)
  {
    /** "Too big": a smaller size may work. */
    predicate IsCapacity() {
      (DlmmReject? && dlmm.IsCapacity()) || (WhirlpoolReject? && whirlpool.IsCapacity())
    }
  }

  type LegResult = Result<(nat, nat), LegReject>

  datatype Leg =
    | PumpLeg(pool: Fees.PumpPool, baseReserve: nat, quoteReserve: nat, supply: nat, tiers: Fees.FeeConfig)
    | MeteoraLeg(market: Dlmm.Market, now: int)
    | WhirlpoolLeg(state: Whirl.WhirlpoolState, priceOf: int -> nat)
  {
    /** The loaded state is of the shape the decoders produce. */
    ghost predicate Ready() {
      match this
      case PumpLeg(_, _, _, _, tiers) => tiers != []
      case MeteoraLeg(market, _) => Dlmm.WellFormed(market)
      case WhirlpoolLeg(_, _) => true
    }

    function OutputMint(input: Mint): Option<Mint> {
      match this
      case PumpLeg(pool, _, _, _, _) => Other(pool.baseMint, pool.quoteMint, input)
      case MeteoraLeg(market, _) => Other(market.pair.tokenX, market.pair.tokenY, input)
      case WhirlpoolLeg(state, _) => Other(state.mintA, state.mintB, input)
    }

    function Mints(): (Mint, Mint) {
      match this
      case PumpLeg(pool, _, _, _, _) => (pool.baseMint, pool.quoteMint)
      case MeteoraLeg(market, _) => (market.pair.tokenX, market.pair.tokenY)
      case WhirlpoolLeg(state, _) => (state.mintA, state.mintB)
    }

    /** Output and fee of an exact input, the direction taken from the input mint. */
    function Quote(input: Mint, amountIn: nat): LegResult
      requires Ready()
    {
      match this
      case PumpLeg(pool, base, quote, supply, tiers) =>
        (match Fees.PumpQuoteV2(pool, input, amountIn, base, quote, supply, tiers)
         case Ok(q) => Ok((q.out, q.fee))
         case Err(e) => Err(PumpReject(e)))
      case MeteoraLeg(market, now) =>
        if input != market.pair.tokenX && input != market.pair.tokenY then Err(WrongMint)
        else
          (match Dlmm.DlmmQuote(market, input == market.pair.tokenX, amountIn, now)
           case Ok(q) => Ok(q)
           case Err(e) => Err(DlmmReject(e)))
      case WhirlpoolLeg(state, priceOf) =>
        (match Whirl.QuoteLeg(state, priceOf, input, amountIn)
         case Ok(q) => Ok(q)
         case Err(e) => Err(WhirlpoolReject(e)))
    }
  }

  function Other(a: Mint, b: Mint, input: Mint): Option<Mint> {
    if input == a then Some(b) else if input == b then Some(a) else None
  }

  /** A leg trades its two mints for one another, and nothing else; each of them it takes, though it
      may have other reasons to refuse. */
  lemma LegTradesItsMints(leg: Leg, input: Mint, amount: nat)
    requires leg.Ready() && leg.Mints().0 != leg.Mints().1
    ensures leg.OutputMint(leg.Mints().0) == Some(leg.Mints().1) && leg.OutputMint(leg.Mints().1) == Some(leg.Mints().0)
    ensures input != leg.Mints().0 && input != leg.Mints().1 ==>
              leg.OutputMint(input) == None && leg.Quote(input, amount).Err?
    ensures input == leg.Mints().0 || input == leg.Mints().1 ==>
              var quote := leg.Quote(input, amount);
              quote.Ok? || quote.error !in {WrongMint, PumpReject(Pump.PumpError.WrongMint),
                                            WhirlpoolReject(Whirl.WhirlpoolReject.WrongMint)}
  {
    hide Dlmm.DlmmQuote, Walk.SwapQuote, Fees.ResolveFeeV2, Pump.TotalFee, Pump.CpmmAmountOut;
  }

  datatype RouteReject =
    | TopologyMismatch
    | Leg1Reject(leg1: LegReject)
    | Leg2Reject(leg2: LegReject)
    | NonPositiveGross
    | BelowNet(gross: nat, net: int)

  datatype Candidate = Candidate(
    token: Mint, amountIn: nat, tokenMid: nat, wsolOut: nat, gross: nat, net: int, payment: nat,
    leg1Fee: nat, leg2Fee: nat)

  datatype TwoLegs = TwoLegs(leg1: Leg, leg2: Leg)
  {
    ghost predicate Ready() {
      leg1.Ready() && leg2.Ready()
    }

    /** The token the route goes through, if the legs agree on one. */
    function TokenMint(wsol: Mint): Option<Mint> {
      match leg1.OutputMint(wsol)
      case None => None
      case Some(token) => if leg2.OutputMint(token) == Some(wsol) then Some(token) else None
    }

    /** Both amounts of the round trip, without the profit gate. */
    function RoundTrip(wsol: Mint, amountIn: nat): Result<(nat, nat), RouteReject>
      requires Ready()
    {
      match TokenMint(wsol)
      case None => Err(TopologyMismatch)
      case Some(token) =>
        match leg1.Quote(wsol, amountIn)
        case Err(e) => Err(Leg1Reject(e))
        case Ok(mid) =>
          match leg2.Quote(token, mid.0)
          case Err(e) => Err(Leg2Reject(e))
          case Ok(out) => Ok((mid.0, out.0))
    }

    /** The full evaluation: the round trip, then the profit gate. */
    function Evaluate(wsol: Mint, amountIn: nat, cost: CostModel): Result<Candidate, RouteReject>
      requires Ready()
    {
      match TokenMint(wsol)
      case None => Err(TopologyMismatch)
      case Some(token) =>
        match leg1.Quote(wsol, amountIn)
        case Err(e) => Err(Leg1Reject(e))
        case Ok(mid) =>
          match leg2.Quote(token, mid.0)
          case Err(e) => Err(Leg2Reject(e))
          case Ok(out) =>
            if out.0 <= amountIn then Err(NonPositiveGross)
            else
              var gross := out.0 - amountIn;
              var net := cost.Net(gross);
              if net < cost.requiredNet then Err(BelowNet(gross, net))
              else Ok(Candidate(token, amountIn, mid.0, out.0, gross, net, cost.Payment(gross), mid.1, out.1))
    }
  }

  /** The gate passes exactly the round trips that earn something and net at least the floor, and a
      candidate's figures are those of its round trip. */
  lemma EvaluateIffProfitable(r: TwoLegs, wsol: Mint, amountIn: nat, cost: CostModel)
    requires r.Ready()
    ensures var trip := r.RoundTrip(wsol, amountIn);
            var result := r.Evaluate(wsol, amountIn, cost);
            && (result.Ok? <==> trip.Ok? && trip.value.1 > amountIn
                                && cost.Net(trip.value.1 - amountIn) >= cost.requiredNet)
            && (result.Ok? ==>
                  && result.value.amountIn == amountIn && result.value.tokenMid == trip.value.0
                  && result.value.wsolOut == trip.value.1 == amountIn + result.value.gross
                  && result.value.net == cost.Net(result.value.gross) >= cost.requiredNet
                  && result.value.net == result.value.gross - cost.TotalBurn(result.value.gross) - cost.margin
                  && r.TokenMint(wsol) == Some(result.value.token) && result.value.payment == cost.Payment(result.value.gross)
                  && r.leg1.Quote(wsol, amountIn) == Ok((result.value.tokenMid, result.value.leg1Fee))
                  && r.leg2.Quote(result.value.token, result.value.tokenMid) == Ok((result.value.wsolOut, result.value.leg2Fee)))
  {
    hide Leg.Quote, Leg.OutputMint, TwoLegs.TokenMint, CostModel.TotalBurn, CostModel.Payment;
  }

  // ------------------------------------------------------------------ feasible sizes

  /** Leg state within the integer ranges of the accounts it was decoded from. */
  ghost predicate InRange(leg: Leg, input: Mint, amount: nat)
    requires leg.Ready()
  {
    amount <= U64_MAX &&
    match leg
    case PumpLeg(_, _, quote, _, tiers) => quote <= U64_MAX && Fees.Schedule(tiers)
    case MeteoraLeg(market, _) => Bounds.AmountsFit(market)
    case WhirlpoolLeg(w, priceOf) =>
      w.feePpm < Curve.PPM ==>
        Clmm.CanWalk(w.feePpm, amount, w.sqrtPrice, w.liquidity, [], priceOf(Whirl.BoundaryTick(w, input == w.mintA)))
  }

  /** Between two sizes that a leg quotes, every size is quoted; a Meteora or Whirlpool leg is
      monotone in between, a PumpSwap leg up to two units. */
  lemma LegBetween(leg: Leg, input: Mint, low: nat, size: nat, high: nat)
    requires leg.Ready() && InRange(leg, input, high) && low <= size <= high
    requires leg.Quote(input, low).Ok? && leg.Quote(input, high).Ok?
    ensures leg.Quote(input, size).Ok?
    ensures var slack := if leg.PumpLeg? then 2 else 0;
            leg.Quote(input, low).value.0 <= leg.Quote(input, size).value.0 + slack
            && leg.Quote(input, size).value.0 <= leg.Quote(input, high).value.0 + slack
  {
    hide Fees.PumpQuoteV2, Fees.Schedule, Dlmm.DlmmQuote, Dlmm.WellFormed, Bounds.AmountsFit, Walk.SwapQuote, Walk.Walk,
         Whirl.SingleTickCapacity, Whirl.BoundaryTick, Whirl.QuoteLeg;
    match leg
    case PumpLeg(pool, base, quote, supply, tiers) =>
      Fees.PumpLegLaws(pool, input, low, size, base, quote, supply, tiers);
      Fees.PumpLegLaws(pool, input, size, high, base, quote, supply, tiers);
    case MeteoraLeg(market, now) =>
      Bounds.QuoteBetween(market, input == market.pair.tokenX, low, size, high, now);
    case WhirlpoolLeg(w, priceOf) =>
      var aToB := input == w.mintA;
      var boundary := priceOf(Whirl.BoundaryTick(w, aToB));
      Whirl.LegQuotesWalk(w, priceOf, input, low);
      Whirl.LegQuotesWalk(w, priceOf, input, size);
      Whirl.LegQuotesWalk(w, priceOf, input, high);
      Clmm.QuoteMono(w.sqrtPrice, w.liquidity, w.feePpm, aToB, size, high, [], boundary);
      Clmm.QuoteMono(w.sqrtPrice, w.liquidity, w.feePpm, aToB, low, size, [], boundary);
  }

  /** Between two sizes that the first leg quotes, every round trip succeeds and its output lies in
      between, so the optimizer's binary shrink below a capacity reject is justified; provided the
      second leg quotes what the first can yield between them. For a first leg other than PumpSwap
      that is just the two round trips; a PumpSwap first leg may yield two units less or more. */
  lemma FeasibleSizesAreAnInterval(r: TwoLegs, wsol: Mint, low: nat, size: nat, high: nat)
    requires r.Ready() && low <= size <= high && r.TokenMint(wsol).Some?
    requires r.leg1.Quote(wsol, low).Ok? && r.leg1.Quote(wsol, high).Ok? && InRange(r.leg1, wsol, high)
    requires var token, (bottom, top) := r.TokenMint(wsol).value, Swing(r, wsol, low, high);
             r.leg2.Quote(token, bottom).Ok? && r.leg2.Quote(token, top).Ok? && InRange(r.leg2, token, top)
    ensures r.RoundTrip(wsol, size).Ok?
    ensures var token, (bottom, top) := r.TokenMint(wsol).value, Swing(r, wsol, low, high);
            var slack := if r.leg2.PumpLeg? then 2 else 0;
            r.leg2.Quote(token, bottom).value.0 <= r.RoundTrip(wsol, size).value.1 + slack
            && r.RoundTrip(wsol, size).value.1 <= r.leg2.Quote(token, top).value.0 + slack
  {
    hide Leg.Quote, InRange, Leg.OutputMint, TwoLegs.TokenMint;
    LegBetween(r.leg1, wsol, low, size, high);
    var (bottom, top) := Swing(r, wsol, low, high);
    LegBetween(r.leg2, r.TokenMint(wsol).value, bottom, r.leg1.Quote(wsol, size).value.0, top);
  }

  /** The amounts the first leg can yield from `low` to `high`. */
  function Swing(r: TwoLegs, wsol: Mint, low: nat, high: nat): (nat, nat)
    requires r.Ready() && r.leg1.Quote(wsol, low).Ok? && r.leg1.Quote(wsol, high).Ok?
  {
    var slack := if r.leg1.PumpLeg? then 2 else 0;
    (SatSub(r.leg1.Quote(wsol, low).value.0, slack), r.leg1.Quote(wsol, high).value.0 + slack)
  }

  /** Every output is a 64-bit amount. */
  lemma OutputFits(leg: Leg, input: Mint, amountIn: nat)
    requires leg.Ready() && leg.Quote(input, amountIn).Ok?
    ensures leg.Quote(input, amountIn).value.0 <= U64_MAX
  {
    hide Dlmm.DlmmQuote, Walk.Walk, Pump.TotalFee, Fees.ResolveFeeV2;
    match leg
    case PumpLeg(_, _, _, _, _) =>
    case MeteoraLeg(market, now) => Bounds.QuoteFits(market, input == market.pair.tokenX, amountIn, now);
    case WhirlpoolLeg(_, _) =>
  }

  lemma InRangeBelow(leg: Leg, input: Mint, less: nat, more: nat)
    requires leg.Ready() && less <= more && InRange(leg, input, more)
    ensures InRange(leg, input, less)
  {
  }
}
