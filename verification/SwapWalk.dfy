/** The exact-input swap over a list of tick crossings. `Walk` is the specification; the two
    loops of the program, with and without ending-state detail, are methods proved against it.
 */
module SwapWalk {
  import opened Common
  import opened Arith
  import opened ClmmCurve
  import opened TickMath

  datatype Fill =
    | Rejected
    | Filled(out: nat, fee: nat, endSqrt: nat, crossed: nat)

  datatype SwapDetail = SwapDetail(amountOut: nat, totalFee: nat, endSqrtPrice: nat, ticksCrossed: nat)

  ghost predicate PricesPositive(cs: seq<Crossing>) {
    forall c <- cs :: c.sqrtPrice > 0
  }

  function Left(remaining: nat, step: Step): nat {
    SatSub(remaining, step.amountIn + step.fee)
  }

  function AfterStep(step: Step, crossed: nat, rest: Fill): Fill {
    match rest
    case Rejected => Rejected
    case Filled(out, fee, endSqrt, n) => Filled(step.amountOut + out, step.fee + fee, endSqrt, crossed + n)
  }

  /** The last stretch, from the last crossing to the edge of the loaded ticks. */
  function FinishWithinCoverage(fee: nat, aToB: bool, remaining: nat, sqrt: nat, liquidity: nat, limit: nat): Fill
    requires fee < PPM && sqrt > 0
  {
    if remaining == 0 then Filled(0, 0, sqrt, 0)
    else if !Ahead(aToB, sqrt, limit) || liquidity == 0 then Rejected
    else
      var step := ComputeSwapStep(remaining, fee, liquidity, sqrt, limit, aToB);
      if Left(remaining, step) > 0 then Rejected
      else Filled(step.amountOut, step.fee, step.nextSqrt, 0)
  }

  /** The swap from a given point: crossings that do not lie ahead are passed over, each other one
      is stepped to and, if reached with input to spare, crossed. */
  function Walk(fee: nat, aToB: bool, remaining: nat, sqrt: nat, liquidity: nat, cs: seq<Crossing>, limit: nat): Fill
    requires fee < PPM && sqrt > 0 && PricesPositive(cs)
    decreases |cs|
  {
    if cs == [] then FinishWithinCoverage(fee, aToB, remaining, sqrt, liquidity, limit)
    else if !Ahead(aToB, sqrt, cs[0].sqrtPrice) then Walk(fee, aToB, remaining, sqrt, liquidity, cs[1..], limit)
    else
      var step := ComputeSwapStep(remaining, fee, liquidity, sqrt, cs[0].sqrtPrice, aToB);
      if Left(remaining, step) == 0 || step.nextSqrt != cs[0].sqrtPrice then
        Filled(step.amountOut, step.fee, step.nextSqrt, 0)
      else
        AfterStep(step, 1, Walk(fee, aToB, Left(remaining, step), step.nextSqrt,
                                ApplyLiquidityNet(liquidity, cs[0].liquidityNet, aToB), cs[1..], limit))
  }

  /** The detailed quote: a swap is refused outright on a zero input, a zero price or a fee of
      100%, and its output must fit 64 bits. */
  function SwapQuote(sqrt: nat, liquidity: nat, fee: nat, aToB: bool, amountIn: nat, cs: seq<Crossing>, limit: nat)
      : Option<SwapDetail>
    requires PricesPositive(cs)
  {
    if amountIn == 0 || sqrt == 0 || fee >= PPM then None
    else match Walk(fee, aToB, amountIn, sqrt, liquidity, cs, limit)
      case Rejected => None
      case Filled(out, total, endSqrt, crossed) =>
        if out <= U64_MAX then Some(SwapDetail(out, total, endSqrt, crossed)) else None
  }

  function WalkedSoFar(out: nat, fee: nat, crossed: nat, rest: Fill): Fill {
    AfterStep(Step(0, out, 0, fee), crossed, rest)
  }

  method SwapExactInDetailed(sqrtPrice: nat, liquidity: nat, fee: nat, aToB: bool, amountIn: nat,
                             crossings: seq<Crossing>, limit: nat)
    returns (r: Option<SwapDetail>)
    requires PricesPositive(crossings)
    ensures r == SwapQuote(sqrtPrice, liquidity, fee, aToB, amountIn, crossings, limit)
  {
    hide ComputeSwapStep, ApplyLiquidityNet;
    if amountIn == 0 || sqrtPrice == 0 || fee >= PPM {
      return None;
    }
    var remaining: nat, out: nat, feeTotal: nat := amountIn, 0, 0;
    var sqrt: nat, liq: nat, crossed: nat := sqrtPrice, liquidity, 0;
    for i := 0 to |crossings|
      invariant sqrt > 0
      invariant Walk(fee, aToB, amountIn, sqrtPrice, liquidity, crossings, limit)
             == WalkedSoFar(out, feeTotal, crossed, Walk(fee, aToB, remaining, sqrt, liq, crossings[i..], limit))
    {
      assert crossings[i..][0] == crossings[i] && crossings[i..][1..] == crossings[i + 1..];
      var c := crossings[i];
      if !Ahead(aToB, sqrt, c.sqrtPrice) {
        continue;
      }
      var step := ComputeSwapStep(remaining, fee, liq, sqrt, c.sqrtPrice, aToB);
      remaining := SatSub(remaining, step.amountIn + step.fee);
      out := out + step.amountOut;
      feeTotal := feeTotal + step.fee;
      sqrt := step.nextSqrt;
      if remaining == 0 || sqrt != c.sqrtPrice {
        return if out <= U64_MAX then Some(SwapDetail(out, feeTotal, sqrt, crossed)) else None;
      }
      liq := ApplyLiquidityNet(liq, c.liquidityNet, aToB);
      crossed := crossed + 1;
    }
    if remaining == 0 {
      return if out <= U64_MAX then Some(SwapDetail(out, feeTotal, sqrt, crossed)) else None;
    }
    if !Ahead(aToB, sqrt, limit) || liq == 0 {
      return None;
    }
    var step := ComputeSwapStep(remaining, fee, liq, sqrt, limit, aToB);
    remaining := SatSub(remaining, step.amountIn + step.fee);
    out := out + step.amountOut;
    feeTotal := feeTotal + step.fee;
    if remaining > 0 {
      return None;
    }
    return if out <= U64_MAX then Some(SwapDetail(out, feeTotal, step.nextSqrt, crossed)) else None;
  }

  /** The plain quote agrees with the detailed one on every input. */
  method SwapExactIn(sqrtPrice: nat, liquidity: nat, fee: nat, aToB: bool, amountIn: nat,
                     crossings: seq<Crossing>, limit: nat)
    returns (r: Option<nat>)
    requires PricesPositive(crossings)
    ensures var q := SwapQuote(sqrtPrice, liquidity, fee, aToB, amountIn, crossings, limit);
            r == if q.Some? then Some(q.value.amountOut) else None
  {
    hide ComputeSwapStep, ApplyLiquidityNet;
    if amountIn == 0 || sqrtPrice == 0 || fee >= PPM {
      return None;
    }
    var remaining: nat, out: nat, sqrt: nat, liq: nat := amountIn, 0, sqrtPrice, liquidity;
    ghost var paid: nat, crossed: nat := 0, 0;
    for i := 0 to |crossings|
      invariant sqrt > 0
      invariant Walk(fee, aToB, amountIn, sqrtPrice, liquidity, crossings, limit)
             == WalkedSoFar(out, paid, crossed, Walk(fee, aToB, remaining, sqrt, liq, crossings[i..], limit))
    {
      assert crossings[i..][0] == crossings[i] && crossings[i..][1..] == crossings[i + 1..];
      var c := crossings[i];
      if !Ahead(aToB, sqrt, c.sqrtPrice) {
        continue;
      }
      var step := ComputeSwapStep(remaining, fee, liq, sqrt, c.sqrtPrice, aToB);
      remaining := SatSub(remaining, step.amountIn + step.fee);
      out := out + step.amountOut;
      sqrt := step.nextSqrt;
      if remaining == 0 || sqrt != c.sqrtPrice {
        return if out <= U64_MAX then Some(out) else None;
      }
      liq := ApplyLiquidityNet(liq, c.liquidityNet, aToB);
      paid, crossed := paid + step.fee, crossed + 1;
    }
    if remaining == 0 {
      return if out <= U64_MAX then Some(out) else None;
    }
    if !Ahead(aToB, sqrt, limit) || liq == 0 {
      return None;
    }
    var step := ComputeSwapStep(remaining, fee, liq, sqrt, limit, aToB);
    remaining := SatSub(remaining, step.amountIn + step.fee);
    out := out + step.amountOut;
    if remaining > 0 {
      return None;
    }
    return if out <= U64_MAX then Some(out) else None;
  }
}
