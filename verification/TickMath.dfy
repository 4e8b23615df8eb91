/** The exact-input Whirlpool swap: one step of constant liquidity, and the walk that takes such
    steps across tick boundaries.

    Amounts live in 128-bit integers in the program; where it falls back to a bound on overflow
    the model does too (`ToU128`), and `StepMeaning` shows which fall-backs can ever be seen.
 */
module TickMath {
  import opened Arith
  import opened ClmmCurve

  /** An initialized tick the swap may cross. */
  datatype Crossing = Crossing(sqrtPrice: nat, liquidityNet: int)

  datatype Step = Step(amountIn: nat, amountOut: nat, nextSqrt: nat, fee: nat)

  const MIN_SQRT_PRICE_X64: nat := 4_295_048_016
  const MAX_SQRT_PRICE_X64: nat := 79_226_673_515_401_279_992_447_579_055

  /** Narrowing to 128 bits, with the value the program uses when it does not fit. */
  function ToU128(x: nat, fallback: nat): nat {
    if x <= U128_MAX then x else fallback
  }

  /** Ceiling division as the wide-integer helper does it: a zero divisor yields zero. */
  function CeilDivU512(num: nat, den: nat): nat {
    if den == 0 then 0 else CeilDiv(num, den)
  }

  function AmountADelta(lower: nat, upper: nat, liquidity: nat, roundUp: bool): nat
    requires roundUp || lower > 0  // rounding down divides by the prices outright
  {
    if liquidity == 0 || lower >= upper then 0
    else
      var numerator := Span(liquidity * Q64, lower, upper);
      var denominator := lower * upper;
      if roundUp then ToU128(CeilDivU512(numerator, denominator), U128_MAX)
      else
        MulPositive(lower, upper);
        ToU128(FloorDiv(numerator, denominator), U128_MAX)
  }

  function AmountBDelta(lower: nat, upper: nat, liquidity: nat, roundUp: bool): nat {
    if liquidity == 0 || lower >= upper then 0
    else
      var product := Span(liquidity, lower, upper);
      var whole := FloorDiv(product, Q64);
      ToU128(if roundUp && product - whole * Q64 != 0 then whole + 1 else whole, U128_MAX)
  }

  function NextSqrtFromAIn(sqrt: nat, liquidity: nat, amount: nat): nat {
    if amount == 0 then sqrt
    else ToU128(CeilDivU512(liquidity * Q64 * sqrt, liquidity * Q64 + amount * sqrt), MIN_SQRT_PRICE_X64)
  }

  function NextSqrtFromBIn(sqrt: nat, liquidity: nat, amount: nat): nat
    requires liquidity > 0
  {
    if amount == 0 then sqrt
    else ToU128(sqrt + FloorDiv(amount * Q64, liquidity), MAX_SQRT_PRICE_X64)
  }

  /** What moving the price from `s` to `t` takes in, and what it pays out. */
  function DeltaIn(aToB: bool, s: nat, t: nat, liquidity: nat): (r: nat)
    ensures liquidity == 0 ==> r == 0
  {
    if aToB then AmountADelta(t, s, liquidity, true) else AmountBDelta(s, t, liquidity, true)
  }

  function DeltaOut(aToB: bool, s: nat, t: nat, liquidity: nat): nat
    requires s > 0
  {
    if aToB then AmountBDelta(t, s, liquidity, false) else AmountADelta(s, t, liquidity, false)
  }

  /** One exact-input step from `current` toward `target`. */
  function ComputeSwapStep(remaining: nat, fee: nat, liquidity: nat, current: nat, target: nat, aToB: bool): Step
    requires fee < PPM && current > 0
  {
    var net := AfterFee(remaining, fee);
    var toTarget := DeltaIn(aToB, current, target, liquidity);
    var reached := net >= toTarget;
    var next := if reached then target
                else if aToB then NextSqrtFromAIn(current, liquidity, net)
                else NextSqrtFromBIn(current, liquidity, net);
    var amountIn := DeltaIn(aToB, current, next, liquidity);
    var amountOut := DeltaOut(aToB, current, next, liquidity);
    var charged := if reached then FeeOn(amountIn, fee) else SatSub(remaining, amountIn);
    Step(amountIn, amountOut, next, charged)
  }

  /** Liquidity after a tick is crossed; the net is added when the price moves up through it. */
  function ApplyLiquidityNet(liquidity: nat, net: int, aToB: bool): nat {
    var add := if aToB then -net else net;
    if add >= 0 then Min(liquidity + add, U128_MAX) else SatSub(liquidity, -add)
  }

  // ------------------------------------------------------------------ one step

  predicate IsPrice(p: nat) {
    0 < p <= U128_MAX
  }

  /** A step the walk can take: 64-bit input, 128-bit positive prices, target ahead. */
  predicate CanStep(remaining: nat, fee: nat, current: nat, target: nat, aToB: bool) {
    remaining <= U64_MAX && fee < PPM && IsPrice(current) && IsPrice(target) && Ahead(aToB, current, target)
  }

  lemma DeltasAreExact(aToB: bool, s: nat, t: nat, liquidity: nat)
    requires IsPrice(s) && IsPrice(t) && AtOrAhead(aToB, s, t)
    ensures DeltaIn(aToB, s, t, liquidity) == ToU128(Needed(aToB, s, t, liquidity), U128_MAX)
    ensures DeltaOut(aToB, s, t, liquidity) == ToU128(Released(aToB, s, t, liquidity), U128_MAX)
  {
    if s == t {
      NeededNothing(aToB, s, liquidity);
    } else if liquidity == 0 {
      NeededPositive(aToB, s, t, liquidity);
    } else if aToB {
      MulPositive(t, s);
    } else {
      MulPositive(s, t);
      CeilByRemainder(Span(liquidity, s, t));
    }
  }

  lemma CeilByRemainder(product: nat)
    ensures var whole := FloorDiv(product, Q64);
            CeilDiv(product, Q64) == if product - whole * Q64 != 0 then whole + 1 else whole
  {
    hide FloorDiv, CeilDiv;
    var whole := FloorDiv(product, Q64);
    FloorBounds(product, Q64);
    CeilAtMost(product, Q64, whole);
    CeilAtMost(product, Q64, whole + 1);
    if whole > 0 { CeilAtMost(product, Q64, whole - 1); }
  }

  /** What a step computes, in terms of the exact curve: it buys its way to the target when the
      after-fee input covers the cost, and otherwise spends everything and stops short. None of
      the 128-bit fall-backs is ever taken except on the output. */
  lemma StepMeaning(remaining: nat, fee: nat, liquidity: nat, current: nat, target: nat, aToB: bool)
    requires CanStep(remaining, fee, current, target, aToB)
    ensures var net, cost := AfterFee(remaining, fee), Needed(aToB, current, target, liquidity);
            var step := ComputeSwapStep(remaining, fee, liquidity, current, target, aToB);
            && (net >= cost ==>
                  step == Step(cost, ToU128(Released(aToB, current, target, liquidity), U128_MAX), target,
                               FeeOn(cost, fee)))
            && (net < cost ==>
                  && liquidity > 0
                  && var next := PriceAfter(aToB, current, liquidity, net);
                     && IsPrice(next) && AtOrAhead(aToB, current, next) && Ahead(aToB, next, target)
                     && Needed(aToB, current, next, liquidity) <= remaining
                     && step == Step(Needed(aToB, current, next, liquidity),
                                     ToU128(Released(aToB, current, next, liquidity), U128_MAX), next,
                                     remaining - Needed(aToB, current, next, liquidity)))
  {
    var net, cost := AfterFee(remaining, fee), Needed(aToB, current, target, liquidity);
    AfterFeeAtMost(remaining, fee);
    DeltasAreExact(aToB, current, target, liquidity);
    if net < cost {
      PriceStopsShort(aToB, current, target, liquidity, net);
      PriceIsPaidFor(aToB, current, liquidity, net);
      var next := PriceAfter(aToB, current, liquidity, net);
      DeltasAreExact(aToB, current, next, liquidity);
      NextPriceIsExact(aToB, current, liquidity, net);
    }
  }

  lemma NextPriceIsExact(aToB: bool, sqrt: nat, liquidity: nat, amount: nat)
    requires sqrt > 0 && liquidity > 0
    requires PriceAfter(aToB, sqrt, liquidity, amount) <= U128_MAX
    ensures (if aToB then NextSqrtFromAIn(sqrt, liquidity, amount) else NextSqrtFromBIn(sqrt, liquidity, amount))
         == PriceAfter(aToB, sqrt, liquidity, amount)
  {
    PriceStays(aToB, sqrt, liquidity);
  }

  /** A step stays between its ends, reaches its target exactly when the after-fee input pays for
      it, and never consumes more than it was given; falling short consumes everything. */
  lemma StepConserves(remaining: nat, fee: nat, liquidity: nat, current: nat, target: nat, aToB: bool)
    requires CanStep(remaining, fee, current, target, aToB)
    ensures var step := ComputeSwapStep(remaining, fee, liquidity, current, target, aToB);
            && IsPrice(step.nextSqrt) && AtOrAhead(aToB, current, step.nextSqrt)
            && AtOrAhead(aToB, step.nextSqrt, target)
            && (step.nextSqrt == target <==> AfterFee(remaining, fee) >= Needed(aToB, current, target, liquidity))
            && step.amountIn + step.fee <= remaining
            && (step.nextSqrt != target ==> liquidity > 0 && step.amountIn + step.fee == remaining)
  {
    StepMeaning(remaining, fee, liquidity, current, target, aToB);
    Afford(Needed(aToB, current, target, liquidity), remaining, fee);
  }

  /** More input never buys less: the smaller step is the same, or ends this stretch earlier. */
  lemma StepMono(less: nat, more: nat, fee: nat, liquidity: nat, current: nat, target: nat, aToB: bool)
    requires less <= more && CanStep(more, fee, current, target, aToB)
    ensures var a := ComputeSwapStep(less, fee, liquidity, current, target, aToB);
            var b := ComputeSwapStep(more, fee, liquidity, current, target, aToB);
            && a.amountOut <= b.amountOut
            && (a.nextSqrt == target ==> a == b)
            && (b.nextSqrt != target ==> a.nextSqrt != target)
  {
    StepMeaning(less, fee, liquidity, current, target, aToB);
    StepMeaning(more, fee, liquidity, current, target, aToB);
    AfterFeeMono(less, more, fee);
    var cost := Needed(aToB, current, target, liquidity);
    if AfterFee(less, fee) < cost {
      var near := PriceAfter(aToB, current, liquidity, AfterFee(less, fee));
      if AfterFee(more, fee) < cost {
        PriceMono(aToB, current, liquidity, AfterFee(less, fee), AfterFee(more, fee));
        ReleasedMono(aToB, current, near, PriceAfter(aToB, current, liquidity, AfterFee(more, fee)), liquidity);
      } else {
        ReleasedMono(aToB, current, near, target, liquidity);
      }
    }
  }
}
