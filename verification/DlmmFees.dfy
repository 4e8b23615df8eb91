/** Meteora fee rates, volatility, and the quote of a single bin with its fee charged on the input
    or on the output.
 */
module DlmmFees {
  import opened Common
  import opened Arith
  import opened DlmmBin
  import Curve = ClmmCurve

  datatype StaticParameters = StaticParameters(
    baseFactor: nat, filterPeriod: nat, decayPeriod: nat, reductionFactor: nat,
    variableFeeControl: nat, maxVolatilityAccumulator: nat, baseFeePowerFactor: nat,
    functionType: nat, collectFeeMode: nat)

  datatype VariableParameters = VariableParameters(
    volatilityAccumulator: nat, volatilityReference: nat, indexReference: int, lastUpdateTimestamp: int)

  // ------------------------------------------------------------------ rates

  function Pow10(n: nat): nat {
    if n == 0 then 1 else 10 * Pow10(n - 1)
  }

  function BaseFeeRate(p: StaticParameters, binStep: nat): nat {
    p.baseFactor * binStep * 10 * Pow10(p.baseFeePowerFactor)
  }

  function VariableFeeRate(p: StaticParameters, binStep: nat, volatility: nat): nat {
    if p.variableFeeControl == 0 then 0
    else
      var root := volatility * binStep;
      CeilDiv(root * root * p.variableFeeControl, 100_000_000_000)
  }

  function TotalFeeRate(p: StaticParameters, binStep: nat, volatility: nat): (rate: nat)
    ensures rate <= MAX_FEE_RATE
  {
    Min(BaseFeeRate(p, binStep) + VariableFeeRate(p, binStep, volatility), MAX_FEE_RATE)
  }

  const I64_MAX: int := 0x7FFF_FFFF_FFFF_FFFF
  const I64_MIN: int := -0x8000_0000_0000_0000

  /** Volatility references at the start of a quote. */
  function UpdateReferences(p: StaticParameters, v: VariableParameters, activeId: int, now: int): VariableParameters {
    var elapsed := Max(I64_MIN, Min(now - v.lastUpdateTimestamp, I64_MAX));
    if elapsed < p.filterPeriod then v
    else
      v.(indexReference := activeId,
         volatilityReference :=
           if elapsed < p.decayPeriod then
             FloorDiv(v.volatilityAccumulator * p.reductionFactor, BASIS_POINT_MAX) % 0x1_0000_0000
           else 0)
  }

  /** The accumulator depends only on the references and the bin, never on the bins before it. */
  function UpdateVolatilityAccumulator(p: StaticParameters, v: VariableParameters, activeId: int): VariableParameters {
    var delta := Abs(v.indexReference - activeId);
    v.(volatilityAccumulator := Min(v.volatilityReference + delta * BASIS_POINT_MAX, p.maxVolatilityAccumulator))
  }

  // ------------------------------------------------------------------ fees

  /** Fee on top of a net amount. */
  function ComputeFee(amount: nat, rate: nat): Checked<nat> {
    if rate >= FEE_PRECISION then Err(MathOverflow)
    else Narrow(CeilDiv(amount * rate, FEE_PRECISION - rate))
  }

  /** Fee taken from a gross amount. */
  function ComputeFeeFromAmount(gross: nat, rate: nat): Checked<nat> {
    Narrow(CeilDiv(gross * rate, FEE_PRECISION))
  }

  /** What remains of a gross amount after its fee is the same fraction rounded down. */
  lemma NetOfFee(gross: nat, rate: nat)
    requires rate <= MAX_FEE_RATE
    ensures CeilDiv(gross * rate, FEE_PRECISION) <= gross
    ensures gross - CeilDiv(gross * rate, FEE_PRECISION) == FloorDiv(gross * (FEE_PRECISION - rate), FEE_PRECISION)
  {
    var f := CeilDiv(gross * rate, FEE_PRECISION);
    MulSub(FEE_PRECISION, rate, gross);
    CeilAtMost(gross * rate, FEE_PRECISION, gross);
    FloorAtLeast(gross * (FEE_PRECISION - rate), FEE_PRECISION, gross - f);
    FloorAtLeast(gross * (FEE_PRECISION - rate), FEE_PRECISION, gross - f + 1);
    CeilBounds(gross * rate, FEE_PRECISION);
    MulSub(gross, f, FEE_PRECISION);
    MulAdd(gross - f, 1, FEE_PRECISION);
  }

  function Net(gross: nat, rate: nat): nat
    requires rate <= MAX_FEE_RATE
  {
    NetOfFee(gross, rate);
    gross - CeilDiv(gross * rate, FEE_PRECISION)
  }

  function Grossed(net: nat, rate: nat): nat
    requires rate <= MAX_FEE_RATE
  {
    net + CeilDiv(net * rate, FEE_PRECISION - rate)
  }

  /** The two fee directions are adjoint: a net amount survives a gross one's fee exactly when its
      own grossed-up price does not exceed it. */
  lemma NetIffGrossed(net: nat, gross: nat, rate: nat)
    requires rate <= MAX_FEE_RATE
    ensures net <= Net(gross, rate) <==> Grossed(net, rate) <= gross
  {
    NetOfFee(gross, rate);
    Curve.AffordFraction(net, gross, rate, FEE_PRECISION - rate);
  }

  lemma NetMono(less: nat, more: nat, rate: nat)
    requires rate <= MAX_FEE_RATE && less <= more
    ensures Net(less, rate) <= Net(more, rate) <= more
  {
    NetIffGrossed(Net(less, rate), less, rate);
    NetIffGrossed(Net(less, rate), more, rate);
  }

  // ------------------------------------------------------------------ the quote of one bin

  datatype BinQuote = BinQuote(amountIn: nat, amountOut: nat, fee: nat)

  function CheckedSub(a: nat, b: nat): Checked<nat> {
    if b <= a then Ok(a - b) else Err(MathOverflow)
  }

  function QuoteAtBin(bin: Bin, rate: nat, inAmount: nat, price: nat, forY: bool, limitOrders: bool, feeOnInput: bool)
      : Checked<BinQuote>
    requires price > 0
  {
    var offered := if feeOnInput then match ComputeFeeFromAmount(inAmount, rate)
                                      case Err(e) => Err(e)
                                      case Ok(fee) => CheckedSub(inAmount, fee)
                   else Ok(inAmount);
    match offered
    case Err(e) => Err(e)
    case Ok(net) =>
      match FillBin(bin, net, price, forY, limitOrders)
      case Err(e) => Err(e)
      case Ok(fill) =>
        var used := if fill.left > 0 then CheckedSub(net, fill.left) else Ok(net);
        match used
        case Err(e) => Err(e)
        case Ok(spent) =>
          var charged := if fill.left == 0 then Ok(inAmount)
                         else if feeOnInput then match ComputeFee(spent, rate)
                                                 case Err(e) => Err(e)
                                                 case Ok(fee) => Narrow(spent + fee)
                         else Ok(spent);
          match charged
          case Err(e) => Err(e)
          case Ok(amountIn) =>
            if feeOnInput then Ok(BinQuote(amountIn, fill.out, SatSub(amountIn, spent)))
            else match ComputeFeeFromAmount(fill.out, rate)
              case Err(e) => Err(e)
              case Ok(fee) => match CheckedSub(fill.out, fee)
                case Err(e) => Err(e)
                case Ok(paid) => Ok(BinQuote(amountIn, paid, SatSub(fill.out, paid)))
  }

  /** What a bin can be asked: a capped rate, a 64-bit input, 64-bit layers holding something. */
  ghost predicate Quotable(bin: Bin, rate: nat, amount: nat, price: nat, forY: bool, limitOrders: bool) {
    && price > 0 && rate <= MAX_FEE_RATE && 0 < amount <= U64_MAX
    && Fit(bin.Layers(forY, limitOrders)) && Sum(bin.Layers(forY, limitOrders)) > 0
  }

  /** The quote spelled out in exact arithmetic: the fill takes the net input, and what is charged
      is the whole input if the fill used it up, else the grossed-up amount the bin did use. */
  lemma QuoteMeaning(bin: Bin, rate: nat, amount: nat, price: nat, forY: bool, limitOrders: bool, feeOnInput: bool)
    requires Quotable(bin, rate, amount, price, forY, limitOrders)
    ensures var net := if feeOnInput then Net(amount, rate) else amount;
            var quote := QuoteAtBin(bin, rate, amount, price, forY, limitOrders, feeOnInput);
            var fill := FillLayers(bin.Layers(forY, limitOrders), net, price, forY);
            && (fill.Err? ==> quote == Err(fill.error))
            && (fill.Ok? ==>
                  && fill.value.amountIn + fill.value.left == net
                  && var f := fill.value;
                     if feeOnInput then
                       && (f.left > 0 ==> Grossed(f.amountIn, rate) < amount)
                       && quote == Ok(BinQuote(if f.left == 0 then amount else Grossed(f.amountIn, rate), f.out,
                                               if f.left == 0 then amount - net
                                               else Grossed(f.amountIn, rate) - f.amountIn))
                     else
                       quote == match ComputeFeeFromAmount(f.out, rate)
                                case Err(e) => Err(e)
                                case Ok(fee) => Ok(BinQuote(f.amountIn, Net(f.out, rate), f.out - Net(f.out, rate))))
  {
    hide FillBin, FillLayers;
    var net := if feeOnInput then Net(amount, rate) else amount;
    FillBinIsLayered(bin, net, price, forY, limitOrders);
    NetOfFee(amount, rate);
    var fill := FillLayers(bin.Layers(forY, limitOrders), net, price, forY);
    if fill.Ok? {
      var f := fill.value;
      LayersLaws(bin.Layers(forY, limitOrders), net, net, price, forY);
      NetOfFee(f.out, rate);
      if feeOnInput && f.left > 0 {
        NetIffGrossed(f.amountIn + 1, amount, rate);
        GrossedMono(f.amountIn, rate);
      }
    }
  }

  lemma GrossedMono(net: nat, rate: nat)
    requires rate <= MAX_FEE_RATE
    ensures Grossed(net, rate) < Grossed(net + 1, rate)
  {
    MulAdd(net, 1, rate);
    CeilMono(net * rate, (net + 1) * rate, FEE_PRECISION - rate);
  }

  /** A bin never charges more than was offered nor pays more than it holds; it is left with input
      to spare only when every layer is drained; and a smaller input is treated no better: it ends
      here no later, for no larger an output. */
  lemma QuoteLaws(bin: Bin, rate: nat, less: nat, more: nat, price: nat, forY: bool, limitOrders: bool, feeOnInput: bool)
    requires 0 < less <= more && Quotable(bin, rate, more, price, forY, limitOrders)
    requires QuoteAtBin(bin, rate, more, price, forY, limitOrders, feeOnInput).Ok?
    ensures QuoteAtBin(bin, rate, less, price, forY, limitOrders, feeOnInput).Ok?
    ensures var a := QuoteAtBin(bin, rate, less, price, forY, limitOrders, feeOnInput).value;
            var b := QuoteAtBin(bin, rate, more, price, forY, limitOrders, feeOnInput).value;
            var held := Sum(bin.Layers(forY, limitOrders));
            && 0 < b.amountIn <= more && b.amountOut + (if feeOnInput then 0 else b.fee) <= held
            && (feeOnInput ==> b.fee <= b.amountIn)
            && (b.amountIn < more ==> b.amountOut + (if feeOnInput then 0 else b.fee) == held)
            && 0 < a.amountIn <= less && a.amountOut <= b.amountOut
            && (a.amountIn < less ==> a == b)
            && (b.amountIn == more ==> a.amountIn == less)
  {
    hide QuoteAtBin, FillLayers, Grossed, Net;
    var layers := bin.Layers(forY, limitOrders);
    QuoteMeaning(bin, rate, less, price, forY, limitOrders, feeOnInput);
    QuoteMeaning(bin, rate, more, price, forY, limitOrders, feeOnInput);
    NetMono(less, more, rate);
    var netLess := if feeOnInput then Net(less, rate) else less;
    var netMore := if feeOnInput then Net(more, rate) else more;
    LayersLaws(layers, netLess, netMore, price, forY);
    var a, b := FillLayers(layers, netLess, price, forY).value, FillLayers(layers, netMore, price, forY).value;
    DrainingCosts(layers, netMore, price, forY);
    GrossedAtLeast(b.amountIn, rate);
    if !feeOnInput {
      FeeFits(a.out, b.out, rate);
      NetMono(a.out, b.out, rate);
    }
  }

  lemma GrossedAtLeast(net: nat, rate: nat)
    requires rate <= MAX_FEE_RATE
    ensures net <= Grossed(net, rate)
  {
  }

  lemma FeeFits(less: nat, more: nat, rate: nat)
    requires less <= more && ComputeFeeFromAmount(more, rate).Ok?
    ensures ComputeFeeFromAmount(less, rate).Ok?
  {
    hide CeilDiv;
    MulLe(less, more, rate);
    CeilMono(less * rate, more * rate, FEE_PRECISION);
  }

  /** Draining layers that hold something costs something. */
  lemma DrainingCosts(layers: seq<nat>, amount: nat, price: nat, forY: bool)
    requires price > 0 && Fit(layers) && FillLayers(layers, amount, price, forY).Ok? && Sum(layers) > 0
    ensures var f := FillLayers(layers, amount, price, forY).value; f.left > 0 ==> f.amountIn > 0
  {
    var k := LayersInOrder(layers, amount, price, forY);
    CostsPositive(layers, price, forY);
  }

  lemma {:induction false} CostsPositive(layers: seq<nat>, price: nat, forY: bool)
    requires price > 0
    ensures Sum(layers) > 0 ==> Costs(layers, price, forY) > 0
  {
    if layers != [] {
      CostsPositive(layers[1..], price, forY);
      WorthOfNothing(price, forY);
      WorthIffCovered(0, layers[0], price, forY);
    }
  }

  lemma WorthOfNothing(price: nat, forY: bool)
    requires price > 0
    ensures Worth(0, price, forY) == 0
  {
    if forY { FloorAtLeast(price * 0, Q64, 1); } else { FloorAtLeast(0 * Q64, price, 1); }
  }

  // ------------------------------------------------------------------ volatility costs output

  lemma RateGrowsWithVolatility(p: StaticParameters, binStep: nat, calm: nat, hot: nat)
    requires calm <= hot
    ensures TotalFeeRate(p, binStep, calm) <= TotalFeeRate(p, binStep, hot)
  {
    var low, high := calm * binStep, hot * binStep;
    MulLe(calm, hot, binStep);
    MulLe(low, high, low);
    MulLe(low, high, high);
    MulLe(low * low, high * high, p.variableFeeControl);
    CeilMono(low * low * p.variableFeeControl, high * high * p.variableFeeControl, 100_000_000_000);
  }

  lemma NetFallsWithRate(amount: nat, calm: nat, hot: nat)
    requires calm <= hot <= MAX_FEE_RATE
    ensures Net(amount, hot) <= Net(amount, calm) <= amount
  {
    MulLe(calm, hot, amount);
    CeilMono(amount * calm, amount * hot, FEE_PRECISION);
  }

  lemma GrossedGrowsWithRate(net: nat, calm: nat, hot: nat)
    requires calm <= hot <= MAX_FEE_RATE
    ensures Grossed(net, calm) <= Grossed(net, hot)
  {
    hide Net;
    var g := Grossed(net, hot);
    NetIffGrossed(net, g, hot);
    NetFallsWithRate(g, calm, hot);
    NetIffGrossed(net, g, calm);
  }

  /** At a higher fee rate a bin still answers, pays no more, and is drained only if it would be
      at the lower rate, for no smaller a charge. */
  lemma QuoteFallsWithRate(bin: Bin, calm: nat, hot: nat, amount: nat, price: nat, forY: bool, limitOrders: bool,
                           feeOnInput: bool)
    requires calm <= hot && Quotable(bin, hot, amount, price, forY, limitOrders)
    requires QuoteAtBin(bin, calm, amount, price, forY, limitOrders, feeOnInput).Ok?
    ensures QuoteAtBin(bin, hot, amount, price, forY, limitOrders, feeOnInput).Ok?
    ensures var a := QuoteAtBin(bin, hot, amount, price, forY, limitOrders, feeOnInput).value;
            var b := QuoteAtBin(bin, calm, amount, price, forY, limitOrders, feeOnInput).value;
            a.amountOut <= b.amountOut && (a.amountIn < amount ==> b.amountIn <= a.amountIn)
  {
    hide QuoteAtBin, FillLayers, Grossed, Net;
    var layers := bin.Layers(forY, limitOrders);
    QuoteMeaning(bin, hot, amount, price, forY, limitOrders, feeOnInput);
    QuoteMeaning(bin, calm, amount, price, forY, limitOrders, feeOnInput);
    NetFallsWithRate(amount, calm, hot);
    var netHot := if feeOnInput then Net(amount, hot) else amount;
    var netCalm := if feeOnInput then Net(amount, calm) else amount;
    LayersLaws(layers, netHot, netCalm, price, forY);
    var a, b := FillLayers(layers, netHot, price, forY).value, FillLayers(layers, netCalm, price, forY).value;
    if feeOnInput {
      GrossedGrowsWithRate(b.amountIn, calm, hot);
    } else {
      NetFallsWithRate(b.out, calm, hot);
      SumAtMost(layers);
      FeeFitsLayers(b.out, hot);
    }
  }

  lemma {:induction false} SumAtMost(xs: seq<nat>)
    requires Fit(xs)
    ensures Sum(xs) <= |xs| * U64_MAX
  {
    if xs != [] {
      FitTail(xs);
      SumAtMost(xs[1..]);
    }
  }

  /** At the capped rate even the fee on three full layers fits 64 bits. */
  lemma FeeFitsLayers(gross: nat, rate: nat)
    requires rate <= MAX_FEE_RATE && gross <= 3 * U64_MAX
    ensures ComputeFeeFromAmount(gross, rate).Ok?
  {
    MulLe(rate, MAX_FEE_RATE, gross);
    CeilAtMost(gross * rate, FEE_PRECISION, U64_MAX);
  }

  /** With the fee on the output the rate does not change what a bin charges, only what it pays. */
  lemma OutputFeeChargesAlike(bin: Bin, calm: nat, hot: nat, amount: nat, price: nat, forY: bool, limitOrders: bool)
    requires calm <= hot && Quotable(bin, hot, amount, price, forY, limitOrders)
    requires QuoteAtBin(bin, hot, amount, price, forY, limitOrders, false).Ok?
    ensures QuoteAtBin(bin, calm, amount, price, forY, limitOrders, false).Ok?
    ensures var a := QuoteAtBin(bin, hot, amount, price, forY, limitOrders, false).value;
            var b := QuoteAtBin(bin, calm, amount, price, forY, limitOrders, false).value;
            a.amountIn == b.amountIn && a.amountOut <= b.amountOut
  {
    hide QuoteAtBin, FillLayers, Net;
    QuoteMeaning(bin, hot, amount, price, forY, limitOrders, false);
    QuoteMeaning(bin, calm, amount, price, forY, limitOrders, false);
    var f := FillLayers(bin.Layers(forY, limitOrders), amount, price, forY).value;
    NetFallsWithRate(f.out, calm, hot);
    MulLe(calm, hot, f.out);
    CeilMono(f.out * calm, f.out * hot, FEE_PRECISION);
  }
}
