/** Fee rates away from the index bin, and whole quotes that pass from one bin into the next: with and
    without limit orders, in both directions, with the fee on either side.
 */
module DlmmExamples {
  import opened Common
  import opened Arith
  import opened DlmmBin
  import opened DlmmFees
  import opened DlmmWalk
  import opened DlmmWaiting

  // ------------------------------------------------------------------ volatility

  function VolatilityAt(p: StaticParameters, refs: VariableParameters, binId: int): nat {
    UpdateVolatilityAccumulator(p, refs, binId).volatilityAccumulator
  }

  /** At the index bin the volatility is the reference, and every bin further away, on either side,
      adds ten thousand; all of it up to the cap. */
  lemma VolatilityGrowsByBin(p: StaticParameters, refs: VariableParameters, distance: nat)
    ensures var index, cap := refs.indexReference, p.maxVolatilityAccumulator;
            && VolatilityAt(p, refs, index) == Min(refs.volatilityReference, cap)
            && VolatilityAt(p, refs, index + distance) == VolatilityAt(p, refs, index - distance)
            && VolatilityAt(p, refs, index + distance + 1)
            == Min(VolatilityAt(p, refs, index + distance) + 10_000, cap)
  {
  }

  /** The new reference is kept in 32 bits, so it wraps for a reduction of more than the whole. */
  lemma ReferenceWraps()
    ensures var p := StaticParameters(10_000, 30, 600, 20_000, 40_000, 4_294_967_295, 0, 1, 0);
            UpdateReferences(p, VariableParameters(4_294_967_295, 0, 7, 0), 3, 100)
            == VariableParameters(4_294_967_295, 4_294_967_294, 3, 0)
  {
    hide FloorDiv;
    FloorIs(4_294_967_295 * 20_000, 10_000, 8_589_934_590);
  }

  /** The rate never exceeds a tenth, which this volatile pool is charged. */
  lemma RateIsCappedAtTenth(p: StaticParameters, binStep: nat, volatility: nat)
    ensures TotalFeeRate(p, binStep, volatility) <= 100_000_000
    ensures TotalFeeRate(StaticParameters(10_000, 30, 600, 5_000, 40_000, 350_000, 0, 1, 0), 100, 350_000) == 100_000_000
  {
    hide CeilDiv;
    CeilIs(35_000_000 * 35_000_000 * 40_000, 100_000_000_000, 490_000_000);
    assert Pow10(0) == 1;
  }

  /** The base rate may carry a power of ten, and stands alone where volatility is not charged. */
  lemma BaseRateAlone()
    ensures TotalFeeRate(StaticParameters(1_250, 30, 600, 5_000, 0, 350_000, 2, 1, 0), 20, 350_000) == 25_000_000
  {
    assert Pow10(1) == 10 && Pow10(2) == 100;
  }

  // ------------------------------------------------------------------ two bins

  /** Bin 0 at price 1 holds a million, and half as much in limit orders of the side that this
      direction takes. */
  function IndexBin(forY: bool): Bin {
    if forY then Bin(0, 1_000_000, Q64, 300_000, 200_000, false) else Bin(1_000_000, 0, Q64, 300_000, 200_000, true)
  }

  /** The bin after it, 1% worse, holds plenty. */
  function PlentyBin(forY: bool): Bin {
    if forY then Bin(0, 10_000_000, 18_264_103_043_276_783_778, 0, 0, false)
    else Bin(10_000_000, 0, 18_631_211_514_446_647_132, 0, 0, false)
  }

  /** A pool of the two at a bin step of 1% and a base fee of 1%. */
  function TwoBins(forY: bool, functionType: nat, hasRewards: bool, mode: nat): Market {
    Market(
      LbPair(
        StaticParameters(10_000, 30, 600, 5_000, 40_000, 350_000, 0, functionType, mode),
        VariableParameters(0, 0, 0, 0), 3, 0, 100, 0, "X", "Y", hasRewards, {0, -1}),
      if forY then map[0 := ArrayWith(0, IndexBin(true)), -1 := ArrayWith(69, PlentyBin(true))]
      else map[0 := ArrayWith(0, IndexBin(false))[1 := PlentyBin(false)], -1 := ArrayWith(0, PlentyBin(false))],
      map[])
  }

  lemma TwoRates(forY: bool, functionType: nat, hasRewards: bool, mode: nat)
    ensures var m := TwoBins(forY, functionType, hasRewards, mode);
            && RateAt(m, References(m, 0), 0) == 10_000_000
            && RateAt(m, References(m, 0), NextBin(forY, 0)) == 10_400_000
  {
    hide FloorDiv, CeilDiv;
    CeilPositive(0, 100_000_000_000);
    CeilIs(1_000_000 * 1_000_000 * 40_000, 100_000_000_000, 400_000);
    assert Pow10(0) == 1;
  }

  /** The index bin is drained, of its orders too where they take part; the input pays 1%, or the
      output does. */
  lemma IndexBinQuotes(forY: bool, orders: bool, onInput: bool)
    ensures QuoteAtBin(IndexBin(forY), 10_000_000, 2_000_000, Q64, forY, orders, onInput)
         == Ok(if orders then
                 if onInput then BinQuote(1_515_152, 1_500_000, 15_152) else BinQuote(1_500_000, 1_485_000, 15_000)
               else if onInput then BinQuote(1_010_102, 1_000_000, 10_102)
               else BinQuote(1_000_000, 990_000, 10_000))
  {
    hide FloorDiv, CeilDiv;
    CeilIs(2_000_000 * 10_000_000, FEE_PRECISION, 20_000);
    CeilIs(1_500_000 * 10_000_000, 990_000_000, 15_152);
    CeilIs(1_000_000 * 10_000_000, 990_000_000, 10_102);
    CeilIs(1_500_000 * 10_000_000, FEE_PRECISION, 15_000);
    CeilIs(1_000_000 * 10_000_000, FEE_PRECISION, 10_000);
    CeilIs(1_000_000 * Q64, Q64, 1_000_000);
    CeilIs(200_000 * Q64, Q64, 200_000);
    CeilIs(300_000 * Q64, Q64, 300_000);
  }

  /** What is left buys at the next price, and pays 1.04%. */
  lemma PlentyBinQuotes(forY: bool, orders: bool, onInput: bool)
    ensures var left := if orders then if onInput then 484_848 else 500_000
                        else if onInput then 989_898 else 1_000_000;
            QuoteAtBin(PlentyBin(forY), 10_400_000, left, PlentyBin(forY).price, forY, orders, onInput)
            == Ok(if orders then if onInput then BinQuote(left, 475_054, 5_043) else BinQuote(left, 489_900, 5_149)
                  else if onInput then BinQuote(left, 969_903, 10_295) else BinQuote(left, 979_801, 10_298))
  {
    hide FloorDiv, CeilDiv;
    var price := PlentyBin(forY).price;
    var left := if orders then if onInput then 484_848 else 500_000 else if onInput then 989_898 else 1_000_000;
    var fee := if orders then 5_043 else 10_295;
    if onInput { CeilIs(left * 10_400_000, FEE_PRECISION, fee); }
    var net := if onInput then left - fee else left;
    var out := if orders then if onInput then 475_054 else 495_049 else if onInput then 969_903 else 990_099;
    if !onInput { CeilIs(out * 10_400_000, FEE_PRECISION, if orders then 5_149 else 10_298); }
    if forY {
      FloorIs(price * net, Q64, out);
      CeilIs(10_000_000 * Q64, price, 10_100_001);
    } else {
      FloorIs(net * Q64, price, out);
      CeilIs(price * 10_000_000, Q64, 10_100_000);
    }
  }

  /** Two million in: the second bin charges more than the first, and limit orders trade exactly on
      the pools made for them, and on pools without rewards that were made for nothing in particular. */
  lemma QuoteOverTwoBins(forY: bool, functionType: nat, hasRewards: bool, mode: nat)
    ensures var quote := DlmmQuote(TwoBins(forY, functionType, hasRewards, mode), forY, 2_000_000, 0);
            if functionType == 2 || (functionType == 0 && !hasRewards) then
              quote == Ok(if mode == 1 && forY then (1_974_900, 20_149) else (1_975_054, 20_195))
            else
              quote == Ok(if mode == 1 && forY then (1_969_801, 20_298) else (1_969_903, 20_397))
  {
    hide QuoteAtBin, RateAt, UpdateReferences;
    var m := TwoBins(forY, functionType, hasRewards, mode);
    TwoRates(forY, functionType, hasRewards, mode);
    IndexBinQuotes(forY, m.pair.SupportsLimitOrders(), m.pair.FeeOnInput(forY));
    PlentyBinQuotes(forY, m.pair.SupportsLimitOrders(), m.pair.FeeOnInput(forY));
  }
}
