/** What the decay of volatility does to a quote: a later quote charges lower fee rates, and is no
    worse where there is one. Whether there is one depends on the side the fee is taken from.
 */
module DlmmWaiting {
  import opened Common
  import opened Arith
  import opened DlmmBin
  import opened DlmmFees
  import opened DlmmWalk
  import opened DlmmProperties

  /** Two moments past the filter period, and a market in range. */
  ghost predicate Decays(m: Market, now: int, later: int) {
    && WellFormed(m) && AmountsFit(m) && now <= later
    && now - m.pair.vParameters.lastUpdateTimestamp >= m.pair.parameters.filterPeriod
    && m.pair.parameters.filterPeriod <= 0xFFFF  // a 16-bit field
  }

  function References(m: Market, now: int): VariableParameters {
    UpdateReferences(m.pair.parameters, m.pair.vParameters, m.pair.activeId, now)
  }

  lemma LaterIsCalmer(m: Market, now: int, later: int)
    requires Decays(m, now, later)
    ensures Hotter(m, References(m, now), References(m, later))
  {
    VolatilityIsHot(m, References(m, now), References(m, later));
  }

  /** A size that is quoted later is, now, quoted for no more, or comes to nothing. */
  lemma LaterQuoteIsNoWorse(m: Market, forY: bool, amountIn: nat, now: int, later: int)
    requires Decays(m, now, later) && amountIn <= U64_MAX
    requires DlmmQuote(m, forY, amountIn, later).Ok?
    ensures var a := DlmmQuote(m, forY, amountIn, now);
            a == Err(NoFill) || (a.Ok? && a.value.0 <= DlmmQuote(m, forY, amountIn, later).value.0)
  {
    hide BitmapWalk, UpdateReferences, Hotter;
    LaterIsCalmer(m, now, later);
    var start := Totals(amountIn, 0, 0);
    WalkHotter(m, References(m, now), References(m, later), forY, m.pair.activeId, start, start);
  }

  /** A size that is quoted now is, later, quoted for no less, or is too big, or overflows. */
  lemma QuoteIsKeptOrTooBig(m: Market, forY: bool, amountIn: nat, now: int, later: int)
    requires Decays(m, now, later) && amountIn <= U64_MAX
    requires DlmmQuote(m, forY, amountIn, now).Ok?
    ensures var b := DlmmQuote(m, forY, amountIn, later);
            if b.Ok? then DlmmQuote(m, forY, amountIn, now).value.0 <= b.value.0
            else b.error.IsCapacity() || b.error == MathOverflow
  {
    hide BitmapWalk, UpdateReferences, Hotter;
    LaterIsCalmer(m, now, later);
    var start := Totals(amountIn, 0, 0);
    WalkErrors(m, References(m, later), forY, m.pair.activeId, start);
    if BitmapWalk(m, References(m, later), forY, m.pair.activeId, start).Ok? {
      WalkHotter(m, References(m, now), References(m, later), forY, m.pair.activeId, start, start);
    }
  }

  // ------------------------------------------------------------------ fee on the output

  /** What the loaded bins from `binId` on can pay out in all. */
  function HeldFrom(m: Market, forY: bool, binId: int): nat
    requires WellFormed(m)
    decreases BinsAhead(forY, binId)
  {
    var arr := ArrayOf(binId);
    if !InBitmapRange(arr) then 0
    else
      InRangeIsAhead(forY, binId);
      (if arr in m.arrays then Held(m, forY, BinAt(m, arr, binId)) else 0) + HeldFrom(m, forY, NextBin(forY, binId))
  }

  /** They hold no more of a token than there can be of it. */
  ghost predicate HeldFits(m: Market, forY: bool)
    requires WellFormed(m)
  {
    HeldFrom(m, forY, m.pair.activeId) <= U64_MAX
  }

  lemma {:induction false} HeldFurtherOn(m: Market, forY: bool, binId: int, at: int)
    requires WellFormed(m) && InBitmapRange(ArrayOf(binId)) && InBitmapRange(ArrayOf(at))
    requires if forY then at <= binId else binId <= at
    ensures HeldFrom(m, forY, at) <= HeldFrom(m, forY, binId)
    decreases if forY then binId - at else at - binId
  {
    hide Held, BinAt;
    if at != binId {
      HeldFurtherOn(m, forY, NextBin(forY, binId), at);
    }
  }

  lemma VisitChargesAlike(m: Market, hot: VariableParameters, calm: VariableParameters, forY: bool, binId: int, bin: Bin,
                          left: nat)
    requires WellFormed(m) && BinFits(bin) && 0 < left <= U64_MAX && Hotter(m, hot, calm) && !m.pair.FeeOnInput(forY)
    requires VisitBin(m, hot, forY, binId, bin, left).Ok?
    ensures VisitBin(m, calm, forY, binId, bin, left).Ok?
    ensures var a := VisitBin(m, hot, forY, binId, bin, left).value;
            var b := VisitBin(m, calm, forY, binId, bin, left).value;
            a.amountIn == b.amountIn && a.amountOut <= b.amountOut && FairVisit(m, forY, bin, left, b)
  {
    hide QuoteAtBin, RateAt;
    var limits := m.pair.SupportsLimitOrders();
    LayersOfBin(bin, forY, limits);
    assert RateAt(m, calm, binId) <= RateAt(m, hot, binId);
    if HasLiquidity(m, forY, bin) {
      RateIsCapped(m, hot, binId);
      OutputFeeChargesAlike(bin, RateAt(m, calm, binId), RateAt(m, hot, binId), left,
                            PriceOf(m, binId, bin).value, forY, limits);
    }
    VisitLaws(m, calm, forY, binId, bin, left, left);
  }

  /** With the fee on the output a calmer walk visits the same bins, with the same charges; only the
      sum of what they pay can stop it. */
  lemma {:induction false} WalkKept(m: Market, hot: VariableParameters, calm: VariableParameters, forY: bool, binId: int,
                                    s: Totals, t: Totals)
    requires WellFormed(m) && AmountsFit(m) && Hotter(m, hot, calm) && !m.pair.FeeOnInput(forY)
    requires s.left == t.left <= U64_MAX && s.out <= t.out
    requires BitmapWalk(m, hot, forY, binId, s).Ok?
    ensures var r := BitmapWalk(m, calm, forY, binId, t);
            if r.Ok? then BitmapWalk(m, hot, forY, binId, s).value.out <= r.value.out
            else r.error == MathOverflow && t.out + HeldFrom(m, forY, binId) > U64_MAX
    decreases BinsAhead(forY, binId)
  {
    hide VisitBin, BinAt, Hotter, NearestSet, EnterAt, ArrayOf, NextBin, BinsAhead, Held;
    if s.left > 0 {
      var arr := NearestSet(m.pair.bitmap, forY, ArrayOf(binId)).value;
      NearestInRange(m.pair.bitmap, forY, ArrayOf(binId));
      EnterInside(forY, binId, arr);
      var at := EnterAt(forY, binId, arr);
      var bin := BinAt(m, arr, at);
      VisitChargesAlike(m, hot, calm, forY, at, bin, s.left);
      HeldFurtherOn(m, forY, binId, at);
      VisitAdvances(forY, binId, arr);
      var s' := Settle(s, VisitBin(m, hot, forY, at, bin, s.left)).value;
      var settled := Settle(t, VisitBin(m, calm, forY, at, bin, t.left));
      if s'.left > 0 && settled.Ok? {
        WalkKept(m, hot, calm, forY, NextBin(forY, at), s', settled.value);
      }
    }
  }

  lemma NearestInRange(bitmap: set<int>, forY: bool, start: int)
    requires NearestSet(bitmap, forY, start).Some?
    ensures InBitmapRange(start)
  {
  }

  /** With the fee on the output a quote is kept, for no less, unless its total overflows, which it
      cannot where the loaded bins hold no more of a token than there can be of it. */
  lemma OutputFeeKeepsQuotes(m: Market, forY: bool, amountIn: nat, now: int, later: int)
    requires Decays(m, now, later) && amountIn <= U64_MAX && !m.pair.FeeOnInput(forY)
    requires DlmmQuote(m, forY, amountIn, now).Ok?
    ensures var b := DlmmQuote(m, forY, amountIn, later);
            if b.Ok? then DlmmQuote(m, forY, amountIn, now).value.0 <= b.value.0
            else b.error == MathOverflow && !HeldFits(m, forY)
  {
    hide BitmapWalk, UpdateReferences, Hotter, HeldFrom;
    LaterIsCalmer(m, now, later);
    var start := Totals(amountIn, 0, 0);
    WalkKept(m, References(m, now), References(m, later), forY, m.pair.activeId, start, start);
  }

  // ------------------------------------------------------------------ fee on the input

  /** A bin array in which one bin holds something. */
  function ArrayWith(at: nat, bin: Bin): (bins: seq<Bin>)
    requires at < MAX_BIN_PER_ARRAY
    ensures |bins| == MAX_BIN_PER_ARRAY
  {
    seq(MAX_BIN_PER_ARRAY, i => if i == at then bin else Bin(0, 0, 0, 0, 0, false))
  }

  /** Price of bin -1 at a bin step of ten basis points. */
  const PRICE_BELOW: nat := 18_428_315_757_951_600_016

  /** A bin with 9958 to give: bin 0 gives token Y, bin -1 below it token X. */
  function ThinBin(forY: bool): Bin {
    if forY then Bin(0, 9_958, Q64, 0, 0, false) else Bin(9_958, 0, PRICE_BELOW, 0, 0, false)
  }

  /** Its id, which is also the index of its array. */
  function ThinBinId(forY: bool): int {
    if forY then 0 else -1
  }

  /** A market just after a trade, at a base fee of 0.1%: that bin is the active one, its array is
      loaded, and the next one in swap order is initialized but not loaded. */
  function BusyMarket(mode: nat, forY: bool): Market {
    Market(
      LbPair(
        StaticParameters(10_000, 30, 600, 5_000, 40_000, 350_000, 0, 1, mode),
        VariableParameters(300_000, 300_000, ThinBinId(forY) - 2, 0),
        3, ThinBinId(forY), 10, 0, "X", "Y", false, {0, -1}),
      map[ThinBinId(forY) := ArrayWith(if forY then 0 else 69, ThinBin(forY))],
      map[])
  }

  /** A size the bin takes whole at the higher fee rate and not at the lower one. */
  function TightSize(forY: bool): nat {
    if forY then 9_970 else 9_960
  }

  lemma BusyMarketIsReal(mode: nat, forY: bool)
    ensures Decays(BusyMarket(mode, forY), 30, 600) && HeldFits(BusyMarket(mode, forY), forY)
  {
    var m := BusyMarket(mode, forY);
    forall arr, at {:trigger BinAt(m, arr, at)} | arr in m.arrays && ArrayOf(at) == arr
      ensures BinFits(BinAt(m, arr, at))
      ensures Held(m, forY, BinAt(m, arr, at)) == if at == ThinBinId(forY) then 9_958 else 0
    {
      OnlyThisBin(mode, forY, at);
    }
    OneBinHolds(m, forY, m.pair.activeId, ThinBinId(forY));
  }

  lemma OnlyThisBin(mode: nat, forY: bool, at: int)
    requires ArrayOf(at) == ThinBinId(forY)
    ensures var m := BusyMarket(mode, forY);
            var bin := BinAt(m, ThinBinId(forY), at);
            BinFits(bin) && Held(m, forY, bin) == if at == ThinBinId(forY) then 9_958 else 0
  {
    var m := BusyMarket(mode, forY);
    assert at == 70 * ThinBinId(forY) + at % MAX_BIN_PER_ARRAY;
    var bin := BinAt(m, ThinBinId(forY), at);
    assert bin == if at == ThinBinId(forY) then ThinBin(forY) else Bin(0, 0, 0, 0, 0, false);
    var layers := bin.Layers(forY, false);
    assert layers[1..] == [] && Sum(layers) == layers[0] + Sum(layers[1..]);
  }

  /** What is held is what the one bin holds. */
  lemma {:induction false} OneBinHolds(m: Market, forY: bool, binId: int, only: int)
    requires WellFormed(m)
    requires forall arr, at {:trigger BinAt(m, arr, at)} ::
               arr in m.arrays && ArrayOf(at) == arr && Held(m, forY, BinAt(m, arr, at)) > 0 ==> at == only
    ensures HeldFrom(m, forY, binId)
         <= if ArrayOf(only) in m.arrays && (if forY then only <= binId else binId <= only)
            then Held(m, forY, BinAt(m, ArrayOf(only), only)) else 0
    decreases BinsAhead(forY, binId)
  {
    hide Held, BinAt;
    if InBitmapRange(ArrayOf(binId)) {
      InRangeIsAhead(forY, binId);
      OneBinHolds(m, forY, NextBin(forY, binId), only);
    }
  }

  /** Until the filter period is over nothing is updated, and the rate is that of two bins from the old
      index; then the index is the active bin, and half the volatility is left until all is gone. */
  lemma BusyRates(mode: nat, forY: bool)
    ensures var m := BusyMarket(mode, forY);
            && RateAt(m, References(m, 29), ThinBinId(forY)) == 5_096_000
            && RateAt(m, References(m, 30), ThinBinId(forY)) == 1_900_000
            && RateAt(m, References(m, 600), ThinBinId(forY)) == 1_000_000
  {
    hide FloorDiv, CeilDiv;
    FloorIs(300_000 * 5_000, BASIS_POINT_MAX, 150_000);
    CeilIs(1_500_000 * 1_500_000 * 40_000, 100_000_000_000, 900_000);
    CeilIs(3_200_000 * 3_200_000 * 40_000, 100_000_000_000, 4_096_000);
    CeilPositive(0, 100_000_000_000);
    assert Pow10(0) == 1;
  }

  /** At the higher rate the bin is not drained; at the lower rate it is, and something is left. */
  lemma ThinBinQuotes(forY: bool)
    ensures var bin, size := ThinBin(forY), TightSize(forY);
            && QuoteAtBin(bin, 1_900_000, size, bin.price, forY, false, true)
            == Ok(BinQuote(size, if forY then 9_951 else 9_950, 19))
            && QuoteAtBin(bin, 1_000_000, size, bin.price, forY, false, true)
            == Ok(BinQuote(if forY then 9_968 else 9_959, 9_958, 10))
  {
    hide FloorDiv, CeilDiv;
    var size, cost := TightSize(forY), if forY then 9_958 else 9_949;
    CeilIs(size * 1_900_000, FEE_PRECISION, 19);
    CeilIs(size * 1_000_000, FEE_PRECISION, 10);
    CeilIs(cost * 1_000_000, 999_000_000, 10);
    if forY {
      CeilIs(9_958 * Q64, Q64, 9_958);
      FloorIs(Q64 * 9_951, Q64, 9_951);
    } else {
      CeilIs(PRICE_BELOW * 9_958, Q64, 9_949);
      FloorIs(9_941 * Q64, PRICE_BELOW, 9_950);
    }
  }

  /** With the fee on the input a quote can be lost to a lower fee. */
  lemma InputFeeLosesAQuote(mode: nat, forY: bool)
    requires mode == 1 ==> !forY
    ensures var m := BusyMarket(mode, forY);
            && Decays(m, 30, 600) && HeldFits(m, forY)
            && DlmmQuote(m, forY, TightSize(forY), 30) == Ok((if forY then 9_951 else 9_950, 19))
            && DlmmQuote(m, forY, TightSize(forY), 600)
            == Err(InsufficientBinCoverage(if forY then -1 else 0))
  {
    hide QuoteAtBin, RateAt, UpdateReferences, HeldFrom;
    BusyMarketIsReal(mode, forY);
    BusyRates(mode, forY);
    ThinBinQuotes(forY);
  }

  /** Waiting keeps the quotes of a fee mode in a direction. */
  ghost predicate KeepsQuotes(mode: nat, forY: bool) {
    forall m: Market, amountIn: nat, now, later ::
      && m.pair.parameters.collectFeeMode == mode && Decays(m, now, later) && HeldFits(m, forY)
      && amountIn <= U64_MAX && DlmmQuote(m, forY, amountIn, now).Ok?
      ==> DlmmQuote(m, forY, amountIn, later).Ok?
  }

  /** A size quoted now is sure to be quoted later exactly in the one mode and direction whose fee
      is on the output. */
  lemma LaterIsKeptIff(mode: nat, forY: bool)
    ensures KeepsQuotes(mode, forY) <==> mode == 1 && forY
  {
    hide DlmmQuote, AmountsFit, HeldFits;
    if mode == 1 && forY {
      forall m: Market, amountIn: nat, now, later
        | && m.pair.parameters.collectFeeMode == mode && Decays(m, now, later) && HeldFits(m, forY)
          && amountIn <= U64_MAX && DlmmQuote(m, forY, amountIn, now).Ok?
        ensures DlmmQuote(m, forY, amountIn, later).Ok?
      {
        OutputFeeKeepsQuotes(m, forY, amountIn, now, later);
      }
    } else {
      InputFeeLosesAQuote(mode, forY);
      assert !KeepsQuotes(mode, forY);
    }
  }
}
