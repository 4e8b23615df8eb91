/** What DLMM quotes guarantee: jumping over empty arrays changes nothing, the input is conserved
    bin by bin, quotes are monotone in the input, and loading more arrays never changes a quote.
 */
module DlmmProperties {
  import opened Common
  import opened Arith
  import opened DlmmBin
  import opened DlmmFees
  import opened DlmmWalk

  // ------------------------------------------------------------------ bitmap refinement

  /** The plain walk: every bin id in turn, with no bitmap search and no jumps. A bin whose array
      is neither loaded nor flagged holds nothing. */
  function NaiveWalk(m: Market, refs: VariableParameters, forY: bool, binId: int, t: Totals): Checked<Totals>
    requires WellFormed(m)
    decreases BinsAhead(forY, binId)
  {
    var arr := ArrayOf(binId);
    if t.left == 0 then Ok(t)
    else if !InBitmapRange(arr) then Err(ExhaustedLiquidity)
    else if arr !in m.arrays && arr in m.pair.bitmap then Err(InsufficientBinCoverage(arr))
    else
      var settled := if arr in m.arrays then Settle(t, VisitBin(m, refs, forY, binId, BinAt(m, arr, binId), t.left))
                     else Ok(t);
      match settled
      case Err(e) => Err(e)
      case Ok(t') =>
        if t'.left == 0 then Ok(t')
        else if !ValidId(NextBin(forY, binId)) then Err(ExhaustedLiquidity)
        else NaiveWalk(m, refs, forY, NextBin(forY, binId), t')
  }

  /** A clear bit means what it says: the array's bins hold nothing in this direction (and can be
      priced, so that looking at them raises no error either). */
  ghost predicate BitmapFaithful(m: Market, forY: bool)
    requires WellFormed(m)
  {
    forall arr, binId :: arr in m.arrays && arr !in m.pair.bitmap && ArrayOf(binId) == arr ==>
      !HasLiquidity(m, forY, BinAt(m, arr, binId)) && PriceOf(m, binId, BinAt(m, arr, binId)).Ok?
  }

  /** From a bin of an array with a clear bit, the bitmap walk may as well start at the neighbour. */
  lemma SkipOne(m: Market, refs: VariableParameters, forY: bool, binId: int, t: Totals)
    requires WellFormed(m) && t.left > 0
    requires InBitmapRange(ArrayOf(binId)) && ArrayOf(binId) !in m.pair.bitmap
    ensures BitmapWalk(m, refs, forY, binId, t) == BitmapWalk(m, refs, forY, NextBin(forY, binId), t)
  {
    hide VisitBin, Settle, BinAt;
    var here, there := ArrayOf(binId), ArrayOf(NextBin(forY, binId));
    assert there == here || there == if forY then here - 1 else here + 1;
    var found := NearestSet(m.pair.bitmap, forY, here);
    assert NearestSet(m.pair.bitmap, forY, there) == found;
    if found.Some? {
      EnterInside(forY, binId, found.value);
      EnterInside(forY, NextBin(forY, binId), found.value);
      assert EnterAt(forY, binId, found.value) == EnterAt(forY, NextBin(forY, binId), found.value);
    }
  }

  /** The bitmap walk and the plain walk give the same totals or the same error, for every input,
      active bin and direction. */
  lemma {:induction false} BitmapWalkIsNaive(m: Market, refs: VariableParameters, forY: bool, binId: int, t: Totals)
    requires WellFormed(m) && BitmapFaithful(m, forY)
    ensures BitmapWalk(m, refs, forY, binId, t) == NaiveWalk(m, refs, forY, binId, t)
    decreases BinsAhead(forY, binId)
  {
    hide QuoteAtBin, BinAt;
    var arr := ArrayOf(binId);
    if t.left > 0 && InBitmapRange(arr) {
      InRangeIsAhead(forY, binId);
      if arr in m.pair.bitmap {
        if arr in m.arrays {
          var settled := Settle(t, VisitBin(m, refs, forY, binId, BinAt(m, arr, binId), t.left));
          if settled.Ok? && settled.value.left > 0 && ValidId(NextBin(forY, binId)) {
            BitmapWalkIsNaive(m, refs, forY, NextBin(forY, binId), settled.value);
          }
        }
      } else {
        SkipOne(m, refs, forY, binId, t);
        BitmapWalkIsNaive(m, refs, forY, NextBin(forY, binId), t);
        if arr in m.arrays {
          assert VisitBin(m, refs, forY, binId, BinAt(m, arr, binId), t.left) == Ok(BinQuote(0, 0, 0));
        }
      }
    }
  }

  /** So a quote is the quote of the plain walk: same output, same fee, same error. */
  lemma QuoteIsNaive(m: Market, forY: bool, amountIn: nat, now: int)
    requires WellFormed(m) && BitmapFaithful(m, forY) && amountIn > 0 && Supported(m.pair)
    ensures var refs := UpdateReferences(m.pair.parameters, m.pair.vParameters, m.pair.activeId, now);
            DlmmQuote(m, forY, amountIn, now)
            == Conclude(NaiveWalk(m, refs, forY, m.pair.activeId, Totals(amountIn, 0, 0)))
  {
    var refs := UpdateReferences(m.pair.parameters, m.pair.vParameters, m.pair.activeId, now);
    BitmapWalkIsNaive(m, refs, forY, m.pair.activeId, Totals(amountIn, 0, 0));
  }

  /** The bitmap search finds the nearest array with its bit set, among the 1024 the bitmap has bits
      for, and nothing exactly where there is none or it starts outside them. */
  lemma {:induction false} NearestSetIsNearest(bitmap: set<int>, forY: bool, start: int)
    ensures match NearestSet(bitmap, forY, start)
            case Some(arr) =>
              && -512 <= start <= 511 && OnTheWay(bitmap, forY, start, arr)
              && forall other :: OnTheWay(bitmap, forY, start, other) ==> if forY then other <= arr else arr <= other
            case None =>
              -512 <= start <= 511 ==> forall other :: !OnTheWay(bitmap, forY, start, other)
    decreases if forY then Max(0, start + 513) else Max(0, 512 - start)
  {
    if InBitmapRange(start) && start !in bitmap {
      var next := if forY then start - 1 else start + 1;
      NearestSetIsNearest(bitmap, forY, next);
      assert forall other :: OnTheWay(bitmap, forY, start, other) <==> OnTheWay(bitmap, forY, next, other);
    }
  }

  predicate OnTheWay(bitmap: set<int>, forY: bool, start: int, arr: int) {
    arr in bitmap && -512 <= arr <= 511 && if forY then arr <= start else start <= arr
  }

  // ------------------------------------------------------------------ one visit

  /** Bin amounts are 64-bit. */
  ghost predicate AmountsFit(m: Market)
    requires WellFormed(m)
  {
    forall arr, binId {:trigger BinAt(m, arr, binId)} :: arr in m.arrays && ArrayOf(binId) == arr ==>
      BinFits(BinAt(m, arr, binId))
  }

  ghost predicate BinFits(b: Bin) {
    b.amountX <= U64_MAX && b.amountY <= U64_MAX && b.openOrder <= U64_MAX && b.processedOrder <= U64_MAX
  }

  /** Everything a bin can pay out in this direction. */
  function Held(m: Market, forY: bool, bin: Bin): nat {
    Sum(bin.Layers(forY, m.pair.SupportsLimitOrders()))
  }

  lemma LayersOfBin(bin: Bin, forY: bool, limitOrders: bool)
    requires BinFits(bin)
    ensures Fit(bin.Layers(forY, limitOrders))
    ensures bin.MaxAmountOut(forY, limitOrders) > 0 <==> Sum(bin.Layers(forY, limitOrders)) > 0
  {
    var layers := bin.Layers(forY, limitOrders);
    if limitOrders {
      var two, one := layers[1..], layers[2..];
      assert two[1..] == one && one[1..] == [] && Sum(one[1..]) == 0;
      assert Sum(one) == layers[2];
      assert Sum(two) == layers[1] + Sum(one);
      assert Sum(layers) == layers[0] + Sum(two);
    } else {
      assert layers[1..] == [];
    }
  }

  /** What an accepted visit of a bin did with the input it was offered. */
  ghost predicate FairVisit(m: Market, forY: bool, bin: Bin, offered: nat, q: BinQuote) {
    var fees := m.pair.FeeOnInput(forY);
    if Held(m, forY, bin) == 0 then q == BinQuote(0, 0, 0)
    else
      && 0 < q.amountIn <= offered
      && q.amountOut + (if fees then 0 else q.fee) <= Held(m, forY, bin)
      && (fees ==> q.fee <= q.amountIn)
      && (q.amountIn < offered ==> q.amountOut + (if fees then 0 else q.fee) == Held(m, forY, bin))
  }

  lemma VisitLaws(m: Market, refs: VariableParameters, forY: bool, binId: int, bin: Bin, less: nat, more: nat)
    requires WellFormed(m) && BinFits(bin) && 0 < less <= more <= U64_MAX
    requires VisitBin(m, refs, forY, binId, bin, more).Ok?
    ensures VisitBin(m, refs, forY, binId, bin, less).Ok?
    ensures var a := VisitBin(m, refs, forY, binId, bin, less).value;
            var b := VisitBin(m, refs, forY, binId, bin, more).value;
            && FairVisit(m, forY, bin, less, a) && FairVisit(m, forY, bin, more, b)
            && a.amountOut <= b.amountOut
            && (a.amountIn < less ==> a == b)
            && (b.amountIn == more ==> a.amountIn == less)
  {
    hide QuoteAtBin, TotalFeeRate;
    var limits := m.pair.SupportsLimitOrders();
    LayersOfBin(bin, forY, limits);
    if HasLiquidity(m, forY, bin) {
      var price := PriceOf(m, binId, bin).value;
      QuoteLaws(bin, RateAt(m, refs, binId), less, more, price, forY, limits, m.pair.FeeOnInput(forY));
      QuoteLaws(bin, RateAt(m, refs, binId), less, less, price, forY, limits, m.pair.FeeOnInput(forY));
    }
  }

  // ------------------------------------------------------------------ monotonicity

  lemma {:induction false} OutputGrows(m: Market, refs: VariableParameters, forY: bool, binId: int, t: Totals)
    requires WellFormed(m) && BitmapWalk(m, refs, forY, binId, t).Ok?
    ensures t.out <= BitmapWalk(m, refs, forY, binId, t).value.out
    decreases BinsAhead(forY, binId)
  {
    hide VisitBin, BinAt;
    if t.left > 0 {
      var arr := NearestSet(m.pair.bitmap, forY, ArrayOf(binId)).value;
      EnterInside(forY, binId, arr);
      var at := EnterAt(forY, binId, arr);
      var t' := Settle(t, VisitBin(m, refs, forY, at, BinAt(m, arr, at), t.left)).value;
      if t'.left > 0 {
        InRangeIsAhead(forY, at);
        OutputGrows(m, refs, forY, NextBin(forY, at), t');
      }
    }
  }

  /** The output is a 64-bit total. */
  lemma {:induction false} OutputFits(m: Market, refs: VariableParameters, forY: bool, binId: int, t: Totals)
    requires WellFormed(m) && t.out <= U64_MAX && BitmapWalk(m, refs, forY, binId, t).Ok?
    ensures BitmapWalk(m, refs, forY, binId, t).value.out <= U64_MAX
    decreases BinsAhead(forY, binId)
  {
    hide VisitBin, BinAt;
    if t.left > 0 {
      var arr := NearestSet(m.pair.bitmap, forY, ArrayOf(binId)).value;
      EnterInside(forY, binId, arr);
      var at := EnterAt(forY, binId, arr);
      var t' := Settle(t, VisitBin(m, refs, forY, at, BinAt(m, arr, at), t.left)).value;
      if t'.left > 0 {
        InRangeIsAhead(forY, at);
        OutputFits(m, refs, forY, NextBin(forY, at), t');
      }
    }
  }

  lemma QuoteFits(m: Market, forY: bool, amountIn: nat, now: int)
    requires WellFormed(m) && DlmmQuote(m, forY, amountIn, now).Ok?
    ensures DlmmQuote(m, forY, amountIn, now).value.0 <= U64_MAX
  {
    hide BitmapWalk, UpdateReferences;
    var refs := UpdateReferences(m.pair.parameters, m.pair.vParameters, m.pair.activeId, now);
    OutputFits(m, refs, forY, m.pair.activeId, Totals(amountIn, 0, 0));
  }

  /** Bin by bin, the first references never charge a lower fee rate than the second. */
  ghost predicate Hotter(m: Market, hot: VariableParameters, calm: VariableParameters) {
    forall binId :: RateAt(m, calm, binId) <= RateAt(m, hot, binId)
  }

  /** A visit with less input, or at a higher rate, gets no more, and goes on only with less. */
  lemma VisitHotter(m: Market, hot: VariableParameters, calm: VariableParameters, forY: bool, binId: int, bin: Bin,
                    less: nat, more: nat)
    requires WellFormed(m) && BinFits(bin) && 0 < less <= more <= U64_MAX && Hotter(m, hot, calm)
    requires VisitBin(m, calm, forY, binId, bin, more).Ok?
    ensures VisitBin(m, hot, forY, binId, bin, less).Ok?
    ensures var a := VisitBin(m, hot, forY, binId, bin, less).value;
            var b := VisitBin(m, calm, forY, binId, bin, more).value;
            && FairVisit(m, forY, bin, less, a) && FairVisit(m, forY, bin, more, b)
            && a.amountOut <= b.amountOut && (a.amountIn < less ==> b.amountIn <= a.amountIn)
  {
    hide QuoteAtBin, RateAt;
    var limits := m.pair.SupportsLimitOrders();
    LayersOfBin(bin, forY, limits);
    VisitLaws(m, calm, forY, binId, bin, less, more);
    assert RateAt(m, calm, binId) <= RateAt(m, hot, binId);
    if HasLiquidity(m, forY, bin) {
      var price := PriceOf(m, binId, bin).value;
      RateIsCapped(m, hot, binId);
      QuoteFallsWithRate(bin, RateAt(m, calm, binId), RateAt(m, hot, binId), less, price, forY, limits,
                         m.pair.FeeOnInput(forY));
      VisitLaws(m, hot, forY, binId, bin, less, less);
    }
  }

  lemma RateIsCapped(m: Market, refs: VariableParameters, binId: int)
    ensures RateAt(m, refs, binId) <= MAX_FEE_RATE
  {
  }

  /** A smaller input, and a higher fee rate at every bin, visit no more bins and end with no more
      out. */
  lemma {:induction false} WalkHotter(m: Market, hot: VariableParameters, calm: VariableParameters, forY: bool, binId: int,
                                      less: Totals, more: Totals)
    requires WellFormed(m) && AmountsFit(m) && Hotter(m, hot, calm)
    requires less.left <= more.left <= U64_MAX && less.out <= more.out
    requires BitmapWalk(m, calm, forY, binId, more).Ok?
    ensures var a := BitmapWalk(m, hot, forY, binId, less);
            a.Ok? && a.value.out <= BitmapWalk(m, calm, forY, binId, more).value.out
    decreases BinsAhead(forY, binId)
  {
    hide VisitBin, BinAt, Hotter, NearestSet, EnterAt, ArrayOf, NextBin, BinsAhead;
    OutputGrows(m, calm, forY, binId, more);
    if less.left > 0 {
      var arr := NearestSet(m.pair.bitmap, forY, ArrayOf(binId)).value;
      EnterInside(forY, binId, arr);
      var at := EnterAt(forY, binId, arr);
      var bin := BinAt(m, arr, at);
      VisitHotter(m, hot, calm, forY, at, bin, less.left, more.left);
      var a := VisitBin(m, hot, forY, at, bin, less.left).value;
      var b := VisitBin(m, calm, forY, at, bin, more.left).value;
      var less', more' := Settle(less, Ok(a)).value, Settle(more, Ok(b)).value;
      VisitAdvances(forY, binId, arr);
      if less'.left > 0 {
        WalkHotter(m, hot, calm, forY, NextBin(forY, at), less', more');
      } else if more'.left > 0 {
        OutputGrows(m, calm, forY, NextBin(forY, at), more');
      }
    }
  }

  /** At the same references: a smaller remaining input ends with no more out. */
  lemma WalkMono(m: Market, refs: VariableParameters, forY: bool, binId: int, less: Totals, more: Totals)
    requires WellFormed(m) && AmountsFit(m)
    requires less.left <= more.left <= U64_MAX && less.out <= more.out
    requires BitmapWalk(m, refs, forY, binId, more).Ok?
    ensures var a := BitmapWalk(m, refs, forY, binId, less);
            a.Ok? && a.value.out <= BitmapWalk(m, refs, forY, binId, more).value.out
  {
    WalkHotter(m, refs, refs, forY, binId, less, more);
  }

  /** Around the same index, more volatility means a higher rate at every bin. */
  lemma VolatilityIsHot(m: Market, hot: VariableParameters, calm: VariableParameters)
    requires calm.indexReference == hot.indexReference && calm.volatilityReference <= hot.volatilityReference
    ensures Hotter(m, hot, calm)
  {
    hide TotalFeeRate;
    forall binId ensures RateAt(m, calm, binId) <= RateAt(m, hot, binId) {
      RateGrowsWithVolatility(m.pair.parameters, m.pair.binStep,
                              UpdateVolatilityAccumulator(m.pair.parameters, calm, binId).volatilityAccumulator,
                              UpdateVolatilityAccumulator(m.pair.parameters, hot, binId).volatilityAccumulator);
    }
  }

  /** If a size is quoted, every smaller positive one is quoted for no larger an output, or comes
      to nothing. */
  lemma QuoteMono(m: Market, forY: bool, less: nat, more: nat, now: int)
    requires WellFormed(m) && AmountsFit(m) && less <= more <= U64_MAX
    requires DlmmQuote(m, forY, more, now).Ok?
    ensures var a := DlmmQuote(m, forY, less, now);
            a == Err(NoFill) || (a.Ok? && a.value.0 <= DlmmQuote(m, forY, more, now).value.0)
  {
    hide BitmapWalk, UpdateReferences;
    if less > 0 {
      var refs := UpdateReferences(m.pair.parameters, m.pair.vParameters, m.pair.activeId, now);
      WalkMono(m, refs, forY, m.pair.activeId, Totals(less, 0, 0), Totals(more, 0, 0));
    }
  }

  /** Between two sizes that are quoted every size is quoted, for an output in between. */
  lemma QuoteBetween(m: Market, forY: bool, low: nat, size: nat, high: nat, now: int)
    requires WellFormed(m) && AmountsFit(m) && low <= size <= high <= U64_MAX
    requires DlmmQuote(m, forY, low, now).Ok? && DlmmQuote(m, forY, high, now).Ok?
    ensures var q := DlmmQuote(m, forY, size, now);
            q.Ok? && DlmmQuote(m, forY, low, now).value.0 <= q.value.0 <= DlmmQuote(m, forY, high, now).value.0
  {
    hide BitmapWalk, UpdateReferences;
    var refs := UpdateReferences(m.pair.parameters, m.pair.vParameters, m.pair.activeId, now);
    WalkMono(m, refs, forY, m.pair.activeId, Totals(size, 0, 0), Totals(high, 0, 0));
    WalkMono(m, refs, forY, m.pair.activeId, Totals(low, 0, 0), Totals(size, 0, 0));
  }

  /** A capacity error means too big: no larger size is ever quoted. */
  lemma CapacityIsUpwardClosed(m: Market, forY: bool, less: nat, more: nat, now: int)
    requires WellFormed(m) && AmountsFit(m) && less <= more <= U64_MAX
    requires DlmmQuote(m, forY, less, now).Err? && DlmmQuote(m, forY, less, now).error.IsCapacity()
    ensures DlmmQuote(m, forY, more, now).Err?
  {
    hide DlmmQuote;
    if DlmmQuote(m, forY, more, now).Ok? {
      QuoteMono(m, forY, less, more, now);
    }
  }

  // ------------------------------------------------------------------ errors

  lemma FillErrsByOverflow(bin: Bin, amount: nat, price: nat, forY: bool, limitOrders: bool)
    requires price > 0
    ensures var r := FillBin(bin, amount, price, forY, limitOrders); r.Err? ==> r.error == MathOverflow
  {
    hide Cost, Worth;
  }

  lemma BinErrsByOverflow(bin: Bin, rate: nat, left: nat, price: nat, forY: bool, limitOrders: bool, feeOnInput: bool)
    requires price > 0 && QuoteAtBin(bin, rate, left, price, forY, limitOrders, feeOnInput).Err?
    ensures QuoteAtBin(bin, rate, left, price, forY, limitOrders, feeOnInput).error == MathOverflow
  {
    hide CeilDiv, FillBin;
    FillErrsByOverflow(bin, left, price, forY, limitOrders);
    if left >= CeilDiv(left * rate, FEE_PRECISION) {
      FillErrsByOverflow(bin, left - CeilDiv(left * rate, FEE_PRECISION), price, forY, limitOrders);
    }
  }

  lemma VisitErrsByOverflow(m: Market, refs: VariableParameters, forY: bool, binId: int, bin: Bin, left: nat)
    requires WellFormed(m) && VisitBin(m, refs, forY, binId, bin, left).Err?
    ensures VisitBin(m, refs, forY, binId, bin, left).error == MathOverflow
  {
    hide QuoteAtBin, RateAt, HasLiquidity;
    if HasLiquidity(m, forY, bin) && PriceOf(m, binId, bin).Ok? {
      BinErrsByOverflow(bin, RateAt(m, refs, binId), left, PriceOf(m, binId, bin).value, forY,
                        m.pair.SupportsLimitOrders(), m.pair.FeeOnInput(forY));
    }
  }

  /** A walk fails only for want of liquidity or coverage, or by overflow. */
  lemma {:induction false} WalkErrors(m: Market, refs: VariableParameters, forY: bool, binId: int, t: Totals)
    requires WellFormed(m)
    ensures var r := BitmapWalk(m, refs, forY, binId, t); r.Err? ==> r.error.IsCapacity() || r.error == MathOverflow
    decreases BinsAhead(forY, binId)
  {
    hide VisitBin, BinAt;
    if t.left > 0 {
      var found := NearestSet(m.pair.bitmap, forY, ArrayOf(binId));
      if found.Some? && found.value in m.arrays {
        var arr := found.value;
        EnterInside(forY, binId, arr);
        var at := EnterAt(forY, binId, arr);
        var visit := VisitBin(m, refs, forY, at, BinAt(m, arr, at), t.left);
        if visit.Err? {
          VisitErrsByOverflow(m, refs, forY, at, BinAt(m, arr, at), t.left);
        } else if Settle(t, visit).Ok? {
          VisitAdvances(forY, binId, arr);
          WalkErrors(m, refs, forY, NextBin(forY, at), Settle(t, visit).value);
        }
      }
    }
  }

  /** A pool is refused as such exactly when it is disabled, or of one of the two permissioned types; an
      input of nothing is "no fill" before that. */
  lemma RefusedAsSuchIff(m: Market, forY: bool, amountIn: nat, now: int)
    requires WellFormed(m)
    ensures DlmmQuote(m, forY, amountIn, now) == Err(PairNotSupported)
       <==> amountIn > 0 && (m.pair.status != 0 || m.pair.pairType == 1 || m.pair.pairType == 2)
    ensures amountIn == 0 ==> DlmmQuote(m, forY, amountIn, now) == Err(NoFill)
  {
    hide BitmapWalk, UpdateReferences;
    var refs := UpdateReferences(m.pair.parameters, m.pair.vParameters, m.pair.activeId, now);
    WalkErrors(m, refs, forY, m.pair.activeId, Totals(amountIn, 0, 0));
  }

  // ------------------------------------------------------------------ coverage

  /** The same market with at least the same arrays loaded. */
  ghost predicate Extends(more: Market, m: Market) {
    more.pair == m.pair && more.prices == m.prices
    && forall a :: a in m.arrays ==> a in more.arrays && more.arrays[a] == m.arrays[a]
  }

  lemma {:induction false} WalkExtends(m: Market, more: Market, refs: VariableParameters, forY: bool, binId: int, t: Totals)
    requires WellFormed(m) && WellFormed(more) && Extends(more, m)
    requires BitmapWalk(m, refs, forY, binId, t).Ok?
    ensures BitmapWalk(more, refs, forY, binId, t) == BitmapWalk(m, refs, forY, binId, t)
    decreases BinsAhead(forY, binId)
  {
    hide QuoteAtBin;
    if t.left > 0 {
      var arr := NearestSet(m.pair.bitmap, forY, ArrayOf(binId)).value;
      EnterInside(forY, binId, arr);
      var at := EnterAt(forY, binId, arr);
      assert BinAt(more, arr, at) == BinAt(m, arr, at);
      var visit := VisitBin(m, refs, forY, at, BinAt(m, arr, at), t.left);
      assert VisitBin(more, refs, forY, at, BinAt(more, arr, at), t.left) == visit;
      var t' := Settle(t, visit).value;
      if t'.left > 0 {
        InRangeIsAhead(forY, at);
        WalkExtends(m, more, refs, forY, NextBin(forY, at), t');
      }
    }
  }

  /** Loading more bin arrays never changes a successful quote. */
  lemma MoreCoverageKeepsQuotes(m: Market, more: Market, forY: bool, amountIn: nat, now: int)
    requires WellFormed(m) && WellFormed(more) && Extends(more, m)
    requires DlmmQuote(m, forY, amountIn, now).Ok?
    ensures DlmmQuote(more, forY, amountIn, now) == DlmmQuote(m, forY, amountIn, now)
  {
    var refs := UpdateReferences(m.pair.parameters, m.pair.vParameters, m.pair.activeId, now);
    WalkExtends(m, more, refs, forY, m.pair.activeId, Totals(amountIn, 0, 0));
  }

  // ------------------------------------------------------------------ conservation

  /** One bin that took part in a quote. */
  datatype Visit = Visit(binId: int, bin: Bin, offered: nat, quote: BinQuote)

  /** The bins visited by the walk, in order. */
  function Visits(m: Market, refs: VariableParameters, forY: bool, binId: int, t: Totals): seq<Visit>
    requires WellFormed(m)
    decreases BinsAhead(forY, binId)
  {
    if t.left == 0 then []
    else match NearestSet(m.pair.bitmap, forY, ArrayOf(binId))
      case None => []
      case Some(arr) =>
        if arr !in m.arrays then []
        else
          EnterInside(forY, binId, arr);
          var at := EnterAt(forY, binId, arr);
          var visit := VisitBin(m, refs, forY, at, BinAt(m, arr, at), t.left);
          match Settle(t, visit)
          case Err(e) => []
          case Ok(t') =>
            var here := Visit(at, BinAt(m, arr, at), t.left, visit.value);
            if t'.left == 0 || !ValidId(NextBin(forY, at)) then [here]
            else [here] + Visits(m, refs, forY, NextBin(forY, at), t')
  }

  function TotalIn(vs: seq<Visit>): nat {
    if vs == [] then 0 else vs[0].quote.amountIn + TotalIn(vs[1..])
  }

  function TotalOut(vs: seq<Visit>): nat {
    if vs == [] then 0 else vs[0].quote.amountOut + TotalOut(vs[1..])
  }

  function TotalFee(vs: seq<Visit>): nat {
    if vs == [] then 0 else vs[0].quote.fee + TotalFee(vs[1..])
  }

  /** A later visit is of a bin further in the swap direction, reached only because the earlier bin
      was drained, and is offered exactly what the earlier one left. */
  ghost predicate MovesOn(m: Market, forY: bool, before: Visit, after: Visit) {
    && (if forY then after.binId < before.binId else before.binId < after.binId)
    && after.offered == before.offered - before.quote.amountIn > 0
    && before.quote.amountOut + (if m.pair.FeeOnInput(forY) then 0 else before.quote.fee) == Held(m, forY, before.bin)
  }

  ghost predicate AllFair(m: Market, forY: bool, vs: seq<Visit>) {
    && (forall v <- vs :: v.offered > 0 && FairVisit(m, forY, v.bin, v.offered, v.quote))
    && (forall i :: 0 < i < |vs| ==> MovesOn(m, forY, vs[i - 1], vs[i]))
  }

  lemma FairExtends(m: Market, forY: bool, here: Visit, rest: seq<Visit>)
    requires AllFair(m, forY, rest) && here.offered > 0 && FairVisit(m, forY, here.bin, here.offered, here.quote)
    requires rest != [] ==> MovesOn(m, forY, here, rest[0])
    ensures AllFair(m, forY, [here] + rest)
  {
    var vs := [here] + rest;
    forall i | 0 < i < |vs| ensures MovesOn(m, forY, vs[i - 1], vs[i]) {
      if i > 1 { assert vs[i - 1] == rest[i - 2] && vs[i] == rest[i - 1]; }
    }
  }

  /** No bin pays more than it holds or charges more than it is offered, every bin but the last is
      drained before the next is touched, and bins are visited once each in swap order. */
  lemma {:induction false} VisitsAreFair(m: Market, refs: VariableParameters, forY: bool, binId: int, t: Totals)
    requires WellFormed(m) && AmountsFit(m) && t.left <= U64_MAX
    ensures var vs := Visits(m, refs, forY, binId, t);
            && AllFair(m, forY, vs)
            && (vs != [] ==> vs[0].offered == t.left && if forY then vs[0].binId <= binId else binId <= vs[0].binId)
    decreases BinsAhead(forY, binId)
  {
    hide VisitBin, BinAt, FairVisit, Held;
    if t.left > 0 && Visits(m, refs, forY, binId, t) != [] {
      var arr := NearestSet(m.pair.bitmap, forY, ArrayOf(binId)).value;
      EnterInside(forY, binId, arr);
      var at := EnterAt(forY, binId, arr);
      var bin := BinAt(m, arr, at);
      var visit := VisitBin(m, refs, forY, at, bin, t.left);
      VisitLaws(m, refs, forY, at, bin, t.left, t.left);
      var t' := Settle(t, visit).value;
      var here := Visit(at, bin, t.left, visit.value);
      FairExtends(m, forY, here, []);
      if t'.left > 0 && ValidId(NextBin(forY, at)) {
        InRangeIsAhead(forY, at);
        VisitsAreFair(m, refs, forY, NextBin(forY, at), t');
        var rest := Visits(m, refs, forY, NextBin(forY, at), t');
        DrainedOrEmpty(m, forY, here, t'.left);
        FairExtends(m, forY, here, rest);
      }
    }
  }

  lemma DrainedOrEmpty(m: Market, forY: bool, here: Visit, left: nat)
    requires here.offered > 0 && FairVisit(m, forY, here.bin, here.offered, here.quote)
    requires left > 0 && left == here.offered - here.quote.amountIn
    ensures here.quote.amountOut + (if m.pair.FeeOnInput(forY) then 0 else here.quote.fee) == Held(m, forY, here.bin)
  {
    hide Held;
  }

  /** An accepted quote consumes its input exactly: what the bins charged adds up to the input,
      what they paid to the output, and their fees to the reported fee. */
  lemma {:induction false} WalkConserves(m: Market, refs: VariableParameters, forY: bool, binId: int, t: Totals)
    requires WellFormed(m) && AmountsFit(m) && t.left <= U64_MAX && t.fee <= U64_MAX
    requires BitmapWalk(m, refs, forY, binId, t).Ok?
    ensures var vs := Visits(m, refs, forY, binId, t);
            var end := BitmapWalk(m, refs, forY, binId, t).value;
            && end.left == 0
            && TotalIn(vs) == t.left && t.out + TotalOut(vs) == end.out
            && end.fee == Min(t.fee + TotalFee(vs), U64_MAX)
    decreases BinsAhead(forY, binId)
  {
    hide VisitBin, BinAt, FairVisit, NearestSet, EnterAt, ArrayOf, NextBin, BinsAhead;
    if t.left > 0 {
      var arr := NearestSet(m.pair.bitmap, forY, ArrayOf(binId)).value;
      EnterInside(forY, binId, arr);
      var at := EnterAt(forY, binId, arr);
      var bin := BinAt(m, arr, at);
      var visit := VisitBin(m, refs, forY, at, bin, t.left);
      EmptyOrPaid(m, refs, forY, at, bin, t.left);
      var t' := Settle(t, visit).value;
      if t'.left > 0 {
        VisitAdvances(forY, binId, arr);
        WalkConserves(m, refs, forY, NextBin(forY, at), t');
        assert ([Visit(at, bin, t.left, visit.value)] + Visits(m, refs, forY, NextBin(forY, at), t'))[1..]
            == Visits(m, refs, forY, NextBin(forY, at), t');
      }
    }
  }

  lemma VisitAdvances(forY: bool, binId: int, arr: int)
    requires InBitmapRange(arr) && if forY then arr <= ArrayOf(binId) else ArrayOf(binId) <= arr
    ensures BinsAhead(forY, NextBin(forY, EnterAt(forY, binId, arr))) < BinsAhead(forY, binId)
  {
    EnterInside(forY, binId, arr);
    InRangeIsAhead(forY, EnterAt(forY, binId, arr));
  }

  lemma EmptyOrPaid(m: Market, refs: VariableParameters, forY: bool, binId: int, bin: Bin, offered: nat)
    requires WellFormed(m) && BinFits(bin) && 0 < offered <= U64_MAX
    requires VisitBin(m, refs, forY, binId, bin, offered).Ok?
    ensures var q := VisitBin(m, refs, forY, binId, bin, offered).value; q.amountIn == 0 ==> q == BinQuote(0, 0, 0)
  {
    hide VisitBin;
    VisitLaws(m, refs, forY, binId, bin, offered, offered);
  }
}
