/** The exact-input DLMM quote: bins are visited in swap order, jumping over bin arrays whose
    liquidity bit is clear. `BitmapWalk` is the specification, `DlmmQuoteExactIn` the program's
    nested loops proved against it, `NaiveWalk` the plain bin-by-bin walk it must agree with.
 */
module DlmmWalk {
  import opened Common
  import opened Arith
  import opened DlmmBin
  import opened DlmmFees

  const MAX_BIN_PER_ARRAY: nat := 70
  const MIN_BIN_ID: int := -443_636
  const MAX_BIN_ID: int := 443_636
  const BITMAP_SIZE: int := 512

  datatype LbPair = LbPair(
    parameters: StaticParameters, vParameters: VariableParameters,
    pairType: nat, activeId: int, binStep: nat, status: nat, tokenX: Mint, tokenY: Mint,
    hasRewards: bool,
    bitmap: set<int>)  // the arr indices whose liquidity bit is set
  {
    predicate SupportsLimitOrders() {
      parameters.functionType == 2 || (parameters.functionType == 0 && !hasRewards)
    }

    predicate FeeOnInput(forY: bool) {
      parameters.collectFeeMode == 1 ==> !forY
    }
  }

  /** Everything a quote reads: the pair, the loaded bin arrays (70 bins each) and the computed
      price of each bin id, absent where the price computation overflows. */
  datatype Market = Market(pair: LbPair, arrays: map<int, seq<Bin>>, prices: map<int, nat>)

  ghost predicate WellFormed(m: Market) {
    && (forall a :: a in m.arrays ==> |m.arrays[a]| == MAX_BIN_PER_ARRAY)
    && (forall i :: i in m.prices ==> m.prices[i] > 0)
  }

  function ArrayOf(binId: int): int {
    binId / MAX_BIN_PER_ARRAY
  }

  predicate InBitmapRange(arr: int) {
    -BITMAP_SIZE <= arr < BITMAP_SIZE
  }

  /** How many bin ids the bitmap still covers from here on: the termination measure. */
  function BinsAhead(forY: bool, binId: int): nat {
    Max(0, if forY then binId + BITMAP_SIZE * MAX_BIN_PER_ARRAY + 1 else BITMAP_SIZE * MAX_BIN_PER_ARRAY - binId)
  }

  function NextBin(forY: bool, binId: int): int {
    if forY then binId - 1 else binId + 1
  }

  /** Nearest array at or beyond `start` whose bit is set. */
  function NearestSet(bitmap: set<int>, forY: bool, start: int): (r: Option<int>)
    ensures r.Some? ==> r.value in bitmap && InBitmapRange(r.value)
                        && if forY then r.value <= start else start <= r.value
    decreases Max(0, if forY then start + BITMAP_SIZE + 1 else BITMAP_SIZE - start)
  {
    if !InBitmapRange(start) then None
    else if start in bitmap then Some(start)
    else NearestSet(bitmap, forY, if forY then start - 1 else start + 1)
  }

  /** Where a walk that must look at `array` stands: where it was, or at the array's near edge. */
  function EnterAt(forY: bool, binId: int, arr: int): int {
    if arr == ArrayOf(binId) then binId
    else if forY then arr * MAX_BIN_PER_ARRAY + 69
    else arr * MAX_BIN_PER_ARRAY
  }

  lemma EnterInside(forY: bool, binId: int, arr: int)
    requires if forY then arr <= ArrayOf(binId) else ArrayOf(binId) <= arr
    ensures var at := EnterAt(forY, binId, arr);
            ArrayOf(at) == arr && (if forY then at <= binId else binId <= at)
  {
  }

  predicate HasLiquidity(m: Market, forY: bool, bin: Bin) {
    bin.MaxAmountOut(forY, m.pair.SupportsLimitOrders()) > 0
  }

  function PriceOf(m: Market, binId: int, bin: Bin): Checked<nat> {
    if bin.price != 0 then Ok(bin.price)
    else if binId in m.prices then Ok(m.prices[binId])
    else Err(MathOverflow)
  }

  function RateAt(m: Market, refs: VariableParameters, binId: int): nat {
    TotalFeeRate(m.pair.parameters, m.pair.binStep,
                 UpdateVolatilityAccumulator(m.pair.parameters, refs, binId).volatilityAccumulator)
  }

  /** What one loaded bin does with the remaining input; a bin without liquidity does nothing. */
  function VisitBin(m: Market, refs: VariableParameters, forY: bool, binId: int, bin: Bin, left: nat): Checked<BinQuote>
    requires WellFormed(m)
  {
    match PriceOf(m, binId, bin)
    case Err(e) => Err(e)
    case Ok(price) =>
      if !HasLiquidity(m, forY, bin) then Ok(BinQuote(0, 0, 0))
      else QuoteAtBin(bin, RateAt(m, refs, binId), left, price, forY, m.pair.SupportsLimitOrders(), m.pair.FeeOnInput(forY))
  }

  /** Running totals of a quote. */
  datatype Totals = Totals(left: nat, out: nat, fee: nat)

  function Absorb(t: Totals, q: BinQuote): Checked<Totals> {
    if q.amountIn == 0 then Ok(t)
    else if q.amountIn > t.left || t.out + q.amountOut > U64_MAX then Err(MathOverflow)
    else Ok(Totals(t.left - q.amountIn, t.out + q.amountOut, Min(t.fee + q.fee, U64_MAX)))
  }

  function Settle(t: Totals, q: Checked<BinQuote>): Checked<Totals> {
    match q
    case Err(e) => Err(e)
    case Ok(bq) => Absorb(t, bq)
  }

  predicate ValidId(binId: int) {
    MIN_BIN_ID <= binId <= MAX_BIN_ID
  }

  function BinAt(m: Market, arr: int, binId: int): Bin
    requires WellFormed(m) && arr in m.arrays && ArrayOf(binId) == arr
  {
    m.arrays[arr][binId % MAX_BIN_PER_ARRAY]
  }

  function BitmapWalk(m: Market, refs: VariableParameters, forY: bool, binId: int, t: Totals): Checked<Totals>
    requires WellFormed(m)
    decreases BinsAhead(forY, binId)
  {
    if t.left == 0 then Ok(t)
    else match NearestSet(m.pair.bitmap, forY, ArrayOf(binId))
      case None => Err(ExhaustedLiquidity)
      case Some(arr) =>
        if arr !in m.arrays then Err(InsufficientBinCoverage(arr))
        else
          EnterInside(forY, binId, arr);
          var at := EnterAt(forY, binId, arr);
          match Settle(t, VisitBin(m, refs, forY, at, BinAt(m, arr, at), t.left))
          case Err(e) => Err(e)
          case Ok(t') =>
            if t'.left == 0 then Ok(t')
            else if !ValidId(NextBin(forY, at)) then Err(ExhaustedLiquidity)
            else BitmapWalk(m, refs, forY, NextBin(forY, at), t')
  }

  predicate Supported(pair: LbPair) {
    pair.status == 0 && pair.pairType != 1 && pair.pairType != 2
  }

  function Conclude(r: Checked<Totals>): Checked<(nat, nat)> {
    match r
    case Err(e) => Err(e)
    case Ok(t) => if t.out == 0 then Err(NoFill) else Ok((t.out, t.fee))
  }

  /** The quote: total output and total fee, or why there is none. */
  function DlmmQuote(m: Market, forY: bool, amountIn: nat, now: int): Checked<(nat, nat)>
    requires WellFormed(m)
  {
    if amountIn == 0 then Err(NoFill)
    else if !Supported(m.pair) then Err(PairNotSupported)
    else
      var refs := UpdateReferences(m.pair.parameters, m.pair.vParameters, m.pair.activeId, now);
      Conclude(BitmapWalk(m, refs, forY, m.pair.activeId, Totals(amountIn, 0, 0)))
  }

  /** The accumulator left by earlier bins is never read. */
  lemma AccumulatorForgotten(m: Market, v: VariableParameters, refs: VariableParameters, binId: int)
    requires v.volatilityReference == refs.volatilityReference && v.indexReference == refs.indexReference
    ensures RateAt(m, v, binId) == RateAt(m, refs, binId)
  {
  }

  /** The working state of the loops. */
  datatype Cursor = Cursor(binId: int, v: VariableParameters, t: Totals)

  ghost predicate SameReferences(v: VariableParameters, refs: VariableParameters) {
    v.volatilityReference == refs.volatilityReference && v.indexReference == refs.indexReference
  }

  ghost function Rest(m: Market, refs: VariableParameters, forY: bool, c: Cursor): Checked<Totals>
    requires WellFormed(m)
  {
    BitmapWalk(m, refs, forY, c.binId, c.t)
  }

  /** One pass of the inner loop: the bin at the cursor, then a step to its neighbour. */
  method VisitAndAdvance(m: Market, ghost refs: VariableParameters, forY: bool, arr: int, c: Cursor)
    returns (r: Checked<Cursor>)
    requires WellFormed(m) && SameReferences(c.v, refs) && arr in m.arrays && ArrayOf(c.binId) == arr && c.t.left > 0
    requires NearestSet(m.pair.bitmap, forY, arr) == Some(arr)
    ensures r.Err? ==> Rest(m, refs, forY, c) == Err(r.error)
    ensures r.Ok? ==> Rest(m, refs, forY, r.value) == Rest(m, refs, forY, c) && SameReferences(r.value.v, refs)
    ensures r.Ok? && r.value.t.left > 0 ==> r.value.binId == NextBin(forY, c.binId)
  {
    hide QuoteAtBin, TotalFeeRate, NearestSet, BinAt;
    var bin := BinAt(m, arr, c.binId);
    var v, t := c.v, c.t;
    AccumulatorForgotten(m, v, refs, c.binId);
    var priced := PriceOf(m, c.binId, bin);
    if priced.Err? {
      return Err(MathOverflow);
    }
    if bin.MaxAmountOut(forY, m.pair.SupportsLimitOrders()) > 0 {
      v := UpdateVolatilityAccumulator(m.pair.parameters, v, c.binId);
      var rate := TotalFeeRate(m.pair.parameters, m.pair.binStep, v.volatilityAccumulator);
      var quote := QuoteAtBin(bin, rate, t.left, priced.value, forY, m.pair.SupportsLimitOrders(),
                              m.pair.FeeOnInput(forY));
      if quote.Err? {
        return Err(quote.error);
      }
      var q := quote.value;
      if q.amountIn > 0 {
        if q.amountIn > t.left || t.out + q.amountOut > U64_MAX {
          return Err(MathOverflow);
        }
        t := Totals(t.left - q.amountIn, t.out + q.amountOut, Min(t.fee + q.fee, U64_MAX));
      }
    }
    assert Settle(c.t, VisitBin(m, refs, forY, c.binId, bin, c.t.left)) == Ok(t);
    var next := c.binId;
    if t.left > 0 {
      next := NextBin(forY, next);
      if !ValidId(next) {
        return Err(ExhaustedLiquidity);
      }
    }
    return Ok(Cursor(next, v, t));
  }

  /** The program's loops: the outer one finds the next array with liquidity, the inner one drains
      bins inside it, keeping a working copy of the volatility state. */
  method DlmmQuoteExactIn(m: Market, forY: bool, amountIn: nat, now: int) returns (r: Checked<(nat, nat)>)
    requires WellFormed(m)
    ensures r == DlmmQuote(m, forY, amountIn, now)
  {
    hide VisitBin, UpdateReferences, NearestSet, BinAt;
    if amountIn == 0 {
      return Err(NoFill);
    }
    if m.pair.status != 0 || m.pair.pairType == 1 || m.pair.pairType == 2 {
      return Err(PairNotSupported);
    }
    var refs := UpdateReferences(m.pair.parameters, m.pair.vParameters, m.pair.activeId, now);
    var c := Cursor(m.pair.activeId, refs, Totals(amountIn, 0, 0));
    ghost var answer := Rest(m, refs, forY, c);

    while c.t.left > 0
      invariant SameReferences(c.v, refs) && Rest(m, refs, forY, c) == answer
      decreases if c.t.left == 0 then 0 else 1 + BinsAhead(forY, c.binId)
    {
      var start := ArrayOf(c.binId);
      var found := NearestSet(m.pair.bitmap, forY, start);
      if found.None? {
        return Err(ExhaustedLiquidity);
      }
      var arr := found.value;
      if arr !in m.arrays {
        return Err(InsufficientBinCoverage(arr));
      }
      EnterInside(forY, c.binId, arr);
      NearestFromInside(m.pair.bitmap, forY, start);
      ghost var outer := BinsAhead(forY, c.binId);
      if arr != start {
        c := c.(binId := if forY then arr * 70 + 69 else arr * 70);
      }
      InRangeIsAhead(forY, c.binId);

      while ArrayOf(c.binId) == arr && c.t.left > 0
        invariant SameReferences(c.v, refs) && Rest(m, refs, forY, c) == answer
        invariant c.t.left > 0 ==> BinsAhead(forY, c.binId) <= outer
        invariant c.t.left > 0 && BinsAhead(forY, c.binId) == outer ==> ArrayOf(c.binId) == arr
        decreases if c.t.left == 0 then 0 else 1 + BinsAhead(forY, c.binId)
      {
        InRangeIsAhead(forY, c.binId);
        var step := VisitAndAdvance(m, refs, forY, arr, c);
        if step.Err? {
          return Err(step.error);
        }
        c := step.value;
      }
    }
    if c.t.out == 0 {
      return Err(NoFill);
    }
    return Ok((c.t.out, c.t.fee));
  }

  /** Inside the bitmap there is always a bin id left to go, and moving on uses one up. */
  lemma InRangeIsAhead(forY: bool, binId: int)
    ensures InBitmapRange(ArrayOf(binId)) ==> BinsAhead(forY, NextBin(forY, binId)) < BinsAhead(forY, binId)
  {
  }

  /** Looking again from the array that was found finds it again. */
  lemma {:induction false} NearestFromInside(bitmap: set<int>, forY: bool, start: int)
    ensures var r := NearestSet(bitmap, forY, start); r.Some? ==> NearestSet(bitmap, forY, r.value) == r
  {
  }
}
