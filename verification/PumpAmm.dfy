/** PumpSwap quotes: a fee-less constant product with three fee components, each rounded up on its
    own, taken from the output of a SELL and inverted from the input of a BUY.
 */
module PumpAmm {
  import opened Common
  import opened Arith

  /** The fee components of a pool, in basis points. */
  datatype FeeSplit = FeeSplit(lp: nat, protocol: nat, creator: nat)
  {
    function Total(): nat {
      lp + protocol + creator
    }
  }

  datatype PumpError = WrongMint | EmptyReserves | NoFill | CreatorBuyUnverified | FeeUnresolved

  datatype PumpQuote = PumpQuote(out: nat, fee: nat)

  // ------------------------------------------------------------------ constant product

  /** Exact-in constant-product output with a proportional fee on the input. */
  function CpmmAmountOut(amountIn: nat, reserveIn: nat, reserveOut: nat, feeNum: nat, feeDen: nat): nat {
    if amountIn == 0 || reserveIn == 0 || reserveOut == 0 || feeDen == 0 || feeNum >= feeDen then 0
    else
      MulPositive(amountIn, feeDen - feeNum);
      var afterFee := amountIn * (feeDen - feeNum);
      var out := FloorDiv(afterFee * reserveOut, reserveIn * feeDen + afterFee);
      if out <= U64_MAX then out else 0
  }

  /** The curve itself, for a positive input already scaled by the fee denominator. */
  function ProductOut(scaledIn: nat, scaledReserve: nat, reserveOut: nat): nat
    requires scaledIn > 0
  {
    FloorDiv(scaledIn * reserveOut, scaledReserve + scaledIn)
  }

  /** An output is affordable exactly when the invariant product survives it. */
  lemma ProductKept(scaledIn: nat, scaledReserve: nat, reserveOut: nat, out: nat)
    requires scaledIn > 0
    ensures out <= ProductOut(scaledIn, scaledReserve, reserveOut)
       <==> scaledReserve * reserveOut <= (scaledReserve + scaledIn) * (reserveOut - out)
  {
    FloorAtLeast(scaledIn * reserveOut, scaledReserve + scaledIn, out);
    MulSub(reserveOut, out, scaledReserve + scaledIn);
    MulAdd(scaledReserve, scaledIn, reserveOut);
  }

  lemma ProductOutBelowReserve(scaledIn: nat, scaledReserve: nat, reserveOut: nat)
    requires scaledIn > 0
    ensures ProductOut(scaledIn, scaledReserve, reserveOut) <= reserveOut
  {
    FloorBounds(scaledIn * reserveOut, scaledReserve + scaledIn);
    MulAdd(scaledReserve, scaledIn, reserveOut);
    MulCancel(ProductOut(scaledIn, scaledReserve, reserveOut), reserveOut, scaledReserve + scaledIn);
  }

  lemma ProductOutMono(less: nat, more: nat, scaledReserve: nat, reserveOut: nat)
    requires 0 < less <= more
    ensures ProductOut(less, scaledReserve, reserveOut) <= ProductOut(more, scaledReserve, reserveOut)
  {
    var out := ProductOut(less, scaledReserve, reserveOut);
    ProductOutBelowReserve(less, scaledReserve, reserveOut);
    ProductKept(less, scaledReserve, reserveOut, out);
    ProductKept(more, scaledReserve, reserveOut, out);
    MulLe(scaledReserve + less, scaledReserve + more, reserveOut - out);
  }

  /** The output, at any fee: monotone in the input, within the reserve, and never lowering the
      product of the reserves. */
  lemma CpmmLaws(less: nat, more: nat, reserveIn: nat, reserveOut: nat, feeNum: nat, feeDen: nat)
    requires 0 < less <= more && reserveIn > 0 && 0 < reserveOut <= U64_MAX && feeNum < feeDen
    ensures var a := CpmmAmountOut(less, reserveIn, reserveOut, feeNum, feeDen);
            var b := CpmmAmountOut(more, reserveIn, reserveOut, feeNum, feeDen);
            && a <= b <= reserveOut
            && reserveIn * reserveOut <= (reserveIn + more) * (reserveOut - b)
  {
    hide ProductOut;
    var kept := feeDen - feeNum;
    OutIsProduct(less, reserveIn, reserveOut, feeNum, feeDen);
    OutIsProduct(more, reserveIn, reserveOut, feeNum, feeDen);
    MulPositive(less, kept);
    MulPositive(more, kept);
    MulLe(less, more, kept);
    ProductOutMono(less * kept, more * kept, reserveIn * feeDen, reserveOut);
    var b := CpmmAmountOut(more, reserveIn, reserveOut, feeNum, feeDen);
    ProductKept(more * kept, reserveIn * feeDen, reserveOut, b);
    FeeStaysIn(reserveIn, more, kept, feeDen, reserveOut, reserveOut - b);
  }

  lemma OutIsProduct(amount: nat, reserveIn: nat, reserveOut: nat, feeNum: nat, feeDen: nat)
    requires amount > 0 && reserveIn > 0 && 0 < reserveOut <= U64_MAX && feeNum < feeDen
    ensures amount * (feeDen - feeNum) > 0
    ensures CpmmAmountOut(amount, reserveIn, reserveOut, feeNum, feeDen)
         == ProductOut(amount * (feeDen - feeNum), reserveIn * feeDen, reserveOut) <= reserveOut
  {
    hide FloorDiv;
    MulPositive(amount, feeDen - feeNum);
    ProductOutBelowReserve(amount * (feeDen - feeNum), reserveIn * feeDen, reserveOut);
  }

  /** What the fee withholds stays in the pool, so the unscaled product grows too. */
  lemma FeeStaysIn(reserve: nat, amount: nat, kept: nat, feeDen: nat, before: nat, after: nat)
    requires kept <= feeDen && feeDen > 0
    requires reserve * feeDen * before <= (reserve * feeDen + amount * kept) * after
    ensures reserve * before <= (reserve + amount) * after
  {
    MulLe(kept, feeDen, amount);
    MulAdd(reserve, amount, feeDen);
    MulLe(reserve * feeDen + amount * kept, (reserve + amount) * feeDen, after);
    MulSwap(reserve, feeDen, before);
    MulSwap(reserve + amount, feeDen, after);
    MulCancel(reserve * before, (reserve + amount) * after, feeDen);
  }

  // ------------------------------------------------------------------ fees

  function CeilBps(amount: nat, bps: nat): nat {
    CeilDiv(amount * bps, BPS)
  }

  /** Each component is rounded up on its own. */
  function TotalFee(amount: nat, split: FeeSplit): nat {
    CeilBps(amount, split.lp) + CeilBps(amount, split.protocol) + CeilBps(amount, split.creator)
  }

  lemma CeilBpsBounds(amount: nat, bps: nat)
    ensures amount * bps <= CeilBps(amount, bps) * BPS <= amount * bps + BPS - 1
    ensures bps == 0 ==> CeilBps(amount, bps) == 0
    ensures bps > 0 && amount > 0 ==> CeilBps(amount, bps) > 0
  {
    CeilBounds(amount * bps, BPS);
    CeilPositive(amount * bps, BPS);
    if bps > 0 && amount > 0 { MulPositive(amount, bps); }
  }

  /** How many components are charged at all. */
  function Components(split: FeeSplit): nat {
    (if split.lp > 0 then 1 else 0) + (if split.protocol > 0 then 1 else 0) + (if split.creator > 0 then 1 else 0)
  }

  /** The fee is the proportional share plus less than one unit per component charged. */
  lemma TotalFeeBounds(amount: nat, split: FeeSplit)
    ensures amount * split.Total() <= TotalFee(amount, split) * BPS
         <= amount * split.Total() + Components(split) * (BPS - 1)
    ensures amount > 0 ==> TotalFee(amount, split) >= Components(split)
  {
    hide CeilBps;
    CeilBpsBounds(amount, split.lp);
    CeilBpsBounds(amount, split.protocol);
    CeilBpsBounds(amount, split.creator);
    MulAdd(split.lp, split.protocol, amount);
    MulAdd(split.lp + split.protocol, split.creator, amount);
  }

  lemma TotalFeeMono(less: nat, more: nat, split: FeeSplit)
    requires less <= more
    ensures TotalFee(less, split) <= TotalFee(more, split)
  {
    hide CeilBps;
    CeilBpsMono(less, more, split.lp);
    CeilBpsMono(less, more, split.protocol);
    CeilBpsMono(less, more, split.creator);
  }

  lemma CeilBpsMono(less: nat, more: nat, bps: nat)
    requires less <= more
    ensures CeilBps(less, bps) <= CeilBps(more, bps)
  {
    MulLe(less, more, bps);
    CeilMono(less * bps, more * bps, BPS);
  }

  // ------------------------------------------------------------------ BUY inversion

  /** What a trader pays for `c` to enter the pool. */
  function Paid(c: nat, split: FeeSplit): nat {
    c + TotalFee(c, split)
  }

  lemma PaidGrows(less: nat, more: nat, split: FeeSplit)
    requires less <= more
    ensures Paid(less, split) + (more - less) <= Paid(more, split)
  {
    TotalFeeMono(less, more, split);
  }

  function StartingGuess(uIn: nat, split: FeeSplit): nat {
    FloorDiv(uIn * BPS, BPS + split.Total())
  }

  /** The closed-form guess overpays by two units at most, and one more never fits. */
  lemma GuessIsClose(uIn: nat, split: FeeSplit)
    ensures var c := StartingGuess(uIn, split); c <= uIn && Paid(c, split) <= uIn + 2 && Paid(c + 1, split) > uIn
  {
    hide TotalFee;
    var total := split.Total();
    var c := StartingGuess(uIn, split);
    FloorBounds(uIn * BPS, BPS + total);
    TotalFeeBounds(c, split);
    TotalFeeBounds(c + 1, split);
    MulAdd(BPS, total, c);
    MulAdd(BPS, total, c + 1);
    MulAdd(c, 1, BPS + total);
  }

  /** The largest amount whose fee-inclusive price fits the payment. From the closed-form start
      the first loop steps down at most twice and the second never steps at all. */
  method EffectiveBuyInput(uIn: nat, split: FeeSplit) returns (c: nat, ghost down: nat, ghost up: nat)
    requires uIn <= U64_MAX
    requires split.Total() > 0 || uIn < U64_MAX  // otherwise `c + 1` overflows the program's integer
    ensures Paid(c, split) <= uIn && forall d: nat :: Paid(d, split) <= uIn ==> d <= c
    ensures c < U64_MAX
    ensures down <= 2 && up == 0 && c + down == StartingGuess(uIn, split)
  {
    hide TotalFee;
    c := FloorDiv(uIn * BPS, BPS + split.Total());
    down, up := 0, 0;
    GuessIsClose(uIn, split);
    ghost var start := c;
    PaidGrows(0, c, split);
    TotalFeeBounds(c, split);
    while c > 0 && c + TotalFee(c, split) > uIn
      invariant c + down == start <= uIn && Paid(c, split) + down <= uIn + 2
      invariant down <= 2 && Paid(c + 1, split) > uIn
    {
      PaidGrows(c - 1, c, split);
      c, down := c - 1, down + 1;
    }
    NothingIsFree(split);
    BelowMax(uIn, split, c);
    ghost var found := c;
    while c + 1 + TotalFee(c + 1, split) <= uIn
      invariant c == found + up && Paid(c, split) <= uIn
      decreases uIn - c
    {
      c, up := c + 1, up + 1;
    }
    NoLargerFits(uIn, found, split);
  }

  lemma NoLargerFits(uIn: nat, c: nat, split: FeeSplit)
    requires Paid(c + 1, split) > uIn
    ensures forall d: nat :: Paid(d, split) <= uIn ==> d <= c
  {
    hide TotalFee;
    forall d: nat | Paid(d, split) <= uIn ensures d <= c {
      if d > c { PaidGrows(c + 1, d, split); }
    }
  }

  lemma NothingIsFree(split: FeeSplit)
    ensures Paid(0, split) == 0
  {
    CeilBpsBounds(0, split.lp);
    CeilBpsBounds(0, split.protocol);
    CeilBpsBounds(0, split.creator);
  }

  lemma BelowMax(uIn: nat, split: FeeSplit, c: nat)
    requires uIn <= U64_MAX && (split.Total() > 0 || uIn < U64_MAX)
    requires Paid(c, split) <= uIn
    ensures c < U64_MAX
  {
    hide TotalFee;
    TotalFeeBounds(c, split);
    if c > 0 && split.Total() > 0 { MulPositive(c, split.Total()); }
  }

  // ------------------------------------------------------------------ SELL

  /** What a SELL takes out of the pool, before fees. */
  function SellGross(amountIn: nat, baseReserve: nat, quoteReserve: nat): nat {
    CpmmAmountOut(amountIn, baseReserve, quoteReserve, 0, BPS)
  }

  function SellQuote(amountIn: nat, baseReserve: nat, quoteReserve: nat, split: FeeSplit): Result<PumpQuote, PumpError> {
    if baseReserve == 0 || quoteReserve == 0 then Err(EmptyReserves)
    else if amountIn == 0 then Err(NoFill)
    else
      var gross := SellGross(amountIn, baseReserve, quoteReserve);
      var fee := TotalFee(gross, split);
      var out := SatSub(gross, fee);
      if out == 0 then Err(NoFill) else Ok(PumpQuote(out, fee))
  }

  /** What the trader receives, nothing when the quote is refused. */
  function Received(q: Result<PumpQuote, PumpError>): nat {
    if q.Ok? then q.value.out else 0
  }

  /** What is left of a gross output. */
  function NetOf(gross: nat, split: FeeSplit): nat {
    SatSub(gross, TotalFee(gross, split))
  }

  lemma NetFallsByTwo(less: nat, more: nat, split: FeeSplit)
    requires less <= more && split.Total() <= BPS
    ensures NetOf(less, split) <= NetOf(more, split) + 2
  {
    hide TotalFee;
    TotalFeeBounds(less, split);
    TotalFeeBounds(more, split);
    MulSub(more, less, split.Total());
    MulLe(split.Total(), BPS, more - less);
  }

  /** A larger SELL may be worth less, because the components are rounded up separately, but never
      by more than two units while the fees are at most 100%; and it never beats the fee-less curve. */
  lemma SellNearlyMono(less: nat, more: nat, baseReserve: nat, quoteReserve: nat, split: FeeSplit)
    requires 0 < less <= more && quoteReserve <= U64_MAX && split.Total() <= BPS
    ensures Received(SellQuote(less, baseReserve, quoteReserve, split))
         <= Received(SellQuote(more, baseReserve, quoteReserve, split)) + 2
    ensures var q := SellQuote(more, baseReserve, quoteReserve, split);
            var gross := SellGross(more, baseReserve, quoteReserve);
            q.Ok? ==> q.value.out + q.value.fee == gross && q.value.fee == TotalFee(gross, split)
  {
    hide TotalFee, CpmmAmountOut;
    if baseReserve > 0 && quoteReserve > 0 {
      CpmmLaws(less, more, baseReserve, quoteReserve, 0, BPS);
      NetFallsByTwo(SellGross(less, baseReserve, quoteReserve), SellGross(more, baseReserve, quoteReserve), split);
    }
  }

  /** Something is left of the gross output, and at its next unit two components or more step up. */
  predicate DoubleStep(gross: nat, split: FeeSplit) {
    && TotalFee(gross, split) < gross
    && StepsUp(gross, split.lp) + StepsUp(gross, split.protocol) + StepsUp(gross, split.creator) >= 2
  }

  /** One more unit of gross output is worth less to the trader exactly at a double step. */
  lemma NetFallsAtDoubleStep(gross: nat, split: FeeSplit)
    requires split.lp <= BPS && split.protocol <= BPS && split.creator <= BPS
    ensures NetOf(gross + 1, split) < NetOf(gross, split) <==> DoubleStep(gross, split)
  {
    hide CeilBps, StepsUp;
    FeeStep(gross, split.lp);
    FeeStep(gross, split.protocol);
    FeeStep(gross, split.creator);
  }

  ghost predicate NetRises(lo: nat, hi: nat, split: FeeSplit) {
    forall a: nat, b: nat :: lo <= a <= b <= hi ==> NetOf(a, split) <= NetOf(b, split)
  }

  lemma {:induction false} RisesStepwise(a: nat, b: nat, split: FeeSplit)
    requires a <= b && forall g: nat :: a <= g < b ==> NetOf(g, split) <= NetOf(g + 1, split)
    ensures NetOf(a, split) <= NetOf(b, split)
    decreases b - a
  {
    hide NetOf;
    if a < b {
      RisesStepwise(a, b - 1, split);
      assert NetOf(b - 1, split) <= NetOf(b - 1 + 1, split);
    }
  }

  /** Over any range of gross outputs a larger one is worth at least as much throughout exactly when
      no double step lies in the range. */
  lemma NetRisesIffNoDoubleStep(lo: nat, hi: nat, split: FeeSplit)
    requires split.lp <= BPS && split.protocol <= BPS && split.creator <= BPS
    ensures NetRises(lo, hi, split) <==> forall g: nat :: lo <= g < hi ==> !DoubleStep(g, split)
  {
    hide NetOf, DoubleStep;
    forall g: nat ensures NetOf(g, split) <= NetOf(g + 1, split) <==> !DoubleStep(g, split) {
      NetFallsAtDoubleStep(g, split);
    }
    if forall g: nat :: lo <= g < hi ==> !DoubleStep(g, split) {
      forall a: nat, b: nat | lo <= a <= b <= hi ensures NetOf(a, split) <= NetOf(b, split) {
        RisesStepwise(a, b, split);
      }
    }
    if NetRises(lo, hi, split) {
      forall g: nat | lo <= g < hi ensures !DoubleStep(g, split) {
        assert NetOf(g, split) <= NetOf(g + 1, split);
      }
    }
  }

  /** And a SELL is monotone over any range of sizes whose gross outputs skip every double step. */
  lemma SellMonoWithoutDoubleSteps(less: nat, more: nat, baseReserve: nat, quoteReserve: nat, split: FeeSplit)
    requires 0 < less <= more && baseReserve > 0 && 0 < quoteReserve <= U64_MAX
    requires split.lp <= BPS && split.protocol <= BPS && split.creator <= BPS
    requires var lo := SellGross(less, baseReserve, quoteReserve);
             var hi := SellGross(more, baseReserve, quoteReserve);
             forall g: nat :: lo <= g < hi ==> !DoubleStep(g, split)
    ensures Received(SellQuote(less, baseReserve, quoteReserve, split))
         <= Received(SellQuote(more, baseReserve, quoteReserve, split))
  {
    hide TotalFee, CpmmAmountOut, DoubleStep;
    CpmmLaws(less, more, baseReserve, quoteReserve, 0, BPS);
    var lo := SellGross(less, baseReserve, quoteReserve);
    var hi := SellGross(more, baseReserve, quoteReserve);
    NetRisesIffNoDoubleStep(lo, hi, split);
    assert NetOf(lo, split) <= NetOf(hi, split);
  }

  lemma ReceivedIsNet(amountIn: nat, baseReserve: nat, quoteReserve: nat, split: FeeSplit)
    requires amountIn > 0 && baseReserve > 0 && quoteReserve > 0
    ensures Received(SellQuote(amountIn, baseReserve, quoteReserve, split))
         == NetOf(SellGross(amountIn, baseReserve, quoteReserve), split)
  {
    hide CpmmAmountOut, TotalFee;
  }

  /** It is the plain constant product. */
  lemma SellGrossIsCurve(amountIn: nat, baseReserve: nat, quoteReserve: nat)
    requires amountIn > 0 && baseReserve > 0 && 0 < quoteReserve <= U64_MAX
    ensures SellGross(amountIn, baseReserve, quoteReserve) == FloorDiv(amountIn * quoteReserve, baseReserve + amountIn)
  {
    hide FloorDiv, CpmmAmountOut;
    OutIsProduct(amountIn, baseReserve, quoteReserve, 0, BPS);
    MulSwap(amountIn, BPS, quoteReserve);
    MulAdd(baseReserve, amountIn, BPS);
    FloorScales(amountIn * quoteReserve, baseReserve + amountIn, BPS);
  }

  /** Where the base reserve is at least the quote reserve, one more unit sold takes out at most one
      more unit, */
  lemma SellGrossSteps(amount: nat, baseReserve: nat, quoteReserve: nat)
    requires amount > 0 && 0 < quoteReserve <= baseReserve && quoteReserve <= U64_MAX
    ensures SellGross(amount + 1, baseReserve, quoteReserve) <= SellGross(amount, baseReserve, quoteReserve) + 1
  {
    hide ProductOut, CpmmAmountOut;
    var more := SellGross(amount + 1, baseReserve, quoteReserve);
    OutIsProduct(amount, baseReserve, quoteReserve, 0, BPS);
    OutIsProduct(amount + 1, baseReserve, quoteReserve, 0, BPS);
    if more > 0 {
      ProductKept((amount + 1) * BPS, baseReserve * BPS, quoteReserve, more);
      ProductKept(amount * BPS, baseReserve * BPS, quoteReserve, more - 1);
      MulAdd(baseReserve, amount, BPS);
      MulLe(quoteReserve - more, baseReserve + amount, BPS);
      MulAdd((baseReserve + amount) * BPS, BPS, quoteReserve - more);
      MulAdd(quoteReserve - more, 1, (baseReserve + amount) * BPS);
    }
  }

  /** so that no gross output between two others is skipped. */
  lemma {:induction false} SellGrossReaches(low: nat, high: nat, baseReserve: nat, quoteReserve: nat, g: nat)
    returns (size: nat)
    requires 0 < low <= high && 0 < quoteReserve <= baseReserve && quoteReserve <= U64_MAX
    requires SellGross(low, baseReserve, quoteReserve) <= g <= SellGross(high, baseReserve, quoteReserve)
    ensures low <= size <= high && SellGross(size, baseReserve, quoteReserve) == g
    decreases high - low
  {
    hide SellGross;
    if SellGross(high, baseReserve, quoteReserve) == g {
      size := high;
    } else {
      assert low < high;
      SellGrossSteps(high - 1, baseReserve, quoteReserve);
      size := SellGrossReaches(low, high - 1, baseReserve, quoteReserve, g);
    }
  }

  ghost predicate SellRises(low: nat, high: nat, baseReserve: nat, quoteReserve: nat, split: FeeSplit) {
    forall a: nat, b: nat :: low <= a <= b <= high ==>
      Received(SellQuote(a, baseReserve, quoteReserve, split)) <= Received(SellQuote(b, baseReserve, quoteReserve, split))
  }

  /** There a SELL is monotone over a range of sizes exactly when no double step lies between the
      gross outputs of its ends. */
  lemma SellRisesIffNoDoubleStep(low: nat, high: nat, baseReserve: nat, quoteReserve: nat, split: FeeSplit)
    requires 0 < low <= high && 0 < quoteReserve <= baseReserve && quoteReserve <= U64_MAX
    requires split.lp <= BPS && split.protocol <= BPS && split.creator <= BPS
    ensures SellRises(low, high, baseReserve, quoteReserve, split) <==>
              forall g: nat :: SellGross(low, baseReserve, quoteReserve) <= g < SellGross(high, baseReserve, quoteReserve)
                ==> !DoubleStep(g, split)
  {
    hide SellQuote, Received, CpmmAmountOut, DoubleStep, NetOf;
    var lo, hi := SellGross(low, baseReserve, quoteReserve), SellGross(high, baseReserve, quoteReserve);
    if forall g: nat :: lo <= g < hi ==> !DoubleStep(g, split) {
      forall a: nat, b: nat | low <= a <= b <= high
        ensures Received(SellQuote(a, baseReserve, quoteReserve, split))
             <= Received(SellQuote(b, baseReserve, quoteReserve, split))
      {
        CpmmLaws(low, a, baseReserve, quoteReserve, 0, BPS);
        CpmmLaws(b, high, baseReserve, quoteReserve, 0, BPS);
        SellMonoWithoutDoubleSteps(a, b, baseReserve, quoteReserve, split);
      }
    }
    if SellRises(low, high, baseReserve, quoteReserve, split) {
      forall g: nat | lo <= g < hi ensures !DoubleStep(g, split) {
        SellCrosses(low, high, baseReserve, quoteReserve, split, g);
      }
    }
  }

  lemma SellCrosses(low: nat, high: nat, baseReserve: nat, quoteReserve: nat, split: FeeSplit, g: nat)
    requires 0 < low <= high && 0 < quoteReserve <= baseReserve && quoteReserve <= U64_MAX
    requires split.lp <= BPS && split.protocol <= BPS && split.creator <= BPS
    requires SellRises(low, high, baseReserve, quoteReserve, split)
    requires SellGross(low, baseReserve, quoteReserve) <= g < SellGross(high, baseReserve, quoteReserve)
    ensures !DoubleStep(g, split)
  {
    hide SellQuote, Received, CpmmAmountOut, DoubleStep, NetOf;
    var a := SellGrossReaches(low, high, baseReserve, quoteReserve, g);
    var b := SellGrossReaches(low, high, baseReserve, quoteReserve, g + 1);
    if b < a { CpmmLaws(b, a, baseReserve, quoteReserve, 0, BPS); }
    ReceivedIsNet(a, baseReserve, quoteReserve, split);
    ReceivedIsNet(b, baseReserve, quoteReserve, split);
    assert Received(SellQuote(a, baseReserve, quoteReserve, split)) <= Received(SellQuote(b, baseReserve, quoteReserve, split));
    NetFallsAtDoubleStep(g, split);
  }

  /** 1 when a component's next unit crosses a rounding boundary: its remainder has no room left. */
  function StepsUp(gross: nat, bps: nat): nat {
    var spare := CeilDiv(gross * bps, BPS) * BPS - gross * bps;
    if bps > spare then 1 else 0
  }

  lemma FeeStep(gross: nat, bps: nat)
    requires bps <= BPS
    ensures CeilBps(gross + 1, bps) == CeilBps(gross, bps) + StepsUp(gross, bps)
  {
    var c := CeilBps(gross, bps);
    MulAdd(gross, 1, bps);
    CeilBounds(gross * bps, BPS);
    CeilAtMost(gross * bps + bps, BPS, c);
    CeilAtMost(gross * bps + bps, BPS, c + 1);
    CeilMono(gross * bps, gross * bps + bps, BPS);
  }

  /** The bound of two units is reached: in a pool of a million million units on both sides, selling
      10002 units is worth two less than selling 10001. */
  lemma SellFallsByTwo()
    ensures var reserve, split := 1_000_000_000_000, FeeSplit(20, 5, 5);
            && SellQuote(10_001, reserve, reserve, split) == Ok(PumpQuote(9_970, 30))
            && SellQuote(10_002, reserve, reserve, split) == Ok(PumpQuote(9_968, 33))
  {
    DeepPoolSale(10_001, 20, 5);
    DeepPoolSale(10_002, 21, 6);
  }

  /** A sale that is small for the pool loses one unit to rounding, and the fees. */
  lemma DeepPoolSale(amount: nat, lpFee: nat, otherFee: nat)
    requires 9_000 <= amount <= 100_000
    requires lpFee * BPS < (amount - 1) * 20 + BPS <= lpFee * BPS + BPS
    requires otherFee * BPS < (amount - 1) * 5 + BPS <= otherFee * BPS + BPS
    ensures var fee := lpFee + 2 * otherFee;
            fee < amount - 1
            && SellQuote(amount, 1_000_000_000_000, 1_000_000_000_000, FeeSplit(20, 5, 5))
            == Ok(PumpQuote(amount - 1 - fee, fee))
  {
    hide CpmmAmountOut, CeilDiv;
    DeepPoolOutput(amount);
    CeilIs((amount - 1) * 20, BPS, lpFee);
    CeilIs((amount - 1) * 5, BPS, otherFee);
    assert TotalFee(amount - 1, FeeSplit(20, 5, 5)) == lpFee + 2 * otherFee;
  }

  lemma DeepPoolOutput(amount: nat)
    requires 9_000 <= amount <= 100_000
    ensures CpmmAmountOut(amount, 1_000_000_000_000, 1_000_000_000_000, 0, BPS) == amount - 1
  {
    hide FloorDiv;
    var scaled := amount * 10_000;
    SmallSquare(amount);
    FloorIs(scaled * 1_000_000_000_000, 10_000_000_000_000_000 + scaled, amount - 1);
  }

  lemma SmallSquare(amount: nat)
    requires 9_000 <= amount <= 100_000
    ensures var d := 10_000_000_000_000_000 + amount * 10_000;
            (amount - 1) * d <= amount * 10_000 * 1_000_000_000_000 < (amount - 1) * d + d
  {
    var d := 10_000_000_000_000_000 + amount * 10_000;
    MulLe(amount, 100_000, amount);
    MulSub(amount, 1, d);
    MulSwap(amount, amount, 10_000);
  }

  /** With total fees of at most a quarter, a size that yields something is never followed by one
      that yields nothing. */
  lemma SellAcceptanceUpwardClosed(less: nat, more: nat, baseReserve: nat, quoteReserve: nat, split: FeeSplit)
    requires less <= more && quoteReserve <= U64_MAX && split.Total() <= BPS / 4
    requires SellQuote(less, baseReserve, quoteReserve, split).Ok?
    ensures SellQuote(more, baseReserve, quoteReserve, split).Ok?
  {
    hide TotalFee, CpmmAmountOut;
    CpmmLaws(less, more, baseReserve, quoteReserve, 0, BPS);
    NetStaysPositive(SellGross(less, baseReserve, quoteReserve), SellGross(more, baseReserve, quoteReserve), split);
  }

  lemma NetStaysPositive(less: nat, more: nat, split: FeeSplit)
    requires less <= more && split.Total() <= BPS / 4 && TotalFee(less, split) < less
    ensures TotalFee(more, split) < more
  {
    hide TotalFee;
    TotalFeeBounds(less, split);
    TotalFeeBounds(more, split);
    MulLe(split.Total(), BPS / 4, more);
    ShareLeavesSome(more, TotalFee(more, split), more * split.Total(), Components(split));
  }

  lemma ShareLeavesSome(amount: nat, fee: nat, share: nat, components: nat)
    requires components <= 3 && components < amount
    requires share <= 2_500 * amount && fee * BPS <= share + components * (BPS - 1)
    ensures fee < amount
  {
  }
}
