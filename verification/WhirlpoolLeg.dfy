/** The single-tick Whirlpool leg of a route, the capacity it reports, and the older closed-form
    quote the tick walk must agree with.
 */
module WhirlpoolLeg {
  import opened Common
  import opened Arith
  import opened ClmmCurve
  import opened TickMath
  import opened SwapWalk
  import opened SwapProperties

  const MIN_TICK: int := -443_636
  const MAX_TICK: int := 443_636
  const TICKS_PER_ARRAY: nat := 88

  // ------------------------------------------------------------------ closed form

  /** The constant-liquidity quote with its price-impact guard; zero means unquotable. */
  function WhirlpoolAmountOut(sqrt: nat, liquidity: nat, fee: nat, inputIsA: bool, amountIn: nat, maxImpactBps: nat): nat
  {
    if amountIn == 0 || liquidity == 0 || sqrt == 0 || fee >= PPM then 0
    else
      var net := FloorDiv(amountIn * (PPM - fee), PPM);
      if net == 0 then 0
      else
        var next := if inputIsA then CeilDiv(liquidity * Q64 * sqrt, liquidity * Q64 + net * sqrt)
                    else sqrt + FloorDiv(net * Q64, liquidity);
        if (if inputIsA then next >= sqrt else next <= sqrt) then 0
        else
          var out := if inputIsA then FloorDiv(Span(liquidity, next, sqrt), Q64)
                     else (MulPositive(sqrt, next); FloorDiv(Span(liquidity * Q64, sqrt, next), sqrt * next));
          if FloorDiv(Abs(next - sqrt) * BPS, sqrt) > maxImpactBps then 0
          else if out <= U64_MAX then out else 0
  }

  lemma ClosedFormOnCurve(sqrt: nat, liquidity: nat, fee: nat, inputIsA: bool, amountIn: nat, maxImpactBps: nat)
    requires amountIn > 0 && liquidity > 0 && sqrt > 0 && fee < PPM
    ensures var next := PriceAfter(inputIsA, sqrt, liquidity, AfterFee(amountIn, fee));
            && next > 0 && AtOrAhead(inputIsA, sqrt, next)
            && var out := Released(inputIsA, sqrt, next, liquidity);
               WhirlpoolAmountOut(sqrt, liquidity, fee, inputIsA, amountIn, maxImpactBps)
               == if FloorDiv(Abs(next - sqrt) * BPS, sqrt) > maxImpactBps || out > U64_MAX then 0 else out
  {
    hide FloorDiv, CeilDiv;
    PriceMovesForward(inputIsA, sqrt, liquidity, AfterFee(amountIn, fee));
    NeededNothing(inputIsA, sqrt, liquidity);
    PriceStays(inputIsA, sqrt, liquidity);
  }

  /** Without crossings, and short of the coverage edge, the walk quotes exactly the closed form
      whenever the impact guard passes, in both directions and with no rounding slack. */
  lemma ClosedFormAgrees(sqrt: nat, liquidity: nat, fee: nat, aToB: bool, amountIn: nat, limit: nat, maxImpactBps: nat)
    requires CanWalk(fee, amountIn, sqrt, liquidity, [], limit) && amountIn > 0 && liquidity > 0
    requires Ahead(aToB, sqrt, limit)
    requires AfterFee(amountIn, fee) < Needed(aToB, sqrt, limit, liquidity)
    ensures var quote := SwapQuote(sqrt, liquidity, fee, aToB, amountIn, [], limit);
            WhirlpoolAmountOut(sqrt, liquidity, fee, aToB, amountIn, maxImpactBps)
            == match quote
               case None => 0
               case Some(d) => if FloorDiv(Abs(d.endSqrtPrice - sqrt) * BPS, sqrt) > maxImpactBps then 0 else d.amountOut
  {
    hide ComputeSwapStep, Needed, Released, PriceAfter, AfterFee, FeeOn, WhirlpoolAmountOut, FloorDiv;
    ClosedFormOnCurve(sqrt, liquidity, fee, aToB, amountIn, maxImpactBps);
    StepMeaning(amountIn, fee, liquidity, sqrt, limit, aToB);
  }

  // ------------------------------------------------------------------ single-tick leg

  datatype WhirlpoolReject = WrongMint | NoLiquidity | SingleTickExceeded(capacity: nat)
  {
    /** A capacity reject means a smaller size could work. */
    predicate IsCapacity() {
      SingleTickExceeded?
    }
  }

  datatype WhirlpoolState = WhirlpoolState(
    mintA: Mint, mintB: Mint,
    sqrtPrice: nat, liquidity: nat, tickCurrent: int, tickSpacing: nat, feePpm: nat,
    initializedTicks: seq<(int, int)>,  // (tick index, liquidity net)
    lowestStart: int, highestStart: int)

  /** The largest input the program reports as staying inside the tick. */
  function SingleTickCapacity(sqrt: nat, liquidity: nat, fee: nat, aToB: bool, boundary: nat): nat {
    if liquidity == 0 || fee >= PPM then 0
    else if !Ahead(aToB, sqrt, boundary) then 0
    else
      var afterFee := if aToB then AmountADelta(boundary, sqrt, liquidity, true)
                      else AmountBDelta(sqrt, boundary, liquidity, true);
      Min(FloorDiv(afterFee * PPM, PPM - fee), U64_MAX)
  }

  /** The largest of the ticks in a list that pass a test, or the smallest. */
  function Extreme(ticks: seq<(int, int)>, current: int, below: bool): Option<int> {
    if ticks == [] then None
    else
      var rest := Extreme(ticks[1..], current, below);
      var t := ticks[0].0;
      if (t <= current) != below then rest
      else match rest
        case None => Some(t)
        case Some(r) => Some(if below then Max(t, r) else Min(t, r))
  }

  /** The nearest initialized tick in the swap direction, else the edge of the loaded arrays. */
  function BoundaryTick(w: WhirlpoolState, aToB: bool): int {
    match Extreme(w.initializedTicks, w.tickCurrent, aToB)
    case Some(t) => t
    case None => if aToB then Max(w.lowestStart, MIN_TICK)
                 else Min(w.highestStart + w.tickSpacing * TICKS_PER_ARRAY, MAX_TICK)
  }

  /** `priceOf` is the tick-to-price table. */
  function QuoteLeg(w: WhirlpoolState, priceOf: int -> nat, input: Mint, amountIn: nat): Result<(nat, nat), WhirlpoolReject> {
    if input != w.mintA && input != w.mintB then Err(WrongMint)
    else
      var aToB := input == w.mintA;
      if w.liquidity == 0 then Err(NoLiquidity)
      else
        var boundary := priceOf(BoundaryTick(w, aToB));
        var capacity := SingleTickCapacity(w.sqrtPrice, w.liquidity, w.feePpm, aToB, boundary);
        match SwapQuote(w.sqrtPrice, w.liquidity, w.feePpm, aToB, amountIn, [], boundary)
        case Some(d) => if d.ticksCrossed == 0 then Ok((d.amountOut, d.totalFee)) else Err(SingleTickExceeded(capacity))
        case None => Err(SingleTickExceeded(capacity))
  }

  /** The leg quotes what the crossing-free walk to the boundary quotes, and only positive sizes. */
  lemma LegQuotesWalk(w: WhirlpoolState, priceOf: int -> nat, input: Mint, amountIn: nat)
    ensures var aToB := input == w.mintA;
            var walk := SwapQuote(w.sqrtPrice, w.liquidity, w.feePpm, aToB, amountIn, [], priceOf(BoundaryTick(w, aToB)));
            var quote := QuoteLeg(w, priceOf, input, amountIn);
            && (quote.Ok? <==> (input == w.mintA || input == w.mintB) && w.liquidity > 0 && walk.Some?)
            && (quote.Ok? ==> quote.value == (walk.value.amountOut, walk.value.totalFee) && amountIn > 0 && w.feePpm < PPM)
  {
    hide ComputeSwapStep;
  }

  /** The boundary is the nearest initialized tick: none lies strictly between it and the current
      tick, and it is itself initialized whenever there is one in that direction. */
  lemma {:induction false} ExtremeIsNearest(ticks: seq<(int, int)>, current: int, below: bool)
    ensures var e := Extreme(ticks, current, below);
            match e
            case None => forall t <- ticks :: (t.0 <= current) != below
            case Some(b) =>
              && (exists t <- ticks :: t.0 == b) && (b <= current) == below
              && forall t <- ticks :: (t.0 <= current) == below ==> if below then t.0 <= b else b <= t.0
  {
    if ticks != [] {
      ExtremeIsNearest(ticks[1..], current, below);
      assert ticks == [ticks[0]] + ticks[1..];
      var e, rest := Extreme(ticks, current, below), Extreme(ticks[1..], current, below);
      if e.Some? {
        if e == rest {
          var t :| t in ticks[1..] && t.0 == e.value;
          assert t in ticks;
        } else {
          assert ticks[0] in ticks && ticks[0].0 == e.value;
        }
      }
    }
  }

  /** A tick of a loaded array, within the tradable range; an array has 88 of them. */
  predicate Covered(w: WhirlpoolState, t: int) {
    w.lowestStart <= t < w.highestStart + w.tickSpacing * 88 && -443_636 <= t <= 443_636
  }

  ghost predicate Initialized(w: WhirlpoolState, t: int) {
    exists i <- w.initializedTicks :: i.0 == t
  }

  /** The arrays around the current tick are loaded, and the ticks listed are theirs. */
  ghost predicate LoadedAround(w: WhirlpoolState) {
    && Covered(w, w.tickCurrent) && w.tickCurrent < 443_636
    && forall i <- w.initializedTicks :: Covered(w, i.0)
  }

  /** Up to the boundary every tick is loaded and uninitialized, so the liquidity does not change; the
      boundary itself is initialized, or the edge of what is loaded. */
  lemma BoundaryEndsStretch(w: WhirlpoolState, aToB: bool)
    requires LoadedAround(w)
    ensures var b := BoundaryTick(w, aToB);
            -443_636 <= b <= 443_636 && if aToB then
              && b <= w.tickCurrent && (forall t :: b < t <= w.tickCurrent ==> Covered(w, t) && !Initialized(w, t))
              && (Initialized(w, b) || (Covered(w, b) && !Covered(w, b - 1)))
            else
              && w.tickCurrent < b && (forall t :: w.tickCurrent < t < b ==> Covered(w, t) && !Initialized(w, t))
              && (Initialized(w, b) || !Covered(w, b) || b == 443_636)
  {
    ExtremeIsNearest(w.initializedTicks, w.tickCurrent, aToB);
  }

  /** The exact gross input that reaches the boundary. */
  function ReachingInput(sqrt: nat, liquidity: nat, fee: nat, aToB: bool, boundary: nat): nat
    requires fee < PPM && sqrt > 0 && boundary > 0 && Ahead(aToB, sqrt, boundary)
  {
    CeilDiv(Needed(aToB, sqrt, boundary, liquidity) * PPM, PPM - fee)
  }

  /** A positive size is accepted exactly when it does not exceed the input that reaches the
      boundary (whose output must fit 64 bits), and then no tick is crossed. */
  lemma AcceptedIffWithinTick(sqrt: nat, liquidity: nat, fee: nat, aToB: bool, amountIn: nat, boundary: nat)
    requires CanWalk(fee, amountIn, sqrt, liquidity, [], boundary) && amountIn > 0 && liquidity > 0
    requires Ahead(aToB, sqrt, boundary) && Released(aToB, sqrt, boundary, liquidity) <= U64_MAX
    ensures var quote := SwapQuote(sqrt, liquidity, fee, aToB, amountIn, [], boundary);
            && (quote.Some? <==> amountIn <= ReachingInput(sqrt, liquidity, fee, aToB, boundary))
            && (quote.Some? ==> quote.value.ticksCrossed == 0 && quote.value.totalFee <= amountIn
                                && quote.value.amountOut <= Released(aToB, sqrt, boundary, liquidity))
  {
    hide ComputeSwapStep, Needed, Released, PriceAfter, AfterFee, FeeOn;
    var cost, net := Needed(aToB, sqrt, boundary, liquidity), AfterFee(amountIn, fee);
    StepMeaning(amountIn, fee, liquidity, sqrt, boundary, aToB);
    Afford(cost, amountIn, fee);
    GrossIsCeil(cost, fee);
    AfterFeeAtMost(amountIn, fee);
    if net < cost {
      PriceStopsShort(aToB, sqrt, boundary, liquidity, net);
      ReleasedMono(aToB, sqrt, PriceAfter(aToB, sqrt, liquidity, net), boundary, liquidity);
    }
  }

  /** The reported capacity is the reaching input or one below it; it is exact only when the fee
      divides evenly, because the program divides down where its comment says it rounds up. */
  lemma CapacityWithinOne(sqrt: nat, liquidity: nat, fee: nat, aToB: bool, boundary: nat)
    requires CanWalk(fee, 0, sqrt, liquidity, [], boundary) && liquidity > 0 && Ahead(aToB, sqrt, boundary)
    ensures var reaching := ReachingInput(sqrt, liquidity, fee, aToB, boundary);
            var capacity := SingleTickCapacity(sqrt, liquidity, fee, aToB, boundary);
            && capacity == Min(FloorDiv(Needed(aToB, sqrt, boundary, liquidity) * PPM, PPM - fee), U64_MAX)
            && (capacity < U64_MAX ==> capacity <= reaching <= capacity + 1)
            && (capacity == U64_MAX ==> reaching >= U64_MAX)
            && (capacity < U64_MAX ==>
                  (capacity == reaching <==> (Needed(aToB, sqrt, boundary, liquidity) * PPM) % (PPM - fee) == 0))
  {
    hide Needed, Released;
    var cost, d := Needed(aToB, sqrt, boundary, liquidity), PPM - fee;
    DeltasAreExact(aToB, sqrt, boundary, liquidity);
    FloorAndCeil(cost * PPM, d);
    if cost > U128_MAX {
      FloorAtLeast(cost * PPM, d, U64_MAX);
      FloorAtLeast(U128_MAX * PPM, d, U64_MAX);
    }
  }

  /** Without liquidity, at or past the boundary, or at a fee of 100%, it is nothing. */
  lemma NoRoomNoCapacity(sqrt: nat, liquidity: nat, fee: nat, aToB: bool, boundary: nat)
    requires liquidity == 0 || fee >= 1_000_000 || (if aToB then boundary >= sqrt else boundary <= sqrt)
    ensures SingleTickCapacity(sqrt, liquidity, fee, aToB, boundary) == 0
  {
    hide AmountADelta, AmountBDelta, FloorDiv;
  }

  lemma FloorAndCeil(n: nat, d: nat)
    requires d > 0
    ensures FloorDiv(n, d) <= CeilDiv(n, d) <= FloorDiv(n, d) + 1
    ensures FloorDiv(n, d) == CeilDiv(n, d) <==> n % d == 0
  {
    var q := FloorDiv(n, d);
    FloorIsQuotient(n, d);
    MulAdd(q, 1, d);
    CeilAtMost(n, d, q);
    CeilAtMost(n, d, q + 1);
    FloorMono(n, n + d - 1, d);
  }

  /** A leg in the middle of its tick, with liquidity to trade and everything in range. */
  ghost predicate InsideTick(w: WhirlpoolState, priceOf: int -> nat, input: Mint, amountIn: nat) {
    && (input == w.mintA || input == w.mintB)
    && var boundary := priceOf(BoundaryTick(w, input == w.mintA));
    && CanWalk(w.feePpm, amountIn, w.sqrtPrice, w.liquidity, [], boundary)
    && w.liquidity > 0 && Ahead(input == w.mintA, w.sqrtPrice, boundary)
    && Released(input == w.mintA, w.sqrtPrice, boundary, w.liquidity) <= U64_MAX
  }

  function CapacityFor(w: WhirlpoolState, priceOf: int -> nat, input: Mint): nat {
    var aToB := input == w.mintA;
    SingleTickCapacity(w.sqrtPrice, w.liquidity, w.feePpm, aToB, priceOf(BoundaryTick(w, aToB)))
  }

  lemma LegIsWalk(w: WhirlpoolState, priceOf: int -> nat, input: Mint, amountIn: nat)
    requires InsideTick(w, priceOf, input, amountIn) && amountIn > 0
    ensures var aToB := input == w.mintA;
            var boundary := priceOf(BoundaryTick(w, aToB));
            var quote := QuoteLeg(w, priceOf, input, amountIn);
            && (quote.Ok? <==> amountIn <= ReachingInput(w.sqrtPrice, w.liquidity, w.feePpm, aToB, boundary))
            && (quote.Ok? ==> quote.value.0 <= Released(aToB, w.sqrtPrice, boundary, w.liquidity)
                              && quote.value.1 <= amountIn)
            && (quote.Err? ==> quote == Err(SingleTickExceeded(CapacityFor(w, priceOf, input))))
  {
    hide SwapQuote, SingleTickCapacity, ReachingInput, Needed, Released;
    AcceptedIffWithinTick(w.sqrtPrice, w.liquidity, w.feePpm, input == w.mintA, amountIn,
                          priceOf(BoundaryTick(w, input == w.mintA)));
  }

  lemma CapacityNearReach(w: WhirlpoolState, priceOf: int -> nat, input: Mint, amountIn: nat)
    requires InsideTick(w, priceOf, input, amountIn)
    ensures var capacity := CapacityFor(w, priceOf, input);
            var reaching := ReachingInput(w.sqrtPrice, w.liquidity, w.feePpm, input == w.mintA,
                                          priceOf(BoundaryTick(w, input == w.mintA)));
            if capacity < U64_MAX then capacity <= reaching <= capacity + 1 else capacity == U64_MAX <= reaching
  {
    hide SingleTickCapacity, ReachingInput, Needed, Released;
    CapacityWithinOne(w.sqrtPrice, w.liquidity, w.feePpm, input == w.mintA, priceOf(BoundaryTick(w, input == w.mintA)));
  }

  /** The capacity the optimizer relies on is tight to one unit. Every positive size up to it is
      quoted, for no more than reaching the boundary releases... */
  lemma CapacityIsQuoted(w: WhirlpoolState, priceOf: int -> nat, input: Mint, amountIn: nat)
    requires InsideTick(w, priceOf, input, amountIn)
    requires 0 < amountIn <= CapacityFor(w, priceOf, input)
    ensures QuoteLeg(w, priceOf, input, amountIn).Ok?
  {
    hide QuoteLeg, CapacityFor, ReachingInput, InsideTick;
    LegIsWalk(w, priceOf, input, amountIn);
    CapacityNearReach(w, priceOf, input, amountIn);
  }

  /** ... and every size two or more above it is a capacity reject that reports it. */
  lemma PastCapacityIsRejected(w: WhirlpoolState, priceOf: int -> nat, input: Mint, amountIn: nat)
    requires InsideTick(w, priceOf, input, amountIn)
    requires amountIn >= CapacityFor(w, priceOf, input) + 2
    ensures QuoteLeg(w, priceOf, input, amountIn) == Err(SingleTickExceeded(CapacityFor(w, priceOf, input)))
  {
    hide QuoteLeg, CapacityFor, ReachingInput;
    LegIsWalk(w, priceOf, input, amountIn);
    CapacityNearReach(w, priceOf, input, amountIn);
  }

  /** A reject is only "too big" if every larger size is rejected too. That holds of a reject
      exactly when its size is positive, or not even a single unit is quoted. */
  lemma RejectIsTooBigIff(w: WhirlpoolState, priceOf: int -> nat, input: Mint, a: nat)
    requires a <= U64_MAX && QuoteLeg(w, priceOf, input, a).Err?
    requires w.feePpm < PPM ==>
               CanWalk(w.feePpm, U64_MAX, w.sqrtPrice, w.liquidity, [], priceOf(BoundaryTick(w, input == w.mintA)))
    ensures (forall b: nat :: a <= b <= U64_MAX ==> QuoteLeg(w, priceOf, input, b).Err?) <==>
              a > 0 || QuoteLeg(w, priceOf, input, 1).Err?
  {
    hide QuoteLeg, SwapQuote, BoundaryTick;
    forall b: nat | a <= b <= U64_MAX && (a > 0 || QuoteLeg(w, priceOf, input, 1).Err?)
      ensures QuoteLeg(w, priceOf, input, b).Err?
    {
      LegQuotesWalk(w, priceOf, input, b);
      if QuoteLeg(w, priceOf, input, b).Ok? {
        var aToB, small := input == w.mintA, Max(a, 1);
        LegQuotesWalk(w, priceOf, input, small);
        QuoteMono(w.sqrtPrice, w.liquidity, w.feePpm, aToB, small, b, [], priceOf(BoundaryTick(w, aToB)));
      }
    }
  }

  /** So it fails for every leg in the middle of its tick: nothing at all is answered "too big", and
      one unit is quoted. */
  lemma NothingLooksTooBig(w: WhirlpoolState, priceOf: int -> nat, input: Mint)
    requires InsideTick(w, priceOf, input, 1)
    ensures QuoteLeg(w, priceOf, input, 0) == Err(SingleTickExceeded(CapacityFor(w, priceOf, input)))
    ensures QuoteLeg(w, priceOf, input, 1).Ok?
  {
    hide CapacityFor, Needed, Released, BoundaryTick;
    var aToB := input == w.mintA;
    var boundary := priceOf(BoundaryTick(w, aToB));
    LegIsWalk(w, priceOf, input, 1);
    NeededPositive(aToB, w.sqrtPrice, boundary, w.liquidity);
    MulPositive(Needed(aToB, w.sqrtPrice, boundary, w.liquidity), PPM);
    CeilPositive(Needed(aToB, w.sqrtPrice, boundary, w.liquidity) * PPM, PPM - w.feePpm);
    NothingIsRefused(w, priceOf, input);
  }

  lemma NothingIsRefused(w: WhirlpoolState, priceOf: int -> nat, input: Mint)
    requires (input == w.mintA || input == w.mintB) && w.liquidity > 0
    ensures QuoteLeg(w, priceOf, input, 0) == Err(SingleTickExceeded(CapacityFor(w, priceOf, input)))
  {
    hide Walk, SingleTickCapacity;
  }

  /** Such legs exist: a pool at price 1 with its next initialized tick one up. */
  lemma InsideTickExists(priceOf: int -> nat) returns (w: WhirlpoolState)
    requires priceOf(1) == 18_447_666_387_855_959_851  // as the tick table has it
    ensures InsideTick(w, priceOf, w.mintB, 1)
  {
    hide FloorDiv;
    w := WhirlpoolState("SOL", "T", Q64, 1_000_000_000, 0, 1, 3_000, [(1, -1_000_000_000)], 0, 0);
    assert BoundaryTick(w, false) == 1;
    var p := priceOf(1);
    FloorAtLeast(1_000_000_000 * Q64 * (p - Q64), Q64 * p, U64_MAX + 1);
  }

  /** A single-tick quote is never a guess: it is what the walk over the real crossings yields,
      the nearest of them being the boundary. */
  lemma SingleTickQuoteIsExact(sqrt: nat, liquidity: nat, fee: nat, aToB: bool, amountIn: nat, boundary: nat,
                               cs: seq<Crossing>, limit: nat)
    requires CanWalk(fee, amountIn, sqrt, liquidity, cs, limit) && IsPrice(boundary)
    requires cs != [] && cs[0].sqrtPrice == boundary && Ahead(aToB, sqrt, boundary)
    requires SwapQuote(sqrt, liquidity, fee, aToB, amountIn, [], boundary).Some?
    ensures SwapQuote(sqrt, liquidity, fee, aToB, amountIn, cs, limit)
         == SwapQuote(sqrt, liquidity, fee, aToB, amountIn, [], boundary)
  {
    hide ComputeSwapStep;
  }
}
