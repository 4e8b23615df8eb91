/** What the swap walk guarantees over any number of crossings, in both directions: it conserves
    its input, it is monotone and downward closed in the input size, stopping on the way never
    helps the trader, and without crossings it is the closed form.
 */
module SwapProperties {
  import opened Arith
  import opened ClmmCurve
  import opened TickMath
  import opened SwapWalk

  /** Where a walk may stand: 64-bit input, positive 128-bit prices, 128-bit liquidity. */
  ghost predicate CanWalk(fee: nat, remaining: nat, sqrt: nat, liquidity: nat, cs: seq<Crossing>, limit: nat) {
    && fee < PPM && remaining <= U64_MAX && IsPrice(sqrt) && IsPrice(limit) && liquidity <= U128_MAX
    && forall c <- cs :: IsPrice(c.sqrtPrice)
  }

  // ------------------------------------------------------------------ conservation

  /** One stretch of a walk: the state it started from, where it was headed, what it did. */
  datatype Visit = Visit(remaining: nat, from: nat, target: nat, liquidity: nat, step: Step)

  /** Every step the walk takes, in order. */
  function Visits(fee: nat, aToB: bool, remaining: nat, sqrt: nat, liquidity: nat, cs: seq<Crossing>, limit: nat)
      : seq<Visit>
    requires fee < PPM && sqrt > 0 && PricesPositive(cs)
    decreases |cs|
  {
    if cs == [] then
      if remaining == 0 || !Ahead(aToB, sqrt, limit) || liquidity == 0 then []
      else [Visit(remaining, sqrt, limit, liquidity,
                  ComputeSwapStep(remaining, fee, liquidity, sqrt, limit, aToB))]
    else if !Ahead(aToB, sqrt, cs[0].sqrtPrice) then
      Visits(fee, aToB, remaining, sqrt, liquidity, cs[1..], limit)
    else
      var step := ComputeSwapStep(remaining, fee, liquidity, sqrt, cs[0].sqrtPrice, aToB);
      var here := Visit(remaining, sqrt, cs[0].sqrtPrice, liquidity, step);
      if Left(remaining, step) == 0 || step.nextSqrt != cs[0].sqrtPrice then [here]
      else [here] + Visits(fee, aToB, Left(remaining, step), step.nextSqrt,
                           ApplyLiquidityNet(liquidity, cs[0].liquidityNet, aToB), cs[1..], limit)
  }

  function TotalIn(vs: seq<Visit>): nat {
    if vs == [] then 0 else vs[0].step.amountIn + vs[0].step.fee + TotalIn(vs[1..])
  }

  function TotalFee(vs: seq<Visit>): nat {
    if vs == [] then 0 else vs[0].step.fee + TotalFee(vs[1..])
  }

  function TotalOut(vs: seq<Visit>): nat {
    if vs == [] then 0 else vs[0].step.amountOut + TotalOut(vs[1..])
  }

  /** A visit neither overshoots nor overcharges, and divides by its liquidity only when there is
      some; short of its target it spends all it had. */
  ghost predicate Sound(fee: nat, aToB: bool, v: Visit)
    requires fee < PPM
  {
    && CanStep(v.remaining, fee, v.from, v.target, aToB)
    && AtOrAhead(aToB, v.from, v.step.nextSqrt) && AtOrAhead(aToB, v.step.nextSqrt, v.target)
    && (v.step.nextSqrt == v.target <==>
          AfterFee(v.remaining, fee) >= Needed(aToB, v.from, v.target, v.liquidity))
    && v.step.amountIn + v.step.fee <= v.remaining
    && (v.step.nextSqrt != v.target ==> v.liquidity > 0 && v.step.amountIn + v.step.fee == v.remaining)
  }

  /** Each visit takes over exactly where the one before it stopped. */
  ghost predicate Continues(before: Visit, after: Visit) {
    && after.from == before.step.nextSqrt == before.target
    && after.remaining == before.remaining - (before.step.amountIn + before.step.fee) > 0
  }

  lemma ChainExtends(here: Visit, rest: seq<Visit>)
    requires forall i :: 0 < i < |rest| ==> Continues(rest[i - 1], rest[i])
    requires rest != [] ==> Continues(here, rest[0])
    ensures var vs := [here] + rest; forall i :: 0 < i < |vs| ==> Continues(vs[i - 1], vs[i])
  {
    var vs := [here] + rest;
    forall i | 0 < i < |vs| ensures Continues(vs[i - 1], vs[i]) {
      if i > 1 { assert vs[i - 1] == rest[i - 2] && vs[i] == rest[i - 1]; }
    }
  }

  /** Every step of a walk is sound, and each starts from exactly what the one before it left. */
  lemma {:induction false} VisitsAreSound(fee: nat, aToB: bool, remaining: nat, sqrt: nat, liquidity: nat,
                                          cs: seq<Crossing>, limit: nat)
    requires CanWalk(fee, remaining, sqrt, liquidity, cs, limit)
    ensures var vs := Visits(fee, aToB, remaining, sqrt, liquidity, cs, limit);
            && (forall v <- vs :: Sound(fee, aToB, v))
            && (forall i :: 0 < i < |vs| ==> Continues(vs[i - 1], vs[i]))
            && (vs != [] ==> vs[0].from == sqrt && vs[0].remaining == remaining)
    decreases |cs|
  {
    hide ComputeSwapStep, Needed, Released, PriceAfter, AfterFee, FeeOn;
    if cs == [] {
      if remaining != 0 && Ahead(aToB, sqrt, limit) && liquidity != 0 {
        StepConserves(remaining, fee, liquidity, sqrt, limit, aToB);
      }
    } else if !Ahead(aToB, sqrt, cs[0].sqrtPrice) {
      VisitsAreSound(fee, aToB, remaining, sqrt, liquidity, cs[1..], limit);
    } else {
      var target := cs[0].sqrtPrice;
      StepConserves(remaining, fee, liquidity, sqrt, target, aToB);
      var step := ComputeSwapStep(remaining, fee, liquidity, sqrt, target, aToB);
      if Left(remaining, step) != 0 && step.nextSqrt == target {
        var next := ApplyLiquidityNet(liquidity, cs[0].liquidityNet, aToB);
        VisitsAreSound(fee, aToB, Left(remaining, step), target, next, cs[1..], limit);
        ChainExtends(Visit(remaining, sqrt, target, liquidity, step),
                     Visits(fee, aToB, Left(remaining, step), target, next, cs[1..], limit));
      }
    }
  }

  /** The steps of a walk never consume more than its input, and an accepted swap consumes all of
      it: net inputs and fees add up to the input exactly, outputs to the output. */
  lemma {:induction false} WalkConserves(fee: nat, aToB: bool, remaining: nat, sqrt: nat, liquidity: nat,
                                         cs: seq<Crossing>, limit: nat)
    requires CanWalk(fee, remaining, sqrt, liquidity, cs, limit)
    ensures var vs := Visits(fee, aToB, remaining, sqrt, liquidity, cs, limit);
            var fill := Walk(fee, aToB, remaining, sqrt, liquidity, cs, limit);
            && TotalIn(vs) <= remaining
            && (fill.Filled? ==>
                  && TotalIn(vs) == remaining && TotalFee(vs) == fill.fee && TotalOut(vs) == fill.out
                  && fill.endSqrt == if vs == [] then sqrt else vs[|vs| - 1].step.nextSqrt)
    decreases |cs|
  {
    hide ComputeSwapStep, Needed, Released, PriceAfter, AfterFee, FeeOn;
    if cs == [] {
      if remaining != 0 && Ahead(aToB, sqrt, limit) && liquidity != 0 {
        StepConserves(remaining, fee, liquidity, sqrt, limit, aToB);
      }
    } else if !Ahead(aToB, sqrt, cs[0].sqrtPrice) {
      WalkConserves(fee, aToB, remaining, sqrt, liquidity, cs[1..], limit);
    } else {
      var target := cs[0].sqrtPrice;
      StepConserves(remaining, fee, liquidity, sqrt, target, aToB);
      var step := ComputeSwapStep(remaining, fee, liquidity, sqrt, target, aToB);
      if Left(remaining, step) != 0 && step.nextSqrt == target {
        var next := ApplyLiquidityNet(liquidity, cs[0].liquidityNet, aToB);
        WalkConserves(fee, aToB, Left(remaining, step), target, next, cs[1..], limit);
        var rest := Visits(fee, aToB, Left(remaining, step), target, next, cs[1..], limit);
        assert ([Visit(remaining, sqrt, target, liquidity, step)] + rest)[1..] == rest;
      }
    }
  }

  // ------------------------------------------------------------------ monotonicity

  /** Acceptance is downward closed in the input and the output is monotone in it. */
  lemma {:induction false} WalkMono(fee: nat, aToB: bool, less: nat, more: nat, sqrt: nat, liquidity: nat,
                                    cs: seq<Crossing>, limit: nat)
    requires 0 < less <= more && CanWalk(fee, more, sqrt, liquidity, cs, limit)
    requires Walk(fee, aToB, more, sqrt, liquidity, cs, limit).Filled?
    ensures Walk(fee, aToB, less, sqrt, liquidity, cs, limit).Filled?
    ensures Walk(fee, aToB, less, sqrt, liquidity, cs, limit).out
         <= Walk(fee, aToB, more, sqrt, liquidity, cs, limit).out
    decreases |cs|
  {
    hide ComputeSwapStep, Needed, Released, PriceAfter, AfterFee, FeeOn;
    if cs == [] {
      StepConserves(less, fee, liquidity, sqrt, limit, aToB);
      StepConserves(more, fee, liquidity, sqrt, limit, aToB);
      StepMono(less, more, fee, liquidity, sqrt, limit, aToB);
    } else if !Ahead(aToB, sqrt, cs[0].sqrtPrice) {
      WalkMono(fee, aToB, less, more, sqrt, liquidity, cs[1..], limit);
    } else {
      var target := cs[0].sqrtPrice;
      StepConserves(less, fee, liquidity, sqrt, target, aToB);
      StepConserves(more, fee, liquidity, sqrt, target, aToB);
      StepMono(less, more, fee, liquidity, sqrt, target, aToB);
      var a := ComputeSwapStep(less, fee, liquidity, sqrt, target, aToB);
      if a.nextSqrt == target && Left(less, a) > 0 {
        WalkMono(fee, aToB, Left(less, a), Left(more, a), target,
                 ApplyLiquidityNet(liquidity, cs[0].liquidityNet, aToB), cs[1..], limit);
      }
    }
  }

  /** For a fixed pool, every size below an accepted one is accepted, for no larger an output. */
  lemma QuoteMono(sqrt: nat, liquidity: nat, fee: nat, aToB: bool, less: nat, more: nat,
                  cs: seq<Crossing>, limit: nat)
    requires 0 < less <= more && CanWalk(fee, more, sqrt, liquidity, cs, limit)
    requires SwapQuote(sqrt, liquidity, fee, aToB, more, cs, limit).Some?
    ensures SwapQuote(sqrt, liquidity, fee, aToB, less, cs, limit).Some?
    ensures SwapQuote(sqrt, liquidity, fee, aToB, less, cs, limit).value.amountOut
         <= SwapQuote(sqrt, liquidity, fee, aToB, more, cs, limit).value.amountOut
  {
    WalkMono(fee, aToB, less, more, sqrt, liquidity, cs, limit);
  }

  // ------------------------------------------------------------------ splitting

  /** Stopping at `m` on the way to `t`: the two steps release no more than the one, and if they
      reach `t` then so does the one, with at least as much input to spare. */
  lemma StepSplit(remaining: nat, fee: nat, liquidity: nat, s: nat, m: nat, t: nat, aToB: bool)
    requires CanStep(remaining, fee, s, m, aToB) && CanStep(remaining, fee, m, t, aToB)
    requires ComputeSwapStep(remaining, fee, liquidity, s, t, aToB).amountOut <= U64_MAX
    ensures var whole := ComputeSwapStep(remaining, fee, liquidity, s, t, aToB);
            var first := ComputeSwapStep(remaining, fee, liquidity, s, m, aToB);
            var left := Left(remaining, first);
            var second := ComputeSwapStep(left, fee, liquidity, m, t, aToB);
            && (first.nextSqrt != m ==> first == whole)
            && (first.nextSqrt == m ==>
                  && first.amountOut + second.amountOut <= whole.amountOut
                  && (second.nextSqrt == t ==> whole.nextSqrt == t && Left(left, second) <= Left(remaining, whole)))
  {
    hide ComputeSwapStep, Needed, Released, PriceAfter, AfterFee, FeeOn;
    StepMeaning(remaining, fee, liquidity, s, m, aToB);
    StepMeaning(remaining, fee, liquidity, s, t, aToB);
    NeededMono(aToB, s, m, t, liquidity);
    var net, cost := AfterFee(remaining, fee), Needed(aToB, s, m, liquidity);
    if net >= cost {
      Afford(cost, remaining, fee);
      var left := remaining - Gross(cost, fee);
      var rest := AfterFee(left, fee);
      AfterFeeSplit(cost, remaining, fee);
      StepMeaning(left, fee, liquidity, m, t, aToB);
      if rest >= Needed(aToB, m, t, liquidity) {
        BothReach(remaining, fee, liquidity, s, m, t, aToB);
      } else {
        SecondFallsShort(net, rest, liquidity, s, m, t, aToB);
      }
    }
  }

  lemma BothReach(remaining: nat, fee: nat, liquidity: nat, s: nat, m: nat, t: nat, aToB: bool)
    requires CanStep(remaining, fee, s, m, aToB) && CanStep(remaining, fee, m, t, aToB)
    requires Gross(Needed(aToB, s, m, liquidity), fee) <= remaining
    requires AfterFee(remaining - Gross(Needed(aToB, s, m, liquidity), fee), fee) >= Needed(aToB, m, t, liquidity)
    ensures AfterFee(remaining, fee) >= Needed(aToB, s, t, liquidity)
    ensures Gross(Needed(aToB, s, t, liquidity), fee)
         <= Gross(Needed(aToB, s, m, liquidity), fee) + Gross(Needed(aToB, m, t, liquidity), fee) <= remaining
    ensures Released(aToB, s, m, liquidity) + Released(aToB, m, t, liquidity) <= Released(aToB, s, t, liquidity)
  {
    hide Needed, Released, PriceAfter, AfterFee, FeeOn;
    var x, y := Needed(aToB, s, m, liquidity), Needed(aToB, m, t, liquidity);
    NeededSplit(aToB, s, m, t, liquidity);
    ReleasedSplit(aToB, s, m, t, liquidity);
    Afford(y, remaining - Gross(x, fee), fee);
    GrossSubadditive(x, y, fee);
    GrossMono(Needed(aToB, s, t, liquidity), x + y, fee);
    Afford(Needed(aToB, s, t, liquidity), remaining, fee);
  }

  lemma SecondFallsShort(net: nat, rest: nat, liquidity: nat, s: nat, m: nat, t: nat, aToB: bool)
    requires IsPrice(s) && IsPrice(m) && IsPrice(t) && Ahead(aToB, s, m) && Ahead(aToB, m, t)
    requires Needed(aToB, s, m, liquidity) + rest <= net
    requires rest < Needed(aToB, m, t, liquidity)
    ensures liquidity > 0
    ensures var stop := PriceAfter(aToB, m, liquidity, rest);
            var end := if net >= Needed(aToB, s, t, liquidity) then t else PriceAfter(aToB, s, liquidity, net);
            && stop > 0 && end > 0 && AtOrAhead(aToB, m, stop) && AtOrAhead(aToB, s, end)
            && Released(aToB, s, m, liquidity) + Released(aToB, m, stop, liquidity) <= Released(aToB, s, end, liquidity)
  {
    hide Needed, Released, PriceAfter, AfterFee, FeeOn;
    PriceStopsShort(aToB, m, t, liquidity, rest);
    PriceMovesForward(aToB, s, liquidity, net);
    PriceSplit(aToB, s, m, liquidity, rest, net);
    var stop := PriceAfter(aToB, m, liquidity, rest);
    var end := if net >= Needed(aToB, s, t, liquidity) then t else PriceAfter(aToB, s, liquidity, net);
    ReleasedSplit(aToB, s, m, stop, liquidity);
    ReleasedMono(aToB, s, stop, end, liquidity);
  }

  /** The crossing list with a stop that changes no liquidity put in before position `k`. */
  function WithStop(cs: seq<Crossing>, k: nat, m: nat): seq<Crossing>
    requires k <= |cs|
  {
    cs[..k] + [Crossing(m, 0)] + cs[k..]
  }

  /** The stop lies before everything the walk would meet from position `k` on. */
  ghost predicate StopsBefore(aToB: bool, m: nat, later: seq<Crossing>, limit: nat) {
    Ahead(aToB, m, limit) && forall c <- later :: Ahead(aToB, m, c.sqrtPrice)
  }

  lemma {:induction false} WalkSplit(fee: nat, aToB: bool, remaining: nat, s: nat, liquidity: nat,
                                     cs: seq<Crossing>, limit: nat, k: nat, m: nat)
    requires k <= |cs| && remaining > 0 && CanWalk(fee, remaining, s, liquidity, cs, limit)
    requires IsPrice(m) && StopsBefore(aToB, m, cs[k..], limit)
    requires var whole := Walk(fee, aToB, remaining, s, liquidity, cs, limit); whole.Filled? && whole.out <= U64_MAX
    ensures PricesPositive(WithStop(cs, k, m))
    ensures var split := Walk(fee, aToB, remaining, s, liquidity, WithStop(cs, k, m), limit);
            split.Filled? && split.out <= Walk(fee, aToB, remaining, s, liquidity, cs, limit).out
    decreases k
  {
    hide ComputeSwapStep, Needed, Released, PriceAfter, AfterFee, FeeOn;
    if k == 0 {
      assert WithStop(cs, k, m)[0] == Crossing(m, 0) && WithStop(cs, k, m)[1..] == cs && cs[0..] == cs;
      if Ahead(aToB, s, m) {
        var t := if cs == [] then limit else cs[0].sqrtPrice;
        assert cs != [] ==> cs[0] in cs;
        StepConserves(remaining, fee, liquidity, s, m, aToB);
        StepConserves(remaining, fee, liquidity, s, t, aToB);
        StepSplit(remaining, fee, liquidity, s, m, t, aToB);
        var first := ComputeSwapStep(remaining, fee, liquidity, s, m, aToB);
        var left := Left(remaining, first);
        if first.nextSqrt == m && left > 0 {
          StepConserves(left, fee, liquidity, m, t, aToB);
          var second := ComputeSwapStep(left, fee, liquidity, m, t, aToB);
          var whole := ComputeSwapStep(remaining, fee, liquidity, s, t, aToB);
          if cs != [] && second.nextSqrt == t && Left(left, second) > 0 {
            WalkMono(fee, aToB, Left(left, second), Left(remaining, whole), t,
                     ApplyLiquidityNet(liquidity, cs[0].liquidityNet, aToB), cs[1..], limit);
          }
        }
      }
    } else {
      assert WithStop(cs, k, m)[0] == cs[0];
      assert WithStop(cs, k, m)[1..] == WithStop(cs[1..], k - 1, m);
      assert cs[1..][k - 1..] == cs[k..];
      if !Ahead(aToB, s, cs[0].sqrtPrice) {
        WalkSplit(fee, aToB, remaining, s, liquidity, cs[1..], limit, k - 1, m);
      } else {
        var target := cs[0].sqrtPrice;
        StepConserves(remaining, fee, liquidity, s, target, aToB);
        var step := ComputeSwapStep(remaining, fee, liquidity, s, target, aToB);
        if Left(remaining, step) > 0 && step.nextSqrt == target {
          WalkSplit(fee, aToB, Left(remaining, step), target,
                    ApplyLiquidityNet(liquidity, cs[0].liquidityNet, aToB), cs[1..], limit, k - 1, m);
        }
      }
    }
  }

  /** Splitting never helps: with a stop of no liquidity change anywhere on the way, an accepted
      swap is still accepted, and its output is never larger. */
  lemma SplittingNeverHelps(sqrt: nat, liquidity: nat, fee: nat, aToB: bool, amountIn: nat,
                            cs: seq<Crossing>, limit: nat, k: nat, m: nat)
    requires k <= |cs| && CanWalk(fee, amountIn, sqrt, liquidity, cs, limit)
    requires IsPrice(m) && StopsBefore(aToB, m, cs[k..], limit)
    requires SwapQuote(sqrt, liquidity, fee, aToB, amountIn, cs, limit).Some?
    ensures PricesPositive(WithStop(cs, k, m))
    ensures var split := SwapQuote(sqrt, liquidity, fee, aToB, amountIn, WithStop(cs, k, m), limit);
            split.Some? && split.value.amountOut
                        <= SwapQuote(sqrt, liquidity, fee, aToB, amountIn, cs, limit).value.amountOut
  {
    WalkSplit(fee, aToB, amountIn, sqrt, liquidity, cs, limit, k, m);
  }
}
