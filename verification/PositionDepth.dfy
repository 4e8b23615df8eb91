/** Where the liquidity of a swap walk comes from. A pool is a list of positions, each offering an
    amount over a range of prices; a tick's net is what starts there less what ends there. A walk
    that adds and subtracts the nets has, on every stretch, the liquidity of the positions covering it.
 */
module PositionDepth {
  import opened Common
  import opened Arith
  import opened ClmmCurve
  import opened TickMath
  import opened SwapWalk
  import opened SwapProperties

  datatype Position = Position(lower: nat, upper: nat, amount: nat)
  {
    predicate Covers(low: nat, high: nat) {
      lower <= low && high <= upper
    }

    /** It is in range just ahead of a price. */
    predicate InRange(aToB: bool, price: nat) {
      if aToB then lower < price <= upper else lower <= price < upper
    }

    /** What it adds to the net of a tick: its amount where it starts, and minus that where it ends. */
    function NetAt(price: nat): int {
      (if lower == price then amount else 0) - (if upper == price then amount else 0)
    }
  }

  ghost predicate AreRanges(ps: seq<Position>) {
    forall p <- ps :: p.lower < p.upper
  }

  /** All that is offered over the whole of a stretch of prices. */
  function Covering(ps: seq<Position>, low: nat, high: nat): nat {
    if ps == [] then 0
    else (if ps[0].Covers(low, high) then ps[0].amount else 0) + Covering(ps[1..], low, high)
  }

  /** What starts at a price less what ends there. */
  function NetAt(ps: seq<Position>, price: nat): int {
    if ps == [] then 0 else ps[0].NetAt(price) + NetAt(ps[1..], price)
  }

  /** All that is in range just ahead of a price. */
  function Depth(ps: seq<Position>, aToB: bool, price: nat): nat {
    if ps == [] then 0
    else (if ps[0].InRange(aToB, price) then ps[0].amount else 0) + Depth(ps[1..], aToB, price)
  }

  /** No position starts or ends strictly between two prices. */
  ghost predicate NoEndBetween(ps: seq<Position>, aToB: bool, s: nat, t: nat) {
    forall p <- ps :: !Between(aToB, s, p.lower, t) && !Between(aToB, s, p.upper, t)
  }

  ghost predicate Between(aToB: bool, s: nat, price: nat, t: nat) {
    Ahead(aToB, s, price) && Ahead(aToB, price, t)
  }

  lemma RestOf(ps: seq<Position>)
    requires ps != []
    ensures ps[0] in ps && forall p <- ps[1..] :: p in ps
  {
  }

  /** Up to the next end, what is in range just ahead is what covers the stretch, */
  lemma {:induction false} DepthCovers(ps: seq<Position>, aToB: bool, s: nat, t: nat)
    requires AreRanges(ps) && Ahead(aToB, s, t) && NoEndBetween(ps, aToB, s, t)
    ensures Depth(ps, aToB, s) == Covering(ps, Min(s, t), Max(s, t))
  {
    if ps != [] {
      RestOf(ps);
      DepthCovers(ps[1..], aToB, s, t);
    }
  }

  /** and beyond that end the net has been added, on the way up, or taken off. */
  lemma {:induction false} DepthAcross(ps: seq<Position>, aToB: bool, s: nat, t: nat)
    requires AreRanges(ps) && Ahead(aToB, s, t) && NoEndBetween(ps, aToB, s, t)
    ensures Depth(ps, aToB, t) == Depth(ps, aToB, s) + if aToB then -NetAt(ps, t) else NetAt(ps, t)
  {
    if ps != [] {
      RestOf(ps);
      DepthAcross(ps[1..], aToB, s, t);
    }
  }

  /** The two sides of a price differ by its net. */
  lemma {:induction false} SidesDifferByNet(ps: seq<Position>, price: nat)
    requires AreRanges(ps)
    ensures Depth(ps, false, price) == Depth(ps, true, price) + NetAt(ps, price)
  {
    if ps != [] {
      RestOf(ps);
      SidesDifferByNet(ps[1..], price);
    }
  }

  /** The list holds the ends of the positions between the price and the limit, in order, with their
      nets; ticks not ahead of the price may be among them, and are passed over. No sum on the way
      exceeds 128 bits. */
  ghost predicate TicksAhead(ps: seq<Position>, aToB: bool, sqrt: nat, cs: seq<Crossing>, limit: nat) {
    && (forall i, j :: 0 <= i < j < |cs| ==> Ahead(aToB, cs[i].sqrtPrice, cs[j].sqrtPrice))
    && (forall c <- cs :: AtOrAhead(aToB, c.sqrtPrice, limit) && c.liquidityNet == NetAt(ps, c.sqrtPrice)
                          && Depth(ps, aToB, c.sqrtPrice) <= U128_MAX)
    && (forall p <- ps :: Listed(cs, aToB, sqrt, p.lower, limit) && Listed(cs, aToB, sqrt, p.upper, limit))
  }

  ghost predicate Listed(cs: seq<Crossing>, aToB: bool, sqrt: nat, price: nat, limit: nat) {
    Between(aToB, sqrt, price, limit) ==> exists c <- cs :: c.sqrtPrice == price
  }

  lemma NextTick(ps: seq<Position>, aToB: bool, sqrt: nat, cs: seq<Crossing>, limit: nat)
    requires TicksAhead(ps, aToB, sqrt, cs, limit)
    ensures cs == [] ==> NoEndBetween(ps, aToB, sqrt, limit)
    ensures cs != [] && Ahead(aToB, sqrt, cs[0].sqrtPrice) ==>
              NoEndBetween(ps, aToB, sqrt, cs[0].sqrtPrice) && TicksAhead(ps, aToB, cs[0].sqrtPrice, cs[1..], limit)
    ensures cs != [] && !Ahead(aToB, sqrt, cs[0].sqrtPrice) ==> TicksAhead(ps, aToB, sqrt, cs[1..], limit)
  {
    hide NetAt, Depth;
    if cs != [] {
      var from := if Ahead(aToB, sqrt, cs[0].sqrtPrice) then cs[0].sqrtPrice else sqrt;
      forall price | Listed(cs, aToB, sqrt, price, limit)
        ensures Listed(cs[1..], aToB, from, price, limit) && !Between(aToB, sqrt, price, from)
      {
        if Between(aToB, sqrt, price, limit) {
          var c :| c in cs && c.sqrtPrice == price;
          assert c == cs[0] || c in cs[1..];
        }
      }
    }
  }

  /** A stretch is walked with exactly the liquidity of the positions that cover it. */
  ghost predicate AtDepth(ps: seq<Position>, v: Visit) {
    v.liquidity == Covering(ps, Min(v.from, v.target), Max(v.from, v.target))
  }

  /** Every stretch of a walk is, from a pool whose liquidity is what is in range just ahead. */
  lemma {:induction false} WalkIsAtDepth(ps: seq<Position>, fee: nat, aToB: bool, remaining: nat, sqrt: nat, liquidity: nat,
                                         cs: seq<Crossing>, limit: nat)
    requires fee < PPM && sqrt > 0 && PricesPositive(cs)
    requires AreRanges(ps) && TicksAhead(ps, aToB, sqrt, cs, limit) && liquidity == Depth(ps, aToB, sqrt)
    ensures forall v <- Visits(fee, aToB, remaining, sqrt, liquidity, cs, limit) :: AtDepth(ps, v)
    decreases |cs|
  {
    hide ComputeSwapStep, TicksAhead, NoEndBetween, Covering, Depth, NetAt;
    NextTick(ps, aToB, sqrt, cs, limit);
    if cs == [] {
      if Ahead(aToB, sqrt, limit) { DepthCovers(ps, aToB, sqrt, limit); }
    } else if !Ahead(aToB, sqrt, cs[0].sqrtPrice) {
      WalkIsAtDepth(ps, fee, aToB, remaining, sqrt, liquidity, cs[1..], limit);
    } else {
      var target := cs[0].sqrtPrice;
      DepthCovers(ps, aToB, sqrt, target);
      DepthAcross(ps, aToB, sqrt, target);
      NetApplied(ps, aToB, sqrt, cs, limit);
      var step := ComputeSwapStep(remaining, fee, liquidity, sqrt, target, aToB);
      if Left(remaining, step) != 0 && step.nextSqrt == target {
        WalkIsAtDepth(ps, fee, aToB, Left(remaining, step), target, Depth(ps, aToB, target), cs[1..], limit);
      }
    }
  }

  lemma NetApplied(ps: seq<Position>, aToB: bool, sqrt: nat, cs: seq<Crossing>, limit: nat)
    requires AreRanges(ps) && TicksAhead(ps, aToB, sqrt, cs, limit) && cs != [] && Ahead(aToB, sqrt, cs[0].sqrtPrice)
    ensures ApplyLiquidityNet(Depth(ps, aToB, sqrt), cs[0].liquidityNet, aToB) == Depth(ps, aToB, cs[0].sqrtPrice)
  {
    hide Depth, NetAt;
    NextTick(ps, aToB, sqrt, cs, limit);
    DepthAcross(ps, aToB, sqrt, cs[0].sqrtPrice);
    assert cs[0] in cs;
  }

  /** A pool standing exactly on a tick counts the positions of one side or of the other, whichever it
      last came from, and the walk does not cross the tick it stands on. So its liquidity is right
      exactly when that is the side it moves to, or the net of the tick is nothing. */
  lemma AtDepthIff(ps: seq<Position>, side: bool, fee: nat, aToB: bool, remaining: nat, sqrt: nat, liquidity: nat,
                   cs: seq<Crossing>, limit: nat)
    requires fee < PPM && sqrt > 0 && PricesPositive(cs)
    requires AreRanges(ps) && TicksAhead(ps, aToB, sqrt, cs, limit) && liquidity == Depth(ps, side, sqrt)
    requires Visits(fee, aToB, remaining, sqrt, liquidity, cs, limit) != []
    ensures (forall v <- Visits(fee, aToB, remaining, sqrt, liquidity, cs, limit) :: AtDepth(ps, v))
       <==> side == aToB || NetAt(ps, sqrt) == 0
  {
    hide Visits, TicksAhead, NetAt, Depth, AtDepth;
    SidesDifferByNet(ps, sqrt);
    if side == aToB || NetAt(ps, sqrt) == 0 {
      WalkIsAtDepth(ps, fee, aToB, remaining, sqrt, liquidity, cs, limit);
    } else {
      FirstVisit(ps, fee, aToB, remaining, sqrt, liquidity, cs, limit);
      var first := Visits(fee, aToB, remaining, sqrt, liquidity, cs, limit)[0];
      assert !AtDepth(ps, first);
    }
  }

  /** The first stretch has the liquidity of the pool. */
  lemma {:induction false} FirstVisit(ps: seq<Position>, fee: nat, aToB: bool, remaining: nat, sqrt: nat, liquidity: nat,
                                      cs: seq<Crossing>, limit: nat)
    requires fee < PPM && sqrt > 0 && PricesPositive(cs) && AreRanges(ps) && TicksAhead(ps, aToB, sqrt, cs, limit)
    requires Visits(fee, aToB, remaining, sqrt, liquidity, cs, limit) != []
    ensures var first := Visits(fee, aToB, remaining, sqrt, liquidity, cs, limit)[0];
            first.liquidity == liquidity && (AtDepth(ps, first) <==> liquidity == Depth(ps, aToB, sqrt))
    decreases |cs|
  {
    hide ComputeSwapStep, TicksAhead, NoEndBetween, Covering, Depth, NetAt;
    NextTick(ps, aToB, sqrt, cs, limit);
    if cs != [] && !Ahead(aToB, sqrt, cs[0].sqrtPrice) {
      FirstVisit(ps, fee, aToB, remaining, sqrt, liquidity, cs[1..], limit);
    } else {
      DepthCovers(ps, aToB, sqrt, if cs == [] then limit else cs[0].sqrtPrice);
    }
  }

  // ------------------------------------------------------------------ quotes across a tick

  /** Square-root prices of ticks -20, -1, 1 and 20. */
  const FAR_BELOW: nat := 18_428_307_471_288_117_482
  const BELOW: nat := 18_445_821_805_675_392_312
  const ABOVE: nat := 18_447_666_387_855_959_851
  const FAR_ABOVE: nat := 18_465_199_121_032_091_054

  /** Two positions around price 1, one of which ends at the first tick in the swap direction. */
  function Overlapping(aToB: bool): seq<Position> {
    [if aToB then Position(BELOW, FAR_ABOVE, 500_000_000) else Position(FAR_BELOW, ABOVE, 500_000_000),
     Position(FAR_BELOW, FAR_ABOVE, 500_000_000)]
  }

  function NextTickOf(aToB: bool): Crossing {
    if aToB then Crossing(BELOW, 500_000_000) else Crossing(ABOVE, -500_000_000)
  }

  function LimitOf(aToB: bool): nat {
    if aToB then FAR_BELOW else FAR_ABOVE
  }

  lemma OnePosition(p: Position, aToB: bool, price: nat)
    ensures Depth([p], aToB, price) == if p.InRange(aToB, price) then p.amount else 0
    ensures NetAt([p], price) == p.NetAt(price)
  {
    assert [p][1..] == [];
  }

  lemma TwoPositions(a: Position, b: Position, aToB: bool, price: nat)
    ensures Depth([a, b], aToB, price)
         == (if a.InRange(aToB, price) then a.amount else 0) + (if b.InRange(aToB, price) then b.amount else 0)
    ensures NetAt([a, b], price) == a.NetAt(price) + b.NetAt(price)
  {
    assert [a, b][1..] == [b];
    OnePosition(b, aToB, price);
  }

  lemma OverlappingIsReal(aToB: bool)
    ensures var ps := Overlapping(aToB);
            && AreRanges(ps) && TicksAhead(ps, aToB, Q64, [NextTickOf(aToB)], LimitOf(aToB))
            && Depth(ps, aToB, Q64) == 1_000_000_000
  {
    var ps, cs := Overlapping(aToB), [NextTickOf(aToB)];
    TwoPositions(ps[0], ps[1], aToB, Q64);
    TwoPositions(ps[0], ps[1], aToB, cs[0].sqrtPrice);
    assert cs[0] in cs && ps == [ps[0], ps[1]];
  }

  /** The first stretch is bought out at a liquidity of a thousand million, */
  lemma FirstStretch(aToB: bool)
    ensures ComputeSwapStep(100_000, 3_000, 1_000_000_000, Q64, NextTickOf(aToB).sqrtPrice, aToB)
         == Step(49_999, 49_996, NextTickOf(aToB).sqrtPrice, 151)
  {
    hide FloorDiv, CeilDiv, ComputeSwapStep;
    FloorIs(100_000 * 997_000, PPM, 99_700);
    CeilIs(49_999 * 3_000, 997_000, 151);
    if aToB {
      CeilIs(1_000_000_000 * Q64 * (Q64 - BELOW), BELOW * Q64, 49_999);
      FloorIs(1_000_000_000 * (Q64 - BELOW), Q64, 49_996);
    } else {
      CeilIs(1_000_000_000 * (ABOVE - Q64), Q64, 49_999);
      FloorIs(1_000_000_000 * Q64 * (ABOVE - Q64), Q64 * ABOVE, 49_996);
    }
    StepMeaning(100_000, 3_000, 1_000_000_000, Q64, NextTickOf(aToB).sqrtPrice, aToB);
  }

  function EndOf(aToB: bool): nat {
    if aToB then 18_443_988_564_871_792_800 else 18_449_499_994_216_886_580
  }

  /** and the second, of half that, ends the swap on the way. */
  lemma SecondStretch(aToB: bool)
    ensures ComputeSwapStep(49_850, 3_000, 500_000_000, NextTickOf(aToB).sqrtPrice, LimitOf(aToB), aToB)
         == Step(49_700, 49_690, EndOf(aToB), 150)
  {
    hide FloorDiv, CeilDiv, ComputeSwapStep;
    FloorIs(49_850 * 997_000, PPM, 49_700);
    if aToB {
      CeilIs(500_000_000 * Q64 * BELOW, 500_000_000 * Q64 + 49_700 * BELOW, EndOf(aToB));
      CeilAtMost(500_000_000 * Q64 * (BELOW - FAR_BELOW), FAR_BELOW * BELOW, 49_700);
      CeilIs(500_000_000 * Q64 * (BELOW - EndOf(aToB)), EndOf(aToB) * BELOW, 49_700);
      FloorIs(500_000_000 * (BELOW - EndOf(aToB)), Q64, 49_690);
    } else {
      FloorIs(49_700 * Q64, 500_000_000, EndOf(aToB) - ABOVE);
      CeilAtMost(500_000_000 * (FAR_ABOVE - ABOVE), Q64, 49_700);
      CeilIs(500_000_000 * (EndOf(aToB) - ABOVE), Q64, 49_700);
      FloorIs(500_000_000 * Q64 * (EndOf(aToB) - ABOVE), ABOVE * EndOf(aToB), 49_690);
    }
    StepMeaning(49_850, 3_000, 500_000_000, NextTickOf(aToB).sqrtPrice, LimitOf(aToB), aToB);
  }

  lemma LastStretch(cs: seq<Crossing>, fee: nat, aToB: bool, remaining: nat, sqrt: nat, liquidity: nat, limit: nat)
    requires |cs| == 1 && fee < PPM && sqrt > 0
    ensures Walk(fee, aToB, remaining, sqrt, liquidity, cs[1..], limit)
         == FinishWithinCoverage(fee, aToB, remaining, sqrt, liquidity, limit)
  {
    assert cs[1..] == [];
  }

  /** A whole quote across a tick, in either direction. */
  lemma QuoteAcrossTick(aToB: bool)
    ensures SwapQuote(Q64, Depth(Overlapping(aToB), aToB, Q64), 3_000, aToB, 100_000, [NextTickOf(aToB)], LimitOf(aToB))
         == Some(SwapDetail(99_686, 301, EndOf(aToB), 1))
  {
    hide ComputeSwapStep, Depth;
    OverlappingIsReal(aToB);
    FirstStretch(aToB);
    SecondStretch(aToB);
    assert ApplyLiquidityNet(1_000_000_000, NextTickOf(aToB).liquidityNet, aToB) == 500_000_000;
    LastStretch([NextTickOf(aToB)], 3_000, aToB, 49_850, NextTickOf(aToB).sqrtPrice, 500_000_000, LimitOf(aToB));
  }

  /** From a tick it stands on the walk goes on with positions it has left: this pool of one position
      quotes a sale below it, where there is nothing. */
  lemma QuoteOutsidePosition()
    ensures var ps := [Position(Q64, ABOVE, 1_000_000_000)];
            && AreRanges(ps) && TicksAhead(ps, true, Q64, [Crossing(Q64, 1_000_000_000)], FAR_BELOW)
            && Depth(ps, false, Q64) == 1_000_000_000 && Covering(ps, FAR_BELOW, Q64) == 0
            && SwapQuote(Q64, 1_000_000_000, 3_000, true, 1_000, [Crossing(Q64, 1_000_000_000)], FAR_BELOW)
            == Some(SwapDetail(996, 3, 18_446_725_682_324_046_339, 0))
  {
    hide FloorDiv, CeilDiv, ComputeSwapStep;
    var p, cs, end := Position(Q64, ABOVE, 1_000_000_000), [Crossing(Q64, 1_000_000_000)], 18_446_725_682_324_046_339;
    assert [p][1..] == [] && p in [p] && cs[0] in cs;
    OnePosition(p, true, Q64);
    OnePosition(p, false, Q64);
    LastStretch(cs, 3_000, true, 1_000, Q64, 1_000_000_000, FAR_BELOW);
    FloorIs(1_000 * 997_000, PPM, 997);
    CeilIs(1_000_000_000 * Q64 * Q64, 1_000_000_000 * Q64 + 997 * Q64, end);
    CeilAtMost(1_000_000_000 * Q64 * (Q64 - FAR_BELOW), FAR_BELOW * Q64, 997);
    CeilIs(1_000_000_000 * Q64 * (Q64 - end), end * Q64, 997);
    FloorIs(1_000_000_000 * (Q64 - end), Q64, 996);
    StepMeaning(1_000, 3_000, 1_000_000_000, Q64, FAR_BELOW, true);
  }
}
