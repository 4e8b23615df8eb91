/** The exact arithmetic of one constant-liquidity stretch of a Whirlpool price curve, at
    unbounded precision. Prices are Q64.64 square roots; `aToB` swaps move the price down, the
    others up. Everything the swap walk needs about the curve is stated here for both directions
    at once, so that the proofs about walks never look inside the formulas again.
 */
module ClmmCurve {
  import opened Arith

  const PPM: nat := 1_000_000

  /** `to` lies strictly further in the swap direction than `from`. */
  predicate Ahead(aToB: bool, from: nat, to: nat) {
    if aToB then to < from else from < to
  }

  predicate AtOrAhead(aToB: bool, from: nat, to: nat) {
    from == to || Ahead(aToB, from, to)
  }

  /** `liquidity * (hi - lo)`, in Q64.64 units of token B. */
  function Span(liquidity: nat, lo: nat, hi: nat): nat
    requires lo <= hi
  {
    liquidity * (hi - lo)
  }

  /** Input token needed to move the price from `s` to `t`, rounded up. */
  function Needed(aToB: bool, s: nat, t: nat, liquidity: nat): nat
    requires s > 0 && t > 0 && AtOrAhead(aToB, s, t)
  {
    if aToB then
      MulPositive(t, s);
      CeilDiv(Span(liquidity * Q64, t, s), t * s)
    else CeilDiv(Span(liquidity, s, t), Q64)
  }

  /** Output token released by moving the price from `s` to `t`, rounded down. */
  function Released(aToB: bool, s: nat, t: nat, liquidity: nat): nat
    requires s > 0 && t > 0 && AtOrAhead(aToB, s, t)
  {
    if aToB then FloorDiv(Span(liquidity, t, s), Q64)
    else
      MulPositive(s, t);
      FloorDiv(Span(liquidity * Q64, s, t), s * t)
  }

  /** Price after `amount` of input, rounded against the trade. */
  function PriceAfter(aToB: bool, s: nat, liquidity: nat, amount: nat): nat
    requires s > 0 && liquidity > 0
  {
    if aToB then CeilDiv(liquidity * Q64 * s, liquidity * Q64 + amount * s)
    else s + FloorDiv(amount * Q64, liquidity)
  }

  // ------------------------------------------------------------------ curve laws

  lemma CrossMultiply(k: nat, s: nat, t: nat, amount: nat)
    requires t <= s
    ensures k * s <= t * (k + amount * s) <==> k * (s - t) <= amount * (t * s)
  {
    MulAdd(k, amount * s, t);
    MulSwap(amount, t, s);
    MulSub(s, t, k);
  }

  lemma ReachesIffPaidDown(k: nat, s: nat, t: nat, amount: nat)
    requires 0 < t <= s && k > 0
    ensures t * s > 0 && CeilDiv(k * s, k + amount * s) > 0
    ensures CeilDiv(k * s, k + amount * s) <= t <==> CeilDiv(k * (s - t), t * s) <= amount
  {
    MulPositive(t, s);
    CeilAtMost(k * s, k + amount * s, t);
    CrossMultiply(k, s, t, amount);
    CeilAtMost(k * (s - t), t * s, amount);
    MulPositive(k, s);
    CeilPositive(k * s, k + amount * s);
  }

  lemma ReachesIffPaidUp(liquidity: nat, s: nat, t: nat, amount: nat)
    requires s <= t && liquidity > 0
    ensures t <= s + FloorDiv(amount * Q64, liquidity) <==> CeilDiv(liquidity * (t - s), Q64) <= amount
  {
    hide FloorDiv, CeilDiv;
    CeilAtMost(liquidity * (t - s), Q64, amount);
    FloorAtLeast(amount * Q64, liquidity, t - s);
  }

  /** The price reaches `t` exactly when the trade pays what `t` costs: the two rounded formulas
      are adjoint, and every other law of the curve follows from that. */
  lemma ReachesIffPaid(aToB: bool, s: nat, t: nat, liquidity: nat, amount: nat)
    requires s > 0 && t > 0 && liquidity > 0 && AtOrAhead(aToB, s, t)
    ensures AtOrAhead(aToB, t, PriceAfter(aToB, s, liquidity, amount)) <==> Needed(aToB, s, t, liquidity) <= amount
    ensures PriceAfter(aToB, s, liquidity, amount) > 0
  {
    if aToB {
      ReachesIffPaidDown(liquidity * Q64, s, t, amount);
    } else {
      ReachesIffPaidUp(liquidity, s, t, amount);
    }
  }

  lemma NeededNothing(aToB: bool, s: nat, liquidity: nat)
    requires s > 0
    ensures Needed(aToB, s, s, liquidity) == 0 && Released(aToB, s, s, liquidity) == 0
  {
    hide FloorDiv, CeilDiv;
    MulPositive(s, s);
    CeilPositive(0, s * s);
    CeilPositive(0, Q64);
    NothingFloors(s * s);
    NothingFloors(Q64);
  }

  lemma PriceMovesForward(aToB: bool, s: nat, liquidity: nat, amount: nat)
    requires s > 0 && liquidity > 0
    ensures PriceAfter(aToB, s, liquidity, amount) > 0
    ensures AtOrAhead(aToB, s, PriceAfter(aToB, s, liquidity, amount))
  {
    NeededNothing(aToB, s, liquidity);
    ReachesIffPaid(aToB, s, s, liquidity, amount);
  }

  /** No input, no movement. */
  lemma PriceStays(aToB: bool, s: nat, liquidity: nat)
    requires s > 0 && liquidity > 0
    ensures PriceAfter(aToB, s, liquidity, 0) == s
  {
    if aToB {
      var k := liquidity * Q64;
      assert k + 0 * s == k && k * s == 0 + s * k;
      CeilShift(0, s, k);
      CeilAtMost(0, k, 0);
    }
  }

  /** A trade that cannot pay for the target stops strictly short of it, and never backs up. */
  lemma PriceStopsShort(aToB: bool, s: nat, t: nat, liquidity: nat, amount: nat)
    requires s > 0 && t > 0 && AtOrAhead(aToB, s, t)
    requires amount < Needed(aToB, s, t, liquidity)
    ensures liquidity > 0
    ensures var n := PriceAfter(aToB, s, liquidity, amount);
            n > 0 && AtOrAhead(aToB, s, n) && Ahead(aToB, n, t)
  {
    if s == t { NeededNothing(aToB, s, liquidity); } else { NeededPositive(aToB, s, t, liquidity); }
    PriceMovesForward(aToB, s, liquidity, amount);
    ReachesIffPaid(aToB, s, t, liquidity, amount);
  }

  /** The price reached never asks for more input than was paid. */
  lemma PriceIsPaidFor(aToB: bool, s: nat, liquidity: nat, amount: nat)
    requires s > 0 && liquidity > 0
    ensures var n := PriceAfter(aToB, s, liquidity, amount);
            n > 0 && AtOrAhead(aToB, s, n) && Needed(aToB, s, n, liquidity) <= amount
  {
    PriceMovesForward(aToB, s, liquidity, amount);
    ReachesIffPaid(aToB, s, PriceAfter(aToB, s, liquidity, amount), liquidity, amount);
  }

  lemma PriceMono(aToB: bool, s: nat, liquidity: nat, less: nat, more: nat)
    requires s > 0 && liquidity > 0 && less <= more
    ensures AtOrAhead(aToB, PriceAfter(aToB, s, liquidity, less), PriceAfter(aToB, s, liquidity, more))
  {
    PriceIsPaidFor(aToB, s, liquidity, less);
    ReachesIffPaid(aToB, s, PriceAfter(aToB, s, liquidity, less), liquidity, more);
  }

  /** Stopping at `m` on the way never gets the price further: rounding at the stop is lost. */
  lemma PriceSplit(aToB: bool, s: nat, m: nat, liquidity: nat, rest: nat, amount: nat)
    requires s > 0 && m > 0 && liquidity > 0 && AtOrAhead(aToB, s, m)
    requires Needed(aToB, s, m, liquidity) + rest <= amount
    ensures AtOrAhead(aToB, PriceAfter(aToB, m, liquidity, rest), PriceAfter(aToB, s, liquidity, amount))
  {
    var n := PriceAfter(aToB, m, liquidity, rest);
    PriceIsPaidFor(aToB, m, liquidity, rest);
    NeededSplit(aToB, s, m, n, liquidity);
    ReachesIffPaid(aToB, s, n, liquidity, amount);
  }

  lemma NeededMono(aToB: bool, s: nat, near: nat, far: nat, liquidity: nat)
    requires s > 0 && near > 0 && far > 0 && AtOrAhead(aToB, s, near) && AtOrAhead(aToB, near, far)
    ensures Needed(aToB, s, near, liquidity) <= Needed(aToB, s, far, liquidity)
  {
    if s == near {
      NeededNothing(aToB, s, liquidity);
    } else if liquidity == 0 {
      NeededPositive(aToB, s, near, liquidity);
    } else {
      var x := Needed(aToB, s, far, liquidity);
      ReachesIffPaid(aToB, s, far, liquidity, x);
      ReachesIffPaid(aToB, s, near, liquidity, x);
    }
  }

  lemma ReleasedMono(aToB: bool, s: nat, near: nat, far: nat, liquidity: nat)
    requires s > 0 && near > 0 && far > 0 && AtOrAhead(aToB, s, near) && AtOrAhead(aToB, near, far)
    ensures Released(aToB, s, near, liquidity) <= Released(aToB, s, far, liquidity)
  {
    ReleasedSplit(aToB, s, near, far, liquidity);
  }

  /** Fractions over `m*s` and `t*m` add up over `t*s`: the middle price cancels. */
  lemma MiddleCancels(k: nat, s: nat, m: nat, t: nat)
    ensures k * (s - m) * t + k * (m - t) * s == k * (s - t) * m
  {
    MulSub(s, m, k);
    MulSub(m, t, k);
    MulSub(s, t, k);
    MulSub(k * s, k * m, t);
    MulSub(k * m, k * t, s);
    MulSub(k * s, k * t, m);
  }

  lemma CommonDenominator(x: nat, y: nat, s: nat, m: nat, t: nat)
    ensures x * (m * s) * t + y * (t * m) * s == (x + y) * (t * s) * m
  {
    assert x * (m * s) * t == x * (t * s) * m;
    assert y * (t * m) * s == y * (t * s) * m;
    MulAdd(x, y, t * s);
    MulAdd(x * (t * s), y * (t * s), m);
  }

  /** Two partial payments cover the whole one. */
  lemma NeededSplit(aToB: bool, s: nat, m: nat, t: nat, liquidity: nat)
    requires s > 0 && m > 0 && t > 0 && AtOrAhead(aToB, s, m) && AtOrAhead(aToB, m, t)
    ensures Needed(aToB, s, t, liquidity) <= Needed(aToB, s, m, liquidity) + Needed(aToB, m, t, liquidity)
  {
    if aToB {
      NeededSplitDown(liquidity * Q64, s, m, t);
    } else {
      MulAdd(m - s, t - m, liquidity);
      CeilSubadditive(liquidity * (m - s), liquidity * (t - m), Q64);
    }
  }

  lemma NeededSplitDown(k: nat, s: nat, m: nat, t: nat)
    requires s >= m >= t > 0
    ensures m * s > 0 && t * m > 0 && t * s > 0
    ensures CeilDiv(k * (s - t), t * s) <= CeilDiv(k * (s - m), m * s) + CeilDiv(k * (m - t), t * m)
  {
    MulPositive(m, s);
    MulPositive(t, m);
    MulPositive(t, s);
    var x, y := CeilDiv(k * (s - m), m * s), CeilDiv(k * (m - t), t * m);
    CeilBounds(k * (s - m), m * s);
    CeilBounds(k * (m - t), t * m);
    MulLe(k * (s - m), x * (m * s), t);
    MulLe(k * (m - t), y * (t * m), s);
    MiddleCancels(k, s, m, t);
    CommonDenominator(x, y, s, m, t);
    MulCancel(k * (s - t), (x + y) * (t * s), m);
    CeilAtMost(k * (s - t), t * s, x + y);
  }

  /** Two partial releases never exceed the whole one. */
  lemma ReleasedSplit(aToB: bool, s: nat, m: nat, t: nat, liquidity: nat)
    requires s > 0 && m > 0 && t > 0 && AtOrAhead(aToB, s, m) && AtOrAhead(aToB, m, t)
    ensures Released(aToB, s, m, liquidity) + Released(aToB, m, t, liquidity) <= Released(aToB, s, t, liquidity)
  {
    if aToB {
      MulAdd(s - m, m - t, liquidity);
      FloorSuperadditive(liquidity * (s - m), liquidity * (m - t), Q64);
    } else {
      MulPositive(s, m);
      MulPositive(m, t);
      MulPositive(s, t);
      ReleasedSplitUp(liquidity * Q64, s, m, t);
    }
  }

  lemma PartsFit(x: nat, y: nat, k: nat, s: nat, m: nat, t: nat)
    requires 0 < s <= m <= t
    requires x * (m * t) <= k * (t - m) && y * (s * m) <= k * (m - s)
    ensures (x + y) * (s * t) <= k * (t - s)
  {
    MulLe(x * (m * t), k * (t - m), s);
    MulLe(y * (s * m), k * (m - s), t);
    MiddleCancels(k, t, m, s);
    CommonDenominator(x, y, t, m, s);
    MulCancel((x + y) * (s * t), k * (t - s), m);
  }

  lemma FloorsFit(p: nat, a: nat, q: nat, b: nat, r: nat, c: nat)
    requires a > 0 && b > 0 && c > 0
    requires (FloorDiv(p, a) + FloorDiv(q, b)) * c <= r
    ensures FloorDiv(p, a) + FloorDiv(q, b) <= FloorDiv(r, c)
  {
    FloorAtLeast(r, c, FloorDiv(p, a) + FloorDiv(q, b));
  }

  lemma ReleasedSplitUp(k: nat, s: nat, m: nat, t: nat)
    requires 0 < s <= m <= t
    requires s * m > 0 && m * t > 0 && s * t > 0
    ensures FloorDiv(k * (t - m), m * t) + FloorDiv(k * (m - s), s * m) <= FloorDiv(k * (t - s), s * t)
  {
    FloorBounds(k * (m - s), s * m);
    FloorBounds(k * (t - m), m * t);
    PartsFit(FloorDiv(k * (t - m), m * t), FloorDiv(k * (m - s), s * m), k, s, m, t);
    FloorsFit(k * (t - m), m * t, k * (m - s), s * m, k * (t - s), s * t);
  }

  lemma NothingFloors(d: nat)
    requires d > 0
    ensures FloorDiv(0, d) == 0
  {
  }

  lemma NeededPositive(aToB: bool, s: nat, t: nat, liquidity: nat)
    requires s > 0 && t > 0 && Ahead(aToB, s, t)
    ensures Needed(aToB, s, t, liquidity) > 0 <==> liquidity > 0
    ensures liquidity == 0 ==> Released(aToB, s, t, liquidity) == 0
  {
    hide FloorDiv, CeilDiv;
    if aToB {
      MulPositive(t, s);
      NothingFloors(Q64);
      CeilPositive(liquidity * Q64 * (s - t), t * s);
      if liquidity > 0 { MulPositive(liquidity * Q64, s - t); }
    } else {
      MulPositive(s, t);
      NothingFloors(s * t);
      CeilPositive(liquidity * (t - s), Q64);
      if liquidity > 0 { MulPositive(liquidity, t - s); }
    }
  }

  // ------------------------------------------------------------------ fee laws

  /** What is left of a gross input once the fee is set aside. */
  function AfterFee(gross: nat, fee: nat): nat
    requires fee < PPM
  {
    FloorDiv(gross * (PPM - fee), PPM)
  }

  /** The fee charged on top of a net input. */
  function FeeOn(net: nat, fee: nat): nat
    requires fee < PPM
  {
    CeilDiv(net * fee, PPM - fee)
  }

  /** Gross price of a net input. */
  function Gross(net: nat, fee: nat): nat
    requires fee < PPM
  {
    net + FeeOn(net, fee)
  }

  lemma AffordFraction(net: nat, gross: nat, fee: nat, kept: nat)
    requires kept > 0
    ensures net <= FloorDiv(gross * kept, kept + fee) <==> net + CeilDiv(net * fee, kept) <= gross
  {
    FloorAtLeast(gross * kept, kept + fee, net);
    MulAdd(kept, fee, net);
    if gross >= net {
      MulSub(gross, net, kept);
      CeilAtMost(net * fee, kept, gross - net);
    } else {
      MulSub(net, gross, kept);
      MulPositive(net - gross, kept);
    }
  }

  /** A net amount is available exactly when its gross price is. */
  lemma Afford(net: nat, gross: nat, fee: nat)
    requires fee < PPM
    ensures net <= AfterFee(gross, fee) <==> Gross(net, fee) <= gross
  {
    AffordFraction(net, gross, fee, PPM - fee);
  }

  lemma GrossMono(x: nat, y: nat, fee: nat)
    requires fee < PPM && x <= y
    ensures Gross(x, fee) <= Gross(y, fee)
  {
    MulLe(x, y, fee);
    CeilMono(x * fee, y * fee, PPM - fee);
  }

  lemma GrossSubadditive(x: nat, y: nat, fee: nat)
    requires fee < PPM
    ensures Gross(x + y, fee) <= Gross(x, fee) + Gross(y, fee)
  {
    assert (x + y) * fee == x * fee + y * fee;
    CeilSubadditive(x * fee, y * fee, PPM - fee);
  }

  lemma AfterFeeMono(x: nat, y: nat, fee: nat)
    requires fee < PPM && x <= y
    ensures AfterFee(x, fee) <= AfterFee(y, fee)
  {
    MulLe(x, y, PPM - fee);
    FloorMono(x * (PPM - fee), y * (PPM - fee), PPM);
  }

  lemma AfterFeeAtMost(gross: nat, fee: nat)
    requires fee < PPM
    ensures AfterFee(gross, fee) <= gross
  {
    Afford(AfterFee(gross, fee), gross, fee);
  }

  /** Paying the fee in two parts leaves no more to spend than paying it at once. */
  lemma AfterFeeSplit(net: nat, gross: nat, fee: nat)
    requires fee < PPM && Gross(net, fee) <= gross
    ensures net + AfterFee(gross - Gross(net, fee), fee) <= AfterFee(gross, fee)
  {
    var rest := AfterFee(gross - Gross(net, fee), fee);
    Afford(rest, gross - Gross(net, fee), fee);
    GrossSubadditive(net, rest, fee);
    Afford(net + rest, gross, fee);
  }

  /** The gross price is the whole fraction rounded up once. */
  lemma GrossIsCeil(net: nat, fee: nat)
    requires fee < PPM
    ensures Gross(net, fee) == CeilDiv(net * PPM, PPM - fee)
  {
    CeilShift(net * fee, net, PPM - fee);
    assert net * fee + net * (PPM - fee) == net * PPM;
  }
}
