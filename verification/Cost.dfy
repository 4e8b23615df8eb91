/** The execution-cost model shared by route evaluation and the pre-submit gate. */
module Cost {
  import opened Arith

  datatype ExecutionPayment =
    | NoPayment
    | JitoTip(minLamports: nat, maxLamports: nat)
    | PrivateRelay(lamports: nat)

  /** Gross profits at which the tip share steps up. */
  const TIP_TIER_THRESHOLDS: seq<nat> := [5_000_000, 50_000_000, 500_000_000]

  function TipTierBps(gross: nat): nat {
    if gross < 1_000_000_000 / 200 then 5_000
    else if gross < 1_000_000_000 / 20 then 6_000
    else if gross < 1_000_000_000 / 2 then 7_000
    else 8_000
  }

  function JitoTipAmount(gross: nat, minTip: nat, maxTip: nat): nat {
    Min(Max(FloorDiv(gross * TipTierBps(gross), 10_000), minTip), maxTip)
  }

  function PaymentAmount(payment: ExecutionPayment, gross: nat): nat {
    match payment
    case NoPayment => 0
    case JitoTip(lo, hi) => JitoTipAmount(gross, lo, hi)
    case PrivateRelay(lamports) => lamports
  }

  function SatAdd(a: nat, b: nat): nat {
    Min(a + b, U64_MAX)
  }

  datatype CostModel = CostModel(
    signatureFee: nat, computeUnitLimit: nat, computeUnitPriceMicro: nat, extraPriority: nat,
    ata: nat, rent: nat, margin: nat, requiredNet: nat, payment: ExecutionPayment)
  {
    function FixedCosts(): nat {
      var priority := FloorDiv(computeUnitLimit * computeUnitPriceMicro, 1_000_000) % 0x1_0000_0000_0000_0000;
      SatAdd(SatAdd(SatAdd(SatAdd(signatureFee, priority), extraPriority), ata), rent)
    }

    function Payment(gross: nat): nat {
      PaymentAmount(payment, gross)
    }

    function TotalBurn(gross: nat): nat {
      SatAdd(FixedCosts(), Payment(gross))
    }

    /** Projected profit after every burned cost and the reserved margin; negative is a loss. */
    function Net(gross: nat): int {
      gross - TotalBurn(gross) - margin
    }

    function MaxPayment(gross: nat): nat {
      SatSub(SatSub(SatSub(gross, FixedCosts()), margin), requiredNet)
    }

    predicate IsViable(gross: nat) {
      Net(gross) >= requiredNet
    }
  }

  // ------------------------------------------------------------------ net profit across tip tiers

  lemma ShareGrowsSlowly(less: nat, more: nat, bps: nat)
    requires less <= more && bps <= 10_000
    ensures FloorDiv(less * bps, 10_000) <= FloorDiv(more * bps, 10_000) <= FloorDiv(less * bps, 10_000) + (more - less)
  {
    MulLe(less, more, bps);
    FloorMono(less * bps, more * bps, 10_000);
    MulSub(more, less, bps);
    MulLe(bps, 10_000, more - less);
    FloorShift(less * bps, more - less, 10_000);
    FloorMono(more * bps, less * bps + (more - less) * 10_000, 10_000);
  }

  /** Inside one tip tier, earning more is never worth less. */
  lemma NetMonoInTier(c: CostModel, less: nat, more: nat)
    requires less <= more && TipTierBps(less) == TipTierBps(more)
    ensures c.Net(less) <= c.Net(more)
  {
    if c.payment.JitoTip? {
      ShareGrowsSlowly(less, more, TipTierBps(less));
    }
  }

  /** Where net profit can peak up to a gross profit: there, or just below a threshold not above it. */
  predicate IsPeak(peak: nat, gross: nat) {
    peak == gross || (peak + 1 <= gross && peak + 1 in TIP_TIER_THRESHOLDS)
  }

  /** The step down at a threshold is the only way net profit can fall, so its maximum over
      `0..gross` is at `gross` or just below one of the thresholds not above it. */
  lemma NetPeaksAtTierEdges(c: CostModel, g: nat, gross: nat) returns (peak: nat)
    requires g <= gross
    ensures IsPeak(peak, gross) && g <= peak && TipTierBps(g) == TipTierBps(peak) && c.Net(g) <= c.Net(peak)
  {
    if TipTierBps(g) == TipTierBps(gross) {
      peak := gross;
    } else {
      var k := if g < 5_000_000 then 0 else if g < 50_000_000 then 1 else 2;
      peak := TIP_TIER_THRESHOLDS[k] - 1;
      assert peak + 1 in TIP_TIER_THRESHOLDS;
    }
    NetMonoInTier(c, g, peak);
  }

  /** Net profit falls from one gross profit to the next only when the next is a threshold. */
  lemma NetFallsOnlyAtThresholds(c: CostModel, gross: nat)
    requires c.Net(gross + 1) < c.Net(gross)
    ensures gross + 1 in TIP_TIER_THRESHOLDS
  {
    if TipTierBps(gross) == TipTierBps(gross + 1) {
      NetMonoInTier(c, gross, gross + 1);
    }
    assert TIP_TIER_THRESHOLDS[0] == 5_000_000 && TIP_TIER_THRESHOLDS[1] == 50_000_000
        && TIP_TIER_THRESHOLDS[2] == 500_000_000;
  }

  /** And it does fall there: with an unclamped tip, crossing the first threshold costs more than
      the extra lamport earns. */
  lemma NetFallsAtFirstThreshold()
    ensures var c := CostModel(5_000, 0, 0, 0, 0, 0, 0, 0, JitoTip(0, U64_MAX));
            c.Net(5_000_000) < c.Net(4_999_999)
  {
    hide FloorDiv;
    FloorIsQuotient(0, 1_000_000);
    FloorIsQuotient(4_999_999 * 5_000, 10_000);
    FloorIsQuotient(5_000_000 * 6_000, 10_000);
  }

  /** What a tip is at both sides of each threshold: half of the profit below the first, then 60, 70
      and 80 percent. */
  lemma TipsAroundThresholds()
    ensures JitoTipAmount(1_000_000, 0, U64_MAX) == 500_000 && JitoTipAmount(1_000_000_000, 0, U64_MAX) == 800_000_000
    ensures JitoTipAmount(4_999_999, 0, U64_MAX) == 2_499_999 && JitoTipAmount(5_000_000, 0, U64_MAX) == 3_000_000
    ensures JitoTipAmount(49_999_999, 0, U64_MAX) == 29_999_999 && JitoTipAmount(50_000_000, 0, U64_MAX) == 35_000_000
    ensures JitoTipAmount(499_999_999, 0, U64_MAX) == 349_999_999 && JitoTipAmount(500_000_000, 0, U64_MAX) == 400_000_000
  {
    hide FloorDiv;
    FloorIs(1_000_000 * 5_000, 10_000, 500_000);
    FloorIs(1_000_000_000 * 8_000, 10_000, 800_000_000);
    FloorIs(4_999_999 * 5_000, 10_000, 2_499_999);
    FloorIs(5_000_000 * 6_000, 10_000, 3_000_000);
    FloorIs(49_999_999 * 6_000, 10_000, 29_999_999);
    FloorIs(50_000_000 * 7_000, 10_000, 35_000_000);
    FloorIs(499_999_999 * 7_000, 10_000, 349_999_999);
    FloorIs(500_000_000 * 8_000, 10_000, 400_000_000);
  }

  /** So with an unclamped tip, the lamport that reaches a threshold costs a tenth of the threshold. */
  lemma ThresholdCostsATenth(c: CostModel, k: nat)
    requires c.payment == JitoTip(0, U64_MAX) && k < |TIP_TIER_THRESHOLDS|
    requires c.FixedCosts() + 400_000_000 <= U64_MAX
    ensures var t := TIP_TIER_THRESHOLDS[k];
            t > 0 && c.Net(t) == c.Net(t - 1) - t / 10
  {
    hide CostModel.FixedCosts, JitoTipAmount;
    TipsAroundThresholds();
  }

  /** A tip never leaves its bounds, and between them is the share of its tier. */
  lemma TipIsClamped(gross: nat, lo: nat, hi: nat)
    requires lo <= hi
    ensures var tip, share := JitoTipAmount(gross, lo, hi), FloorDiv(gross * TipTierBps(gross), 10_000);
            lo <= tip <= hi && (lo <= share <= hi ==> tip == share) && (share < lo ==> tip == lo) && (hi < share ==> tip == hi)
  {
  }

  /** The saturating sums come to one: everything that is charged, up to the largest amount there is.
      Only the priority fee is cut to 64 bits. */
  lemma EveryCostCounts(c: CostModel, gross: nat)
    ensures var priority := FloorDiv(c.computeUnitLimit * c.computeUnitPriceMicro, 1_000_000) % 0x1_0000_0000_0000_0000;
            && c.FixedCosts() == Min(c.signatureFee + priority + c.extraPriority + c.ata + c.rent, 0xFFFF_FFFF_FFFF_FFFF)
            && c.Net(gross) == gross - c.margin
                 - Min(c.signatureFee + priority + c.extraPriority + c.ata + c.rent + c.Payment(gross), 0xFFFF_FFFF_FFFF_FFFF)
  {
    hide JitoTipAmount, FloorDiv;
  }

  // ------------------------------------------------------------------ viability

  /** The documented equivalence "viable iff the payment fits the maximum payment" is exact except
      in two corners: nothing is paid and the gross does not even cover the other deductions, or
      the burn saturates on the largest gross with nothing else deducted. */
  lemma ViableIffPaymentFits(c: CostModel, gross: nat)
    requires gross <= U64_MAX
    ensures var free := c.Payment(gross) == 0 && gross < c.FixedCosts() + c.margin + c.requiredNet;
            var saturated := c.FixedCosts() + c.Payment(gross) > U64_MAX && gross == U64_MAX
                             && c.margin == 0 && c.requiredNet == 0;
            (c.IsViable(gross) <==> c.Payment(gross) <= c.MaxPayment(gross)) <==> !free && !saturated
  {
    hide JitoTipAmount;
  }

  lemma FreeLossLooksPayable()
    ensures var c := CostModel(5_000, 0, 0, 0, 0, 0, 0, 0, NoPayment);
            c.Payment(0) <= c.MaxPayment(0) && !c.IsViable(0)
  {
  }
}
