/** The market-cap fee schedule of PumpSwap: the validated tier table, the two ways the program
    looks a tier up in it, and the quote that uses it.
 */
module PumpFeeV2 {
  import opened Common
  import opened Arith
  import opened Bytes
  import opened PumpAmm

  const FEE_CONFIG_DISCRIMINATOR: seq<byte> := [0x8f, 0x34, 0x92, 0xbb, 0xdb, 0x7b, 0x4c, 0x9b]
  const FEE_CONFIG_LEN: nat := 4073
  const TIER_TABLE_OFFSET: nat := 109
  const TIER_COUNT: nat := 24
  const TIER_STRIDE: nat := 40
  const EXPECTED_LP_BPS: nat := 20
  const EXPECTED_PROTOCOL_BPS: nat := 5
  const MAX_CREATOR_BPS: nat := 500

  datatype FeeTier = FeeTier(threshold: nat, split: FeeSplit)

  datatype FeeV2Error = UnsupportedVersion | Malformed | ZeroReserveOrSupply | Overflow

  type FeeConfig = seq<FeeTier>

  /** The `k`-th of the 24 rows of the table, as stored: 40 bytes each, from offset 109. */
  function Row(data: seq<byte>, k: nat): FeeTier
    requires |data| == 4_073 && k < 24
  {
    var off := 109 + k * 40;
    FeeTier(U64At(data, off), FeeSplit(U64At(data, off + 16), U64At(data, off + 24), U64At(data, off + 32)))
  }

  /** A schedule the schema allows: fixed lp and protocol shares, a bounded creator share that never
      rises, and positive thresholds that strictly do. */
  ghost predicate Schedule(tiers: FeeConfig) {
    && (forall k :: 0 <= k < |tiers| ==>
          && tiers[k].split.lp == 20 && tiers[k].split.protocol == 5
          && tiers[k].split.creator <= 500 && tiers[k].threshold > 0)
    && (forall j, k :: 0 <= j < k < |tiers| ==>
          tiers[j].threshold < tiers[k].threshold && tiers[k].split.creator <= tiers[j].split.creator)
  }

  lemma ScheduleExtends(tiers: FeeConfig, t: FeeTier)
    requires Schedule(tiers) && Schedule([t])
    requires tiers != [] ==> var last := tiers[|tiers| - 1];
                             last.threshold < t.threshold && t.split.creator <= last.split.creator
    ensures Schedule(tiers + [t])
  {
  }

  ghost predicate HasHeader(data: seq<byte>) {
    |data| == 4_073 && data[..8] == [0x8f, 0x34, 0x92, 0xbb, 0xdb, 0x7b, 0x4c, 0x9b]
  }

  /** Accepts exactly the accounts whose table is a valid schedule, and returns that table. */
  method DecodeFeeConfig(data: seq<byte>) returns (r: Result<FeeConfig, FeeV2Error>)
    ensures r.Ok? <==> HasHeader(data) && Schedule(seq(24, k requires 0 <= k < 24 => Row(data, k)))
    ensures r.Ok? ==> |r.value| == 24 && forall k :: 0 <= k < 24 ==> r.value[k] == Row(data, k)
    ensures r == Err(UnsupportedVersion) <==> |data| >= 8 && data[..8] != FEE_CONFIG_DISCRIMINATOR
    ensures r.Err? ==> r.error in {UnsupportedVersion, Malformed}
  {
    hide U64At;
    if |data| < 8 {
      return Err(Malformed);
    }
    if data[0..8] != FEE_CONFIG_DISCRIMINATOR {
      return Err(UnsupportedVersion);
    }
    if |data| != FEE_CONFIG_LEN {
      return Err(Malformed);
    }
    ghost var table := seq(TIER_COUNT, k requires 0 <= k < TIER_COUNT => Row(data, k));
    var tiers: FeeConfig := [];
    var prevThreshold: Option<nat>, prevCreator: Option<nat> := None, None;
    for k := 0 to TIER_COUNT
      invariant tiers == table[..k] && Schedule(tiers)
      invariant k == 0 ==> prevThreshold == None && prevCreator == None
      invariant k > 0 ==> prevThreshold == Some(tiers[k - 1].threshold) && prevCreator == Some(tiers[k - 1].split.creator)
    {
      var off := TIER_TABLE_OFFSET + k * TIER_STRIDE;
      var thr := U64At(data, off);
      var lp := U64At(data, off + 16);
      var protocol := U64At(data, off + 24);
      var creator := U64At(data, off + 32);
      assert table[k] == FeeTier(thr, FeeSplit(lp, protocol, creator));
      if lp != EXPECTED_LP_BPS || protocol != EXPECTED_PROTOCOL_BPS || creator > MAX_CREATOR_BPS {
        return Err(Malformed);
      }
      if k == 0 && thr == 0 {
        return Err(Malformed);
      }
      if prevThreshold.Some? && thr <= prevThreshold.value {
        assert table[k - 1] == tiers[k - 1];
        return Err(Malformed);
      }
      if prevCreator.Some? && creator > prevCreator.value {
        assert table[k - 1] == tiers[k - 1];
        return Err(Malformed);
      }
      ScheduleExtends(tiers, FeeTier(thr, FeeSplit(lp, protocol, creator)));
      tiers := tiers + [FeeTier(thr, FeeSplit(lp, protocol, creator))];
      prevThreshold, prevCreator := Some(thr), Some(creator);
    }
    assert tiers == table;
    return Ok(tiers);
  }

  // ------------------------------------------------------------------ market cap and tier

  function MarketCap(supply: nat, baseReserve: nat, quoteReserve: nat): Result<nat, FeeV2Error> {
    if baseReserve == 0 || supply == 0 then Err(ZeroReserveOrSupply)
    else if supply * quoteReserve > U128_MAX then Err(Overflow)
    else Ok(FloorDiv(supply * quoteReserve, baseReserve))
  }

  /** It is what the whole supply is worth at the pool's price, rounded down. */
  lemma MarketCapIsSupplyAtPrice(supply: nat, baseReserve: nat, quoteReserve: nat)
    ensures var r := MarketCap(supply, baseReserve, quoteReserve);
            && (r.Ok? <==> baseReserve > 0 && supply > 0 && supply * quoteReserve < 0x1_0000_0000_0000_0000_0000_0000_0000_0000)
            && (r.Ok? ==> r.value * baseReserve <= supply * quoteReserve < r.value * baseReserve + baseReserve)
  {
    hide FloorDiv;
    if baseReserve > 0 { FloorBounds(supply * quoteReserve, baseReserve); }
  }

  /** The tier rule: the last tier whose threshold the market cap has reached, else the first. */
  ghost predicate IsTier(tiers: FeeConfig, cap: nat, idx: nat) {
    && idx < |tiers|
    && (forall k :: idx < k < |tiers| ==> cap < tiers[k].threshold)
    && (tiers[idx].threshold <= cap || (idx == 0 && forall k :: 0 <= k < |tiers| ==> cap < tiers[k].threshold))
  }

  /** Searching from the back for the last threshold at or below the cap. */
  function LastReached(tiers: FeeConfig, cap: nat, n: nat): (r: Option<nat>)
    requires n <= |tiers|
    ensures r.Some? ==> r.value < n
  {
    if n == 0 then None
    else if tiers[n - 1].threshold <= cap then Some(n - 1)
    else LastReached(tiers, cap, n - 1)
  }

  function ResolveIndex(tiers: FeeConfig, cap: nat): (i: nat)
    requires tiers != []
    ensures i < |tiers|
  {
    match LastReached(tiers, cap, |tiers|)
    case Some(i) => i
    case None => 0
  }

  function ResolveFeeV2(baseReserve: nat, quoteReserve: nat, supply: nat, tiers: FeeConfig): Result<FeeTier, FeeV2Error>
    requires tiers != []
  {
    match MarketCap(supply, baseReserve, quoteReserve)
    case Err(e) => Err(e)
    case Ok(cap) =>
      Ok(tiers[ResolveIndex(tiers, cap)])
  }

  lemma {:induction false} ResolvedInRange(tiers: FeeConfig, cap: nat, n: nat)
    requires n <= |tiers|
    ensures var r := LastReached(tiers, cap, n);
            match r
            case None => forall k :: 0 <= k < n ==> cap < tiers[k].threshold
            case Some(i) => i < n && tiers[i].threshold <= cap && forall k :: i < k < n ==> cap < tiers[k].threshold
  {
    if n > 0 {
      ResolvedInRange(tiers, cap, n - 1);
    }
  }

  /** The backward search obeys the tier rule on every table, sorted or not. */
  lemma ResolveIsTier(tiers: FeeConfig, cap: nat)
    requires tiers != []
    ensures IsTier(tiers, cap, ResolveIndex(tiers, cap))
  {
    ResolvedInRange(tiers, cap, |tiers|);
  }

  /** The rule names one tier only. */
  lemma TierIsUnique(tiers: FeeConfig, cap: nat, i: nat, j: nat)
    requires IsTier(tiers, cap, i) && IsTier(tiers, cap, j)
    ensures i == j
  {
  }

  /** Scanning forward and stopping at the first threshold above the cap finds, on every schedule
      the decoder accepts, the tier the backward search resolves to. */
  method TierFor(tiers: FeeConfig, cap: nat) returns (chosen: FeeTier)
    requires tiers != []  // the program indexes the first tier
    ensures chosen in tiers
    ensures Schedule(tiers) ==> chosen == tiers[ResolveIndex(tiers, cap)]
  {
    chosen := tiers[0];
    ghost var idx := 0;
    for i := 0 to |tiers|
      invariant idx < |tiers| && chosen == tiers[idx]
      invariant i > 0 ==> idx == i - 1 && tiers[idx].threshold <= cap
      invariant i == 0 ==> idx == 0
    {
      if tiers[i].threshold <= cap {
        chosen, idx := tiers[i], i;
      } else {
        break;
      }
    }
    ResolveIsTier(tiers, cap);
    if Schedule(tiers) {
      TierIsUnique(tiers, cap, idx, ResolveIndex(tiers, cap));
    }
  }

  /** A larger market cap never pays a larger fee, on any gross amount. */
  lemma FeeFallsWithMarketCap(tiers: FeeConfig, small: nat, large: nat, gross: nat)
    requires tiers != [] && Schedule(tiers) && small <= large
    ensures var a, b := tiers[ResolveIndex(tiers, small)].split, tiers[ResolveIndex(tiers, large)].split;
            b.Total() <= a.Total() && TotalFee(gross, b) <= TotalFee(gross, a)
  {
    ResolveIsTier(tiers, small);
    ResolveIsTier(tiers, large);
    var i, j := ResolveIndex(tiers, small), ResolveIndex(tiers, large);
    assert i <= j;
    var a, b := tiers[i].split, tiers[j].split;
    assert b.creator <= a.creator;
    MulLe(b.creator, a.creator, gross);
    CeilMono(gross * b.creator, gross * a.creator, BPS);
  }

  // ------------------------------------------------------------------ the leg quote

  datatype PumpPool = PumpPool(baseMint: Mint, quoteMint: Mint)

  /** Exact for SELL; BUY is refused because its inversion is unverified for creator-fee pools. */
  function PumpQuoteV2(pool: PumpPool, input: Mint, amountIn: nat, baseReserve: nat, quoteReserve: nat, supply: nat,
                       tiers: FeeConfig): Result<PumpQuote, PumpError>
    requires tiers != []
  {
    if baseReserve == 0 || quoteReserve == 0 then Err(EmptyReserves)
    else if amountIn == 0 then Err(PumpError.NoFill)
    else match ResolveFeeV2(baseReserve, quoteReserve, supply, tiers)
      case Err(_) => Err(FeeUnresolved)
      case Ok(tier) =>
        if input == pool.baseMint then SellQuote(amountIn, baseReserve, quoteReserve, tier.split)
        else if input == pool.quoteMint then Err(CreatorBuyUnverified)
        else Err(WrongMint)
  }

  /** What a sale pays at a tier: the constant product less three fees, each rounded up. */
  function SalePays(amountIn: nat, baseReserve: nat, quoteReserve: nat, split: FeeSplit): (int, nat)
    requires baseReserve > 0
  {
    var gross := FloorDiv(amountIn * quoteReserve, baseReserve + amountIn);
    var fee := CeilDiv(gross * split.lp, 10_000) + CeilDiv(gross * split.protocol, 10_000)
               + CeilDiv(gross * split.creator, 10_000);
    (gross - fee, fee)
  }

  /** A quote is that sale, exactly where there is something to sell, of the base, into a pool that
      has both tokens and a market cap, and something is left of it. */
  lemma QuoteIsSale(pool: PumpPool, input: Mint, amountIn: nat, baseReserve: nat, quoteReserve: nat, supply: nat,
                    tiers: FeeConfig)
    requires tiers != [] && quoteReserve <= U64_MAX
    ensures var quote := PumpQuoteV2(pool, input, amountIn, baseReserve, quoteReserve, supply, tiers);
            && (quote == Err(EmptyReserves) <==> baseReserve == 0 || quoteReserve == 0)
            && (baseReserve > 0 && quoteReserve > 0 && amountIn == 0 ==> quote == Err(PumpError.NoFill))
            && (baseReserve > 0 && quoteReserve > 0 && amountIn > 0 ==>
                  var tier := ResolveFeeV2(baseReserve, quoteReserve, supply, tiers);
                  if tier.Err? then quote == Err(FeeUnresolved)
                  else if input != pool.baseMint then
                    quote == Err(if input == pool.quoteMint then CreatorBuyUnverified else PumpError.WrongMint)
                  else
                    var (out, fee) := SalePays(amountIn, baseReserve, quoteReserve, tier.value.split);
                    quote == if out > 0 then Ok(PumpQuote(out, fee)) else Err(PumpError.NoFill))
  {
    hide FloorDiv, CeilDiv, CpmmAmountOut, ResolveFeeV2;
    if baseReserve > 0 && quoteReserve > 0 && amountIn > 0 {
      SellGrossIsCurve(amountIn, baseReserve, quoteReserve);
    }
  }

  /** On an accepted schedule, a leg that quotes one size quotes every larger one, and a larger
      size is worth at most two units less. It only sells the base, never for nothing, and what it
      takes out of the quote reserve, fees included, does not lower the product of the reserves. */
  lemma PumpLegLaws(pool: PumpPool, input: Mint, less: nat, more: nat, baseReserve: nat, quoteReserve: nat,
                    supply: nat, tiers: FeeConfig)
    requires tiers != [] && Schedule(tiers) && less <= more && quoteReserve <= U64_MAX
    requires PumpQuoteV2(pool, input, less, baseReserve, quoteReserve, supply, tiers).Ok?
    ensures var a := PumpQuoteV2(pool, input, less, baseReserve, quoteReserve, supply, tiers);
            var b := PumpQuoteV2(pool, input, more, baseReserve, quoteReserve, supply, tiers);
            && b.Ok? && a.value.out <= b.value.out + 2
            && input == pool.baseMint && b.value.out > 0
            && baseReserve * quoteReserve <= (baseReserve + more) * (quoteReserve - b.value.out - b.value.fee)
  {
    hide CpmmAmountOut, TotalFee;
    var tier := ResolveFeeV2(baseReserve, quoteReserve, supply, tiers).value;
    ResolvedInRange(tiers, MarketCap(supply, baseReserve, quoteReserve).value, |tiers|);
    SellAcceptanceUpwardClosed(less, more, baseReserve, quoteReserve, tier.split);
    SellNearlyMono(less, more, baseReserve, quoteReserve, tier.split);
    CpmmLaws(less, more, baseReserve, quoteReserve, 0, BPS);
  }

  /** A schedule whose creator share falls by four basis points a tier. */
  function FallingSchedule(): (tiers: FeeConfig)
    ensures Schedule(tiers) && |tiers| == 24
  {
    seq(24, k requires 0 <= k < 24 => FeeTier((k + 1) * 1_000_000_000_000, FeeSplit(20, 5, 95 - 4 * k)))
  }

  /** In a pool with four units of quote for one of base, a supply of a million million is worth four
      times that, so the fourth tier applies, */
  lemma FourthTierApplies()
    ensures ResolveFeeV2(2_000_000_000, 8_000_000_000, 1_000_000_000_000, FallingSchedule())
         == Ok(FeeTier(4_000_000_000_000, FeeSplit(20, 5, 83)))
  {
    hide FloorDiv, ResolveIndex;
    var tiers := FallingSchedule();
    FloorIs(1_000_000_000_000 * 8_000_000_000, 2_000_000_000, 4_000_000_000_000);
    ResolveIsTier(tiers, 4_000_000_000_000);
    TierIsUnique(tiers, 4_000_000_000_000, 3, ResolveIndex(tiers, 4_000_000_000_000));
  }

  /** and a sale pays its fees. */
  lemma SaleAtFourthTier()
    ensures PumpQuoteV2(PumpPool("T", "SOL"), "T", 1_000_000, 2_000_000_000, 8_000_000_000, 1_000_000_000_000, FallingSchedule())
         == Ok(PumpQuote(3_954_821, 43_179))
  {
    hide FloorDiv, CeilDiv, ResolveFeeV2, FallingSchedule;
    FourthTierApplies();
    FloorIs(1_000_000 * 10_000 * 8_000_000_000, 2_000_000_000 * 10_000 + 1_000_000 * 10_000, 3_998_000);
    CeilIs(3_998_000 * 20, 10_000, 7_996);
    CeilIs(3_998_000 * 5, 10_000, 1_999);
    CeilIs(3_998_000 * 83, 10_000, 33_184);
  }
}
