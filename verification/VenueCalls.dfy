/** What each venue reads out of the call it is sent: a reader per venue, at the fixed offsets of the
    venue's own layout, and what every call of an accepted run says to it.
 */
module VenueCalls {
  import opened Common
  import opened Bytes
  import opened Ix
  import opened Builder
  import opened Program

  datatype Order =
    | RaydiumSwapBaseIn(amountIn: u64, minimumOut: u64)
    | WhirlpoolSwap(amount: u64, threshold: u64, sqrtPriceLimit: nat, amountIsInput: bool, aToB: bool)
    | MeteoraSwap2(amountIn: u64, minimumOut: u64, accountSlices: nat)
    | PumpSell(baseIn: u64, minimumQuoteOut: u64)
    | PumpBuy(baseOut: u64, maximumQuoteIn: u64)

  // ------------------------------------------------------------------ the readers

  function RaydiumReads(data: seq<byte>): Option<Order> {
    if |data| == 17 && data[0] == 9 then Some(RaydiumSwapBaseIn(U64At(data, 1), U64At(data, 9))) else None
  }

  function WhirlpoolReads(data: seq<byte>): Option<Order> {
    if |data| == 42 && data[..8] == [0xf8, 0xc6, 0x9e, 0x91, 0xe1, 0x75, 0x87, 0xc8] && data[40] <= 1 && data[41] <= 1 then
      Some(WhirlpoolSwap(U64At(data, 8), U64At(data, 16), LeValue(data[24..40]), data[40] == 1, data[41] == 1))
    else None
  }

  function MeteoraReads(data: seq<byte>): Option<Order> {
    if |data| == 28 && data[..8] == [0x41, 0x4b, 0x3f, 0x4c, 0xeb, 0x5b, 0x5b, 0x88] then
      Some(MeteoraSwap2(U64At(data, 8), U64At(data, 16), LeValue(data[24..28])))
    else None
  }

  function PumpReads(data: seq<byte>): Option<Order> {
    if |data| != 24 then None
    else if data[..8] == [0x33, 0xe6, 0x85, 0xa4, 0x01, 0x7f, 0x83, 0xad] then
      Some(PumpSell(U64At(data, 8), U64At(data, 16)))
    else if data[..8] == [0x66, 0x06, 0x3d, 0x12, 0x01, 0xda, 0xeb, 0xea] then
      Some(PumpBuy(U64At(data, 8), U64At(data, 16)))
    else None
  }

  /** The program called decides how the data are read. */
  function Reads(program: Key, data: seq<byte>): Option<Order> {
    // 675kPX9MHTjS2zt1qfr1NYHuzeLXfQM9H24wFSUt1Mp8
    if program == [0x4b, 0xd9, 0x49, 0xc4, 0x36, 0x02, 0xc3, 0x3f, 0x20, 0x77, 0x90, 0xed, 0x16, 0xa3, 0x52, 0x4c,
                   0xa1, 0xb9, 0x97, 0x5c, 0xf1, 0x21, 0xa2, 0xa9, 0x0c, 0xff, 0xec, 0x7d, 0xf8, 0xb6, 0x8a, 0xcd]
    then RaydiumReads(data)
    // whirLbMiicVdio4qvUfM5KAg6Ct8VwpYzGff3uctyCc
    else if program == [0x0e, 0x03, 0x68, 0x5f, 0x8e, 0x90, 0x90, 0x53, 0xe4, 0x58, 0x12, 0x1c, 0x66, 0xf5, 0xa7, 0x6a,
                        0xed, 0xc7, 0x70, 0x6a, 0xa1, 0x1c, 0x82, 0xf8, 0xaa, 0x95, 0x2a, 0x8f, 0x2b, 0x78, 0x79, 0xa9]
    then WhirlpoolReads(data)
    // LBUZKhRxPF3XUpBCjp4YzTKgLccjZhTSDM9YuVaPwxo
    else if program == [0x04, 0xe9, 0xe1, 0x2f, 0xbc, 0x84, 0xe8, 0x26, 0xc9, 0x32, 0xcc, 0xe9, 0xe2, 0x64, 0x0c, 0xce,
                        0x15, 0x59, 0x0c, 0x1c, 0x62, 0x73, 0xb0, 0x92, 0x57, 0x08, 0xba, 0x3b, 0x85, 0x20, 0xb0, 0xbc]
    then MeteoraReads(data)
    // pAMMBay6oceH9fJKBRHGP5D4bD4sWpmSwMn52FMfXEA
    else if program == [0x0c, 0x14, 0xde, 0xfc, 0x82, 0x5e, 0xc6, 0x76, 0x94, 0x25, 0x08, 0x18, 0xbb, 0x65, 0x40, 0x65,
                        0xf4, 0x29, 0x8d, 0x31, 0x56, 0xd5, 0x71, 0xb4, 0xd4, 0xf8, 0x09, 0x0c, 0x18, 0xe9, 0xa8, 0x63]
    then PumpReads(data)
    else None
  }

  /** The order says what the hop says: its venue, exact input of this amount for at least its floor,
      in its direction and with no limit on the price. A Raydium or a Meteora pool takes the
      direction from the accounts. */
  ghost predicate Says(order: Order, hop: HopParams, amount: u64) {
    match order
    case RaydiumSwapBaseIn(input, floor) => hop.dex.RaydiumV4? && input == amount && floor == hop.minAmountOut
    case WhirlpoolSwap(input, floor, limit, exactIn, aToB) =>
      && hop.dex.OrcaWhirlpool? && input == amount && floor == hop.minAmountOut && exactIn && aToB == hop.aToB
      && InsideBounds(limit)
      && forall price: nat :: InsideBounds(price) ==> if hop.aToB then limit <= price else price <= limit
    case MeteoraSwap2(input, floor, slices) =>
      hop.dex.MeteoraDlmm? && input == amount && floor == hop.minAmountOut && slices == 0
    case PumpSell(input, floor) => hop.dex.PumpAmm? && hop.aToB && input == amount && floor == hop.minAmountOut
    case PumpBuy(input, floor) => hop.dex.PumpAmm? && !hop.aToB && input == amount && floor == hop.minAmountOut
  }

  /** A price a Whirlpool can move to and away from in either direction. */
  predicate InsideBounds(price: nat) {
    4_295_048_016 < price < 79_226_673_515_401_279_992_447_579_055
  }

  // ------------------------------------------------------------------ what is sent is what is read

  /** The middle of the data is the two amounts, after a prefix of known length. */
  lemma DataParts(dex: DexKind, amountIn: u64, minAmountOut: u64, aToB: bool)
    ensures var data, n := SwapData(dex, amountIn, minAmountOut, aToB), |SwapPrefix(dex, aToB)|;
            && |data| == n + 16 + |SwapSuffix(dex, aToB)|
            && data[..n] == SwapPrefix(dex, aToB) && data[n + 16..] == SwapSuffix(dex, aToB)
            && U64At(data, n) == amountIn && U64At(data, n + 8) == minAmountOut
  {
    hide LeBytes, LeValue, SwapPrefix, SwapSuffix;
    SwapDataReads(dex, amountIn, minAmountOut, aToB);
  }

  lemma LimitReads(limit: nat, tail: seq<byte>)
    requires limit < 0x1_0000_0000_0000_0000_0000_0000_0000_0000 && |tail| == 2
    ensures var suffix := LeBytes(limit, 16) + tail;
            LeValue(suffix[..16]) == limit && suffix[16..] == tail
  {
    hide LeBytes, LeValue;
    assert Pow256(8) == 0x1_0000_0000_0000_0000 by { Pow256Of8(); }
    assert Pow256(12) == 256 * 256 * 256 * 256 * Pow256(8) && Pow256(16) == 256 * 256 * 256 * 256 * Pow256(12);
    LeRoundTrip(limit, 16);
    assert (LeBytes(limit, 16) + tail)[..16] == LeBytes(limit, 16);
  }

  lemma NoSlices()
    ensures LeValue([0, 0, 0, 0]) == 0
  {
  }

  /** Whatever the program sends a venue, the venue reads as the hop's order. */
  lemma DataSays(hop: HopParams, amount: u64)
    ensures var order := Reads(ProgramOf(hop.dex), SwapData(hop.dex, amount, hop.minAmountOut, hop.aToB));
            order.Some? && Says(order.value, hop, amount)
  {
    hide LeBytes, LeValue, U64At, SwapData;
    var data := SwapData(hop.dex, amount, hop.minAmountOut, hop.aToB);
    DataParts(hop.dex, amount, hop.minAmountOut, hop.aToB);
    NoSlices();
    if hop.dex.OrcaWhirlpool? {
      LimitReads(if hop.aToB then MIN_SQRT_PRICE_X64 + 1 else MAX_SQRT_PRICE_X64 - 1, [1, Bit(hop.aToB)]);
      assert data[24..40] == data[24..][..16] && data[40..] == data[24..][16..];
      assert data[40] == data[40..][0] && data[41] == data[40..][1];
    } else if hop.dex.MeteoraDlmm? {
      assert data[24..28] == data[24..];
    }
  }

  /** Every call of an accepted run is read by its venue as what the hop asked for, of the size given
      for the first hop and of all its source account held for the others. */
  lemma CallsAreOrders(venue: Venue, ledger: Ledger, accounts: seq<AccountMeta>, data: seq<byte>, run: Run, k: nat)
    requires Process(venue, ledger, accounts, data) == Ok(run) && k < |run.calls|
    ensures Parsed(data).Ok? && k < |Parsed(data).value.hops| && k < |run.ledgers|
    ensures var params := Parsed(data).value;
            && IsSound(params) && HasSlice(accounts[2..], params.hops, k)
            && var amount := AmountOf(run.ledgers[k], accounts[2..], params, k);
               var order := Reads(run.calls[k].program, run.calls[k].data);
               amount.Ok? && amount.value > 0 && order.Some? && Says(order.value, params.hops[k], amount.value)
  {
    hide Parsed, Process, Reads, Says, SwapData, At, Balance, IsTokenAccount, Cursor, HopIsSound;
    AcceptedHop(venue, ledger, accounts, data, run, k);
    var params := Parsed(data).value;
    DataSays(params.hops[k], AmountOf(run.ledgers[k], accounts[2..], params, k).value);
  }
}
