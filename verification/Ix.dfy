/** The instruction ABI shared by the executor and the on-chain program. */
module Ix {
  import opened Common
  import opened Bytes

  const MAX_HOPS: nat := 4
  const HEADER_LEN: nat := 17
  const HOP_LEN: nat := 12

  /** A public key, as its 32 bytes. */
  type Key = seq<byte>

  datatype DexKind = RaydiumV4 | OrcaWhirlpool | MeteoraDlmm | PumpAmm

  datatype HopParams = HopParams(dex: DexKind, numAccounts: byte, sourceIndex: byte, aToB: bool, minAmountOut: u64)

  datatype IxParams = IxParams(amountIn: u64, minProfit: u64, hops: seq<HopParams>)

  datatype ArbError =
    | MalformedInstruction
    | BadHopCount
    | UnknownDex
    | AccountSliceOutOfBounds
    | InvalidDexProgram
    | InvalidTokenAccount
    | TokenAccountOwnerMismatch
    | ArithmeticOverflow
    | ProfitNotMet
    | MissingSignature
    | ZeroAmount

  function Tag(dex: DexKind): byte {
    match dex
    case RaydiumV4 => 0
    case OrcaWhirlpool => 1
    case MeteoraDlmm => 2
    case PumpAmm => 3
  }

  function DexOf(tag: byte): Option<DexKind> {
    if tag == 0 then Some(RaydiumV4)
    else if tag == 1 then Some(OrcaWhirlpool)
    else if tag == 2 then Some(MeteoraDlmm)
    else if tag == 3 then Some(PumpAmm)
    else None
  }

  function Bit(b: bool): byte {
    if b then 1 else 0
  }

  // ------------------------------------------------------------------ what is written

  function HopBytes(hop: HopParams): (s: seq<byte>)
    ensures |s| == HOP_LEN
  {
    [Tag(hop.dex), hop.numAccounts, hop.sourceIndex, Bit(hop.aToB)] + LeBytes(hop.minAmountOut, 8)
  }

  function HopsBytes(hops: seq<HopParams>): (s: seq<byte>)
    ensures |s| == HOP_LEN * |hops|
  {
    if hops == [] then [] else HopsBytes(hops[..|hops| - 1]) + HopBytes(hops[|hops| - 1])
  }

  /** The header; the hop count is a byte, and wraps. */
  function HeaderBytes(params: IxParams): (s: seq<byte>)
    ensures |s| == HEADER_LEN
  {
    [|params.hops| % 256] + LeBytes(params.amountIn, 8) + LeBytes(params.minProfit, 8)
  }

  function Encoded(params: IxParams): seq<byte> {
    HeaderBytes(params) + HopsBytes(params.hops)
  }

  method EncodeInstruction(params: IxParams) returns (data: seq<byte>)
    ensures data == Encoded(params)
  {
    hide HopBytes, LeBytes;
    data := [|params.hops| % 256];
    data := data + LeBytes(params.amountIn, 8);
    data := data + LeBytes(params.minProfit, 8);
    for i := 0 to |params.hops|
      invariant data == HeaderBytes(params) + HopsBytes(params.hops[..i])
    {
      var hop := params.hops[i];
      ghost var soFar := data;
      data := data + [Tag(hop.dex)];
      data := data + [hop.numAccounts];
      data := data + [hop.sourceIndex];
      data := data + [Bit(hop.aToB)];
      data := data + LeBytes(hop.minAmountOut, 8);
      HopAppended(soFar, hop);
      HopsAppended(params.hops, i);
    }
    assert params.hops[..|params.hops|] == params.hops;
  }

  lemma HopAppended(data: seq<byte>, hop: HopParams)
    ensures data + [Tag(hop.dex)] + [hop.numAccounts] + [hop.sourceIndex] + [Bit(hop.aToB)] + LeBytes(hop.minAmountOut, 8)
         == data + HopBytes(hop)
  {
  }

  lemma HopsAppended(hops: seq<HopParams>, i: nat)
    requires i < |hops|
    ensures HopsBytes(hops[..i + 1]) == HopsBytes(hops[..i]) + HopBytes(hops[i])
  {
    assert hops[..i + 1][..i] == hops[..i];
  }

  // ------------------------------------------------------------------ what is read

  function ReadHop(s: seq<byte>): Result<HopParams, ArbError>
    requires |s| == HOP_LEN
  {
    var dex := DexOf(s[0]);
    if dex.None? then Err(UnknownDex)
    else if s[1] < 2 || s[2] >= s[1] then Err(MalformedInstruction)
    else Ok(HopParams(dex.value, s[1], s[2], s[3] % 2 == 1, U64At(s, 4)))
  }

  function HopSlice(data: seq<byte>, i: nat): (s: seq<byte>)
    requires HEADER_LEN + (i + 1) * HOP_LEN <= |data|
    ensures |s| == HOP_LEN
  {
    data[HEADER_LEN + i * HOP_LEN..HEADER_LEN + (i + 1) * HOP_LEN]
  }

  /** The first `n` hops, or the error of the first that cannot be read. */
  function ReadHops(data: seq<byte>, n: nat): (r: Result<seq<HopParams>, ArbError>)
    requires HEADER_LEN + n * HOP_LEN <= |data|
    ensures r.Ok? ==> |r.value| == n
  {
    if n == 0 then Ok([])
    else
      match ReadHops(data, n - 1)
      case Err(e) => Err(e)
      case Ok(hops) =>
        match ReadHop(HopSlice(data, n - 1))
        case Err(e) => Err(e)
        case Ok(hop) => Ok(hops + [hop])
  }

  function Parsed(data: seq<byte>): Result<IxParams, ArbError> {
    if |data| < HEADER_LEN then Err(MalformedInstruction)
    else if data[0] == 0 || data[0] > MAX_HOPS then Err(BadHopCount)
    else if |data| != HEADER_LEN + data[0] * HOP_LEN then Err(MalformedInstruction)
    else
      match ReadHops(data, data[0])
      case Err(e) => Err(e)
      case Ok(hops) =>
        Ok(IxParams(U64At(data, 1), U64At(data, 9), hops))
  }

  method ParseInstruction(data: seq<byte>) returns (r: Result<IxParams, ArbError>)
    ensures r == Parsed(data)
  {
    hide U64At, ReadHop, ReadHops;
    if |data| < HEADER_LEN {
      return Err(MalformedInstruction);
    }
    var numHops: nat := data[0];
    if numHops == 0 || numHops > MAX_HOPS {
      return Err(BadHopCount);
    }
    if |data| != HEADER_LEN + numHops * HOP_LEN {
      return Err(MalformedInstruction);
    }
    var amountIn: u64, minProfit: u64 := U64At(data, 1), U64At(data, 9);
    var hops: seq<HopParams> := [];
    NoHops(data);
    for i := 0 to numHops
      invariant ReadHops(data, i) == Ok(hops)
    {
      var o := HEADER_LEN + i * HOP_LEN;
      HopAtOffset(data, i);
      NextHop(data, i);
      var dex := DexOf(data[o]);
      if dex.None? {
        FailsAt(data, i, numHops);
        return Err(UnknownDex);
      }
      var numAccounts, sourceIndex := data[o + 1], data[o + 2];
      if numAccounts < 2 || sourceIndex >= numAccounts {
        FailsAt(data, i, numHops);
        return Err(MalformedInstruction);
      }
      hops := hops + [HopParams(dex.value, numAccounts, sourceIndex, data[o + 3] % 2 == 1, U64At(data, o + 4))];
    }
    return Ok(IxParams(amountIn, minProfit, hops));
  }

  lemma NoHops(data: seq<byte>)
    requires HEADER_LEN <= |data|
    ensures ReadHops(data, 0) == Ok([])
  {
  }

  lemma NextHop(data: seq<byte>, i: nat)
    requires HEADER_LEN + (i + 1) * HOP_LEN <= |data| && ReadHops(data, i).Ok?
    ensures var hop := ReadHop(HopSlice(data, i));
            ReadHops(data, i + 1) == if hop.Ok? then Ok(ReadHops(data, i).value + [hop.value]) else Err(hop.error)
  {
    hide ReadHop;
  }

  lemma {:induction false} FailsAt(data: seq<byte>, i: nat, n: nat)
    requires HEADER_LEN + n * HOP_LEN <= |data| && i < n
    requires ReadHops(data, i + 1).Err?
    ensures ReadHops(data, n) == ReadHops(data, i + 1)
    decreases n - i
  {
    hide ReadHop;
    if i + 1 < n {
      FailsAt(data, i, n - 1);
    }
  }

  /** Reading at offsets into the buffer is reading the hop's slice. */
  lemma HopAtOffset(data: seq<byte>, i: nat)
    requires HEADER_LEN + (i + 1) * HOP_LEN <= |data|
    ensures var o := HEADER_LEN + i * HOP_LEN;
            ReadHop(HopSlice(data, i)) ==
              if DexOf(data[o]).None? then Err(UnknownDex)
              else if data[o + 1] < 2 || data[o + 2] >= data[o + 1] then Err(MalformedInstruction)
              else Ok(HopParams(DexOf(data[o]).value, data[o + 1], data[o + 2], data[o + 3] % 2 == 1, U64At(data, o + 4)))
  {
    var o, s := HEADER_LEN + i * HOP_LEN, HopSlice(data, i);
    assert s[4..12] == data[o + 4..o + 12];
  }

  // ------------------------------------------------------------------ round trips

  /** What the parser demands of a hop. */
  predicate HopIsSound(hop: HopParams) {
    hop.numAccounts >= 2 && hop.sourceIndex < hop.numAccounts
  }

  predicate IsSound(params: IxParams) {
    1 <= |params.hops| <= 4 && AllSound(params.hops)
  }

  predicate AllSound(hops: seq<HopParams>) {
    forall i :: 0 <= i < |hops| ==> HopIsSound(hops[i])
  }

  lemma ReadWrittenHop(hop: HopParams)
    ensures ReadHop(HopBytes(hop)) == if HopIsSound(hop) then Ok(hop) else Err(MalformedInstruction)
  {
    hide LeBytes, LeValue;
    var s := HopBytes(hop);
    assert s[4..12] == LeBytes(hop.minAmountOut, 8);
    Pow256Of8();
    LeRoundTrip(hop.minAmountOut, 8);
  }

  lemma {:induction false} SliceOfHops(hops: seq<HopParams>, i: nat)
    requires i < |hops|
    ensures HopsBytes(hops)[i * HOP_LEN..(i + 1) * HOP_LEN] == HopBytes(hops[i])
    decreases |hops|
  {
    hide HopBytes;
    var init, last := hops[..|hops| - 1], hops[|hops| - 1];
    if i < |init| {
      SliceOfHops(init, i);
      assert HopsBytes(hops)[i * HOP_LEN..(i + 1) * HOP_LEN] == HopsBytes(init)[i * HOP_LEN..(i + 1) * HOP_LEN];
    } else {
      assert HopsBytes(hops)[i * HOP_LEN..(i + 1) * HOP_LEN] == HopBytes(last);
    }
  }

  lemma SliceOfEncoded(params: IxParams, i: nat)
    requires i < |params.hops|
    ensures HopSlice(Encoded(params), i) == HopBytes(params.hops[i])
  {
    hide HopBytes, HopsBytes, HeaderBytes;
    SliceOfHops(params.hops, i);
    var tail := HopsBytes(params.hops);
    assert HopSlice(Encoded(params), i) == tail[i * HOP_LEN..(i + 1) * HOP_LEN];
  }

  lemma SoundAppend(hops: seq<HopParams>, hop: HopParams)
    ensures AllSound(hops + [hop]) <==> AllSound(hops) && HopIsSound(hop)
  {
    hide HopIsSound;
    var more := hops + [hop];
    assert more[|hops|] == hop && forall i :: 0 <= i < |hops| ==> more[i] == hops[i];
  }

  /** The hops written are read back up to the first unsound one. */
  lemma {:induction false} ReadWrittenHops(params: IxParams, n: nat)
    requires n <= |params.hops|
    ensures ReadHops(Encoded(params), n)
         == if AllSound(params.hops[..n]) then Ok(params.hops[..n]) else Err(MalformedInstruction)
  {
    hide HopBytes, ReadHop, Encoded, HopIsSound;
    if n > 0 {
      ReadWrittenHops(params, n - 1);
      SliceOfEncoded(params, n - 1);
      ReadWrittenHop(params.hops[n - 1]);
      assert params.hops[..n] == params.hops[..n - 1] + [params.hops[n - 1]];
      SoundAppend(params.hops[..n - 1], params.hops[n - 1]);
    }
  }

  lemma HeaderReads(params: IxParams)
    ensures var data := Encoded(params);
            && data[0] == |params.hops| % 256 && |data| == HEADER_LEN + HOP_LEN * |params.hops|
            && U64At(data, 1) == params.amountIn && U64At(data, 9) == params.minProfit
  {
    hide LeBytes, LeValue, HopsBytes;
    var data := Encoded(params);
    assert data[1..9] == LeBytes(params.amountIn, 8);
    assert data[9..17] == LeBytes(params.minProfit, 8);
    Pow256Of8();
    LeRoundTrip(params.amountIn, 8);
    LeRoundTrip(params.minProfit, 8);
  }

  /** An encoded instruction parses back to itself exactly when it is sound; otherwise the count is
      refused, or the instruction is called malformed. That includes more than 255 hops, whose count
      wraps. */
  lemma ParseOfEncoded(params: IxParams)
    ensures var n := |params.hops| % 256;
            Parsed(Encoded(params)) ==
              if IsSound(params) then Ok(params)
              else if n == 0 || n > 4 then Err(BadHopCount)
              else Err(MalformedInstruction)
  {
    hide Encoded, U64At, ReadHops, HopIsSound;
    HeaderReads(params);
    var n := |params.hops| % 256;
    if |params.hops| == n {
      ReadWrittenHops(params, n);
      assert params.hops[..n] == params.hops;
    }
  }

  /** The layout of a whole instruction: four hops, one through each venue. */
  function FourHops(): IxParams {
    IxParams(1_000_000_000, 1_205_000, [
      HopParams(OrcaWhirlpool, 12, 4, true, 152_000_000),
      HopParams(RaydiumV4, 19, 16, false, 1_001_000_000),
      HopParams(MeteoraDlmm, 20, 5, false, 7_000),
      HopParams(PumpAmm, 24, 6, true, 999_000_000)])
  }

  /** A number of four bytes, written in eight. */
  lemma FourBytes(a: byte, b: byte, c: byte, d: byte)
    ensures LeBytes(a + 256 * (b + 256 * (c + 256 * d)), 8) == [a, b, c, d, 0, 0, 0, 0]
  {
    hide LeBytes;
    NextByte(a, b + 256 * (c + 256 * d), 7);
    NextByte(b, c + 256 * d, 6);
    NextByte(c, d, 5);
    NextByte(d, 0, 4);
    NextByte(0, 0, 3);
    NextByte(0, 0, 2);
    NextByte(0, 0, 1);
    NextByte(0, 0, 0);
    assert LeBytes(0, 0) == [];
  }

  lemma NextByte(b: byte, rest: nat, width: nat)
    ensures LeBytes(b + 256 * rest, width + 1) == [b] + LeBytes(rest, width)
  {
    LowByte(b, rest);
  }

  lemma LowByte(b: byte, rest: nat)
    ensures (b + 256 * rest) % 256 == b && (b + 256 * rest) / 256 == rest
  {
  }

  lemma FourHopsAsBytes()
    ensures Encoded(FourHops())
         == [4, 0, 202, 154, 59, 0, 0, 0, 0, 8, 99, 18, 0, 0, 0, 0, 0]
          + [1, 12, 4, 1, 0, 86, 15, 9, 0, 0, 0, 0]
          + [0, 19, 16, 0, 64, 12, 170, 59, 0, 0, 0, 0]
          + [2, 20, 5, 0, 88, 27, 0, 0, 0, 0, 0, 0]
          + [3, 24, 6, 1, 192, 135, 139, 59, 0, 0, 0, 0]
  {
    hide HopsBytes, HopBytes, HeaderBytes;
    var hops := FourHops().hops;
    HopsOfFour(hops[0], hops[1], hops[2], hops[3]);
    SampleHeader();
    SampleHops();
  }

  lemma SampleHeader()
    ensures HeaderBytes(FourHops()) == [4, 0, 202, 154, 59, 0, 0, 0, 0, 8, 99, 18, 0, 0, 0, 0, 0]
  {
    hide LeBytes;
    FourBytes(0, 202, 154, 59);
    FourBytes(8, 99, 18, 0);
  }

  lemma SampleHops()
    ensures var hops := FourHops().hops;
            && HopBytes(hops[0]) == [1, 12, 4, 1, 0, 86, 15, 9, 0, 0, 0, 0]
            && HopBytes(hops[1]) == [0, 19, 16, 0, 64, 12, 170, 59, 0, 0, 0, 0]
            && HopBytes(hops[2]) == [2, 20, 5, 0, 88, 27, 0, 0, 0, 0, 0, 0]
            && HopBytes(hops[3]) == [3, 24, 6, 1, 192, 135, 139, 59, 0, 0, 0, 0]
  {
    hide LeBytes;
    FourBytes(0, 86, 15, 9);
    FourBytes(64, 12, 170, 59);
    FourBytes(88, 27, 0, 0);
    FourBytes(192, 135, 139, 59);
  }

  lemma HopsOfFour(a: HopParams, b: HopParams, c: HopParams, d: HopParams)
    ensures HopsBytes([a, b, c, d]) == HopBytes(a) + HopBytes(b) + HopBytes(c) + HopBytes(d)
  {
    hide HopBytes, HopsBytes;
    assert HopsBytes([]) == [];
    HopsBytesAppend([], a);
    HopsBytesAppend([a], b);
    HopsBytesAppend([a, b], c);
    HopsBytesAppend([a, b, c], d);
    assert [] + [a] == [a] && [a] + [b] == [a, b] && [a, b] + [c] == [a, b, c] && [a, b, c] + [d] == [a, b, c, d];
  }

  /** Each flags byte holds the direction bit and nothing else. */
  predicate FlagsAreBits(data: seq<byte>, n: nat)
    requires HEADER_LEN + n * HOP_LEN <= |data|
  {
    forall i :: 0 <= i < n ==> HopSlice(data, i)[3] <= 1
  }

  lemma WriteReadHop(s: seq<byte>)
    requires |s| == HOP_LEN && ReadHop(s).Ok?
    ensures HopIsSound(ReadHop(s).value)
    ensures HopBytes(ReadHop(s).value) == s <==> s[3] <= 1
  {
    hide LeBytes, LeValue;
    var hop := ReadHop(s).value;
    LeBytesOfValue(s[4..12]);
    assert LeBytes(hop.minAmountOut, 8) == s[4..12];
    var w := HopBytes(hop);
    assert w[3] == Bit(hop.aToB) && s == s[..4] + s[4..12];
    if s[3] <= 1 {
      assert w[..4] == s[..4];
    }
  }

  /** The bytes of the first `n` hops. */
  function HopsPart(data: seq<byte>, n: nat): (s: seq<byte>)
    requires HEADER_LEN + n * HOP_LEN <= |data|
    ensures |s| == HOP_LEN * n
  {
    data[HEADER_LEN..HEADER_LEN + n * HOP_LEN]
  }

  lemma HopsPartNext(data: seq<byte>, n: nat)
    requires HEADER_LEN + (n + 1) * HOP_LEN <= |data|
    ensures HopsPart(data, n + 1) == HopsPart(data, n) + HopSlice(data, n)
    ensures FlagsAreBits(data, n + 1) <==> FlagsAreBits(data, n) && HopSlice(data, n)[3] <= 1
  {
  }

  lemma {:induction false} WriteReadHops(data: seq<byte>, n: nat)
    requires HEADER_LEN + n * HOP_LEN <= |data| && ReadHops(data, n).Ok?
    ensures var hops := ReadHops(data, n).value;
            AllSound(hops) && (HopsBytes(hops) == HopsPart(data, n) <==> FlagsAreBits(data, n))
  {
    hide HopBytes, ReadHop, HopIsSound, AllSound, HopSlice, FlagsAreBits, HopsPart, HopsBytes, ReadHops;
    if n > 0 {
      NextHopBack(data, n - 1);
      WriteReadHops(data, n - 1);
      var init, slice := ReadHops(data, n - 1).value, HopSlice(data, n - 1);
      var hop := ReadHop(slice).value;
      WriteReadHop(slice);
      HopsPartNext(data, n - 1);
      SoundAppend(init, hop);
      HopsBytesAppend(init, hop);
      JoinedEqual(HopsBytes(init), HopBytes(hop), HopsPart(data, n - 1), slice);
    } else {
      NoHopsBack(data);
    }
  }

  lemma NextHopBack(data: seq<byte>, n: nat)
    requires HEADER_LEN + (n + 1) * HOP_LEN <= |data| && ReadHops(data, n + 1).Ok?
    ensures ReadHops(data, n).Ok? && ReadHop(HopSlice(data, n)).Ok?
    ensures ReadHops(data, n + 1).value == ReadHops(data, n).value + [ReadHop(HopSlice(data, n)).value]
  {
    hide ReadHop, HopSlice;
  }

  lemma NoHopsBack(data: seq<byte>)
    requires HEADER_LEN <= |data|
    ensures ReadHops(data, 0) == Ok([]) && AllSound([]) && HopsBytes([]) == HopsPart(data, 0) && FlagsAreBits(data, 0)
  {
  }

  lemma HopsBytesAppend(hops: seq<HopParams>, hop: HopParams)
    ensures HopsBytes(hops + [hop]) == HopsBytes(hops) + HopBytes(hop)
  {
    hide HopBytes;
    assert (hops + [hop])[..|hops|] == hops;
  }

  lemma JoinedEqual(a: seq<byte>, b: seq<byte>, c: seq<byte>, d: seq<byte>)
    requires |a| == |c|
    ensures a + b == c + d <==> a == c && b == d
  {
    assert (a + b)[..|a|] == a && (a + b)[|a|..] == b;
    assert (c + d)[..|c|] == c && (c + d)[|c|..] == d;
  }

  /** Whatever parses is sound, and writing it again reproduces the bytes exactly when no flags byte
      uses more than its lowest bit; the other bits are ignored on reading and lost. */
  lemma EncodedOfParse(data: seq<byte>)
    requires Parsed(data).Ok?
    ensures IsSound(Parsed(data).value)
    ensures Encoded(Parsed(data).value) == data <==> FlagsAreBits(data, data[0])
  {
    hide ReadHops, HopsBytes, LeBytes, LeValue, FlagsAreBits, HopIsSound;
    var params, n := Parsed(data).value, data[0];
    WriteReadHops(data, n);
    LeBytesOfValue(data[1..9]);
    LeBytesOfValue(data[9..17]);
    assert data == data[..HEADER_LEN] + HopsPart(data, n);
    assert data[..HEADER_LEN] == [data[0]] + data[1..9] + data[9..17];
    JoinedEqual(HeaderBytes(params), HopsBytes(params.hops), data[..HEADER_LEN], HopsPart(data, n));
  }

  // ------------------------------------------------------------------ account slices

  /** Where the accounts of the `i`-th hop start among those of all hops. */
  function Cursor(hops: seq<HopParams>, i: nat): (c: nat)
    requires i <= |hops|
  {
    if i == 0 then 0 else Cursor(hops, i - 1) + hops[i - 1].numAccounts
  }

  // ------------------------------------------------------------------ the calls to the venues

  const RAYDIUM_V4_PROGRAM_ID: Key := [
    75, 217, 73, 196, 54, 2, 195, 63, 32, 119, 144, 237, 22, 163, 82, 76,
    161, 185, 151, 92, 241, 33, 162, 169, 12, 255, 236, 125, 248, 182, 138, 205]
  const WHIRLPOOL_PROGRAM_ID: Key := [
    14, 3, 104, 95, 142, 144, 144, 83, 228, 88, 18, 28, 102, 245, 167, 106,
    237, 199, 112, 106, 161, 28, 130, 248, 170, 149, 42, 143, 43, 120, 121, 169]
  const TOKEN_PROGRAM_ID: Key := [
    6, 221, 246, 225, 215, 101, 161, 147, 217, 203, 225, 70, 206, 235, 121, 172,
    28, 180, 133, 237, 95, 91, 55, 145, 58, 140, 245, 133, 126, 255, 0, 169]
  const METEORA_DLMM_PROGRAM_ID: Key := [
    4, 233, 225, 47, 188, 132, 232, 38, 201, 50, 204, 233, 226, 100, 12, 206,
    21, 89, 12, 28, 98, 115, 176, 146, 87, 8, 186, 59, 133, 32, 176, 188]
  const PUMP_AMM_PROGRAM_ID: Key := [
    12, 20, 222, 252, 130, 94, 198, 118, 148, 37, 8, 24, 187, 101, 64, 101,
    244, 41, 141, 49, 86, 213, 113, 180, 212, 248, 9, 12, 24, 233, 168, 99]

  const WHIRLPOOL_SWAP_DISCRIMINATOR: seq<byte> := [248, 198, 158, 145, 225, 117, 135, 200]
  const METEORA_SWAP2_DISCRIMINATOR: seq<byte> := [0x41, 0x4b, 0x3f, 0x4c, 0xeb, 0x5b, 0x5b, 0x88]
  const PUMP_SELL_DISCRIMINATOR: seq<byte> := [0x33, 0xe6, 0x85, 0xa4, 0x01, 0x7f, 0x83, 0xad]
  const PUMP_BUY_DISCRIMINATOR: seq<byte> := [0x66, 0x06, 0x3d, 0x12, 0x01, 0xda, 0xeb, 0xea]
  const RAYDIUM_SWAP_BASE_IN_TAG: byte := 9
  const MIN_SQRT_PRICE_X64: nat := 4_295_048_016
  const MAX_SQRT_PRICE_X64: nat := 79_226_673_515_401_279_992_447_579_055

  /** What comes before the two amounts. */
  function SwapPrefix(dex: DexKind, aToB: bool): seq<byte> {
    match dex
    case RaydiumV4 => [RAYDIUM_SWAP_BASE_IN_TAG]
    case OrcaWhirlpool => WHIRLPOOL_SWAP_DISCRIMINATOR
    case MeteoraDlmm => METEORA_SWAP2_DISCRIMINATOR
    case PumpAmm => if aToB then PUMP_SELL_DISCRIMINATOR else PUMP_BUY_DISCRIMINATOR
  }

  /** What comes after: for a Whirlpool, no price limit in the trade direction, exact input, and the
      direction; for a DLMM pool, no remaining-accounts slices. */
  function SwapSuffix(dex: DexKind, aToB: bool): seq<byte> {
    match dex
    case OrcaWhirlpool =>
      LeBytes(if aToB then MIN_SQRT_PRICE_X64 + 1 else MAX_SQRT_PRICE_X64 - 1, 16) + [1, Bit(aToB)]
    case MeteoraDlmm => [0, 0, 0, 0]
    case _ => []
  }

  function SwapData(dex: DexKind, amountIn: u64, minAmountOut: u64, aToB: bool): seq<byte> {
    SwapPrefix(dex, aToB) + LeBytes(amountIn, 8) + LeBytes(minAmountOut, 8) + SwapSuffix(dex, aToB)
  }

  /** The venue can tell the amount and the floor from the data, whatever the venue. */
  lemma SwapDataReads(dex: DexKind, amountIn: u64, minAmountOut: u64, aToB: bool)
    ensures var data, n := SwapData(dex, amountIn, minAmountOut, aToB), |SwapPrefix(dex, aToB)|;
            |data| >= n + 16 && U64At(data, n) == amountIn && U64At(data, n + 8) == minAmountOut
  {
    hide LeBytes, LeValue, SwapPrefix, SwapSuffix;
    var data, n := SwapData(dex, amountIn, minAmountOut, aToB), |SwapPrefix(dex, aToB)|;
    assert data[n..n + 8] == LeBytes(amountIn, 8);
    assert data[n + 8..n + 16] == LeBytes(minAmountOut, 8);
    Pow256Of8();
    LeRoundTrip(amountIn, 8);
    LeRoundTrip(minAmountOut, 8);
  }
}
