/** The on-chain program: it runs the hops through the venues and either makes its profit or fails. */
module Program {
  import opened Common
  import opened Arith
  import opened Bytes
  import opened Ix
  import opened Builder

  // ------------------------------------------------------------------ accounts

  datatype AccountState = AccountState(ownedBy: Key, executable: bool, data: seq<byte>)

  /** Every account on chain; a key that holds none is an empty account of nobody. */
  type Ledger = map<Key, AccountState>

  function At(ledger: Ledger, key: Key): AccountState {
    if key in ledger then ledger[key] else AccountState([], false, [])
  }

  predicate IsTokenAccount(ledger: Ledger, key: Key) {
    At(ledger, key).ownedBy == TOKEN_PROGRAM_ID && |At(ledger, key).data| >= 72
  }

  function Balance(ledger: Ledger, key: Key): u64
    requires IsTokenAccount(ledger, key)
  {
    U64At(At(ledger, key).data, 64)
  }

  /** A token account whose owner field is the authority. */
  predicate IsUserTokenAccount(ledger: Ledger, key: Key, authority: Key) {
    IsTokenAccount(ledger, key) && At(ledger, key).data[32..64] == authority
  }

  /** The layout of an SPL token account: mint, owner, amount, and what else there is. */
  predicate IsLaidOut(data: seq<byte>, mint: Key, owner: Key, amount: u64, rest: seq<byte>) {
    |mint| == 32 && data == mint + owner + LeBytes(amount, 8) + rest
  }

  /** What the checks and the read establish: the account belongs to the token program, and its data
      were written with this owner and this amount. */
  lemma TokenAccountIff(ledger: Ledger, key: Key, owner: Key, amount: u64)
    requires |owner| == 32
    ensures IsUserTokenAccount(ledger, key, owner) && Balance(ledger, key) == amount <==>
              At(ledger, key).ownedBy == [  // TokenkegQfeZyiNwAJbNbGKPFXCWuBvf9Ss623VQ5DA
                0x06, 0xdd, 0xf6, 0xe1, 0xd7, 0x65, 0xa1, 0x93, 0xd9, 0xcb, 0xe1, 0x46, 0xce, 0xeb, 0x79, 0xac,
                0x1c, 0xb4, 0x85, 0xed, 0x5f, 0x5b, 0x37, 0x91, 0x3a, 0x8c, 0xf5, 0x85, 0x7e, 0xff, 0x00, 0xa9]
              && exists mint, rest :: IsLaidOut(At(ledger, key).data, mint, owner, amount, rest)
  {
    hide LeBytes, LeValue, At;
    var data := At(ledger, key).data;
    if IsUserTokenAccount(ledger, key, owner) && Balance(ledger, key) == amount {
      LeBytesOfValue(data[64..72]);
      assert data == data[..32] + data[32..64] + data[64..72] + data[72..];
      assert IsLaidOut(data, data[..32], owner, amount, data[72..]);
    }
    forall mint, rest | IsLaidOut(data, mint, owner, amount, rest)
      ensures |data| >= 72 && data[32..64] == owner && U64At(data, 64) == amount
    {
      Pow256Of8();
      LeRoundTrip(amount, 8);
      assert data[32..64] == owner && data[64..72] == LeBytes(amount, 8);
    }
  }

  method ReadTokenAmount(ledger: Ledger, key: Key) returns (r: Result<u64, ArbError>)
    ensures r == if IsTokenAccount(ledger, key) then Ok(Balance(ledger, key)) else Err(InvalidTokenAccount)
  {
    var account := At(ledger, key);
    if account.ownedBy != TOKEN_PROGRAM_ID {
      return Err(InvalidTokenAccount);
    }
    if |account.data| < 72 {
      return Err(InvalidTokenAccount);
    }
    return Ok(U64At(account.data, 64));
  }

  method CheckUserTokenAccount(ledger: Ledger, key: Key, authority: Key) returns (r: Option<ArbError>)
    ensures r.None? <==> IsUserTokenAccount(ledger, key, authority)
    ensures r.Some? ==> r.value == if IsTokenAccount(ledger, key) then TokenAccountOwnerMismatch else InvalidTokenAccount
  {
    var account := At(ledger, key);
    if account.ownedBy != TOKEN_PROGRAM_ID {
      return Some(InvalidTokenAccount);
    }
    if |account.data| < 72 {
      return Some(InvalidTokenAccount);
    }
    if account.data[32..64] != authority {
      return Some(TokenAccountOwnerMismatch);
    }
    return None;
  }

  // ------------------------------------------------------------------ hops

  datatype ProgramError = Custom(error: ArbError) | NotEnoughAccountKeys | CallFailed

  datatype CpiCall = CpiCall(program: Key, accounts: seq<AccountMeta>, data: seq<byte>)

  /** What the venues do: any call may change any account in any way, or fail. */
  type Venue = (Ledger, CpiCall) -> Option<Ledger>

  function ProgramOf(dex: DexKind): Key {
    match dex
    case RaydiumV4 => RAYDIUM_V4_PROGRAM_ID
    case OrcaWhirlpool => WHIRLPOOL_PROGRAM_ID
    case MeteoraDlmm => METEORA_DLMM_PROGRAM_ID
    case PumpAmm => PUMP_AMM_PROGRAM_ID
  }

  predicate HasSlice(rest: seq<AccountMeta>, hops: seq<HopParams>, k: nat)
    requires k < |hops|
  {
    Cursor(hops, k) + hops[k].numAccounts <= |rest|
  }

  function Slice(rest: seq<AccountMeta>, hops: seq<HopParams>, k: nat): (s: seq<AccountMeta>)
    requires k < |hops| && HasSlice(rest, hops, k)
    ensures |s| == hops[k].numAccounts
  {
    rest[Cursor(hops, k)..Cursor(hops, k) + hops[k].numAccounts]
  }

  /** The account hop `k` trades from. */
  function Source(rest: seq<AccountMeta>, hops: seq<HopParams>, k: nat): Key
    requires k < |hops| && HasSlice(rest, hops, k) && HopIsSound(hops[k])
  {
    Slice(rest, hops, k)[hops[k].sourceIndex].key
  }

  /** What hop `k` trades: the size asked for, and after that all its source account holds. */
  function AmountOf(ledger: Ledger, rest: seq<AccountMeta>, params: IxParams, k: nat): Result<u64, ArbError>
    requires IsSound(params) && k < |params.hops| && HasSlice(rest, params.hops, k)
  {
    if k == 0 then Ok(params.amountIn)
    else if IsTokenAccount(ledger, Source(rest, params.hops, k)) then Ok(Balance(ledger, Source(rest, params.hops, k)))
    else Err(InvalidTokenAccount)
  }

  function CallOf(slice: seq<AccountMeta>, hop: HopParams, amount: u64): CpiCall
    requires slice != []
  {
    CpiCall(slice[0].key, slice[1..], SwapData(hop.dex, amount, hop.minAmountOut, hop.aToB))
  }

  /** Why hop `k` falls short of its floor, if it does: the account the next hop trades from must
      hold at least that much. */
  function Shortfall(ledger: Ledger, rest: seq<AccountMeta>, params: IxParams, k: nat): Option<ArbError>
    requires IsSound(params) && k < |params.hops|
  {
    if k + 1 == |params.hops| then None
    else if !HasSlice(rest, params.hops, k + 1) then Some(AccountSliceOutOfBounds)
    else
      var next := Source(rest, params.hops, k + 1);
      if !IsTokenAccount(ledger, next) then Some(InvalidTokenAccount)
      else if Balance(ledger, next) < params.hops[k].minAmountOut then Some(ProfitNotMet)
      else None
  }

  datatype Hop = Hop(call: CpiCall, ledger: Ledger)

  function RunHop(venue: Venue, ledger: Ledger, rest: seq<AccountMeta>, params: IxParams, k: nat): Result<Hop, ProgramError>
    requires IsSound(params) && k < |params.hops|
  {
    var hop := params.hops[k];
    if !HasSlice(rest, params.hops, k) then Err(Custom(AccountSliceOutOfBounds))
    else
      var slice, amount := Slice(rest, params.hops, k), AmountOf(ledger, rest, params, k);
      if slice[0].key != ProgramOf(hop.dex) || !At(ledger, slice[0].key).executable then Err(Custom(InvalidDexProgram))
      else if amount.Err? then Err(Custom(amount.error))
      else if amount.value == 0 then Err(Custom(ZeroAmount))
      else
        var call := CallOf(slice, hop, amount.value);
        var after := venue(ledger, call);
        if after.None? then Err(CallFailed)
        else
          var short := Shortfall(after.value, rest, params, k);
          if short.Some? then Err(Custom(short.value)) else Ok(Hop(call, after.value))
  }

  /** A run of the hops: the ledger before each and after the last, and the calls made. */
  datatype Run = Run(ledgers: seq<Ledger>, calls: seq<CpiCall>)

  function RunHops(venue: Venue, ledger: Ledger, rest: seq<AccountMeta>, params: IxParams, n: nat)
      : (r: Result<Run, ProgramError>)
    requires IsSound(params) && n <= |params.hops|
    ensures r.Ok? ==> |r.value.calls| == n && |r.value.ledgers| == n + 1
  {
    if n == 0 then Ok(Run([ledger], []))
    else
      var r := RunHops(venue, ledger, rest, params, n - 1);
      if r.Err? then r
      else
        var hop := RunHop(venue, r.value.ledgers[n - 1], rest, params, n - 1);
        if hop.Err? then Err(hop.error)
        else Ok(Run(r.value.ledgers + [hop.value.ledger], r.value.calls + [hop.value.call]))
  }

  function Process(venue: Venue, ledger: Ledger, accounts: seq<AccountMeta>, data: seq<byte>): (r: Result<Run, ProgramError>)
    ensures r.Ok? ==> r.value.ledgers != []
  {
    var parsed := Parsed(data);
    if parsed.Err? then Err(Custom(parsed.error))
    else if |accounts| < 2 then Err(NotEnoughAccountKeys)
    else if !accounts[0].isSigner then Err(Custom(MissingSignature))
    else
      var params, base, rest := parsed.value, accounts[1].key, accounts[2..];
      EncodedOfParse(data);
      if !IsTokenAccount(ledger, base) then Err(Custom(InvalidTokenAccount))
      else if !IsUserTokenAccount(ledger, base, accounts[0].key) then Err(Custom(TokenAccountOwnerMismatch))
      else
        var r := RunHops(venue, ledger, rest, params, |params.hops|);
        if r.Err? then r
        else if Cursor(params.hops, |params.hops|) != |rest| then Err(Custom(AccountSliceOutOfBounds))
        else
          var final := r.value.ledgers[|params.hops|];
          if !IsTokenAccount(final, base) then Err(Custom(InvalidTokenAccount))
          else if Balance(ledger, base) + params.minProfit > U64_MAX then Err(Custom(ArithmeticOverflow))
          else if Balance(final, base) < Balance(ledger, base) + params.minProfit then Err(Custom(ProfitNotMet))
          else r
  }

  // ------------------------------------------------------------------ what success means

  ghost predicate IsProgram(ledger: Ledger, key: Key) {
    key in ledger && ledger[key].executable
  }

  lemma ExecutableIff(ledger: Ledger, key: Key)
    ensures At(ledger, key).executable <==> IsProgram(ledger, key)
  {
  }

  /** Hop `k` of a run: its venue's program was called, with the rest of its slice and the data for
      a swap of a positive amount; the venue did what it did; and the next hop's source account then
      held at least this hop's floor. */
  ghost predicate HopRan(venue: Venue, rest: seq<AccountMeta>, params: IxParams, k: nat,
                         before: Ledger, call: CpiCall, after: Ledger)
    requires IsSound(params) && k < |params.hops|
  {
    var hop := params.hops[k];
    && HasSlice(rest, params.hops, k)
    && Slice(rest, params.hops, k)[0].key == ProgramOf(hop.dex) && IsProgram(before, ProgramOf(hop.dex))
    && var amount := AmountOf(before, rest, params, k);
    && amount.Ok? && amount.value > 0
    && call == CpiCall(ProgramOf(hop.dex), Slice(rest, params.hops, k)[1..],
                       SwapData(hop.dex, amount.value, hop.minAmountOut, hop.aToB))
    && venue(before, call) == Some(after)
    && (k + 1 < |params.hops| ==>
          && HasSlice(rest, params.hops, k + 1)
          && IsTokenAccount(after, Source(rest, params.hops, k + 1))
          && Balance(after, Source(rest, params.hops, k + 1)) >= hop.minAmountOut)
  }

  /** The first `n` hops ran, one after the other. */
  ghost predicate HopsRan(venue: Venue, ledger: Ledger, rest: seq<AccountMeta>, params: IxParams, n: nat, run: Run)
    requires IsSound(params) && n <= |params.hops|
  {
    && |run.calls| == n && |run.ledgers| == n + 1 && run.ledgers[0] == ledger
    && forall k :: 0 <= k < n ==> HopRan(venue, rest, params, k, run.ledgers[k], run.calls[k], run.ledgers[k + 1])
  }

  /** A run that meets every demand the program makes, stated without following its steps. */
  ghost predicate Accepted(venue: Venue, ledger: Ledger, accounts: seq<AccountMeta>, params: IxParams, run: Run) {
    && IsSound(params)
    && |accounts| == 2 + Cursor(params.hops, |params.hops|)
    && accounts[0].isSigner && IsUserTokenAccount(ledger, accounts[1].key, accounts[0].key)
    && HopsRan(venue, ledger, accounts[2..], params, |params.hops|, run)
    && var final, base := run.ledgers[|params.hops|], accounts[1].key;
    && IsTokenAccount(final, base)
    && Balance(final, base) >= Balance(ledger, base) + params.minProfit
  }

  lemma RunHopIff(venue: Venue, rest: seq<AccountMeta>, params: IxParams, k: nat, before: Ledger, call: CpiCall, after: Ledger)
    requires IsSound(params) && k < |params.hops|
    ensures RunHop(venue, before, rest, params, k) == Ok(Hop(call, after))
       <==> HopRan(venue, rest, params, k, before, call, after)
  {
    hide SwapData, Cursor, At, Balance, IsTokenAccount, HopIsSound, U64At, IsProgram;
    ExecutableIff(before, ProgramOf(params.hops[k].dex));
  }

  lemma {:induction false} RunHopsIff(venue: Venue, ledger: Ledger, rest: seq<AccountMeta>, params: IxParams, n: nat, run: Run)
    requires IsSound(params) && n <= |params.hops|
    ensures RunHops(venue, ledger, rest, params, n) == Ok(run) <==> HopsRan(venue, ledger, rest, params, n, run)
    decreases n
  {
    hide RunHop, HopRan, IsSound, RunHops;
    if n > 0 {
      if |run.calls| == n && |run.ledgers| == n + 1 {
        var shorter := Run(run.ledgers[..n], run.calls[..n - 1]);
        RunHopsIff(venue, ledger, rest, params, n - 1, shorter);
        RunHopIff(venue, rest, params, n - 1, run.ledgers[n - 1], run.calls[n - 1], run.ledgers[n]);
        LastHop(venue, ledger, rest, params, n, run, shorter);
        RunsExtend(venue, ledger, rest, params, n, run, shorter);
      }
    } else {
      NoHopsRun(venue, ledger, rest, params);
      if |run.calls| == 0 && |run.ledgers| == 1 && run.ledgers[0] == ledger {
        assert run == Run([ledger], []);
      }
    }
  }

  lemma LastHop(venue: Venue, ledger: Ledger, rest: seq<AccountMeta>, params: IxParams, n: nat, run: Run, shorter: Run)
    requires IsSound(params) && 0 < n <= |params.hops| && |run.calls| == n && |run.ledgers| == n + 1
    requires shorter == Run(run.ledgers[..n], run.calls[..n - 1])
    ensures RunHops(venue, ledger, rest, params, n) == Ok(run) <==>
              && RunHops(venue, ledger, rest, params, n - 1) == Ok(shorter)
              && RunHop(venue, run.ledgers[n - 1], rest, params, n - 1) == Ok(Hop(run.calls[n - 1], run.ledgers[n]))
  {
    hide RunHop, IsSound;
    assert run.ledgers == shorter.ledgers + [run.ledgers[n]] && run.calls == shorter.calls + [run.calls[n - 1]];
  }

  lemma RunsExtend(venue: Venue, ledger: Ledger, rest: seq<AccountMeta>, params: IxParams, n: nat, run: Run, shorter: Run)
    requires IsSound(params) && 0 < n <= |params.hops| && |run.calls| == n && |run.ledgers| == n + 1
    requires shorter == Run(run.ledgers[..n], run.calls[..n - 1])
    ensures HopsRan(venue, ledger, rest, params, n, run) <==>
              && HopsRan(venue, ledger, rest, params, n - 1, shorter)
              && HopRan(venue, rest, params, n - 1, run.ledgers[n - 1], run.calls[n - 1], run.ledgers[n])
  {
    hide HopRan, IsSound;
    if HopsRan(venue, ledger, rest, params, n - 1, shorter) &&
       HopRan(venue, rest, params, n - 1, run.ledgers[n - 1], run.calls[n - 1], run.ledgers[n]) {
      forall k | 0 <= k < n ensures HopRan(venue, rest, params, k, run.ledgers[k], run.calls[k], run.ledgers[k + 1]) {
        if k < n - 1 {
          assert HopRan(venue, rest, params, k, shorter.ledgers[k], shorter.calls[k], shorter.ledgers[k + 1]);
        }
      }
    }
  }

  /** The program succeeds exactly on the runs that meet every demand, whatever the venues do. */
  lemma SucceedsIffAccepted(venue: Venue, ledger: Ledger, accounts: seq<AccountMeta>, data: seq<byte>, run: Run)
    ensures Process(venue, ledger, accounts, data) == Ok(run)
       <==> Parsed(data).Ok? && Accepted(venue, ledger, accounts, Parsed(data).value, run)
  {
    hide RunHops, HopsRan, Parsed, U64At, At, Cursor, HopIsSound;
    if Parsed(data).Ok? {
      EncodedOfParse(data);
      var params := Parsed(data).value;
      if |accounts| >= 2 {
        RunHopsIff(venue, ledger, accounts[2..], params, |params.hops|, run);
      }
    }
  }

  /** After the first hop, each trades at least the floor of the one before it. */
  lemma FloorsCarryOver(venue: Venue, ledger: Ledger, accounts: seq<AccountMeta>, params: IxParams, run: Run, k: nat)
    requires Accepted(venue, ledger, accounts, params, run) && 0 < k < |params.hops|
    ensures HasSlice(accounts[2..], params.hops, k)
    ensures var amount := AmountOf(run.ledgers[k], accounts[2..], params, k);
            amount.Ok? && amount.value >= params.hops[k - 1].minAmountOut
  {
    hide Cursor, At, SwapData;
    assert HopRan(venue, accounts[2..], params, k - 1, run.ledgers[k - 1], run.calls[k - 1], run.ledgers[k]);
  }

  // ------------------------------------------------------------------ what a floor guarantees

  /** Hop `k` is not the last and can be run on this ledger, where the account it should pay into is
      already a token account. */
  ghost predicate Runnable(rest: seq<AccountMeta>, params: IxParams, k: nat, before: Ledger) {
    && IsSound(params) && k + 1 < |params.hops|
    && HasSlice(rest, params.hops, k) && HasSlice(rest, params.hops, k + 1)
    && Slice(rest, params.hops, k)[0].key == ProgramOf(params.hops[k].dex)
    && IsProgram(before, ProgramOf(params.hops[k].dex))
    && AmountOf(before, rest, params, k).Ok? && AmountOf(before, rest, params, k).value > 0
    && IsTokenAccount(before, Source(rest, params.hops, k + 1))
  }

  function CallFor(rest: seq<AccountMeta>, params: IxParams, k: nat, before: Ledger): CpiCall
    requires Runnable(rest, params, k, before)
  {
    CallOf(Slice(rest, params.hops, k), params.hops[k], AmountOf(before, rest, params, k).value)
  }

  /** The floor is on what the next hop's source account holds, so if it holds that much beforehand
      a venue that changes nothing at all passes. */
  lemma IdleVenuePasses(rest: seq<AccountMeta>, params: IxParams, k: nat, before: Ledger)
    requires Runnable(rest, params, k, before)
    requires Balance(before, Source(rest, params.hops, k + 1)) >= params.hops[k].minAmountOut
    ensures HopRan((ledger, call) => Some(ledger), rest, params, k, before, CallFor(rest, params, k, before), before)
  {
    hide Cursor, At, SwapData, U64At;
  }

  /** Passing the floor means having been paid it, whatever the venue, exactly when that account was
      empty before the hop. */
  lemma FloorIsGainIff(rest: seq<AccountMeta>, params: IxParams, k: nat, before: Ledger)
    requires Runnable(rest, params, k, before)
    ensures var next, call := Source(rest, params.hops, k + 1), CallFor(rest, params, k, before);
            (forall venue: Venue, after: Ledger :: HopRan(venue, rest, params, k, before, call, after) ==>
               Balance(after, next) - Balance(before, next) >= params.hops[k].minAmountOut)
            <==> Balance(before, next) == 0
  {
    hide Cursor, SwapData, U64At, LeBytes;
    var next, call := Source(rest, params.hops, k + 1), CallFor(rest, params, k, before);
    if Balance(before, next) > 0 {
      var after := Holding(before, next, params.hops[k].minAmountOut);
      var venue: Venue := (ledger, c) => Some(after);
      assert HopRan(venue, rest, params, k, before, call, after);
      assert Balance(after, next) == params.hops[k].minAmountOut;
    }
  }

  /** The ledger with a given balance in one token account. */
  function Holding(ledger: Ledger, key: Key, amount: u64): (r: Ledger)
    requires IsTokenAccount(ledger, key)
    ensures IsTokenAccount(r, key) && Balance(r, key) == amount
  {
    var account := At(ledger, key);
    var data := account.data[..64] + LeBytes(amount, 8) + account.data[72..];
    assert data[64..72] == LeBytes(amount, 8);
    Pow256Of8();
    LeRoundTrip(amount, 8);
    ledger[key := account.(data := data)]
  }

  // ------------------------------------------------------------------ from the executor to the venues

  /** An instruction the executor builds for at most 255 accounts a hop hands each venue exactly the
      accounts resolved for it, and trades from the ones resolved as sources. */
  lemma {:induction false} BuiltHopsReachVenues(venue: Venue, ledger: Ledger, payer: Key, base: Key, hops: seq<ResolvedHop>,
                             amountIn: u64, minProfit: u64, run: Run, k: nat)
    requires FitsByte(hops) && k < |hops|
    requires var accounts := [AccountMeta(payer, true, false), AccountMeta(base, false, true)] + Metas(hops);
             Process(venue, ledger, accounts, Encoded(IxParams(amountIn, minProfit, HopsOf(hops)))) == Ok(run)
    ensures 1 <= |hops| <= MAX_HOPS && |run.calls| == |hops| && |run.ledgers| == |hops| + 1
    ensures hops[k].sourceIndex < |hops[k].metas| && hops[k].metas[0].key == ProgramOf(hops[k].dex)
    ensures run.calls[k].program == hops[k].metas[0].key && run.calls[k].accounts == hops[k].metas[1..]
    ensures venue(run.ledgers[k], run.calls[k]) == Some(run.ledgers[k + 1])
    ensures k > 0 ==>
              var source := hops[k].metas[hops[k].sourceIndex].key;
              && IsTokenAccount(run.ledgers[k], source)
              && Balance(run.ledgers[k], source) >= hops[k - 1].minAmountOut
              && run.calls[k].data == SwapData(hops[k].dex, Balance(run.ledgers[k], source), hops[k].minAmountOut, hops[k].aToB)
    ensures k == 0 ==> run.calls[k].data == SwapData(hops[k].dex, amountIn, hops[k].minAmountOut, hops[k].aToB)
  {
    hide Parsed, Process, Encoded, SwapData, At, Cursor, Metas, IsTokenAccount, Balance, Accepted, FitsByte;
    var params := IxParams(amountIn, minProfit, HopsOf(hops));
    var accounts := [AccountMeta(payer, true, false), AccountMeta(base, false, true)] + Metas(hops);
    assert accounts[2..] == Metas(hops);
    ParseOfEncoded(params);
    AcceptedHop(venue, ledger, accounts, Encoded(params), run, k);
    SlicesComeBack(hops, k);
    CountFits(hops, k);
    assert Slice(Metas(hops), params.hops, k) == hops[k].metas;
    if k > 0 {
      FloorsCarryOver(venue, ledger, accounts, params, run, k);
    }
  }

  lemma CountFits(hops: seq<ResolvedHop>, k: nat)
    requires FitsByte(hops) && k < |hops|
    ensures HopsOf(hops)[k].numAccounts == |hops[k].metas|
  {
  }

  lemma AcceptedHop(venue: Venue, ledger: Ledger, accounts: seq<AccountMeta>, data: seq<byte>, run: Run, k: nat)
    requires Process(venue, ledger, accounts, data) == Ok(run)
    ensures Parsed(data).Ok? && IsSound(Parsed(data).value) && Accepted(venue, ledger, accounts, Parsed(data).value, run)
    ensures var hops := Parsed(data).value.hops;
            && |run.calls| == |hops| && |run.ledgers| == |hops| + 1
            && (k < |hops| ==>
                  HopRan(venue, accounts[2..], Parsed(data).value, k, run.ledgers[k], run.calls[k], run.ledgers[k + 1]))
  {
    hide Parsed, Process, HopRan, U64At;
    SucceedsIffAccepted(venue, ledger, accounts, data, run);
  }

  // ------------------------------------------------------------------ the program itself

  /** The chain while a transaction runs: its accounts, and the calls made to venues so far. */
  class Chain {
    const venue: Venue
    var ledger: Ledger
    var calls: seq<CpiCall>

    constructor (venue: Venue, ledger: Ledger)
      ensures this.venue == venue && this.ledger == ledger && calls == []
    {
      this.venue, this.ledger, calls := venue, ledger, [];
    }

    method Invoke(call: CpiCall) returns (ok: bool)
      modifies this
      ensures calls == old(calls) + [call]
      ensures ok == venue(old(ledger), call).Some?
      ensures ledger == if ok then venue(old(ledger), call).value else old(ledger)
    {
      calls := calls + [call];
      var after := venue(ledger, call);
      ok := after.Some?;
      if ok {
        ledger := after.value;
      }
    }

    /** Run the instruction. On success the chain has gone through the accepted run; on failure it
        may be anywhere on the way. */
    method ProcessInstruction(accounts: seq<AccountMeta>, data: seq<byte>) returns (r: Result<(), ProgramError>)
      modifies this
      ensures var p := Process(venue, old(ledger), accounts, data);
              if p.Ok? then
                && r == Ok(()) && calls == old(calls) + p.value.calls
                && ledger == p.value.ledgers[|p.value.ledgers| - 1]
              else r == Err(p.error)
    {
      hide Parsed, RunHops, RunHop, U64At, Cursor, At, IsTokenAccount, HopIsSound;
      var parsed := ParseInstruction(data);
      if parsed.Err? {
        return Err(Custom(parsed.error));
      }
      var params := parsed.value;
      if |accounts| < 2 {
        return Err(NotEnoughAccountKeys);
      }
      var authority, base, rest := accounts[0], accounts[1].key, accounts[2..];
      if !authority.isSigner {
        return Err(Custom(MissingSignature));
      }
      var checked := CheckUserTokenAccount(ledger, base, authority.key);
      if checked.Some? {
        return Err(Custom(checked.value));
      }
      var starting := ReadTokenAmount(ledger, base);
      EncodedOfParse(data);
      var cursor, failed := RunAll(rest, params);
      if failed.Some? {
        return Err(failed.value);
      }
      if cursor != |rest| {
        return Err(Custom(AccountSliceOutOfBounds));
      }
      var final := ReadTokenAmount(ledger, base);
      if final.Err? {
        return Err(Custom(final.error));
      }
      var required := starting.value + params.minProfit;
      if required > U64_MAX {
        return Err(Custom(ArithmeticOverflow));
      }
      if final.value < required {
        return Err(Custom(ProfitNotMet));
      }
      return Ok(());
    }

    /** The hops in order, each from where the one before left the chain and the cursor. */
    method RunAll(rest: seq<AccountMeta>, params: IxParams) returns (cursor: nat, failed: Option<ProgramError>)
      requires IsSound(params)
      modifies this
      ensures var p := RunHops(venue, old(ledger), rest, params, |params.hops|);
              if p.Ok? then
                && failed.None? && cursor == Cursor(params.hops, |params.hops|)
                && calls == old(calls) + p.value.calls && ledger == p.value.ledgers[|params.hops|]
              else failed == Some(p.error)
    {
      hide RunHop, HopIsSound, RunHops, IsSound;
      cursor, failed := 0, None;
      ghost var run := Run([ledger], []);
      NoHopsRun(venue, ledger, rest, params);
      for k := 0 to |params.hops|
        invariant RunHops(venue, old(ledger), rest, params, k) == Ok(run)
        invariant ledger == run.ledgers[k] && calls == old(calls) + run.calls
        invariant cursor == Cursor(params.hops, k)
        invariant failed.None?
      {
        NextHopRuns(venue, old(ledger), rest, params, k);
        failed := Step(rest, params, k, cursor);
        if failed.Some? {
          FailedAt(venue, old(ledger), rest, params, k, |params.hops|);
          return;
        }
        cursor := cursor + params.hops[k].numAccounts;
        run := RunHops(venue, old(ledger), rest, params, k + 1).value;
      }
    }

    /** One hop, with its accounts starting at the cursor. */
    method Step(rest: seq<AccountMeta>, params: IxParams, k: nat, cursor: nat) returns (failed: Option<ProgramError>)
      requires IsSound(params) && k < |params.hops| && cursor == Cursor(params.hops, k)
      modifies this
      ensures var hop := RunHop(venue, old(ledger), rest, params, k);
              if hop.Ok? then failed.None? && calls == old(calls) + [hop.value.call] && ledger == hop.value.ledger
              else failed == Some(hop.error)
    {
      hide Cursor, At, IsTokenAccount, SwapData, U64At, Balance;
      var hop := params.hops[k];
      var n := hop.numAccounts;
      if cursor + n > |rest| {
        return Some(Custom(AccountSliceOutOfBounds));
      }
      var slice := rest[cursor..cursor + n];
      assert HopIsSound(hop);
      if slice[0].key != ProgramOf(hop.dex) || !At(ledger, slice[0].key).executable {
        return Some(Custom(InvalidDexProgram));
      }
      var amountIn: u64 := params.amountIn;
      if k > 0 {
        var amount := ReadTokenAmount(ledger, slice[hop.sourceIndex].key);
        if amount.Err? {
          return Some(Custom(amount.error));
        }
        amountIn := amount.value;
      }
      if amountIn == 0 {
        return Some(Custom(ZeroAmount));
      }
      var data := SwapData(hop.dex, amountIn, hop.minAmountOut, hop.aToB);
      var ok := Invoke(CpiCall(slice[0].key, slice[1..], data));
      if !ok {
        return Some(CallFailed);
      }
      failed := CheckFloor(rest, params, k, cursor + n);
    }

    /** The intermediate minimum: a hop's output must have landed where the next hop trades from. */
    method CheckFloor(rest: seq<AccountMeta>, params: IxParams, k: nat, cursor: nat) returns (failed: Option<ProgramError>)
      requires IsSound(params) && k < |params.hops| && cursor == Cursor(params.hops, k) + params.hops[k].numAccounts
      ensures var short := Shortfall(ledger, rest, params, k);
              failed == if short.Some? then Some(Custom(short.value)) else None
    {
      hide At, IsTokenAccount, U64At, Balance;
      if k + 1 < |params.hops| {
        var next := params.hops[k + 1];
        assert cursor == Cursor(params.hops, k + 1) && HopIsSound(next);
        if cursor + next.numAccounts > |rest| {
          return Some(Custom(AccountSliceOutOfBounds));
        }
        var nextSlice := rest[cursor..cursor + next.numAccounts];
        var got := ReadTokenAmount(ledger, nextSlice[next.sourceIndex].key);
        if got.Err? {
          return Some(Custom(got.error));
        }
        if got.value < params.hops[k].minAmountOut {
          return Some(Custom(ProfitNotMet));
        }
      }
      return None;
    }

    /** The transaction around it: the runtime undoes everything if the program fails. So the base
        account has gained at least the profit asked for, or nothing has changed at all. */
    method Execute(accounts: seq<AccountMeta>, data: seq<byte>) returns (r: Result<(), ProgramError>)
      modifies this
      ensures r.Ok? <==> Process(venue, old(ledger), accounts, data).Ok?
      ensures r.Err? ==> ledger == old(ledger)
      ensures r.Ok? ==>
                && Parsed(data).Ok? && |accounts| >= 2
                && var base := accounts[1].key;
                && IsUserTokenAccount(old(ledger), base, accounts[0].key) && IsTokenAccount(ledger, base)
                && Balance(ledger, base) >= Balance(old(ledger), base) + Parsed(data).value.minProfit
    {
      hide Parsed, RunHops, U64At, Cursor, At, Process, HopIsSound;
      var saved := ledger;
      r := ProcessInstruction(accounts, data);
      if r.Err? {
        ledger := saved;
      } else {
        ghost var run := Process(venue, old(ledger), accounts, data).value;
        SucceedsIffAccepted(venue, old(ledger), accounts, data, run);
      }
    }
  }

  lemma NoHopsRun(venue: Venue, ledger: Ledger, rest: seq<AccountMeta>, params: IxParams)
    requires IsSound(params)
    ensures RunHops(venue, ledger, rest, params, 0) == Ok(Run([ledger], []))
  {
  }

  lemma NextHopRuns(venue: Venue, ledger: Ledger, rest: seq<AccountMeta>, params: IxParams, k: nat)
    requires IsSound(params) && k < |params.hops| && RunHops(venue, ledger, rest, params, k).Ok?
    ensures var run := RunHops(venue, ledger, rest, params, k).value;
            var hop := RunHop(venue, run.ledgers[k], rest, params, k);
            RunHops(venue, ledger, rest, params, k + 1) ==
              if hop.Ok? then Ok(Run(run.ledgers + [hop.value.ledger], run.calls + [hop.value.call]))
              else Err(hop.error)
  {
    hide RunHop, IsSound;
  }

  lemma {:induction false} FailedAt(venue: Venue, ledger: Ledger, rest: seq<AccountMeta>, params: IxParams, k: nat, n: nat)
    requires IsSound(params) && k < n <= |params.hops| && RunHops(venue, ledger, rest, params, k + 1).Err?
    ensures RunHops(venue, ledger, rest, params, n) == RunHops(venue, ledger, rest, params, k + 1)
    decreases n - k
  {
    hide RunHop, IsSound;
    if k + 1 < n {
      FailedAt(venue, ledger, rest, params, k, n - 1);
    }
  }
}
