/** How the executor lays out the accounts of the arbitrage instruction. */
module Builder {
  import opened Bytes
  import opened Ix

  datatype AccountMeta = AccountMeta(key: Key, isSigner: bool, isWritable: bool)

  /** One hop with the accounts its venue expects, the venue's program first. */
  datatype ResolvedHop = ResolvedHop(dex: DexKind, metas: seq<AccountMeta>, sourceIndex: byte, aToB: bool, minAmountOut: u64)

  datatype Instruction = Instruction(programId: Key, accounts: seq<AccountMeta>, data: seq<byte>)

  /** The number of accounts is a byte, and wraps. */
  function HopOf(hop: ResolvedHop): HopParams {
    HopParams(hop.dex, |hop.metas| % 256, hop.sourceIndex, hop.aToB, hop.minAmountOut)
  }

  function HopsOf(hops: seq<ResolvedHop>): (r: seq<HopParams>)
    ensures |r| == |hops|
  {
    seq(|hops|, i requires 0 <= i < |hops| => HopOf(hops[i]))
  }

  function Metas(hops: seq<ResolvedHop>): seq<AccountMeta> {
    if hops == [] then [] else Metas(hops[..|hops| - 1]) + hops[|hops| - 1].metas
  }

  method BuildArbInstruction(programId: Key, payer: Key, baseTokenAccount: Key, hops: seq<ResolvedHop>,
                             amountIn: u64, minProfit: u64)
    returns (ix: Instruction)
    ensures ix.programId == programId
    ensures ix.accounts == [AccountMeta(payer, true, false), AccountMeta(baseTokenAccount, false, true)] + Metas(hops)
    ensures ix.data == Encoded(IxParams(amountIn, minProfit, HopsOf(hops)))
  {
    var params := IxParams(amountIn, minProfit, HopsOf(hops));
    var accounts := [AccountMeta(payer, true, false)];
    accounts := accounts + [AccountMeta(baseTokenAccount, false, true)];
    for i := 0 to |hops|
      invariant accounts == [AccountMeta(payer, true, false), AccountMeta(baseTokenAccount, false, true)] + Metas(hops[..i])
    {
      accounts := accounts + hops[i].metas;
      assert hops[..i + 1][..i] == hops[..i];
    }
    assert hops[..|hops|] == hops;
    var data := EncodeInstruction(params);
    ix := Instruction(programId, accounts, data);
  }

  // ------------------------------------------------------------------ the slices come back

  predicate FitsByte(hops: seq<ResolvedHop>) {
    forall i :: 0 <= i < |hops| ==> |hops[i].metas| < 256
  }

  lemma {:induction false} MetasNext(hops: seq<ResolvedHop>, i: nat)
    requires i < |hops|
    ensures Metas(hops[..i + 1]) == Metas(hops[..i]) + hops[i].metas
  {
    assert hops[..i + 1][..i] == hops[..i];
  }

  lemma {:induction false} CursorIsLength(hops: seq<ResolvedHop>, i: nat)
    requires FitsByte(hops) && i <= |hops|
    ensures Cursor(HopsOf(hops), i) == |Metas(hops[..i])|
  {
    if i > 0 {
      CursorIsLength(hops, i - 1);
      MetasNext(hops, i - 1);
    }
  }

  lemma {:induction false} PrefixOfMetas(hops: seq<ResolvedHop>, i: nat)
    requires i <= |hops|
    ensures Metas(hops[..i]) <= Metas(hops)
    decreases |hops| - i
  {
    if i < |hops| {
      PrefixOfMetas(hops, i + 1);
      MetasNext(hops, i);
    } else {
      assert hops[..i] == hops;
    }
  }

  /** Following the account counts cuts the list back into exactly the hops' own accounts. */
  lemma {:induction false} SlicesComeBack(hops: seq<ResolvedHop>, i: nat)
    requires FitsByte(hops) && i < |hops|
    ensures var c := Cursor(HopsOf(hops), i);
            c + |hops[i].metas| <= |Metas(hops)| && Metas(hops)[c..c + |hops[i].metas|] == hops[i].metas
  {
    CursorIsLength(hops, i);
    MetasNext(hops, i);
    PrefixOfMetas(hops, i + 1);
  }

  lemma {:induction false} CursorFallsShort(hops: seq<ResolvedHop>, i: nat)
    requires i <= |hops|
    ensures Cursor(HopsOf(hops), i) <= |Metas(hops[..i])|
    ensures Cursor(HopsOf(hops), i) == |Metas(hops[..i])| ==> FitsByte(hops[..i])
  {
    if i > 0 {
      CursorFallsShort(hops, i - 1);
      MetasNext(hops, i - 1);
      var init := hops[..i - 1];
      assert hops[..i] == init + [hops[i - 1]];
      if Cursor(HopsOf(hops), i) == |Metas(hops[..i])| {
        assert FitsByte(init) && |hops[i - 1].metas| < 256;
      }
    }
  }

  /** The counts add up to the accounts listed exactly when no hop has more than 255; the program
      refuses a list they do not add up to. */
  lemma {:induction false} CountsAddUpIff(hops: seq<ResolvedHop>)
    ensures Cursor(HopsOf(hops), |hops|) == |Metas(hops)| <==> FitsByte(hops)
  {
    assert hops[..|hops|] == hops;
    CursorFallsShort(hops, |hops|);
    if FitsByte(hops) { CursorIsLength(hops, |hops|); }
  }
}
