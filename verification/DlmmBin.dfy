/** One Meteora DLMM bin: conversion at its price, its three liquidity layers, and the fee rules.

    Everything is integer arithmetic on 64-bit amounts; a value that does not fit is the program's
    `MathOverflow`. Prices are Q64.64, token Y per token X. `forY` swaps give X for Y.
 */
module DlmmBin {
  import opened Common
  import opened Arith

  const FEE_PRECISION: nat := 1_000_000_000
  const MAX_FEE_RATE: nat := 100_000_000
  const BASIS_POINT_MAX: nat := 10_000

  datatype DlmmError =
    | PairNotSupported
    | InsufficientBinCoverage(missing: int)
    | ExhaustedLiquidity
    | NoFill
    | MathOverflow
  {
    /** "Too big for the liquidity we hold", as opposed to a structural problem. */
    predicate IsCapacity() {
      InsufficientBinCoverage? || ExhaustedLiquidity?
    }
  }

  type Checked<+T> = Result<T, DlmmError>

  datatype Bin = Bin(amountX: nat, amountY: nat, price: nat, openOrder: nat, processedOrder: nat, askSide: bool)
  {
    function MmAmountOut(forY: bool): nat {
      if forY then amountY else amountX
    }

    /** Open and processed limit-order amounts available in this direction. */
    function LimitOrders(forY: bool): (nat, nat) {
      if forY != askSide then (openOrder, processedOrder) else (0, 0)
    }

    function MaxAmountOut(forY: bool, limitOrders: bool): nat {
      var mm := MmAmountOut(forY);
      if !limitOrders then mm
      else
        var (open, processed) := LimitOrders(forY);
        Min(Min(mm + open, U64_MAX) + processed, U64_MAX)
    }

    /** The liquidity layers in the order in which they are filled. */
    function Layers(forY: bool, limitOrders: bool): seq<nat> {
      var (open, processed) := LimitOrders(forY);
      if limitOrders then [MmAmountOut(forY), processed, open] else [MmAmountOut(forY)]
    }
  }

  function Narrow(x: nat): Checked<nat> {
    if x <= U64_MAX then Ok(x) else Err(MathOverflow)
  }

  // ------------------------------------------------------------------ conversion

  /** Output for an input at the bin price, rounded down. */
  function Worth(amountIn: nat, price: nat, forY: bool): nat
    requires price > 0
  {
    if forY then FloorDiv(price * amountIn, Q64) else FloorDiv(amountIn * Q64, price)
  }

  /** Input for an output at the bin price, rounded up. */
  function Cost(amountOut: nat, price: nat, forY: bool): nat
    requires price > 0
  {
    if forY then CeilDiv(amountOut * Q64, price) else CeilDiv(price * amountOut, Q64)
  }

  /** The two conversions are adjoint: an input is worth an output exactly when it covers its cost. */
  lemma WorthIffCovered(amountIn: nat, amountOut: nat, price: nat, forY: bool)
    requires price > 0
    ensures amountOut <= Worth(amountIn, price, forY) <==> Cost(amountOut, price, forY) <= amountIn
  {
    if forY {
      FloorAtLeast(price * amountIn, Q64, amountOut);
      CeilAtMost(amountOut * Q64, price, amountIn);
    } else {
      FloorAtLeast(amountIn * Q64, price, amountOut);
      CeilAtMost(price * amountOut, Q64, amountIn);
    }
  }

  lemma WorthMono(less: nat, more: nat, price: nat, forY: bool)
    requires price > 0 && less <= more
    ensures Worth(less, price, forY) <= Worth(more, price, forY)
  {
    WorthIffCovered(less, Worth(less, price, forY), price, forY);
    WorthIffCovered(more, Worth(less, price, forY), price, forY);
  }

  // ------------------------------------------------------------------ one layer

  datatype Fill = Fill(amountIn: nat, left: nat, out: nat)

  function FillLayer(amount: nat, maxOut: nat, price: nat, forY: bool): Checked<Fill>
    requires price > 0
  {
    if maxOut == 0 then Ok(Fill(0, amount, 0))
    else match Narrow(Cost(maxOut, price, forY))
      case Err(e) => Err(e)
      case Ok(maxIn) =>
        if amount >= maxIn then Ok(Fill(maxIn, amount - maxIn, maxOut))
        else match Narrow(Worth(amount, price, forY))
          case Err(e) => Err(e)
          case Ok(out) => Ok(Fill(amount, 0, out))
  }

  /** A layer never charges more than was offered nor pays more than it holds, keeps nothing back
      while it still holds something, and treats a smaller input no better. */
  lemma LayerLaws(less: nat, more: nat, maxOut: nat, price: nat, forY: bool)
    requires price > 0 && less <= more && maxOut <= U64_MAX
    requires FillLayer(more, maxOut, price, forY).Ok?
    ensures FillLayer(less, maxOut, price, forY).Ok?
    ensures var a := FillLayer(less, maxOut, price, forY).value;
            var b := FillLayer(more, maxOut, price, forY).value;
            && b.amountIn + b.left == more && b.out <= maxOut && (b.left > 0 ==> b.out == maxOut)
            && a.amountIn + a.left == less && a.out <= b.out
            && (a.left > 0 ==> a.amountIn == b.amountIn && a.out == b.out)
            && (b.left == 0 ==> a.left == 0)
  {
    if maxOut > 0 {
      var cost := Cost(maxOut, price, forY);
      if more < cost { WorthIffCovered(more, maxOut, price, forY); }
      if less < cost { WorthIffCovered(less, maxOut, price, forY); }
      WorthMono(less, more, price, forY);
    }
  }

  // ------------------------------------------------------------------ the whole bin

  /** Filling layers one after the other, each with what the ones before it left over. */
  function FillLayers(layers: seq<nat>, amount: nat, price: nat, forY: bool): Checked<Fill>
    requires price > 0
  {
    if layers == [] then Ok(Fill(0, amount, 0))
    else match FillLayer(amount, layers[0], price, forY)
      case Err(e) => Err(e)
      case Ok(first) =>
        if first.left == 0 then Ok(first)
        else match FillLayers(layers[1..], first.left, price, forY)
          case Err(e) => Err(e)
          case Ok(rest) => Ok(Fill(first.amountIn + rest.amountIn, rest.left, first.out + rest.out))
  }

  /** Market-maker liquidity first, then processed orders, then open orders. */
  function FillBin(bin: Bin, amountIn: nat, price: nat, forY: bool, limitOrders: bool): Checked<Fill>
    requires price > 0
  {
    match FillLayer(amountIn, bin.MmAmountOut(forY), price, forY)
    case Err(e) => Err(e)
    case Ok(mm) =>
      if !limitOrders || mm.left == 0 then Ok(mm)
      else
        var (open, processed) := bin.LimitOrders(forY);
        match FillLayer(mm.left, processed, price, forY)
        case Err(e) => Err(e)
        case Ok(pf) =>
          if pf.left == 0 then Ok(Fill(mm.amountIn + pf.amountIn, 0, mm.out + pf.out))
          else match FillLayer(pf.left, open, price, forY)
            case Err(e) => Err(e)
            case Ok(of) => Ok(Fill(mm.amountIn + pf.amountIn + of.amountIn, of.left, mm.out + pf.out + of.out))
  }

  lemma OneLayer(layer: nat, amount: nat, price: nat, forY: bool)
    requires price > 0
    ensures FillLayers([layer], amount, price, forY) == FillLayer(amount, layer, price, forY)
  {
    assert [layer][1..] == [];
  }

  lemma FillBinIsLayered(bin: Bin, amountIn: nat, price: nat, forY: bool, limitOrders: bool)
    requires price > 0
    ensures FillBin(bin, amountIn, price, forY, limitOrders)
         == FillLayers(bin.Layers(forY, limitOrders), amountIn, price, forY)
  {
    hide FillLayer;
    var layers := bin.Layers(forY, limitOrders);
    var mm := FillLayer(amountIn, layers[0], price, forY);
    OneLayer(layers[0], amountIn, price, forY);
    if limitOrders && mm.Ok? {
      var two := layers[1..];
      assert two == [layers[1], layers[2]] && two[1..] == [layers[2]];
      var pf := FillLayer(mm.value.left, two[0], price, forY);
      if pf.Ok? {
        OneLayer(layers[2], pf.value.left, price, forY);
        assert FillLayers(two[1..], pf.value.left, price, forY) == FillLayer(pf.value.left, layers[2], price, forY);
      }
    }
  }

  function Sum(xs: seq<nat>): nat {
    if xs == [] then 0 else xs[0] + Sum(xs[1..])
  }

  /** Everything in a bin is offered in exactly one of the two directions. */
  lemma OfferedOnce(bin: Bin, limitOrders: bool)
    ensures Sum(bin.Layers(true, limitOrders)) + Sum(bin.Layers(false, limitOrders))
         == bin.amountX + bin.amountY + if limitOrders then bin.openOrder + bin.processedOrder else 0
  {
    forall forY {
      LayersAddUp(bin, forY, limitOrders);
    }
  }

  lemma LayersAddUp(bin: Bin, forY: bool, limitOrders: bool)
    ensures var (open, processed) := bin.LimitOrders(forY);
            Sum(bin.Layers(forY, limitOrders)) == bin.MmAmountOut(forY) + if limitOrders then open + processed else 0
  {
    var layers := bin.Layers(forY, limitOrders);
    if limitOrders {
      assert layers[1..] == [layers[1], layers[2]] && layers[1..][1..] == [layers[2]] && [layers[2]][1..] == [];
      assert Sum(layers[1..]) == layers[1] + Sum([layers[2]]);
    } else {
      assert layers[1..] == [];
    }
  }

  ghost predicate Fit(xs: seq<nat>) {
    forall x <- xs :: x <= U64_MAX
  }

  lemma FitTail(xs: seq<nat>)
    requires Fit(xs) && xs != []
    ensures xs[0] <= U64_MAX && Fit(xs[1..])
  {
    assert xs[0] in xs && forall x <- xs[1..] :: x in xs;
  }

  /** The layer laws carry over to a whole stack of layers; only when every layer is drained is
      anything left. */
  lemma {:induction false} LayersLaws(layers: seq<nat>, less: nat, more: nat, price: nat, forY: bool)
    requires price > 0 && less <= more && Fit(layers)
    requires FillLayers(layers, more, price, forY).Ok?
    ensures FillLayers(layers, less, price, forY).Ok?
    ensures var a := FillLayers(layers, less, price, forY).value;
            var b := FillLayers(layers, more, price, forY).value;
            && b.amountIn + b.left == more && b.out <= Sum(layers) && (b.left > 0 ==> b.out == Sum(layers))
            && a.amountIn + a.left == less && a.out <= b.out
            && (a.left > 0 ==> a.amountIn == b.amountIn && a.out == b.out)
            && (b.left == 0 ==> a.left == 0)
  {
    hide FillLayer;
    if layers != [] {
      FitTail(layers);
      LayerLaws(less, more, layers[0], price, forY);
      var a := FillLayer(less, layers[0], price, forY).value;
      var b := FillLayer(more, layers[0], price, forY).value;
      if b.left > 0 {
        LayersLaws(layers[1..], a.left, b.left, price, forY);
      }
    }
  }

  function Costs(xs: seq<nat>, price: nat, forY: bool): nat
    requires price > 0
  {
    if xs == [] then 0 else Cost(xs[0], price, forY) + Costs(xs[1..], price, forY)
  }

  /** A layer is charged at most its cost, and exactly its cost once it is drained with input left. */
  lemma LayerCost(amount: nat, maxOut: nat, price: nat, forY: bool)
    requires price > 0 && maxOut <= U64_MAX && FillLayer(amount, maxOut, price, forY).Ok?
    ensures var f := FillLayer(amount, maxOut, price, forY).value;
            && f.out <= maxOut && f.amountIn <= Cost(maxOut, price, forY)
            && (f.left > 0 ==> f.out == maxOut && f.amountIn == Cost(maxOut, price, forY))
  {
    LayerLaws(amount, amount, maxOut, price, forY);
    WorthIffCovered(0, 0, price, forY);
  }

  /** The layers are filled strictly in order: some first layers are paid for and drained in full,
      the next one at most in part, and those after it are untouched. */
  lemma {:induction false} LayersInOrder(layers: seq<nat>, amount: nat, price: nat, forY: bool) returns (k: nat)
    requires price > 0 && Fit(layers) && FillLayers(layers, amount, price, forY).Ok?
    ensures var f := FillLayers(layers, amount, price, forY).value;
            && k <= |layers|
            && Sum(layers[..k]) <= f.out && Costs(layers[..k], price, forY) <= f.amountIn
            && (k < |layers| ==>
                  && f.left == 0 && f.out - Sum(layers[..k]) <= layers[k]
                  && f.amountIn - Costs(layers[..k], price, forY) <= Cost(layers[k], price, forY))
            && (k == |layers| ==> f.out == Sum(layers) && f.amountIn == Costs(layers, price, forY))
  {
    hide FillLayer, Cost;
    k := 0;
    if layers != [] {
      FitTail(layers);
      LayerCost(amount, layers[0], price, forY);
      var first := FillLayer(amount, layers[0], price, forY).value;
      if first.left > 0 {
        var j := LayersInOrder(layers[1..], first.left, price, forY);
        assert layers[..j + 1][0] == layers[0] && layers[..j + 1][1..] == layers[1..][..j];
        k := j + 1;
      }
    }
    assert k == |layers| ==> layers[..k] == layers;
  }
}
