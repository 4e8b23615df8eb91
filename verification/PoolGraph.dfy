/** The token graph: pools as edges between mints, and the simple cycles anchored at a base mint. */
module PoolGraph {
  import opened Common

  type Address = string

  /** The two mints a pool trades. */
  datatype Ends = Ends(a: Mint, b: Mint)
  {
    predicate Touches(m: Mint) {
      a == m || b == m
    }

    /** The mint on the other side. */
    function Other(m: Mint): Mint {
      if a == m then b else a
    }
  }

  type Net = map<Address, Ends>

  predicate Trades(net: Net, pool: Address, m: Mint) {
    pool in net && net[pool].Touches(m)
  }

  function Traded(net: Net, pool: Address, m: Mint): Mint {
    if pool in net then net[pool].Other(m) else m
  }

  function Init<T>(xs: seq<T>): seq<T>
    requires xs != []
  {
    xs[..|xs| - 1]
  }

  function Last<T>(xs: seq<T>): T
    requires xs != []
  {
    xs[|xs| - 1]
  }

  /** The mint in hand after trading along the path from `base`. */
  function MintAfter(net: Net, base: Mint, path: seq<Address>): Mint {
    if path == [] then base else Traded(net, Last(path), MintAfter(net, base, Init(path)))
  }

  /** The mints received along the path, the one in hand last. */
  function Passed(net: Net, base: Mint, path: seq<Address>): (r: seq<Mint>)
    ensures |r| == |path|
  {
    if path == [] then [] else Passed(net, base, Init(path)) + [MintAfter(net, base, path)]
  }

  /** A path of distinct pools, each trading the mint in hand for one that is neither the base nor
      passed before. */
  predicate IsOpen(net: Net, base: Mint, path: seq<Address>) {
    path == [] ||
    var init, pool := Init(path), Last(path);
    var m := MintAfter(net, base, init);
    && IsOpen(net, base, init)
    && pool !in init && Trades(net, pool, m)
    && Traded(net, pool, m) != base && Traded(net, pool, m) !in Passed(net, base, init)
  }

  /** A base-anchored cycle: an open path of at least one pool, closed by another pool that trades
      the mint in hand back into the base. */
  predicate IsCycle(net: Net, base: Mint, maxHops: nat, path: seq<Address>) {
    2 <= |path| <= maxHops &&
    var init, pool := Init(path), Last(path);
    var m := MintAfter(net, base, init);
    && IsOpen(net, base, init)
    && pool !in init && Trades(net, pool, m) && Traded(net, pool, m) == base
  }

  // ------------------------------------------------------------------ what a cycle is

  ghost predicate Distinct<T>(xs: seq<T>) {
    forall i, j :: 0 <= i < j < |xs| ==> xs[i] != xs[j]
  }

  /** The same thing said outright: between 2 and `maxHops` distinct pools, and a list of mints
      starting at the base, distinct and never the base again until the end, such that hop `k`
      trades the `k`-th mint for the next and the last hop returns to the base. */
  ghost predicate IsSimpleCycle(net: Net, base: Mint, maxHops: nat, path: seq<Address>, mints: seq<Mint>) {
    && 2 <= |path| <= maxHops && Distinct(path)
    && |mints| == |path| && mints[0] == base && Distinct(mints)
    && (forall k :: 0 <= k < |path| ==> Trades(net, path[k], mints[k]))
    && (forall k :: 0 <= k < |path| - 1 ==> Traded(net, path[k], mints[k]) == mints[k + 1])
    && Traded(net, Last(path), Last(mints)) == base
  }

  lemma {:induction false} OpenIsSimple(net: Net, base: Mint, path: seq<Address>)
    requires IsOpen(net, base, path)
    ensures Distinct(path) && Distinct([base] + Passed(net, base, path))
    ensures Hops(net, path, [base] + Passed(net, base, path))
    ensures Last([base] + Passed(net, base, path)) == MintAfter(net, base, path)
    decreases |path|
  {
    if path != [] {
      var init, next := Init(path), MintAfter(net, base, path);
      OpenIsSimple(net, base, init);
      var shorter := [base] + Passed(net, base, init);
      assert [base] + Passed(net, base, path) == shorter + [next] && path == init + [Last(path)];
      assert next !in shorter;
      DistinctExtended(init, Last(path));
      DistinctExtended(shorter, next);
      HopsExtended(net, init, shorter, Last(path), next);
    }
  }

  /** Each hop trades one mint of the list for the next. */
  ghost predicate Hops(net: Net, path: seq<Address>, mints: seq<Mint>) {
    && |mints| == |path| + 1
    && forall k :: 0 <= k < |path| ==> Trades(net, path[k], mints[k]) && Traded(net, path[k], mints[k]) == mints[k + 1]
  }

  lemma HopsExtended(net: Net, path: seq<Address>, mints: seq<Mint>, pool: Address, next: Mint)
    requires Hops(net, path, mints) && Trades(net, pool, Last(mints)) && Traded(net, pool, Last(mints)) == next
    ensures Hops(net, path + [pool], mints + [next])
  {
  }

  lemma DistinctExtended<T>(xs: seq<T>, x: T)
    requires Distinct(xs) && x !in xs
    ensures Distinct(xs + [x])
  {
  }

  lemma FreshLast<T>(xs: seq<T>)
    requires xs != [] && Distinct(xs)
    ensures Last(xs) !in Init(xs) && Distinct(Init(xs))
  {
  }

  lemma {:induction false} SimpleIsOpen(net: Net, base: Mint, path: seq<Address>, mints: seq<Mint>)
    requires Distinct(path) && |mints| == |path| + 1 && mints[0] == base && Distinct(mints)
    requires forall k :: 0 <= k < |path| ==>
               Trades(net, path[k], mints[k]) && Traded(net, path[k], mints[k]) == mints[k + 1]
    ensures IsOpen(net, base, path) && [base] + Passed(net, base, path) == mints
    ensures MintAfter(net, base, path) == Last(mints)
    decreases |path|
  {
    if path != [] {
      var init, n := Init(path), |path| - 1;
      SimpleIsOpen(net, base, init, Init(mints));
      FreshLast(path);
      FreshLast(mints);
      assert Passed(net, base, init) == ([base] + Passed(net, base, init))[1..] == Init(mints)[1..];
      assert MintAfter(net, base, path) == Traded(net, path[n], mints[n]) == mints[n + 1];
      assert mints == Init(mints) + [Last(mints)];
    }
  }

  /** The recursive definition, which the searches follow, is the plain one; the mints traded in
      are the base followed by those passed. */
  lemma CycleIffSimple(net: Net, base: Mint, maxHops: nat, path: seq<Address>)
    ensures IsCycle(net, base, maxHops, path) <==> exists mints :: IsSimpleCycle(net, base, maxHops, path, mints)
    ensures IsCycle(net, base, maxHops, path) ==>
              IsSimpleCycle(net, base, maxHops, path, [base] + Passed(net, base, Init(path)))
  {
    if IsCycle(net, base, maxHops, path) {
      var init := Init(path);
      OpenIsSimple(net, base, init);
      var mints := [base] + Passed(net, base, init);
      assert path == init + [Last(path)];
      assert IsSimpleCycle(net, base, maxHops, path, mints);
    }
    forall mints | IsSimpleCycle(net, base, maxHops, path, mints) ensures IsCycle(net, base, maxHops, path) {
      SimpleIsCycle(net, base, maxHops, path, mints);
    }
  }

  lemma SimpleIsCycle(net: Net, base: Mint, maxHops: nat, path: seq<Address>, mints: seq<Mint>)
    requires IsSimpleCycle(net, base, maxHops, path, mints)
    ensures IsCycle(net, base, maxHops, path)
  {
    FreshLast(path);
    SimpleIsOpen(net, base, Init(path), mints);
  }

  // ------------------------------------------------------------------ going on from a path

  /** A cycle that starts with `prefix` and goes on. */
  predicate Completes(net: Net, base: Mint, maxHops: nat, prefix: seq<Address>, cycle: seq<Address>) {
    IsCycle(net, base, maxHops, cycle) && prefix < cycle
  }

  lemma {:induction false} OpenPrefix(net: Net, base: Mint, path: seq<Address>, n: nat)
    requires IsOpen(net, base, path) && n <= |path|
    ensures IsOpen(net, base, path[..n])
    decreases |path|
  {
    if n < |path| {
      OpenPrefix(net, base, Init(path), n);
      assert Init(path)[..n] == path[..n];
    } else {
      assert path[..n] == path;
    }
  }

  lemma Extended(path: seq<Address>, pool: Address)
    ensures Init(path + [pool]) == path && Last(path + [pool]) == pool
  {
  }

  /** How a cycle can go on from an open path through a given pool: never through one already used;
      straight home if the pool leads to the base; nowhere if the hop limit is reached or the next
      mint was passed before; and otherwise as it goes on from the longer path. */
  lemma CompletionCases(net: Net, base: Mint, maxHops: nat, path: seq<Address>, pool: Address, cycle: seq<Address>)
    requires |path| < |cycle| && cycle[|path|] == pool && Completes(net, base, maxHops, path, cycle)
    ensures var m := MintAfter(net, base, path);
            && Trades(net, pool, m) && pool !in path
            && var next := Traded(net, pool, m);
               if next == base then path != [] && cycle == path + [pool]
               else |path| + 1 < maxHops && next !in Passed(net, base, path)
                    && Completes(net, base, maxHops, path + [pool], cycle)
  {
    var open := Init(cycle);
    Extended(path, pool);
    assert cycle[..|path| + 1] == path + [pool];
    if |path| < |open| {
      OpenPrefix(net, base, open, |path| + 1);
      assert open[..|path| + 1] == path + [pool];
    } else {
      assert open == path;
    }
  }

  /** Conversely, closing an open path with a fresh pool that leads home makes a cycle. */
  lemma ClosedIsCycle(net: Net, base: Mint, maxHops: nat, path: seq<Address>, pool: Address)
    requires IsOpen(net, base, path) && path != [] && |path| < maxHops && pool !in path
    requires Trades(net, pool, MintAfter(net, base, path)) && Traded(net, pool, MintAfter(net, base, path)) == base
    ensures Completes(net, base, maxHops, path, path + [pool])
  {
    Extended(path, pool);
  }

  /** A cycle that goes on from `prefix` through `pool`. */
  predicate Through(net: Net, base: Mint, maxHops: nat, prefix: seq<Address>, pool: Address, cycle: seq<Address>) {
    Completes(net, base, maxHops, prefix, cycle) && cycle[|prefix|] == pool
  }

  /** A cycle that goes on from `prefix` through one of the pools tried. */
  predicate ThroughAny(net: Net, base: Mint, maxHops: nat, prefix: seq<Address>, tried: set<Address>, cycle: seq<Address>) {
    Completes(net, base, maxHops, prefix, cycle) && cycle[|prefix|] in tried
  }

  lemma TryingOneMore(net: Net, base: Mint, maxHops: nat, prefix: seq<Address>, tried: set<Address>, pool: Address)
    ensures forall cycle :: ThroughAny(net, base, maxHops, prefix, tried + {pool}, cycle) <==>
              ThroughAny(net, base, maxHops, prefix, tried, cycle) || Through(net, base, maxHops, prefix, pool, cycle)
    ensures forall cycle :: !ThroughAny(net, base, maxHops, prefix, {}, cycle)
  {
  }

  /** Once every pool that trades the mint in hand has been tried, every cycle has been found. */
  lemma AllTried(net: Net, base: Mint, maxHops: nat, prefix: seq<Address>, tried: set<Address>)
    requires forall pool :: Trades(net, pool, MintAfter(net, base, prefix)) ==> pool in tried
    ensures forall cycle ::
              ThroughAny(net, base, maxHops, prefix, tried, cycle) <==> Completes(net, base, maxHops, prefix, cycle)
  {
    hide IsCycle;
    forall cycle | Completes(net, base, maxHops, prefix, cycle) ensures cycle[|prefix|] in tried {
      CompletionCases(net, base, maxHops, prefix, cycle[|prefix|], cycle);
    }
  }

  /** So a search that tries one pool need only do one of four things. */
  lemma ThroughCases(net: Net, base: Mint, maxHops: nat, path: seq<Address>, pool: Address)
    requires IsOpen(net, base, path) && (path == [] || |path| < maxHops)
    requires Trades(net, pool, MintAfter(net, base, path))
    ensures var next := Traded(net, pool, MintAfter(net, base, path));
            forall cycle :: Through(net, base, maxHops, path, pool, cycle) <==>
              && pool !in path
              && if next == base then path != [] && cycle == path + [pool]
                 else |path| + 1 < maxHops && next !in Passed(net, base, path)
                      && Completes(net, base, maxHops, path + [pool], cycle)
  {
    hide IsCycle;
    var next := Traded(net, pool, MintAfter(net, base, path));
    forall cycle | Through(net, base, maxHops, path, pool, cycle)
      ensures pool !in path
      ensures if next == base then path != [] && cycle == path + [pool]
              else |path| + 1 < maxHops && next !in Passed(net, base, path)
                   && Completes(net, base, maxHops, path + [pool], cycle)
    {
      CompletionCases(net, base, maxHops, path, pool, cycle);
    }
    if pool !in path && next == base && path != [] {
      ClosedIsCycle(net, base, maxHops, path, pool);
    }
    forall cycle | Completes(net, base, maxHops, path + [pool], cycle) ensures Through(net, base, maxHops, path, pool, cycle) {
      assert cycle[|path|] == (path + [pool])[|path|];
    }
  }

  /** Trading on through a fresh pool to a fresh mint keeps the path open. */
  lemma OpenExtended(net: Net, base: Mint, path: seq<Address>, pool: Address)
    requires IsOpen(net, base, path) && pool !in path && Trades(net, pool, MintAfter(net, base, path))
    requires var next := Traded(net, pool, MintAfter(net, base, path)); next != base && next !in Passed(net, base, path)
    ensures IsOpen(net, base, path + [pool])
    ensures MintAfter(net, base, path + [pool]) == Traded(net, pool, MintAfter(net, base, path))
    ensures Passed(net, base, path + [pool])
         == Passed(net, base, path) + [Traded(net, pool, MintAfter(net, base, path))]
  {
    Extended(path, pool);
  }

  // ------------------------------------------------------------------ cycles in parts of a net

  /** Fewer pools, none changed. */
  ghost predicate Within(some: Net, all: Net) {
    forall k :: k in some ==> k in all && some[k] == all[k]
  }

  lemma {:induction false} OpenWithin(some: Net, all: Net, base: Mint, path: seq<Address>)
    requires Within(some, all) && forall k <- path :: k in some
    ensures MintAfter(some, base, path) == MintAfter(all, base, path) && Passed(some, base, path) == Passed(all, base, path)
    ensures IsOpen(some, base, path) <==> IsOpen(all, base, path)
    decreases |path|
  {
    if path != [] {
      assert Last(path) in path && forall k <- Init(path) :: k in path;
      OpenWithin(some, all, base, Init(path));
    }
  }

  /** Whether a path is a cycle depends only on the pools it uses. */
  lemma CycleWithin(some: Net, all: Net, base: Mint, maxHops: nat, path: seq<Address>)
    requires Within(some, all) && forall k <- path :: k in some
    ensures IsCycle(some, base, maxHops, path) <==> IsCycle(all, base, maxHops, path)
  {
    if 2 <= |path| {
      assert Last(path) in path && forall k <- Init(path) :: k in path;
      OpenWithin(some, all, base, Init(path));
    }
  }

  /** A cycle of three or more pools is anchored at one base only; only a pair of pools trading the
      same two mints is a cycle of both. */
  lemma AnchorIsUnique(net: Net, base: Mint, other: Mint, maxHops: nat, path: seq<Address>)
    requires IsCycle(net, base, maxHops, path) && IsCycle(net, other, maxHops, path) && |path| >= 3
    ensures base == other
  {
    CycleIffSimple(net, base, maxHops, path);
    CycleIffSimple(net, other, maxHops, path);
    var m := [base] + Passed(net, base, Init(path));
    var o := [other] + Passed(net, other, Init(path));
    var n := |path|;
    assert net[path[0]].Touches(m[0]) && net[path[0]].Touches(m[1]) && net[path[0]].Touches(o[0]);
    assert net[path[n - 1]].Touches(m[n - 1]) && net[path[n - 1]].Touches(m[0]) && net[path[n - 1]].Touches(o[0]);
    assert m[0] != m[1] && m[0] != m[n - 1] && m[1] != m[n - 1];
  }

  lemma PairHasTwoAnchors(net: Net, p: Address, q: Address, x: Mint, y: Mint)
    requires p != q && p in net && q in net && x != y
    requires net[p] in {Ends(x, y), Ends(y, x)} && net[q] in {Ends(x, y), Ends(y, x)}
    ensures IsCycle(net, x, 2, [p, q]) && IsCycle(net, y, 2, [p, q])
  {
    assert Init([p, q]) == [p] && Init([p]) == [] && IsOpen(net, x, []) && IsOpen(net, y, []);
    assert MintAfter(net, x, [p]) == y && MintAfter(net, y, [p]) == x;
    assert IsOpen(net, x, [p]) && IsOpen(net, y, [p]);
  }

  /** Three pools between three mints. */
  function Triangle(p: Address, q: Address, r: Address, x: Mint, y: Mint, z: Mint): Net {
    map[p := Ends(x, y), q := Ends(z, y), r := Ends(z, x)]
  }

  lemma TriangleHops(p: Address, q: Address, r: Address, x: Mint, y: Mint, z: Mint, pool: Address, m: Mint)
    requires p != q && q != r && p != r && x != y && y != z && x != z
    ensures var net := Triangle(p, q, r, x, y, z);
            Trades(net, pool, m) <==> (pool == p && (m == x || m == y)) || (pool == q && (m == y || m == z))
                                      || (pool == r && (m == z || m == x))
    ensures var net := Triangle(p, q, r, x, y, z);
            && Traded(net, p, x) == y && Traded(net, p, y) == x && Traded(net, q, y) == z && Traded(net, q, z) == y
            && Traded(net, r, z) == x && Traded(net, r, x) == z
  {
  }

  /** A triangle can be gone round in two ways, where three hops are allowed. */
  lemma TriangleHasTwoCycles(p: Address, q: Address, r: Address, x: Mint, y: Mint, z: Mint, maxHops: nat, path: seq<Address>)
    requires p != q && q != r && p != r && x != y && y != z && x != z
    ensures IsCycle(Triangle(p, q, r, x, y, z), x, maxHops, path) <==>
              maxHops >= 3 && (path == [p, q, r] || path == [r, q, p])
  {
    hide Triangle, IsCycle, Traded, Trades;
    var net := Triangle(p, q, r, x, y, z);
    forall pool, m { TriangleHops(p, q, r, x, y, z, pool, m); }
    CycleIffSimple(net, x, maxHops, path);
    forall mints | IsSimpleCycle(net, x, maxHops, path, mints)
      ensures maxHops >= 3 && (path == [p, q, r] || path == [r, q, p])
    {
      TriangleWay(net, p, q, r, x, y, z, maxHops, path, mints);
    }
    assert Trades(net, p, x) && Trades(net, q, y) && Trades(net, r, z);
    assert Trades(net, r, x) && Trades(net, q, z) && Trades(net, p, y);
    if path == [p, q, r] && maxHops >= 3 { assert IsSimpleCycle(net, x, maxHops, path, [x, y, z]); }
    if path == [r, q, p] && maxHops >= 3 { assert IsSimpleCycle(net, x, maxHops, path, [x, z, y]); }
  }

  lemma TriangleWay(net: Net, p: Address, q: Address, r: Address, x: Mint, y: Mint, z: Mint, maxHops: nat,
                    path: seq<Address>, mints: seq<Mint>)
    requires p != q && q != r && p != r && x != y && y != z && x != z && net == Triangle(p, q, r, x, y, z)
    requires IsSimpleCycle(net, x, maxHops, path, mints)
    ensures maxHops >= 3 && (path == [p, q, r] || path == [r, q, p])
  {
    hide Triangle, Traded, Trades;
    forall pool, m { TriangleHops(p, q, r, x, y, z, pool, m); }
    assert Trades(net, path[0], x) && Traded(net, path[0], x) == mints[1] && Trades(net, path[1], mints[1]);
    assert path[1] == q && |path| > 2;
    assert Traded(net, q, mints[1]) == mints[2] && Trades(net, path[2], mints[2]);
  }
}
