/** Cycle routes: the graph they are found in, the index of all of them, and its inverse by pool. */
module CycleRoutes {
  import opened Common
  import opened PoolGraph
  import opened DiscoverPools
  import opened CycleCount

  // ------------------------------------------------------------------ the registry's graph

  /** Which pools trade each mint, each listed once; a mint without any has no entry. */
  ghost predicate IsAdjacency(net: Net, adj: map<Mint, seq<Address>>) {
    && (forall m <- adj :: adj[m] != [] && Distinct(adj[m]))
    && (forall m, pool :: Neighbour(adj, m, pool) <==> Trades(net, pool, m))
  }

  ghost predicate Neighbour(adj: map<Mint, seq<Address>>, m: Mint, pool: Address) {
    m in adj && pool in adj[m]
  }

  /** The in-memory pools and the token graph over them. */
  class PoolRegistry {
    var net: Net
    var adjacency: map<Mint, seq<Address>>

    ghost predicate Valid()
      reads this
    {
      IsAdjacency(net, adjacency)
    }

    constructor ()
      ensures Valid() && net == map[] && adjacency == map[]
    {
      net, adjacency := map[], map[];
    }

    /** Registering a pool lists it under both its mints, and nothing else changes. The graph stays
        exact unless the pool was known with a mint it no longer has, whose list keeps it. */
    method AddPool(pool: Address, ends: Ends)
      requires Valid()
      modifies this
      ensures net == old(net)[pool := ends]
      ensures forall m, p :: Neighbour(adjacency, m, p) <==>
                Neighbour(old(adjacency), m, p) || (ends.Touches(m) && p == pool)
      ensures Valid() <==>
                (pool in old(net) ==> ends.Touches(old(net)[pool].a) && ends.Touches(old(net)[pool].b))
    {
      hide IsAdjacency, Listed, Neighbour;
      AdjacencyGrows(net, adjacency, pool, ends);
      adjacency := Listed(adjacency, ends.a, pool);
      adjacency := Listed(adjacency, ends.b, pool);
      net := net[pool := ends];
    }
  }

  function Listed(adj: map<Mint, seq<Address>>, m: Mint, pool: Address): map<Mint, seq<Address>> {
    var list := if m in adj then adj[m] else [];
    adj[m := if pool in list then list else list + [pool]]
  }

  lemma ListGrows(adj: map<Mint, seq<Address>>, m: Mint, pool: Address)
    requires forall t <- adj :: adj[t] != [] && Distinct(adj[t])
    ensures var r := Listed(adj, m, pool);
            && (forall t <- r :: r[t] != [] && Distinct(r[t]))
            && (forall t, p :: Neighbour(r, t, p) <==> Neighbour(adj, t, p) || (t == m && p == pool))
  {
  }

  lemma AdjacencyGrows(net: Net, adj: map<Mint, seq<Address>>, pool: Address, ends: Ends)
    requires IsAdjacency(net, adj)
    ensures var r := Listed(Listed(adj, ends.a, pool), ends.b, pool);
            && (forall m, p :: Neighbour(r, m, p) <==> Neighbour(adj, m, p) || (ends.Touches(m) && p == pool))
            && (IsAdjacency(net[pool := ends], r) <==>
                  (pool in net ==> ends.Touches(net[pool].a) && ends.Touches(net[pool].b)))
  {
    hide Distinct, Listed, Neighbour;
    ListGrows(adj, ends.a, pool);
    ListGrows(Listed(adj, ends.a, pool), ends.b, pool);
    var r := Listed(Listed(adj, ends.a, pool), ends.b, pool);
    if pool in net {
      assert Neighbour(adj, net[pool].a, pool) && Neighbour(adj, net[pool].b, pool) by {
        assert Trades(net, pool, net[pool].a) && Trades(net, pool, net[pool].b);
      }
      assert Neighbour(r, net[pool].a, pool) && Neighbour(r, net[pool].b, pool);
      assert Trades(net[pool := ends], pool, net[pool].a) <==> ends.Touches(net[pool].a);
      assert Trades(net[pool := ends], pool, net[pool].b) <==> ends.Touches(net[pool].b);
    }
  }

  // ------------------------------------------------------------------ routes

  /** A static route: the pool sequence, which is also its key, the base mint it is anchored at,
      and the mint paid into each hop. */
  datatype CycleRoute = CycleRoute(pools: seq<Address>, baseMint: Mint, inputMints: seq<Mint>)

  /** A simple cycle of the base, with the mint in hand at each hop. */
  ghost predicate IsRoute(net: Net, maxHops: nat, route: CycleRoute) {
    && IsCycle(net, route.baseMint, maxHops, route.pools)
    && route.inputMints == [route.baseMint] + Passed(net, route.baseMint, Init(route.pools))
  }

  /** No two routes share a key. */
  ghost predicate KeysDiffer(routes: seq<CycleRoute>) {
    forall i, j :: 0 <= i < j < |routes| ==> routes[i].pools != routes[j].pools
  }

  ghost predicate HasKey(routes: seq<CycleRoute>, key: seq<Address>) {
    exists i :: 0 <= i < |routes| && routes[i].pools == key
  }

  /** The keys seen are those of the routes, each of which is there once. */
  ghost predicate SeenAre(seen: set<seq<Address>>, routes: seq<CycleRoute>) {
    && KeysDiffer(routes)
    && (forall key :: key in seen <==> HasKey(routes, key))
  }

  /** Routes only ever get added, and those from position `from` on are cycles of one base. */
  ghost predicate GrewBy(net: Net, base: Mint, maxHops: nat, was: seq<CycleRoute>, now: seq<CycleRoute>) {
    && was <= now
    && (forall i :: |was| <= i < |now| ==> now[i].baseMint == base && IsRoute(net, maxHops, now[i]))
  }

  /** The first listed base at which a path is a cycle. */
  ghost predicate FirstAnchor(net: Net, bases: seq<Mint>, maxHops: nat, key: seq<Address>, base: Mint) {
    exists k :: FirstAnchorAt(net, bases, maxHops, key, base, k)
  }

  ghost predicate FirstAnchorAt(net: Net, bases: seq<Mint>, maxHops: nat, key: seq<Address>, base: Mint, k: nat) {
    && k < |bases| && bases[k] == base && IsCycle(net, base, maxHops, key)
    && !Anchored(net, bases[..k], maxHops, key)
  }

  ghost predicate Anchored(net: Net, bases: seq<Mint>, maxHops: nat, key: seq<Address>) {
    exists k :: 0 <= k < |bases| && IsCycle(net, bases[k], maxHops, key)
  }

  /** The cycle index: its keys are exactly the simple cycles of the listed bases, each once, with
      the first base that anchors it and the mints paid in. */
  ghost predicate IsCycleIndex(net: Net, bases: seq<Mint>, maxHops: nat, routes: seq<CycleRoute>) {
    && KeysDiffer(routes)
    && (forall key :: HasKey(routes, key) <==> Anchored(net, bases, maxHops, key))
    && (forall i :: 0 <= i < |routes| ==>
          && IsRoute(net, maxHops, routes[i])
          && FirstAnchor(net, bases, maxHops, routes[i].pools, routes[i].baseMint))
  }

  // ------------------------------------------------------------------ steps of the enumeration

  function Prefix<T(!new)>(xs: seq<T>, n: nat): set<T>
    requires n <= |xs|
  {
    set k | 0 <= k < n :: xs[k]
  }

  lemma PrefixGrows<T(!new)>(xs: seq<T>, n: nat)
    requires n < |xs|
    ensures Prefix(xs, n + 1) == Prefix(xs, n) + {xs[n]}
  {
  }

  lemma NeighboursTrade(net: Net, adj: map<Mint, seq<Address>>, cur: Mint)
    requires IsAdjacency(net, adj)
    ensures var ns := if cur in adj then adj[cur] else [];
            && (forall k :: 0 <= k < |ns| ==> Trades(net, ns[k], cur))
            && (forall pool :: Trades(net, pool, cur) ==> pool in Prefix(ns, |ns|))
  {
    var ns := if cur in adj then adj[cur] else [];
    forall k | 0 <= k < |ns| ensures Trades(net, ns[k], cur) {
      assert Neighbour(adj, cur, ns[k]);
    }
    forall pool | Trades(net, pool, cur) ensures pool in Prefix(ns, |ns|) {
      assert Neighbour(adj, cur, pool);
      var k :| 0 <= k < |ns| && ns[k] == pool;
    }
  }

  lemma RouteClosed(net: Net, maxHops: nat, base: Mint, path: seq<Address>, mints: seq<Mint>, pool: Address)
    requires IsOpen(net, base, path) && path != [] && |path| < maxHops && pool !in path
    requires Trades(net, pool, MintAfter(net, base, path)) && Traded(net, pool, MintAfter(net, base, path)) == base
    requires mints == Passed(net, base, path)
    ensures IsRoute(net, maxHops, CycleRoute(path + [pool], base, [base] + mints))
  {
    hide IsCycle;
    ClosedIsCycle(net, base, maxHops, path, pool);
    Extended(path, pool);
  }

  lemma RouteAdded(seen: set<seq<Address>>, routes: seq<CycleRoute>, route: CycleRoute)
    requires SeenAre(seen, routes) && route.pools !in seen
    ensures SeenAre(seen + {route.pools}, routes + [route])
  {
    var more := routes + [route];
    forall i | 0 <= i < |routes| ensures routes[i].pools != route.pools {
      assert HasKey(routes, routes[i].pools);
    }
    forall key ensures HasKey(more, key) <==> HasKey(routes, key) || key == route.pools {
      if HasKey(routes, key) {
        var i :| 0 <= i < |routes| && routes[i].pools == key;
        assert more[i].pools == key;
      }
      assert more[|routes|].pools == route.pools;
    }
  }

  lemma NothingIndexed(net: Net, bases: seq<Mint>, maxHops: nat)
    ensures SeenAre({}, []) && IsCycleIndex(net, bases[..0], maxHops, [])
  {
  }

  lemma KnownCycle(net: Net, base: Mint, maxHops: nat, key: seq<Address>)
    requires IsCycle(net, base, maxHops, key)
    ensures key != [] && MintAfter(net, base, []) == base
  {
  }

  lemma NeighbourIffTrades(net: Net, adj: map<Mint, seq<Address>>, m: Mint, pool: Address)
    requires IsAdjacency(net, adj)
    ensures Neighbour(adj, m, pool) <==> Trades(net, pool, m)
  {
  }

  lemma NoNeighbourNoCycle(net: Net, adj: map<Mint, seq<Address>>, base: Mint, maxHops: nat)
    requires IsAdjacency(net, adj) && base !in adj
    ensures forall key :: !IsCycle(net, base, maxHops, key)
  {
    hide IsCycle, IsAdjacency;
    forall key | IsCycle(net, base, maxHops, key) ensures false {
      KnownCycle(net, base, maxHops, key);
      CompletionCases(net, base, maxHops, [], key[0], key);
      NeighbourIffTrades(net, adj, base, key[0]);
    }
  }

  lemma NothingGrew(net: Net, base: Mint, maxHops: nat, routes: seq<CycleRoute>)
    ensures GrewBy(net, base, maxHops, routes, routes)
  {
  }

  lemma IndexKeysDiffer(net: Net, bases: seq<Mint>, maxHops: nat, routes: seq<CycleRoute>)
    requires IsCycleIndex(net, bases, maxHops, routes)
    ensures KeysDiffer(routes)
  {
  }

  lemma AnchoredGrows(net: Net, bases: seq<Mint>, b: nat, maxHops: nat, key: seq<Address>)
    requires b < |bases|
    ensures Anchored(net, bases[..b + 1], maxHops, key)
       <==> Anchored(net, bases[..b], maxHops, key) || IsCycle(net, bases[b], maxHops, key)
  {
    hide IsCycle;
    var some, more := bases[..b], bases[..b + 1];
    if Anchored(net, some, maxHops, key) {
      var k :| 0 <= k < |some| && IsCycle(net, some[k], maxHops, key);
      assert more[k] == some[k];
    }
    if IsCycle(net, bases[b], maxHops, key) { assert more[b] == bases[b]; }
    if Anchored(net, more, maxHops, key) {
      var k :| 0 <= k < |more| && IsCycle(net, more[k], maxHops, key);
      if k < b { assert some[k] == more[k]; }
    }
  }

  lemma FirstAnchorKept(net: Net, bases: seq<Mint>, b: nat, maxHops: nat, key: seq<Address>, base: Mint)
    requires b < |bases| && FirstAnchor(net, bases[..b], maxHops, key, base)
    ensures FirstAnchor(net, bases[..b + 1], maxHops, key, base)
  {
    hide IsCycle, Anchored;
    var k: nat :| FirstAnchorAt(net, bases[..b], maxHops, key, base, k);
    assert bases[..b][..k] == bases[..b + 1][..k];
    assert FirstAnchorAt(net, bases[..b + 1], maxHops, key, base, k);
  }

  lemma FirstAnchorFound(net: Net, bases: seq<Mint>, b: nat, maxHops: nat, key: seq<Address>)
    requires b < |bases| && IsCycle(net, bases[b], maxHops, key) && !Anchored(net, bases[..b], maxHops, key)
    ensures FirstAnchor(net, bases[..b + 1], maxHops, key, bases[b])
  {
    hide IsCycle, Anchored;
    assert bases[..b + 1][..b] == bases[..b];
    assert FirstAnchorAt(net, bases[..b + 1], maxHops, key, bases[b], b);
  }

  lemma LaterKeyIsNew(was: seq<CycleRoute>, now: seq<CycleRoute>, i: nat)
    requires was <= now && KeysDiffer(now) && |was| <= i < |now|
    ensures !HasKey(was, now[i].pools)
  {
    forall j | 0 <= j < |was| ensures was[j].pools != now[i].pools {
      assert now[j] == was[j];
    }
  }

  /** Searching from one more base extends the index to it. */
  lemma RouteIndexGrows(net: Net, bases: seq<Mint>, b: nat, maxHops: nat, was: seq<CycleRoute>, now: seq<CycleRoute>,
                   seen: set<seq<Address>>, seenNow: set<seq<Address>>)
    requires b < |bases| && IsCycleIndex(net, bases[..b], maxHops, was)
    requires GrewBy(net, bases[b], maxHops, was, now) && SeenAre(seen, was) && SeenAre(seenNow, now)
    requires forall key :: key in seenNow <==> key in seen || IsCycle(net, bases[b], maxHops, key)
    ensures IsCycleIndex(net, bases[..b + 1], maxHops, now)
  {
    hide IsCycle, Anchored, FirstAnchor, Passed;
    forall key ensures HasKey(now, key) <==> Anchored(net, bases[..b + 1], maxHops, key) {
      AnchoredGrows(net, bases, b, maxHops, key);
      assert key in seenNow <==> key in seen || IsCycle(net, bases[b], maxHops, key);
    }
    forall i | 0 <= i < |now|
      ensures IsRoute(net, maxHops, now[i]) && FirstAnchor(net, bases[..b + 1], maxHops, now[i].pools, now[i].baseMint)
    {
      if i < |was| {
        assert now[i] == was[i];
        FirstAnchorKept(net, bases, b, maxHops, now[i].pools, now[i].baseMint);
      } else {
        LaterKeyIsNew(was, now, i);
        FirstAnchorFound(net, bases, b, maxHops, now[i].pools);
      }
    }
  }

  // ------------------------------------------------------------------ the two searches agree

  ghost function KeysOf(routes: seq<CycleRoute>): set<seq<Address>> {
    set i | 0 <= i < |routes| :: routes[i].pools
  }

  ghost function MintsOf(bases: seq<Mint>): set<Mint> {
    set b | b in bases
  }

  lemma {:induction false} OneKeyPerRoute(routes: seq<CycleRoute>)
    requires KeysDiffer(routes)
    ensures |KeysOf(routes)| == |routes|
  {
    if routes != [] {
      var init, last := Init(routes), Last(routes);
      OneKeyPerRoute(init);
      assert forall i :: 0 <= i < |init| ==> init[i] == routes[i] && init[i].pools != last.pools;
      assert KeysOf(routes) == KeysOf(init) + {last.pools};
    }
  }

  /** The engine indexes as many routes as pool discovery counts cycles on the same pools. */
  lemma RoutesMatchCount(pools: seq<Candidate>, bases: seq<Mint>, maxHops: nat, routes: seq<CycleRoute>, n: nat)
    requires DistinctAddresses(pools) && IsCycleIndex(NetOf(pools), bases, maxHops, routes)
    requires exists keys :: AreBaseCycles(pools, MintsOf(bases), maxHops, keys) && n == |keys|
    ensures AreBaseCycles(pools, MintsOf(bases), maxHops, KeysOf(routes)) && n == |routes|
  {
    hide IsCycle, NetOf, IsRoute, FirstAnchor, IsBaseCycle;
    var counted :| AreBaseCycles(pools, MintsOf(bases), maxHops, counted) && n == |counted|;
    forall key ensures key in counted <==> key in KeysOf(routes) {
      assert key in KeysOf(routes) <==> HasKey(routes, key);
      AnchoredIffBase(pools, bases, maxHops, key);
    }
    assert counted == KeysOf(routes);
    OneKeyPerRoute(routes);
  }

  lemma AnchoredIffBase(pools: seq<Candidate>, bases: seq<Mint>, maxHops: nat, key: seq<Address>)
    requires DistinctAddresses(pools)
    ensures Anchored(NetOf(pools), bases, maxHops, key) <==> IsBaseCycle(pools, MintsOf(bases), maxHops, key)
  {
    hide IsCycle, NetOf;
    var all := MintsOf(bases);
    if IsBaseCycle(pools, all, maxHops, key) {
      var b :| b in all && IsCycle(NetOf(pools), b, maxHops, key);
      var k :| 0 <= k < |bases| && bases[k] == b;
    }
    if Anchored(NetOf(pools), bases, maxHops, key) {
      var k :| 0 <= k < |bases| && IsCycle(NetOf(pools), bases[k], maxHops, key);
      assert bases[k] in all;
    }
  }

  // ------------------------------------------------------------------ the index by pool

  /** Positions of the routes through each pool. */
  ghost predicate IsInverse(routes: seq<CycleRoute>, byPool: map<Address, seq<nat>>) {
    && (forall pool <- byPool :: byPool[pool] != [])
    && (forall pool, i: nat :: OnList(byPool, pool, i) <==> i < |routes| && pool in routes[i].pools)
  }

  ghost predicate OnList(byPool: map<Address, seq<nat>>, pool: Address, i: nat) {
    pool in byPool && i in byPool[pool]
  }

  ghost predicate OnRoute(routes: seq<CycleRoute>, pool: Address) {
    exists i :: 0 <= i < |routes| && pool in routes[i].pools
  }

  lemma NothingByPool()
    ensures IsInverse([], map[])
  {
  }

  /** The index while the pools of one more route are entered. */
  ghost predicate PartlyInverse(before: map<Address, seq<nat>>, now: map<Address, seq<nat>>, entered: seq<Address>, idx: nat) {
    && (forall pool <- now :: pool !in before ==> now[pool] != [])
    && (forall pool <- before :: pool in now && (before[pool] != [] ==> now[pool] != []))
    && (forall pool, i: nat :: OnList(now, pool, i) <==> OnList(before, pool, i) || (i == idx && pool in entered))
  }

  lemma PartGrows(before: map<Address, seq<nat>>, now: map<Address, seq<nat>>, pools: seq<Address>, k: nat, idx: nat)
    requires k < |pools| && PartlyInverse(before, now, pools[..k], idx)
    ensures PartlyInverse(before, AddTo<nat>(now, pools[k], idx), pools[..k + 1], idx)
  {
    hide AddTo;
    assert pools[..k + 1] == pools[..k] + [pools[k]];
    var more := AddTo<nat>(now, pools[k], idx);
    forall pool, i: nat
      ensures OnList(more, pool, i) <==> OnList(before, pool, i) || (i == idx && pool in pools[..k + 1])
    {
      assert OnList(more, pool, i) <==> OnList(now, pool, i) || (pool == pools[k] && i == idx);
    }
  }

  lemma InverseGrows(routes: seq<CycleRoute>, idx: nat, before: map<Address, seq<nat>>, now: map<Address, seq<nat>>)
    requires idx < |routes| && IsInverse(routes[..idx], before) && PartlyInverse(before, now, routes[idx].pools, idx)
    ensures IsInverse(routes[..idx + 1], now)
  {
    forall pool, i: nat
      ensures OnList(now, pool, i) <==> i < idx + 1 && pool in routes[..idx + 1][i].pools
    {
      assert OnList(before, pool, i) <==> i < idx && pool in routes[..idx][i].pools;
    }
  }

  lemma ByPoolIffOnRoute(routes: seq<CycleRoute>, byPool: map<Address, seq<nat>>, pool: Address)
    requires IsInverse(routes, byPool)
    ensures pool in byPool <==> OnRoute(routes, pool)
  {
    if pool in byPool {
      assert OnList(byPool, pool, byPool[pool][0]);
    }
    if OnRoute(routes, pool) {
      var i: nat :| i < |routes| && pool in routes[i].pools;
      assert OnList(byPool, pool, i);
    }
  }
}
