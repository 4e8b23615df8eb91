/** Counting the base-anchored simple cycles by bounded depth-first search. */
module CycleCount {
  import opened Common
  import opened Arith
  import opened PoolGraph
  import opened DiscoverPools
  import opened CyclePruning

  /** For each token the positions of the pools that trade it; a token without any has no entry. */
  ghost predicate IsIndex(pools: seq<Candidate>, adj: map<Mint, seq<nat>>) {
    && (forall t <- adj :: adj[t] != [])
    && (forall t, i: nat :: Lists(adj, t, i) <==> i < |pools| && pools[i].Sides().Touches(t))
  }

  ghost predicate Lists(adj: map<Mint, seq<nat>>, t: Mint, i: nat) {
    t in adj && i in adj[t]
  }

  ghost predicate Positions(pools: seq<Candidate>, path: seq<nat>) {
    forall k :: 0 <= k < |path| ==> path[k] < |pools|
  }

  function Addresses(pools: seq<Candidate>, path: seq<nat>): (r: seq<Address>)
    requires Positions(pools, path)
    ensures |r| == |path|
  {
    seq(|path|, k requires 0 <= k < |path| => pools[path[k]].address)
  }

  /** The search state: the pools and mints on the current path, and the cycle keys seen so far. */
  class CycleCounter {
    const pools: seq<Candidate>
    const adj: map<Mint, seq<nat>>
    const maxHops: nat
    var poolPath: seq<nat>
    var mintPath: seq<Mint>
    var seen: set<seq<Address>>

    ghost predicate Valid()
      reads this
    {
      NoRepeats(pools) && DistinctAddresses(pools) && IsIndex(pools, adj) && Positions(pools, poolPath)
    }

    ghost function Path(): seq<Address>
      reads this
      requires Valid()
    {
      Addresses(pools, poolPath)
    }

    ghost function Graph(): Net
      reads this
      requires Valid()
    {
      NetOf(pools)
    }

    constructor (pools: seq<Candidate>, adj: map<Mint, seq<nat>>, maxHops: nat)
      requires NoRepeats(pools) && IsIndex(pools, adj)
      ensures Valid() && this.pools == pools && this.adj == adj && this.maxHops == maxHops
      ensures poolPath == [] && mintPath == [] && seen == {}
    {
      this.pools, this.adj, this.maxHops := pools, adj, maxHops;
      poolPath, mintPath, seen := [], [], {};
      new;
      NoRepeatsIsDistinct(pools);
    }

    /** Everything the search relies on at a mint: the path is open, and the hop limit leaves room. */
    ghost predicate Standing(base: Mint, cur: Mint)
      reads this
      requires Valid()
    {
      && IsOpen(Graph(), base, Path()) && mintPath == Passed(Graph(), base, Path())
      && cur == MintAfter(Graph(), base, Path())
      && (poolPath == [] || |poolPath| < maxHops)
    }

    /** The search from the current path: it records exactly the cycles that go on from it, and
        restores the path. */
    method CountDfs(base: Mint, cur: Mint)
      requires Valid() && Standing(base, cur)
      modifies this
      ensures Valid() && poolPath == old(poolPath) && mintPath == old(mintPath)
      ensures forall key :: key in seen <==> key in old(seen) || Completes(Graph(), base, maxHops, Path(), key)
      decreases Max(maxHops - |poolPath|, 0), 1
    {
      hide IsOpen, IsCycle, NetOf, IsIndex, Through, Completes, Addresses, NoRepeats, DistinctAddresses, Recorded, Tried;
      var neighbours := if cur in adj then adj[cur] else [];
      ghost var net, path := Graph(), Path();
      IndexOf(pools, adj, cur);
      NothingRecorded(net, base, maxHops, path, seen);
      for n := 0 to |neighbours|
        invariant Valid() && poolPath == old(poolPath) && mintPath == old(mintPath)
        invariant Recorded(net, base, maxHops, path, Tried(pools, neighbours, n), old(seen), seen)
      {
        ghost var before := seen;
        TryPool(base, cur, neighbours[n]);
        RecordedOneMore(net, base, maxHops, path, Tried(pools, neighbours, n), pools[neighbours[n]].address,
                        old(seen), before, seen);
        TriedGrows(pools, neighbours, n);
      }
      NeighboursTried(pools, neighbours, cur);
      AllRecorded(net, base, maxHops, path, Tried(pools, neighbours, |neighbours|), old(seen), seen);
    }

    /** One neighbouring pool: skipped if used, recorded if it closes a cycle, skipped if the hop
        limit or a repeated mint forbids going on, and otherwise searched from. */
    method TryPool(base: Mint, cur: Mint, pi: nat)
      requires Valid() && Standing(base, cur) && pi < |pools| && pools[pi].Sides().Touches(cur)
      modifies this
      ensures Valid() && poolPath == old(poolPath) && mintPath == old(mintPath)
      ensures forall key :: key in seen <==>
                key in old(seen) || Through(Graph(), base, maxHops, Path(), pools[pi].address, key)
      decreases Max(maxHops - |poolPath|, 0), 0
    {
      hide IsOpen, IsCycle, NetOf, IsIndex, Through, Completes, Addresses;
      ghost var net, path, addr := Graph(), Path(), pools[pi].address;
      NetHas(pools, pi);
      ThroughCases(net, base, maxHops, path, addr);
      UsedIffOnPath(pools, poolPath, pi);
      if pi in poolPath {
        return;
      }
      var next := pools[pi].Sides().Other(cur);
      if next == base {
        if poolPath != [] {
          var key := Addresses(pools, poolPath) + [pools[pi].address];
          seen := seen + {key};
        }
        return;
      }
      if |poolPath| + 1 >= maxHops || next in mintPath {
        return;
      }
      OpenExtended(net, base, path, addr);
      ghost var shorter := poolPath;
      poolPath := poolPath + [pi];
      mintPath := mintPath + [next];
      assert Path() == path + [addr] by { AddressesAppend(pools, shorter, pi); }
      CountDfs(base, next);
      poolPath := Init(poolPath);
      mintPath := Init(mintPath);
    }
  }

  /** The keys seen now are those seen before and the cycles that go on through the pools tried. */
  ghost predicate Recorded(net: Net, base: Mint, maxHops: nat, path: seq<Address>, tried: set<Address>,
                           was: set<seq<Address>>, now: set<seq<Address>>) {
    forall key :: key in now <==> key in was || ThroughAny(net, base, maxHops, path, tried, key)
  }

  lemma NothingRecorded(net: Net, base: Mint, maxHops: nat, path: seq<Address>, seen: set<seq<Address>>)
    ensures Recorded(net, base, maxHops, path, {}, seen, seen)
  {
    TryingOneMore(net, base, maxHops, path, {}, "");
  }

  lemma RecordedOneMore(net: Net, base: Mint, maxHops: nat, path: seq<Address>, tried: set<Address>, pool: Address,
                        was: set<seq<Address>>, before: set<seq<Address>>, now: set<seq<Address>>)
    requires Recorded(net, base, maxHops, path, tried, was, before)
    requires forall key :: key in now <==> key in before || Through(net, base, maxHops, path, pool, key)
    ensures Recorded(net, base, maxHops, path, tried + {pool}, was, now)
  {
    hide ThroughAny, Through;
    TryingOneMore(net, base, maxHops, path, tried, pool);
  }

  lemma AllRecorded(net: Net, base: Mint, maxHops: nat, path: seq<Address>, tried: set<Address>,
                    was: set<seq<Address>>, now: set<seq<Address>>)
    requires Recorded(net, base, maxHops, path, tried, was, now)
    requires forall pool :: Trades(net, pool, MintAfter(net, base, path)) ==> pool in tried
    ensures forall key :: key in now <==> key in was || Completes(net, base, maxHops, path, key)
  {
    hide ThroughAny, Completes, MintAfter;
    AllTried(net, base, maxHops, path, tried);
  }

  lemma IndexOf(pools: seq<Candidate>, adj: map<Mint, seq<nat>>, cur: Mint)
    requires IsIndex(pools, adj)
    ensures var ns: seq<nat> := if cur in adj then adj[cur] else [];
            && (forall k :: 0 <= k < |ns| ==> ns[k] < |pools| && pools[ns[k]].Sides().Touches(cur))
            && (forall i: nat :: i < |pools| && pools[i].Sides().Touches(cur) ==> i in ns)
    ensures cur in adj <==> Touched(pools, cur)
  {
    forall i: nat | i < |pools| && pools[i].Sides().Touches(cur) ensures cur in adj && i in adj[cur] {
      assert Lists(adj, cur, i);
    }
    if Touched(pools, cur) {
      var p :| p in pools && p.Sides().Touches(cur);
      var i: nat :| i < |pools| && pools[i] == p;
    }
    if cur in adj {
      forall k | 0 <= k < |adj[cur]| ensures adj[cur][k] < |pools| && pools[adj[cur][k]].Sides().Touches(cur) {
        assert Lists(adj, cur, adj[cur][k]);
      }
      assert pools[adj[cur][0]] in pools;
    }
  }

  lemma AddressesAppend(pools: seq<Candidate>, path: seq<nat>, pi: nat)
    requires Positions(pools, path) && pi < |pools|
    ensures Addresses(pools, path + [pi]) == Addresses(pools, path) + [pools[pi].address]
  {
  }

  /** The addresses of the first `n` neighbours. */
  ghost function Tried(pools: seq<Candidate>, neighbours: seq<nat>, n: nat): (r: set<Address>)
    requires Positions(pools, neighbours) && n <= |neighbours|
    ensures n == 0 ==> r == {}
  {
    set k | 0 <= k < n :: pools[neighbours[k]].address
  }

  lemma TriedGrows(pools: seq<Candidate>, neighbours: seq<nat>, n: nat)
    requires Positions(pools, neighbours) && n < |neighbours|
    ensures Tried(pools, neighbours, n + 1) == Tried(pools, neighbours, n) + {pools[neighbours[n]].address}
  {
  }

  lemma NeighboursTried(pools: seq<Candidate>, neighbours: seq<nat>, cur: Mint)
    requires DistinctAddresses(pools) && Positions(pools, neighbours)
    requires forall i: nat :: i < |pools| && pools[i].Sides().Touches(cur) ==> i in neighbours
    ensures forall pool :: Trades(NetOf(pools), pool, cur) ==> pool in Tried(pools, neighbours, |neighbours|)
  {
    hide NetOf;
    forall pool | Trades(NetOf(pools), pool, cur) ensures pool in Tried(pools, neighbours, |neighbours|) {
      var p := PoolAt(pools, pool);
      var i :| 0 <= i < |pools| && pools[i] == p;
      var k :| 0 <= k < |neighbours| && neighbours[k] == i;
      assert pools[neighbours[k]].address == pool;
    }
  }

  lemma NetHas(pools: seq<Candidate>, pi: nat)
    requires DistinctAddresses(pools) && pi < |pools|
    ensures pools[pi].address in NetOf(pools) && NetOf(pools)[pools[pi].address] == pools[pi].Sides()
  {
    assert pools[pi] in pools;
  }

  lemma UsedIffOnPath(pools: seq<Candidate>, path: seq<nat>, pi: nat)
    requires NoRepeats(pools) && Positions(pools, path) && pi < |pools|
    ensures pi in path <==> pools[pi].address in Addresses(pools, path)
  {
    if pi in path {
      var k :| 0 <= k < |path| && path[k] == pi;
      assert Addresses(pools, path)[k] == pools[pi].address;
    }
    if pools[pi].address in Addresses(pools, path) {
      var k :| 0 <= k < |path| && Addresses(pools, path)[k] == pools[pi].address;
      assert pools[Min(path[k], pi)].address == pools[Max(path[k], pi)].address;
    }
  }

  method IndexPools(pools: seq<Candidate>) returns (adj: map<Mint, seq<nat>>)
    ensures IsIndex(pools, adj)
  {
    adj := map[];
    for i := 0 to |pools|
      invariant IsIndex(pools[..i], adj)
    {
      var p := pools[i];
      IndexGrows(pools[..i], p, adj);
      assert pools[..i + 1] == pools[..i] + [p];
      adj := AddTo<nat>(adj, p.mintA, i);
      adj := AddTo<nat>(adj, p.mintB, i);
    }
    assert pools[..|pools|] == pools;
  }

  lemma IndexGrows(pools: seq<Candidate>, p: Candidate, adj: map<Mint, seq<nat>>)
    requires IsIndex(pools, adj)
    ensures IsIndex(pools + [p], AddTo<nat>(AddTo<nat>(adj, p.mintA, |pools|), p.mintB, |pools|))
  {
    hide AddTo;
    var one := AddTo<nat>(adj, p.mintA, |pools|);
    var more := AddTo<nat>(one, p.mintB, |pools|);
    forall t | t in more ensures more[t] != [] {
    }
    forall t, i: nat
      ensures Lists(more, t, i) <==> i < |pools| + 1 && (pools + [p])[i].Sides().Touches(t)
    {
      assert Lists(adj, t, i) <==> i < |pools| && pools[i].Sides().Touches(t);
    }
  }

  /** The cycles of the pools anchored at one of the bases. */
  ghost predicate IsBaseCycle(pools: seq<Candidate>, bases: set<Mint>, maxHops: nat, key: seq<Address>)
    requires DistinctAddresses(pools)
  {
    exists base <- bases :: IsCycle(NetOf(pools), base, maxHops, key)
  }

  /** All of them. */
  ghost predicate AreBaseCycles(pools: seq<Candidate>, bases: set<Mint>, maxHops: nat, keys: set<seq<Address>>)
    requires DistinctAddresses(pools)
  {
    forall key :: key in keys <==> IsBaseCycle(pools, bases, maxHops, key)
  }

  /** The count is the number of base-anchored simple cycles of 2 to `maxHops` pools. */
  method CountCycles(pools: seq<Candidate>, bases: set<Mint>, maxHops: nat) returns (n: nat)
    requires NoRepeats(pools)
    ensures DistinctAddresses(pools)
    ensures exists keys :: AreBaseCycles(pools, bases, maxHops, keys) && n == |keys|
  {
    hide IsCycle, NetOf, IsOpen;
    NoRepeatsIsDistinct(pools);
    var adj := IndexPools(pools);
    var c := new CycleCounter(pools, adj, maxHops);
    var todo := bases;
    ghost var done: set<Mint> := {};
    while todo != {}
      invariant c.Valid() && c.pools == pools && c.adj == adj && c.maxHops == maxHops && fresh(c)
      invariant c.poolPath == [] && c.mintPath == [] && bases == done + todo
      invariant forall key :: key in c.seen <==> IsBaseCycle(pools, done, maxHops, key)
    {
      var base :| base in todo;
      ghost var before := c.seen;
      EmptyPath(NetOf(pools), base, maxHops);
      if base in adj {
        assert c.Path() == [];
        c.CountDfs(base, base);
      } else {
        UntouchedHasNoCycle(pools, base, maxHops);
      }
      forall key ensures key in c.seen <==> IsBaseCycle(pools, done + {base}, maxHops, key) {
        assert key in c.seen <==> key in before || IsCycle(NetOf(pools), base, maxHops, key);
      }
      todo, done := todo - {base}, done + {base};
    }
    assert done == bases && AreBaseCycles(pools, bases, maxHops, c.seen);
    n := |c.seen|;
  }

  /** So pruning leaves the count as it was: what the method returns before it is what it returns
      after. */
  lemma CountSurvivesPruning(pools: seq<Candidate>, pruned: seq<Candidate>, bases: set<Mint>, maxHops: nat, n: nat, m: nat)
    requires DistinctAddresses(pools) && DistinctAddresses(pruned) && SameCycles(pools, pruned, bases)
    requires exists keys :: AreBaseCycles(pools, bases, maxHops, keys) && n == |keys|
    requires exists keys :: AreBaseCycles(pruned, bases, maxHops, keys) && m == |keys|
    ensures n == m
  {
    hide IsCycle, NetOf;
    var before :| AreBaseCycles(pools, bases, maxHops, before) && n == |before|;
    var after :| AreBaseCycles(pruned, bases, maxHops, after) && m == |after|;
    forall key ensures key in before <==> key in after {
      assert key in before <==> IsBaseCycle(pools, bases, maxHops, key);
    }
    assert before == after;
  }

  /** Counting before and after the pruning of a list without repeats gives the same number. */
  method CountAroundPruning(pools: seq<Candidate>, bases: set<Mint>, maxHops: nat)
    returns (before: nat, kept: seq<Candidate>, after: nat)
    requires NoRepeats(pools)
    ensures DistinctAddresses(pools) && NoRepeats(kept) && Stable(kept) && AllReached(kept, bases)
    ensures exists keys :: AreBaseCycles(pools, bases, maxHops, keys) && before == |keys|
    ensures before == after
  {
    hide NoRepeats, DistinctAddresses, Stable, AllReached, SameCycles, AreBaseCycles;
    before := CountCycles(pools, bases, maxHops);
    ghost var connected;
    kept, connected := KeepCycleCapable(pools, bases);
    after := CountCycles(kept, bases, maxHops);
    CountSurvivesPruning(pools, kept, bases, maxHops, before, after);
  }

  lemma EmptyPath(net: Net, base: Mint, maxHops: nat)
    ensures IsOpen(net, base, []) && Passed(net, base, []) == [] && MintAfter(net, base, []) == base
    ensures forall key :: Completes(net, base, maxHops, [], key) <==> IsCycle(net, base, maxHops, key)
  {
  }

  lemma UntouchedHasNoCycle(pools: seq<Candidate>, base: Mint, maxHops: nat)
    requires DistinctAddresses(pools) && !Touched(pools, base)
    ensures forall key :: !IsCycle(NetOf(pools), base, maxHops, key)
  {
    hide NetOf;
    forall key | IsCycle(NetOf(pools), base, maxHops, key) ensures false {
      CompletionCases(NetOf(pools), base, maxHops, [], key[0], key);
      var p := PoolAt(pools, key[0]);
    }
  }
}
