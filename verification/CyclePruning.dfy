/** Pruning loses no arbitrage cycle, and its guarantees hold together. */
module CyclePruning {
  import opened Common
  import opened Arith
  import opened PoolGraph
  import opened DiscoverPools

  // ------------------------------------------------------------------ cycles are stable

  lemma {:induction false} TouchDegree(pools: seq<Candidate>, p: Candidate, t: Mint)
    requires p in pools && p.Sides().Touches(t)
    ensures Degree(pools, t) >= 1
    decreases |pools|
  {
    InitAndLast(pools);
    if p != Last(pools) {
      TouchDegree(Init(pools), p, t);
    }
  }

  lemma {:induction false} TwoTouchDegree(pools: seq<Candidate>, p: Candidate, q: Candidate, t: Mint)
    requires p != q && p in pools && q in pools && p.Sides().Touches(t) && q.Sides().Touches(t)
    ensures Degree(pools, t) >= 2
    decreases |pools|
  {
    InitAndLast(pools);
    if p == Last(pools) {
      TouchDegree(Init(pools), q, t);
    } else if q == Last(pools) {
      TouchDegree(Init(pools), p, t);
    } else {
      TwoTouchDegree(Init(pools), p, q, t);
    }
  }

  /** The mint hop `k` of a cycle trades for. */
  ghost function NextMint(mints: seq<Mint>, k: nat): Mint
    requires k < |mints|
  {
    if k + 1 < |mints| then mints[k + 1] else mints[0]
  }

  /** Hop `k` of a cycle trades its two mints for one another and nothing else. */
  lemma HopSides(net: Net, base: Mint, maxHops: nat, cycle: seq<Address>, mints: seq<Mint>, k: nat)
    requires IsSimpleCycle(net, base, maxHops, cycle, mints) && k < |cycle|
    ensures cycle[k] in net
    ensures var e, next := net[cycle[k]], NextMint(mints, k);
            (e.a == mints[k] && e.b == next) || (e.b == mints[k] && e.a == next)
  {
    assert Trades(net, cycle[k], mints[k]);
    if k + 1 < |cycle| { assert Traded(net, cycle[k], mints[k]) == mints[k + 1]; }
  }

  /** Each mint of a cycle lies on two of its pools. */
  lemma TwoHopsPerMint(net: Net, base: Mint, maxHops: nat, cycle: seq<Address>, mints: seq<Mint>, k: nat) returns (j: nat)
    requires IsSimpleCycle(net, base, maxHops, cycle, mints) && k < |cycle|
    ensures j < |cycle| && j != k && cycle[j] != cycle[k] && cycle[j] in net && net[cycle[j]].Touches(mints[k])
  {
    j := if k == 0 then |cycle| - 1 else k - 1;
    HopSides(net, base, maxHops, cycle, mints, j);
    assert cycle[Arith.Min(j, k)] != cycle[Arith.Max(j, k)];
  }

  ghost function CyclePools(pools: seq<Candidate>, cycle: seq<Address>): set<Candidate> {
    set p | p in pools && p.address in cycle
  }

  lemma PoolAt(pools: seq<Candidate>, key: Address) returns (p: Candidate)
    requires DistinctAddresses(pools) && key in NetOf(pools)
    ensures p in pools && p.address == key && NetOf(pools)[key] == p.Sides()
  {
    p :| p in pools && p.address == key;
  }

  /** In the pools of a cycle alone, every token has degree at least two. */
  lemma CycleIsStable(pools: seq<Candidate>, base: Mint, maxHops: nat, cycle: seq<Address>)
    requires DistinctAddresses(pools) && IsCycle(NetOf(pools), base, maxHops, cycle)
    ensures Stable(Restrict(pools, CyclePools(pools, cycle)))
  {
    hide IsCycle, NetOf;
    var net, part := NetOf(pools), Restrict(pools, CyclePools(pools, cycle));
    CycleIffSimple(net, base, maxHops, cycle);
    var mints :| IsSimpleCycle(net, base, maxHops, cycle, mints);
    forall k | 0 <= k < |cycle| ensures Degree(part, mints[k]) >= 2 {
      MintDegree(pools, base, maxHops, cycle, mints, k);
    }
    forall p | p in part ensures Degree(part, p.mintA) >= 2 && Degree(part, p.mintB) >= 2 {
      var k :| 0 <= k < |cycle| && cycle[k] == p.address;
      HopSides(net, base, maxHops, cycle, mints, k);
      var next := if k + 1 < |mints| then k + 1 else 0;
      assert Degree(part, mints[k]) >= 2 && Degree(part, mints[next]) >= 2;
    }
  }

  lemma MintDegree(pools: seq<Candidate>, base: Mint, maxHops: nat, cycle: seq<Address>, mints: seq<Mint>, k: nat)
    requires DistinctAddresses(pools) && IsSimpleCycle(NetOf(pools), base, maxHops, cycle, mints) && k < |cycle|
    ensures Degree(Restrict(pools, CyclePools(pools, cycle)), mints[k]) >= 2
  {
    hide NetOf;
    var net := NetOf(pools);
    HopSides(net, base, maxHops, cycle, mints, k);
    var j := TwoHopsPerMint(net, base, maxHops, cycle, mints, k);
    var p := PoolAt(pools, cycle[k]);
    var q := PoolAt(pools, cycle[j]);
    TwoTouchDegree(Restrict(pools, CyclePools(pools, cycle)), p, q, mints[k]);
  }

  // ------------------------------------------------------------------ cycles survive

  /** Every pool of the cycle is in the list. */
  ghost predicate Uses(r: seq<Candidate>, cycle: seq<Address>) {
    forall key <- cycle :: exists p <- r :: p.address == key
  }

  ghost predicate PartOf(r: seq<Candidate>, pools: seq<Candidate>) {
    forall p <- r :: p in pools
  }

  lemma PartIsDistinct(pools: seq<Candidate>, r: seq<Candidate>)
    requires DistinctAddresses(pools) && PartOf(r, pools)
    ensures DistinctAddresses(r)
  {
  }

  lemma CycleKnown(net: Net, base: Mint, maxHops: nat, cycle: seq<Address>)
    requires IsCycle(net, base, maxHops, cycle)
    ensures forall key <- cycle :: key in net
  {
    CycleIffSimple(net, base, maxHops, cycle);
    var mints :| IsSimpleCycle(net, base, maxHops, cycle, mints);
    forall key | key in cycle ensures key in net {
      var k :| 0 <= k < |cycle| && cycle[k] == key;
      assert Trades(net, cycle[k], mints[k]);
    }
  }

  /** A path is a cycle of part of the pools exactly when it is one of all of them and the part has
      every pool it uses. */
  lemma CyclesOfPart(pools: seq<Candidate>, r: seq<Candidate>, base: Mint, maxHops: nat, cycle: seq<Address>)
    requires DistinctAddresses(pools) && PartOf(r, pools)
    ensures DistinctAddresses(r)
    ensures IsCycle(NetOf(r), base, maxHops, cycle) <==> IsCycle(NetOf(pools), base, maxHops, cycle) && Uses(r, cycle)
  {
    hide IsCycle;
    var some, all := NetOf(r), NetOf(pools);
    assert Within(some, all);
    if IsCycle(some, base, maxHops, cycle) {
      CycleKnown(some, base, maxHops, cycle);
      CycleWithin(some, all, base, maxHops, cycle);
    }
    if Uses(r, cycle) {
      CycleWithin(some, all, base, maxHops, cycle);
    }
  }

  lemma CycleSurvivesPrune(pools: seq<Candidate>, r: seq<Candidate>, base: Mint, maxHops: nat, cycle: seq<Address>)
    requires DistinctAddresses(pools) && GreatestStable(r, pools) && IsCycle(NetOf(pools), base, maxHops, cycle)
    ensures Uses(r, cycle)
  {
    hide IsCycle, NetOf;
    CycleIsStable(pools, base, maxHops, cycle);
    CycleKnown(NetOf(pools), base, maxHops, cycle);
    forall key | key in cycle ensures exists p <- r :: p.address == key {
      var p := PoolAt(pools, key);
      assert p in Restrict(pools, CyclePools(pools, cycle));
    }
  }

  lemma CycleSurvivesConnect(pools: seq<Candidate>, bases: set<Mint>, seen: set<Mint>, base: Mint, maxHops: nat,
                             cycle: seq<Address>)
    requires DistinctAddresses(pools) && IsCycle(NetOf(pools), base, maxHops, cycle) && base in bases
    requires Closed(pools, seen) && forall t :: Reachable(pools, bases, t) ==> t in seen
    ensures Uses(Restrict(pools, Between(pools, seen)), cycle)
  {
    hide IsCycle, NetOf;
    var net := NetOf(pools);
    CycleIffSimple(net, base, maxHops, cycle);
    var mints :| IsSimpleCycle(net, base, maxHops, cycle, mints);
    assert base in seen by {
      HopSides(net, base, maxHops, cycle, mints, 0);
      var p := PoolAt(pools, cycle[0]);
      assert IsWalk(pools, bases, [base]) && Last([base]) == base;
    }
    MintsSeen(pools, seen, base, maxHops, cycle, mints, |cycle| - 1);
    forall key | key in cycle ensures exists p <- Restrict(pools, Between(pools, seen)) :: p.address == key {
      var k :| 0 <= k < |cycle| && cycle[k] == key;
      MintsSeen(pools, seen, base, maxHops, cycle, mints, k);
      HopSides(net, base, maxHops, cycle, mints, k);
      var p := PoolAt(pools, key);
    }
  }

  lemma {:induction false} MintsSeen(pools: seq<Candidate>, seen: set<Mint>, base: Mint, maxHops: nat,
                                     cycle: seq<Address>, mints: seq<Mint>, k: nat)
    requires DistinctAddresses(pools) && IsSimpleCycle(NetOf(pools), base, maxHops, cycle, mints) && k < |cycle|
    requires Closed(pools, seen) && base in seen
    ensures mints[k] in seen
  {
    hide NetOf;
    if k > 0 {
      MintsSeen(pools, seen, base, maxHops, cycle, mints, k - 1);
      HopSides(NetOf(pools), base, maxHops, cycle, mints, k - 1);
      var p := PoolAt(pools, cycle[k - 1]);
    }
  }

  // ------------------------------------------------------------------ the guarantees together

  lemma {:induction false} DegreeKept(pools: seq<Candidate>, keep: set<Candidate>, t: Mint)
    requires forall p <- pools :: p.Sides().Touches(t) ==> p in keep
    ensures Degree(Restrict(pools, keep), t) == Degree(pools, t)
    decreases |pools|
  {
    if pools != [] {
      InitAndLast(pools);
      DegreeKept(Init(pools), keep, t);
      assert pools == Init(pools) + [Last(pools)];
      RestrictAppend(Init(pools), Last(pools), keep);
      AppendDegree(Restrict(Init(pools), keep), Last(pools), t);
    }
  }

  /** Keeping whole components changes no degree, so a stable list stays stable. */
  lemma ConnectedStaysStable(pools: seq<Candidate>, seen: set<Mint>)
    requires Stable(pools) && Closed(pools, seen)
    ensures Stable(Restrict(pools, Between(pools, seen)))
  {
    var r := Restrict(pools, Between(pools, seen));
    forall p | p in r ensures Degree(r, p.mintA) >= 2 && Degree(r, p.mintB) >= 2 {
      DegreeKept(pools, Between(pools, seen), p.mintA);
      DegreeKept(pools, Between(pools, seen), p.mintB);
    }
  }

  /** What a base reaches it still reaches through the pools that were kept. */
  lemma {:induction false} StillReachable(pools: seq<Candidate>, bases: set<Mint>, seen: set<Mint>, walk: seq<Mint>)
    requires Closed(pools, seen) && (forall t :: Reachable(pools, bases, t) ==> t in seen)
    requires IsWalk(pools, bases, walk)
    ensures IsWalk(Restrict(pools, Between(pools, seen)), bases, walk)
  {
    var r := Restrict(pools, Between(pools, seen));
    var start :| start in pools && start.Sides().Touches(walk[0]);
    assert IsWalk(pools, bases, [walk[0]]) && Last([walk[0]]) == walk[0];
    assert Reachable(pools, bases, walk[0]) && start in r;
    forall i | 0 <= i < |walk| - 1 ensures Linked(r, walk[i], walk[i + 1]) {
      WalkPrefix(pools, bases, walk, i);
      assert Linked(pools, walk[i], walk[i + 1]);
      var p :| p in pools && Links(p, walk[i], walk[i + 1]);
      assert p in r;
    }
  }

  lemma WalkPrefix(pools: seq<Candidate>, bases: set<Mint>, walk: seq<Mint>, i: nat)
    requires IsWalk(pools, bases, walk) && i < |walk|
    ensures Reachable(pools, bases, walk[i])
  {
    var prefix := walk[..i + 1];
    forall j | 0 <= j < |prefix| - 1 ensures Linked(pools, prefix[j], prefix[j + 1]) {
      assert Linked(pools, walk[j], walk[j + 1]);
    }
    assert IsWalk(pools, bases, prefix) && Last(prefix) == walk[i];
  }

  ghost predicate AllReached(pools: seq<Candidate>, bases: set<Mint>) {
    forall p <- pools :: Reachable(pools, bases, p.mintA) && Reachable(pools, bases, p.mintB)
  }

  lemma ConnectedIsReached(pools: seq<Candidate>, bases: set<Mint>, seen: set<Mint>)
    requires Closed(pools, seen) && forall t :: t in seen <==> Reachable(pools, bases, t)
    ensures AllReached(Restrict(pools, Between(pools, seen)), bases)
  {
    var r := Restrict(pools, Between(pools, seen));
    forall p, t | p in r && p.Sides().Touches(t) ensures Reachable(r, bases, t) {
      var walk :| IsWalk(pools, bases, walk) && Last(walk) == t;
      StillReachable(pools, bases, seen, walk);
    }
  }

  /** The same cycles, anchored at any of the bases, of any length. */
  ghost predicate SameCycles(pools: seq<Candidate>, r: seq<Candidate>, bases: set<Mint>)
    requires DistinctAddresses(pools) && DistinctAddresses(r)
  {
    forall base, maxHops: nat, cycle :: base in bases ==>
      (IsCycle(NetOf(r), base, maxHops, cycle) <==> IsCycle(NetOf(pools), base, maxHops, cycle))
  }

  lemma PruneKeepsCycles(pools: seq<Candidate>, r: seq<Candidate>, bases: set<Mint>)
    requires DistinctAddresses(pools) && GreatestStable(r, pools)
    ensures PartOf(r, pools) && DistinctAddresses(r) && SameCycles(pools, r, bases)
  {
    hide IsCycle, NetOf, Stable;
    PartIsDistinct(pools, r);
    forall base, maxHops: nat, cycle | base in bases
      ensures IsCycle(NetOf(r), base, maxHops, cycle) <==> IsCycle(NetOf(pools), base, maxHops, cycle)
    {
      CyclesOfPart(pools, r, base, maxHops, cycle);
      if IsCycle(NetOf(pools), base, maxHops, cycle) { CycleSurvivesPrune(pools, r, base, maxHops, cycle); }
    }
  }

  lemma ConnectKeepsCycles(pools: seq<Candidate>, bases: set<Mint>, seen: set<Mint>)
    requires DistinctAddresses(pools) && Closed(pools, seen)
    requires forall t :: t in seen <==> Reachable(pools, bases, t)
    ensures var r := Restrict(pools, Between(pools, seen)); DistinctAddresses(r) && SameCycles(pools, r, bases)
  {
    hide IsCycle, NetOf, Reachable, Closed;
    var r := Restrict(pools, Between(pools, seen));
    PartIsDistinct(pools, r);
    forall base, maxHops: nat, cycle | base in bases
      ensures IsCycle(NetOf(r), base, maxHops, cycle) <==> IsCycle(NetOf(pools), base, maxHops, cycle)
    {
      CyclesOfPart(pools, r, base, maxHops, cycle);
      if IsCycle(NetOf(pools), base, maxHops, cycle) {
        CycleSurvivesConnect(pools, bases, seen, base, maxHops, cycle);
      }
    }
  }

  /** Prune, connect, prune again: the base-anchored cycles of every length are exactly those of
      the original pools, every token has degree at least two, every token can be reached from a
      base, and the second prune had nothing to do. */
  method KeepCycleCapable(pools: seq<Candidate>, bases: set<Mint>)
    returns (r: seq<Candidate>, ghost connected: seq<Candidate>)
    requires DistinctAddresses(pools)
    ensures DistinctAddresses(r) && SameCycles(pools, r, bases)
    ensures Stable(r) && AllReached(r, bases) && r == connected
    ensures NoRepeats(pools) ==> NoRepeats(r)
  {
    hide Stable, SameCycles, Reachable, Closed, AllReached, DistinctAddresses, GreatestStable, NoRepeats;
    var pruned := PruneDegree(pools);
    PruneKeepsCycles(pools, pruned, bases);
    var kept, seen := KeepBaseConnected(pruned, bases);
    connected := kept;
    ConnectKeepsCycles(pruned, bases, seen);
    ConnectedIsReached(pruned, bases, seen);
    GreatestIsStable(pools, pruned);
    ConnectedStaysStable(pruned, seen);
    r := PruneDegree(kept);
    PruneOfStable(connected, r);
    SameCyclesChain(pools, pruned, r, bases);
    if NoRepeats(pools) {
      GreatestKeepsNoRepeats(pools, pruned);
      RestrictKeepsNoRepeats(pruned, Connected(pruned, bases));
    }
  }

  lemma GreatestKeepsNoRepeats(pools: seq<Candidate>, r: seq<Candidate>)
    requires GreatestStable(r, pools) && NoRepeats(pools)
    ensures NoRepeats(r)
  {
    hide NoRepeats, Stable, HoldsEveryStable;
    RestrictKeepsNoRepeats(pools, Elems(r));
  }

  lemma GreatestIsStable(pools: seq<Candidate>, r: seq<Candidate>)
    requires GreatestStable(r, pools)
    ensures Stable(r)
  {
  }

  lemma SameCyclesChain(a: seq<Candidate>, b: seq<Candidate>, c: seq<Candidate>, bases: set<Mint>)
    requires DistinctAddresses(a) && DistinctAddresses(b) && DistinctAddresses(c)
    requires SameCycles(a, b, bases) && SameCycles(b, c, bases)
    ensures SameCycles(a, c, bases)
  {
    hide IsCycle, NetOf;
  }
}
