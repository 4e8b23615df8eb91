/** The discovery engine: it enumerates the cycle routes once, and re-evaluates only what changed. */
module Discovery {
  import opened Common
  import opened Arith
  import opened PoolGraph
  import opened DiscoverPools
  import opened CycleCount
  import opened CycleRoutes
  import opened SearchPass

  /** The paths the search pushes and pops, and the keys it has met. */
  class DfsState {
    var poolPath: seq<Address>
    var mintPath: seq<Mint>
    var seen: set<seq<Address>>

    constructor ()
      ensures poolPath == [] && mintPath == [] && seen == {}
    {
      poolPath, mintPath, seen := [], [], {};
    }

    /** The path is open, ends at `cur`, and the hop limit leaves room for another pool. */
    ghost predicate Standing(net: Net, maxHops: nat, base: Mint, cur: Mint)
      reads this
    {
      && IsOpen(net, base, poolPath) && mintPath == Passed(net, base, poolPath)
      && cur == MintAfter(net, base, poolPath)
      && (poolPath == [] || |poolPath| < maxHops)
    }
  }

  class DiscoveryEngine {
    const cooldownMs: nat
    var routes: seq<CycleRoute>
    var routesByPool: map<Address, seq<nat>>
    var dirty: set<Address>
    var lastPublished: map<seq<Address>, Published>
    var stats: EngineStats

    /** Routes are indexed by key and by pool, and only pools on a route are ever dirty. */
    ghost predicate Valid()
      reads this
    {
      && KeysDiffer(routes) && IsInverse(routes, routesByPool)
      && (forall pool <- dirty :: OnRoute(routes, pool))
    }

    constructor (cooldownMs: nat)
      ensures Valid() && this.cooldownMs == cooldownMs
      ensures routes == [] && routesByPool == map[] && dirty == {} && lastPublished == map[]
      ensures stats == EngineStats(0, 0, 0, 0)
    {
      this.cooldownMs := cooldownMs;
      routes, routesByPool, dirty, lastPublished := [], map[], {}, map[];
      stats := EngineStats(0, 0, 0, 0);
    }

    /** The search from the current path. It restores the path, and adds one route for each cycle
        that goes on from it and whose key was not seen before. */
    method Dfs(net: Net, adj: map<Mint, seq<Address>>, maxHops: nat, base: Mint, cur: Mint, s: DfsState)
      requires IsAdjacency(net, adj) && s.Standing(net, maxHops, base, cur) && SeenAre(s.seen, routes)
      modifies this`routes, s
      ensures s.poolPath == old(s.poolPath) && s.mintPath == old(s.mintPath) && SeenAre(s.seen, routes)
      ensures GrewBy(net, base, maxHops, old(routes), routes)
      ensures forall key :: key in s.seen <==>
                key in old(s.seen) || Completes(net, base, maxHops, s.poolPath, key)
      decreases Max(maxHops - |s.poolPath|, 0), 1
    {
      hide IsOpen, IsCycle, IsAdjacency, Through, Completes, SeenAre, IsRoute, Passed, MintAfter, Recorded;
      var neighbours := if cur in adj then adj[cur] else [];
      ghost var path := s.poolPath;
      NeighboursTrade(net, adj, cur);
      NothingRecorded(net, base, maxHops, path, s.seen);
      assert Prefix(neighbours, 0) == {};
      for n := 0 to |neighbours|
        invariant s.poolPath == path && s.mintPath == old(s.mintPath) && SeenAre(s.seen, routes)
        invariant GrewBy(net, base, maxHops, old(routes), routes)
        invariant Recorded(net, base, maxHops, path, Prefix(neighbours, n), old(s.seen), s.seen)
      {
        ghost var before := s.seen;
        TryPool(net, adj, maxHops, base, cur, neighbours[n], s);
        PrefixGrows(neighbours, n);
        RecordedOneMore(net, base, maxHops, path, Prefix(neighbours, n), neighbours[n], old(s.seen), before, s.seen);
      }
      AllRecorded(net, base, maxHops, path, Prefix(neighbours, |neighbours|), old(s.seen), s.seen);
    }

    /** One pool: skipped if used, recorded if it closes a cycle not met yet, skipped if the hop
        limit or a repeated mint forbids going on, and otherwise searched from. */
    method TryPool(net: Net, adj: map<Mint, seq<Address>>, maxHops: nat, base: Mint, cur: Mint, pool: Address, s: DfsState)
      requires IsAdjacency(net, adj) && s.Standing(net, maxHops, base, cur) && SeenAre(s.seen, routes)
      requires Trades(net, pool, cur)
      modifies this`routes, s
      ensures s.poolPath == old(s.poolPath) && s.mintPath == old(s.mintPath) && SeenAre(s.seen, routes)
      ensures GrewBy(net, base, maxHops, old(routes), routes)
      ensures forall key :: key in s.seen <==>
                key in old(s.seen) || Through(net, base, maxHops, s.poolPath, pool, key)
      decreases Max(maxHops - |s.poolPath|, 0), 0
    {
      hide IsOpen, IsCycle, IsAdjacency, Through, Completes, SeenAre, IsRoute, Passed, MintAfter;
      ghost var path := s.poolPath;
      ThroughCases(net, base, maxHops, path, pool);
      if pool in s.poolPath || pool !in net {
        return;
      }
      var next := net[pool].Other(cur);
      if next == base {
        if s.poolPath != [] {
          var key := s.poolPath + [pool];
          RouteClosed(net, maxHops, base, path, s.mintPath, pool);
          if key !in s.seen {
            RouteAdded(s.seen, routes, CycleRoute(key, base, [base] + s.mintPath));
            s.seen := s.seen + {key};
            routes := routes + [CycleRoute(key, base, [base] + s.mintPath)];
          }
        }
        return;
      }
      if |s.poolPath| + 1 >= maxHops || next in s.mintPath {
        return;
      }
      OpenExtended(net, base, path, pool);
      s.poolPath := s.poolPath + [pool];
      s.mintPath := s.mintPath + [next];
      Dfs(net, adj, maxHops, base, next, s);
      s.poolPath := Init(s.poolPath);
      s.mintPath := Init(s.mintPath);
    }

    /** Enumerate the cycles of each listed base in turn, then index the routes by pool. */
    method BuildCycleIndex(net: Net, adj: map<Mint, seq<Address>>, bases: seq<Mint>, maxHops: nat)
      requires Valid() && routes == [] && routesByPool == map[] && IsAdjacency(net, adj)
      modifies this`routes, this`routesByPool
      ensures Valid() && IsCycleIndex(net, bases, maxHops, routes)
    {
      hide IsCycle, IsAdjacency, SeenAre, IsRoute, GrewBy, IsInverse, IsCycleIndex, KeysDiffer, Anchored;
      var s := new DfsState();
      NothingIndexed(net, bases, maxHops);
      for b := 0 to |bases|
        invariant fresh(s) && s.poolPath == [] && s.mintPath == [] && SeenAre(s.seen, routes)
        invariant IsCycleIndex(net, bases[..b], maxHops, routes)
        invariant routesByPool == map[] && dirty == {}
      {
        ghost var wasRoutes, wasSeen := routes, s.seen;
        EmptyPath(net, bases[b], maxHops);
        if bases[b] in adj {
          Dfs(net, adj, maxHops, bases[b], bases[b], s);
        } else {
          NoNeighbourNoCycle(net, adj, bases[b], maxHops);
          NothingGrew(net, bases[b], maxHops, routes);
        }
        RouteIndexGrows(net, bases, b, maxHops, wasRoutes, routes, wasSeen, s.seen);
      }
      assert bases[..|bases|] == bases;
      IndexByPool();
      IndexKeysDiffer(net, bases, maxHops, routes);
    }

    method IndexByPool()
      requires routesByPool == map[]
      modifies this`routesByPool
      ensures IsInverse(routes, routesByPool)
    {
      hide IsInverse, AddTo;
      NothingByPool();
      for idx := 0 to |routes|
        invariant IsInverse(routes[..idx], routesByPool)
      {
        ghost var before := routesByPool;
        for k := 0 to |routes[idx].pools|
          invariant PartlyInverse(before, routesByPool, routes[idx].pools[..k], idx)
        {
          PartGrows(before, routesByPool, routes[idx].pools, k, idx);
          routesByPool := AddTo<nat>(routesByPool, routes[idx].pools[k], idx);
        }
        assert routes[idx].pools[..|routes[idx].pools|] == routes[idx].pools;
        InverseGrows(routes, idx, before, routesByPool);
      }
      assert routes[..|routes|] == routes;
    }

    /** Whether the pool is on a route, in which case it is now dirty. */
    method MarkDirty(pool: Address) returns (known: bool)
      requires Valid()
      modifies this`dirty
      ensures Valid() && known == OnRoute(routes, pool)
      ensures dirty == if known then old(dirty) + {pool} else old(dirty)
    {
      hide KeysDiffer;
      ByPoolIffOnRoute(routes, routesByPool, pool);
      known := pool in routesByPool;
      if known {
        dirty := dirty + {pool};
      }
    }

    /** Evaluate exactly the routes that use a dirty pool, publish those the cooldown lets through,
        and leave nothing dirty. What is published and remembered does not depend on the order in
        which the routes are taken, because no two share a key. */
    method RunSearch(evaluate: CycleRoute -> Option<Opportunity>) returns (out: seq<Opportunity>, ghost from: seq<nat>)
      requires Valid()
      modifies this`dirty, this`lastPublished, this`stats
      ensures Valid() && dirty == {}
      ensures var pass, touched := Pass(routes, evaluate, old(lastPublished), cooldownMs), TouchedRoutes(routes, old(dirty));
              && pass.Emits(touched, from, out) && pass.EmitsAllButHeldBack(touched, from)
              && pass.Remembers(from, lastPublished)
              && stats == if old(dirty) == {} then old(stats) else
                   EngineStats(old(stats.searches) + 1, old(stats.routesEvaluated) + |touched|,
                               old(stats.opportunities) + |out|,
                               old(stats.suppressedByCooldown) + |pass.Suppressed(touched)|)
    {
      hide KeysDiffer, IsInverse, TouchedRoutes, Pass.Emits, Pass.EmitsAllButHeldBack, Pass.Remembers, Pass.Suppressed, UsesAny;
      ghost var pass := Pass(routes, evaluate, lastPublished, cooldownMs);
      if dirty == {} {
        NothingTouched(routes);
        PassStarts(pass);
        EmittedOrHeldBack(pass, {}, [], []);
        return [], [];
      }
      stats := stats.(searches := stats.searches + 1);
      var candidates := Drain();
      out, from := EvaluateAll(pass, candidates, evaluate);
      EmittedOrHeldBack(pass, candidates, from, out);
    }

    /** The streaming loop: each update marks a pool, and if it is on a route the engine searches. From
        an engine that has published nothing yet, all of it is one run. */
    method Stream(updates: seq<Update>)
      returns (out: seq<Opportunity>, ghost steps: seq<RunStep>)
      requires Valid() && lastPublished == map[]
      modifies this`dirty, this`lastPublished, this`stats
      ensures Valid() && IsRun(routes, cooldownMs, steps, lastPublished) && out == AllPublished(steps)
      ensures Follow(routes, old(dirty), OfRoutes(routes, updates), steps)
    {
      hide KeysDiffer, IsInverse, TouchedRoutes, Pass.Emits, Pass.EmitsAllButHeldBack, Pass.Remembers, Pass.Suppressed,
           IsRun, OnRoute, Follow;
      out, steps := [], [];
      assert Follow(routes, dirty, OfRoutes(routes, updates[..0]), steps) by { NothingToFollow(routes, dirty); }
      assert IsRun(routes, cooldownMs, steps, lastPublished) by { EmptyRun(routes, cooldownMs); }
      for u := 0 to |updates|
        invariant Valid() && IsRun(routes, cooldownMs, steps, lastPublished) && out == AllPublished(steps)
        invariant Follow(routes, old(dirty), OfRoutes(routes, updates[..u]), steps)
        invariant dirty == if steps == [] then old(dirty) else {}
      {
        ghost var before := dirty;
        var known := MarkDirty(updates[u].0);
        if known {
          ghost var pass := Pass(routes, updates[u].1, lastPublished, cooldownMs);
          ghost var touched := TouchedRoutes(routes, dirty);
          var found, from := RunSearch(updates[u].1);
          SearchExtendsRun(routes, cooldownMs, steps, pass, touched, from, found, lastPublished);
          out := out + found;
          FollowNext(routes, old(dirty), updates, u, steps, RunStep(pass, touched, from));
          assert before + {updates[u].0} == {updates[u].0} + before;
          steps := steps + [RunStep(pass, touched, from)];
        } else {
          FollowNext(routes, old(dirty), updates, u, steps, RunStep(Pass(routes, updates[u].1, map[], 0), {}, []));
        }
      }
      assert updates[..|updates|] == updates;
    }

    /** Evaluate the candidates, in any order. */
    method EvaluateAll(ghost pass: Pass, candidates: set<nat>, evaluate: CycleRoute -> Option<Opportunity>)
      returns (out: seq<Opportunity>, ghost from: seq<nat>)
      requires pass == Pass(routes, evaluate, lastPublished, cooldownMs)
      requires KeysDiffer(routes) && forall i <- candidates :: i < |routes|
      modifies this`lastPublished, this`stats
      ensures pass.Emits(candidates, from, out) && pass.Remembers(from, lastPublished)
      ensures stats == EngineStats(old(stats.searches), old(stats.routesEvaluated) + |candidates|,
                                   old(stats.opportunities) + |out|,
                                   old(stats.suppressedByCooldown) + |pass.Suppressed(candidates)|)
    {
      hide KeysDiffer, Pass.Emits, Pass.Remembers, Pass.Suppressed, Pass.Suppresses, Pass.Publishes;
      PassStarts(pass);
      out, from := [], [];
      var todo := candidates;
      ghost var done: set<nat> := {};
      while todo != {}
        invariant candidates == done + todo && done !! todo
        invariant pass.Emits(done, from, out) && pass.Remembers(from, lastPublished)
        invariant stats == EngineStats(old(stats.searches), old(stats.routesEvaluated) + |done|,
                                       old(stats.opportunities) + |out|,
                                       old(stats.suppressedByCooldown) + |pass.Suppressed(done)|)
        decreases todo
      {
        var idx :| idx in todo;
        todo := todo - {idx};
        SuppressedOneMore(pass, done, idx);
        out, from := TakeRoute(pass, done, from, out, idx, evaluate);
        done := done + {idx};
      }
      assert done == candidates;
    }

    /** Evaluate one candidate, and publish what it found if the cooldown lets it through. */
    method TakeRoute(ghost pass: Pass, ghost done: set<nat>, ghost from: seq<nat>, out: seq<Opportunity>,
                     idx: nat, evaluate: CycleRoute -> Option<Opportunity>)
      returns (more: seq<Opportunity>, ghost moreFrom: seq<nat>)
      requires pass.routes == routes && pass.evaluate == evaluate && pass.cooldownMs == cooldownMs
      requires KeysDiffer(routes) && pass.Emits(done, from, out) && pass.Remembers(from, lastPublished)
      requires idx < |routes| && idx !in done
      modifies this`lastPublished, this`stats
      ensures pass.Emits(done + {idx}, moreFrom, more) && pass.Remembers(moreFrom, lastPublished)
      ensures |more| == |out| + if pass.Publishes(idx) then 1 else 0
      ensures stats == EngineStats(old(stats.searches), old(stats.routesEvaluated) + 1,
                                   old(stats.opportunities) + |more| - |out|,
                                   old(stats.suppressedByCooldown) + if pass.Suppresses(idx) then 1 else 0)
    {
      hide KeysDiffer, Pass.Emits, Pass.Remembers, MayPublish;
      more, moreFrom := out, from;
      stats := stats.(routesEvaluated := stats.routesEvaluated + 1);
      var opp := evaluate(routes[idx]);
      if opp.Some? {
        StillAsBefore(pass, done, from, out, lastPublished, idx);
        PublishedNext(pass, done, from, out, lastPublished, idx);
        var publish := ShouldPublish(routes[idx], opp.value);
        if publish {
          stats := stats.(opportunities := stats.opportunities + 1);
          more := more + [opp.value];
          moreFrom := moreFrom + [idx];
        }
      } else {
        SilentNext(pass, done, from, out, idx);
      }
    }

    /** Empty the dirty set into the positions of the routes that use its pools. */
    method Drain() returns (candidates: set<nat>)
      requires Valid()
      modifies this`dirty
      ensures dirty == {} && candidates == TouchedRoutes(routes, old(dirty))
      ensures forall i <- candidates :: i < |routes|
    {
      hide KeysDiffer, IsInverse, UsesAny;
      candidates := {};
      ghost var drained: set<Address> := {};
      NothingTouched(routes);
      while dirty != {}
        invariant drained + dirty == old(dirty) && candidates == TouchedRoutes(routes, drained)
        decreases dirty
      {
        var pool :| pool in dirty;
        dirty := dirty - {pool};
        TouchedOneMore(routes, routesByPool, drained, pool);
        if pool in routesByPool {
          candidates := candidates + set i | i in routesByPool[pool];
        }
        drained := drained + {pool};
      }
      assert drained == old(dirty);
    }

    /** The cooldown gate; a quote that passes is remembered. */
    method ShouldPublish(route: CycleRoute, opp: Opportunity) returns (publish: bool)
      modifies this`lastPublished, this`stats
      ensures publish == MayPublish(old(lastPublished), cooldownMs, route.pools, opp)
      ensures lastPublished == if publish then old(lastPublished)[route.pools := Noted(opp)] else old(lastPublished)
      ensures stats == if publish then old(stats)
                       else old(stats).(suppressedByCooldown := old(stats).suppressedByCooldown + 1)
    {
      if route.pools in lastPublished {
        var last := lastPublished[route.pools];
        if Elapsed(opp.discoveredAtMs, last.at) < cooldownMs {
          if opp.netProfit <= last.profit * 105 / 100 {
            stats := stats.(suppressedByCooldown := stats.suppressedByCooldown + 1);
            return false;
          }
        }
      }
      lastPublished := lastPublished[route.pools := Noted(opp)];
      return true;
    }
  }
}
