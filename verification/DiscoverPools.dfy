/** The pool-discovery pipeline: drop pools that cannot lie on a cycle, keep what a base can reach,
    and count the cycles that remain.
 */
module DiscoverPools {
  import opened Common
  import opened PoolGraph
  import Arith

  datatype Candidate = Candidate(address: Address, mintA: Mint, mintB: Mint)
  {
    function Sides(): Ends {
      Ends(mintA, mintB)
    }
  }

  /** Candidates are deduplicated by address before anything else happens. */
  ghost predicate DistinctAddresses(pools: seq<Candidate>) {
    forall p <- pools, q <- pools :: p.address == q.address ==> p == q
  }

  /** No two positions hold the same address. */
  ghost predicate NoRepeats(pools: seq<Candidate>) {
    forall i, j :: 0 <= i < j < |pools| ==> pools[i].address != pools[j].address
  }

  lemma NoRepeatsIsDistinct(pools: seq<Candidate>)
    requires NoRepeats(pools)
    ensures DistinctAddresses(pools)
  {
    forall p, q | p in pools && q in pools && p.address == q.address ensures p == q {
      var i :| 0 <= i < |pools| && pools[i] == p;
      var j :| 0 <= j < |pools| && pools[j] == q;
      assert pools[Arith.Min(i, j)].address == pools[Arith.Max(i, j)].address;
    }
  }

  ghost function NetOf(pools: seq<Candidate>): (net: Net)
    requires DistinctAddresses(pools)
    ensures forall p <- pools :: p.address in net && net[p.address] == p.Sides()
    ensures forall k <- net :: exists p <- pools :: p.address == k
  {
    map p | p in pools :: p.address := p.Sides()
  }

  ghost function Elems(pools: seq<Candidate>): set<Candidate> {
    set p | p in pools
  }

  // ------------------------------------------------------------------ sublists and degrees

  /** The sublist of pools in a set, in order. */
  function Restrict(pools: seq<Candidate>, keep: set<Candidate>): (r: seq<Candidate>)
    ensures forall p :: p in r <==> p in pools && p in keep
  {
    if pools == [] then []
    else
      assert pools == Init(pools) + [Last(pools)];
      var rest := Restrict(Init(pools), keep);
      if Last(pools) in keep then rest + [Last(pools)] else rest
  }

  /** How often a token occurs as a side of a pool. */
  function Degree(pools: seq<Candidate>, t: Mint): nat {
    if pools == [] then 0
    else Degree(Init(pools), t) + Sides(Last(pools), t)
  }

  function Sides(p: Candidate, t: Mint): nat {
    (if p.mintA == t then 1 else 0) + (if p.mintB == t then 1 else 0)
  }

  lemma {:induction false} DegreeMono(pools: seq<Candidate>, some: set<Candidate>, more: set<Candidate>, t: Mint)
    requires forall p <- pools :: p in some ==> p in more
    ensures Degree(Restrict(pools, some), t) <= Degree(Restrict(pools, more), t)
    decreases |pools|
  {
    if pools != [] {
      var init, last := Init(pools), Last(pools);
      assert pools == init + [last] && last in pools && forall p <- init :: p in pools;
      DegreeMono(init, some, more, t);
      RestrictAppend(init, last, some);
      RestrictAppend(init, last, more);
      AppendDegree(Restrict(init, some), last, t);
      AppendDegree(Restrict(init, more), last, t);
    }
  }

  lemma AppendDegree(pools: seq<Candidate>, p: Candidate, t: Mint)
    ensures Degree(pools + [p], t) == Degree(pools, t) + Sides(p, t)
  {
    assert Init(pools + [p]) == pools;
  }

  lemma {:induction false} RestrictKeepsNoRepeats(pools: seq<Candidate>, keep: set<Candidate>)
    requires NoRepeats(pools)
    ensures NoRepeats(Restrict(pools, keep))
    decreases |pools|
  {
    if pools != [] {
      var init, last := Init(pools), Last(pools);
      RestrictKeepsNoRepeats(init, keep);
      forall p | p in Restrict(init, keep) ensures p.address != last.address {
        var i :| 0 <= i < |init| && init[i] == p;
        assert pools[i] == p;
      }
    }
  }

  lemma {:induction false} RestrictSame(pools: seq<Candidate>, keep: set<Candidate>)
    ensures |Restrict(pools, keep)| <= |pools|
    ensures |Restrict(pools, keep)| == |pools| || (forall p <- pools :: p in keep) ==> Restrict(pools, keep) == pools
    decreases |pools|
  {
    if pools != [] {
      assert pools == Init(pools) + [Last(pools)];
      assert Last(pools) in pools && forall p <- Init(pools) :: p in pools;
      RestrictSame(Init(pools), keep);
    }
  }

  lemma RestrictAppend(pools: seq<Candidate>, p: Candidate, keep: set<Candidate>)
    ensures Restrict(pools + [p], keep)
         == if p in keep then Restrict(pools, keep) + [p] else Restrict(pools, keep)
  {
    assert Init(pools + [p]) == pools;
  }

  lemma {:induction false} RestrictTwice(pools: seq<Candidate>, a: set<Candidate>, b: set<Candidate>, c: set<Candidate>)
    requires forall p <- pools :: p in c <==> p in a && p in b
    ensures Restrict(Restrict(pools, a), b) == Restrict(pools, c)
    decreases |pools|
  {
    if pools != [] {
      var init, last := Init(pools), Last(pools);
      assert pools == init + [last] && last in pools && forall p <- init :: p in pools;
      RestrictTwice(init, a, b, c);
      RestrictAppend(init, last, a);
      RestrictAppend(init, last, c);
      if last in a {
        assert Restrict(pools, a) == Restrict(init, a) + [last];
        RestrictAppend(Restrict(init, a), last, b);
      } else {
        assert Restrict(pools, a) == Restrict(init, a);
      }
    }
  }

  /** Counting every side of every pool. */
  method TokenDegrees(pools: seq<Candidate>) returns (deg: map<Mint, nat>)
    ensures forall t :: t in deg <==> Degree(pools, t) > 0
    ensures forall t <- deg :: deg[t] == Degree(pools, t)
  {
    deg := map[];
    for i := 0 to |pools|
      invariant forall t :: t in deg <==> Degree(pools[..i], t) > 0
      invariant forall t <- deg :: deg[t] == Degree(pools[..i], t)
    {
      var p := pools[i];
      assert Init(pools[..i + 1]) == pools[..i] && Last(pools[..i + 1]) == p;
      deg := deg[p.mintA := (if p.mintA in deg then deg[p.mintA] else 0) + 1];
      deg := deg[p.mintB := (if p.mintB in deg then deg[p.mintB] else 0) + 1];
    }
    assert pools[..|pools|] == pools;
  }

  // ------------------------------------------------------------------ degree prune

  /** Every token of the list lies on at least two pool sides. */
  ghost predicate Stable(pools: seq<Candidate>) {
    forall p <- pools :: Degree(pools, p.mintA) >= 2 && Degree(pools, p.mintB) >= 2
  }

  ghost predicate Sublist(r: seq<Candidate>, pools: seq<Candidate>) {
    r == Restrict(pools, Elems(r))
  }

  /** No stable sublist has a pool outside `r`. */
  ghost predicate HoldsEveryStable(r: seq<Candidate>, pools: seq<Candidate>) {
    forall keep: set<Candidate> :: Stable(Restrict(pools, keep)) ==> forall p <- Restrict(pools, keep) :: p in r
  }

  /** The greatest sublist in which every token has degree at least two. */
  ghost predicate GreatestStable(r: seq<Candidate>, pools: seq<Candidate>) {
    Stable(r) && Sublist(r, pools) && HoldsEveryStable(r, pools)
  }

  lemma SublistOfSublist(pools: seq<Candidate>, r: seq<Candidate>, keep: set<Candidate>)
    requires Sublist(r, pools)
    ensures Sublist(Restrict(r, keep), pools)
  {
    RestrictTwice(pools, Elems(r), keep, Elems(Restrict(r, keep)));
  }

  /** A pool of a stable sublist always passes the degree test. */
  lemma StableSurvives(pools: seq<Candidate>, r: seq<Candidate>, keep: set<Candidate>, p: Candidate)
    requires Sublist(r, pools) && Stable(Restrict(pools, keep)) && p in Restrict(pools, keep)
    requires forall q <- Restrict(pools, keep) :: q in r
    ensures Degree(r, p.mintA) >= 2 && Degree(r, p.mintB) >= 2
  {
    DegreeMono(pools, keep, Elems(r), p.mintA);
    DegreeMono(pools, keep, Elems(r), p.mintB);
  }

  /** Dropping pools with a token of degree below two until nothing changes. */
  method PruneDegree(pools: seq<Candidate>) returns (r: seq<Candidate>)
    ensures GreatestStable(r, pools)
  {
    r := pools;
    RestrictSame(pools, Elems(pools));
    while true
      invariant Sublist(r, pools) && HoldsEveryStable(r, pools)
      decreases |r|
    {
      var deg := TokenDegrees(r);
      SidesCount(r);
      var keep := set p | p in r && deg[p.mintA] >= 2 && deg[p.mintB] >= 2;
      var kept := Restrict(r, keep);
      RestrictSame(r, keep);
      if |kept| == |r| {
        return;
      }
      SublistOfSublist(pools, r, keep);
      forall k: set<Candidate>, p | Stable(Restrict(pools, k)) && p in Restrict(pools, k) ensures p in kept {
        StableSurvives(pools, r, k, p);
      }
      r := kept;
    }
  }

  lemma {:induction false} SidesCount(pools: seq<Candidate>)
    ensures forall p <- pools :: Degree(pools, p.mintA) > 0 && Degree(pools, p.mintB) > 0
    decreases |pools|
  {
    if pools != [] {
      SidesCount(Init(pools));
      assert pools == Init(pools) + [Last(pools)];
    }
  }

  /** Pruning a stable list removes nothing. */
  lemma PruneOfStable(pools: seq<Candidate>, r: seq<Candidate>)
    requires Stable(pools) && GreatestStable(r, pools)
    ensures r == pools
  {
    RestrictSame(pools, Elems(pools));
    RestrictSame(pools, Elems(r));
  }

  lemma {:induction false} AloneHasDegreeOne(pools: seq<Candidate>, p: Candidate, t: Mint)
    requires NoRepeats(pools) && p.mintA != p.mintB && forall q <- pools :: q.Sides().Touches(t) ==> q == p
    ensures Degree(pools, t) <= if p in pools then 1 else 0
    decreases |pools|
  {
    if pools != [] {
      var init, last := Init(pools), Last(pools);
      assert pools == init + [last] && last in pools && forall q <- init :: q in pools;
      AloneHasDegreeOne(init, p, t);
    }
  }

  /** What stability is for: whichever token a pool that was kept pays out, another one trades it on.
      (A pool of one token with itself counts twice.) */
  lemma StableHasNoDeadEnds(pools: seq<Candidate>, p: Candidate, t: Mint)
    requires NoRepeats(pools) && Stable(pools) && p in pools && p.Sides().Touches(t) && p.mintA != p.mintB
    ensures exists q <- pools :: q.address != p.address && q.Sides().Touches(t)
  {
    if forall q <- pools :: q.Sides().Touches(t) ==> q == p {
      AloneHasDegreeOne(pools, p, t);
    } else {
      var q :| q in pools && q.Sides().Touches(t) && q != p;
      NoRepeatsIsDistinct(pools);
    }
  }

  // ------------------------------------------------------------------ reachability

  ghost predicate Touched(pools: seq<Candidate>, t: Mint) {
    exists p <- pools :: p.Sides().Touches(t)
  }

  predicate Links(p: Candidate, x: Mint, y: Mint) {
    (p.mintA == x && p.mintB == y) || (p.mintA == y && p.mintB == x)
  }

  /** Some pool trades `x` for `y`. */
  ghost predicate Linked(pools: seq<Candidate>, x: Mint, y: Mint) {
    exists p <- pools :: Links(p, x, y)
  }

  /** A walk over linked tokens starting at a traded base. */
  ghost predicate IsWalk(pools: seq<Candidate>, bases: set<Mint>, walk: seq<Mint>) {
    && walk != [] && walk[0] in bases && Touched(pools, walk[0])
    && forall i :: 0 <= i < |walk| - 1 ==> Linked(pools, walk[i], walk[i + 1])
  }

  ghost predicate Reachable(pools: seq<Candidate>, bases: set<Mint>, t: Mint) {
    exists walk :: IsWalk(pools, bases, walk) && Last(walk) == t
  }

  ghost predicate IsNeighbours(pools: seq<Candidate>, adj: map<Mint, seq<Mint>>) {
    && (forall t :: t in adj <==> Touched(pools, t))
    && (forall t <- adj, n :: n in adj[t] <==> Linked(pools, t, n))
  }

  function AddTo<T(!new)>(adj: map<Mint, seq<T>>, t: Mint, n: T): (r: map<Mint, seq<T>>)
    ensures r.Keys == adj.Keys + {t}
    ensures forall u, x :: u in r ==> (x in r[u] <==> (u in adj && x in adj[u]) || (u == t && x == n))
    ensures forall u <- r :: u == t || (u in adj && r[u] == adj[u])
    ensures r[t] != []
  {
    adj[t := (if t in adj then adj[t] else []) + [n]]
  }

  method Neighbours(pools: seq<Candidate>) returns (adj: map<Mint, seq<Mint>>)
    ensures IsNeighbours(pools, adj)
  {
    adj := map[];
    for i := 0 to |pools|
      invariant IsNeighbours(pools[..i], adj)
    {
      var p := pools[i];
      ghost var before := adj;
      assert pools[..i + 1] == pools[..i] + [p];
      adj := AddTo(adj, p.mintA, p.mintB);
      adj := AddTo(adj, p.mintB, p.mintA);
      NeighboursGrow(pools[..i], p, before);
    }
    assert pools[..|pools|] == pools;
  }

  lemma NeighboursGrow(pools: seq<Candidate>, p: Candidate, adj: map<Mint, seq<Mint>>)
    requires IsNeighbours(pools, adj)
    ensures IsNeighbours(pools + [p], AddTo(AddTo(adj, p.mintA, p.mintB), p.mintB, p.mintA))
  {
    var more := AddTo(AddTo(adj, p.mintA, p.mintB), p.mintB, p.mintA);
    forall t ensures Touched(pools + [p], t) <==> Touched(pools, t) || p.Sides().Touches(t) {
      TouchedAppend(pools, p, t);
    }
    forall t, n ensures Linked(pools + [p], t, n) <==> Linked(pools, t, n) || Links(p, t, n) {
      LinkedAppend(pools, p, t, n);
    }
    forall t <- more, n ensures n in more[t] <==> Linked(pools + [p], t, n) {
      if Linked(pools, t, n) { LinkTouches(pools, t, n); }
    }
  }

  lemma TouchedAppend(pools: seq<Candidate>, p: Candidate, t: Mint)
    ensures Touched(pools + [p], t) <==> Touched(pools, t) || p.Sides().Touches(t)
  {
    if Touched(pools, t) {
      var q :| q in pools && q.Sides().Touches(t);
      assert q in pools + [p];
    }
    if p.Sides().Touches(t) { assert p in pools + [p]; }
  }

  lemma LinkedAppend(pools: seq<Candidate>, p: Candidate, x: Mint, y: Mint)
    ensures Linked(pools + [p], x, y) <==> Linked(pools, x, y) || Links(p, x, y)
  {
    if Linked(pools, x, y) {
      var q :| q in pools && Links(q, x, y);
      assert q in pools + [p];
    }
    if Links(p, x, y) { assert p in pools + [p]; }
  }

  lemma LinkTouches(pools: seq<Candidate>, x: Mint, y: Mint)
    requires Linked(pools, x, y)
    ensures Touched(pools, x) && Touched(pools, y)
  {
    var p :| p in pools && Links(p, x, y);
    assert p.Sides().Touches(x) && p.Sides().Touches(y);
  }

  lemma WalkOn(pools: seq<Candidate>, bases: set<Mint>, x: Mint, y: Mint)
    requires Reachable(pools, bases, x) && Linked(pools, x, y)
    ensures Reachable(pools, bases, y)
  {
    var walk :| IsWalk(pools, bases, walk) && Last(walk) == x;
    var more := walk + [y];
    assert Last(more) == y;
    forall i | 0 <= i < |more| - 1 ensures Linked(pools, more[i], more[i + 1]) {
      if i < |walk| - 1 { assert Linked(pools, walk[i], walk[i + 1]); }
    }
    assert IsWalk(pools, bases, more);
  }

  /** Everything a walk visits lies in any set that holds the traded bases and is closed under links. */
  lemma {:induction false} WalkStaysInside(pools: seq<Candidate>, bases: set<Mint>, walk: seq<Mint>, inside: set<Mint>)
    requires IsWalk(pools, bases, walk)
    requires forall b <- bases :: Touched(pools, b) ==> b in inside
    requires forall x <- inside, y :: Linked(pools, x, y) ==> y in inside
    ensures Last(walk) in inside
    decreases |walk|
  {
    if |walk| > 1 {
      var init := Init(walk);
      forall i | 0 <= i < |init| - 1 ensures Linked(pools, init[i], init[i + 1]) {
        assert Linked(pools, walk[i], walk[i + 1]);
      }
      WalkStaysInside(pools, bases, init, inside);
      assert Linked(pools, walk[|walk| - 2], walk[|walk| - 1]);
    }
  }

  /** The pools with both tokens in a set. */
  ghost function Between(pools: seq<Candidate>, seen: set<Mint>): set<Candidate> {
    set p | p in pools && p.mintA in seen && p.mintB in seen
  }

  ghost predicate Closed(pools: seq<Candidate>, seen: set<Mint>) {
    forall p <- pools :: p.mintA in seen <==> p.mintB in seen
  }

  method TradedBases(adj: map<Mint, seq<Mint>>, bases: set<Mint>) returns (stack: seq<Mint>)
    ensures forall b :: b in stack <==> b in bases && b in adj
  {
    stack := [];
    var todo := bases;
    while todo != {}
      invariant todo <= bases
      invariant forall b :: b in stack <==> b in bases && b !in todo && b in adj
    {
      var b :| b in todo;
      todo := todo - {b};
      if b in adj {
        stack := stack + [b];
      }
    }
  }

  /** A token of the graph that a base can reach. */
  ghost predicate CanReach(pools: seq<Candidate>, bases: set<Mint>, adj: map<Mint, seq<Mint>>, t: Mint) {
    t in adj && Reachable(pools, bases, t)
  }

  lemma NeighboursReachable(pools: seq<Candidate>, bases: set<Mint>, adj: map<Mint, seq<Mint>>, t: Mint)
    requires IsNeighbours(pools, adj) && CanReach(pools, bases, adj, t)
    ensures t in adj && forall n <- adj[t] :: CanReach(pools, bases, adj, n)
  {
    hide Reachable, Linked, Touched;
    forall n | n in adj[t] ensures CanReach(pools, bases, adj, n) {
      WalkOn(pools, bases, t, n);
      LinkTouches(pools, t, n);
    }
  }

  lemma BasesReachable(pools: seq<Candidate>, bases: set<Mint>, adj: map<Mint, seq<Mint>>)
    requires IsNeighbours(pools, adj)
    ensures forall b <- bases :: b in adj ==> CanReach(pools, bases, adj, b)
  {
    forall b | b in bases && b in adj ensures Reachable(pools, bases, b) {
      assert IsWalk(pools, bases, [b]) && Last([b]) == b;
    }
  }

  /** A reachable set that holds the traded bases and all its neighbours is the reachable set. */
  lemma ClosureIsReachable(pools: seq<Candidate>, bases: set<Mint>, adj: map<Mint, seq<Mint>>, seen: set<Mint>)
    requires IsNeighbours(pools, adj) && forall t <- seen :: CanReach(pools, bases, adj, t)
    requires forall b <- bases :: b in adj ==> b in seen
    requires forall x, y :: x in seen && x in adj && y in adj[x] ==> y in seen
    ensures forall t :: t in seen <==> Reachable(pools, bases, t)
    ensures Closed(pools, seen)
  {
    hide Linked, Touched;
    forall t | Reachable(pools, bases, t) ensures t in seen {
      var walk :| IsWalk(pools, bases, walk) && Last(walk) == t;
      WalkStaysInside(pools, bases, walk, seen);
    }
    forall p | p in pools ensures p.mintA in seen <==> p.mintB in seen {
      PoolLinks(pools, p);
    }
  }

  lemma PoolLinks(pools: seq<Candidate>, p: Candidate)
    requires p in pools
    ensures Linked(pools, p.mintA, p.mintB) && Linked(pools, p.mintB, p.mintA)
  {
    assert Links(p, p.mintA, p.mintB) && Links(p, p.mintB, p.mintA);
  }

  lemma OneMoreSeen(all: set<Mint>, seen: set<Mint>, t: Mint)
    requires t in all && t !in seen
    ensures |all - (seen + {t})| < |all - seen|
  {
    assert all - seen == (all - (seen + {t})) + {t};
  }

  /** The traded bases, and the neighbours of every seen token, are seen or still pending. */
  ghost predicate Covered(adj: map<Mint, seq<Mint>>, bases: set<Mint>, seen: set<Mint>, pending: seq<Mint>) {
    && (forall b <- bases :: b in adj ==> b in seen || b in pending)
    && (forall x, y :: x in seen && x in adj && y in adj[x] ==> y in seen || y in pending)
  }

  lemma InitAndLast<T>(xs: seq<T>)
    requires xs != []
    ensures |Init(xs)| < |xs|
    ensures forall x :: x in xs <==> x in Init(xs) || x == Last(xs)
  {
    assert xs == Init(xs) + [Last(xs)];
  }

  lemma CoveredAfter(adj: map<Mint, seq<Mint>>, bases: set<Mint>, seen: set<Mint>, stack: seq<Mint>, next: seq<Mint>)
    requires stack != [] && Covered(adj, bases, seen, stack) && Last(stack) in adj
    requires forall x <- Init(stack) :: x in next
    requires Last(stack) in seen || forall n <- adj[Last(stack)] :: n in seen || n == Last(stack) || n in next
    ensures Covered(adj, bases, seen + {Last(stack)}, next)
  {
    InitAndLast(stack);
  }

  /** A stack worklist from the traded bases: it ends with exactly the tokens reachable from one. */
  method ReachableTokens(pools: seq<Candidate>, bases: set<Mint>) returns (seen: set<Mint>)
    ensures forall t :: t in seen <==> Reachable(pools, bases, t)
    ensures Closed(pools, seen)
  {
    hide Reachable, IsNeighbours, Closed, CanReach, Covered, Init, Last;
    var adj := Neighbours(pools);
    seen := {};
    var stack := TradedBases(adj, bases);
    BasesReachable(pools, bases, adj);
    assert Covered(adj, bases, seen, stack) by { CoveredInitially(adj, bases, stack); }
    while stack != []
      invariant forall t <- seen :: CanReach(pools, bases, adj, t)
      invariant forall t <- stack :: CanReach(pools, bases, adj, t)
      invariant Covered(adj, bases, seen, stack)
      decreases |adj.Keys - seen|, |stack|
    {
      var t := Last(stack);
      InitAndLast(stack);
      NeighboursReachable(pools, bases, adj, t);
      ghost var before := stack;
      stack := Init(stack);
      if t in seen {
        CoveredAfter(adj, bases, seen, before, stack);
        assert seen + {t} == seen;
        continue;
      }
      OneMoreSeen(adj.Keys, seen, t);
      var next := PushUnseen(adj[t], seen + {t}, stack);
      CoveredAfter(adj, bases, seen, before, next);
      seen, stack := seen + {t}, next;
    }
    AllCovered(adj, bases, seen);
    ClosureIsReachable(pools, bases, adj, seen);
  }

  lemma CoveredInitially(adj: map<Mint, seq<Mint>>, bases: set<Mint>, stack: seq<Mint>)
    requires forall b <- bases :: b in adj ==> b in stack
    ensures Covered(adj, bases, {}, stack)
  {
  }

  lemma AllCovered(adj: map<Mint, seq<Mint>>, bases: set<Mint>, seen: set<Mint>)
    requires Covered(adj, bases, seen, [])
    ensures forall b <- bases :: b in adj ==> b in seen
    ensures forall x, y :: x in seen && x in adj && y in adj[x] ==> y in seen
  {
  }

  /** Pushing the neighbours not seen yet. */
  method PushUnseen(neighbours: seq<Mint>, seen: set<Mint>, stack: seq<Mint>) returns (r: seq<Mint>)
    ensures stack <= r
    ensures forall t :: t in r <==> t in stack || (t in neighbours && t !in seen)
  {
    r := stack;
    for i := 0 to |neighbours|
      invariant stack <= r
      invariant forall t :: t in r <==> t in stack || (t in neighbours[..i] && t !in seen)
    {
      if neighbours[i] !in seen {
        r := r + [neighbours[i]];
      }
    }
    assert neighbours[..|neighbours|] == neighbours;
  }

  /** The pools both of whose tokens a base can reach. */
  method KeepBaseConnected(pools: seq<Candidate>, bases: set<Mint>) returns (r: seq<Candidate>, ghost seen: set<Mint>)
    ensures r == Restrict(pools, Connected(pools, bases))
    ensures forall t :: t in seen <==> Reachable(pools, bases, t)
    ensures Connected(pools, bases) == Between(pools, seen) && Closed(pools, seen)
  {
    hide Reachable, Closed;
    var reached := ReachableTokens(pools, bases);
    seen := reached;
    r := Restrict(pools, set p | p in pools && p.mintA in reached && p.mintB in reached);
    assert Connected(pools, bases) == Between(pools, seen);
  }

  /** The pools both of whose tokens can be reached from a base. */
  ghost function Connected(pools: seq<Candidate>, bases: set<Mint>): set<Candidate> {
    set p | p in pools && Reachable(pools, bases, p.mintA) && Reachable(pools, bases, p.mintB)
  }
}
