/** One pass over the routes that changed: what is evaluated, published and remembered. */
module SearchPass {
  import opened Common
  import opened Arith
  import opened PoolGraph
  import opened CycleRoutes

  // ------------------------------------------------------------------ opportunities

  /** What an evaluation reports, as far as publishing looks at it. */
  datatype Opportunity = Opportunity(netProfit: nat, discoveredAtMs: nat)

  datatype Published = Published(at: nat, profit: nat)

  datatype EngineStats = EngineStats(searches: nat, routesEvaluated: nat, opportunities: nat, suppressedByCooldown: nat)

  /** Milliseconds since, on 64-bit clocks that may run backwards. */
  function Elapsed(now: nat, at: nat): nat {
    if at <= now then now - at else SatSub(U64_MAX + 1, at - now)
  }

  /** Within the cooldown only a quote more than 5% better is published. */
  predicate MayPublish(last: map<seq<Address>, Published>, cooldownMs: nat, key: seq<Address>, opp: Opportunity) {
    key in last && Elapsed(opp.discoveredAtMs, last[key].at) < cooldownMs ==>
      opp.netProfit > last[key].profit * 105 / 100
  }

  /** The first moment lies less than the cooldown before the second, on a clock of 64 bits. */
  predicate Recent(at: nat, now: nat, cooldownMs: nat) {
    0 < cooldownMs && (at <= now < at + cooldownMs || (now < at && now + 0x1_0000_0000_0000_0000 < at + cooldownMs))
  }

  /** A find that is not worth publishing again: the last publication is recent, and this is not more
      than 5% better. */
  predicate HeldBack(last: Published, opp: Opportunity, cooldownMs: nat) {
    Recent(last.at, opp.discoveredAtMs, cooldownMs) && opp.netProfit * 100 <= last.profit * 105
  }

  /** And only such a find is. */
  lemma PublishesUnlessHeldBack(last: map<seq<Address>, Published>, cooldownMs: nat, key: seq<Address>, opp: Opportunity)
    ensures MayPublish(last, cooldownMs, key, opp) <==> !(key in last && HeldBack(last[key], opp, cooldownMs))
  {
    if key in last {
      FiveMore(opp.netProfit, last[key].profit);
    }
  }

  lemma FiveMore(next: nat, last: nat)
    ensures next <= last * 105 / 100 <==> next * 100 <= last * 105
  {
  }

  /** The routes that use a dirty pool. */
  ghost function TouchedRoutes(routes: seq<CycleRoute>, dirty: set<Address>): set<nat> {
    set i: nat | i < |routes| && UsesAny(routes[i], dirty)
  }

  ghost predicate UsesAny(route: CycleRoute, dirty: set<Address>) {
    exists pool <- dirty :: pool in route.pools
  }

  /** One search: how routes evaluate on the present registry, and what was published before it. */
  datatype Pass = Pass(routes: seq<CycleRoute>, evaluate: CycleRoute -> Option<Opportunity>,
                       last: map<seq<Address>, Published>, cooldownMs: nat)
  {
    ghost predicate Finds(i: nat) {
      i < |routes| && evaluate(routes[i]).Some?
    }

    ghost predicate Publishes(i: nat) {
      Finds(i) && MayPublish(last, cooldownMs, routes[i].pools, evaluate(routes[i]).value)
    }

    ghost predicate Suppresses(i: nat) {
      Finds(i) && !MayPublish(last, cooldownMs, routes[i].pools, evaluate(routes[i]).value)
    }

    /** Of the routes taken, exactly those that find something and are not held back are emitted. */
    ghost predicate EmitsAllButHeldBack(of: set<nat>, from: seq<nat>) {
      forall i <- of :: Finds(i) ==>
        (i !in from <==> routes[i].pools in last && HeldBack(last[routes[i].pools], evaluate(routes[i]).value, cooldownMs))
    }

    ghost function Suppressed(of: set<nat>): set<nat> {
      set i | i in of && Suppresses(i)
    }

    /** The opportunities of the routes in `from`, which are those of `of` that publish, each once. */
    ghost predicate Emits(of: set<nat>, from: seq<nat>, out: seq<Opportunity>) {
      && |from| == |out| && Distinct(from)
      && (forall i: nat :: i in from <==> i in of && Publishes(i))
      && (forall k :: 0 <= k < |out| ==> Finds(from[k]) && evaluate(routes[from[k]]).value == out[k])
    }

    /** What is now remembered: the published routes' new quotes, and otherwise what was. */
    ghost predicate Remembers(from: seq<nat>, now: map<seq<Address>, Published>) {
      && (forall i <- from :: Finds(i) && routes[i].pools in now && now[routes[i].pools] == Noted(evaluate(routes[i]).value))
      && (forall key :: AsBefore(now, key) || IsKeyOf(from, key))
    }

    ghost predicate AsBefore(now: map<seq<Address>, Published>, key: seq<Address>) {
      (key in now <==> key in last) && (key in now ==> now[key] == last[key])
    }

    ghost predicate IsKeyOf(from: seq<nat>, key: seq<Address>) {
      exists i <- from :: Finds(i) && routes[i].pools == key
    }
  }

  function Noted(opp: Opportunity): Published {
    Published(opp.discoveredAtMs, opp.netProfit)
  }

  // ------------------------------------------------------------------ steps of a search

  lemma PassStarts(pass: Pass)
    ensures pass.Emits({}, [], []) && pass.Remembers([], pass.last) && pass.Suppressed({}) == {}
  {
  }

  lemma NothingTouched(routes: seq<CycleRoute>)
    ensures TouchedRoutes(routes, {}) == {}
  {
  }

  lemma TouchedOneMore(routes: seq<CycleRoute>, byPool: map<Address, seq<nat>>, drained: set<Address>, pool: Address)
    requires IsInverse(routes, byPool)
    ensures TouchedRoutes(routes, drained + {pool})
         == TouchedRoutes(routes, drained) + if pool in byPool then set i | i in byPool[pool] else {}
  {
    var listed: set<nat> := if pool in byPool then set i | i in byPool[pool] else {};
    forall i: nat
      ensures i in TouchedRoutes(routes, drained + {pool}) <==> i in TouchedRoutes(routes, drained) || i in listed
    {
      assert i in listed <==> OnList(byPool, pool, i);
      if i < |routes| && UsesAny(routes[i], drained) {
        assert UsesAny(routes[i], drained + {pool});
      }
    }
  }

  lemma SuppressedOneMore(pass: Pass, done: set<nat>, idx: nat)
    requires idx !in done
    ensures |pass.Suppressed(done + {idx})| == |pass.Suppressed(done)| + if pass.Suppresses(idx) then 1 else 0
  {
    hide Pass.Suppresses;
    if pass.Suppresses(idx) {
      assert pass.Suppressed(done + {idx}) == pass.Suppressed(done) + {idx};
    } else {
      assert pass.Suppressed(done + {idx}) == pass.Suppressed(done);
    }
  }

  /** A route not yet taken still meets the memory it would have met at the start. */
  lemma StillAsBefore(pass: Pass, done: set<nat>, from: seq<nat>, out: seq<Opportunity>,
                      now: map<seq<Address>, Published>, idx: nat)
    requires KeysDiffer(pass.routes) && pass.Emits(done, from, out) && pass.Remembers(from, now)
    requires idx !in done && pass.Finds(idx)
    ensures pass.AsBefore(now, pass.routes[idx].pools)
    ensures var opp := pass.evaluate(pass.routes[idx]).value;
            pass.Publishes(idx) <==> MayPublish(now, pass.cooldownMs, pass.routes[idx].pools, opp)
  {
    forall i <- from ensures !(pass.Finds(i) && pass.routes[i].pools == pass.routes[idx].pools) {
      assert i in done;
      if pass.Finds(i) {
        assert pass.routes[Min(i, idx)].pools != pass.routes[Max(i, idx)].pools;
      }
    }
    assert !pass.IsKeyOf(from, pass.routes[idx].pools);
  }

  lemma EmittedOrHeldBack(pass: Pass, of: set<nat>, from: seq<nat>, out: seq<Opportunity>)
    requires pass.Emits(of, from, out)
    ensures pass.EmitsAllButHeldBack(of, from)
  {
    hide MayPublish, HeldBack;
    forall i | i in of && pass.Finds(i)
      ensures i !in from <==> pass.routes[i].pools in pass.last
                              && HeldBack(pass.last[pass.routes[i].pools], pass.evaluate(pass.routes[i]).value, pass.cooldownMs)
    {
      PublishesUnlessHeldBack(pass.last, pass.cooldownMs, pass.routes[i].pools, pass.evaluate(pass.routes[i]).value);
    }
  }

  lemma SilentNext(pass: Pass, done: set<nat>, from: seq<nat>, out: seq<Opportunity>, idx: nat)
    requires pass.Emits(done, from, out) && !pass.Publishes(idx)
    ensures pass.Emits(done + {idx}, from, out)
  {
    hide Pass.Publishes;
  }

  lemma EmitsNext(pass: Pass, done: set<nat>, from: seq<nat>, out: seq<Opportunity>, idx: nat)
    requires pass.Emits(done, from, out) && pass.Publishes(idx) && idx !in done
    ensures pass.Emits(done + {idx}, from + [idx], out + [pass.evaluate(pass.routes[idx]).value])
  {
    hide MayPublish;
    var more := from + [idx];
    forall i: nat ensures i in more <==> i in done + {idx} && pass.Publishes(i) {
      assert i in more <==> i in from || i == idx;
    }
  }

  lemma RemembersNext(pass: Pass, from: seq<nat>, now: map<seq<Address>, Published>, idx: nat)
    requires KeysDiffer(pass.routes) && pass.Remembers(from, now) && pass.Finds(idx) && idx !in from
    ensures var route := pass.routes[idx];
            pass.Remembers(from + [idx], now[route.pools := Noted(pass.evaluate(route).value)])
  {
    hide Noted;
    var route, more := pass.routes[idx], from + [idx];
    var memory := now[route.pools := Noted(pass.evaluate(route).value)];
    forall i | i in more
      ensures pass.Finds(i) && pass.routes[i].pools in memory
      ensures memory[pass.routes[i].pools] == Noted(pass.evaluate(pass.routes[i]).value)
    {
      if i != idx {
        assert i in from && pass.Finds(i);
        assert pass.routes[Min(i, idx)].pools != pass.routes[Max(i, idx)].pools;
      }
    }
    forall key ensures pass.AsBefore(memory, key) || pass.IsKeyOf(more, key) {
      if key == route.pools {
        assert idx in more;
      } else if !pass.AsBefore(memory, key) {
        assert !pass.AsBefore(now, key);
        assert pass.IsKeyOf(from, key);
        var i :| i in from && pass.Finds(i) && pass.routes[i].pools == key;
        assert i in more;
      }
    }
  }

  /** Taking a route that found something: published and remembered, or not. */
  lemma PublishedNext(pass: Pass, done: set<nat>, from: seq<nat>, out: seq<Opportunity>,
                      now: map<seq<Address>, Published>, idx: nat)
    requires KeysDiffer(pass.routes) && pass.Emits(done, from, out) && pass.Remembers(from, now)
    requires idx !in done && pass.Finds(idx)
    ensures var opp := pass.evaluate(pass.routes[idx]).value;
            if pass.Publishes(idx) then
              && pass.Emits(done + {idx}, from + [idx], out + [opp])
              && pass.Remembers(from + [idx], now[pass.routes[idx].pools := Noted(opp)])
            else pass.Emits(done + {idx}, from, out)
  {
    hide Pass.Publishes, Pass.Remembers;
    assert idx !in from;
    if pass.Publishes(idx) {
      EmitsNext(pass, done, from, out, idx);
      RemembersNext(pass, from, now, idx);
    } else {
      SilentNext(pass, done, from, out, idx);
    }
  }

  // ------------------------------------------------------------------ what a run publishes

  /** The clock of the publications does not run backwards. */
  ghost predicate Forward(log: seq<Published>) {
    forall i, j :: 0 <= i < j < |log| ==> log[i].at <= log[j].at
  }

  /** The quotes published for one route, oldest first, on a clock that does not run backwards. */
  ghost predicate GatedLog(log: seq<Published>, cooldownMs: nat) {
    && Forward(log)
    && (forall k :: 0 <= k && k + 1 < |log| ==> Gated(log[k], log[k + 1], cooldownMs))
  }

  /** One publication may follow another. */
  predicate Gated(earlier: Published, later: Published, cooldownMs: nat) {
    Elapsed(later.at, earlier.at) < cooldownMs ==> later.profit > earlier.profit * 105 / 100
  }

  lemma GatedUnlessHeldBack(earlier: Published, opp: Opportunity, cooldownMs: nat)
    ensures Gated(earlier, Noted(opp), cooldownMs) <==> !HeldBack(earlier, opp, cooldownMs)
  {
    FiveMore(opp.netProfit, earlier.profit);
  }

  /** The gate compares with the last publication only, yet over a whole run any two publications of
      a route within the cooldown of each other are more than 5% apart. */
  lemma {:induction false} GateHoldsAcross(log: seq<Published>, cooldownMs: nat, i: nat, j: nat)
    requires GatedLog(log, cooldownMs) && i < j < |log|
    ensures Gated(log[i], log[j], cooldownMs)
    decreases j - i
  {
    if i + 1 < j {
      GateHoldsAcross(log, cooldownMs, i, j - 1);
      assert Gated(log[j - 1], log[j], cooldownMs);
      assert log[i].at <= log[j - 1].at <= log[j].at;
    } else {
      assert j == i + 1;
    }
  }

  /** And publishing is what extends such a log. */
  lemma PublishExtendsLog(log: seq<Published>, last: map<seq<Address>, Published>, cooldownMs: nat,
                          key: seq<Address>, opp: Opportunity)
    requires GatedLog(log, cooldownMs) && MayPublish(last, cooldownMs, key, opp)
    requires log != [] ==> key in last && last[key] == Last(log) && Last(log).at <= opp.discoveredAtMs
    ensures GatedLog(log + [Noted(opp)], cooldownMs)
  {
    var more := log + [Noted(opp)];
    forall k | 0 <= k && k + 1 < |more| ensures Gated(more[k], more[k + 1], cooldownMs) {
      if k + 1 < |log| { assert Gated(log[k], log[k + 1], cooldownMs); }
    }
  }

  /** One pass of a run: which routes were taken, and which of them published. */
  datatype RunStep = RunStep(pass: Pass, of: set<nat>, from: seq<nat>)

  /** A run of the engine: searches of the same routes, one after the other, the first with nothing
      remembered and each with what the one before it left; `now` is what the last one left. */
  ghost predicate IsRun(routes: seq<CycleRoute>, cooldownMs: nat, steps: seq<RunStep>, now: map<seq<Address>, Published>) {
    if steps == [] then now == map[]
    else
      var (pass, from) := (Last(steps).pass, Last(steps).from);
      && pass.routes == routes && pass.cooldownMs == cooldownMs
      && IsRun(routes, cooldownMs, Init(steps), pass.last)
      && (forall i: nat :: i in from <==> i in Last(steps).of && pass.Publishes(i)) && pass.Remembers(from, now)
  }

  /** An update of a pool, and how routes evaluate from then on. */
  type Update = (Address, CycleRoute -> Option<Opportunity>)

  /** The updates of pools that are on a route. */
  ghost function OfRoutes(routes: seq<CycleRoute>, updates: seq<Update>): seq<Update> {
    if updates == [] then []
    else OfRoutes(routes, Init(updates)) + if OnRoute(routes, Last(updates).0) then [Last(updates)] else []
  }

  /** Each of them got its own search, of all the routes through the pool; the first also of those
      that had been left dirty. */
  ghost predicate Follow(routes: seq<CycleRoute>, leftDirty: set<Address>, updates: seq<Update>, steps: seq<RunStep>) {
    && |steps| == |updates|
    && forall k :: 0 <= k < |steps| ==>
         && steps[k].pass.evaluate == updates[k].1
         && steps[k].of == TouchedRoutes(routes, {updates[k].0} + if k == 0 then leftDirty else {})
  }

  lemma NothingToFollow(routes: seq<CycleRoute>, leftDirty: set<Address>)
    ensures Follow(routes, leftDirty, OfRoutes(routes, []), [])
  {
  }

  lemma FollowNext(routes: seq<CycleRoute>, leftDirty: set<Address>, updates: seq<Update>, n: nat, steps: seq<RunStep>,
                   step: RunStep)
    requires n < |updates| && Follow(routes, leftDirty, OfRoutes(routes, updates[..n]), steps)
    ensures var next := OfRoutes(routes, updates[..n + 1]);
            if !OnRoute(routes, updates[n].0) then next == OfRoutes(routes, updates[..n])
            else step.pass.evaluate == updates[n].1
                 && step.of == TouchedRoutes(routes, {updates[n].0} + if steps == [] then leftDirty else {})
                 ==> Follow(routes, leftDirty, next, steps + [step])
  {
    hide TouchedRoutes, OnRoute;
    assert Init(updates[..n + 1]) == updates[..n];
  }

  lemma EmptyRun(routes: seq<CycleRoute>, cooldownMs: nat)
    ensures IsRun(routes, cooldownMs, [], map[])
  {
  }

  /** A search extends a run. */
  lemma SearchExtendsRun(routes: seq<CycleRoute>, cooldownMs: nat, steps: seq<RunStep>, pass: Pass, of: set<nat>,
                         from: seq<nat>, out: seq<Opportunity>, now: map<seq<Address>, Published>)
    requires pass.routes == routes && pass.cooldownMs == cooldownMs && IsRun(routes, cooldownMs, steps, pass.last)
    requires pass.Emits(of, from, out) && pass.Remembers(from, now)
    ensures IsRun(routes, cooldownMs, steps + [RunStep(pass, of, from)], now)
    ensures AllPublished(steps + [RunStep(pass, of, from)]) == AllPublished(steps) + out
  {
    hide Pass.Remembers, Pass.Publishes;
    var more := steps + [RunStep(pass, of, from)];
    assert Init(more) == steps && Last(more) == RunStep(pass, of, from);
    assert PassPublished(pass, from) == out;
  }

  /** All a run published. */
  ghost function AllPublished(steps: seq<RunStep>): seq<Opportunity> {
    if steps == [] then [] else AllPublished(Init(steps)) + PassPublished(Last(steps).pass, Last(steps).from)
  }

  ghost function PassPublished(pass: Pass, from: seq<nat>): seq<Opportunity> {
    seq(|from|, k requires 0 <= k < |from| =>
      if pass.Finds(from[k]) then pass.evaluate(pass.routes[from[k]]).value else Opportunity(0, 0))
  }

  /** What a run published of one route, oldest first. */
  ghost function LogOf(steps: seq<RunStep>, r: nat): seq<Published> {
    if steps == [] then []
    else
      var (pass, from) := (Last(steps).pass, Last(steps).from);
      LogOf(Init(steps), r) + if r in from && pass.Finds(r) then [Noted(pass.evaluate(pass.routes[r]).value)] else []
  }

  /** The engine remembers of a route its last publication. */
  lemma {:induction false} RunRemembersLast(routes: seq<CycleRoute>, cooldownMs: nat, steps: seq<RunStep>,
                                            now: map<seq<Address>, Published>, r: nat)
    requires IsRun(routes, cooldownMs, steps, now) && KeysDiffer(routes) && r < |routes|
    ensures var log, key := LogOf(steps, r), routes[r].pools;
            if log == [] then key !in now else key in now && now[key] == Last(log)
    decreases |steps|
  {
    hide MayPublish;
    if steps != [] {
      var (pass, from) := (Last(steps).pass, Last(steps).from);
      RunRemembersLast(routes, cooldownMs, Init(steps), pass.last, r);
      if r in from {
        assert pass.Publishes(r);
      } else {
        OtherKeysStay(pass, from, now, r);
      }
    }
  }

  /** Over any run, the publications of a route form a gated log. */
  lemma {:induction false} RunIsGated(routes: seq<CycleRoute>, cooldownMs: nat, steps: seq<RunStep>,
                                      now: map<seq<Address>, Published>, r: nat)
    requires IsRun(routes, cooldownMs, steps, now) && KeysDiffer(routes) && r < |routes| && Forward(LogOf(steps, r))
    ensures GatedLog(LogOf(steps, r), cooldownMs)
    ensures var log, key := LogOf(steps, r), routes[r].pools;
            if log == [] then key !in now else key in now && now[key] == Last(log)
    decreases |steps|
  {
    hide MayPublish;
    RunRemembersLast(routes, cooldownMs, steps, now, r);
    if steps != [] {
      var (pass, from) := (Last(steps).pass, Last(steps).from);
      var before, key := LogOf(Init(steps), r), routes[r].pools;
      ForwardInit(before, LogOf(steps, r));
      RunIsGated(routes, cooldownMs, Init(steps), pass.last, r);
      if r in from {
        assert pass.Publishes(r);
        var opp := pass.evaluate(routes[r]).value;
        assert LogOf(steps, r) == before + [Noted(opp)];
        PublishExtendsLog(before, pass.last, cooldownMs, key, opp);
      } else {
        assert LogOf(steps, r) == before;
      }
    }
  }

  /** And nothing else is kept back: whenever a route that was taken finds something that is not
      published, its last publication was recent and not more than 5% worse. */
  lemma {:induction false} RunHoldsBackOnlyRepeats(routes: seq<CycleRoute>, cooldownMs: nat, steps: seq<RunStep>,
                                                   now: map<seq<Address>, Published>, n: nat, r: nat)
    requires IsRun(routes, cooldownMs, steps, now) && KeysDiffer(routes)
    requires n < |steps| && r in steps[n].of && steps[n].pass.Finds(r) && r !in steps[n].from
    ensures steps[n].pass.routes == routes
    ensures var log := LogOf(steps[..n], r);
            log != [] && HeldBack(Last(log), steps[n].pass.evaluate(routes[r]).value, cooldownMs)
    decreases |steps|
  {
    hide MayPublish, HeldBack, LogOf, Pass.Remembers;
    var pass, init := Last(steps).pass, Init(steps);
    if n == |init| {
      assert steps[..n] == init && steps[n] == Last(steps);
      RunRemembersLast(routes, cooldownMs, init, pass.last, r);
      PublishesUnlessHeldBack(pass.last, cooldownMs, routes[r].pools, pass.evaluate(routes[r]).value);
    } else {
      assert steps[..n] == init[..n] && steps[n] == init[n];
      RunHoldsBackOnlyRepeats(routes, cooldownMs, init, pass.last, n, r);
    }
  }

  lemma ForwardInit(some: seq<Published>, all: seq<Published>)
    requires some <= all && Forward(all)
    ensures Forward(some) && (some != [] && |all| > |some| ==> Last(some).at <= all[|some|].at)
  {
  }

  lemma OtherKeysStay(pass: Pass, from: seq<nat>, now: map<seq<Address>, Published>, r: nat)
    requires KeysDiffer(pass.routes) && pass.Remembers(from, now) && r < |pass.routes| && r !in from
    ensures pass.AsBefore(now, pass.routes[r].pools)
  {
    forall i <- from ensures !(pass.Finds(i) && pass.routes[i].pools == pass.routes[r].pools) {
      if pass.Finds(i) {
        assert pass.routes[Min(i, r)].pools != pass.routes[Max(i, r)].pools;
      }
    }
    assert !pass.IsKeyOf(from, pass.routes[r].pools);
  }

  /** So any two publications of a route within the cooldown of each other, however far apart in the
      run, are more than 5% apart. */
  lemma RunNeverSpams(routes: seq<CycleRoute>, cooldownMs: nat, steps: seq<RunStep>,
                      now: map<seq<Address>, Published>, r: nat, i: nat, j: nat)
    requires IsRun(routes, cooldownMs, steps, now) && KeysDiffer(routes) && r < |routes| && Forward(LogOf(steps, r))
    requires i < j < |LogOf(steps, r)|
    ensures Gated(LogOf(steps, r)[i], LogOf(steps, r)[j], cooldownMs)
  {
    hide IsRun, LogOf, KeysDiffer;
    RunIsGated(routes, cooldownMs, steps, now, r);
    GateHoldsAcross(LogOf(steps, r), cooldownMs, i, j);
  }
}
