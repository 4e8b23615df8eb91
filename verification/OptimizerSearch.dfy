/** The whole size search: coarse grid, refinement of the best points, boundary probes, and the
    profit gate. The grids are any strictly increasing lists of sizes.
 */
module OptimizerSearch {
  import opened Common
  import opened Arith
  import opened Cost
  import opened Route
  import opened Optimizer

  datatype SizeGrid = SizeGrid(min: nat, max: nat, refineTopK: nat, refineIters: nat)

  ghost predicate IsGrid(points: seq<nat>, grid: SizeGrid) {
    && grid.min <= grid.max && points != []
    && (forall i :: 0 <= i < |points| ==> grid.min <= points[i] <= grid.max)
    && (forall i, j :: 0 <= i < j < |points| ==> points[i] < points[j])
  }

  // ------------------------------------------------------------------ sorted lists

  /** A size with its grid position and score. */
  datatype Scored = Scored(idx: nat, amount: nat, score: int)

  function InsertByScore(s: Scored, sorted: seq<Scored>): seq<Scored> {
    if sorted == [] || s.score >= sorted[0].score then [s] + sorted
    else [sorted[0]] + InsertByScore(s, sorted[1..])
  }

  /** Best score first, equal scores in their original order. */
  function SortByScore(xs: seq<Scored>): seq<Scored> {
    if xs == [] then [] else InsertByScore(xs[0], SortByScore(xs[1..]))
  }

  lemma {:induction false} InsertKeeps(s: Scored, sorted: seq<Scored>)
    ensures multiset(InsertByScore(s, sorted)) == multiset{s} + multiset(sorted)
    ensures var r := InsertByScore(s, sorted);
            r != [] && r[0] == if sorted == [] || s.score >= sorted[0].score then s else sorted[0]
  {
    if sorted != [] && s.score < sorted[0].score {
      InsertKeeps(s, sorted[1..]);
      assert sorted == [sorted[0]] + sorted[1..];
    }
  }

  lemma {:induction false} SortKeeps(xs: seq<Scored>)
    ensures multiset(SortByScore(xs)) == multiset(xs)
    ensures xs != [] ==> SortByScore(xs) != [] && forall x <- xs :: x.score <= SortByScore(xs)[0].score
  {
    if xs != [] {
      SortKeeps(xs[1..]);
      InsertKeeps(xs[0], SortByScore(xs[1..]));
      assert xs == [xs[0]] + xs[1..];
      assert xs[1..] == [] ==> SortByScore(xs[1..]) == [];
    }
  }

  /** The order of the search: a better score, or the same at a smaller size. */
  predicate Precedes(a: Scored, b: Scored) {
    a.score > b.score || (a.score == b.score && a.idx < b.idx)
  }

  ghost predicate Ranked(xs: seq<Scored>) {
    forall i, j :: 0 <= i < j < |xs| ==> Precedes(xs[i], xs[j])
  }

  lemma RankedCons(head: Scored, rest: seq<Scored>)
    requires Ranked(rest) && forall t <- rest :: Precedes(head, t)
    ensures Ranked([head] + rest)
  {
    hide Precedes;
  }

  lemma {:induction false} InsertRanked(s: Scored, sorted: seq<Scored>)
    requires Ranked(sorted) && forall t <- sorted :: s.idx < t.idx
    ensures Ranked(InsertByScore(s, sorted))
  {
    if sorted != [] && s.score < sorted[0].score {
      var rest := InsertByScore(s, sorted[1..]);
      InsertRanked(s, sorted[1..]);
      InsertKeeps(s, sorted[1..]);
      forall t | t in rest ensures Precedes(sorted[0], t) {
        assert t in multiset(rest);
      }
      RankedCons(sorted[0], rest);
    } else {
      forall t | t in sorted ensures Precedes(s, t) {
        var k :| 0 <= k < |sorted| && sorted[k] == t;
        assert k == 0 || Precedes(sorted[0], sorted[k]);
      }
      RankedCons(s, sorted);
    }
  }

  lemma {:induction false} SortRanked(xs: seq<Scored>)
    requires InGridOrder(xs)
    ensures Ranked(SortByScore(xs))
  {
    if xs != [] {
      SortRanked(xs[1..]);
      SortKeeps(xs[1..]);
      forall t | t in SortByScore(xs[1..]) ensures xs[0].idx < t.idx {
        assert t in multiset(xs[1..]);
      }
      InsertRanked(xs[0], SortByScore(xs[1..]));
    }
  }

  lemma {:induction false} SubsetIsSmaller(some: set<nat>, all: set<nat>)
    requires some <= all
    ensures |some| <= |all|
  {
    if some != {} {
      var x :| x in some;
      SubsetIsSmaller(some - {x}, all - {x});
    }
  }

  ghost function FirstIdxs(xs: seq<Scored>, n: nat): set<nat>
    requires n <= |xs|
  {
    set k | 0 <= k < n :: xs[k].idx
  }

  lemma {:induction false} FirstIdxsDiffer(xs: seq<Scored>, n: nat)
    requires n <= |xs| && forall i, j :: 0 <= i < j < |xs| ==> xs[i].idx != xs[j].idx
    ensures |FirstIdxs(xs, n)| == n
  {
    if n > 0 {
      FirstIdxsDiffer(xs, n - 1);
      assert FirstIdxs(xs, n) == FirstIdxs(xs, n - 1) + {xs[n - 1].idx};
    }
  }

  function InsertUnique(x: nat, sorted: seq<nat>): seq<nat> {
    if sorted == [] || x < sorted[0] then [x] + sorted
    else if x == sorted[0] then sorted
    else [sorted[0]] + InsertUnique(x, sorted[1..])
  }

  function SortDedup(xs: seq<nat>): seq<nat> {
    if xs == [] then [] else InsertUnique(xs[0], SortDedup(xs[1..]))
  }

  ghost predicate Rising(xs: seq<nat>) {
    forall i, j :: 0 <= i < j < |xs| ==> xs[i] < xs[j]
  }

  lemma {:induction false} InsertUniqueKeeps(x: nat, sorted: seq<nat>)
    ensures forall y :: y in InsertUnique(x, sorted) <==> y == x || y in sorted
    ensures Rising(sorted) ==> Rising(InsertUnique(x, sorted))
  {
    if sorted != [] && x > sorted[0] {
      InsertUniqueKeeps(x, sorted[1..]);
      assert sorted == [sorted[0]] + sorted[1..];
      var rest := InsertUnique(x, sorted[1..]);
      forall k | Rising(sorted) && 0 <= k < |rest| ensures sorted[0] < rest[k] {
        assert rest[k] in rest;
      }
    }
  }

  lemma {:induction false} SortDedupKeeps(xs: seq<nat>)
    ensures (forall y :: y in SortDedup(xs) <==> y in xs) && Rising(SortDedup(xs))
  {
    if xs != [] {
      SortDedupKeeps(xs[1..]);
      InsertUniqueKeeps(xs[0], SortDedup(xs[1..]));
      assert xs == [xs[0]] + xs[1..];
    }
  }

  // ------------------------------------------------------------------ boundary probes

  /** Gross profit has reached the threshold; nothing where the size cannot be traded. */
  function Reached(p: Problem, amount: nat, threshold: nat): Option<bool>
    requires p.route.Ready()
  {
    match GrossAt(p, amount)
    case None => None
    case Some(g) => Some(g >= threshold)
  }

  ghost predicate AllTradable(p: Problem, lo: nat, hi: nat)
    requires p.route.Ready()
  {
    forall a: nat :: lo <= a <= hi ==> GrossAt(p, a).Some?
  }

  /** The list probes both sides of a crossing of the threshold between `a0` and `a1`; side by side
      when everything between can be traded and the bracket is narrow enough. */
  ghost predicate FlipProbed(p: Problem, a0: nat, a1: nat, threshold: nat, out: seq<nat>)
    requires p.route.Ready()
  {
    exists lo <- out, hi <- out ::
      && a0 <= lo < hi <= a1
      && Reached(p, lo, threshold) == Reached(p, a0, threshold)
      && Reached(p, hi, threshold) == Reached(p, a1, threshold)
      && (AllTradable(p, a0, a1) && a1 - a0 <= 0x1_0000_0000_0000 ==> hi == lo + 1)
  }

  ghost predicate Flips(p: Problem, a0: nat, a1: nat, threshold: nat)
    requires p.route.Ready()
  {
    var r0, r1 := Reached(p, a0, threshold), Reached(p, a1, threshold);
    r0.Some? && r1.Some? && r0.value != r1.value
  }

  lemma TradableIsReached(p: Problem, a0: nat, a1: nat, amount: nat, threshold: nat)
    requires p.route.Ready() && a0 <= amount <= a1
    ensures AllTradable(p, a0, a1) ==> Reached(p, amount, threshold).Some?
  {
    hide GrossAt;
  }

  /** Bisection of one flip. */
  method BisectFlip(p: Problem, a0: nat, a1: nat, threshold: nat) returns (lo: nat, hi: nat)
    requires p.route.Ready() && a0 < a1 && Flips(p, a0, a1, threshold)
    ensures FlipProbed(p, a0, a1, threshold, [lo, hi]) && a0 <= lo < hi <= a1
  {
    hide Reached, AllTradable;
    lo, hi := a0, a1;
    StepsSuffice();
    var p0 := Reached(p, a0, threshold).value;
    assert Reached(p, a1, threshold) == Some(!p0);
    for i := 0 to BISECT_STEPS
      invariant a0 <= lo < hi <= a1
      invariant Reached(p, lo, threshold) == Some(p0) && Reached(p, hi, threshold) == Reached(p, a1, threshold)
      invariant AllTradable(p, a0, a1) && a1 - a0 <= 0x1_0000_0000_0000 ==> hi - lo <= Pow2(BISECT_STEPS - i)
    {
      if hi - lo <= 1 {
        break;
      }
      var mid := lo + (hi - lo) / 2;
      var at := Reached(p, mid, threshold);
      TradableIsReached(p, a0, a1, mid, threshold);
      if at.None? {
        break;
      }
      if at.value == p0 {
        lo := mid;
      } else {
        hi := mid;
      }
    }
    assert lo in [lo, hi] && hi in [lo, hi];
  }

  lemma FlipProbedMono(p: Problem, a0: nat, a1: nat, threshold: nat, some: seq<nat>, more: seq<nat>)
    requires p.route.Ready() && FlipProbed(p, a0, a1, threshold, some) && forall a <- some :: a in more
    ensures FlipProbed(p, a0, a1, threshold, more)
  {
    hide Reached, AllTradable;
    var lo, hi :| lo in some && hi in some
      && a0 <= lo < hi <= a1
      && Reached(p, lo, threshold) == Reached(p, a0, threshold)
      && Reached(p, hi, threshold) == Reached(p, a1, threshold)
      && (AllTradable(p, a0, a1) && a1 - a0 <= 0x1_0000_0000_0000 ==> hi == lo + 1);
    assert lo in more && hi in more;
  }

  /** Every crossing of the threshold seen between neighbouring grid points is probed. */
  ghost predicate FlipsProbed(p: Problem, points: seq<nat>, threshold: nat, out: seq<nat>)
    requires p.route.Ready()
  {
    forall i :: 0 <= i < |points| - 1 && Flips(p, points[i], points[i + 1], threshold) ==>
      FlipProbed(p, points[i], points[i + 1], threshold, out)
  }

  lemma FlipsProbedMono(p: Problem, points: seq<nat>, threshold: nat, some: seq<nat>, more: seq<nat>)
    requires p.route.Ready() && FlipsProbed(p, points, threshold, some) && forall a <- some :: a in more
    ensures FlipsProbed(p, points, threshold, more)
  {
    hide FlipProbed, Flips;
    forall i | 0 <= i < |points| - 1 && Flips(p, points[i], points[i + 1], threshold)
      ensures FlipProbed(p, points[i], points[i + 1], threshold, more)
    {
      FlipProbedMono(p, points[i], points[i + 1], threshold, some, more);
    }
  }

  ghost predicate TopIsTooBig(p: Problem, grid: SizeGrid)
    requires p.route.Ready() && grid.min <= grid.max
  {
    && GrossAt(p, grid.max).None? && GrossAt(p, grid.min).Some?
    && grid.max - grid.min <= 0x100_0000_0000
  }

  /** An edge of the tradable sizes; the largest of them where smaller sizes trade too. */
  ghost predicate IsCeiling(p: Problem, grid: SizeGrid, good: nat)
    requires p.route.Ready()
  {
    && GrossAt(p, good).Some? && GrossAt(p, good + 1).None?
    && (DownwardClosed(p, grid.min, grid.max) ==>
          forall x: nat :: grid.min <= x <= grid.max ==> (Score(p, x).Some? <==> x <= good))
  }

  /** The sizes worth an explicit probe: both ends, the ceiling of the tradable sizes when the top
      one is not tradable, and both sides of every tip-tier crossing seen on the grid. */
  ghost predicate CoversBoundaries(p: Problem, grid: SizeGrid, points: seq<nat>, out: seq<nat>)
    requires p.route.Ready() && grid.min <= grid.max
  {
    && grid.min in out && grid.max in out && (forall a <- out :: grid.min <= a <= grid.max) && Rising(out)
    && (TopIsTooBig(p, grid) ==> exists good <- out :: IsCeiling(p, grid, good))
    && (forall k :: 0 <= k < |TIP_TIER_THRESHOLDS| ==> FlipsProbed(p, points, TIP_TIER_THRESHOLDS[k], out))
  }

  /** All flips of one threshold. */
  method ProbeThreshold(p: Problem, grid: SizeGrid, points: seq<nat>, threshold: nat, before: seq<nat>)
    returns (out: seq<nat>)
    requires p.route.Ready() && IsGrid(points, grid)
    requires forall a <- before :: grid.min <= a <= grid.max
    ensures before <= out && (forall a <- out :: grid.min <= a <= grid.max)
    ensures FlipsProbed(p, points, threshold, out)
  {
    hide GrossAt, Reached, FlipProbed;
    out := before;
    for w := 0 to |points| - 1
      invariant before <= out && (forall a <- out :: grid.min <= a <= grid.max)
      invariant forall i :: 0 <= i < w && Flips(p, points[i], points[i + 1], threshold) ==>
                  FlipProbed(p, points[i], points[i + 1], threshold, out)
    {
      var r0, r1 := Reached(p, points[w], threshold), Reached(p, points[w + 1], threshold);
      if r0.None? || r1.None? || r0.value == r1.value {
        continue;
      }
      var lo, hi := BisectFlip(p, points[w], points[w + 1], threshold);
      ghost var earlier := out;
      out := out + [lo, hi];
      FlipProbedMono(p, points[w], points[w + 1], threshold, [lo, hi], out);
      forall i | 0 <= i < w && Flips(p, points[i], points[i + 1], threshold)
        ensures FlipProbed(p, points[i], points[i + 1], threshold, out)
      {
        FlipProbedMono(p, points[i], points[i + 1], threshold, earlier, out);
      }
    }
  }

  method BoundaryCandidates(p: Problem, grid: SizeGrid, points: seq<nat>) returns (out: seq<nat>)
    requires p.route.Ready() && IsGrid(points, grid)
    ensures CoversBoundaries(p, grid, points, out)
  {
    hide GrossAt, Score, FlipProbed, Flips, DownwardClosed;
    out := [grid.min, grid.max];
    ghost var ceiling: Option<nat> := None;
    if GrossAt(p, grid.max).None? && GrossAt(p, grid.min).Some? {
      ScoreOfGross(p, grid.min);
      ScoreOfGross(p, grid.max);
      var good := ShrinkToFeasible(p, grid.min, grid.max);
      ScoreOfGross(p, good);
      ScoreOfGross(p, good + 1);
      out := out + [good];
      ceiling := Some(good);
    }
    ghost var ends := out;
    for k := 0 to |TIP_TIER_THRESHOLDS|
      invariant ends <= out && (forall a <- out :: grid.min <= a <= grid.max)
      invariant forall j :: 0 <= j < k ==> FlipsProbed(p, points, TIP_TIER_THRESHOLDS[j], out)
    {
      ghost var earlier := out;
      out := ProbeThreshold(p, grid, points, TIP_TIER_THRESHOLDS[k], out);
      forall j | 0 <= j < k ensures FlipsProbed(p, points, TIP_TIER_THRESHOLDS[j], out) {
        FlipsProbedMono(p, points, TIP_TIER_THRESHOLDS[j], earlier, out);
      }
    }
    ghost var unsorted := out;
    out := SortDedup(out);
    SortDedupKeeps(unsorted);
    assert unsorted[0] == grid.min && unsorted[1] == grid.max;
    assert ceiling.Some? ==> unsorted[2] == ceiling.value && ceiling.value in out;
    forall j | 0 <= j < |TIP_TIER_THRESHOLDS| ensures FlipsProbed(p, points, TIP_TIER_THRESHOLDS[j], out) {
      FlipsProbedMono(p, points, TIP_TIER_THRESHOLDS[j], unsorted, out);
    }
  }

  // ------------------------------------------------------------------ the search

  function BracketLow(points: seq<nat>, grid: SizeGrid, idx: nat): nat
    requires idx < |points|
  {
    if idx > 0 then points[idx - 1] else grid.min
  }

  function BracketHigh(points: seq<nat>, grid: SizeGrid, idx: nat): nat
    requires idx < |points|
  {
    if idx + 1 < |points| then points[idx + 1] else grid.max
  }

  /** The scored points of a grid, in grid order. */
  ghost predicate IsScored(p: Problem, points: seq<nat>, n: nat, scored: seq<Scored>)
    requires p.route.Ready() && n <= |points|
  {
    && (forall s <- scored :: s.idx < n && s.amount == points[s.idx] && Score(p, s.amount) == Some(s.score))
    && (forall i :: 0 <= i < n && Score(p, points[i]).Some? ==>
          exists s <- scored :: s.idx == i)
    && InGridOrder(scored)
  }

  ghost predicate InGridOrder(scored: seq<Scored>) {
    forall a, b :: 0 <= a < b < |scored| ==> scored[a].idx < scored[b].idx
  }

  /** Stage 1: probe the grid, giving up on a dead route. */
  method ScoreGrid(p: Problem, points: seq<nat>) returns (r: Option<seq<Scored>>)
    requires p.route.Ready()
    ensures r.None? <==> exists i :: 0 <= i < |points| && ProbeAt(p, points[i]).Dead?
    ensures r.Some? ==> IsScored(p, points, |points|, r.value)
  {
    hide ProbeAt;
    var scored := [];
    for i := 0 to |points|
      invariant forall j :: 0 <= j < i ==> !ProbeAt(p, points[j]).Dead?
      invariant IsScored(p, points, i, scored)
    {
      match ProbeAt(p, points[i])
      case Feasible(score) =>
        ghost var before := scored;
        scored := scored + [Scored(i, points[i], score)];
        assert scored[|before|].idx == i;
        forall j | 0 <= j < i + 1 && Score(p, points[j]).Some? ensures exists s <- scored :: s.idx == j {
          if j < i {
            var s :| s in before && s.idx == j;
            assert s in scored;
          }
        }
      case TooBig =>
      case Dead => return None;
    }
    return Some(scored);
  }

  /** A size the search settled on, with its score. */
  ghost predicate IsBest(p: Problem, grid: SizeGrid, amount: nat, score: int)
    requires p.route.Ready()
  {
    grid.min <= amount <= grid.max && Score(p, amount) == Some(score)
  }

  /** Stage 2: refine the best points inside their neighbours' bracket. */
  method Refine(p: Problem, grid: SizeGrid, points: seq<nat>, scored: seq<Scored>) returns (amount: nat, score: int)
    requires p.route.Ready() && IsGrid(points, grid) && scored != []
    requires forall s <- scored :: s.idx < |points| && s.amount == points[s.idx] && Score(p, s.amount) == Some(s.score)
    ensures IsBest(p, grid, amount, score)
    ensures forall s <- scored :: s.score <= score
    ensures forall s <- scored :: BracketCovered(p, grid, points, s.idx, score)
  {
    hide Score, PeaksAt, BracketCovered;
    amount, score := scored[0].amount, scored[0].score;
    for k := 0 to |scored|
      invariant IsBest(p, grid, amount, score) && scored[0].score <= score
      invariant forall j :: 0 <= j < k ==> scored[j].score <= score && BracketCovered(p, grid, points, scored[j].idx, score)
    {
      var s := scored[k];
      ghost var before := score;
      if s.score > score {
        amount, score := s.amount, s.score;
      }
      var lo, hi := BracketLow(points, grid, s.idx), BracketHigh(points, grid, s.idx);
      var r := TernaryMax(p, lo, hi, grid.refineIters);
      if r.Some? && r.value.1 > score {
        amount, score := r.value.0, r.value.1;
      }
      BracketIsCovered(p, grid, points, s.idx, score, r);
      forall j | 0 <= j < k ensures BracketCovered(p, grid, points, scored[j].idx, score) {
        CoveredByMore(p, grid, points, scored[j].idx, before, score);
      }
    }
  }

  lemma BracketIsCovered(p: Problem, grid: SizeGrid, points: seq<nat>, idx: nat, score: int, r: Option<(nat, int)>)
    requires p.route.Ready() && idx < |points| && (r.Some? ==> r.value.1 <= score)
    requires var lo, hi := BracketLow(points, grid, idx), BracketHigh(points, grid, idx);
             hi - lo <= 0x100_0000_0000 ==>
               forall peak: nat :: PeaksAt(p, lo, hi, peak) ==> r.Some? && r.value.1 == Score(p, peak).value
    ensures BracketCovered(p, grid, points, idx, score)
  {
    hide Score, PeaksAt;
  }

  lemma CoveredByMore(p: Problem, grid: SizeGrid, points: seq<nat>, idx: nat, score: int, more: int)
    requires p.route.Ready() && BracketCovered(p, grid, points, idx, score) && score <= more
    ensures BracketCovered(p, grid, points, idx, more)
  {
    hide Score, PeaksAt;
  }

  /** The score is at least that of a peak of the bracket around a grid point, if it has one. */
  ghost predicate BracketCovered(p: Problem, grid: SizeGrid, points: seq<nat>, idx: nat, score: int)
    requires p.route.Ready()
  {
    idx < |points| &&
    var lo := if idx == 0 then grid.min else points[idx - 1];
    var hi := if idx == |points| - 1 then grid.max else points[idx + 1];
    hi - lo <= 0x100_0000_0000 ==>
      forall peak: nat :: PeaksAt(p, lo, hi, peak) ==> !Below(Some(score), Score(p, peak))
  }

  ghost predicate GridIsDead(p: Problem, points: seq<nat>)
    requires p.route.Ready()
  {
    exists i :: 0 <= i < |points| && ProbeAt(p, points[i]).Dead?
  }

  ghost predicate NothingTradable(p: Problem, points: seq<nat>)
    requires p.route.Ready()
  {
    forall i :: 0 <= i < |points| ==> Score(p, points[i]).None?
  }

  /** A positive score that meets the required floor is netted, or bettered, by the candidate. */
  ghost predicate NettedBy(p: Problem, score: Option<int>, r: Option<Candidate>) {
    score.Some? && score.value > 0 && score.value >= p.cost.requiredNet ==> r.Some? && r.value.net >= score.value
  }

  /** The candidate nets at least the peak of the bracket around a grid point. */
  ghost predicate PointRefined(p: Problem, grid: SizeGrid, points: seq<nat>, idx: nat, r: Option<Candidate>)
    requires p.route.Ready() && idx < |points|
  {
    var lo := if idx == 0 then grid.min else points[idx - 1];
    var hi := if idx == |points| - 1 then grid.max else points[idx + 1];
    hi - lo <= 0x100_0000_0000 ==> forall peak: nat :: PeaksAt(p, lo, hi, peak) ==> NettedBy(p, Score(p, peak), r)
  }

  /** `idx` is a best-scoring grid point, and its bracket was refined. */
  ghost predicate BestPointRefined(p: Problem, grid: SizeGrid, points: seq<nat>, idx: nat, r: Option<Candidate>)
    requires p.route.Ready()
  {
    && idx < |points| && Score(p, points[idx]).Some?
    && (forall i :: 0 <= i < |points| ==> !Below(Score(p, points[idx]), Score(p, points[i])))
    && PointRefined(p, grid, points, idx, r)
  }

  /** The tradable grid points that come before one: better, or as good and smaller. */
  ghost function Ahead(p: Problem, points: seq<nat>, idx: nat): set<nat>
    requires p.route.Ready() && idx < |points| && Score(p, points[idx]).Some?
  {
    set j: nat | j < |points| && Score(p, points[j]).Some?
                 && Precedes(Scored(j, points[j], Score(p, points[j]).value),
                             Scored(idx, points[idx], Score(p, points[idx]).value))
  }

  /** The brackets of the best `k` points were refined. */
  ghost predicate TopRefined(p: Problem, grid: SizeGrid, points: seq<nat>, k: nat, r: Option<Candidate>)
    requires p.route.Ready()
  {
    forall i: nat :: i < |points| && Score(p, points[i]).Some? && |Ahead(p, points, i)| < k ==>
      PointRefined(p, grid, points, i, r)
  }

  /** The scored points again, in the order of the search, no two of one place on the grid. */
  lemma SortedPoints(p: Problem, points: seq<nat>, scored: seq<Scored>)
    requires p.route.Ready() && IsScored(p, points, |points|, scored)
    ensures var kept := SortByScore(scored);
            && Ranked(kept) && (forall s :: s in kept <==> s in scored)
            && forall a, b :: 0 <= a < b < |kept| ==> kept[a].idx != kept[b].idx
  {
    hide Score, SortByScore;
    var kept := SortByScore(scored);
    SortRanked(scored);
    SortKeeps(scored);
    forall s ensures s in kept <==> s in scored {
      assert s in multiset(kept) <==> s in multiset(scored);
    }
    forall a, b | 0 <= a < b < |kept| ensures kept[a].idx != kept[b].idx {
      assert Precedes(kept[a], kept[b]) && kept[a] in scored && kept[b] in scored;
    }
  }

  /** Whatever is sorted before a point is ahead of it. */
  lemma BeforeIsAhead(p: Problem, points: seq<nat>, scored: seq<Scored>, at: nat)
    requires p.route.Ready() && IsScored(p, points, |points|, scored) && at < |SortByScore(scored)|
    ensures var kept := SortByScore(scored);
            && kept[at].idx < |points| && Score(p, points[kept[at].idx]).Some?
            && FirstIdxs(kept, at) <= Ahead(p, points, kept[at].idx)
  {
    hide Score, SortByScore, Ranked;
    SortedPoints(p, points, scored);
    var kept := SortByScore(scored);
    assert kept[at] in scored;
    forall j | j in FirstIdxs(kept, at) ensures j in Ahead(p, points, kept[at].idx) {
      var q :| 0 <= q < at && kept[q].idx == j;
      RankedAt(kept, q, at);
      assert kept[q] in scored;
    }
  }

  lemma RankedAt(xs: seq<Scored>, i: nat, j: nat)
    requires Ranked(xs) && i < j < |xs|
    ensures Precedes(xs[i], xs[j])
  {
  }

  /** So a point with fewer than `k` ahead of it is among the first `k`. */
  lemma TopIsKept(p: Problem, points: seq<nat>, scored: seq<Scored>, k: nat, i: nat)
    requires p.route.Ready() && IsScored(p, points, |points|, scored)
    requires i < |points| && Score(p, points[i]).Some? && |Ahead(p, points, i)| < k
    ensures var kept := SortByScore(scored);
            exists s <- kept[..Min(|kept|, k)] :: s.idx == i
  {
    hide Score, SortByScore, Ranked, Ahead, FirstIdxs;
    var kept := SortByScore(scored);
    SortedPoints(p, points, scored);
    var own :| own in scored && own.idx == i;
    var at :| 0 <= at < |kept| && kept[at] == own;
    BeforeIsAhead(p, points, scored, at);
    FirstIdxsDiffer(kept, at);
    SubsetIsSmaller(FirstIdxs(kept, at), Ahead(p, points, i));
    assert kept[..Min(|kept|, k)][at] == own;
  }

  /** A score that is positive and meets the floor is exactly what the gate lets through. */
  lemma GateOfScore(p: Problem, amount: nat)
    requires p.route.Ready() && Score(p, amount).Some?
    ensures var score := Score(p, amount).value;
            score > 0 && score >= p.cost.requiredNet ==>
              var c := p.route.Evaluate(p.wsol, amount, p.cost); c.Ok? && c.value.net == score && c.value.amountIn == amount
    ensures var c := p.route.Evaluate(p.wsol, amount, p.cost); c.Ok? ==> c.value.amountIn == amount
  {
    hide TwoLegs.RoundTrip, TwoLegs.Evaluate, CostModel.Net, CostModel.TotalBurn;
    EvaluateIffProfitable(p.route, p.wsol, amount, p.cost);
  }

  lemma ScoredOrNothing(p: Problem, points: seq<nat>, scored: seq<Scored>)
    requires p.route.Ready() && IsScored(p, points, |points|, scored)
    ensures scored == [] <==> NothingTradable(p, points)
  {
    hide Score;
    if scored != [] {
      assert scored[0] in scored;
    }
  }

  /** Sorting keeps the scored points, best first. */
  lemma BestFirst(p: Problem, points: seq<nat>, scored: seq<Scored>)
    requires p.route.Ready() && IsScored(p, points, |points|, scored) && scored != []
    ensures var kept := SortByScore(scored);
            && kept != [] && (forall s <- kept :: s in scored)
            && forall i :: 0 <= i < |points| ==> !Below(Some(kept[0].score), Score(p, points[i]))
  {
    hide Score;
    SortKeeps(scored);
    var kept := SortByScore(scored);
    forall s | s in kept ensures s in scored {
      assert s in multiset(kept);
    }
    forall i | 0 <= i < |points| ensures !Below(Some(kept[0].score), Score(p, points[i])) {
      if Score(p, points[i]).Some? {
        var s :| s in scored && s.idx == i;
      }
    }
  }

  /** The whole search. A dead grid point, or a grid with nothing tradable, yields no candidate.
      Otherwise every probed size, on the coarse grid or at a boundary, that nets a positive amount
      meeting the floor guarantees a candidate netting at least as much, and so does the peak of
      the bracket around each of the best grid points, as many as the grid asks for. */
  method Optimize(p: Problem, grid: SizeGrid, points: seq<nat>, fine: seq<nat>)
    returns (r: Option<Candidate>, ghost boundary: seq<nat>)
    requires p.route.Ready() && IsGrid(points, grid) && IsGrid(fine, grid)
    ensures GridIsDead(p, points) || NothingTradable(p, points) ==> r.None?
    ensures r.Some? ==> grid.min <= r.value.amountIn <= grid.max
                        && p.route.Evaluate(p.wsol, r.value.amountIn, p.cost) == Ok(r.value)
    ensures !GridIsDead(p, points) && !NothingTradable(p, points) ==>
              && CoversBoundaries(p, grid, fine, boundary)
              && (forall a: nat :: a in points || a in boundary ==> NettedBy(p, Score(p, a), r))
              && (exists best :: BestPointRefined(p, grid, points, best, r))
              && TopRefined(p, grid, points, Max(grid.refineTopK, 1), r)
  {
    hide Score, ProbeAt, CoversBoundaries, PeaksAt, SortByScore, TwoLegs.Evaluate;
    boundary := [];
    r := None;
    var stage1 := ScoreGrid(p, points);
    if stage1.None? {
      return;
    }
    var scored := stage1.value;
    ScoredOrNothing(p, points, scored);
    if scored == [] {
      return;
    }
    var kept := SortByScore(scored);
    BestFirst(p, points, scored);
    ghost var top := kept[0];
    ghost var k: nat := Max(grid.refineTopK, 1);
    kept := kept[..Min(|kept|, Max(grid.refineTopK, 1))];
    assert kept[0] == top && top in kept && top in scored;
    var bestAmount, bestScore := Refine(p, grid, points, kept);
    ghost var refined := bestScore;
    var candidates := BoundaryCandidates(p, grid, fine);
    boundary := candidates;
    CandidatesInGrid(p, grid, fine, candidates);
    for i := 0 to |candidates|
      invariant IsBest(p, grid, bestAmount, bestScore) && refined <= bestScore
      invariant forall j :: 0 <= j < i ==> !Below(Some(bestScore), Score(p, candidates[j]))
    {
      var s := Score(p, candidates[i]);
      if s.Some? && s.value > bestScore {
        bestAmount, bestScore := candidates[i], s.value;
      }
    }
    GateOfScore(p, bestAmount);
    match p.route.Evaluate(p.wsol, bestAmount, p.cost) {
      case Ok(c) => r := Some(c);
      case Err(_) =>
    }
    forall a: nat | a in points || a in boundary ensures NettedBy(p, Score(p, a), r) {
      assert !Below(Some(bestScore), Score(p, a));
    }
    assert BestPointRefined(p, grid, points, top.idx, r);
    forall i: nat | i < |points| && Score(p, points[i]).Some? && |Ahead(p, points, i)| < k
      ensures PointRefined(p, grid, points, i, r)
    {
      TopIsKept(p, points, scored, k, i);
      var s :| s in kept && s.idx == i;
      assert BracketCovered(p, grid, points, s.idx, refined);
    }
  }

  lemma CandidatesInGrid(p: Problem, grid: SizeGrid, points: seq<nat>, out: seq<nat>)
    requires p.route.Ready() && grid.min <= grid.max && CoversBoundaries(p, grid, points, out)
    ensures forall i :: 0 <= i < |out| ==> grid.min <= out[i] <= grid.max
  {
    hide GrossAt, FlipsProbed, IsCeiling;
    forall i | 0 <= i < |out| ensures grid.min <= out[i] <= grid.max {
      assert out[i] in out;
    }
  }

  // ------------------------------------------------------------------ why these probes

  /** Gross profit moves one way over a stretch of tradable sizes. */
  ghost predicate GrossMoves(p: Problem, a0: nat, a1: nat, up: bool)
    requires p.route.Ready()
  {
    AllTradable(p, a0, a1) &&
    forall x: nat, y: nat :: a0 <= x <= y <= a1 ==>
      if up then GrossAt(p, x).value <= GrossAt(p, y).value else GrossAt(p, y).value <= GrossAt(p, x).value
  }

  /** Where gross profit rises, or falls, between two neighbouring grid points, no size between
      them beats both the better end and the sizes probed beside the tip-tier crossings: that is
      what the boundary probes are for. */
  lemma ProbesFindTheMaximum(p: Problem, points: seq<nat>, i: nat, out: seq<nat>, up: bool, a: nat) returns (e: nat)
    requires p.route.Ready() && i + 1 < |points| && points[i] <= a <= points[i + 1]
    requires points[i + 1] - points[i] <= 0x1_0000_0000_0000 && GrossMoves(p, points[i], points[i + 1], up)
    requires forall k :: 0 <= k < |TIP_TIER_THRESHOLDS| ==> FlipsProbed(p, points, TIP_TIER_THRESHOLDS[k], out)
    requires GrossAt(p, a).value > 0
    ensures e in out || e == (if up then points[i + 1] else points[i])
    ensures points[i] <= e <= points[i + 1]
    ensures Score(p, a).Some? && Score(p, e).Some? && Score(p, a).value <= Score(p, e).value
  {
    hide GrossAt, Score, CostModel.Net;
    var a0, a1 := points[i], points[i + 1];
    var top := if up then a1 else a0;
    var g, best := GrossAt(p, a).value, GrossAt(p, top).value;
    assert GrossAt(p, a0).Some? && GrossAt(p, a1).Some? && GrossAt(p, a).Some?;
    ScoreOfGross(p, a);
    var peak := NetPeaksAtTierEdges(p.cost, g, best);
    if peak == best {
      e := top;
    } else {
      var k :| 0 <= k < |TIP_TIER_THRESHOLDS| && TIP_TIER_THRESHOLDS[k] == peak + 1;
      e := BesideTheCrossing(p, a0, a1, peak + 1, out, up, a);
      TiersAreOrdered(g, GrossAt(p, e).value, peak);
      NetMonoInTier(p.cost, g, GrossAt(p, e).value);
    }
    ScoreOfGross(p, e);
  }

  /** So when both stages use one grid, and gross profit moves one way between neighbouring points,
      the candidate is the best of all sizes from the first grid point to the last. */
  lemma CandidateIsTheMaximum(p: Problem, grid: SizeGrid, points: seq<nat>, boundary: seq<nat>, r: Option<Candidate>, a: nat)
    requires p.route.Ready() && IsGrid(points, grid) && points[0] <= a <= points[|points| - 1]
    requires CoversBoundaries(p, grid, points, boundary)
    requires forall x: nat :: x in points || x in boundary ==> NettedBy(p, Score(p, x), r)
    requires forall i :: 0 <= i < |points| - 1 ==> SimpleStretch(p, points[i], points[i + 1])
    ensures NettedBy(p, Score(p, a), r)
  {
    hide GrossAt, Score, GrossMoves, IsCeiling, FlipProbed, Flips;
    if |points| > 1 {
      var i := Between(points, a);
      assert SimpleStretch(p, points[i], points[i + 1]);
      var up :| GrossMoves(p, points[i], points[i + 1], up);
      ScoreOfGross(p, a);
      if GrossAt(p, a).Some? && GrossAt(p, a).value > 0 {
        var e := ProbesFindTheMaximum(p, points, i, boundary, up, a);
      }
    }
  }

  ghost predicate SimpleStretch(p: Problem, a0: nat, a1: nat)
    requires p.route.Ready()
  {
    a0 <= a1 <= a0 + 0x1_0000_0000_0000 && exists up :: GrossMoves(p, a0, a1, up)
  }

  lemma {:induction false} Between(points: seq<nat>, a: nat) returns (i: nat)
    requires |points| > 1 && points[0] <= a <= points[|points| - 1]
    ensures i + 1 < |points| && points[i] <= a <= points[i + 1]
  {
    if a <= points[1] {
      i := 0;
    } else {
      i := Between(points[1..], a);
      i := i + 1;
    }
  }

  /** The probed size on the near side of a crossing grosses at least as much as any size there. */
  lemma BesideTheCrossing(p: Problem, a0: nat, a1: nat, threshold: nat, out: seq<nat>, up: bool, a: nat) returns (e: nat)
    requires p.route.Ready() && a0 <= a <= a1 && a1 - a0 <= 0x1_0000_0000_0000 && GrossMoves(p, a0, a1, up)
    requires Flips(p, a0, a1, threshold) ==> FlipProbed(p, a0, a1, threshold, out)
    requires GrossAt(p, a).value < threshold <= GrossAt(p, if up then a1 else a0).value
    ensures e in out && a0 <= e <= a1 && GrossAt(p, e).Some?
    ensures GrossAt(p, a).value <= GrossAt(p, e).value < threshold
  {
    hide GrossAt;
    assert GrossAt(p, a0).Some? && GrossAt(p, a1).Some?;
    assert Flips(p, a0, a1, threshold);
    var lo, hi :| lo in out && hi in out
      && a0 <= lo < hi <= a1
      && Reached(p, lo, threshold) == Reached(p, a0, threshold)
      && Reached(p, hi, threshold) == Reached(p, a1, threshold)
      && (AllTradable(p, a0, a1) && a1 - a0 <= 0x1_0000_0000_0000 ==> hi == lo + 1);
    e := if up then lo else hi;
    assert GrossAt(p, lo).Some? && GrossAt(p, hi).Some?;
  }

  lemma TiersAreOrdered(low: nat, mid: nat, high: nat)
    requires low <= mid <= high && TipTierBps(low) == TipTierBps(high)
    ensures TipTierBps(mid) == TipTierBps(low)
  {
  }
}
