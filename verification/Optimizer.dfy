/** The trade-size optimizer: a coarse grid, a ternary refinement that copes with capacity limits,
    and explicit probes of the boundary sizes.
 */
module Optimizer {
  import opened Common
  import opened Arith
  import opened Cost
  import opened Route

  /** What is being optimized. */
  datatype Problem = Problem(route: TwoLegs, wsol: Mint, cost: CostModel)

  datatype Probe = Feasible(score: int) | TooBig | Dead

  /** What one size tells the search: a score (net profit, or the raw loss), a capacity limit, or
      that the route is dead. */
  function ProbeAt(p: Problem, amount: nat): Probe
    requires p.route.Ready()
  {
    match p.route.RoundTrip(p.wsol, amount)
    case Ok(trip) =>
      Feasible(if trip.1 > amount then p.cost.Net(trip.1 - amount) else trip.1 - amount)
    case Err(Leg1Reject(e)) => if e.IsCapacity() then TooBig else Dead
    case Err(Leg2Reject(e)) => if e.IsCapacity() then TooBig else Dead
    case Err(_) => Dead
  }

  /** The score of a size, nothing where it cannot be traded. */
  function Score(p: Problem, amount: nat): Option<int>
    requires p.route.Ready()
  {
    var probe := ProbeAt(p, amount);
    if probe.Feasible? then Some(probe.score) else None
  }

  /** Gross profit or loss of a size. */
  function GrossAt(p: Problem, amount: nat): Option<int>
    requires p.route.Ready()
  {
    match p.route.RoundTrip(p.wsol, amount)
    case Ok(trip) => Some(trip.1 - amount)
    case Err(_) => None
  }

  lemma ScoreOfGross(p: Problem, amount: nat)
    requires p.route.Ready()
    ensures Score(p, amount).Some? <==> GrossAt(p, amount).Some?
    ensures GrossAt(p, amount).Some? ==>
              var g := GrossAt(p, amount).value;
              Score(p, amount).value == if g > 0 then p.cost.Net(g) else g
  {
  }

  /** Scores compare with an untradable size below everything. */
  predicate Below(a: Option<int>, b: Option<int>) {
    b.Some? && (a.Some? ==> a.value < b.value)
  }

  // ------------------------------------------------------------------ the shape the search relies on

  /** Sizes below a tradable one are tradable. */
  ghost predicate DownwardClosed(p: Problem, lo: nat, hi: nat)
    requires p.route.Ready()
  {
    forall x: nat, y: nat :: lo <= x <= y <= hi && Score(p, y).Some? ==> Score(p, x).Some?
  }

  /** Which they are on every route whose first leg is not a PumpSwap leg, from any tradable size up. */
  lemma SizesAreDownwardClosed(p: Problem, lo: nat, hi: nat)
    requires p.route.Ready() && lo <= hi && !p.route.leg1.PumpLeg? && Score(p, lo).Some?
    requires InRange(p.route.leg1, p.wsol, hi)
    requires p.route.TokenMint(p.wsol).Some? ==> InRange(p.route.leg2, p.route.TokenMint(p.wsol).value, U64_MAX)
    ensures DownwardClosed(p, lo, hi)
  {
    hide Leg.Quote, InRange, TwoLegs.TokenMint;
    forall x: nat, y: nat | lo <= x <= y <= hi && Score(p, y).Some? ensures Score(p, x).Some? {
      var token := p.route.TokenMint(p.wsol).value;
      OutputFits(p.route.leg1, p.wsol, y);
      InRangeBelow(p.route.leg1, p.wsol, y, hi);
      InRangeBelow(p.route.leg2, token, p.route.leg1.Quote(p.wsol, y).value.0, U64_MAX);
      FeasibleSizesAreAnInterval(p.route, p.wsol, lo, x, y);
    }
  }

  /** The tradable sizes of the bracket score strictly up to `peak` and strictly down after it. */
  ghost predicate PeaksAt(p: Problem, lo: nat, hi: nat, peak: nat)
    requires p.route.Ready()
  {
    && lo <= peak <= hi && Score(p, peak).Some? && DownwardClosed(p, lo, hi)
    && (forall x: nat, y: nat :: lo <= x < y <= peak ==> Below(Score(p, x), Score(p, y)))
    && (forall x: nat, y: nat :: peak <= x < y <= hi && Score(p, y).Some? ==> Below(Score(p, y), Score(p, x)))
  }

  lemma PeakIsMaximum(p: Problem, lo: nat, hi: nat, peak: nat, x: nat)
    requires p.route.Ready() && PeaksAt(p, lo, hi, peak) && lo <= x <= hi && Score(p, x).Some?
    ensures Score(p, x).value <= Score(p, peak).value
  {
    hide Score, DownwardClosed;
    if x < peak { assert Below(Score(p, x), Score(p, peak)); }
    if peak < x { assert Below(Score(p, x), Score(p, peak)); }
  }

  function Pow2(n: nat): nat {
    if n == 0 then 1 else 2 * Pow2(n - 1)
  }

  const SHRINK_STEPS: nat := 40
  const BISECT_STEPS: nat := 48

  /** That many halvings are enough for brackets as wide as the contracts below say. */
  lemma StepsSuffice()
    ensures Pow2(SHRINK_STEPS) == 0x100_0000_0000
    ensures Pow2(BISECT_STEPS) == 0x1_0000_0000_0000
  {
    assert Pow2(8) == 0x100 && Pow2(16) == 0x1_0000 && Pow2(24) == 0x100_0000 && Pow2(32) == 0x1_0000_0000;
  }

  /** Binary shrink between a tradable and an untradable size; exact when the bracket is narrow
      enough for the fixed number of halvings. */
  method ShrinkToFeasible(p: Problem, lo: nat, hi: nat) returns (good: nat)
    requires p.route.Ready() && lo <= hi && Score(p, lo).Some? && Score(p, hi).None?
    ensures lo <= good < hi && Score(p, good).Some?
    ensures hi - lo <= 0x100_0000_0000 ==> Score(p, good + 1).None?
    ensures hi - lo <= 0x100_0000_0000 && DownwardClosed(p, lo, hi) ==>
              forall x: nat :: lo <= x <= hi ==> (Score(p, x).Some? <==> x <= good)
  {
    hide Score;
    var bad := hi;
    good := lo;
    StepsSuffice();
    for i := 0 to SHRINK_STEPS
      invariant lo <= good < bad <= hi && Score(p, good).Some? && Score(p, bad).None?
      invariant hi - lo <= 0x100_0000_0000 ==> bad - good <= Pow2(SHRINK_STEPS - i)
    {
      if bad - good <= 1 {
        break;
      }
      var mid := good + (bad - good) / 2;
      if Score(p, mid).Some? {
        good := mid;
      } else {
        bad := mid;
      }
    }
  }

  /** Ternary search. It always returns a tradable size of the bracket scoring at least as well as
      its lower end; and when the tradable sizes are downward closed in a bracket of at most 2^40
      and score strictly up to a peak and strictly down from it, it returns the exact maximum. */
  method TernaryMax(p: Problem, lo0: nat, hi0: nat, iters: nat) returns (r: Option<(nat, int)>)
    requires p.route.Ready() && lo0 <= hi0
    ensures r.Some? <==> Score(p, lo0).Some?
    ensures r.Some? ==> lo0 <= r.value.0 <= hi0 && Score(p, r.value.0) == Some(r.value.1)
                        && Score(p, lo0).value <= r.value.1
    ensures hi0 - lo0 <= 0x100_0000_0000 ==>
              forall peak: nat :: PeaksAt(p, lo0, hi0, peak) ==> r.Some? && r.value.1 == Score(p, peak).value
  {
    hide Score, DownwardClosed, PeaksAt, Bracketed;
    var lo, hi := lo0, hi0;
    if Score(p, lo).None? {
      NoPeakWithoutStart(p, lo0, hi0);
      return None;
    }
    if Score(p, hi).None? {
      hi := ShrinkToFeasible(p, lo, hi);
    }
    var best := (lo, Score(p, lo).value);
    if Score(p, hi).value > best.1 {
      best := (hi, Score(p, hi).value);
    }
    ghost var narrow := hi0 - lo0 <= 0x100_0000_0000;
    PeakBelowTop(p, lo0, hi, hi0, narrow);
    for i := 0 to iters
      invariant lo0 <= lo <= hi <= hi0
      invariant lo0 <= best.0 <= hi0 && Score(p, best.0) == Some(best.1) && Score(p, lo0).value <= best.1
      invariant narrow ==> Bracketed(p, lo0, hi0, lo, hi)
    {
      if hi - lo < 3 {
        break;
      }
      var m1 := lo + (hi - lo) / 3;
      var m2 := hi - (hi - lo) / 3;
      var s1, s2 := Score(p, m1), Score(p, m2);
      if Below(Some(best.1), s1) {
        best := (m1, s1.value);
      }
      if Below(Some(best.1), s2) {
        best := (m2, s2.value);
      }
      if narrow {
        KeepsPeak(p, lo0, hi0, lo, hi, m1, m2);
      }
      if Below(s1, s2) {
        lo := m1;
      } else {
        hi := m2;
      }
    }
    best := Sweep(p, lo0, hi0, lo, hi, best);
    if narrow {
      SweptMaximum(p, lo0, hi0, lo, hi, best);
    }
    return Some(best);
  }

  /** Every size left in the bracket, one by one. */
  method Sweep(p: Problem, lo0: nat, hi0: nat, lo: nat, hi: nat, start: (nat, int)) returns (best: (nat, int))
    requires p.route.Ready() && lo0 <= lo <= hi <= hi0
    requires lo0 <= start.0 <= hi0 && Score(p, start.0) == Some(start.1)
    ensures lo0 <= best.0 <= hi0 && Score(p, best.0) == Some(best.1) && start.1 <= best.1
    ensures forall x: nat :: lo <= x <= hi && Score(p, x).Some? ==> Score(p, x).value <= best.1
  {
    hide Score;
    best := start;
    for a := lo to hi + 1
      invariant lo0 <= best.0 <= hi0 && Score(p, best.0) == Some(best.1) && start.1 <= best.1
      invariant forall x: nat :: lo <= x < a && Score(p, x).Some? ==> Score(p, x).value <= best.1
    {
      if Score(p, a).Some? && Score(p, a).value > best.1 {
        best := (a, Score(p, a).value);
      }
    }
  }

  /** Wherever the score peaks, if it does, the bracket still holds it, and its top is tradable. */
  ghost predicate Bracketed(p: Problem, lo0: nat, hi0: nat, lo: nat, hi: nat)
    requires p.route.Ready() && lo0 <= hi0
  {
    forall peak: nat :: PeaksAt(p, lo0, hi0, peak) ==> lo <= peak <= hi && Score(p, hi).Some?
  }

  lemma NoPeakWithoutStart(p: Problem, lo: nat, hi: nat)
    requires p.route.Ready() && lo <= hi && Score(p, lo).None?
    ensures forall peak: nat :: !PeaksAt(p, lo, hi, peak)
  {
    hide Score;
  }

  lemma PeakBelowTop(p: Problem, lo0: nat, hi: nat, hi0: nat, narrow: bool)
    requires p.route.Ready() && lo0 <= hi <= hi0 && Score(p, hi).Some?
    requires narrow && hi < hi0 ==> Score(p, hi + 1).None?
    ensures narrow ==> Bracketed(p, lo0, hi0, lo0, hi)
  {
    hide Score;
  }

  /** One ternary step never discards the peak. */
  lemma KeepsPeak(p: Problem, lo0: nat, hi0: nat, lo: nat, hi: nat, m1: nat, m2: nat)
    requires p.route.Ready() && lo0 <= lo < m1 < m2 < hi <= hi0
    requires Bracketed(p, lo0, hi0, lo, hi)
    ensures if Below(Score(p, m1), Score(p, m2)) then Bracketed(p, lo0, hi0, m1, hi) else Bracketed(p, lo0, hi0, lo, m2)
  {
    hide Score;
    forall peak: nat | PeaksAt(p, lo0, hi0, peak)
      ensures if Below(Score(p, m1), Score(p, m2)) then m1 <= peak else peak <= m2
      ensures Score(p, m2).Some?
    {
      assert lo0 <= m2 <= hi <= hi0 && Score(p, hi).Some?;
      if peak < m1 { assert Below(Score(p, m2), Score(p, m1)); }
      if m2 < peak { assert Below(Score(p, m1), Score(p, m2)); }
    }
  }

  lemma SweptMaximum(p: Problem, lo0: nat, hi0: nat, lo: nat, hi: nat, best: (nat, int))
    requires p.route.Ready() && lo0 <= lo <= hi <= hi0
    requires lo0 <= best.0 <= hi0 && Score(p, best.0) == Some(best.1)
    requires forall x: nat :: lo <= x <= hi && Score(p, x).Some? ==> Score(p, x).value <= best.1
    requires Bracketed(p, lo0, hi0, lo, hi)
    ensures forall peak: nat :: PeaksAt(p, lo0, hi0, peak) ==> best.1 == Score(p, peak).value
  {
    hide Score, DownwardClosed;
    forall peak: nat | PeaksAt(p, lo0, hi0, peak) ensures best.1 == Score(p, peak).value {
      PeakIsMaximum(p, lo0, hi0, peak, best.0);
    }
  }
}
