/** Placing ordered items near their desired positions inside bounds (_assign_monotone). */
module PortPlacement {
  import opened MonotoneFit
  import opened IsotonicRegression

  /** What the gaps between n items take. */
  function Room(n: nat, gap: real): real {
    if n == 0 then 0.0 else Multiple(n - 1, gap)
  }

  /** Positions with the minimum gaps taken out. */
  function Reduced(s: Row, gap: real): Row {
    seq(|s|, i requires 0 <= i < |s| => s[i] - Multiple(i, gap))
  }

  function Spread(s: Row, gap: real): Row {
    seq(|s|, i requires 0 <= i < |s| => s[i] + Multiple(i, gap))
  }

  function Shifted(s: Row, c: real): Row {
    seq(|s|, i requires 0 <= i < |s| => s[i] + c)
  }

  /** n positions at equal steps from lo to hi. */
  function Uniform(n: nat, lo: real, hi: real): Row {
    seq(n, i requires 0 <= i < n => lo + Multiple(i, Step(n, lo, hi)))
  }

  function Step(n: nat, lo: real, hi: real): real {
    (hi - lo) / (if n > 1 then n - 1 else 1) as real
  }

  ghost predicate Gapped(s: Row, gap: real) {
    forall i :: 0 < i < |s| ==> s[i] - s[i - 1] >= gap
  }

  /** The smallest shift that brings a row shorter than the bounds inside. */
  function Nudge(placed: Row, lo: real, hi: real): real
    requires placed != []
  {
    if placed[0] < lo then lo - placed[0]
    else if placed[|placed| - 1] > hi then hi - placed[|placed| - 1]
    else 0.0
  }

  /** Where the row ends up: the tolerance of the code makes no difference. */
  function Settled(placed: Row, lo: real, hi: real): Row
    requires placed != []
  {
    if placed[|placed| - 1] - placed[0] <= hi - lo then Shifted(placed, Nudge(placed, lo, hi))
    else Uniform(|placed|, lo, hi)
  }

  /** Moves the row into the bounds: by the smallest shift if it is short enough, else spread out evenly. */
  method Settle(placed: Row, lo: real, hi: real) returns (y: Row)
    requires placed != []
    ensures |y| == |placed| && y == Settled(placed, lo, hi)
  {
    y := placed;
    var n := |placed|;
    assert y == Shifted(placed, 0.0);
    if y[0] < lo { y := Shifted(y, lo - y[0]); }
    if y[n - 1] > hi {
      if y[n - 1] - y[0] > (hi - lo) + 0.000001 {
        y := Uniform(n, lo, hi);
      } else {
        y := Shifted(y, hi - y[n - 1]);
        if y[0] < lo { y := Uniform(n, lo, hi); }
      }
    }
  }

  /** The whole placement, from the fit. */
  function Placement(fit: Row, lo: real, hi: real, gap: real): Row {
    if fit == [] then [] else Settled(Spread(fit, gap), lo, hi)
  }

  // ---------------------------------------------------------------------------
  // What the placement keeps

  lemma {:induction false} Ascends(s: Row, i: nat, j: nat)
    requires Nondecreasing(s) && i <= j < |s|
    ensures s[i] <= s[j]
  {
    if i < j { Ascends(s, i, j - 1); }
  }

  lemma EndsBound(s: Row, lo: real, hi: real)
    requires Nondecreasing(s) && (s != [] ==> lo <= s[0] && s[|s| - 1] <= hi)
    ensures Inside(s, lo, hi)
  {
    forall i | 0 <= i < |s| ensures lo <= s[i] <= hi {
      Ascends(s, 0, i);
      Ascends(s, i, |s| - 1);
    }
  }

  /** Gaps are kept exactly when the reduced row does not fall. */
  lemma GappedIff(s: Row, gap: real)
    ensures Gapped(s, gap) <==> Nondecreasing(Reduced(s, gap))
  {
    var r := Reduced(s, gap);
    assert forall i :: 0 < i < |s| ==> (s[i] - s[i - 1] >= gap <==> r[i - 1] <= r[i]);
  }

  lemma GappedRises(s: Row, gap: real)
    requires gap >= 0.0 && Gapped(s, gap)
    ensures Nondecreasing(s)
  {
  }

  lemma SpreadReduces(s: Row, gap: real)
    ensures Reduced(Spread(s, gap), gap) == s && Spread(Reduced(s, gap), gap) == s
  {
  }

  lemma WholeWidth(n: nat, lo: real, hi: real)
    requires n > 1
    ensures Multiple(n - 1, Step(n, lo, hi)) == hi - lo
  {
    MultipleIsProduct(n - 1, Step(n, lo, hi));
    assert (n - 1) as real * ((hi - lo) / (n - 1) as real) == hi - lo;
  }

  lemma UniformEnds(n: nat, lo: real, hi: real)
    requires n > 1
    ensures Uniform(n, lo, hi)[0] == lo && Uniform(n, lo, hi)[n - 1] == hi
  {
    WholeWidth(n, lo, hi);
  }

  /** The even step is at least a gap exactly when there is room for the gaps. */
  lemma StepAtLeast(n: nat, lo: real, hi: real, gap: real)
    requires n > 1
    ensures gap <= Step(n, lo, hi) <==> Room(n, gap) <= hi - lo
    ensures gap < Step(n, lo, hi) <==> Room(n, gap) < hi - lo
  {
    WholeWidth(n, lo, hi);
    MultipleOrder(n - 1, gap, Step(n, lo, hi));
    MultipleOrder(n - 1, Step(n, lo, hi), gap);
  }

  lemma UniformIsInside(n: nat, lo: real, hi: real, gap: real)
    requires n > 1 && lo <= hi
    ensures Inside(Uniform(n, lo, hi), lo, hi) && Nondecreasing(Uniform(n, lo, hi))
    ensures Room(n, gap) <= hi - lo <==> Gapped(Uniform(n, lo, hi), gap)
  {
    var u := Uniform(n, lo, hi);
    NoRoomForNothing(n);
    StepAtLeast(n, lo, hi, 0.0);
    StepAtLeast(n, lo, hi, gap);
    assert forall i :: 0 < i < n ==> u[i] - u[i - 1] == Step(n, lo, hi);
    if Gapped(u, gap) { assert u[1] - u[0] >= gap; }
    UniformEnds(n, lo, hi);
    EndsBound(u, lo, hi);
  }

  lemma NoRoomForNothing(n: nat)
    ensures Room(n, 0.0) == 0.0
  {
    if n > 0 { MultipleIsProduct(n - 1, 0.0); }
  }

  /** Inside the bounds and in order always; with the minimum gap whenever the bounds leave room for it. */
  lemma PlacementIsInside(fit: Row, lo: real, hi: real, gap: real)
    requires fit != [] && Nondecreasing(fit) && lo <= hi && gap >= 0.0
    ensures var y := Placement(fit, lo, hi, gap);
      && Inside(y, lo, hi) && Nondecreasing(y)
      && (Room(|fit|, gap) <= hi - lo ==> Gapped(y, gap))
  {
    var placed, y := Spread(fit, gap), Placement(fit, lo, hi, gap);
    SpreadReduces(fit, gap);
    GappedIff(placed, gap);
    if placed[|fit| - 1] - placed[0] <= hi - lo {
      var c := Nudge(placed, lo, hi);
      assert Gapped(y, gap) by {
        forall i | 0 < i < |y| ensures y[i] - y[i - 1] >= gap { assert placed[i] - placed[i - 1] >= gap; }
      }
      GappedRises(y, gap);
      EndsBound(y, lo, hi);
    } else {
      UniformIsInside(|fit|, lo, hi, gap);
    }
  }

  // ---------------------------------------------------------------------------
  // The documented promise: as close as possible to the desired positions

  ghost predicate Allowed(z: Row, n: nat, lo: real, hi: real, gap: real) {
    |z| == n && Gapped(z, gap) && Inside(z, lo, hi)
  }

  /** No allowed row is closer to the desired positions. */
  ghost predicate IsClosest(y: Row, desired: Row, lo: real, hi: real, gap: real) {
    && Allowed(y, |desired|, lo, hi, gap)
    && forall z: Row :: Allowed(z, |desired|, lo, hi, gap) ==> Distance(y, desired) <= Distance(z, desired)
  }

  /** When the placement keeps the promise: there is room for the gaps, and either no shift is needed, or
      the fit is flat, or it is too long and its ends and even its inner points are those of the even spread. */
  predicate KeepsPromise(fit: Row, lo: real, hi: real, gap: real) {
    if fit == [] then true else
      var n := |fit|;
      var top := hi - Room(n, gap);
      && lo <= top
      && if fit[n - 1] - fit[0] <= top - lo then (lo <= fit[0] && fit[n - 1] <= top) || fit[0] == fit[n - 1]
         else
           || lo == top
           || (fit[0] <= lo && top <= fit[n - 1] && forall i :: 0 < i < n - 1 ==> fit[i] == Uniform(n, lo, top)[i])
  }

  lemma NothingToPlace(lo: real, hi: real, gap: real)
    ensures IsFit(Reduced([], gap), []) && IsClosest([], [], lo, hi, gap)
  {
    assert Total([], 0) == 0.0;
  }

  lemma ReducedDistance(s: Row, t: Row, gap: real)
    requires |s| == |t|
    ensures Distance(Reduced(s, gap), Reduced(t, gap)) == Distance(s, t)
  {
    assert Minus(Reduced(s, gap), Reduced(t, gap)) == Minus(s, t);
  }

  /** Allowed rows are, reduced, the monotone rows between lo and the reduced upper bound. */
  lemma AllowedIff(z: Row, lo: real, hi: real, gap: real)
    requires z != [] && gap >= 0.0
    ensures var r, top := Reduced(z, gap), hi - Room(|z|, gap);
      Allowed(z, |z|, lo, hi, gap) <==> Nondecreasing(r) && lo <= r[0] && r[|z| - 1] <= top
  {
    var r := Reduced(z, gap);
    GappedIff(z, gap);
    assert r[0] == z[0];
    if Gapped(z, gap) && lo <= z[0] && z[|z| - 1] <= hi {
      GappedRises(z, gap);
      EndsBound(z, lo, hi);
    }
  }

  /** The clamped fit, spread out again, is the allowed row closest to the desired positions; there is no
      other, and none at all without room for the gaps. */
  lemma ClosestIsClampedFit(y: Row, desired: Row, fit: Row, lo: real, hi: real, gap: real)
    requires desired != [] && |y| == |desired| && gap >= 0.0 && IsFit(Reduced(desired, gap), fit)
    ensures var top := hi - Room(|desired|, gap);
      IsClosest(y, desired, lo, hi, gap) <==> lo <= top && Reduced(y, gap) == Clamped(fit, lo, top)
  {
    var top := hi - Room(|desired|, gap);
    if lo <= top {
      if IsClosest(y, desired, lo, hi, gap) { ClosestIsOnlyClamped(y, desired, fit, lo, hi, gap); }
      if Reduced(y, gap) == Clamped(fit, lo, top) {
        SpreadReduces(y, gap);
        ClampedIsClosest(desired, fit, lo, hi, gap);
      }
    } else if Allowed(y, |y|, lo, hi, gap) {
      AllowedIff(y, lo, hi, gap);
      Ascends(Reduced(y, gap), 0, |y| - 1);
    }
  }

  lemma SameOrder(y: Row, z: Row, desired: Row, gap: real)
    requires |y| == |z| == |desired|
    ensures var n, d := |desired|, Reduced(desired, gap);
      Distance(y, desired) <= Distance(z, desired) <==> Distance(Reduced(y, gap), d) <= Distance(Reduced(z, gap), d)
  {
    ReducedDistance(y, desired, gap);
    ReducedDistance(z, desired, gap);
  }

  lemma NoFartherThanClamped(y: Row, desired: Row, fit: Row, lo: real, hi: real, gap: real)
    requires desired != [] && gap >= 0.0 && IsFit(Reduced(desired, gap), fit)
    requires lo <= hi - Room(|desired|, gap) && IsClosest(y, desired, lo, hi, gap)
    ensures var d, w := Reduced(desired, gap), Clamped(fit, lo, hi - Room(|desired|, gap));
      Distance(Reduced(y, gap), d) <= Distance(w, d)
  {
    var w := Clamped(fit, lo, hi - Room(|desired|, gap));
    ClampedIsAllowed(fit, lo, hi, gap);
    SpreadReduces(w, gap);
    SameOrder(y, Spread(w, gap), desired, gap);
  }

  lemma ClosestIsOnlyClamped(y: Row, desired: Row, fit: Row, lo: real, hi: real, gap: real)
    requires desired != [] && gap >= 0.0 && IsFit(Reduced(desired, gap), fit)
    requires lo <= hi - Room(|desired|, gap) && IsClosest(y, desired, lo, hi, gap)
    ensures Reduced(y, gap) == Clamped(fit, lo, hi - Room(|desired|, gap))
  {
    NoFartherThanClamped(y, desired, fit, lo, hi, gap);
    AllowedInside(y, lo, hi, gap);
    ClampedFitIsClosest(Reduced(desired, gap), fit, Reduced(y, gap), lo, hi - Room(|desired|, gap));
  }

  lemma AllowedInside(z: Row, lo: real, hi: real, gap: real)
    requires z != [] && gap >= 0.0 && Allowed(z, |z|, lo, hi, gap)
    ensures Nondecreasing(Reduced(z, gap)) && Inside(Reduced(z, gap), lo, hi - Room(|z|, gap))
  {
    AllowedIff(z, lo, hi, gap);
    EndsBound(Reduced(z, gap), lo, hi - Room(|z|, gap));
  }

  lemma ClampedIsAllowed(fit: Row, lo: real, hi: real, gap: real)
    requires fit != [] && gap >= 0.0 && Nondecreasing(fit) && lo <= hi - Room(|fit|, gap)
    ensures Allowed(Spread(Clamped(fit, lo, hi - Room(|fit|, gap)), gap), |fit|, lo, hi, gap)
  {
    var w := Clamped(fit, lo, hi - Room(|fit|, gap));
    SpreadReduces(w, gap);
    AllowedIff(Spread(w, gap), lo, hi, gap);
  }

  lemma ClampedIsClosest(desired: Row, fit: Row, lo: real, hi: real, gap: real)
    requires desired != [] && gap >= 0.0 && IsFit(Reduced(desired, gap), fit) && lo <= hi - Room(|fit|, gap)
    ensures IsClosest(Spread(Clamped(fit, lo, hi - Room(|fit|, gap)), gap), desired, lo, hi, gap)
  {
    var n, d := |desired|, Reduced(desired, gap);
    var w := Clamped(fit, lo, hi - Room(n, gap));
    var y := Spread(w, gap);
    ClampedIsAllowed(fit, lo, hi, gap);
    forall z: Row | Allowed(z, n, lo, hi, gap) ensures Distance(y, desired) <= Distance(z, desired) {
      AllowedInside(z, lo, hi, gap);
      ClampedFitIsClosest(d, fit, Reduced(z, gap), lo, hi - Room(n, gap));
      SpreadReduces(w, gap);
      SameOrder(y, z, desired, gap);
    }
  }

  /** Shifting the fit agrees with clamping it only when there is nothing to shift or the fit is flat. */
  lemma ShiftIsClampIff(fit: Row, lo: real, hi: real, gap: real)
    requires fit != [] && gap >= 0.0 && Nondecreasing(fit)
    requires var top := hi - Room(|fit|, gap); lo <= top && fit[|fit| - 1] - fit[0] <= top - lo
    ensures var top, n := hi - Room(|fit|, gap), |fit|;
      Reduced(Placement(fit, lo, hi, gap), gap) == Clamped(fit, lo, top)
      <==> (lo <= fit[0] && fit[n - 1] <= top) || fit[0] == fit[n - 1]
  {
    var top, n := hi - Room(|fit|, gap), |fit|;
    var placed := Spread(fit, gap);
    assert placed[0] == fit[0];
    var c := Nudge(placed, lo, hi);
    var r, w := Reduced(Placement(fit, lo, hi, gap), gap), Clamped(fit, lo, top);
    assert forall i :: 0 <= i < n ==> r[i] == fit[i] + c;
    forall i | 0 <= i < n ensures fit[0] <= fit[i] <= fit[n - 1] {
      Ascends(fit, 0, i);
      Ascends(fit, i, n - 1);
    }
    if r == w { assert r[0] == w[0] && r[n - 1] == w[n - 1]; }
  }

  lemma ReducedStep(n: nat, lo: real, hi: real, gap: real)
    requires n > 1
    ensures Step(n, lo, hi - Room(n, gap)) == Step(n, lo, hi) - gap
  {
    var s, s' := Step(n, lo, hi), Step(n, lo, hi - Room(n, gap));
    WholeWidth(n, lo, hi);
    WholeWidth(n, lo, hi - Room(n, gap));
    MultipleOfDifference(n - 1, s, gap);
    MultipleOrder(n - 1, s', s - gap);
    MultipleOrder(n - 1, s - gap, s');
  }

  /** The even spread, reduced, is the even spread to the reduced bound. */
  lemma ReducedUniform(n: nat, lo: real, hi: real, gap: real)
    requires n > 1
    ensures Reduced(Uniform(n, lo, hi), gap) == Uniform(n, lo, hi - Room(n, gap))
  {
    ReducedStep(n, lo, hi, gap);
    forall i | 0 <= i < n ensures Reduced(Uniform(n, lo, hi), gap)[i] == Uniform(n, lo, hi - Room(n, gap))[i] {
      MultipleOfDifference(i, Step(n, lo, hi), gap);
    }
  }

  lemma UniformIsInterior(n: nat, lo: real, hi: real, i: nat)
    requires lo < hi && 0 < i < n - 1
    ensures lo < Uniform(n, lo, hi)[i] < hi
  {
    var u := Uniform(n, lo, hi);
    UniformIsInside(n, lo, hi, 0.0);
    NoRoomForNothing(n);
    StepAtLeast(n, lo, hi, 0.0);
    assert u[i] - u[i - 1] == Step(n, lo, hi) && u[i + 1] - u[i] == Step(n, lo, hi);
  }

  /** The even spread agrees with the clamped fit only in the case the promise names. */
  lemma UniformIsClampIff(fit: Row, lo: real, hi: real, gap: real)
    requires fit != [] && gap >= 0.0 && Nondecreasing(fit)
    requires var top := hi - Room(|fit|, gap); lo <= top && fit[|fit| - 1] - fit[0] > top - lo
    ensures var top, n := hi - Room(|fit|, gap), |fit|;
      Reduced(Uniform(n, lo, hi), gap) == Clamped(fit, lo, top)
      <==>
        || lo == top
        || (fit[0] <= lo && top <= fit[n - 1] && forall i :: 0 < i < n - 1 ==> fit[i] == Uniform(n, lo, top)[i])
  {
    var top, n := hi - Room(|fit|, gap), |fit|;
    ReducedUniform(n, lo, hi, gap);
    UniformEnds(n, lo, top);
    var u, w := Uniform(n, lo, top), Clamped(fit, lo, top);
    if lo < top {
      forall i | 0 < i < n - 1 ensures lo < u[i] < top { UniformIsInterior(n, lo, top, i); }
      if u == w { assert forall i :: 0 <= i < n ==> u[i] == w[i]; }
    } else {
      UniformIsInside(n, lo, top, 0.0);
    }
  }

  /** The placement keeps the documented promise exactly when KeepsPromise says so. */
  lemma ClosestIff(desired: Row, fit: Row, lo: real, hi: real, gap: real)
    requires desired != [] && gap >= 0.0 && IsFit(Reduced(desired, gap), fit)
    ensures IsClosest(Placement(fit, lo, hi, gap), desired, lo, hi, gap) <==> KeepsPromise(fit, lo, hi, gap)
  {
    var n, y := |fit|, Placement(fit, lo, hi, gap);
    var top, placed := hi - Room(n, gap), Spread(fit, gap);
    ClosestIsClampedFit(y, desired, fit, lo, hi, gap);
    if lo <= top {
      assert placed[n - 1] - placed[0] == fit[n - 1] - fit[0] + Room(n, gap);
      if fit[n - 1] - fit[0] <= top - lo {
        ShiftIsClampIff(fit, lo, hi, gap);
      } else {
        UniformIsClampIff(fit, lo, hi, gap);
      }
    }
  }

  /** The promise is broken in general: a shift drags along items that were in place. */
  lemma ShiftingIsNotClosest()
    ensures var desired: Row := [-2.0, 3.0];
      && IsFit(Reduced(desired, 0.0), desired) && Placement(desired, 0.0, 10.0, 0.0) == [0.0, 5.0]
      && !KeepsPromise(desired, 0.0, 10.0, 0.0) && !IsClosest([0.0, 5.0], desired, 0.0, 10.0, 0.0)
  {
    var desired: Row := [-2.0, 3.0];
    assert Reduced(desired, 0.0) == desired;
    assert Placement(desired, 0.0, 10.0, 0.0) == [0.0, 5.0];
    ClosestIff(desired, desired, 0.0, 10.0, 0.0);
  }

  /** The row of the fit with its gaps, shifted by as little as brings it inside the bounds if it is short enough;
      else spread out evenly from lo to hi. */
  ghost predicate IsSettled(fit: Row, y: Row, lo: real, hi: real, gap: real) {
    |y| == |fit| &&
    if fit == [] then true
    else if fit[|fit| - 1] - fit[0] + (|fit| - 1) as real * gap <= hi - lo
    then exists c :: IsLeastShift(fit, lo, hi, gap, c) && IsShifted(fit, y, gap, c)
    else if |fit| == 1 then y[0] == lo
    else y[0] == lo && y[|y| - 1] == hi && forall i :: 0 < i < |y| ==> y[i] - y[i - 1] == y[1] - y[0]
  }

  ghost predicate IsShifted(fit: Row, y: Row, gap: real, c: real) {
    |y| == |fit| && forall i :: 0 <= i < |y| ==> y[i] == fit[i] + i as real * gap + c
  }

  predicate Fits(fit: Row, lo: real, hi: real, gap: real, c: real)
    requires fit != []
  {
    lo <= fit[0] + c && fit[|fit| - 1] + (|fit| - 1) as real * gap + c <= hi
  }

  ghost predicate IsLeastShift(fit: Row, lo: real, hi: real, gap: real, c: real)
    requires fit != []
  {
    Fits(fit, lo, hi, gap, c) && forall other :: Fits(fit, lo, hi, gap, other) ==> Size(c) <= Size(other)
  }

  function Size(c: real): real { if c < 0.0 then -c else c }

  lemma PlacementIsSettled(fit: Row, lo: real, hi: real, gap: real)
    ensures IsSettled(fit, Placement(fit, lo, hi, gap), lo, hi, gap)
  {
    if fit != [] {
      var n, y, placed := |fit|, Placement(fit, lo, hi, gap), Spread(fit, gap);
      forall i | 0 <= i < n ensures placed[i] == fit[i] + i as real * gap { MultipleIsProduct(i, gap); }
      if placed[n - 1] - placed[0] <= hi - lo {
        assert IsShifted(fit, y, gap, Nudge(placed, lo, hi));
        assert IsLeastShift(fit, lo, hi, gap, Nudge(placed, lo, hi));
      } else if n > 1 {
        UniformEnds(n, lo, hi);
      }
    }
  }

  /** _assign_monotone */
  method AssignMonotone(desired: Row, lo: real, hi: real, gap: real) returns (y: Row, ghost fit: Row)
    ensures IsFit(Reduced(desired, gap), fit)
    ensures y == Placement(fit, lo, hi, gap) && IsSettled(fit, y, lo, hi, gap)
    ensures lo <= hi && gap >= 0.0 ==> Inside(y, lo, hi) && Nondecreasing(y)
    ensures lo <= hi && gap >= 0.0 && Room(|desired|, gap) <= hi - lo ==> Gapped(y, gap)
    ensures gap >= 0.0 ==> (IsClosest(y, desired, lo, hi, gap) <==> KeepsPromise(fit, lo, hi, gap))
  {
    var n := |desired|;
    if n == 0 {
      NothingToPlace(lo, hi, gap);
      return [], [];
    }
    var d := Reduced(desired, gap);
    var yprime := Isotonic(d);
    fit := yprime;
    y := Spread(yprime, gap);
    y := Settle(y, lo, hi);
    PlacementIsSettled(fit, lo, hi, gap);
    if gap >= 0.0 {
      if lo <= hi { PlacementIsInside(fit, lo, hi, gap); }
      ClosestIff(desired, fit, lo, hi, gap);
    }
  }
}
