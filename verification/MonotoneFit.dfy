/** Least-squares monotone fits: when a sequence is the one closest to given positions. */
module MonotoneFit {
  type Row = seq<real>

  /** i * x */
  function Multiple(i: nat, x: real): real {
    if i == 0 then 0.0 else Multiple(i - 1, x) + x
  }

  lemma {:induction false} MultipleIsProduct(i: nat, x: real)
    ensures Multiple(i, x) == i as real * x
  {
    if i > 0 {
      MultipleIsProduct(i - 1, x);
      assert i as real * x == (i - 1) as real * x + x;
    }
  }

  lemma {:induction false} MultipleOrder(i: nat, x: real, y: real)
    ensures x <= y ==> Multiple(i, x) <= Multiple(i, y)
    ensures x < y && i > 0 ==> Multiple(i, x) < Multiple(i, y)
  {
    if i > 0 { MultipleOrder(i - 1, x, y); }
  }

  lemma {:induction false} MultipleOfSum(i: nat, j: nat, x: real)
    ensures Multiple(i + j, x) == Multiple(i, x) + Multiple(j, x)
  {
    if j > 0 { MultipleOfSum(i, j - 1, x); }
  }

  lemma {:induction false} MultipleOfDifference(i: nat, x: real, y: real)
    ensures Multiple(i, x - y) == Multiple(i, x) - Multiple(i, y)
  {
    if i > 0 { MultipleOfDifference(i - 1, x, y); }
  }

  /** The sum of the first k elements. */
  function Total(s: Row, k: nat): real
    requires k <= |s|
  {
    if k == 0 then 0.0 else Total(s, k - 1) + s[k - 1]
  }

  ghost function Minus(a: Row, b: Row): Row
    requires |a| == |b|
  {
    seq(|a|, i requires 0 <= i < |a| => a[i] - b[i])
  }

  /** The sum of products. */
  ghost function Dot(a: Row, b: Row, k: nat): real
    requires |a| == |b| && k <= |a|
  {
    if k == 0 then 0.0 else Dot(a, b, k - 1) + a[k - 1] * b[k - 1]
  }

  /** The sum of squared differences. */
  ghost function Distance(a: Row, b: Row): real
    requires |a| == |b|
  {
    Dot(Minus(a, b), Minus(a, b), |a|)
  }

  ghost predicate Nondecreasing(s: Row) {
    forall i :: 0 < i < |s| ==> s[i - 1] <= s[i]
  }

  /** How much of the given positions lies before k, over what the fit has there. */
  ghost function Excess(d: Row, p: Row, k: nat): real
    requires |d| == |p| && k <= |d|
  {
    Total(d, k) - Total(p, k)
  }

  /** The optimality conditions: the excess is never negative, and none is left where the fit rises or ends. */
  ghost predicate IsFit(d: Row, p: Row) {
    && |d| == |p| && Nondecreasing(p) && Excess(d, p, |d|) == 0.0
    && (forall k :: 0 <= k <= |d| ==> Excess(d, p, k) >= 0.0)
    && (forall k :: 0 < k < |d| && p[k - 1] < p[k] ==> Excess(d, p, k) == 0.0)
  }

  /** Summation by parts. */
  lemma {:induction false} SummationByParts(a: Row, b: Row, k: nat)
    requires |a| == |b| && 0 < k <= |a|
    requires forall i :: 0 <= i <= |a| ==> Total(a, i) >= 0.0
    requires forall i :: 0 < i < |a| ==> Total(a, i) == 0.0 || b[i - 1] <= b[i]
    ensures Dot(a, b, k) <= Total(a, k) * b[k - 1]
  {
    if k > 1 {
      SummationByParts(a, b, k - 1);
      PartsStep(Dot(a, b, k - 1), Total(a, k - 1), a[k - 1], b[k - 2], b[k - 1]);
    } else {
      assert Dot(a, b, 0) == 0.0 && Total(a, 0) == 0.0;
    }
  }

  lemma PartsStep(dot: real, before: real, step: real, e: real, e': real)
    requires dot <= before * e && before >= 0.0 && (before == 0.0 || e <= e')
    ensures dot + step * e' <= (before + step) * e'
  {
    SignsDiffer(before, e - e');
    assert (before + step) * e' == before * e' + step * e';
    assert before * (e - e') == before * e - before * e';
  }

  lemma SignsDiffer(x: real, y: real)
    requires x == 0.0 || (x < 0.0 && y >= 0.0) || (x > 0.0 && y <= 0.0)
    ensures x * y <= 0.0
  {
  }

  lemma {:induction false} TotalOfMinus(d: Row, p: Row, k: nat)
    requires |d| == |p| && k <= |d|
    ensures Total(Minus(d, p), k) == Excess(d, p, k)
  {
    if k > 0 { TotalOfMinus(d, p, k - 1); }
  }

  /** No monotone sequence leans towards the given positions against the fit. */
  lemma LeanIsNotPositive(d: Row, p: Row, z: Row, v: Row)
    requires IsFit(d, p) && |z| == |v| == |d| && Nondecreasing(z)
    requires forall i :: 0 < i < |d| && p[i - 1] == p[i] ==> v[i - 1] == v[i]
    ensures Dot(Minus(d, p), Minus(z, v), |d|) <= 0.0
  {
    if d != [] {
      PartsConditions(d, p, z, v);
      TotalOfMinus(d, p, |d|);
      LeansAgainst(Minus(d, p), Minus(z, v));
    }
  }

  lemma LeansAgainst(a: Row, b: Row)
    requires |a| == |b| && a != [] && Total(a, |a|) == 0.0
    requires forall i :: 0 <= i <= |a| ==> Total(a, i) >= 0.0
    requires forall i :: 0 < i < |a| ==> Total(a, i) == 0.0 || b[i - 1] <= b[i]
    ensures Dot(a, b, |a|) <= 0.0
  {
    SummationByParts(a, b, |a|);
    assert Total(a, |a|) * b[|a| - 1] == 0.0;
  }

  lemma PartsConditions(d: Row, p: Row, z: Row, v: Row)
    requires IsFit(d, p) && |z| == |v| == |d| && Nondecreasing(z)
    requires forall i :: 0 < i < |d| && p[i - 1] == p[i] ==> v[i - 1] == v[i]
    ensures forall i :: 0 <= i <= |d| ==> Total(Minus(d, p), i) >= 0.0
    ensures forall i :: 0 < i < |d| ==> Total(Minus(d, p), i) == 0.0 || Minus(z, v)[i - 1] <= Minus(z, v)[i]
  {
    forall i | 0 <= i <= |d| ensures Total(Minus(d, p), i) == Excess(d, p, i) { TotalOfMinus(d, p, i); }
    forall i | 0 < i < |d|
      ensures Total(Minus(d, p), i) == 0.0 || Minus(z, v)[i - 1] <= Minus(z, v)[i]
    {
      assert p[i - 1] < p[i] ==> Excess(d, p, i) == 0.0;
    }
  }

  lemma {:induction false} SquareOfDifference(a: Row, b: Row, c: Row, n: Row, k: nat)
    requires |a| == |b| == |c| == |n| && k <= |a|
    requires forall i :: 0 <= i < |a| ==> c[i] == b[i] - a[i] && n[i] == -a[i]
    ensures Dot(c, c, k) == Dot(n, n, k) + Dot(b, b, k) - 2.0 * Dot(a, b, k)
  {
    if k > 0 {
      SquareOfDifference(a, b, c, n, k - 1);
      Binomial(a[k - 1], b[k - 1], c[k - 1], n[k - 1]);
    }
  }

  lemma Binomial(a: real, b: real, c: real, n: real)
    requires c == b - a && n == -a
    ensures c * c == n * n + b * b - 2.0 * (a * b)
  {
  }

  lemma ThreePoints(d: Row, w: Row, z: Row)
    requires |d| == |w| == |z|
    ensures Distance(z, d) == Distance(w, d) + Distance(z, w) - 2.0 * Dot(Minus(d, w), Minus(z, w), |d|)
  {
    SquareOfDifference(Minus(d, w), Minus(z, w), Minus(z, d), Minus(w, d), |d|);
  }

  lemma SquareIsPositive(x: real, s: real)
    requires s == x * x
    ensures s >= 0.0
    ensures s == 0.0 ==> x == 0.0
  {
    if x != 0.0 { assert s / x == x; }
  }

  lemma {:induction false} SquaresArePositive(a: Row, k: nat)
    requires k <= |a|
    ensures Dot(a, a, k) >= 0.0
    ensures Dot(a, a, k) == 0.0 ==> forall i :: 0 <= i < k ==> a[i] == 0.0
  {
    if k > 0 {
      SquaresArePositive(a, k - 1);
      SquareIsPositive(a[k - 1], Dot(a, a, k) - Dot(a, a, k - 1));
    }
  }

  lemma DistanceIsPositive(a: Row, b: Row)
    requires |a| == |b|
    ensures Distance(a, b) >= 0.0
    ensures Distance(a, b) <= 0.0 ==> a == b
  {
    SquaresArePositive(Minus(a, b), |a|);
    if Distance(a, b) <= 0.0 {
      forall i | 0 <= i < |a| ensures a[i] == b[i] { assert Minus(a, b)[i] == 0.0; }
    }
  }

  /** The fit is closest among all monotone sequences, and the only closest one. */
  lemma FitIsClosest(d: Row, p: Row, z: Row)
    requires IsFit(d, p) && |z| == |d| && Nondecreasing(z)
    ensures Distance(p, d) + Distance(z, p) <= Distance(z, d)
    ensures Distance(z, d) <= Distance(p, d) ==> z == p
  {
    LeanIsNotPositive(d, p, z, p);
    ThreePoints(d, p, z);
    DistanceIsPositive(z, p);
  }

  // ---------------------------------------------------------------------------
  // Bounds

  function Clamp(x: real, lo: real, hi: real): real {
    if x < lo then lo else if x > hi then hi else x
  }

  function Clamped(p: Row, lo: real, hi: real): Row {
    seq(|p|, i requires 0 <= i < |p| => Clamp(p[i], lo, hi))
  }

  ghost predicate Inside(s: Row, lo: real, hi: real) {
    forall i :: 0 <= i < |s| ==> lo <= s[i] <= hi
  }

  lemma {:induction false} DotOrder(a: Row, b: Row, e: Row, k: nat)
    requires |a| == |b| == |e| && k <= |a|
    requires forall i :: 0 <= i < |a| ==> a[i] == b[i] || (a[i] < b[i] && e[i] >= 0.0) || (a[i] > b[i] && e[i] <= 0.0)
    ensures Dot(a, e, k) <= Dot(b, e, k)
  {
    if k > 0 {
      DotOrder(a, b, e, k - 1);
      SignsDiffer(a[k - 1] - b[k - 1], e[k - 1]);
      assert (a[k - 1] - b[k - 1]) * e[k - 1] == a[k - 1] * e[k - 1] - b[k - 1] * e[k - 1];
    }
  }

  lemma ClampLeansIn(d: Row, p: Row, w: Row, z: Row, lo: real, hi: real)
    requires |d| == |p| == |z| && lo <= hi && w == Clamped(p, lo, hi) && Inside(z, lo, hi)
    ensures Dot(Minus(d, w), Minus(z, w), |d|) <= Dot(Minus(d, p), Minus(z, w), |d|)
  {
    DotOrder(Minus(d, w), Minus(d, p), Minus(z, w), |d|);
  }

  /** Among the monotone sequences inside the bounds, the clamped fit is the closest and the only closest one. */
  lemma ClampedFitIsClosest(d: Row, p: Row, z: Row, lo: real, hi: real)
    requires IsFit(d, p) && |z| == |d| && Nondecreasing(z) && lo <= hi && Inside(z, lo, hi)
    ensures var w := Clamped(p, lo, hi);
      && Nondecreasing(w) && Inside(w, lo, hi)
      && Distance(w, d) <= Distance(z, d)
      && (Distance(z, d) <= Distance(w, d) ==> z == w)
  {
    var w := Clamped(p, lo, hi);
    ClampLeansIn(d, p, w, z, lo, hi);
    LeanIsNotPositive(d, p, z, w);
    ThreePoints(d, w, z);
    DistanceIsPositive(z, w);
  }
}
