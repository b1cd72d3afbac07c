/** Polynomials over the field with two elements, as sets of exponents. */
module Gf2 {
  type Poly = iset<nat>

  ghost function Add(a: Poly, b: Poly): Poly {
    iset k: nat | (k in a) != (k in b)
  }

  /** p * x^n */
  ghost function Shift(p: Poly, n: nat): Poly {
    iset k: nat | HasShifted(p, n, k)
  }

  ghost predicate HasShifted(p: Poly, n: nat, k: nat) { k >= n && k - n in p }

  ghost function Scale(c: bool, p: Poly): Poly {
    iset k: nat | c && k in p
  }

  /** q * g, for the coefficients of q from the lowest up. */
  ghost function Times(q: seq<bool>, g: Poly): Poly {
    if q == [] then iset{} else Add(Shift(Times(q[1..], g), 1), Scale(q[0], g))
  }

  ghost predicate Divides(g: Poly, p: Poly) {
    exists q: seq<bool> :: Times(q, g) == p
  }

  ghost predicate HasDegree(g: Poly, w: nat) {
    w in g && forall k :: k in g ==> k <= w
  }

  ghost predicate Below(p: Poly, w: nat) {
    forall k :: k in p ==> k < w
  }

  /** r is v mod g, for g of degree w. */
  ghost predicate IsRemainder(r: Poly, v: Poly, g: Poly, w: nat) {
    Below(r, w) && Divides(g, Add(r, v))
  }

  function Sum(q: seq<bool>, r: seq<bool>): seq<bool> {
    if q == [] then r else if r == [] then q else [q[0] != r[0]] + Sum(q[1..], r[1..])
  }

  lemma {:induction false} TimesSum(q: seq<bool>, r: seq<bool>, g: Poly)
    ensures Times(Sum(q, r), g) == Add(Times(q, g), Times(r, g))
  {
    if q != [] && r != [] {
      TimesSum(q[1..], r[1..], g);
      var a, b := Times(q[1..], g), Times(r[1..], g);
      assert Sum(q, r)[1..] == Sum(q[1..], r[1..]);
      assert Shift(Add(a, b), 1) == Add(Shift(a, 1), Shift(b, 1));
    }
  }

  lemma DividesSum(g: Poly, a: Poly, b: Poly)
    requires Divides(g, a) && Divides(g, b)
    ensures Divides(g, Add(a, b))
  {
    var q :| Times(q, g) == a;
    var r :| Times(r, g) == b;
    TimesSum(q, r, g);
  }

  /** A multiple of g is zero or at least as long as g. */
  lemma {:induction false} MultipleIsLong(q: seq<bool>, g: Poly, w: nat)
    requires HasDegree(g, w)
    ensures Times(q, g) == iset{} || exists k :: k in Times(q, g) && k >= w
  {
    if q != [] {
      var a := Times(q[1..], g);
      MultipleIsLong(q[1..], g, w);
      if a == iset{} {
        if q[0] { assert w in Times(q, g); }
      } else {
        var k :| k in a && k >= w;
        assert k + 1 in Times(q, g);
      }
    }
  }

  /** There is only one remainder. */
  lemma RemainderIsUnique(r: Poly, s: Poly, v: Poly, g: Poly, w: nat)
    requires HasDegree(g, w) && IsRemainder(r, v, g, w) && IsRemainder(s, v, g, w)
    ensures r == s
  {
    DividesSum(g, Add(r, v), Add(s, v));
    assert Add(Add(r, v), Add(s, v)) == Add(r, s);
    var q :| Times(q, g) == Add(r, s);
    MultipleIsLong(q, g, w);
    assert Add(r, s) == iset{};
    assert forall k: nat :: k in Add(r, s) <==> (k in r) != (k in s);
  }

  /** Equal remainders mean a difference divisible by g. */
  lemma SameRemainderIff(r: Poly, s: Poly, u: Poly, v: Poly, g: Poly, w: nat)
    requires HasDegree(g, w) && IsRemainder(r, u, g, w) && IsRemainder(s, v, g, w)
    ensures r == s <==> Divides(g, Add(u, v))
  {
    if r == s {
      DividesSum(g, Add(r, u), Add(s, v));
      assert Add(Add(r, u), Add(s, v)) == Add(u, v);
    }
    if Divides(g, Add(u, v)) {
      DividesSum(g, Add(s, v), Add(u, v));
      assert Add(Add(s, v), Add(u, v)) == Add(s, u);
      RemainderIsUnique(r, s, u, g, w);
    }
  }
}
