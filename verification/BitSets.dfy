/** Non-negative integers of any size as the set of positions of their one bits. In these terms x & y is
    x * y, x | y is x + y and x & ~y is x - y. */
module BitSets {
  type Bits = set<nat>

  predicate Between(lo: nat, k: nat, hi: nat) { lo <= k < hi }

  /** Bits lo..hi-1. */
  function Interval(lo: nat, hi: nat): (r: Bits)
    ensures forall k: nat {:trigger k in r} :: k in r <==> lo <= k < hi
  {
    set k: nat | Between(lo, k, hi) && k < hi
  }

  /** x << n */
  function Shl(x: Bits, n: nat): (r: Bits)
    ensures forall k: nat {:trigger k in r} :: k in r <==> k >= n && k - n in x
  {
    ShlMembers(x, n);
    var r: Bits := set k | k in x :: k + n;
    r
  }

  lemma ShlMembers(x: Bits, n: nat)
    ensures var r: Bits := set k | k in x :: k + n;
      forall k: nat {:trigger k in r} :: k in r <==> k >= n && k - n in x
  {
    var r: Bits := set k | k in x :: k + n;
    forall k: nat | k >= n && k - n in x ensures k in r {
      var j := k - n;
      assert j in x && k == j + n;
    }
  }

  /** x >> n */
  function Shr(x: Bits, n: nat): (r: Bits)
    ensures forall k: nat {:trigger k in r} :: k in r <==> k + n in x
  {
    ShrMembers(x, n);
    var r: Bits := set k | k in x && k >= n :: k - n;
    r
  }

  lemma ShrMembers(x: Bits, n: nat)
    ensures var r: Bits := set k | k in x && k >= n :: k - n;
      forall k: nat {:trigger k in r} :: k in r <==> k + n in x
  {
    var r: Bits := set k | k in x && k >= n :: k - n;
    forall k: nat | k + n in x ensures k in r {
      var j := k + n;
      assert j in x && j >= n && k == j - n;
    }
  }

  /** Exactly the bits of the mask change. */
  function Merge(before: Bits, value: Bits, mask: Bits): Bits {
    (before - mask) + (value * mask)
  }

  lemma ShiftInterval(n: nat, m: nat)
    ensures Shl(Interval(0, n), m) == Interval(m, m + n)
    ensures m <= n ==> Shr(Interval(0, n), m) == Interval(0, n - m)
  {
  }
}
