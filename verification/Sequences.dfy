/** Small functions on sequences that several modules use. */
module Sequences {
  function Reversed<T>(s: seq<T>): seq<T> {
    if s == [] then [] else [s[|s| - 1]] + Reversed(s[..|s| - 1])
  }

  /** The sequences one after the other. */
  function Concat<T>(ss: seq<seq<T>>): seq<T> {
    if ss == [] then [] else Concat(ss[..|ss| - 1]) + ss[|ss| - 1]
  }

  lemma {:induction false} ConcatParts<T>(ss: seq<seq<T>>, i: nat)
    requires i < |ss|
    ensures Concat(ss) == Concat(ss[..i]) + ss[i] + Concat(ss[i + 1..])
  {
    var n := |ss| - 1;
    if i < n {
      ConcatParts(ss[..n], i);
      assert ss[..n][..i] == ss[..i] && ss[i + 1..][..n - i - 1] == ss[..n][i + 1..];
    } else {
      assert ss[i + 1..] == [];
    }
  }

  /** How often x is in s. */
  function Count<T(==)>(s: seq<T>, x: T): nat {
    if s == [] then 0 else Count(s[..|s| - 1], x) + if s[|s| - 1] == x then 1 else 0
  }

  lemma {:induction false} ReversedConcat<T>(a: seq<T>, b: seq<T>)
    ensures Reversed(a + b) == Reversed(b) + Reversed(a)
  {
    if b == [] {
      assert a + b == a;
    } else {
      assert (a + b)[..|a + b| - 1] == a + b[..|b| - 1];
      ReversedConcat(a, b[..|b| - 1]);
    }
  }

  lemma {:induction false} CountConcat<T>(p: seq<T>, q: seq<T>, x: T)
    ensures Count(p + q, x) == Count(p, x) + Count(q, x)
  {
    if q == [] {
      assert p + q == p;
    } else {
      assert (p + q)[..|p + q| - 1] == p + q[..|q| - 1];
      CountConcat(p, q[..|q| - 1], x);
    }
  }
}
