/** Parent links between modules: when they form a forest, and what adding one link does to it. */
module Forest {
  import opened Wrappers

  type Name = string

  /** Module -> the module its default instance sits in; top modules have no entry. */
  type Parents = map<Name, Name>

  /** A rank falls along every link, so every climb ends. */
  ghost predicate Ranked(parents: Parents, rank: map<Name, nat>) {
    forall m {:trigger parents[m]} :: m in parents ==>
      m in rank && parents[m] in rank && rank[parents[m]] < rank[m]
  }

  function RankOf(rank: map<Name, nat>, m: Name): nat { if m in rank then rank[m] else 0 }

  /** The n-th module above m. */
  ghost function Up(parents: Parents, m: Name, n: nat): Option<Name>
    decreases n
  {
    if n == 0 then Some(m)
    else if m in parents then Up(parents, parents[m], n - 1)
    else None
  }

  /** Some module lies above itself. */
  ghost predicate HasCycle(parents: Parents) {
    exists m, n: nat :: n > 0 && Up(parents, m, n) == Some(m)
  }

  /** The top module above m. */
  ghost function Root(parents: Parents, rank: map<Name, nat>, m: Name): Name
    requires Ranked(parents, rank)
    decreases RankOf(rank, m)
  {
    if m in parents then Root(parents, rank, parents[m]) else m
  }

  lemma {:induction false} RankFallsUpwards(parents: Parents, rank: map<Name, nat>, m: Name, n: nat)
    requires Ranked(parents, rank) && n > 0 && Up(parents, m, n).Some?
    ensures RankOf(rank, Up(parents, m, n).value) < RankOf(rank, m)
    decreases n
  {
    if n > 1 { RankFallsUpwards(parents, rank, parents[m], n - 1); }
  }

  lemma RankedHasNoCycle(parents: Parents, rank: map<Name, nat>)
    requires Ranked(parents, rank)
    ensures !HasCycle(parents)
  {
    forall m, n: nat | n > 0 && Up(parents, m, n) == Some(m) ensures false {
      RankFallsUpwards(parents, rank, m, n);
    }
  }

  /** The root is reached by climbing, and its own links do not matter for the climb. */
  lemma {:induction false} ClimbToRoot(parents: Parents, rank: map<Name, nat>, m: Name, child: Name, parent: Name)
      returns (n: nat)
    requires Ranked(parents, rank) && Root(parents, rank, m) == child
    ensures Up(parents[child := parent], m, n) == Some(child)
    decreases RankOf(rank, m)
  {
    if m in parents && m != child {
      var k := ClimbToRoot(parents, rank, parents[m], child, parent);
      n := k + 1;
    } else {
      n := 0;
    }
  }

  lemma {:induction false} UpTrans(parents: Parents, m: Name, k: nat, n: nat)
    requires Up(parents, m, k).Some?
    ensures Up(parents, m, k + n) == Up(parents, Up(parents, m, k).value, n)
    decreases k
  {
    if k > 0 { UpTrans(parents, parents[m], k - 1, n); }
  }

  /** Linking a root below one of its own descendants closes a cycle. */
  lemma LinkBelowSelfCloses(parents: Parents, rank: map<Name, nat>, child: Name, parent: Name)
    requires Ranked(parents, rank) && Root(parents, rank, parent) == child
    ensures HasCycle(parents[child := parent])
  {
    var n := ClimbToRoot(parents, rank, parent, child, parent);
    assert Up(parents[child := parent], child, n + 1) == Some(child);
  }

  /** The ranks after linking the top module child below parent: the tree of child moves down. */
  ghost function Relink(parents: Parents, rank: map<Name, nat>, child: Name, parent: Name): map<Name, nat>
    requires Ranked(parents, rank)
  {
    map m | m in rank.Keys + {child, parent} ::
      if Root(parents, rank, m) == child then RankOf(rank, m) + RankOf(rank, parent) + 1 else RankOf(rank, m)
  }

  /** Linking a top module below another tree keeps a forest. */
  lemma LinkElsewhereKeepsForest(parents: Parents, rank: map<Name, nat>, child: Name, parent: Name)
    requires Ranked(parents, rank) && child !in parents && Root(parents, rank, parent) != child
    ensures Ranked(parents[child := parent], Relink(parents, rank, child, parent))
  {
    var links, rank' := parents[child := parent], Relink(parents, rank, child, parent);
    forall m | m in links ensures m in rank' && links[m] in rank' && rank'[links[m]] < rank'[m] {
      if m != child {
        assert m in parents && links[m] == parents[m];
        assert Root(parents, rank, m) == Root(parents, rank, parents[m]);
      }
    }
  }

  /** A new link of a top module is rejected exactly when it would close a cycle. */
  lemma LinkClosesCycleIff(parents: Parents, rank: map<Name, nat>, child: Name, parent: Name)
    requires Ranked(parents, rank) && child !in parents
    ensures Root(parents, rank, parent) == child <==> HasCycle(parents[child := parent])
  {
    if Root(parents, rank, parent) == child {
      LinkBelowSelfCloses(parents, rank, child, parent);
    } else {
      LinkElsewhereKeepsForest(parents, rank, child, parent);
      RankedHasNoCycle(parents[child := parent], Relink(parents, rank, child, parent));
    }
  }
}
