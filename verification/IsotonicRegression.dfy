/** The pool-adjacent-violators phase of _assign_monotone. */
module IsotonicRegression {
  import opened MonotoneFit

  type Count = n: nat | n > 0 witness 1

  datatype Block = Block(sum: real, count: Count, start: nat)

  function Mean(b: Block): real {
    b.sum / (b.count as real)
  }

  /** A block covers its items, and every prefix of it averages at least its mean. */
  ghost predicate BlockOk(d: Row, b: Block) {
    && b.start + b.count <= |d|
    && b.sum == Total(d, b.start + b.count) - Total(d, b.start)
    && forall j :: b.start <= j <= b.start + b.count ==> HeavyPrefix(d, b, j)
  }

  ghost predicate HeavyPrefix(d: Row, b: Block, j: nat)
    requires b.start <= j <= |d|
  {
    Total(d, j) - Total(d, b.start) >= Multiple(j - b.start, Mean(b))
  }

  /** The blocks cover the first n items in order. */
  ghost predicate Cover(d: Row, blocks: seq<Block>, n: nat) {
    && (forall k {:trigger BlockOk(d, blocks[k])} :: 0 <= k < |blocks| ==> BlockOk(d, blocks[k]))
    && (forall k :: 0 <= k < |blocks| - 1 ==> blocks[k].start + blocks[k].count == blocks[k + 1].start)
    && (if blocks == [] then n == 0
        else blocks[0].start == 0 && blocks[|blocks| - 1].start + blocks[|blocks| - 1].count == n)
  }

  ghost predicate Rising(blocks: seq<Block>) {
    forall k :: 0 <= k < |blocks| - 1 ==> Mean(blocks[k]) <= Mean(blocks[k + 1])
  }

  function Pooled(a: Block, b: Block): Block {
    Block(a.sum + b.sum, a.count + b.count, a.start)
  }

  lemma MeanTimesCount(b: Block)
    ensures Multiple(b.count, Mean(b)) == b.sum
  {
    MultipleIsProduct(b.count, Mean(b));
    assert b.count as real * (b.sum / b.count as real) == b.sum;
  }

  /** The pooled mean lies between the two means, and balances them. */
  lemma PooledMean(a: Block, b: Block)
    requires Mean(a) > Mean(b)
    ensures Mean(b) <= Mean(Pooled(a, b)) <= Mean(a)
    ensures Multiple(a.count + b.count, Mean(Pooled(a, b))) == Multiple(a.count, Mean(a)) + Multiple(b.count, Mean(b))
  {
    var m := Mean(Pooled(a, b));
    MeanTimesCount(a);
    MeanTimesCount(b);
    MeanTimesCount(Pooled(a, b));
    MultipleOfSum(a.count, b.count, m);
    MultipleOrder(a.count, Mean(a), m);
    MultipleOrder(b.count, Mean(b), m);
    MultipleOrder(a.count, m, Mean(a));
    MultipleOrder(b.count, m, Mean(b));
  }

  lemma HeavyInFirst(d: Row, a: Block, b: Block, j: nat)
    requires BlockOk(d, a) && a.start <= j <= a.start + a.count && Mean(a) > Mean(b)
    ensures HeavyPrefix(d, Pooled(a, b), j)
  {
    PooledMean(a, b);
    assert HeavyPrefix(d, a, j);
    MultipleOrder(j - a.start, Mean(Pooled(a, b)), Mean(a));
  }

  lemma HeavyInSecond(d: Row, a: Block, b: Block, j: nat)
    requires BlockOk(d, a) && BlockOk(d, b) && a.start + a.count == b.start && Mean(a) > Mean(b)
    requires b.start <= j <= b.start + b.count
    ensures HeavyPrefix(d, Pooled(a, b), j)
  {
    var c := Pooled(a, b);
    PooledMean(a, b);
    assert HeavyPrefix(d, b, j);
    MeanTimesCount(a);
    TailIsLight(a.count, j - b.start, b.count, Mean(a), Mean(b), Mean(c));
  }

  /** Pooling keeps every prefix heavy. */
  lemma PoolingKeepsBlock(d: Row, a: Block, b: Block)
    requires BlockOk(d, a) && BlockOk(d, b) && a.start + a.count == b.start && Mean(a) > Mean(b)
    ensures BlockOk(d, Pooled(a, b))
  {
    var c := Pooled(a, b);
    forall j | c.start <= j <= c.start + c.count ensures HeavyPrefix(d, c, j) {
      if j <= b.start { HeavyInFirst(d, a, b, j); } else { HeavyInSecond(d, a, b, j); }
    }
  }

  /** What is missing from the pooled block weighs at most its mean each. */
  lemma {:induction false} TailIsLight(p: nat, i: nat, q: nat, x: real, y: real, m: real)
    requires Multiple(p + q, m) == Multiple(p, x) + Multiple(q, y) && y <= m && i <= q
    ensures Multiple(p, x) + Multiple(i, y) >= Multiple(p + i, m)
    decreases q - i
  {
    if i < q { TailIsLight(p, i + 1, q, x, y, m); }
  }

  lemma SingletonIsOk(d: Row, i: nat)
    requires i < |d|
    ensures BlockOk(d, Block(d[i], 1, i))
  {
    var b := Block(d[i], 1, i);
    assert Total(d, i + 1) == Total(d, i) + d[i];
    MeanTimesCount(b);
  }

  lemma PoolStep(d: Row, blocks: seq<Block>, n: nat)
    requires |blocks| >= 2 && Cover(d, blocks, n) && Rising(blocks[..|blocks| - 1])
    requires Mean(blocks[|blocks| - 2]) > Mean(blocks[|blocks| - 1])
    ensures var m := |blocks| - 2;
      Cover(d, blocks[..m] + [Pooled(blocks[m], blocks[m + 1])], n) && Rising(blocks[..m])
  {
    var m := |blocks| - 2;
    assert BlockOk(d, blocks[m]) && BlockOk(d, blocks[m + 1]);
    PoolingKeepsBlock(d, blocks[m], blocks[m + 1]);
    var shorter := blocks[..m] + [Pooled(blocks[m], blocks[m + 1])];
    assert forall k :: 0 <= k < m ==> shorter[k] == blocks[k] && BlockOk(d, blocks[k]);
    RisingPrefix(blocks[..|blocks| - 1], m);
    assert blocks[..|blocks| - 1][..m] == blocks[..m];
  }

  lemma RisingPrefix(blocks: seq<Block>, m: nat)
    requires m <= |blocks| && Rising(blocks)
    ensures Rising(blocks[..m])
  {
  }

  /** The loop that pools the last two blocks as long as their means fall. */
  method PoolLast(d: Row, start: seq<Block>, n: nat) returns (blocks: seq<Block>)
    requires start != [] && Cover(d, start, n) && Rising(start[..|start| - 1])
    ensures Cover(d, blocks, n) && Rising(blocks)
  {
    blocks := start;
    while |blocks| >= 2 && Mean(blocks[|blocks| - 2]) > Mean(blocks[|blocks| - 1])
      invariant blocks != [] && Cover(d, blocks, n) && Rising(blocks[..|blocks| - 1])
    {
      PoolStep(d, blocks, n);
      var m := |blocks| - 2;
      var last, before := blocks[m + 1], blocks[m];
      assert (blocks[..m] + [Pooled(before, last)])[..m] == blocks[..m];
      blocks := blocks[..m] + [Pooled(before, last)];
    }
    RisingWhole(blocks);
  }

  lemma RisingWhole(blocks: seq<Block>)
    requires blocks != [] && Rising(blocks[..|blocks| - 1])
    requires |blocks| >= 2 ==> Mean(blocks[|blocks| - 2]) <= Mean(blocks[|blocks| - 1])
    ensures Rising(blocks)
  {
    var front := blocks[..|blocks| - 1];
    assert forall k :: 0 <= k < |front| ==> front[k] == blocks[k];
  }

  method Pool(d: Row) returns (blocks: seq<Block>)
    ensures Cover(d, blocks, |d|) && Rising(blocks)
  {
    blocks := [];
    for i := 0 to |d|
      invariant Cover(d, blocks, i) && Rising(blocks)
    {
      SingletonIsOk(d, i);
      var longer := blocks + [Block(d[i], 1, i)];
      assert longer[..|longer| - 1] == blocks;
      assert forall k :: 0 <= k < |blocks| ==> longer[k] == blocks[k] && BlockOk(d, blocks[k]);
      blocks := PoolLast(d, longer, i + 1);
    }
  }

  // ---------------------------------------------------------------------------
  // Reading the fit off the blocks

  lemma {:induction false} TotalOfPrefix(s: Row, t: Row, k: nat)
    requires k <= |s| && k <= |t| && forall i :: 0 <= i < k ==> s[i] == t[i]
    ensures Total(s, k) == Total(t, k)
  {
    if k > 0 { TotalOfPrefix(s, t, k - 1); }
  }

  /** The optimality conditions for the first n items. */
  ghost predicate FitUpTo(d: Row, y: Row, n: nat) {
    && |y| == |d| && n <= |d|
    && (forall k :: 0 <= k <= n ==> Excess(d, y, k) >= 0.0)
    && (forall k :: 0 < k < n ==> y[k - 1] <= y[k])
    && (forall k :: 0 < k < n && y[k - 1] < y[k] ==> Excess(d, y, k) == 0.0)
  }

  /** In the middle of a block the excess is what its prefix weighs over the mean. */
  ghost predicate WithinBlock(d: Row, y: Row, b: Block, k: nat)
    requires |y| == |d|
  {
    && b.start <= k <= |d|
    && Excess(d, y, k) == Total(d, k) - Total(d, b.start) - Multiple(k - b.start, Mean(b))
    && (k > 0 ==> y[k - 1] <= Mean(b) && (y[k - 1] < Mean(b) ==> Excess(d, y, k) == 0.0))
  }

  lemma FilledExcess(d: Row, y: Row, b: Block, k: nat)
    requires |y| == |d| && k < |d| && WithinBlock(d, y, b, k)
    ensures var z := y[k := Mean(b)];
      && (forall j :: 0 <= j <= k ==> Excess(d, z, j) == Excess(d, y, j))
      && Excess(d, z, k + 1) == Total(d, k + 1) - Total(d, b.start) - Multiple(k + 1 - b.start, Mean(b))
  {
    var z := y[k := Mean(b)];
    forall j | 0 <= j <= k ensures Excess(d, z, j) == Excess(d, y, j) { TotalOfPrefix(y, z, j); }
    assert Total(z, k + 1) == Total(z, k) + Mean(b) && Total(d, k + 1) == Total(d, k) + d[k];
  }

  lemma FillOne(d: Row, y: Row, b: Block, k: nat)
    requires FitUpTo(d, y, k) && BlockOk(d, b) && WithinBlock(d, y, b, k) && k < b.start + b.count
    ensures FitUpTo(d, y[k := Mean(b)], k + 1) && WithinBlock(d, y[k := Mean(b)], b, k + 1)
  {
    var z := y[k := Mean(b)];
    FilledExcess(d, y, b, k);
    assert HeavyPrefix(d, b, k + 1);
  }

  method FillBlock(d: Row, start: Row, b: Block) returns (y: Row)
    requires FitUpTo(d, start, b.start) && BlockOk(d, b) && WithinBlock(d, start, b, b.start)
    ensures FitUpTo(d, y, b.start + b.count) && WithinBlock(d, y, b, b.start + b.count)
    ensures y[b.start + b.count - 1] == Mean(b)
  {
    y := start;
    var avg := b.sum / (b.count as real);
    for k := b.start to b.start + b.count
      invariant FitUpTo(d, y, k) && WithinBlock(d, y, b, k)
      invariant k > b.start ==> y[k - 1] == avg
    {
      FillOne(d, y, b, k);
      y := y[k := avg];
    }
  }

  ghost function Boundary(d: Row, blocks: seq<Block>, b: nat): nat {
    if b < |blocks| then blocks[b].start else |d|
  }

  /** The first b blocks are filled in. */
  ghost predicate Filled(d: Row, y: Row, blocks: seq<Block>, b: nat)
    requires b <= |blocks|
  {
    var n := Boundary(d, blocks, b);
    && FitUpTo(d, y, n) && Excess(d, y, n) == 0.0
    && (if b == 0 then n == 0 else n > 0 && y[n - 1] == Mean(blocks[b - 1]))
  }

  lemma NextIsReady(d: Row, y: Row, blocks: seq<Block>, b: nat)
    requires Cover(d, blocks, |d|) && Rising(blocks) && b < |blocks| && Filled(d, y, blocks, b)
    ensures BlockOk(d, blocks[b]) && FitUpTo(d, y, blocks[b].start) && WithinBlock(d, y, blocks[b], blocks[b].start)
  {
  }

  lemma NextIsFilled(d: Row, y: Row, blocks: seq<Block>, b: nat)
    requires Cover(d, blocks, |d|) && b < |blocks| && BlockOk(d, blocks[b])
    requires var n := blocks[b].start + blocks[b].count;
      FitUpTo(d, y, n) && WithinBlock(d, y, blocks[b], n) && y[n - 1] == Mean(blocks[b])
    ensures Filled(d, y, blocks, b + 1)
  {
    MeanTimesCount(blocks[b]);
  }

  /** The pooled means are the least-squares monotone fit. */
  method Isotonic(d: Row) returns (yprime: Row)
    ensures IsFit(d, yprime)
    ensures Nondecreasing(yprime) && forall z: Row :: |z| == |d| && Nondecreasing(z) ==>
      Distance(yprime, d) <= Distance(z, d)
  {
    var blocks := Pool(d);
    yprime := seq(|d|, _ => 0.0);
    for b := 0 to |blocks|
      invariant |yprime| == |d| && Filled(d, yprime, blocks, b)
    {
      NextIsReady(d, yprime, blocks, b);
      yprime := FillBlock(d, yprime, blocks[b]);
      NextIsFilled(d, yprime, blocks, b);
    }
    forall z: Row | |z| == |d| && Nondecreasing(z) ensures Distance(yprime, d) <= Distance(z, d) {
      FitIsClosest(d, yprime, z);
      DistanceIsPositive(z, yprime);
    }
  }
}
