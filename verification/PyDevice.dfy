/** The register-file devices of the Python package, for any word size of a power of two bytes. */
module PyDevice {
  import opened Wrappers
  import opened BitSets

  type Memory = map<nat, Bits>

  function Rd(m: Memory, a: nat): Bits { if a in m then m[a] else {} }

  /** s is n halved any number of times. */
  predicate IsSize(n: nat, s: nat) {
    s > 0 && (s == n || (n > 0 && n % 2 == 0 && IsSize(n / 2, s)))
  }

  predicate IsPowerOfTwo(n: nat) { IsSize(n, 1) }

  /** An aligned sub-word: the index-th of that many bytes. */
  datatype Lane = Lane(bytes: nat, index: nat) {
    function Offset(): nat { index * bytes }

    function Bits(): Bits { Interval(8 * Offset(), 8 * Offset() + 8 * bytes) }

    predicate Valid(n: nat) { IsSize(n, bytes) && Offset() + bytes <= n }

    /** It overwrites no bit that must be kept, and every masked bit. */
    predicate Fits(mask: BitSets.Bits, writeMask: BitSets.Bits) {
      (writeMask - mask) * Bits() == {} && mask - Bits() == {}
    }

    predicate Before(o: Lane) { bytes > o.bytes || (bytes == o.bytes && index < o.index) }
  }

  ghost predicate NoneBefore(n: nat, mask: Bits, writeMask: Bits, l: Lane) {
    forall o: Lane :: o.Valid(n) && o.Before(l) ==> !o.Fits(mask, writeMask)
  }

  /** The first fitting sub-word in search order: a widest one. */
  ghost predicate IsFirst(n: nat, mask: Bits, writeMask: Bits, l: Lane) {
    l.Valid(n) && l.Fits(mask, writeMask) && NoneBefore(n, mask, writeMask, l)
  }

  lemma {:induction false} SizesAreHalves(n: nat, s: nat, t: nat)
    requires IsSize(n, s) && IsSize(n, t) && t < s
    ensures s % 2 == 0 && IsSize(n, s / 2) && t <= s / 2
    decreases n
  {
    if s == n {
      SizeIsAtMost(n / 2, t);
    } else {
      SizeIsAtMost(n / 2, s);
      SizesAreHalves(n / 2, s, t);
    }
  }

  lemma {:induction false} SizeIsAtMost(n: nat, s: nat)
    requires IsSize(n, s)
    ensures s <= n
    decreases n
  {
    if s != n { SizeIsAtMost(n / 2, s); }
  }

  lemma NextSize(n: nat, s: nat, mask: Bits, writeMask: Bits, count: nat)
    requires IsPowerOfTwo(n) && IsSize(n, s) && NoneBefore(n, mask, writeMask, Lane(s, count)) && count * s > n - s
    ensures s / 2 > 0 ==> IsSize(n, s / 2)
    ensures NoneBefore(n, mask, writeMask, Lane(s / 2, 0))
  {
    if s > 1 { SizesAreHalves(n, s, 1); }
    forall o: Lane | o.Valid(n) && o.Before(Lane(s / 2, 0)) ensures !o.Fits(mask, writeMask) {
      if o.bytes < s { SizesAreHalves(n, s, o.bytes); }
      if o.bytes == s && o.index >= count { Grows(count, o.index, s); }
      assert o.Before(Lane(s, count));
    }
  }

  lemma Grows(a: nat, b: nat, s: nat)
    requires a <= b
    ensures a * s <= b * s
  {
  }

  lemma LaneInWord(n: nat, s: nat, i: nat)
    requires s > 0 && i < n / s
    ensures i * s + s <= n
  {
    Grows(i + 1, n / s, s);
    assert n / s * s <= n;
    assert (i + 1) * s == i * s + s;
  }

  lemma AfterLast(n: nat, s: nat)
    requires s > 0
    ensures n / s * s > n - s
  {
    assert n == n / s * s + n % s;
  }

  lemma NextLane(n: nat, s: nat, i: nat, mask: Bits, writeMask: Bits)
    requires NoneBefore(n, mask, writeMask, Lane(s, i)) && !Lane(s, i).Fits(mask, writeMask)
    ensures NoneBefore(n, mask, writeMask, Lane(s, i + 1))
  {
    forall o: Lane | o.Valid(n) && o.Before(Lane(s, i + 1)) ensures !o.Fits(mask, writeMask) {
      assert o == Lane(s, i) || o.Before(Lane(s, i));
    }
  }

  lemma LaneBits(s: nat, i: nat)
    ensures Shl(Interval(0, 8 * s), i * s * 8) == Lane(s, i).Bits()
  {
    ShiftInterval(8 * s, i * s * 8);
  }

  /** The inner loop: the sub-words of one size, lowest first. */
  method TryLanes(n: nat, s: nat, subwordMask: Bits, mask: Bits, writeMask: Bits) returns (r: Option<Lane>)
    requires IsSize(n, s) && subwordMask == Interval(0, 8 * s) && NoneBefore(n, mask, writeMask, Lane(s, 0))
    ensures r.Some? ==> IsFirst(n, mask, writeMask, r.value)
    ensures r.None? ==> NoneBefore(n, mask, writeMask, Lane(s, n / s))
  {
    var keepMask := writeMask - mask;
    for i := 0 to n / s
      invariant NoneBefore(n, mask, writeMask, Lane(s, i))
    {
      LaneInWord(n, s, i);
      LaneBits(s, i);
      var iWordMask := Shl(subwordMask, i * s * 8);
      if keepMask * iWordMask == {} && mask - iWordMask == {} { return Some(Lane(s, i)); }
      NextLane(n, s, i, mask, writeMask);
    }
    return None;
  }

  /** The search loop of RegfileDevSubword.rfdev_write: from the full word to ever shorter sub-words. */
  method ChooseLane(n: nat, mask: Bits, writeMask: Bits) returns (r: Option<Lane>)
    requires IsPowerOfTwo(n)
    ensures r.Some? ==> IsFirst(n, mask, writeMask, r.value)
    ensures r.None? ==> forall l: Lane :: l.Valid(n) ==> !l.Fits(mask, writeMask)
  {
    var subwordMask := Interval(0, 8 * n);
    var s: nat := n;
    NothingIsLonger(n, mask, writeMask);
    while s > 0
      invariant s > 0 ==> IsSize(n, s) && subwordMask == Interval(0, 8 * s)
      invariant NoneBefore(n, mask, writeMask, Lane(s, 0))
    {
      r := TryLanes(n, s, subwordMask, mask, writeMask);
      if r.Some? { return; }
      AfterLast(n, s);
      NextSize(n, s, mask, writeMask, n / s);
      if s > 1 { SizesAreHalves(n, s, 1); }
      ShiftInterval(8 * s, s / 2 * 8);
      s := s / 2;
      subwordMask := Shr(subwordMask, s * 8);
    }
    forall l: Lane | l.Valid(n) ensures !l.Fits(mask, writeMask) { assert l.Before(Lane(0, 0)); }
    return None;
  }

  lemma NothingIsLonger(n: nat, mask: Bits, writeMask: Bits)
    ensures NoneBefore(n, mask, writeMask, Lane(n, 0))
  {
    forall o: Lane | o.Valid(n) ensures !o.Before(Lane(n, 0)) {
      SizeIsAtMost(n, o.bytes);
    }
  }

  // ---------------------------------------------------------------------------
  // The devices

  /** A masked write: no other word changes, and of the addressed word the bits that are masked or must be
      kept are those of the merged word. */
  ghost predicate MaskedOnly(n: nat, before: Memory, after: Memory, addr: nat, value: Bits, mask: Bits,
                             writeMask: Bits) {
    && (forall a :: a != addr ==> Rd(after, a) == Rd(before, a))
    && SameOn(n, Rd(after, addr), Merge(Rd(before, addr), value, mask), mask + writeMask)
  }

  /** The words agree on those of the bits that lie within an n-byte word. */
  ghost predicate SameOn(n: nat, a: Bits, b: Bits, bits: Bits) {
    forall k :: k in bits && k < 8 * n ==> (k in a <==> k in b)
  }

  datatype Kind = Simple | SubwordWrites

  class RegfileDev {
    const kind: Kind
    const n: nat       // bytes per word
    var mem: Memory

    predicate Valid() { kind.SubwordWrites? ==> IsPowerOfTwo(n) }

    predicate Accepts(addr: nat)
      requires Valid()
    {
      kind.SubwordWrites? ==> n > 0 && addr % n == 0
    }

    constructor (kind: Kind, n: nat, mem: Memory)
      requires kind.SubwordWrites? ==> IsPowerOfTwo(n)
      ensures Valid() && this.kind == kind && this.n == n && this.mem == mem
    {
      this.kind, this.n, this.mem := kind, n, mem;
    }

    /** One bus write: only the addressed word changes, in the enabled byte lanes. */
    method WriteSubword(addr: nat, value: Bits, size: nat)
      requires n > 0
      modifies this`mem
      ensures var word := addr / n * n;
        mem == old(mem)[word := Merge(Rd(old(mem), word), value, Interval(8 * (addr % n), 8 * (addr % n) + 8 * size))]
    {
      var word := addr / n * n;
      mem := mem[word := Merge(Rd(mem, word), value, Interval(8 * (addr % n), 8 * (addr % n) + 8 * size))];
    }

    /** RegfileDevSimple.rfdev_write and RegfileDevSubword.rfdev_write */
    method RfdevWrite(addr: nat, value: Bits, mask: Bits, writeMask: Bits)
      requires Valid() && Accepts(addr)
      modifies this`mem
      ensures MaskedOnly(n, old(mem), mem, addr, value, mask, writeMask)
    {
      if kind.Simple? {
        if writeMask - mask == {} {
          WholeIsMasked(n, Rd(mem, addr), value, mask, writeMask);
          mem := mem[addr := value];
        } else {
          mem := mem[addr := Merge(Rd(mem, addr), value, mask)];
        }
      } else {
        ghost var before := mem;
        var lane := ChooseLane(n, mask, writeMask);
        if lane.Some? {
          WordOfLane(n, addr, lane.value.Offset());
          WriteSubword(addr + lane.value.Offset(), value, lane.value.bytes);
          LaneIsMasked(n, Rd(before, addr), value, mask, writeMask, lane.value);
        } else {
          WordOfLane(n, addr, 0);
          WriteSubword(addr, Merge(Rd(mem, addr), value, mask), n);
        }
      }
    }

    /** readwrite_block: one word after the other. */
    method ReadwriteBlock(start: nat, values: array<Bits>, write: bool)
      requires Valid() && n > 0 && Accepts(start)
      modifies this`mem, values
      ensures write ==> values[..] == old(values[..]) && BlockHolds(n, mem, start, values[..])
                        && forall a :: (forall i :: 0 <= i < values.Length ==> a != WordAt(n, start, i)) ==>
                          Rd(mem, a) == Rd(old(mem), a)
      ensures !write ==> mem == old(mem) && forall i :: 0 <= i < values.Length ==>
        values[i] == Rd(mem, WordAt(n, start, i))
    {
      if !write {
        for i := 0 to values.Length
          invariant mem == old(mem) && forall k :: 0 <= k < i ==> values[k] == Rd(mem, WordAt(n, start, k))
        {
          values[i] := Rd(mem, WordAt(n, start, i));
        }
      } else {
        var mask := Interval(0, 8 * n);
        for i := 0 to values.Length
          invariant values[..] == old(values[..])
          invariant BlockHolds(n, mem, start, values[..i])
          invariant forall a :: (forall k :: 0 <= k < i ==> a != WordAt(n, start, k)) ==> Rd(mem, a) == Rd(old(mem), a)
        {
          ghost var before := mem;
          WordIsAligned(n, start, i);
          RfdevWrite(WordAt(n, start, i), values[i], mask, mask);
          BlockGrows(n, before, mem, start, values[..], i);
        }
        assert values[..values.Length] == values[..];
      }
    }
  }

  function WordAt(n: nat, start: nat, i: nat): nat { start + i * n }

  /** The words from start on hold the values, cut to words. */
  ghost predicate BlockHolds(n: nat, mem: Memory, start: nat, values: seq<Bits>) {
    forall i :: 0 <= i < |values| ==> SameOn(n, Rd(mem, WordAt(n, start, i)), values[i], Interval(0, 8 * n))
  }

  lemma WordsDiffer(n: nat, start: nat, i: nat, j: nat)
    requires n > 0 && i < j
    ensures WordAt(n, start, i) != WordAt(n, start, j)
  {
    Grows(i + 1, j, n);
    assert (i + 1) * n == i * n + n;
  }

  lemma BlockGrows(n: nat, before: Memory, after: Memory, start: nat, values: seq<Bits>, i: nat)
    requires n > 0 && i < |values| && BlockHolds(n, before, start, values[..i])
    requires MaskedOnly(n, before, after, WordAt(n, start, i), values[i], Interval(0, 8 * n), Interval(0, 8 * n))
    ensures BlockHolds(n, after, start, values[..i + 1])
  {
    forall k | 0 <= k <= i ensures SameOn(n, Rd(after, WordAt(n, start, k)), values[k], Interval(0, 8 * n)) {
      if k < i {
        WordsDiffer(n, start, k, i);
        assert values[..i][k] == values[k];
      }
    }
  }

  lemma WordOfLane(n: nat, addr: nat, off: nat)
    requires n > 0 && addr % n == 0 && off < n
    ensures (addr + off) / n * n == addr && (addr + off) % n == off
  {
    var q := addr / n;
    assert addr == q * n;
    DivideSum(q, n, off);
  }

  lemma DivideSum(q: nat, n: nat, off: nat)
    requires off < n
    ensures (q * n + off) / n == q && (q * n + off) % n == off
  {
    var x := q * n + off;
    assert x == x / n * n + x % n;
    QuotientIsUnique(n, q, off, x / n, x % n);
  }

  lemma QuotientIsUnique(n: nat, q: nat, off: nat, a: nat, b: nat)
    requires q * n + off == a * n + b && off < n && b < n
    ensures q == a && off == b
  {
    if q < a { Grows(q + 1, a, n); }
    if a < q { Grows(a + 1, q, n); }
  }

  lemma WordIsAligned(n: nat, start: nat, i: nat)
    requires n > 0
    ensures start % n == 0 ==> WordAt(n, start, i) % n == 0
  {
    if start % n == 0 {
      var q := start / n;
      assert start == q * n;
      assert start + i * n == (q + i) * n + 0;
      DivideSum(q + i, n, 0);
    }
  }

  /** Where nothing must be kept, the whole value may be written. */
  lemma WholeIsMasked(n: nat, word: Bits, value: Bits, mask: Bits, writeMask: Bits)
    requires writeMask - mask == {}
    ensures SameOn(n, value, Merge(word, value, mask), mask + writeMask)
  {
    forall k | k in mask + writeMask ensures k in mask { assert k !in writeMask - mask; }
  }

  /** Writing all bits of a fitting sub-word is the masked write on every bit that matters. */
  lemma LaneIsMasked(n: nat, word: Bits, value: Bits, mask: Bits, writeMask: Bits, l: Lane)
    requires l.Fits(mask, writeMask)
    ensures SameOn(n, Merge(word, value, l.Bits()), Merge(word, value, mask), mask + writeMask)
  {
    forall k | k in mask + writeMask
      ensures k in Merge(word, value, l.Bits()) <==> k in Merge(word, value, mask)
    {
      if k in mask { assert k !in mask - l.Bits(); } else { assert k !in (writeMask - mask) * l.Bits(); }
    }
  }
}
