/** Which bytes of a word a sub-word write touches, and which sub-word a masked write may use. */
module Subword {
  import opened Wrappers
  import opened MaskedMemory

  datatype Lane = Lane(bytes: nat, index: nat) {
    /** One of the aligned power-of-two sub-words of a 4-byte word. */
    predicate Valid() {
      (bytes == 4 || bytes == 2 || bytes == 1) && index * bytes < 4
    }

    /** The bits of the sub-word. */
    function Bits(): Word
      requires Valid()
    {
      if bytes == 4 then 0xFFFF_FFFF
      else if bytes == 2 then (if index == 0 then 0xFFFF else 0xFFFF_0000)
      else if index == 0 then 0xFF else if index == 1 then 0xFF00 else if index == 2 then 0xFF_0000 else 0xFF00_0000
    }

    predicate Fits(mask: Word, unused: Word)
      requires Valid()
    {
      Covers(Bits(), mask, unused)
    }

    /** The search tries wider sub-words first, then lower ones. */
    predicate Before(o: Lane) {
      bytes > o.bytes || (bytes == o.bytes && index < o.index)
    }
  }

  /** Writing all these bits overwrites no bit that must be kept, and every masked bit. */
  predicate Covers(bits: Word, mask: Word, unused: Word) {
    var keepMask := !(mask | unused);
    keepMask & bits == 0 && mask & !bits == 0
  }

  /** Of the sub-words with property p, the one tried first: a widest one. */
  ghost predicate IsFirst(p: Lane -> bool, l: Lane) {
    l.Valid() && p(l) && NoneBefore(p, l)
  }

  ghost predicate NoneBefore(p: Lane -> bool, l: Lane) {
    forall o: Lane :: o.Valid() && o.Before(l) ==> !p(o)
  }

  ghost function Fitting(mask: Word, unused: Word): Lane -> bool {
    (l: Lane) => l.Valid() && l.Fits(mask, unused)
  }

  function LowBytes(n: nat): Word {
    if n == 4 then 0xFFFF_FFFF else if n == 2 then 0xFFFF else 0xFF
  }

  /** Shifting the mask of the low bytes up selects the i-th sub-word of that size. */
  method ShiftToLane(n: nat, i: nat, subwordMask: Word) returns (r: Word)
    requires Lane(n, i).Valid() && subwordMask == LowBytes(n)
    ensures r == Lane(n, i).Bits()
  {
    if n == 4 { assert i == 0; }
    else if n == 2 { assert i == 0 || i == 1; }
    else { assert i == 0 || i == 1 || i == 2 || i == 3; }
    r := subwordMask << ((i * n * 8) as bv6);
  }

  /** Shifting it down by half a sub-word leaves the mask of the next smaller size. */
  method HalveMask(n: nat, subwordMask: Word) returns (r: Word)
    requires (n == 4 || n == 2 || n == 1) && subwordMask == LowBytes(n)
    ensures r == LowBytes(n / 2)
  {
    r := subwordMask >> ((n / 2 * 8) as bv6);
  }

  method FullMask() returns (r: Word)
    ensures r == LowBytes(4)
  {
    r := ((2 as Word) << 31) - 1;
  }

  lemma InRange(n: nat, i: nat)
    requires (n == 4 || n == 2 || n == 1) && i < 4 / n
    ensures i * n < 4
  {
  }

  lemma NextLane(p: Lane -> bool, n: nat, i: nat)
    requires NoneBefore(p, Lane(n, i)) && Lane(n, i).Valid() && !p(Lane(n, i))
    ensures NoneBefore(p, Lane(n, i + 1))
  {
    forall o: Lane | o.Valid() && o.Before(Lane(n, i + 1)) ensures !p(o) {
      assert o == Lane(n, i) || o.Before(Lane(n, i));
    }
  }

  lemma NextSize(p: Lane -> bool, n: nat)
    requires (n == 4 || n == 2 || n == 1) && NoneBefore(p, Lane(n, 4 / n))
    ensures NoneBefore(p, Lane(n / 2, 0))
  {
    forall o: Lane | o.Valid() && o.Before(Lane(n / 2, 0)) ensures !p(o) {
      assert o.Before(Lane(n, 4 / n));
    }
  }

  /** The inner loop: the sub-words of one size, lowest first. */
  method TryLanes(n: nat, subwordMask: Word, mask: Word, unused: Word, ghost p: Lane -> bool) returns (r: Option<Lane>)
    requires (n == 4 || n == 2 || n == 1) && subwordMask == LowBytes(n)
    requires p == Fitting(mask, unused) && NoneBefore(p, Lane(n, 0))
    ensures r.Some? ==> IsFirst(p, r.value)
    ensures r.None? ==> NoneBefore(p, Lane(n / 2, 0))
  {
    var i := 0;
    while i < 4 / n
      invariant 0 <= i <= 4 / n
      invariant NoneBefore(p, Lane(n, i))
    {
      InRange(n, i);
      var wordMask := ShiftToLane(n, i, subwordMask);
      if Covers(wordMask, mask, unused) { return Some(Lane(n, i)); }
      NextLane(p, n, i);
      i := i + 1;
    }
    NextSize(p, n);
    return None;
  }

  /** The search loop of regfile_dev_subword::rfdev_write: wider sub-words first. */
  method ChooseLane(mask: Word, unused: Word) returns (r: Option<Lane>)
    ensures r.Some? ==> IsFirst(Fitting(mask, unused), r.value)
    ensures r.None? ==> forall l: Lane :: !Fitting(mask, unused)(l)
  {
    ghost var p := Fitting(mask, unused);
    var subwordMask := FullMask();
    var n := 4;
    while n > 0
      invariant n == 4 || n == 2 || n == 1 || n == 0
      invariant subwordMask == LowBytes(n)
      invariant NoneBefore(p, Lane(n, 0))
    {
      r := TryLanes(n, subwordMask, mask, unused, p);
      if r.Some? { return; }
      subwordMask := HalveMask(n, subwordMask);
      n := n / 2;
    }
    return None;
  }

  /** Byte-enable signals of the bus for a write of size bytes at addr (apb_stim.h). */
  function Strobe(addr: Addr, size: nat): bv8
    requires 0 < size <= 4
  {
    (((1 as bv8) << (size as bv4)) - 1) << ((addr % 4) as bv3)
  }

  /** The bits the enabled byte lanes cover. */
  function StrobeBits(strb: bv8): Word {
    (if strb & 1 != 0 then 0xFF else 0) | (if strb & 2 != 0 then 0xFF00 else 0)
    | (if strb & 4 != 0 then 0xFF_0000 else 0) | (if strb & 8 != 0 then 0xFF00_0000 else 0)
  }

  /** A sub-word address at a word-aligned base enables exactly the byte lanes of the sub-word. */
  lemma StrobeCoversLane(addr: Addr, l: Lane)
    requires addr % 4 == 0 && l.Valid()
    ensures addr + l.index * l.bytes < 0x1_0000_0000
    ensures (addr + l.index * l.bytes) / 4 * 4 == addr
    ensures StrobeBits(Strobe(addr + l.index * l.bytes, l.bytes)) == l.Bits()
  {
    var n, i := l.bytes, l.index;
    if n == 4 { assert i == 0; }
    else if n == 2 { assert i == 0 || i == 1; }
    else { assert i == 0 || i == 1 || i == 2 || i == 3; }
  }

  /** A write of a whole word enables all its byte lanes exactly at a word-aligned address. */
  lemma WholeWordStrobeIff(addr: Addr)
    ensures StrobeBits(Strobe(addr, 4)) == 0xFFFF_FFFF <==> addr % 4 == 0
  {
    var k := addr % 4;
    if k == 0 { } else if k == 1 { } else if k == 2 { } else { assert k == 3; }
  }

  /** Writing all bits of a fitting sub-word is the masked write on every bit that matters. */
  lemma FittingMerge(word: Word, value: Word, mask: Word, unused: Word, bits: Word)
    requires Covers(bits, mask, unused)
    ensures Agree(Merge(word, value, bits), Merge(word, value, mask), unused & !mask)
  {
  }
}
