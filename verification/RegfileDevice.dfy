/** The register-file devices of regfile_contrib.cpp: two back ends and two write caches that can be
    stacked in any order. The source's class hierarchy is one class here, and the virtual methods
    choose by kind.  */
module RegfileDevice {
  import opened MaskedMemory
  import opened Subword

  datatype Kind = Simple | SubwordWrites | Bitcache | Wordcache

  datatype CachedWrite = CachedWrite(addr: Addr, value: Word, mask: Word, unused: Word, valid: bool)

  predicate WordAligned(a: Addr) { a % 4 == 0 }

  /** Every bit of unused is in the bits that no reader may rely on. */
  predicate Within(unused: Word, bits: Word) { unused & !bits == 0 }

  /** What the interface allows: below byte lanes only whole words, and unused bits that are unused for readers too. */
  predicate IsRegular(w: Write, U: UnusedBits, lanes: bool) {
    (lanes ==> WordAligned(w.addr)) && Within(w.unused, U(w.addr))
  }

  class RegfileDev {
    const kind: Kind
    ghost const U: UnusedBits
    ghost const lanes: bool       // the back end of the stack writes through byte lanes
    ghost const depth: nat
    ghost const Repr: set<object>

    // Back ends: the words of the hardware behind the bus.
    var mem: Memory

    // Caches: the device below.
    const main: RegfileDev?
    var cacheEnabled: bool

    // Bit cache: one pending write.
    var cache: CachedWrite

    // Word cache: the pending writes in four parallel arrays.
    const addrList: array<Addr>
    const valueList: array<Word>
    const maskList: array<Word>
    const unusedList: array<Word>
    const seqlenMax: nat
    var seqlen: nat

    /** Nothing is pending in a disabled cache, and what is pending are writes the interface allows. */
    ghost predicate Sound()
      reads this, Repr
      decreases depth, 0
    {
      && this in Repr
      && (kind.Bitcache? || kind.Wordcache? ==>
        && main != null && main in Repr && main.Repr <= Repr && this !in main.Repr
        && main.depth < depth && main.U == U && main.lanes == lanes && main.Valid())
      && (kind.SubwordWrites? ==> lanes)
      && (kind.Bitcache? && cache.valid ==> cacheEnabled && IsRegular(Held(), U, lanes))
      && (kind.Wordcache? ==>
        && addrList in Repr && valueList in Repr && maskList in Repr && unusedList in Repr
        && addrList !in main.Repr && valueList !in main.Repr && maskList !in main.Repr && unusedList !in main.Repr
        && addrList as object !in {valueList, maskList, unusedList}
        && valueList != maskList && valueList != unusedList && maskList != unusedList
        && addrList.Length == valueList.Length == maskList.Length == unusedList.Length == seqlenMax
        && seqlen <= seqlenMax && seqlenMax >= 1
        && (seqlen > 0 ==> cacheEnabled)
        && forall w :: w in Pending() ==> IsRegular(w, U, lanes))
    }

    /** Between calls a word cache has room for one more write. */
    ghost predicate Valid()
      reads this, Repr
      ensures Valid() ==> Sound()
      decreases depth, 1
    {
      Sound() && (kind.Wordcache? ==> seqlen < seqlenMax)
    }

    /** The write the bit cache holds back. */
    ghost function Held(): Write
      reads this
    {
      HeldIn(cache)
    }

    /** The writes the word cache holds back, oldest first. */
    ghost function Pending(): seq<Write>
      requires seqlen <= addrList.Length == valueList.Length == maskList.Length == unusedList.Length
      reads this, addrList, valueList, maskList, unusedList
    {
      Zip(addrList[..seqlen], valueList[..seqlen], maskList[..seqlen], unusedList[..seqlen])
    }

    /** What a reader of this device will see: the memory below with the pending writes carried out. */
    ghost function View(): Memory
      requires Sound()
      reads this, Repr
      decreases depth
    {
      match kind
      case Simple => mem
      case SubwordWrites => mem
      case Bitcache => if cache.valid then Apply(main.View(), Held()) else main.View()
      case Wordcache => ApplyAll(main.View(), Pending())
    }

    // -------------------------------------------------------------------------
    // Construction

    constructor BackEnd(kind: Kind, mem: Memory, ghost U: UnusedBits)
      requires kind.Simple? || kind.SubwordWrites?
      ensures Valid() && fresh(Repr) && this.kind == kind && this.U == U && lanes == kind.SubwordWrites?
      ensures View() == mem
    {
      this.kind, this.mem, this.U, this.main, this.depth := kind, mem, U, null, 0;
      lanes := kind.SubwordWrites?;
      cacheEnabled, cache := false, CachedWrite(0, 0, 0, 0, false);
      addrList, valueList, maskList, unusedList := new Addr[0], new Word[0], new Word[0], new Word[0];
      seqlenMax, seqlen := 0, 0;
      Repr := {this};
    }

    constructor OverBitcache(main: RegfileDev)
      requires main.Valid()
      ensures Valid() && fresh(Repr - main.Repr) && U == main.U && lanes == main.lanes && kind == Bitcache
        && this.main == main
      ensures View() == main.View()
    {
      this.kind, this.mem, this.U, this.main, this.depth := Bitcache, map[], main.U, main, main.depth + 1;
      lanes := main.lanes;
      cacheEnabled, cache := false, CachedWrite(0, 0, 0, 0, false);
      addrList, valueList, maskList, unusedList := new Addr[0], new Word[0], new Word[0], new Word[0];
      seqlenMax, seqlen := 0, 0;
      Repr := {this} + main.Repr;
    }

    constructor OverWordcache(main: RegfileDev, maxseq: nat)
      requires main.Valid() && maxseq >= 1
      ensures Valid() && fresh(Repr - main.Repr) && U == main.U && lanes == main.lanes && kind == Wordcache
        && this.main == main
      ensures View() == main.View()
    {
      this.kind, this.mem, this.U, this.main, this.depth := Wordcache, map[], main.U, main, main.depth + 1;
      lanes := main.lanes;
      cacheEnabled, cache := false, CachedWrite(0, 0, 0, 0, false);
      var a, v, m, u := new Addr[maxseq](_ => 0), new Word[maxseq](_ => 0), new Word[maxseq](_ => 0),
        new Word[maxseq](_ => 0);
      addrList, valueList, maskList, unusedList := a, v, m, u;
      seqlenMax, seqlen := maxseq, 0;
      Repr := {this, a, v, m, u} + main.Repr;
    }

    // -------------------------------------------------------------------------
    // The back ends

    /** One bus write: only the addressed word changes, in the enabled byte lanes. */
    method WriteSubword(addr: Addr, value: Word, size: nat)
      requires kind.SubwordWrites? && 0 < size <= 4
      modifies this`mem
      ensures mem == AfterSubword(old(mem), addr, value, size)
    {
      var word := addr / 4 * 4;
      mem := mem[word := Merge(Rd(mem, word), value, StrobeBits(Strobe(addr, size)))];
    }

    /** regfile_dev_simple::rfdev_write */
    method WriteBySimple(addr: Addr, value: Word, mask: Word, unused: Word)
      requires kind.Simple?
      modifies this`mem
      ensures MaskedOnly(old(mem), mem, addr, value, mask, unused)
    {
      if KeepMask(mask, unused) == 0 {
        WholeWordWrite(Rd(mem, addr), value, mask, unused);
        WordWrite(mem, addr, value, value, mask, unused);
        mem := mem[addr := value];
      } else {
        var tdata := Rd(mem, addr);
        WordWrite(mem, addr, Merge(tdata, value, mask), value, mask, unused);
        mem := mem[addr := Merge(tdata, value, mask)];
      }
    }

    /** The write to a fitting sub-word. */
    method WriteLane(addr: Addr, value: Word, l: Lane, ghost mask: Word, ghost unused: Word)
      requires kind.SubwordWrites? && WordAligned(addr) && l.Valid() && l.Fits(mask, unused)
      modifies this`mem
      ensures MaskedOnly(old(mem), mem, addr, value, mask, unused)
    {
      ghost var before := mem;
      StrobeCoversLane(addr, l);
      WriteSubword(addr + l.index * l.bytes, value, l.bytes);
      LaneWriteIsMasked(before, mem, addr, value, l, mask, unused);
    }

    /** Read, modify and write the whole word. */
    method WriteMerged(addr: Addr, value: Word, mask: Word, ghost unused: Word)
      requires kind.SubwordWrites? && WordAligned(addr)
      modifies this`mem
      ensures MaskedOnly(old(mem), mem, addr, value, mask, unused)
    {
      var tdata := Rd(mem, addr);
      ghost var before := mem;
      WriteSubword(addr, Merge(tdata, value, mask), 4);
      MergedWriteIsMasked(before, mem, addr, value, mask, unused);
    }

    /** regfile_dev_subword::rfdev_write */
    method WriteBySubword(addr: Addr, value: Word, mask: Word, unused: Word)
      requires kind.SubwordWrites? && WordAligned(addr)
      modifies this`mem
      ensures MaskedOnly(old(mem), mem, addr, value, mask, unused)
    {
      var lane := ChooseLane(mask, unused);
      if lane.Some? {
        WriteLane(addr, value, lane.value, mask, unused);
      } else {
        WriteMerged(addr, value, mask, unused);
      }
    }

    // -------------------------------------------------------------------------
    // The device interface

    method RfdevRead(addr: Addr) returns (r: Word)
      requires Valid() && (lanes ==> WordAligned(addr))
      modifies Repr
      ensures Valid()
      ensures Same(View(), old(View()), U)
      ensures r == Rd(View(), addr)
      decreases depth, 1
    {
      match kind
      case Simple => r := Rd(mem, addr);
      case SubwordWrites => r := Rd(mem, addr);
      case Bitcache =>
        CacheFlush();
        ghost var flushed := View();
        r := main.RfdevRead(addr);
        SameIsTransitive(View(), flushed, old(View()), U);
      case Wordcache =>
        CacheFlush();
        ghost var flushed := View();
        r := main.RfdevRead(addr);
        SameIsTransitive(View(), flushed, old(View()), U);
    }

    method RfdevWrite(addr: Addr, value: Word, mask: Word, unused: Word)
      requires Valid() && IsRegular(Write(addr, value, mask, unused), U, lanes)
      modifies Repr
      ensures Valid()
      ensures Same(View(), Apply(old(View()), Write(addr, value, mask, unused)), U)
      decreases depth, 1
    {
      match kind
      case Simple =>
        WriteBySimple(addr, value, mask, unused);
        MaskedOnlyIsApply(old(mem), mem, Write(addr, value, mask, unused), U);
      case SubwordWrites =>
        WriteBySubword(addr, value, mask, unused);
        MaskedOnlyIsApply(old(mem), mem, Write(addr, value, mask, unused), U);
      case Bitcache => WriteByBitcache(addr, value, mask, unused);
      case Wordcache => WriteByWordcache(addr, value, mask, unused);
    }

    /** regfile_dev::rfdev_write_sequence */
    method RfdevWriteSequence(length: nat, addr: array<Addr>, value: array<Word>, mask: array<Word>,
                              unused: array<Word>)
      requires Valid() && length <= addr.Length == value.Length == mask.Length == unused.Length
      requires addr !in Repr && value !in Repr && mask !in Repr && unused !in Repr
      requires forall w :: w in Zip(addr[..length], value[..length], mask[..length], unused[..length]) ==>
        IsRegular(w, U, lanes)
      modifies Repr
      ensures Valid()
      ensures Same(View(),
        ApplyAll(old(View()), Zip(addr[..length], value[..length], mask[..length], unused[..length])), U)
      decreases depth, 2
    {
      ghost var ws := Zip(addr[..length], value[..length], mask[..length], unused[..length]);
      SameIsReflexive(View(), U);
      for i := 0 to length
        invariant Valid()
        invariant Same(View(), ApplyAll(old(View()), ws[..i]), U)
      {
        assert ws[i] in ws && ws[i] == Write(addr[i], value[i], mask[i], unused[i]);
        ghost var before := View();
        RfdevWrite(addr[i], value[i], mask[i], unused[i]);
        ApplyKeepsSame(before, ApplyAll(old(View()), ws[..i]), ws[i], U);
        SameIsTransitive(View(), Apply(before, ws[i]), Apply(ApplyAll(old(View()), ws[..i]), ws[i]), U);
        assert ws[..i + 1][..i] == ws[..i];
      }
      assert ws[..length] == ws;
    }

    // -------------------------------------------------------------------------
    // The caches

    /** regfile_dev_bitcache::rfdev_write */
    method WriteByBitcache(addr: Addr, value: Word, mask: Word, unused: Word)
      requires kind.Bitcache? && Valid() && IsRegular(Write(addr, value, mask, unused), U, lanes)
      modifies Repr
      ensures Valid()
      ensures Same(View(), Apply(old(View()), Write(addr, value, mask, unused)), U)
      decreases depth, 0, 2
    {
      ghost var w := Write(addr, value, mask, unused);
      if !cacheEnabled {
        main.RfdevWrite(addr, value, mask, unused);
        return;
      }
      if cache.valid { MergeOrFlush(addr, value, mask, unused); } else { SameIsReflexive(View(), U); }
      if !cache.valid {
        ApplyKeepsSame(View(), old(View()), w, U);
        cache := CachedWrite(addr, value, mask, unused, true);
        return;
      }
    }

    /** A write that fits joins the held write, before any other the held write is carried out. */
    method MergeOrFlush(addr: Addr, value: Word, mask: Word, unused: Word)
      requires kind.Bitcache? && Valid() && cache.valid && IsRegular(Write(addr, value, mask, unused), U, lanes)
      modifies Repr
      ensures Valid() && cacheEnabled == old(cacheEnabled)
      ensures cache.valid ==> Same(View(), Apply(old(View()), Write(addr, value, mask, unused)), U)
      ensures !cache.valid ==> Same(View(), old(View()), U)
      decreases depth, 0, 1
    {
      if cache.addr == addr && cache.unused == unused && Disjoint(cache.mask, mask) {
        ghost var below, held := main.View(), cache;
        MergeIntoHeld(value, mask);
        JoinedView(below, held, value, mask);
        SameIfEqual(View(), Apply(old(View()), Write(addr, value, mask, unused)), U);
      } else {
        CacheFlush();
      }
    }

    /** A write to the held word joins the held write. */
    method MergeIntoHeld(value: Word, mask: Word)
      requires kind.Bitcache? && Valid() && cache.valid
      modifies this`cache
      ensures Valid() && cache == JoinedCache(old(cache), value, mask) && main.View() == old(main.View())
    {
      JoinedIsRegular(cache, value, mask, U, lanes);
      cache := JoinedCache(cache, value, mask);
    }

    /** regfile_dev_wordcache::rfdev_write */
    method WriteByWordcache(addr: Addr, value: Word, mask: Word, unused: Word)
      requires kind.Wordcache? && Valid() && IsRegular(Write(addr, value, mask, unused), U, lanes)
      modifies Repr
      ensures Valid()
      ensures Same(View(), Apply(old(View()), Write(addr, value, mask, unused)), U)
      decreases depth, 0, 1
    {
      if !cacheEnabled {
        main.RfdevWrite(addr, value, mask, unused);
        return;
      }
      ghost var ws, w := Pending(), Write(addr, value, mask, unused);
      ghost var plain := Apply(View(), w);
      Enqueue(addr, value, mask, unused);
      assert View() == plain by { ApplyAllGrows(main.View(), ws, w); }
      SameIfEqual(View(), plain, U);
      if seqlen >= seqlenMax { CacheFlush(); }
    }

    method Enqueue(addr: Addr, value: Word, mask: Word, unused: Word)
      requires kind.Wordcache? && Valid() && cacheEnabled && IsRegular(Write(addr, value, mask, unused), U, lanes)
      modifies this`seqlen, addrList, valueList, maskList, unusedList
      ensures Sound() && seqlen == old(seqlen) + 1
      ensures Pending() == old(Pending()) + [Write(addr, value, mask, unused)]
    {
      ghost var ws, w := Pending(), Write(addr, value, mask, unused);
      ghost var a, v, m, u := addrList[..seqlen], valueList[..seqlen], maskList[..seqlen], unusedList[..seqlen];
      addrList[seqlen] := addr;
      valueList[seqlen] := value;
      maskList[seqlen] := mask;
      unusedList[seqlen] := unused;
      seqlen := seqlen + 1;
      assert addrList[..seqlen] == a + [addr] && valueList[..seqlen] == v + [value];
      assert maskList[..seqlen] == m + [mask] && unusedList[..seqlen] == u + [unused];
      ZipGrows(a, v, m, u, w);
    }

    method CacheEnable()
      requires Valid() && (kind.Bitcache? || kind.Wordcache?)
      modifies this`cacheEnabled
      ensures Valid() && cacheEnabled
      ensures View() == old(View())
    {
      cacheEnabled := true;
    }

    method CacheDisable()
      requires Valid() && (kind.Bitcache? || kind.Wordcache?)
      modifies Repr
      ensures Valid() && !cacheEnabled
      ensures Same(View(), old(View()), U)
    {
      CacheFlush();
      cacheEnabled := false;
    }

    /** Carries out what is pending; afterwards nothing is, and readers see the same memory. */
    method CacheFlush()
      requires Sound() && (kind.Bitcache? || kind.Wordcache?)
      modifies Repr
      ensures Valid() && cacheEnabled == old(cacheEnabled)
      ensures if kind.Bitcache? then !cache.valid else seqlen == 0
      ensures Same(View(), old(View()), U)
      decreases depth, 0, 0
    {
      SameIsReflexive(View(), U);
      if !cacheEnabled { return; }
      if kind.Bitcache? {
        if !cache.valid { return; }
        main.RfdevWrite(cache.addr, cache.value, cache.mask, cache.unused);
        cache := cache.(valid := false);
      } else {
        if seqlen <= 0 { return; }
        main.RfdevWriteSequence(seqlen, addrList, valueList, maskList, unusedList);
        seqlen := 0;
      }
    }

    /** The client switches the cache of the layer-th device of the stack on or off; back ends have none. */
    method SwitchLayer(layer: nat, on: bool)
      requires Valid()
      modifies Repr
      ensures Valid()
      ensures Same(View(), old(View()), U)
      decreases depth, 1
    {
      SameIsReflexive(View(), U);
      if kind.Simple? || kind.SubwordWrites? { return; }
      if layer == 0 {
        if on { CacheEnable(); } else { CacheDisable(); }
        return;
      }
      ghost var below := main.View();
      main.SwitchLayer(layer - 1, on);
      if kind.Bitcache? {
        if cache.valid { ApplyKeepsSame(main.View(), below, Held(), U); }
      } else {
        ApplyAllKeepsSame(main.View(), below, Pending(), U);
      }
    }
  }

  /** The addressed word holds the masked write on every masked or used bit, all other words are as before. */
  ghost predicate MaskedOnly(before: Memory, after: Memory, addr: Addr, value: Word, mask: Word, unused: Word) {
    && Agree(Rd(after, addr), Merge(Rd(before, addr), value, mask), unused & !mask)
    && forall a :: a != addr ==> Rd(after, a) == Rd(before, a)
  }

  lemma MaskedOnlyIsApply(before: Memory, after: Memory, w: Write, U: UnusedBits)
    requires MaskedOnly(before, after, w.addr, w.value, w.mask, w.unused) && Within(w.unused, U(w.addr))
    ensures Same(after, Apply(before, w), U)
  {
    AgreeOnFewerBits(Rd(after, w.addr), Rd(Apply(before, w), w.addr), w.unused, w.mask, U(w.addr));
    forall a ensures Agree(Rd(after, a), Rd(Apply(before, w), a), U(a)) {
      if a != w.addr { OtherWordsAgree(before, after, w, a, U(a)); }
    }
  }

  lemma OtherWordsAgree(before: Memory, after: Memory, w: Write, a: Addr, bits: Word)
    requires a != w.addr && Rd(after, a) == Rd(before, a)
    ensures Agree(Rd(after, a), Rd(Apply(before, w), a), bits)
  {
    assert Rd(Apply(before, w), a) == Rd(before, a);
    AgreesWithItself(Rd(before, a), bits);
  }

  lemma AgreesWithItself(word: Word, bits: Word)
    ensures Agree(word, word, bits)
  {
  }

  lemma AgreeOnFewerBits(a: Word, b: Word, unused: Word, mask: Word, bits: Word)
    requires Agree(a, b, unused & !mask) && Within(unused, bits)
    ensures Agree(a, b, bits)
  {
  }

  predicate Disjoint(m: Word, m': Word) { m & m' == 0 }

  function Or(m: Word, m': Word): Word { m | m' }

  /** One write for two to the same word. */
  function Joined(held: Write, w: Write): Write {
    Write(w.addr, Merge(held.value, w.value, w.mask), Or(held.mask, w.mask), w.unused)
  }

  function HeldIn(c: CachedWrite): Write { Write(c.addr, c.value, c.mask, c.unused) }

  function JoinedCache(c: CachedWrite, value: Word, mask: Word): CachedWrite {
    c.(mask := Or(c.mask, mask), value := Merge(c.value, value, mask))
  }

  lemma JoinedIsRegular(c: CachedWrite, value: Word, mask: Word, U: UnusedBits, lanes: bool)
    requires IsRegular(HeldIn(c), U, lanes)
    ensures IsRegular(HeldIn(JoinedCache(c, value, mask)), U, lanes)
  {
  }

  lemma JoinedView(below: Memory, c: CachedWrite, value: Word, mask: Word)
    requires Disjoint(c.mask, mask)
    ensures Apply(below, HeldIn(JoinedCache(c, value, mask))) ==
      Apply(Apply(below, HeldIn(c)), Write(c.addr, value, mask, c.unused))
  {
    MergeHeldWrite(below, HeldIn(c), Write(c.addr, value, mask, c.unused));
  }

  lemma ApplyTwice(m: Memory, held: Write, w: Write)
    requires held.addr == w.addr
    ensures Apply(Apply(m, held), w) == m[w.addr := Merge(Merge(Rd(m, w.addr), held.value, held.mask), w.value, w.mask)]
  {
    var x := Merge(Rd(m, w.addr), held.value, held.mask);
    assert m[w.addr := x][w.addr := Merge(x, w.value, w.mask)] == m[w.addr := Merge(x, w.value, w.mask)];
  }

  /** Two disjoint writes to one word are one write with both masks. */
  lemma MergeHeldWrite(m: Memory, held: Write, w: Write)
    requires held.addr == w.addr && Disjoint(held.mask, w.mask)
    ensures Apply(Apply(m, held), w) == Apply(m, Joined(held, w))
  {
    ApplyTwice(m, held, w);
    MergesJoin(Rd(m, w.addr), held.value, held.mask, w.value, w.mask);
  }

  lemma MergesJoin(a: Word, v: Word, m: Word, v': Word, m': Word)
    requires Disjoint(m, m')
    ensures Merge(Merge(a, v, m), v', m') == Merge(a, Merge(v, v', m'), Or(m, m'))
  {
  }

  function KeepMask(mask: Word, unused: Word): Word { !(mask | unused) }

  function Zip(addrs: seq<Addr>, values: seq<Word>, masks: seq<Word>, unuseds: seq<Word>): seq<Write>
    requires |addrs| == |values| == |masks| == |unuseds|
  {
    seq(|addrs|, i requires 0 <= i < |addrs| => Write(addrs[i], values[i], masks[i], unuseds[i]))
  }

  lemma ZipGrows(addrs: seq<Addr>, values: seq<Word>, masks: seq<Word>, unuseds: seq<Word>, w: Write)
    requires |addrs| == |values| == |masks| == |unuseds|
    ensures Zip(addrs + [w.addr], values + [w.value], masks + [w.mask], unuseds + [w.unused]) ==
            Zip(addrs, values, masks, unuseds) + [w]
  {
  }

  /** The memory after a write to a sub-word of an aligned word. */
  ghost function AfterLane(m: Memory, addr: Addr, value: Word, l: Lane): Memory
    requires l.Valid()
  {
    m[addr := Merge(Rd(m, addr), value, l.Bits())]
  }

  /** The memory after a bus write of size bytes at addr: the enabled byte lanes of the word there. */
  ghost function AfterSubword(m: Memory, addr: Addr, value: Word, size: nat): Memory
    requires 0 < size <= 4
  {
    var word := addr / 4 * 4;
    m[word := Merge(Rd(m, word), value, StrobeBits(Strobe(addr, size)))]
  }

  lemma LaneWritten(m: Memory, addr: Addr, value: Word, l: Lane)
    requires WordAligned(addr) && l.Valid()
    ensures addr + l.index * l.bytes < 0x1_0000_0000
    ensures AfterSubword(m, addr + l.index * l.bytes, value, l.bytes) == AfterLane(m, addr, value, l)
  {
    StrobeCoversLane(addr, l);
  }

  lemma LaneWriteIsMasked(m: Memory, after: Memory, addr: Addr, value: Word, l: Lane, mask: Word, unused: Word)
    requires WordAligned(addr) && l.Valid() && l.Fits(mask, unused) && addr + l.index * l.bytes < 0x1_0000_0000
    requires after == AfterSubword(m, addr + l.index * l.bytes, value, l.bytes)
    ensures MaskedOnly(m, after, addr, value, mask, unused)
  {
    LaneWritten(m, addr, value, l);
    LaneIsMasked(m, addr, value, l, mask, unused);
  }

  lemma LaneIsMasked(m: Memory, addr: Addr, value: Word, l: Lane, mask: Word, unused: Word)
    requires l.Valid() && l.Fits(mask, unused)
    ensures MaskedOnly(m, AfterLane(m, addr, value, l), addr, value, mask, unused)
  {
    FittingMerge(Rd(m, addr), value, mask, unused, l.Bits());
    WordWrite(m, addr, Merge(Rd(m, addr), value, l.Bits()), value, mask, unused);
  }

  lemma MergedWriteIsMasked(m: Memory, after: Memory, addr: Addr, value: Word, mask: Word, unused: Word)
    requires WordAligned(addr) && after == AfterSubword(m, addr, Merge(Rd(m, addr), value, mask), 4)
    ensures MaskedOnly(m, after, addr, value, mask, unused)
  {
    LaneWritten(m, addr, Merge(Rd(m, addr), value, mask), Lane(4, 0));
    WholeLane(Rd(m, addr), Merge(Rd(m, addr), value, mask));
    WordWrite(m, addr, Merge(Rd(m, addr), value, mask), value, mask, unused);
  }

  lemma WordWrite(before: Memory, addr: Addr, x: Word, value: Word, mask: Word, unused: Word)
    requires Agree(x, Merge(Rd(before, addr), value, mask), unused & !mask)
    ensures MaskedOnly(before, before[addr := x], addr, value, mask, unused)
  {
  }

  lemma WholeWordWrite(word: Word, value: Word, mask: Word, unused: Word)
    requires KeepMask(mask, unused) == 0
    ensures Agree(value, Merge(word, value, mask), unused & !mask)
  {
  }

  lemma InvertedWordShowsLanes(word: Word, bits: Word)
    ensures Merge(word, !word, bits) == !word <==> bits == 0xFFFF_FFFF
  {
  }

  /** Over byte lanes, writes of the whole word take effect in full exactly at word-aligned addresses. */
  lemma WholeWordWritesIff(m: Memory, addr: Addr)
    ensures WordAligned(addr) <==> forall value: Word :: TakesWhole(m, addr, value)
  {
    var word := Rd(m, addr / 4 * 4);
    WholeWordStrobeIff(addr);
    InvertedWordShowsLanes(word, StrobeBits(Strobe(addr, 4)));
    assert TakesWhole(m, addr, !word) <==> WordAligned(addr);
    if WordAligned(addr) {
      forall value: Word ensures TakesWhole(m, addr, value) { WholeLane(word, value); }
    }
  }

  ghost predicate TakesWhole(m: Memory, addr: Addr, value: Word) {
    Rd(AfterSubword(m, addr, value, 4), addr / 4 * 4) == value
  }

  /** Writing all byte lanes replaces the word. */
  lemma WholeLane(word: Word, value: Word)
    ensures Merge(word, value, Lane(4, 0).Bits()) == value
  {
  }
}
