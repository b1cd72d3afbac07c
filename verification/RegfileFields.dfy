/** Bit fields of a register word (_reg_t of regfile_contrib.cpp), written and read through any device stack. */
module RegfileFields {
  import opened MaskedMemory
  import opened RegfileDevice

  function And(x: Word, mask: Word): Word { x & mask }

  function Up(x: Word, l: bv6): Word requires l <= 31 { x << l }

  function Down(x: Word, l: bv6): Word requires l <= 31 { x >> l }

  /** The mask the constructor computes, in wrapping 32-bit arithmetic. */
  function MaskOf(lsb: bv6, msb: bv6): Word
    requires lsb <= msb <= 31
  {
    ((2 as Word) << msb) - ((1 as Word) << lsb)
  }

  datatype Field = Field(lsb: bv6, msb: bv6, mask: Word) {
    ghost predicate Valid() { lsb <= msb <= 31 && mask == MaskOf(lsb, msb) }

    predicate InWord() { lsb <= msb <= 31 }

    /** The value the field has in a word. */
    function Get(word: Word): Word
      requires InWord()
    {
      Down(And(word, mask), lsb)
    }

    /** A value shifted to the field's position and cut to its mask. */
    function Place(value: Word): Word
      requires InWord()
    {
      And(Up(value, lsb), mask)
    }

    /** The low bits of a value, as many as the field is wide. */
    function Truncate(value: Word): Word
      requires InWord()
    {
      And(value, Ones(msb - lsb))
    }
  }

  /** d + 1 one bits. */
  function Ones(d: bv6): Word
    requires d <= 31
  {
    ((2 as Word) << d) - 1
  }

  predicate BitOf(word: Word, k: bv6)
    requires k <= 31
  {
    (word >> k) & 1 == 1
  }

  /** The mask is exactly bits lsb..msb, also for msb = 31 where the shifted 2 wraps to 0. */
  lemma MaskIsTheField(lsb: bv6, msb: bv6, k: bv6)
    requires lsb <= msb <= 31 && k <= 31
    ensures BitOf(MaskOf(lsb, msb), k) <==> lsb <= k <= msb
  {
  }

  lemma MaskIsShiftedOnes(lsb: bv6, msb: bv6)
    requires lsb <= msb <= 31
    ensures MaskOf(lsb, msb) == Up(Ones(msb - lsb), lsb)
  {
  }

  function Up1(x: Word): Word { x << 1 }

  lemma OneMoreUp(x: Word, l: bv6)
    requires 0 < l <= 31
    ensures Up(x, l) == Up1(Up(x, l - 1))
  {
  }

  lemma AndOfUp1(v: Word, w: Word)
    ensures And(Up1(v), Up1(w)) == Up1(And(v, w))
  {
  }

  lemma {:induction false} ShiftedAnd(v: Word, w: Word, l: bv6)
    requires l <= 31
    ensures And(Up(v, l), Up(w, l)) == Up(And(v, w), l)
    decreases l
  {
    if l > 0 {
      OneMoreUp(v, l);
      OneMoreUp(w, l);
      OneMoreUp(And(v, w), l);
      ShiftedAnd(v, w, l - 1);
      AndOfUp1(Up(v, l - 1), Up(w, l - 1));
    }
  }

  predicate Fits(x: Word, l: bv6)
    requires l <= 31
  {
    x <= (0xFFFF_FFFF as Word) >> l
  }

  lemma ShiftBack(x: Word, l: bv6)
    requires l <= 31 && Fits(x, l)
    ensures Down(Up(x, l), l) == x
  {
  }

  lemma TruncatedFits(v: Word, lsb: bv6, msb: bv6)
    requires lsb <= msb <= 31
    ensures Fits(And(v, Ones(msb - lsb)), lsb)
  {
  }

  lemma PlaceIsUp(value: Word, mask: Word, ones: Word, l: bv6)
    requires l <= 31 && mask == Up(ones, l)
    ensures And(Up(value, l), mask) == Up(And(value, ones), l)
  {
    ShiftedAnd(value, ones, l);
  }

  lemma DownOfUp(p: Word, t: Word, l: bv6)
    requires l <= 31 && Fits(t, l) && p == Up(t, l)
    ensures Down(p, l) == t
  {
    ShiftBack(t, l);
  }

  lemma DownOfAnd(value: Word, mask: Word, ones: Word, l: bv6)
    requires l <= 31 && mask == Up(ones, l) && Fits(And(value, ones), l)
    ensures Down(And(Up(value, l), mask), l) == And(value, ones)
  {
    PlaceIsUp(value, mask, ones, l);
    DownOfUp(And(Up(value, l), mask), And(value, ones), l);
  }

  /** Placing a value and shifting it back leaves the bits that fit. */
  lemma DownOfPlace(f: Field, value: Word)
    requires f.Valid()
    ensures Down(f.Place(value), f.lsb) == f.Truncate(value)
  {
    MaskIsShiftedOnes(f.lsb, f.msb);
    TruncatedFits(value, f.lsb, f.msb);
    DownOfAnd(value, MaskOf(f.lsb, f.msb), Ones(f.msb - f.lsb), f.lsb);
  }

  lemma MergedPart(word: Word, x: Word, mask: Word)
    ensures And(Merge(word, And(x, mask), mask), mask) == And(x, mask)
  {
  }

  lemma OutsideMerge(word: Word, value: Word, mask: Word, other: Word)
    requires Disjoint(mask, other)
    ensures And(Merge(word, value, mask), other) == And(word, other)
  {
  }

  /** Words that agree on the used bits agree on every mask of used bits. */
  lemma UsedPartAgrees(mask: Word, a: Word, b: Word, unused: Word)
    requires Agree(a, b, unused) && Disjoint(mask, unused)
    ensures And(a, mask) == And(b, mask)
  {
  }

  /** After a masked write: the masked part is the written one, and every disjoint used part is untouched. */
  lemma PartsAfter(after: Memory, before: Memory, addr: Addr, x: Word, mask: Word, unused: Word, U: UnusedBits)
    requires Same(after, Apply(before, Write(addr, And(x, mask), mask, unused)), U) && Disjoint(mask, U(addr))
    ensures And(Rd(after, addr), mask) == And(x, mask)
    ensures forall other {:trigger And(Rd(after, addr), other)} :: Disjoint(mask, other) && Disjoint(other, U(addr)) ==>
      And(Rd(after, addr), other) == And(Rd(before, addr), other)
    ensures forall a :: a != addr ==> Agree(Rd(after, a), Rd(before, a), U(a))
  {
    var plain := Apply(before, Write(addr, And(x, mask), mask, unused));
    assert Agree(Rd(after, addr), Rd(plain, addr), U(addr));
    UsedPartAgrees(mask, Rd(after, addr), Rd(plain, addr), U(addr));
    MergedPart(Rd(before, addr), x, mask);
    forall other | Disjoint(mask, other) && Disjoint(other, U(addr))
      ensures And(Rd(after, addr), other) == And(Rd(before, addr), other)
    {
      UsedPartAgrees(other, Rd(after, addr), Rd(plain, addr), U(addr));
      OutsideMerge(Rd(before, addr), And(x, mask), mask, other);
    }
    forall a | a != addr ensures Agree(Rd(after, a), Rd(before, a), U(a)) {
      assert Rd(plain, a) == Rd(before, a);
    }
  }

  /** The field reads as the value cut to its width. */
  ghost predicate Holds(m: Memory, addr: Addr, f: Field, value: Word) {
    f.InWord() && f.Get(Rd(m, addr)) == f.Truncate(value)
  }

  lemma OwnFieldAfter(after: Memory, before: Memory, addr: Addr, f: Field, value: Word, unused: Word, U: UnusedBits)
    requires f.Valid() && Disjoint(f.mask, U(addr))
    requires Same(after, Apply(before, Write(addr, f.Place(value), f.mask, unused)), U)
    ensures Holds(after, addr, f, value)
  {
    PartsAfter(after, before, addr, Up(value, f.lsb), f.mask, unused, U);
    DownOfPlace(f, value);
  }

  lemma OtherFieldAfter(after: Memory, before: Memory, addr: Addr, f: Field, value: Word, unused: Word, U: UnusedBits,
                        g: Field)
    requires f.Valid() && Disjoint(f.mask, U(addr)) && g.Valid() && Disjoint(g.mask, U(addr))
      && Disjoint(f.mask, g.mask)
    requires Same(after, Apply(before, Write(addr, f.Place(value), f.mask, unused)), U)
    ensures g.Get(Rd(after, addr)) == g.Get(Rd(before, addr))
  {
    PartsAfter(after, before, addr, Up(value, f.lsb), f.mask, unused, U);
    assert And(Rd(after, addr), g.mask) == And(Rd(before, addr), g.mask);
  }

  /** Fields of used bits beside f keep their values, other words their used bits. */
  ghost predicate OthersKept(after: Memory, before: Memory, addr: Addr, f: Field, U: UnusedBits) {
    && (forall g: Field {:trigger g.Get(Rd(after, addr))} ::
          g.Valid() && Disjoint(g.mask, U(addr)) && Disjoint(f.mask, g.mask) ==>
            g.Get(Rd(after, addr)) == g.Get(Rd(before, addr)))
    && (forall a :: a != addr ==> Agree(Rd(after, a), Rd(before, a), U(a)))
  }

  lemma OthersAfter(after: Memory, before: Memory, addr: Addr, f: Field, value: Word, unused: Word, U: UnusedBits)
    requires f.Valid() && Disjoint(f.mask, U(addr))
    requires Same(after, Apply(before, Write(addr, f.Place(value), f.mask, unused)), U)
    ensures OthersKept(after, before, addr, f, U)
  {
    forall g: Field | g.Valid() && Disjoint(g.mask, U(addr)) && Disjoint(f.mask, g.mask)
      ensures g.Get(Rd(after, addr)) == g.Get(Rd(before, addr))
    {
      OtherFieldAfter(after, before, addr, f, value, unused, U, g);
    }
    PartsAfter(after, before, addr, Up(value, f.lsb), f.mask, unused, U);
  }

  /** _reg_t::_reg_t_write: the field takes the truncated value, disjoint fields of the word keep theirs. */
  method WriteField(dev: RegfileDev, addr: Addr, unused: Word, f: Field, value: Word)
    requires dev.Valid() && (dev.lanes ==> WordAligned(addr)) && Within(unused, dev.U(addr))
    requires f.Valid() && Disjoint(f.mask, dev.U(addr))
    modifies dev.Repr
    ensures dev.Valid()
    ensures Holds(dev.View(), addr, f, value)
    ensures OthersKept(dev.View(), old(dev.View()), addr, f, dev.U)
  {
    ghost var before := dev.View();
    dev.RfdevWrite(addr, f.Place(value), f.mask, unused);
    OwnFieldAfter(dev.View(), before, addr, f, value, unused, dev.U);
    OthersAfter(dev.View(), before, addr, f, value, unused, dev.U);
  }

  /** _reg_t::_reg_t_read */
  method ReadField(dev: RegfileDev, addr: Addr, f: Field) returns (r: Word)
    requires dev.Valid() && (dev.lanes ==> WordAligned(addr)) && f.Valid() && Disjoint(f.mask, dev.U(addr))
    modifies dev.Repr
    ensures dev.Valid()
    ensures r == f.Get(Rd(old(dev.View()), addr))
    ensures Same(dev.View(), old(dev.View()), dev.U)
  {
    ghost var before := dev.View();
    var value := dev.RfdevRead(addr);
    r := f.Get(value);
    assert Agree(Rd(dev.View(), addr), Rd(before, addr), dev.U(addr));
    UsedPartAgrees(f.mask, value, Rd(before, addr), dev.U(addr));
  }
}
