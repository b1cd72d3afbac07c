/** Masked writes on a word-addressed memory: the reference every register device must agree with. */
module MaskedMemory {

  type Word = bv32
  type Addr = a: int | 0 <= a < 0x1_0000_0000

  /** A word memory; an address that was never written reads as 0. */
  type Memory = map<Addr, Word>

  /** Which bits of the word at an address belong to no field. */
  type UnusedBits = Addr -> Word

  datatype Write = Write(addr: Addr, value: Word, mask: Word, unused: Word)

  function Rd(m: Memory, a: Addr): Word {
    if a in m then m[a] else 0
  }

  /** Exactly the bits of the mask change. */
  function Merge(word: Word, value: Word, mask: Word): Word {
    (word & !mask) | (value & mask)
  }

  function Apply(m: Memory, w: Write): Memory {
    m[w.addr := Merge(Rd(m, w.addr), w.value, w.mask)]
  }

  predicate SameBits(a: Word, b: Word, bits: Word) { a & bits == b & bits }

  predicate LieIn(bits: Word, mask: Word) { bits & !mask == 0 }

  predicate LieOutside(bits: Word, mask: Word) { bits & mask == 0 }

  /** Bits of the mask come from the value, all others from the word. */
  lemma MergedBits(word: Word, value: Word, mask: Word, bits: Word)
    ensures LieIn(bits, mask) ==> SameBits(Merge(word, value, mask), value, bits)
    ensures LieOutside(bits, mask) ==> SameBits(Merge(word, value, mask), word, bits)
  {
  }

  /** After a write its address has the value in the mask; nothing else changes. */
  lemma WrittenBits(m: Memory, w: Write, a: Addr, bits: Word)
    ensures a == w.addr && LieIn(bits, w.mask) ==> SameBits(Rd(Apply(m, w), a), w.value, bits)
    ensures a != w.addr || LieOutside(bits, w.mask) ==> SameBits(Rd(Apply(m, w), a), Rd(m, a), bits)
  {
    MergedBits(Rd(m, w.addr), w.value, w.mask, bits);
  }

  lemma SameBitsTwice(a: Word, b: Word, c: Word, bits: Word)
    requires SameBits(a, b, bits) && SameBits(b, c, bits)
    ensures SameBits(a, c, bits)
  {
  }

  function ApplyAll(m: Memory, ws: seq<Write>): Memory {
    if ws == [] then m else Apply(ApplyAll(m, ws[..|ws| - 1]), ws[|ws| - 1])
  }

  /** Two words agree outside the unused bits. */
  predicate Agree(a: Word, b: Word, unused: Word) {
    a & !unused == b & !unused
  }

  ghost predicate Same(m: Memory, n: Memory, U: UnusedBits) {
    forall a {:trigger Rd(m, a)} {:trigger Rd(n, a)} :: Agree(Rd(m, a), Rd(n, a), U(a))
  }

  /** Words agree if and only if they have the same bits wherever no bit is unused. */
  lemma AgreeIff(a: Word, b: Word, unused: Word)
    ensures Agree(a, b, unused) <==> forall bits: Word :: LieOutside(bits, unused) ==> SameBits(a, b, bits)
  {
    UsedBits(a, b, unused);
    forall bits: Word | Agree(a, b, unused) && LieOutside(bits, unused) ensures SameBits(a, b, bits) {
      AgreeOn(a, b, unused, bits);
    }
  }

  lemma UsedBits(a: Word, b: Word, unused: Word)
    ensures LieOutside(!unused, unused) && (SameBits(a, b, !unused) <==> Agree(a, b, unused))
  {
  }

  lemma AgreeOn(a: Word, b: Word, unused: Word, bits: Word)
    requires Agree(a, b, unused) && LieOutside(bits, unused)
    ensures SameBits(a, b, bits)
  {
  }

  lemma SameIsReflexive(m: Memory, U: UnusedBits)
    ensures Same(m, m, U)
  {
  }

  lemma SameIfEqual(m: Memory, n: Memory, U: UnusedBits)
    requires m == n
    ensures Same(m, n, U)
  {
  }

  lemma SameIsTransitive(m: Memory, n: Memory, o: Memory, U: UnusedBits)
    requires Same(m, n, U) && Same(n, o, U)
    ensures Same(m, o, U)
  {
    forall a ensures Agree(Rd(m, a), Rd(o, a), U(a)) {
      assert Agree(Rd(m, a), Rd(n, a), U(a)) && Agree(Rd(n, a), Rd(o, a), U(a));
    }
  }

  /** Merging respects agreement of the words merged into. */
  lemma MergeAgrees(a: Word, b: Word, value: Word, mask: Word, unused: Word)
    requires Agree(a, b, unused)
    ensures Agree(Merge(a, value, mask), Merge(b, value, mask), unused)
  {
    UsedPartOfMerge(a, value, mask, unused);
    UsedPartOfMerge(b, value, mask, unused);
  }

  lemma UsedPartOfMerge(a: Word, value: Word, mask: Word, unused: Word)
    ensures Merge(a, value, mask) & !unused == ((a & !unused) & !mask) | (value & mask & !unused)
  {
  }

  lemma ApplyKeepsSame(m: Memory, n: Memory, w: Write, U: UnusedBits)
    requires Same(m, n, U)
    ensures Same(Apply(m, w), Apply(n, w), U)
  {
    forall a ensures Agree(Rd(Apply(m, w), a), Rd(Apply(n, w), a), U(a)) {
      assert Agree(Rd(m, a), Rd(n, a), U(a));
      if a == w.addr { MergeAgrees(Rd(m, a), Rd(n, a), w.value, w.mask, U(a)); }
    }
  }

  lemma ApplyAllGrows(m: Memory, ws: seq<Write>, w: Write)
    ensures ApplyAll(m, ws + [w]) == Apply(ApplyAll(m, ws), w)
  {
    assert (ws + [w])[..|ws|] == ws;
  }

  lemma {:induction false} ApplyAllKeepsSame(m: Memory, n: Memory, ws: seq<Write>, U: UnusedBits)
    requires Same(m, n, U)
    ensures Same(ApplyAll(m, ws), ApplyAll(n, ws), U)
  {
    if ws != [] {
      var k := |ws| - 1;
      ApplyAllKeepsSame(m, n, ws[..k], U);
      ApplyKeepsSame(ApplyAll(m, ws[..k]), ApplyAll(n, ws[..k]), ws[k], U);
    }
  }
}
