/** The bitwise CRC reference of the CRC example, for any width, polynomial and start value. */
module Crc {
  import opened Gf2

  /** An unsigned int and an unsigned char, as their bits from the lowest up. */
  type Word = x: seq<bool> | |x| == 32 witness seq(32, _ => false)
  type Byte = x: seq<bool> | |x| == 8 witness seq(8, _ => false)

  function Zeros(n: nat): seq<bool> { seq(n, _ => false) }

  /** x << 1; the top bit is lost. */
  function Shl(x: Word): Word { [false] + x[..31] }

  function Shr(x: Word): Word { x[1..] + [false] }

  function Xor(x: Word, y: Word): Word { seq(32, i requires 0 <= i < 32 => x[i] != y[i]) }

  function Or(x: Word, y: Word): Word { seq(32, i requires 0 <= i < 32 => x[i] || y[i]) }

  /** 1 << w */
  function OneAt(w: nat): Word { seq(32, i => i == w) }

  /** x & ((1 << w) - 1) */
  function Low(x: Word, w: nat): Word { seq(32, i requires 0 <= i < 32 => i < w && x[i]) }

  // ---------------------------------------------------------------------------
  // What is to be computed

  /** The polynomial of the low w bits. */
  ghost function LowPoly(x: Word, w: nat): Poly {
    iset k: nat | k < w && k < 32 && x[k]
  }

  /** The divisor x^w + poly. */
  ghost function Generator(poly: Word, w: nat): Poly {
    LowPoly(poly, w) + iset{w}
  }

  /** The message bits in processing order: each byte from its top bit, or from its low bit when reflected. */
  function MessageBits(message: seq<Byte>, refin: bool): (r: seq<bool>)
    ensures |r| == 8 * |message|
  {
    if message == [] then []
    else MessageBits(message[..|message| - 1], refin) + ByteBits(message[|message| - 1], refin)
  }

  function ByteBits(b: Byte, refin: bool): Byte {
    if refin then b else ReverseByte(b)
  }

  function ReverseByte(b: Byte): Byte {
    seq(8, i requires 0 <= i < 8 => b[7 - i])
  }

  /** The first bit is the highest coefficient. */
  ghost function BitsPoly(bits: seq<bool>): Poly {
    iset k: nat | BitFromEnd(bits, k)
  }

  predicate BitFromEnd(bits: seq<bool>, k: nat) { k < |bits| && bits[|bits| - 1 - k] }

  /** Bit k from the end of the message, byte by byte: the last byte first, from its low bit up, or from its
      top bit down when reflected. */
  predicate MessageBit(message: seq<Byte>, refin: bool, k: nat) {
    k < 8 * |message| && message[|message| - 1 - k / 8][if refin then 7 - k % 8 else k % 8]
  }

  lemma BitOfConcat(bits: seq<bool>, last: Byte, k: nat)
    ensures BitFromEnd(bits + last, k) <==> if k < 8 then last[7 - k] else BitFromEnd(bits, k - 8)
  {
  }

  lemma BitOfByte(b: Byte, refin: bool, k: nat)
    requires k < 8
    ensures ByteBits(b, refin)[7 - k] == b[if refin then 7 - k else k]
  {
  }

  lemma BitOfMore(message: seq<Byte>, refin: bool, k: nat)
    requires message != []
    ensures var n := |message| - 1;
      MessageBit(message, refin, k)
      <==> if k < 8 then message[n][if refin then 7 - k else k] else MessageBit(message[..n], refin, k - 8)
  {
    if k >= 8 { assert (k - 8) / 8 == k / 8 - 1 && (k - 8) % 8 == k % 8; }
  }

  /** The exponents of the message polynomial are the message bits, counted from the end. */
  lemma {:induction false} MessageExponents(message: seq<Byte>, refin: bool, k: nat)
    ensures k in BitsPoly(MessageBits(message, refin)) <==> MessageBit(message, refin, k)
  {
    if message != [] {
      var n := |message| - 1;
      BitOfConcat(MessageBits(message[..n], refin), ByteBits(message[n], refin), k);
      BitOfMore(message, refin, k);
      if k < 8 { BitOfByte(message[n], refin, k); } else { MessageExponents(message[..n], refin, k - 8); }
    }
  }

  /** The dividend of the procedure, exponent by exponent: the start value in front of the message. */
  ghost predicate InDividend(init: Word, message: seq<Byte>, refin: bool, w: nat, k: nat) {
    var n := 8 * |message|;
    (n <= k < n + w && k - n < 32 && init[k - n]) != (k >= w && MessageBit(message, refin, k - w))
  }

  predicate InGenerator(poly: Word, w: nat, k: nat) { k == w || (k < w && k < 32 && poly[k]) }

  lemma DividendExponent(init: Word, message: seq<Byte>, refin: bool, w: nat, k: nat)
    ensures k in Dividend(init, MessageBits(message, refin), w) <==> InDividend(init, message, refin, w, k)
  {
    var bits := MessageBits(message, refin);
    assert k in Shift(LowPoly(init, w), |bits|) <==> |bits| <= k < |bits| + w && k - |bits| < 32 && init[k - |bits|];
    assert k in Shift(BitsPoly(bits), w) <==> k >= w && k - w in BitsPoly(bits);
    if k >= w { MessageExponents(message, refin, k - w); }
  }

  lemma DividendExponents(init: Word, message: seq<Byte>, refin: bool, w: nat)
    ensures forall k :: k in Dividend(init, MessageBits(message, refin), w) <==> InDividend(init, message, refin, w, k)
  {
    forall k: nat
      ensures k in Dividend(init, MessageBits(message, refin), w) <==> InDividend(init, message, refin, w, k)
    {
      DividendExponent(init, message, refin, w, k);
    }
  }

  /** init * x^n + M * x^w, for the n bits of M. */
  ghost function Dividend(init: Word, bits: seq<bool>, w: nat): Poly {
    Add(Shift(LowPoly(init, w), |bits|), Shift(BitsPoly(bits), w))
  }

  // ---------------------------------------------------------------------------
  // One bit

  /** The update for one message bit. Bits at and above w are never cleared. */
  function Step(crc: Word, poly: Word, w: nat, bit: bool): Word
    requires w < 32
  {
    var shifted := Shl(crc);
    var reduced := if shifted[w] then Xor(shifted, poly) else shifted;
    if bit then Xor(reduced, poly) else reduced
  }

  /** The polynomial has w bits. */
  ghost predicate Fits(poly: Word, w: nat) { forall i :: w <= i < 32 ==> !poly[i] }

  /** What is left above the low w bits has no influence on them, ever after. */
  lemma StaleBitsNeverMatter(crc: Word, stale: Word, poly: Word, w: nat, bit: bool)
    requires w < 32 && Low(crc, w) == Low(stale, w)
    ensures Low(Step(crc, poly, w, bit), w) == Low(Step(stale, poly, w, bit), w)
  {
    assert forall i :: 0 <= i < w ==> crc[i] == Low(crc, w)[i] && stale[i] == Low(stale, w)[i];
  }

  /** One step multiplies by x, adds x^w for a set message bit and subtracts a multiple of the generator. */
  lemma StepDivides(crc: Word, poly: Word, w: nat, bit: bool)
    requires 0 < w < 32 && Fits(poly, w)
    ensures Add(LowPoly(Step(crc, poly, w, bit), w), Add(Shift(LowPoly(crc, w), 1), Scale(bit, iset{w})))
            == Scale(crc[w - 1] != bit, Generator(poly, w))
  {
    var s := Step(crc, poly, w, bit);
    var l, r := Add(LowPoly(s, w), Add(Shift(LowPoly(crc, w), 1), Scale(bit, iset{w}))),
      Scale(crc[w - 1] != bit, Generator(poly, w));
    forall k: nat ensures k in l <==> k in r {
      if k < 32 { assert Shl(crc)[k] == (k > 0 && crc[k - 1]); }
    }
  }

  lemma DividendStep(init: Word, bits: seq<bool>, w: nat, bit: bool)
    ensures Dividend(init, bits + [bit], w) == Add(Shift(Dividend(init, bits, w), 1), Scale(bit, iset{w}))
  {
    var l, r := Dividend(init, bits + [bit], w), Add(Shift(Dividend(init, bits, w), 1), Scale(bit, iset{w}));
    assert forall k: nat :: k in BitsPoly(bits + [bit]) <==> (if k == 0 then bit else k - 1 in BitsPoly(bits));
    forall k: nat ensures k in l <==> k in r {}
  }

  /** The low bits stay the remainder of what was read. */
  lemma StepKeepsRemainder(crc: Word, init: Word, poly: Word, w: nat, bits: seq<bool>, bit: bool)
    requires 0 < w < 32 && Fits(poly, w)
    requires IsRemainder(LowPoly(crc, w), Dividend(init, bits, w), Generator(poly, w), w)
    ensures IsRemainder(LowPoly(Step(crc, poly, w, bit), w), Dividend(init, bits + [bit], w), Generator(poly, w), w)
  {
    var g, v, low := Generator(poly, w), Dividend(init, bits, w), LowPoly(crc, w);
    var q :| Times(q, g) == Add(low, v);
    var c, low' := crc[w - 1] != bit, LowPoly(Step(crc, poly, w, bit), w);
    StepDivides(crc, poly, w, bit);
    DividendStep(init, bits, w, bit);
    var longer := [c] + q;
    assert longer[1..] == q;
    assert Times(longer, g) == Add(Shift(Add(low, v), 1), Scale(c, g));
    var up := Scale(bit, iset{w});
    assert Add(Shift(Add(low, v), 1), Add(low', Add(Shift(low, 1), up))) == Add(low', Add(Shift(v, 1), up));
    assert Times(longer, g) == Add(low', Dividend(init, bits + [bit], w));
  }

  // ---------------------------------------------------------------------------
  // The procedure

  /** The low w bits, read from the other end when reflected. */
  ghost function Register(x: Word, w: nat, reflected: bool): Poly
    requires w <= 32
  {
    iset k: nat | RegisterBit(x, w, reflected, k)
  }

  predicate RegisterBit(x: Word, w: nat, reflected: bool, k: nat)
    requires w <= 32
  {
    k < w && x[if reflected then w - 1 - k else k]
  }

  /** calc_crc: the remainder of the message polynomial, and nothing above its w bits. */
  method CalcCrc(w: nat, poly: Word, init: Word, message: seq<Byte>, refin: bool, refout: bool) returns (r: Word)
    requires 0 < w < 32 && Fits(poly, w)
    ensures Fits(r, w)
    ensures IsRemainder(Register(r, w, refout), Dividend(init, MessageBits(message, refin), w), Generator(poly, w), w)
    ensures IsRemainder((iset k: nat | RegisterBit(r, w, refout, k)),
                        (iset k: nat | InDividend(init, message, refin, w, k)),
                        (iset k: nat | InGenerator(poly, w, k)), w)
  {
    DividendExponents(init, message, refin, w);
    assert (iset k: nat | InDividend(init, message, refin, w, k)) == Dividend(init, MessageBits(message, refin), w);
    assert (iset k: nat | InGenerator(poly, w, k)) == Generator(poly, w);
    var crc := init;
    StartIsRemainder(init, poly, w);
    for i := 0 to |message|
      invariant IsRemainder(LowPoly(crc, w), Dividend(init, MessageBits(message[..i], refin), w), Generator(poly, w), w)
    {
      crc := ReadByte(w, poly, init, MessageBits(message[..i], refin), crc, message[i], refin);
      assert message[..i + 1][..i] == message[..i];
    }
    assert message[..|message|] == message;
    assert LowPoly(Low(crc, w), w) == LowPoly(crc, w) == Register(Low(crc, w), w, false);
    crc := Low(crc, w);
    if !refout { return crc; }
    r := Reflect(crc, w);
    assert Register(r, w, true) == Register(crc, w, false);
  }

  lemma StartIsRemainder(init: Word, poly: Word, w: nat)
    ensures IsRemainder(LowPoly(init, w), Dividend(init, [], w), Generator(poly, w), w)
  {
    assert Add(LowPoly(init, w), Dividend(init, [], w)) == Times([], Generator(poly, w));
  }

  /** The bits of a byte still to be read, in the order they are read, where the shifting leaves them. */
  ghost predicate Pending(msg: Word, next: Byte, refin: bool, j: nat) {
    forall k :: j <= k < 8 ==> next[k] == msg[if refin then k - j else 7 - (k - j)]
  }

  lemma PendingAdvances(msg: Word, next: Byte, refin: bool, j: nat)
    requires j < 8 && Pending(msg, next, refin, j)
    ensures next[j] == msg[if refin then 0 else 7]
    ensures Pending(if refin then Shr(msg) else Shl(msg), next, refin, j + 1)
  {
  }

  /** The loop over the eight bits of a message byte. */
  method ReadByte(w: nat, poly: Word, init: Word, ghost bits: seq<bool>, start: Word, byte: Byte, refin: bool)
      returns (crc: Word)
    requires 0 < w < 32 && Fits(poly, w)
    requires IsRemainder(LowPoly(start, w), Dividend(init, bits, w), Generator(poly, w), w)
    ensures IsRemainder(LowPoly(crc, w), Dividend(init, bits + ByteBits(byte, refin), w), Generator(poly, w), w)
  {
    crc := start;
    var msg: Word := byte + Zeros(24);
    ghost var next := ByteBits(byte, refin);
    assert bits + next[..0] == bits;
    for j := 0 to 8
      invariant IsRemainder(LowPoly(crc, w), Dividend(init, bits + next[..j], w), Generator(poly, w), w)
      invariant Pending(msg, next, refin, j)
    {
      ghost var before := crc;
      PendingAdvances(msg, next, refin, j);
      crc := Shl(crc);
      if crc[w] { crc := Xor(crc, poly); }
      if !refin {
        if msg[7] { crc := Xor(crc, poly); }
        msg := Shl(msg);
      } else {
        if msg[0] { crc := Xor(crc, poly); }
        msg := Shr(msg);
      }
      assert crc == Step(before, poly, w, next[j]);
      StepKeepsRemainder(before, init, poly, w, bits + next[..j], next[j]);
      assert bits + next[..j] + [next[j]] == bits + next[..j + 1];
    }
    assert next[..8] == next;
  }

  /** y holds the low w bits of x in opposite order. */
  ghost predicate IsReflection(x: Word, y: Word, w: nat)
    requires w <= 32
  {
    forall i :: 0 <= i < 32 ==> y[i] == (i < w && x[w - 1 - i])
  }

  method Reflect(crc: Word, w: nat) returns (crcRef: Word)
    requires w < 32
    ensures IsReflection(crc, crcRef, w)
  {
    crcRef := Zeros(32);
    var crcMask := OneAt(w);
    for i := 0 to w
      invariant crcMask == OneAt(w - i)
      invariant forall k :: 0 <= k < 32 ==> crcRef[k] == (w - i <= k < w && crc[w - 1 - k])
    {
      crcMask := Shr(crcMask);
      if crc[i] { crcRef := Or(crcRef, crcMask); }
    }
  }

  /** Reflecting twice gives the register back. */
  lemma ReflectionIsInvolution(x: Word, y: Word, z: Word, w: nat)
    requires w <= 32 && Fits(x, w) && IsReflection(x, y, w) && IsReflection(y, z, w)
    ensures z == x && Register(y, w, true) == Register(x, w, false)
  {
    forall i | 0 <= i < 32 ensures z[i] == x[i] {
      if i < w { assert y[w - 1 - i] == x[i]; }
    }
    forall k: nat ensures RegisterBit(y, w, true, k) <==> RegisterBit(x, w, false, k) {}
  }

  /** Reading a message reflected is reading it with the bits of every byte reversed. */
  lemma {:induction false} RefinReversesBytes(message: seq<Byte>, reversed: seq<Byte>)
    requires |reversed| == |message| && forall i :: 0 <= i < |message| ==> reversed[i] == ReverseByte(message[i])
    ensures MessageBits(message, true) == MessageBits(reversed, false)
  {
    if message != [] {
      var n := |message| - 1;
      RefinReversesBytes(message[..n], reversed[..n]);
      assert ReverseByte(reversed[n]) == message[n];
    }
  }

  /** The result is the only one: two results of the same message are equal. */
  lemma CrcIsUnique(w: nat, poly: Word, v: Poly, refout: bool, r: Word, s: Word)
    requires 0 < w < 32 && Fits(poly, w) && Fits(r, w) && Fits(s, w)
    requires IsRemainder(Register(r, w, refout), v, Generator(poly, w), w)
    requires IsRemainder(Register(s, w, refout), v, Generator(poly, w), w)
    ensures r == s
  {
    RemainderIsUnique(Register(r, w, refout), Register(s, w, refout), v, Generator(poly, w), w);
    forall i | 0 <= i < 32 ensures r[i] == s[i] {
      if i < w {
        var k := if refout then w - 1 - i else i;
        assert k in Register(r, w, refout) <==> k in Register(s, w, refout);
      }
    }
  }

  /** Two messages of one length have the same CRC exactly when the generator divides the polynomial of
      the bits in which they differ: an error goes unseen only if it is such a multiple. */
  lemma UndetectedErrors(w: nat, poly: Word, init: Word, sent: seq<bool>, received: seq<bool>, refout: bool, r: Word,
                         s: Word)
    requires 0 < w < 32 && |sent| == |received|
    requires IsRemainder(Register(r, w, refout), Dividend(init, sent, w), Generator(poly, w), w)
    requires IsRemainder(Register(s, w, refout), Dividend(init, received, w), Generator(poly, w), w)
    ensures Register(r, w, refout) == Register(s, w, refout)
            <==> Divides(Generator(poly, w), Shift(BitsPoly(Difference(sent, received)), w))
  {
    var u, v := Dividend(init, sent, w), Dividend(init, received, w);
    SameRemainderIff(Register(r, w, refout), Register(s, w, refout), u, v, Generator(poly, w), w);
    assert Add(u, v) == Shift(BitsPoly(Difference(sent, received)), w);
  }

  function Difference(a: seq<bool>, b: seq<bool>): seq<bool>
    requires |a| == |b|
  {
    seq(|a|, i requires 0 <= i < |a| => a[i] != b[i])
  }
}
