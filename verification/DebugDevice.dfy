/** The byte memory behind the sub-word device of the Python package (RegfileDevSubwordDebug). */
module DebugDevice {
  import opened PyDevice

  type Byte = b: nat | b < 256 witness 0

  type ByteMem = map<nat, Byte>

  function ByteAt(m: ByteMem, a: nat): Byte { if a in m then m[a] else 0 }

  /** Byte j of a value given by its bytes, lowest first. */
  function ByteOf(value: seq<Byte>, j: nat): Byte { if j < |value| then value[j] else 0 }

  /** The value has no more than n bytes, so that to_bytes succeeds. */
  predicate FitsWord(n: nat, value: seq<Byte>) { forall j :: n <= j < |value| ==> value[j] == 0 }

  /** The index of the byte that is stored at an address. */
  function ByteIndex(addr: nat): nat { addr % 4 }

  /** Memory and success after a number of bytes; an index beyond the bytes of the word stops the write. */
  datatype Progress = Progress(mem: ByteMem, ok: bool)

  function Stored(n: nat, m: ByteMem, addr: nat, value: seq<Byte>, count: nat): Progress {
    if count == 0 then Progress(m, true) else
      var before, a := Stored(n, m, addr, value, count - 1), addr + count - 1;
      if !before.ok || ByteIndex(a) >= n then Progress(before.mem, false)
      else Progress(before.mem[a := ByteOf(value, ByteIndex(a))], true)
  }

  /** The word at an address, lowest byte first. */
  function WordOf(m: ByteMem, addr: nat, n: nat): seq<Byte> {
    seq<Byte>(n, j requires 0 <= j => ByteAt(m, addr + j))
  }

  class RegfileDevSubwordDebug {
    const n: nat       // bytes per word
    var mem: ByteMem

    constructor (n: nat, mem: ByteMem)
      ensures this.n == n && this.mem == mem
    {
      this.n, this.mem := n, mem;
    }

    /** getvalue */
    method GetValue(addr: nat) returns (word: seq<Byte>)
      ensures word == WordOf(mem, addr, n)
    {
      word := [];
      for i := 0 to n
        invariant word == WordOf(mem, addr, i)
      {
        word := word + [ByteAt(mem, addr + i)];
      }
    }

    /** rfdev_write_subword: fails for a value longer than a word and for a byte index beyond the word. */
    method WriteSubword(addr: nat, value: seq<Byte>, size: nat) returns (ok: bool)
      modifies this`mem
      ensures if FitsWord(n, value)
        then Progress(mem, ok) == Stored(n, old(mem), addr, value, size)
        else !ok && mem == old(mem)
    {
      if !FitsWord(n, value) { return false; }
      for i := 0 to size
        invariant Stored(n, old(mem), addr, value, i) == Progress(mem, true)
      {
        if ByteIndex(addr + i) >= n {
          StaysStopped(n, old(mem), addr, value, i + 1, size);
          return false;
        }
        mem := mem[addr + i := ByteOf(value, ByteIndex(addr + i))];
      }
      return true;
    }
  }

  lemma {:induction false} StaysStopped(n: nat, m: ByteMem, addr: nat, value: seq<Byte>, i: nat, count: nat)
    requires i <= count && !Stored(n, m, addr, value, i).ok
    ensures Stored(n, m, addr, value, count) == Stored(n, m, addr, value, i)
    decreases count
  {
    if i < count { StaysStopped(n, m, addr, value, i, count - 1); }
  }

  // ---------------------------------------------------------------------------
  // What a write has to do

  /** The word with the lane replaced by the value's bytes. */
  function MergeLane(word: seq<Byte>, value: seq<Byte>, l: Lane): seq<Byte> {
    seq<Byte>(|word|, j requires 0 <= j < |word| =>
      if l.Offset() <= j < l.Offset() + l.bytes then ByteOf(value, j) else word[j])
  }

  /** Writing a sub-word at its address succeeds, and the word then reads as the old one with the lane replaced. */
  ghost predicate LaneWriteWorks(n: nat, m: ByteMem, addr: nat, value: seq<Byte>, l: Lane) {
    var after := Stored(n, m, addr + l.Offset(), value, l.bytes);
    after.ok && WordOf(after.mem, addr, n) == MergeLane(WordOf(m, addr, n), value, l)
  }

  ghost predicate Works(n: nat)
    requires n > 0
  {
    forall m, addr: nat, value, l: Lane {:trigger LaneWriteWorks(n, m, addr, value, l)} ::
      addr % n == 0 && FitsWord(n, value) && l.Valid(n) ==> LaneWriteWorks(n, m, addr, value, l)
  }

  /** With at least four bytes per word no index is out of range, and every byte is stored at its address. */
  lemma {:induction false} StoredByte(n: nat, m: ByteMem, addr: nat, value: seq<Byte>, count: nat, a: nat)
    requires n >= 4
    ensures var r := Stored(n, m, addr, value, count);
      r.ok && ByteAt(r.mem, a) == if addr <= a < addr + count then ByteOf(value, ByteIndex(a)) else ByteAt(m, a)
  {
    if count > 0 { StoredByte(n, m, addr, value, count - 1, a); }
  }

  lemma FourByteAt(m: ByteMem, addr: nat, value: seq<Byte>, o: nat, s: nat, j: nat)
    requires addr % 4 == 0 && j < 4
    ensures var r := Stored(4, m, addr + o, value, s);
      r.ok && ByteAt(r.mem, addr + j) == if o <= j < o + s then ByteOf(value, j) else ByteAt(m, addr + j)
  {
    StoredByte(4, m, addr + o, value, s, addr + j);
    assert ByteIndex(addr + j) == j;
  }

  lemma FourByteWritesWork(m: ByteMem, addr: nat, value: seq<Byte>, l: Lane)
    requires addr % 4 == 0 && l.Valid(4)
    ensures LaneWriteWorks(4, m, addr, value, l)
  {
    var o, s := l.Offset(), l.bytes;
    FourByteAt(m, addr, value, o, s, 0);
    FourByteAt(m, addr, value, o, s, 1);
    FourByteAt(m, addr, value, o, s, 2);
    FourByteAt(m, addr, value, o, s, 3);
    assert WordOf(Stored(4, m, addr + o, value, s).mem, addr, 4) == MergeLane(WordOf(m, addr, 4), value, l);
  }

  /** Words of more than four bytes lose byte 4 of the value: byte 0 is stored in its place. */
  lemma LongWordLosesByteFour(n: nat, value: seq<Byte>)
    requires n > 4 && ByteOf(value, 4) != ByteOf(value, 0)
    ensures Stored(n, map[], 0, value, n).ok && WordOf(Stored(n, map[], 0, value, n).mem, 0, n)[4] == ByteOf(value, 0)
    ensures !LaneWriteWorks(n, map[], 0, value, Lane(n, 0))
  {
    StoredByte(n, map[], 0, value, n, 4);
    assert Lane(n, 0).Offset() == 0;
    assert MergeLane(WordOf(map[], 0, n), value, Lane(n, 0))[4] == ByteOf(value, 4);
  }

  /** A full write of the value 1 << 32 to a word of eight bytes reads back as 0 in byte 4. */
  lemma EightByteWriteLosesByteFour()
    ensures var r := Stored(8, map[], 0, [0, 0, 0, 0, 1], 8);
      r.ok && WordOf(r.mem, 0, 8)[4] == 0 && !LaneWriteWorks(8, map[], 0, [0, 0, 0, 0, 1], Lane(8, 0))
  {
    LongWordLosesByteFour(8, [0, 0, 0, 0, 1]);
  }

  /** Words shorter than four bytes: at the second word the index is beyond the value. */
  lemma ShortWordFails(n: nat)
    requires 0 < n < 4
    ensures !LaneWriteWorks(n, map[], n, [], Lane(n, 0))
  {
    assert Lane(n, 0).Offset() == 0;
    assert ByteIndex(n) == n;
    assert !Stored(n, map[], n, [], 1).ok;
    StaysStopped(n, map[], n, [], 1, n);
  }

  /** The byte memory does what the sub-word device asks of it exactly if words have four bytes. */
  lemma WorksIffFourBytes(n: nat)
    requires n > 0
    ensures Works(n) <==> n == 4
  {
    var empty: ByteMem := map[];
    if n == 4 {
      forall m, addr: nat, value, l: Lane | addr % n == 0 && l.Valid(n) ensures LaneWriteWorks(n, m, addr, value, l) {
        FourByteWritesWork(m, addr, value, l);
      }
    } else if n < 4 {
      ShortWordFails(n);
      assert n % n == 0 && Lane(n, 0).Valid(n) && !LaneWriteWorks(n, empty, n, [], Lane(n, 0));
    } else {
      var value: seq<Byte> := [0, 0, 0, 0, 1];
      LongWordLosesByteFour(n, value);
      assert FitsWord(n, value) && Lane(n, 0).Valid(n) && !LaneWriteWorks(n, empty, 0, value, Lane(n, 0));
    }
  }
}
