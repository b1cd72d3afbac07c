/** A register entry of the Python package: desired and mirrored value against the device (RegfileEntry). */
module RegisterEntry {
  import opened BitSets
  import opened RegisterFields
  import opened PyDevice

  /** What a caller can do with an entry. */
  datatype Op =
    | Set(value: Bits)                        // set()
    | SetField(field: Field, value: Bits)     // field(name).set()
    | Update                                  // update()
    | Write(value: Bits)                      // write() without a mask
    | MaskedWrite(value: Bits, mask: Bits)    // write() with a mask
    | WriteField(field: Field, value: Bits)   // entry[name] = value
    | Read                                    // read()

  // ---------------------------------------------------------------------------
  // The register on its writable bits: what the entry shows and what the device holds.

  datatype Plain = Plain(desired: Bits, mirrored: Bits, held: Bits) {
    predicate Agrees() { mirrored == held }
  }

  function PlainStep(s: Plain, op: Op, wm: Bits): Plain {
    match op
    case Set(v) => s.(desired := v * wm)
    case SetField(f, v) => s.(desired := Merge(s.desired, f.Place(v) * wm, f.Mask()))
    case Update => Plain(s.desired, s.desired, s.desired)
    case Write(v) => Plain(v * wm, v * wm, v * wm)
    case MaskedWrite(v, m) => PlainWrite(s, v * wm, m)
    case WriteField(f, v) => PlainWrite(s, f.Place(v) * wm, f.Mask())
    case Read => Plain(s.held, s.held, s.held)
  }

  /** A masked write reaches the device in the mask only, but makes all of the desired value mirrored. */
  function PlainWrite(s: Plain, value: Bits, mask: Bits): Plain {
    var d := Merge(s.desired, value, mask);
    Plain(d, d, Merge(s.held, value, mask))
  }

  predicate In(f: Field, k: nat) { f.lsb <= k <= f.msb }

  /** Bit by bit, what an operation does to a writable bit. */
  ghost predicate StepMeans(s: Plain, op: Op, r: Plain, k: nat) {
    match op
    case Set(v) =>
      && (k in r.desired <==> k in v)
      && (k in r.mirrored <==> k in s.mirrored) && (k in r.held <==> k in s.held)
    case SetField(f, v) =>
      && (k in r.desired <==> if In(f, k) then k - f.lsb in v else k in s.desired)
      && (k in r.mirrored <==> k in s.mirrored) && (k in r.held <==> k in s.held)
    case Update =>
      && (k in r.desired <==> k in s.desired)
      && (k in r.mirrored <==> k in s.desired) && (k in r.held <==> k in s.desired)
    case Write(v) => (k in r.desired <==> k in v) && (k in r.mirrored <==> k in v) && (k in r.held <==> k in v)
    case MaskedWrite(v, m) =>
      && (k in r.desired <==> if k in m then k in v else k in s.desired)
      && (k in r.mirrored <==> k in r.desired)
      && (k in r.held <==> if k in m then k in v else k in s.held)
    case WriteField(f, v) =>
      && (k in r.desired <==> if In(f, k) then k - f.lsb in v else k in s.desired)
      && (k in r.mirrored <==> k in r.desired)
      && (k in r.held <==> if In(f, k) then k - f.lsb in v else k in s.held)
    case Read =>
      && (k in r.desired <==> k in s.held)
      && (k in r.mirrored <==> k in s.held) && (k in r.held <==> k in s.held)
  }

  lemma PlainStepMeans(s: Plain, op: Op, wm: Bits, k: nat)
    requires k in wm
    ensures StepMeans(s, op, PlainStep(s, op, wm), k)
  {
    match op
    case SetField(f, v) => PlacedBit(f, v, k);
    case WriteField(f, v) => PlacedBit(f, v, k);
    case _ =>
  }

  function PlainRun(s: Plain, ops: seq<Op>, wm: Bits): Plain {
    if ops == [] then s else PlainStep(PlainRun(s, ops[..|ops| - 1], wm), ops[|ops| - 1], wm)
  }

  /** No masked write while desired and mirrored value differ in writable bits outside its mask. */
  predicate Clean(s: Plain, op: Op, wm: Bits) {
    match op
    case MaskedWrite(_, m) => Differ(s.desired, s.mirrored) * (wm - m) == {}
    case WriteField(f, _) => Differ(s.desired, s.mirrored) * (wm - f.Mask()) == {}
    case _ => true
  }

  ghost predicate WithinMask(s: Plain, wm: Bits) { s.desired <= wm && s.mirrored <= wm && s.held <= wm }

  /** From agreement, an operation keeps agreement exactly if it is clean. */
  lemma StepAgreesIff(s: Plain, op: Op, wm: Bits)
    requires WithinMask(s, wm) && s.Agrees()
    ensures PlainStep(s, op, wm).Agrees() <==> Clean(s, op, wm)
    ensures WithinMask(PlainStep(s, op, wm), wm)
  {
    match op
    case MaskedWrite(v, m) => WriteAgreesIff(s, v * wm, m, wm);
    case WriteField(f, v) => WriteAgreesIff(s, f.Place(v) * wm, f.Mask(), wm);
    case _ =>
  }

  lemma WriteAgreesIff(s: Plain, value: Bits, mask: Bits, wm: Bits)
    requires WithinMask(s, wm) && s.Agrees()
    ensures PlainWrite(s, value, mask).Agrees() <==> Differ(s.desired, s.mirrored) * (wm - mask) == {}
  {
    var r := PlainWrite(s, value, mask);
    if Differ(s.desired, s.mirrored) * (wm - mask) == {} {
      forall k ensures k in r.mirrored <==> k in r.held {
        if k in wm && k !in mask { assert k !in Differ(s.desired, s.mirrored) * (wm - mask); }
      }
    }
    if r.Agrees() {
      forall k | k in wm - mask ensures k !in Differ(s.desired, s.mirrored) {
        assert k in r.mirrored <==> k in r.held;
      }
    }
  }

  function After(s: Plain, ops: seq<Op>, wm: Bits, k: nat): Plain
    requires k <= |ops|
  {
    PlainRun(s, ops[..k], wm)
  }

  ghost predicate CleanThroughout(s: Plain, ops: seq<Op>, wm: Bits) {
    forall i :: 0 <= i < |ops| ==> Clean(After(s, ops, wm, i), ops[i], wm)
  }

  ghost predicate AgreesThroughout(s: Plain, ops: seq<Op>, wm: Bits) {
    forall i :: 0 <= i <= |ops| ==> After(s, ops, wm, i).Agrees()
  }

  lemma AfterNext(s: Plain, ops: seq<Op>, wm: Bits, k: nat)
    requires k < |ops|
    ensures After(s, ops, wm, k + 1) == PlainStep(After(s, ops, wm, k), ops[k], wm)
  {
    assert ops[..k + 1][..k] == ops[..k];
  }

  lemma {:induction false} AfterWithin(s: Plain, ops: seq<Op>, wm: Bits, k: nat)
    requires WithinMask(s, wm) && k <= |ops|
    ensures WithinMask(After(s, ops, wm, k), wm)
  {
    if k > 0 {
      AfterWithin(s, ops, wm, k - 1);
      AfterNext(s, ops, wm, k - 1);
      PlainStepWithin(After(s, ops, wm, k - 1), ops[k - 1], wm);
    }
  }

  lemma {:induction false} CleanRunAgrees(s: Plain, ops: seq<Op>, wm: Bits, k: nat)
    requires WithinMask(s, wm) && s.Agrees() && CleanThroughout(s, ops, wm) && k <= |ops|
    ensures After(s, ops, wm, k).Agrees()
  {
    if k > 0 {
      CleanRunAgrees(s, ops, wm, k - 1);
      AfterWithin(s, ops, wm, k - 1);
      AfterNext(s, ops, wm, k - 1);
      StepAgreesIff(After(s, ops, wm, k - 1), ops[k - 1], wm);
    }
  }

  /** Agreement holds throughout a run exactly if every operation of it is clean. */
  lemma RunAgreesIff(s: Plain, ops: seq<Op>, wm: Bits)
    requires WithinMask(s, wm) && s.Agrees()
    ensures AgreesThroughout(s, ops, wm) <==> CleanThroughout(s, ops, wm)
  {
    if CleanThroughout(s, ops, wm) {
      forall k | 0 <= k <= |ops| ensures After(s, ops, wm, k).Agrees() { CleanRunAgrees(s, ops, wm, k); }
    }
    if AgreesThroughout(s, ops, wm) {
      forall i | 0 <= i < |ops| ensures Clean(After(s, ops, wm, i), ops[i], wm) {
        AfterWithin(s, ops, wm, i);
        AfterNext(s, ops, wm, i);
        assert After(s, ops, wm, i + 1).Agrees();
        StepAgreesIff(After(s, ops, wm, i), ops[i], wm);
      }
    }
  }

  lemma PlainStepWithin(s: Plain, op: Op, wm: Bits)
    requires WithinMask(s, wm)
    ensures WithinMask(PlainStep(s, op, wm), wm)
  {
  }

  /** The bits in which two values differ. */
  function Differ(a: Bits, b: Bits): Bits { (a - b) + (b - a) }

  class RegfileEntry {
    const dev: RegfileDev
    const address: nat
    const writeMask: Bits
    var desired: Bits
    var mirrored: Bits

    predicate Valid()
      reads this, dev
    {
      dev.Valid() && dev.Accepts(address) && writeMask <= Interval(0, 8 * dev.n)
    }

    /** The word the device holds. */
    function Held(): Bits
      reads this, dev
    {
      Rd(dev.mem, address)
    }

    /** Mirrored value and device agree on all writable bits. */
    predicate Agrees()
      reads this, dev
    {
      mirrored * writeMask == Held() * writeMask
    }

    /** Entry and device on the writable bits. */
    function Shown(): Plain
      reads this, dev
    {
      Plain(desired * writeMask, mirrored * writeMask, Held() * writeMask)
    }

    constructor (dev: RegfileDev, address: nat, writeMask: Bits, resetValue: Bits)
      requires dev.Valid() && dev.Accepts(address) && writeMask <= Interval(0, 8 * dev.n)
      ensures Valid() && this.dev == dev && this.address == address && this.writeMask == writeMask
      ensures desired == mirrored == resetValue
    {
      this.dev, this.address, this.writeMask, desired, mirrored := dev, address, writeMask, resetValue, resetValue;
    }

    /** _set_value: all desired bits become mirrored, the masked ones are written. Afterwards mirrored value
        and device agree exactly if the desired value agreed with the device outside the mask. */
    method SetValue(value: Bits, mask: Bits)
      requires Valid()
      modifies this`desired, this`mirrored, dev`mem
      ensures Valid() && desired == mirrored == Merge(old(desired), value, mask)
      ensures SameOn(dev.n, Held(), Merge(old(Held()), value, mask), mask + writeMask)
      ensures Agrees() <==> Differ(old(desired), old(Held())) * (writeMask - mask) == {}
      ensures old(Agrees()) ==> (Agrees() <==> Differ(old(desired), old(mirrored)) * (writeMask - mask) == {})
      ensures forall a :: a != address ==> Rd(dev.mem, a) == Rd(old(dev.mem), a)
    {
      desired := (desired - mask) + (value * mask);
      mirrored := desired;
      dev.RfdevWrite(address, value, mask, writeMask);
      AgreesIff(dev.n, old(desired), old(Held()), Held(), value, mask, writeMask);
      if old(Agrees()) { SameDifference(old(desired), old(mirrored), old(Held()), writeMask, mask); }
    }

    /** _get_value: the device's word becomes desired and mirrored. */
    method GetValue() returns (value: Bits)
      requires Valid()
      modifies this`desired, this`mirrored
      ensures Valid() && value == Held() && desired == mirrored == value
    {
      value := Rd(dev.mem, address);
      desired := value;
      mirrored := value;
    }

    method Set(value: Bits)
      modifies this`desired
      ensures desired == value
    {
      desired := value;
    }

    /** The set() of a field. */
    method SetField(field: Field, value: Bits)
      modifies this`desired
      ensures desired == Merge(old(desired), field.Place(value), field.Mask())
    {
      desired := desired - field.Mask();
      desired := desired + field.Place(value);
      PlaceIsMasked(field, value);
    }

    /** update() always re-establishes agreement, whatever happened before. */
    method Update()
      requires Valid()
      modifies this`desired, this`mirrored, dev`mem
      ensures Valid() && Agrees() && desired == mirrored == old(desired)
      ensures Held() * writeMask == old(desired) * writeMask
    {
      SetValue(desired, writeMask);
    }

    /** __setitem__: a masked write of one field. */
    method WriteField(field: Field, value: Bits)
      requires Valid()
      modifies this`desired, this`mirrored, dev`mem
      ensures Valid() && desired == mirrored == Merge(old(desired), field.Place(value), field.Mask())
      ensures SameOn(dev.n, Held(), Merge(old(Held()), field.Place(value), field.Mask()), field.Mask() + writeMask)
      ensures Agrees() <==> Differ(old(desired), old(Held())) * (writeMask - field.Mask()) == {}
      ensures old(Agrees()) ==> (Agrees() <==> Differ(old(desired), old(mirrored)) * (writeMask - field.Mask()) == {})
    {
      SetValue(field.Place(value), field.Mask());
    }

    /** write(), with the write mask if no mask is given. */
    method Write(value: Bits)
      requires Valid()
      modifies this`desired, this`mirrored, dev`mem
      ensures Valid() && Agrees() && desired == mirrored == Merge(old(desired), value, writeMask)
      ensures SameOn(dev.n, Held(), Merge(old(Held()), value, writeMask), writeMask + writeMask)
    {
      SetValue(value, writeMask);
    }
  }

  lemma PlaceIsMasked(f: Field, value: Bits)
    ensures f.Place(value) * f.Mask() == f.Place(value)
  {
    forall k | k in f.Place(value) ensures k in f.Mask() { PlacedBit(f, value, k); }
  }

  lemma AgreesIff(n: nat, desired: Bits, before: Bits, after: Bits, value: Bits, mask: Bits, wm: Bits)
    requires wm <= Interval(0, 8 * n) && SameOn(n, after, Merge(before, value, mask), mask + wm)
    ensures Merge(desired, value, mask) * wm == after * wm <==> Differ(desired, before) * (wm - mask) == {}
  {
    forall k | k in wm ensures k in after <==> k in Merge(before, value, mask) { assert k in mask + wm && k < 8 * n; }
    if Differ(desired, before) * (wm - mask) == {} {
      forall k | k in wm ensures k in Merge(desired, value, mask) <==> k in after {
        if k !in mask { assert k !in Differ(desired, before) * (wm - mask); }
      }
    }
    if Merge(desired, value, mask) * wm == after * wm {
      forall k | k in wm - mask ensures k !in Differ(desired, before) {
        assert k in Merge(desired, value, mask) * wm <==> k in after * wm;
      }
    }
  }

  lemma SameDifference(desired: Bits, mirrored: Bits, before: Bits, wm: Bits, mask: Bits)
    requires mirrored * wm == before * wm
    ensures Differ(desired, before) * (wm - mask) == Differ(desired, mirrored) * (wm - mask)
  {
    forall k | k in wm ensures k in mirrored <==> k in before {
      assert k in mirrored * wm <==> k in before * wm;
    }
  }

  /** A masked write after a set elsewhere: bit 0 is set but not written, so the mirrored value claims it. */
  lemma MaskedWriteAfterSet(after: Bits)
    requires SameOn(4, after, Merge({}, {1}, {1}), {1} + {0, 1})
    ensures Merge({0}, {1}, {1}) * {0, 1} != after * {0, 1}
  {
    AgreesIff(4, {0}, {}, after, {1}, {1}, {0, 1});
    assert 0 in Differ({0}, {}) * ({0, 1} - {1});
  }
}
