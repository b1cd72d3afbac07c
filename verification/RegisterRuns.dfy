/** Whole runs of operations on a register entry. */
module RegisterRuns {
  import opened BitSets
  import opened RegisterFields
  import opened PyDevice
  import opened RegisterEntry

  lemma MergeShown(d: Bits, v: Bits, m: Bits, wm: Bits)
    ensures Merge(d, v, m) * wm == Merge(d * wm, v * wm, m)
  {
  }

  /** The device's word after a masked write, on the writable bits. */
  lemma HeldShown(n: nat, after: Bits, before: Bits, v: Bits, m: Bits, wm: Bits)
    requires wm <= Interval(0, 8 * n) && SameOn(n, after, Merge(before, v, m), m + wm)
    ensures after * wm == Merge(before * wm, v * wm, m)
  {
    forall k | k in wm ensures k in after <==> k in Merge(before, v, m) { assert k in m + wm && k < 8 * n; }
    MergeShown(before, v, m, wm);
  }

  /** _set_value in the terms of the plain register. */
  lemma ShownAfter(n: nat, s: Plain, desired: Bits, held: Bits, desired': Bits, held': Bits, value: Bits, mask: Bits,
                   wm: Bits)
    requires wm <= Interval(0, 8 * n) && s.desired == desired * wm && s.held == held * wm
    requires desired' == Merge(desired, value, mask) && SameOn(n, held', Merge(held, value, mask), mask + wm)
    ensures Plain(desired' * wm, desired' * wm, held' * wm) == PlainWrite(s, value * wm, mask)
  {
    MergeShown(desired, value, mask, wm);
    HeldShown(n, held', held, value, mask, wm);
  }

  /** One operation does to entry and device, on the writable bits, what it does to the plain register. */
  method Do(e: RegfileEntry, op: Op)
    requires e.Valid()
    modifies e, e.dev
    ensures e.Valid() && e.Shown() == PlainStep(old(e.Shown()), op, e.writeMask)
    ensures old(e.Agrees()) ==> (e.Agrees() <==> Clean(old(e.Shown()), op, e.writeMask))
  {
    ghost var s, wm, desired, held := e.Shown(), e.writeMask, e.desired, e.Held();
    match op {
      case Set(v) =>
        e.Set(v);
      case SetField(f, v) =>
        MergeShown(e.desired, f.Place(v), f.Mask(), wm);
        e.SetField(f, v);
      case Update =>
        e.Update();
      case Write(v) =>
        e.Write(v);
        ShownAfter(e.dev.n, s, desired, held, e.desired, e.Held(), v, wm, wm);
        WholeWrite(s, v, wm);
      case MaskedWrite(v, m) =>
        e.SetValue(v, m);
        ShownAfter(e.dev.n, s, desired, held, e.desired, e.Held(), v, m, wm);
      case WriteField(f, v) =>
        e.WriteField(f, v);
        ShownAfter(e.dev.n, s, desired, held, e.desired, e.Held(), f.Place(v), f.Mask(), wm);
      case Read =>
        var value := e.GetValue();
    }
    if old(e.Agrees()) { StepAgreesIff(s, op, wm); }
  }

  lemma WholeWrite(s: Plain, v: Bits, wm: Bits)
    requires WithinMask(s, wm)
    ensures PlainWrite(s, v * wm, wm) == Plain(v * wm, v * wm, v * wm)
  {
  }

  /** Every run refines the plain register; mirrored value and device agree at the end exactly if they do there. */
  method Run(e: RegfileEntry, ops: seq<Op>)
    requires e.Valid()
    modifies e, e.dev
    ensures e.Valid() && e.Shown() == PlainRun(old(e.Shown()), ops, e.writeMask)
    ensures e.Agrees() <==> PlainRun(old(e.Shown()), ops, e.writeMask).Agrees()
  {
    for i := 0 to |ops|
      invariant e.Valid() && e.Shown() == PlainRun(old(e.Shown()), ops[..i], e.writeMask)
    {
      assert ops[..i + 1][..i] == ops[..i];
      Do(e, ops[i]);
    }
    assert ops[..|ops|] == ops;
  }

  /** A run of clean operations from agreement ends in agreement. */
  method CleanRun(e: RegfileEntry, ops: seq<Op>)
    requires e.Valid() && e.Agrees()
    requires CleanThroughout(e.Shown(), ops, e.writeMask)
    modifies e, e.dev
    ensures e.Valid() && e.Agrees() && e.Shown() == PlainRun(old(e.Shown()), ops, e.writeMask)
  {
    CleanRunAgrees(e.Shown(), ops, e.writeMask, |ops|);
    assert ops[..|ops|] == ops;
    Run(e, ops);
  }

  /** Writing a dictionary: every writable field that is given holds its value cut to the field's width,
      every other writable field holds 0. */
  method WriteDict(e: RegfileEntry, fields: Fields, dict: Dict)
    requires e.Valid() && DisjointFields(fields)
    modifies e, e.dev
    ensures e.Valid() && e.Agrees()
    ensures forall n :: n in fields && fields[n].Mask() <= e.writeMask ==>
      fields[n].Get(e.Held()) == if n in dict then fields[n].Fit(dict[n]) else {}
  {
    var value := WriteValue(fields, dict, e.writeMask);
    e.Write(value);
    forall n | n in fields && fields[n].Mask() <= e.writeMask
      ensures fields[n].Get(e.Held()) == if n in dict then fields[n].Fit(dict[n]) else {}
    {
      FieldOfPlaced(fields, dict, Writable(fields, dict, e.writeMask), value, n);
      assert e.Held() * fields[n].Mask() == value * fields[n].Mask() by { HeldOfField(e, value, fields[n].Mask()); }
    }
  }

  lemma HeldOfField(e: RegfileEntry, value: Bits, mask: Bits)
    requires e.Agrees() && mask <= e.writeMask && e.mirrored * e.writeMask == value * e.writeMask
    ensures e.Held() * mask == value * mask
  {
    forall k | k in mask ensures k in e.Held() <==> k in value {
      assert k in e.mirrored * e.writeMask <==> k in e.Held() * e.writeMask;
      assert k in e.mirrored * e.writeMask <==> k in value * e.writeMask;
    }
  }
}
