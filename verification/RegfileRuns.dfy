/** Whole runs of a device stack, against plain masked memory. */
module RegfileRuns {
  import opened Wrappers
  import opened MaskedMemory
  import opened RegfileDevice

  /** What a client may do between construction and the end of a run. */
  datatype Op =
    | ReadOp(addr: Addr)
    | WriteOp(addr: Addr, value: Word, mask: Word, unused: Word)
    | SwitchOp(layer: nat, on: bool)

  datatype Observation = Observation(addr: Addr, word: Word)

  /** What the interface allows: below byte lanes only whole words, and unused bits that are unused for readers too. */
  ghost predicate Allowed(ops: seq<Op>, U: UnusedBits, lanes: bool) {
    forall i :: 0 <= i < |ops| ==> OpAllowed(ops[i], U, lanes)
  }

  ghost predicate OpAllowed(op: Op, U: UnusedBits, lanes: bool) {
    match op
    case ReadOp(a) => lanes ==> WordAligned(a)
    case WriteOp(a, v, k, u) => IsRegular(Write(a, v, k, u), U, lanes)
    case SwitchOp(_, _) => true
  }

  /** The plain memory after an operation: only writes matter. */
  ghost function PlainStep(m: Memory, op: Op): Memory {
    match op
    case WriteOp(a, v, k, u) => Apply(m, Write(a, v, k, u))
    case _ => m
  }

  ghost function PlainRun(m: Memory, ops: seq<Op>): Memory {
    if ops == [] then m else PlainStep(PlainRun(m, ops[..|ops| - 1]), ops[|ops| - 1])
  }

  /** The operation leaves these bits of the word at a alone. */
  predicate Spares(op: Op, a: Addr, bits: Word) {
    op.WriteOp? ==> op.addr != a || LieOutside(bits, op.mask)
  }

  lemma StepBits(m: Memory, op: Op, a: Addr, bits: Word)
    ensures Spares(op, a, bits) ==> SameBits(Rd(PlainStep(m, op), a), Rd(m, a), bits)
    ensures op.WriteOp? && op.addr == a && LieIn(bits, op.mask) ==> SameBits(Rd(PlainStep(m, op), a), op.value, bits)
  {
    if op.WriteOp? { WrittenBits(m, Write(op.addr, op.value, op.mask, op.unused), a, bits); }
  }

  /** Bits that every operation of the run leaves alone stay as they were. */
  lemma {:induction false} SparedBitsStay(m: Memory, ops: seq<Op>, a: Addr, bits: Word)
    requires forall j :: 0 <= j < |ops| ==> Spares(ops[j], a, bits)
    ensures SameBits(Rd(PlainRun(m, ops), a), Rd(m, a), bits)
  {
    if ops != [] {
      var n := |ops| - 1;
      SparedBitsStay(m, ops[..n], a, bits);
      StepBits(PlainRun(m, ops[..n]), ops[n], a, bits);
      SameBitsTwice(Rd(PlainRun(m, ops), a), Rd(PlainRun(m, ops[..n]), a), Rd(m, a), bits);
    }
  }

  /** The last write to some bits decides what they are after the run. */
  lemma {:induction false} LastWriteWins(m: Memory, ops: seq<Op>, i: nat, a: Addr, bits: Word)
    requires i < |ops| && ops[i].WriteOp? && ops[i].addr == a && LieIn(bits, ops[i].mask)
    requires forall j :: i < j < |ops| ==> Spares(ops[j], a, bits)
    ensures SameBits(Rd(PlainRun(m, ops), a), ops[i].value, bits)
  {
    var n := |ops| - 1;
    StepBits(PlainRun(m, ops[..n]), ops[n], a, bits);
    if i < n {
      LastWriteWins(m, ops[..n], i, a, bits);
      SameBitsTwice(Rd(PlainRun(m, ops), a), Rd(PlainRun(m, ops[..n]), a), ops[i].value, bits);
    }
  }

  /** What plain memory answers to the reads. */
  ghost function PlainReads(m: Memory, ops: seq<Op>): seq<Observation> {
    if ops == [] then [] else
      var before := ops[..|ops| - 1];
      match ops[|ops| - 1]
      case ReadOp(a) => PlainReads(m, before) + [Observation(a, Rd(PlainRun(m, before), a))]
      case _ => PlainReads(m, before)
  }

  /** The reads among the first n operations. */
  ghost function ReadsBefore(ops: seq<Op>, n: nat): set<nat> { set i: nat | i < n && i < |ops| && ops[i].ReadOp? }

  lemma ReadsGrow(ops: seq<Op>, n: nat)
    requires n < |ops|
    ensures |ReadsBefore(ops, n + 1)| == |ReadsBefore(ops, n)| + if ops[n].ReadOp? then 1 else 0
  {
    assert ReadsBefore(ops, n + 1) == if ops[n].ReadOp? then ReadsBefore(ops, n) + {n} else ReadsBefore(ops, n);
  }

  /** There is one answer per read, and it is what the operations before it have left at its address. */
  lemma {:induction false} AnswersInOrder(m: Memory, ops: seq<Op>, n: nat)
    requires n <= |ops|
    ensures |PlainReads(m, ops[..n])| == |ReadsBefore(ops, n)|
    ensures forall i :: 0 <= i < n && ops[i].ReadOp? ==> IsAnswered(m, ops, i, PlainReads(m, ops[..n]))
  {
    if n == 0 {
      assert ReadsBefore(ops, 0) == {};
    } else {
      AnswersInOrder(m, ops, n - 1);
      ReadsGrow(ops, n - 1);
      assert ops[..n][..n - 1] == ops[..n - 1];
      forall i | 0 <= i < n && ops[i].ReadOp? ensures IsAnswered(m, ops, i, PlainReads(m, ops[..n])) {
        if i < n - 1 { assert IsAnswered(m, ops, i, PlainReads(m, ops[..n - 1])); }
      }
    }
  }

  ghost predicate IsAnswered(m: Memory, ops: seq<Op>, i: nat, answers: seq<Observation>)
    requires i < |ops| && ops[i].ReadOp?
  {
    var k := |ReadsBefore(ops, i)|;
    k < |answers| && answers[k] == Observation(ops[i].addr, Rd(PlainRun(m, ops[..i]), ops[i].addr))
  }

  ghost predicate Indistinguishable(r: seq<Observation>, s: seq<Observation>, U: UnusedBits) {
    |r| == |s| && forall i :: 0 <= i < |r| ==> SameAnswer(r[i], s[i], U)
  }

  ghost predicate SameAnswer(a: Observation, b: Observation, U: UnusedBits) {
    a.addr == b.addr && Agree(a.word, b.word, U(a.addr))
  }

  lemma StepKeepsSame(after: Memory, before: Memory, plain: Memory, op: Op, U: UnusedBits)
    requires Same(after, PlainStep(before, op), U) && Same(before, plain, U)
    ensures Same(after, PlainStep(plain, op), U)
  {
    if op.WriteOp? { ApplyKeepsSame(before, plain, Write(op.addr, op.value, op.mask, op.unused), U); }
    SameIsTransitive(after, PlainStep(before, op), PlainStep(plain, op), U);
  }

  lemma OneMoreAnswer(r: seq<Observation>, s: seq<Observation>, a: Addr, view: Memory, plain: Memory, U: UnusedBits)
    requires Indistinguishable(r, s, U) && Same(view, plain, U)
    ensures Indistinguishable(r + [Observation(a, Rd(view, a))], s + [Observation(a, Rd(plain, a))], U)
  {
    assert Agree(Rd(view, a), Rd(plain, a), U(a));
    assert SameAnswer(Observation(a, Rd(view, a)), Observation(a, Rd(plain, a)), U);
  }

  /** One operation, and what it answers. */
  method Do(dev: RegfileDev, op: Op) returns (answer: Option<Observation>)
    requires dev.Valid() && OpAllowed(op, dev.U, dev.lanes)
    modifies dev.Repr
    ensures dev.Valid() && Same(dev.View(), PlainStep(old(dev.View()), op), dev.U)
    ensures answer == if op.ReadOp? then Some(Observation(op.addr, Rd(dev.View(), op.addr))) else None
  {
    answer := None;
    match op {
      case ReadOp(a) =>
        var r := dev.RfdevRead(a);
        answer := Some(Observation(a, r));
      case WriteOp(a, v, k, u) => dev.RfdevWrite(a, v, k, u);
      case SwitchOp(layer, on) => dev.SwitchLayer(layer, on);
    }
  }

  /** Whatever stack the device is, every run of reads, masked writes and cache switches returns,
      on all used bits, what the plain memory would have returned. */
  method Run(dev: RegfileDev, ops: seq<Op>) returns (answers: seq<Observation>)
    requires dev.Valid() && Allowed(ops, dev.U, dev.lanes)
    modifies dev.Repr
    ensures dev.Valid()
    ensures Indistinguishable(answers, PlainReads(old(dev.View()), ops), dev.U)
    ensures Same(dev.View(), PlainRun(old(dev.View()), ops), dev.U)
  {
    ghost var m, U := dev.View(), dev.U;
    answers := [];
    SameIsReflexive(m, U);
    for i := 0 to |ops|
      invariant dev.Valid()
      invariant Indistinguishable(answers, PlainReads(m, ops[..i]), U)
      invariant Same(dev.View(), PlainRun(m, ops[..i]), U)
    {
      assert ops[..i + 1][..i] == ops[..i];
      ghost var plain, before := PlainRun(m, ops[..i]), dev.View();
      var answer := Do(dev, ops[i]);
      StepKeepsSame(dev.View(), before, plain, ops[i], U);
      if answer.Some? {
        OneMoreAnswer(answers, PlainReads(m, ops[..i]), ops[i].addr, dev.View(), plain, U);
        answers := answers + [answer.value];
      }
    }
    assert ops[..|ops|] == ops;
  }
}
