/** Kernel stacks: `create_proc` takes them from the kernel heap, and the heap
    keeps them apart. */
module KernelStacks {
  import opened Machine
  import opened HeapModel
  import opened HeapBlocks
  import opened HeapOps
  import opened HeapTheorems
  import opened HeapRuns
  import opened HeapSafety

  const KSTACK_SIZE: U32 := 8192

  /** The heap, and the address `kmalloc` returned for each kernel stack; it is not
      checked, so it may be NULL. */
  datatype Stacks = Stacks(heap: HeapState, bases: seq<U32>)

  /** `CreateProc` allocates the process record, gives up if there is none, and then
      allocates the stack; everything else the kernel does with the heap is
      `Other`. */
  datatype StackOp = CreateProc(recordSize: U32) | Other(op: HeapOp)

  /** The block whose payload is at `p`. */
  function BlockAt(s: HeapState, p: U32): (b: Block) {
    var h := Sub32(p, 16);
    Block(h, HeaderSize(s.mem, h), HeaderUsed(s.mem, h) != 0)
  }

  lemma LiveBlockAt(s: HeapState, b: Block)
    requires Good(s) && Live(s, b)
    ensures 0 <= b.Payload() < TWO32 && BlockAt(s, b.Payload()) == b
    ensures s.start <= b.addr
  {
    hide Tagged;
    var k :| 0 <= k < |Blocks(s)| && Blocks(s)[k] == b;
    BlockOk(s, k);
    if k > 0 { Ascending(Blocks(s), s.start, s.end, 0, k); }
  }

  /** A live block of at least the size of a stack at `base`. */
  ghost predicate HasStack(s: HeapState, base: U32) {
    var b := BlockAt(s, base);
    Live(s, b) && b.Payload() == base && KSTACK_SIZE <= b.size
  }

  ghost predicate StacksOk(s: Stacks) {
    && Good(s.heap)
    && (forall i :: 0 <= i < |s.bases| && s.bases[i] != NULL ==> HasStack(s.heap, s.bases[i]))
    && forall i, j :: 0 <= i < j < |s.bases| && s.bases[i] == s.bases[j] ==> s.bases[i] == NULL
  }

  /** Allocations split soundly, and no kernel stack is freed. */
  ghost predicate LegalStackOp(s: Stacks, op: StackOp) {
    match op
    case CreateProc(recordSize) =>
      && AllocSafe(s.heap, recordSize)
      && (Alloc(s.heap, recordSize).1 != NULL ==> AllocSafe(Alloc(s.heap, recordSize).0, KSTACK_SIZE))
    case Other(op) => Legal(s.heap, op) && forall i :: 0 <= i < |s.bases| && s.bases[i] != NULL ==> op != FreeOp(s.bases[i])
  }

  function ApplyStackOp(s: Stacks, op: StackOp): Stacks {
    match op
    case CreateProc(recordSize) =>
      var (h1, record) := Alloc(s.heap, recordSize);
      if record == NULL then Stacks(h1, s.bases) else
      var (h2, base) := Alloc(h1, KSTACK_SIZE);
      Stacks(h2, s.bases + [base])
    case Other(op) => Stacks(Apply(s.heap, op), s.bases)
  }

  /** A served request yields a live block of at least the size asked for, at the
      address returned, that was not live before. */
  lemma AllocGivesLive(s: HeapState, size: U32)
    requires Good(s) && AllocSafe(s, size) && 0 < size <= 0xFFFF_FFF0 && Alloc(s, size).1 != NULL
    ensures var (s', p) := (Apply(s, AllocOp(size)), Alloc(s, size).1);
            var b := BlockAt(s', p);
            && s' == Alloc(s, size).0 && Live(s', b) && b.Payload() == p && size <= b.size
            && forall c :: Live(s, c) ==> c.Payload() != p
  {
    hide Alloc, AllocSafe, Rounded, Tagged;
    var k := AllocSite(s, size);
    AllocIsBigEnoughIff(s, size, k);
    AllocCarves(s, size, k);
    var (s', p) := Alloc(s, size);
    assert s'.headers[k] == Blocks(s')[k].addr;
    assert Blocks(s')[k] == BlockAt(s', p);
    forall c | Live(s, c) ensures c.Payload() != p {
      LiveDisjointPayload(s, c, k);
    }
  }

  lemma LiveDisjointPayload(s: HeapState, c: Block, k: nat)
    requires Good(s) && Live(s, c) && k < |Blocks(s)| && !Blocks(s)[k].used
    ensures c.Payload() != Blocks(s)[k].Payload()
  {
  }

  lemma HeapStep(s: Stacks, op: HeapOp)
    requires StacksOk(s) && Legal(s.heap, op)
    requires forall i :: 0 <= i < |s.bases| && s.bases[i] != NULL ==> op != FreeOp(s.bases[i])
    ensures StacksOk(Stacks(Apply(s.heap, op), s.bases)) && Apply(s.heap, op).start == s.heap.start
  {
    hide Good, Legal, Apply, BlockAt, Live;
    StepKeepsHeap(s.heap, op);
    forall i | 0 <= i < |s.bases| && s.bases[i] != NULL ensures HasStack(Apply(s.heap, op), s.bases[i]) {
      var b := BlockAt(s.heap, s.bases[i]);
      StepKeepsLive(s.heap, op, b);
      LiveBlockAt(Apply(s.heap, op), b);
    }
  }

  lemma StackStep(s: Stacks, op: StackOp)
    requires StacksOk(s) && LegalStackOp(s, op)
    ensures StacksOk(ApplyStackOp(s, op)) && ApplyStackOp(s, op).heap.start == s.heap.start
  {
    hide Good, Spares, AllocSafe, Alloc, StacksOk, FreeAccepts;
    match op
    case CreateProc(recordSize) =>
      HeapStep(s, AllocOp(recordSize));
      var (h1, record) := Alloc(s.heap, recordSize);
      if record != NULL { NewStack(Stacks(h1, s.bases)); }
    case Other(op) => HeapStep(s, op);
  }

  lemma NewStack(s: Stacks)
    requires StacksOk(s) && AllocSafe(s.heap, KSTACK_SIZE)
    ensures var (h, base) := Alloc(s.heap, KSTACK_SIZE);
            StacksOk(Stacks(h, s.bases + [base])) && h.start == s.heap.start
  {
    hide Good, AllocSafe, Alloc, BlockAt, Live;
    HeapStep(s, AllocOp(KSTACK_SIZE));
    var (h, base) := Alloc(s.heap, KSTACK_SIZE);
    if base != NULL {
      AllocGivesLive(s.heap, KSTACK_SIZE);
      forall i | 0 <= i < |s.bases| && s.bases[i] != NULL ensures s.bases[i] != base {
        assert HasStack(s.heap, s.bases[i]);
      }
    }
  }

  ghost predicate LegalStackRun(s: Stacks, ops: seq<StackOp>)
    decreases |ops|
  {
    ops != [] ==> LegalStackOp(s, ops[0]) && LegalStackRun(ApplyStackOp(s, ops[0]), ops[1..])
  }

  function AfterStackOps(s: Stacks, ops: seq<StackOp>): Stacks
    decreases |ops|
  {
    if ops == [] then s else AfterStackOps(ApplyStackOp(s, ops[0]), ops[1..])
  }

  lemma {:induction false} StackRun(s: Stacks, ops: seq<StackOp>)
    requires StacksOk(s) && LegalStackRun(s, ops)
    ensures StacksOk(AfterStackOps(s, ops)) && AfterStackOps(s, ops).heap.start == s.heap.start
    decreases |ops|
  {
    hide StacksOk, LegalStackOp, ApplyStackOp;
    if ops != [] {
      StackStep(s, ops[0]);
      StackRun(ApplyStackOp(s, ops[0]), ops[1..]);
    }
  }

  /** Stacks of 8 KiB from `a` and from `b` on do not overlap. */
  ghost predicate Apart(a: U32, b: U32) { a + 8192 <= b || b + 8192 <= a }

  lemma BasesApart(s: Stacks, i: nat, j: nat)
    requires StacksOk(s) && i < |s.bases| && j < |s.bases| && i != j && KSTACK_SIZE <= s.heap.start
    ensures Apart(s.bases[i], s.bases[j]) <==> s.bases[i] != NULL || s.bases[j] != NULL
  {
    hide Good, BlockAt, Live;
    var a, b := s.bases[i], s.bases[j];
    if a != NULL { LiveBlockAt(s.heap, BlockAt(s.heap, a)); }
    if b != NULL { LiveBlockAt(s.heap, BlockAt(s.heap, b)); }
    if a != NULL && b != NULL { StacksApart(s.heap, a, b); }
  }

  lemma StacksApart(s: HeapState, a: U32, b: U32)
    requires Good(s) && HasStack(s, a) && HasStack(s, b) && a != b
    ensures Apart(a, b)
  {
    hide Represents, Coalesced, Aligned, BlockAt;
    LiveDisjoint(s, BlockAt(s, a), BlockAt(s, b));
  }

  /** In every run from `kheap_init` the kernel stacks of two processes are disjoint
      exactly when not both allocations failed. The heap lies in the kernel half, far
      above the first 8 KiB. */
  lemma KernelStacksDisjointIff(m: Memory, start: U32, ops: seq<StackOp>, i: nat, j: nat)
    requires KSTACK_SIZE <= start && start + HEAP_BYTES < TWO32 && start % 16 == 0
    requires LegalStackRun(Stacks(InitialHeap(m, start), []), ops)
    requires var s := AfterStackOps(Stacks(InitialHeap(m, start), []), ops); i < |s.bases| && j < |s.bases| && i != j
    ensures var s := AfterStackOps(Stacks(InitialHeap(m, start), []), ops);
            Apart(s.bases[i], s.bases[j]) <==> s.bases[i] != NULL || s.bases[j] != NULL
  {
    hide InitialHeap, LegalStackRun, AfterStackOps, Good, HasStack, Apart;
    InitialGood(m, start);
    InitialRegion(m, start);
    StackRun(Stacks(InitialHeap(m, start), []), ops);
    BasesApart(AfterStackOps(Stacks(InitialHeap(m, start), []), ops), i, j);
  }

  // ----- two stacks in the same place

  lemma Served(s: HeapState, size: U32, k: nat)
    requires Good(s) && 0 < size && size % 16 == 0 && FirstFit(Blocks(s), size, k)
    requires SplitFits(Blocks(s)[k].size, size, |Blocks(s)|)
    ensures AllocSafe(s, size) && Good(Alloc(s, size).0) && Alloc(s, size).1 != NULL
    ensures Blocks(s)[k].Ok() && Blocks(Alloc(s, size).0) == AllocatedBlocks(Blocks(s), k, size)
  {
    hide Alloc, Represents, SplitFits, AllocatedBlocks, Aligned, Coalesced;
    AllocKeepsHeapIff(s, size, k);
    AllocCarves(s, size, k);
    AllocState(s, size, k);
    AllocatedCoalesced(Blocks(s), k, size);
    AllocSafeIff(s, size);
  }

  lemma Refused(s: HeapState, size: U32)
    requires Good(s) && 0 < size && size % 16 == 0
    requires forall i :: 0 <= i < |Blocks(s)| ==> !Fits(Blocks(s)[i], size)
    ensures AllocSafe(s, size) && Alloc(s, size) == (s, NULL)
  {
    hide Represents, Aligned, Coalesced, AllocFromBlock;
    AllocIsFirstFit(s, size);
    AllocSafeIff(s, size);
  }

  const MOST: U32 := HEAP_BYTES - 4160

  /** With less than a stack left, two processes are created whose kernel stacks are
      both the first 8 KiB. */
  lemma FailedStacksCoincide(m: Memory, start: U32)
    requires KSTACK_SIZE <= start && start + HEAP_BYTES < TWO32 && start % 16 == 0
    ensures var s, ops := Stacks(InitialHeap(m, start), []), [Other(AllocOp(MOST)), CreateProc(64), CreateProc(64)];
            LegalStackRun(s, ops) && AfterStackOps(s, ops).bases == [NULL, NULL]
  {
    hide InitialHeap, Alloc, Good, AllocSafe, Blocks;
    var s0 := InitialHeap(m, start);
    InitialGood(m, start);
    Served(s0, MOST, 0);
    var s1 := Alloc(s0, MOST).0;
    assert Blocks(s1) == [Block(start, MOST, true), Block(start + MOST + 32, 4096, false)];
    Served(s1, 64, 1);
    var s2 := Alloc(s1, 64).0;
    assert Blocks(s2)[2] == Block(start + MOST + 128, 4000, false) && |Blocks(s2)| == 3;
    Refused(s2, KSTACK_SIZE);
    Served(s2, 64, 2);
    var s3 := Alloc(s2, 64).0;
    Refused(s3, KSTACK_SIZE);
    var t0 := Stacks(s0, []);
    RunOfThree(t0, Other(AllocOp(MOST)), CreateProc(64), CreateProc(64));
  }

  lemma RunOfThree(s: Stacks, a: StackOp, b: StackOp, c: StackOp)
    ensures var s1 := ApplyStackOp(s, a);
            var s2 := ApplyStackOp(s1, b);
            && AfterStackOps(s, [a, b, c]) == ApplyStackOp(s2, c)
            && (LegalStackRun(s, [a, b, c]) <==> LegalStackOp(s, a) && LegalStackOp(s1, b) && LegalStackOp(s2, c))
  {
    hide ApplyStackOp, LegalStackOp;
    var s1 := ApplyStackOp(s, a);
    var s2 := ApplyStackOp(s1, b);
    assert [a, b, c][1..] == [b, c] && [b, c][1..] == [c] && [c][1..] == [];
    assert AfterStackOps(s2, [c]) == ApplyStackOp(s2, c) && AfterStackOps(s1, [b, c]) == AfterStackOps(s2, [c]);
    assert LegalStackRun(s2, [c]) <==> LegalStackOp(s2, c);
    assert LegalStackRun(s1, [b, c]) <==> LegalStackOp(s1, b) && LegalStackRun(s2, [c]);
  }
}
