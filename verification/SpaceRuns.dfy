/** What the steps of the kernel do to address spaces, and what every run from boot
    keeps: the mapping window, the identity mapping, and the view of each process. */
module SpaceRuns {
  import opened Machine
  import opened Frames
  import opened Paging
  import opened KernelWindow
  import opened AddressSpaces

  // ----- the window in every run

  /** At boot no window slot is in use. */
  lemma BootWindow(bits: Bitmap, kt: nat)
    requires 0 < kt && kt + 256 <= 1024
    ensures Window(Boot(bits, kt).mmu.tabs, Boot(bits, kt).kernel, map[])
  {
    hide KernelTables, KernelPte, KernelEntry, EntryOk;
    BootEntries(kt);
    var k, tabs := KernelDirectory(kt), KernelTables(kt, 256);
    forall s | 0 <= s < SLOTS ensures Slot(tabs, k, s) == EMPTY_PTE {
      BootLookup(kt, SlotDir(s), s % 1024);
      EntryIsWalked(tabs, k, k, SlotDir(s), s % 1024);
      HighPte(SlotDir(s), s % 1024);
    }
  }

  lemma HighPte(i: nat, j: nat)
    requires KERN_HIGHMEM_START_TBL <= i
    ensures KernelPte(i, j) == EMPTY_PTE
  {
  }

  /** Unmapping what `kmap` returned for low memory takes the page away from the
      kernel itself. */
  lemma LowMapUnmapLosesPage(bits: Bitmap, kt: nat, pa: U32)
    requires 0 < kt && kt + 256 <= 1024 && 0 < pa < LOW_FRAMES * PAGE
    ensures var (k, tabs) := (Boot(bits, kt).kernel, Boot(bits, kt).mmu.tabs);
            var (tabs1, va) := KMap(tabs, k, pa);
            && tabs1 == tabs && va == KP2V(pa)
            && Walk(tabs, k, va) == Some(pa) && Walk(KUnmap(tabs1, k, va), k, va) == None
  {
    hide Walk, Window, KP2V, KUnmap, Boot;
    var (k, tabs) := (Boot(bits, kt).kernel, Boot(bits, kt).mmu.tabs);
    BootWindow(bits, kt);
    BootIdentity(bits, kt, pa);
    var op := WindowOp.UnmapOp(KP2V(pa));
    IdentityKeptIff(tabs, k, k, map[], [op], pa);
    assert Hits([op][0], pa);
    assert Run(tabs, k, map[], [op]).0 == KUnmap(tabs, k, KP2V(pa)) by {
      assert [op][1..] == [];
    }
  }

  /** The tables of the kernel half are the same. */
  ghost predicate SameKernel(w: World, w': World) {
    && w'.kernel == w.kernel
    && forall i :: KERN_START_TBL <= i < 1024 ==>
         var t := w.kernel.entries[i].frame; t in w.mmu.tabs && t in w'.mmu.tabs && w'.mmu.tabs[t] == w.mmu.tabs[t]
  }

  lemma SameKernelKeepsWindow(w: World, w': World, live: Live)
    requires Inv(w) && Inv(w') && SameKernel(w, w') && Window(w.mmu.tabs, w.kernel, live)
    ensures Window(w'.mmu.tabs, w'.kernel, live)
  {
    hide RolesOk, SpaceOk, Used, Coherent;
    forall s | 0 <= s < SLOTS ensures Slot(w'.mmu.tabs, w'.kernel, s) == Slot(w.mmu.tabs, w.kernel, s) {
      KernelShadow(w.mmu.tabs, w.kernel, SlotDir(s));
    }
  }

  lemma InvSameKernel(w: World)
    requires Inv(w)
    ensures SameKernel(w, w)
  {
    hide RolesOk, SpaceOk, Used;
    forall i | KERN_START_TBL <= i < 1024 ensures w.kernel.entries[i].frame in w.mmu.tabs {
      assert EntryOk(w.mmu.tabs, w.kernel, i);
    }
  }

  lemma MapOneSparesKernel(w: World, p: nat, n: nat, frame: nat, writable: bool)
    requires Inv(w) && p < |w.spaces| && n < KERN_START_TBL * 1024
    ensures SameKernel(w, MapOne(w, p, n, frame, writable).0)
  {
    hide MapPage, Used, SpaceOk, RolesOk, KernelOk;
    InvSameKernel(w);
    var i, j := n / 1024, n % 1024;
    InvMmuOk(w, p);
    MapPageMaps(w.mmu, w.spaces[p].dir, i, j, frame, writable);
    var (m, d, ok) := MapPage(w.mmu, w.spaces[p].dir, i, j, frame, writable);
    if ok { TableRole(w, p, i, d.entries[i].frame, m); }
  }

  lemma {:induction false} MapRangeSparesKernel(w: World, p: nat, page: nat, frame: nat, pages: nat, writable: bool)
    requires Inv(w) && p < |w.spaces| && page + pages <= KERN_START_TBL * 1024
    requires RangeHas(w.roles, frame, pages, Page(p))
    ensures SameKernel(w, MapRange(w, p, page, frame, pages, writable).0)
  {
    hide Inv, MapOne;
    InvSameKernel(w);
    if pages > 0 {
      MapRangeKeepsInv(w, p, page, frame, pages - 1, writable);
      MapRangeSparesKernel(w, p, page, frame, pages - 1, writable);
      var (w1, ok) := MapRange(w, p, page, frame, pages - 1, writable);
      if ok { MapOneSparesKernel(w1, p, page + pages - 1, frame + pages - 1, writable); }
    }
  }

  lemma CreateSparesKernel(w: World, stackSize: U32)
    requires Inv(w) && LegalStep(w, CreateOp(stackSize))
    ensures SameKernel(w, Create(w, stackSize).0)
  {
    hide Inv, AllocPages, StackPages, Clone, Terminates;
    InvSameKernel(w);
    var p := |w.spaces|;
    TakeKeepsInv(w, false, 2, Dir(p)) by { LowTerminates(w.mmu.bits, 2); }
    var (w1, a) := Take(w, false, 2, Dir(p));
    NewSpaceKeepsInv(w1, a / PAGE);
    var w2 := w1.(spaces := w1.spaces + [Space(a / PAGE, Clone(w1.kernel))]);
    TakeKeepsInv(w2, true, StackPages(stackSize), Page(p));
    var (w3, s) := Take(w2, true, StackPages(stackSize), Page(p));
    if s != 0 { MapRangeSparesKernel(w3, p, StackPage(stackSize), s / PAGE, StackPages(stackSize), true); }
  }

  lemma LowTerminates(bits: Bitmap, n: nat)
    ensures Terminates(bits, false, n)
  {
  }

  lemma MapHeldSparesKernel(w: World, p: nat, page: nat, frame: nat, pages: nat, writable: bool)
    requires Inv(w) && p < |w.spaces| && page + pages <= KERN_START_TBL * 1024
    requires RangeHas(w.roles, frame, pages, Held)
    ensures SameKernel(w, MapHeld(w, p, page, frame, pages, writable).0)
  {
    hide Used, MapRange, SpaceOk, KernelDirOk;
    var roles := Give(w.roles, frame, pages, Page(p));
    RegrowKeepsInv(w, w.mmu.bits, roles);
    MapRangeSparesKernel(w.(roles := roles), p, page, frame, pages, writable);
  }

  /** The live slots after a step, by the window's own bookkeeping. */
  function LiveStep(w: World, live: Live, op: WorldOp): Live {
    match op
    case KMapOp(paddr) => KernelWindow.Step(w.mmu.tabs, w.kernel, live, WindowOp.MapOp(paddr)).1
    case KUnmapOp(va) => KernelWindow.Step(w.mmu.tabs, w.kernel, live, WindowOp.UnmapOp(va)).1
    case _ => live
  }

  lemma WorldStepKeepsWindow(w: World, live: Live, op: WorldOp)
    requires Inv(w) && LegalStep(w, op) && Window(w.mmu.tabs, w.kernel, live)
    ensures var w' := ApplyOp(w, op); Window(w'.mmu.tabs, w'.kernel, LiveStep(w, live, op))
  {
    hide Inv, Create, MapHeld, KMap, KUnmap, Terminates, Window, SameKernel, AllocPages;
    StepKeepsInv(w, op);
    match op
    case TakeOp(high, n) =>
    case CreateOp(stackSize) => CreateSparesKernel(w, stackSize); SameKernelKeepsWindow(w, ApplyOp(w, op), live);
    case MapOp(p, page, frame, pages, writable) =>
      MapHeldSparesKernel(w, p, page, frame, pages, writable);
      SameKernelKeepsWindow(w, ApplyOp(w, op), live);
    case KMapOp(paddr) => StepKeepsWindow(w.mmu.tabs, w.kernel, live, WindowOp.MapOp(paddr));
    case KUnmapOp(va) => StepKeepsWindow(w.mmu.tabs, w.kernel, live, WindowOp.UnmapOp(va));
  }

  function LiveAfter(w: World, live: Live, ops: seq<WorldOp>): Live
    decreases |ops|
  {
    if ops == [] then live else LiveAfter(ApplyOp(w, ops[0]), LiveStep(w, live, ops[0]), ops[1..])
  }

  lemma {:induction false} WorldRunKeepsWindow(w: World, live: Live, ops: seq<WorldOp>)
    requires Inv(w) && LegalRun(w, ops) && Window(w.mmu.tabs, w.kernel, live)
    ensures var w' := After(w, ops); Window(w'.mmu.tabs, w'.kernel, LiveAfter(w, live, ops))
    decreases |ops|
  {
    hide Inv, LegalStep, ApplyOp, LiveStep, Window;
    if ops != [] {
      StepKeepsInv(w, ops[0]);
      WorldStepKeepsWindow(w, live, ops[0]);
      WorldRunKeepsWindow(ApplyOp(w, ops[0]), LiveStep(w, live, ops[0]), ops[1..]);
    }
  }

  /** In every run from boot, whatever processes were created and pages mapped
      meanwhile, each live result of `kmap` translates to its own physical byte in
      the kernel's directory and in that of every process. */
  lemma EveryRunKeepsWindow(bits: Bitmap, kt: nat, ops: seq<WorldOp>, s: nat, p: nat)
    requires 0 < kt && kt + 256 <= 1024
    requires forall f :: 0 <= f < 1024 ==> Used(bits, f)
    requires LegalRun(Boot(bits, kt), ops)
    requires s in LiveAfter(Boot(bits, kt), map[], ops) && s < SLOTS
    requires p < |After(Boot(bits, kt), ops).spaces|
    ensures var (w, live) := (After(Boot(bits, kt), ops), LiveAfter(Boot(bits, kt), map[], ops));
            && Walk(w.mmu.tabs, w.kernel, Result(live, s)) == Some(live[s])
            && Walk(w.mmu.tabs, w.spaces[p].dir, Result(live, s)) == Some(live[s])
            && KernelOnly(w.mmu.tabs, w.kernel, Result(live, s))
            && KernelOnly(w.mmu.tabs, w.spaces[p].dir, Result(live, s))
  {
    hide Boot, Used, LegalRun, After, LiveAfter, Walk, Window, KernelOk, Result, Coherent, KernelOnly;
    BootInv(bits, kt);
    BootWindow(bits, kt);
    WorldRunKeepsWindow(Boot(bits, kt), map[], ops);
    EveryRunIsCoherent(bits, kt, ops);
    var (w, live) := (After(Boot(bits, kt), ops), LiveAfter(Boot(bits, kt), map[], ops));
    LiveTranslates(w.mmu.tabs, w.kernel, w.kernel, live, s);
    LiveTranslates(w.mmu.tabs, w.kernel, w.spaces[p].dir, live, s);
  }

  /** The step unmaps the page at which low address `pa` is identity-mapped. */
  predicate HitsIdentity(op: WorldOp, pa: U32) { op.KUnmapOp? && op.va / PAGE == KP2V(pa) / PAGE }

  lemma WorldStepIdentity(w: World, live: Live, op: WorldOp, pa: U32)
    requires Inv(w) && LegalStep(w, op) && Window(w.mmu.tabs, w.kernel, live) && pa < LOW_FRAMES * PAGE
    ensures var w' := ApplyOp(w, op);
            IdentityEntry(w'.mmu.tabs, w'.kernel, pa) ==
            if HitsIdentity(op, pa) then EMPTY_PTE else IdentityEntry(w.mmu.tabs, w.kernel, pa)
  {
    hide Inv, Create, MapHeld, KMap, KUnmap, Terminates, Window, SameKernel, AllocPages, IdentityEntry;
    match op
    case TakeOp(high, n) =>
    case CreateOp(stackSize) => CreateSparesKernel(w, stackSize); SameIdentity(w, ApplyOp(w, op), pa);
    case MapOp(p, page, frame, pages, writable) =>
      MapHeldSparesKernel(w, p, page, frame, pages, writable);
      SameIdentity(w, ApplyOp(w, op), pa);
    case KMapOp(paddr) => StepIdentity(w.mmu.tabs, w.kernel, live, WindowOp.MapOp(paddr), pa);
    case KUnmapOp(va) => StepIdentity(w.mmu.tabs, w.kernel, live, WindowOp.UnmapOp(va), pa);
  }

  lemma SameIdentity(w: World, w': World, pa: U32)
    requires Inv(w) && SameKernel(w, w') && pa < LOW_FRAMES * PAGE
    ensures IdentityEntry(w'.mmu.tabs, w'.kernel, pa) == IdentityEntry(w.mmu.tabs, w.kernel, pa)
  {
    hide RolesOk, SpaceOk, Used, Coherent, KP2V;
    LowIndices(pa);
    KernelShadow(w.mmu.tabs, w.kernel, DirIdx(KP2V(pa)));
  }

  lemma {:induction false} WorldRunIdentity(w: World, live: Live, ops: seq<WorldOp>, pa: U32)
    requires Inv(w) && LegalRun(w, ops) && Window(w.mmu.tabs, w.kernel, live) && pa < LOW_FRAMES * PAGE
    ensures var w' := After(w, ops);
            IdentityEntry(w'.mmu.tabs, w'.kernel, pa) ==
            if exists i :: 0 <= i < |ops| && HitsIdentity(ops[i], pa) then EMPTY_PTE
            else IdentityEntry(w.mmu.tabs, w.kernel, pa)
    decreases |ops|
  {
    hide Inv, LegalStep, ApplyOp, LiveStep, Window, IdentityEntry, HitsIdentity;
    if ops != [] {
      StepKeepsInv(w, ops[0]);
      WorldStepKeepsWindow(w, live, ops[0]);
      WorldStepIdentity(w, live, ops[0], pa);
      WorldRunIdentity(ApplyOp(w, ops[0]), LiveStep(w, live, ops[0]), ops[1..], pa);
      if i :| 0 <= i < |ops| && HitsIdentity(ops[i], pa) {
        if i > 0 { assert ops[i] == ops[1..][i - 1]; }
      }
    }
  }

  /** In every run from boot a low byte stays at its fixed offset, writable for the
      kernel and closed to user mode, in the kernel's directory and in every
      process's, exactly as long as no `kunmap` was given its page. */
  lemma EveryRunKeepsIdentityIff(bits: Bitmap, kt: nat, ops: seq<WorldOp>, pa: U32, d: Directory)
    requires 0 < kt && kt + 256 <= 1024
    requires forall f :: 0 <= f < 1024 ==> Used(bits, f)
    requires LegalRun(Boot(bits, kt), ops) && pa < LOW_FRAMES * PAGE
    requires SharesKernel(After(Boot(bits, kt), ops).kernel, d)
    ensures var tabs := After(Boot(bits, kt), ops).mmu.tabs;
            if exists i :: 0 <= i < |ops| && HitsIdentity(ops[i], pa) then Walk(tabs, d, KP2V(pa)) == None
            else Walk(tabs, d, KP2V(pa)) == Some(pa) && KernelOnly(tabs, d, KP2V(pa))
  {
    hide Boot, Used, LegalRun, After, Window, KernelOk, Coherent, HitsIdentity, KP2V, SharesKernel, Lookup, KernelEntry;
    var w0, w := Boot(bits, kt), After(Boot(bits, kt), ops);
    LowIndices(pa);
    BootInv(bits, kt);
    BootWindow(bits, kt);
    BootIdentity(bits, kt, pa);
    WorldRunIdentity(w0, map[], ops, pa);
    EveryRunIsCoherent(bits, kt, ops);
    var i, j := DirIdx(KP2V(pa)), TblIdx(KP2V(pa));
    EntryIsWalked(w0.mmu.tabs, w0.kernel, w0.kernel, i, j) by { SharesItself(w0.kernel); WindowKernelOk(w0.mmu.tabs, w0.kernel, map[]); }
    EntryIsWalked(w.mmu.tabs, w.kernel, d, i, j);
  }

  lemma SharesItself(k: Directory)
    ensures SharesKernel(k, k)
  {
  }

  lemma WindowKernelOk(tabs: Tables, k: Directory, live: Live)
    requires Window(tabs, k, live)
    ensures KernelOk(tabs, k)
  {
  }

  // ----- what create_proc and the mapping of held frames achieve

  lemma CloneMapsNoUserPage(tabs: Tables, k: Directory, va: U32)
    requires va < KERNEL_BASE
    ensures Walk(tabs, Clone(k), va) == None
  {
    IndicesRebuild(va);
  }

  /** The stack of a new process is mapped: the pages from that of its lowest byte up
      to the kernel half go, writable, to consecutive frames from `base` on that were
      free before, and nothing below them is mapped. */
  ghost predicate StackMapped(w: World, w': World, stackSize: U32, base: nat)
    requires stackSize <= STACK_TOP && |w'.spaces| == |w.spaces| + 1
  {
    var low := STACK_TOP - stackSize - (STACK_TOP - stackSize) % PAGE;
    var (tabs, d) := (w'.mmu.tabs, w'.spaces[|w.spaces|].dir);
    && base + (KERNEL_BASE - low) / PAGE <= FRAMES && FreeRun(w.mmu.bits, base, (KERNEL_BASE - low) / PAGE)
    && (forall va: U32 :: low <= va < KERNEL_BASE ==>
          UserWalk(tabs, d, va) == Some(base * PAGE + (va - low)) && UserCanWrite(tabs, d, va))
    && (forall va: U32 :: va < low ==> Walk(tabs, d, va) == None)
  }

  lemma StackGeometry(stackSize: U32)
    requires stackSize <= STACK_TOP
    ensures var low := STACK_TOP - stackSize - (STACK_TOP - stackSize) % PAGE;
            && low % PAGE == 0 && low / PAGE == StackPage(stackSize) && low + StackPages(stackSize) * PAGE == KERNEL_BASE
            && (KERNEL_BASE - low) / PAGE == StackPages(stackSize)
  {
  }

  /** The two allocations of `create_proc` and the clone, before the mapping. */
  lemma CreateAllocates(w: World, stackSize: U32) returns (w3: World, s: U32)
    requires Inv(w) && LegalStep(w, CreateOp(stackSize))
    ensures Inv(w3) && |w3.spaces| == |w.spaces| + 1 && w3.spaces[|w.spaces|].dir == Clone(w3.kernel)
    ensures s != 0 && s % PAGE == 0 && s / PAGE + StackPages(stackSize) <= FRAMES
    ensures FreeRun(w.mmu.bits, s / PAGE, StackPages(stackSize))
    ensures Create(w, stackSize) == MapRange(w3, |w.spaces|, StackPage(stackSize), s / PAGE, StackPages(stackSize), true)
  {
    hide Inv, AllocPages, StackPages, StackPage, Clone, Used, MapRange, Terminates;
    var p := |w.spaces|;
    InvUsesZero(w);
    TakeKeepsInv(w, false, 2, Dir(p)) by { LowTerminates(w.mmu.bits, 2); }
    var (w1, a) := Take(w, false, 2, Dir(p));
    AllocTakesFreeFrames(w.mmu.bits, false, 2) by { LowTerminates(w.mmu.bits, 2); }
    NewSpaceKeepsInv(w1, a / PAGE);
    var w2 := w1.(spaces := w1.spaces + [Space(a / PAGE, Clone(w1.kernel))]);
    InvUsesZero(w2);
    var n := StackPages(stackSize);
    TakeKeepsInv(w2, true, n, Page(p));
    HighAllocIsHighIff(w2.mmu.bits, n);
    w3, s := Take(w2, true, n, Page(p)).0, Take(w2, true, n, Page(p)).1;
    forall f | s / PAGE <= f < s / PAGE + n ensures !Used(w.mmu.bits, f) { assert !Used(w2.mmu.bits, f); }
  }

  lemma InvUsesZero(w: World)
    requires Inv(w)
    ensures Used(w.mmu.bits, 0)
  {
  }

  /** What `create_proc` achieves: when it reports success, the stack is mapped; it
      fails only when no low frame is left for a page table. */
  lemma CreateMapsStack(w: World, stackSize: U32) returns (base: nat)
    requires Inv(w) && LegalStep(w, CreateOp(stackSize))
    ensures var w' := ApplyOp(w, CreateOp(stackSize));
            && |w'.spaces| == |w.spaces| + 1
            && if Create(w, stackSize).1 then StackMapped(w, w', stackSize, base)
               else !RunIn(w'.mmu.bits, 0, LOW_FRAMES, 1)
  {
    hide Inv, Create, MapRange, MapPages, StackPages, StackPage, Clone, Used, Walk, UserWalk, UserCanWrite, RunIn, LegalStep;
    var p := |w.spaces|;
    var w3, s := CreateAllocates(w, stackSize);
    base := s / PAGE;
    StackGeometry(stackSize) by { LegalCreate(w, stackSize); }
    LegalCreate(w, stackSize);
    var low := STACK_TOP - stackSize - (STACK_TOP - stackSize) % PAGE;
    InvMmuOk(w3, p);
    MapRangeIsMapPages(w3, p, low / PAGE, base, StackPages(stackSize), true);
    MappedRangeTranslates(w3.mmu, w3.spaces[p].dir, low, s, StackPages(stackSize), true);
    MapPagesFailure(w3.mmu, w3.spaces[p].dir, low / PAGE, base, StackPages(stackSize), true);
    forall va: U32 | va < low ensures Walk(w3.mmu.tabs, w3.spaces[p].dir, va) == None {
      CloneMapsNoUserPage(w3.mmu.tabs, w3.kernel, va);
    }
  }

  lemma LegalCreate(w: World, stackSize: U32)
    requires LegalStep(w, CreateOp(stackSize))
    ensures stackSize <= STACK_TOP && ApplyOp(w, CreateOp(stackSize)) == Create(w, stackSize).0
  {
  }

  /** `alloc_pages` in a run: the frames were free, exactly they become used, and they
      are the caller's. */
  lemma TakeHolds(w: World, high: bool, n: nat)
    requires Inv(w) && LegalStep(w, TakeOp(high, n))
    ensures var (w', a) := (ApplyOp(w, TakeOp(high, n)), AllocPages(w.mmu.bits, high, n).1);
            && (a == 0 ==> w' == w)
            && (a != 0 ==>
                  && a / PAGE + n <= FRAMES && FreeRun(w.mmu.bits, a / PAGE, n) && RangeHas(w'.roles, a / PAGE, n, Held)
                  && (forall f: nat :: f < FRAMES ==> (Used(w'.mmu.bits, f) <==> a / PAGE <= f < a / PAGE + n || Used(w.mmu.bits, f))))
  {
    hide Inv, AllocPages, Used, Terminates;
    InvUsesZero(w);
    TakeKeepsInv(w, high, n, Held);
    if AllocPages(w.mmu.bits, high, n).1 != 0 { AllocTakesFreeFrames(w.mmu.bits, high, n); }
  }

  /** Mapping held frames: every byte of the range goes to its own byte of the frames,
      writable as asked; no other address of the process moves; it fails only when no
      low frame is left for a page table. */
  lemma MapHeldTranslates(w: World, p: nat, page: nat, frame: nat, pages: nat, writable: bool)
    requires Inv(w) && LegalStep(w, WorldOp.MapOp(p, page, frame, pages, writable))
    ensures var (w', ok) := (ApplyOp(w, WorldOp.MapOp(p, page, frame, pages, writable)), MapHeld(w, p, page, frame, pages, writable).1);
            && |w'.spaces| == |w.spaces| && Coherent(w'.mmu.tabs, w'.spaces[p].dir)
            && (if ok then forall va: U32 :: page * PAGE <= va < (page + pages) * PAGE ==>
                  && UserWalk(w'.mmu.tabs, w'.spaces[p].dir, va) == Some(frame * PAGE + (va - page * PAGE))
                  && (UserCanWrite(w'.mmu.tabs, w'.spaces[p].dir, va) <==> writable)
                else !RunIn(w'.mmu.bits, 0, LOW_FRAMES, 1))
            && (forall va: U32 :: !(page * PAGE <= va < (page + pages) * PAGE) ==>
                  Walk(w'.mmu.tabs, w'.spaces[p].dir, va) == Walk(w.mmu.tabs, w.spaces[p].dir, va))
  {
    hide Inv, MapRange, MapPages, Used, Walk, UserWalk, UserCanWrite, RunIn, Coherent;
    if pages > 0 { HeldInMemory(w, frame, pages); }
    InvMmuOk(w, p);
    MapRangeIsMapPages(w.(roles := Give(w.roles, frame, pages, Page(p))), p, page, frame, pages, writable);
    MappedRangeTranslates(w.mmu, w.spaces[p].dir, page * PAGE, if pages > 0 then frame * PAGE else 0, pages, writable);
    MapPagesFailure(w.mmu, w.spaces[p].dir, page, frame, pages, writable);
    if pages == 0 { MapNothing(w.mmu, w.spaces[p].dir, page, frame, 0, writable); }
  }

  lemma HeldInMemory(w: World, frame: nat, pages: nat)
    requires Inv(w) && pages > 0 && RangeHas(w.roles, frame, pages, Held)
    ensures frame * PAGE < TWO32
  {
    assert frame in w.roles;
  }

  lemma MapNothing(m: Mmu, d: Directory, page: nat, frame: nat, frame': nat, writable: bool)
    requires page <= 0x10_0000
    ensures MapPages(m, d, page, frame, 0, writable) == MapPages(m, d, page, frame', 0, writable)
  {
  }

  /** Space `q` and the tables behind its user half are the same. */
  ghost predicate SpaceKept(w: World, w': World, q: nat) {
    && q < |w.spaces| <= |w'.spaces| && w'.spaces[q] == w.spaces[q]
    && forall i :: 0 <= i < KERN_START_TBL && w.spaces[q].dir.entries[i].present ==>
         var t := w.spaces[q].dir.entries[i].frame; t in w.mmu.tabs && t in w'.mmu.tabs && w'.mmu.tabs[t] == w.mmu.tabs[t]
  }

  lemma KeptLooksSame(w: World, w': World, q: nat, va: U32)
    requires SpaceKept(w, w', q) && va < KERNEL_BASE
    ensures UserWalk(w'.mmu.tabs, w'.spaces[q].dir, va) == UserWalk(w.mmu.tabs, w.spaces[q].dir, va)
    ensures UserCanWrite(w'.mmu.tabs, w'.spaces[q].dir, va) <==> UserCanWrite(w.mmu.tabs, w.spaces[q].dir, va)
  {
    IndicesRebuild(va);
    assert DirIdx(va) < KERN_START_TBL;
  }

  /** Only tables that are not those of `q` are written. */
  lemma ForeignWrite(w: World, w': World, q: nat, t: nat)
    requires Inv(w) && q < |w.spaces| <= |w'.spaces| && w'.spaces[q] == w.spaces[q]
    requires forall f :: f in w.mmu.tabs && f != t ==> f in w'.mmu.tabs && w'.mmu.tabs[f] == w.mmu.tabs[f]
    requires t in w.roles ==> w.roles[t] != Table(q)
    ensures SpaceKept(w, w', q)
  {
    hide Used, KernelDirOk;
    assert SpaceOk(w.mmu, w.kernel, w.spaces[q], w.roles, q);
    forall i | 0 <= i < KERN_START_TBL && w.spaces[q].dir.entries[i].present ensures w.spaces[q].dir.entries[i].frame in w.mmu.tabs {
      assert EntryOk(w.mmu.tabs, w.spaces[q].dir, i);
    }
  }

  lemma MapOneSparesSpace(w: World, p: nat, n: nat, frame: nat, writable: bool, q: nat)
    requires Inv(w) && p < |w.spaces| && q < |w.spaces| && p != q && n < KERN_START_TBL * 1024
    ensures SpaceKept(w, MapOne(w, p, n, frame, writable).0, q)
  {
    hide MapPage, Used, Inv, SpaceKept;
    var i, j := n / 1024, n % 1024;
    InvMmuOk(w, p);
    MapPageMaps(w.mmu, w.spaces[p].dir, i, j, frame, writable);
    var (m, d, ok) := MapPage(w.mmu, w.spaces[p].dir, i, j, frame, writable);
    var t := d.entries[i].frame;
    if ok {
      TableRole(w, p, i, t, m);
      ForeignWrite(w, MapOne(w, p, n, frame, writable).0, q, t);
    } else {
      ForeignWrite(w, w, q, FRAMES) by { NoRoleBeyond(w); }
    }
  }

  lemma NoRoleBeyond(w: World)
    requires Inv(w)
    ensures FRAMES !in w.roles
  {
  }

  lemma {:induction false} MapRangeSparesSpace(w: World, p: nat, page: nat, frame: nat, pages: nat, writable: bool, q: nat)
    requires Inv(w) && p < |w.spaces| && q < |w.spaces| && p != q && page + pages <= KERN_START_TBL * 1024
    requires RangeHas(w.roles, frame, pages, Page(p))
    ensures SpaceKept(w, MapRange(w, p, page, frame, pages, writable).0, q)
  {
    hide Inv, MapOne;
    if pages > 0 {
      MapRangeKeepsInv(w, p, page, frame, pages - 1, writable);
      MapRangeSparesSpace(w, p, page, frame, pages - 1, writable, q);
      var (w1, ok) := MapRange(w, p, page, frame, pages - 1, writable);
      if ok { MapOneSparesSpace(w1, p, page + pages - 1, frame + pages - 1, writable, q); }
    } else {
      ForeignWrite(w, w, q, FRAMES) by { NoRoleBeyond(w); }
    }
  }

  lemma KernelTableRole(w: World, i: nat)
    requires Inv(w) && KERN_START_TBL <= i < 1024
    ensures var t := ShadowFrame(w.kernel.tables[i]); t in w.roles && w.roles[t] == Kernel
  {
    hide RolesOk, SpaceOk, Used;
    KernelShadow(w.mmu.tabs, w.kernel, i);
  }

  lemma PutEntrySparesSpace(w: World, i: nat, j: nat, e: Pte, q: nat)
    requires Inv(w) && KERN_START_TBL <= i < 1024 && j < 1024 && q < |w.spaces|
    ensures SpaceKept(w, w.(mmu := w.mmu.(tabs := PutEntry(w.mmu.tabs, w.kernel, i, j, e))), q)
  {
    hide Inv, SpaceKept;
    KernelTableRole(w, i);
    ForeignWrite(w, w.(mmu := w.mmu.(tabs := PutEntry(w.mmu.tabs, w.kernel, i, j, e))), q, ShadowFrame(w.kernel.tables[i]));
  }

  /** No step of the kernel changes where an address of a process leads, or whether it
      may be written, except a mapping into that very process. */
  lemma StepSparesSpace(w: World, op: WorldOp, q: nat, va: U32)
    requires Inv(w) && LegalStep(w, op) && q < |w.spaces| && !(op.MapOp? && op.p == q) && va < KERNEL_BASE
    ensures var w' := ApplyOp(w, op);
            && |w.spaces| <= |w'.spaces|
            && UserWalk(w'.mmu.tabs, w'.spaces[q].dir, va) == UserWalk(w.mmu.tabs, w.spaces[q].dir, va)
            && (UserCanWrite(w'.mmu.tabs, w'.spaces[q].dir, va) <==> UserCanWrite(w.mmu.tabs, w.spaces[q].dir, va))
  {
    hide Inv, UserWalk, UserCanWrite, SpaceKept, LegalStep, ApplyOp;
    StepKeepsSpace(w, op, q);
    KeptSizes(w, ApplyOp(w, op), q);
    KeptLooksSame(w, ApplyOp(w, op), q, va);
  }

  lemma KeptSizes(w: World, w': World, q: nat)
    requires SpaceKept(w, w', q)
    ensures q < |w.spaces| <= |w'.spaces|
  {
  }

  lemma StepKeepsSpace(w: World, op: WorldOp, q: nat)
    requires Inv(w) && LegalStep(w, op) && q < |w.spaces| && !(op.MapOp? && op.p == q)
    ensures SpaceKept(w, ApplyOp(w, op), q)
  {
    hide Inv, Terminates, AllocPages, SpaceKept, PutEntry, MapRange, Create;
    ForeignWrite(w, w, q, FRAMES) by { NoRoleBeyond(w); }
    assert w.(mmu := w.mmu.(tabs := w.mmu.tabs)) == w;
    match op
    case TakeOp(high, n) => ForeignWrite(w, ApplyOp(w, op), q, FRAMES) by { NoRoleBeyond(w); }
    case CreateOp(stackSize) => CreateSparesSpace(w, stackSize, q);
    case MapOp(p, page, frame, pages, writable) => MapHeldSparesSpace(w, p, page, frame, pages, writable, q);
    case KMapOp(paddr) =>
      var s := FirstEmpty(w.mmu.tabs, w.kernel, 0);
      if s < SLOTS { PutEntrySparesSpace(w, SlotDir(s), s % 1024, SetPage(EMPTY_PTE, paddr / PAGE, true, true, false), q); }
    case KUnmapOp(va) =>
      IndicesRebuild(va);
      if va >= KERNEL_BASE { PutEntrySparesSpace(w, DirIdx(va), TblIdx(va), EMPTY_PTE, q); }
  }

  lemma MapHeldSparesSpace(w: World, p: nat, page: nat, frame: nat, pages: nat, writable: bool, q: nat)
    requires Inv(w) && p < |w.spaces| && q < |w.spaces| && p != q && page + pages <= KERN_START_TBL * 1024
    requires RangeHas(w.roles, frame, pages, Held)
    ensures SpaceKept(w, MapHeld(w, p, page, frame, pages, writable).0, q)
  {
    hide Used, MapRange, SpaceOk, KernelDirOk;
    var roles := Give(w.roles, frame, pages, Page(p));
    RegrowKeepsInv(w, w.mmu.bits, roles);
    MapRangeSparesSpace(w.(roles := roles), p, page, frame, pages, writable, q);
  }

  lemma CreateSparesSpace(w: World, stackSize: U32, q: nat)
    requires Inv(w) && LegalStep(w, CreateOp(stackSize)) && q < |w.spaces|
    ensures SpaceKept(w, Create(w, stackSize).0, q)
  {
    hide Inv, AllocPages, StackPages, Clone, Terminates, MapRange;
    var p := |w.spaces|;
    TakeKeepsInv(w, false, 2, Dir(p)) by { LowTerminates(w.mmu.bits, 2); }
    var (w1, a) := Take(w, false, 2, Dir(p));
    NewSpaceKeepsInv(w1, a / PAGE);
    var w2 := w1.(spaces := w1.spaces + [Space(a / PAGE, Clone(w1.kernel))]);
    TakeKeepsInv(w2, true, StackPages(stackSize), Page(p));
    var (w3, s) := Take(w2, true, StackPages(stackSize), Page(p));
    ForeignWrite(w, w3, q, FRAMES) by { NoRoleBeyond(w); }
    if s != 0 { MapRangeSparesSpace(w3, p, StackPage(stackSize), s / PAGE, StackPages(stackSize), true, q); }
  }
}
