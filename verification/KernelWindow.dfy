/** The temporary mapping window of kernel/kernel/mm/vmm.c: 32 kernel page tables
    that every address space shares. */
module KernelWindow {
  import opened Machine
  import opened Frames
  import opened Paging

  const SLOTS: nat := 32 * 1024

  /** The kernel half is fully present, writable and closed to user mode, and the two
      views of it agree. */
  ghost predicate KernelOk(tabs: Tables, k: Directory) {
    && Coherent(tabs, k)
    && forall i :: KERN_START_TBL <= i < 1024 ==> k.entries[i].present && k.entries[i].rw && !k.entries[i].user
  }

  /** Entry (i, j) of the kernel half, read the way the kernel does, through the
      shadow pointer. */
  function KernelEntry(tabs: Tables, k: Directory, i: nat, j: nat): Pte
    requires i < 1024 && j < 1024
  {
    var t := ShadowFrame(k.tables[i]);
    if t in tabs then tabs[t][j] else EMPTY_PTE
  }

  function PutEntry(tabs: Tables, k: Directory, i: nat, j: nat, p: Pte): Tables
    requires i < 1024 && j < 1024
  {
    var t := ShadowFrame(k.tables[i]);
    if t in tabs then tabs[t := tabs[t][j := p]] else tabs
  }

  /** Window slot `s`. */
  function SlotDir(s: nat): nat { KERN_HIGHMEM_START_TBL + s / 1024 }

  function Slot(tabs: Tables, k: Directory, s: nat): Pte
    requires s < SLOTS
  {
    KernelEntry(tabs, k, SlotDir(s), s % 1024)
  }

  function SetSlot(tabs: Tables, k: Directory, s: nat, p: Pte): Tables
    requires s < SLOTS
  {
    PutEntry(tabs, k, SlotDir(s), s % 1024, p)
  }

  function FirstEmpty(tabs: Tables, k: Directory, s: nat): (r: nat)
    requires s <= SLOTS
    ensures s <= r <= SLOTS
    ensures forall q :: s <= q < r ==> Slot(tabs, k, q) != EMPTY_PTE
    ensures r < SLOTS ==> Slot(tabs, k, r) == EMPTY_PTE
    decreases SLOTS - s
  {
    if s == SLOTS || Slot(tabs, k, s) == EMPTY_PTE then s else FirstEmpty(tabs, k, s + 1)
  }

  function KMap(tabs: Tables, k: Directory, paddr: U32): (Tables, U32) {
    if paddr == 0 then (tabs, 0)
    else if paddr < LOW_FRAMES * PAGE then (tabs, KP2V(paddr))
    else
      var s := FirstEmpty(tabs, k, 0);
      if s == SLOTS then (tabs, 0)
      else (SetSlot(tabs, k, s, SetPage(EMPTY_PTE, paddr / PAGE, true, true, false)), SlotAddress(s, paddr % PAGE))
  }

  function SlotAddress(s: nat, offset: nat): (va: U32)
    requires s < SLOTS && offset < PAGE
  {
    VaddrIndices(SlotDir(s), s % 1024, offset);
    IdxVaddr(SlotDir(s), s % 1024, offset)
  }

  function KUnmap(tabs: Tables, k: Directory, va: U32): Tables {
    if va < KERNEL_BASE then tabs else
    IndicesRebuild(va);
    PutEntry(tabs, k, DirIdx(va), TblIdx(va), EMPTY_PTE)
  }

  /** Identity-mapped addresses lie below the window. */
  lemma LowIndices(pa: U32)
    requires pa < LOW_FRAMES * PAGE
    ensures DirIdx(KP2V(pa)) == KERN_START_TBL + pa / PAGE / 1024 < KERN_HIGHMEM_START_TBL
    ensures TblIdx(KP2V(pa)) == pa / PAGE % 1024 && KP2V(pa) % PAGE == pa % PAGE
    ensures KERNEL_BASE <= KP2V(pa)
  {
  }

  // ----- entries are independent

  lemma PutEntryPuts(tabs: Tables, k: Directory, i: nat, j: nat, p: Pte)
    requires KERN_START_TBL <= i < 1024 && j < 1024 && KernelOk(tabs, k)
    ensures var tabs' := PutEntry(tabs, k, i, j, p);
            && KernelOk(tabs', k)
            && (forall a, b :: KERN_START_TBL <= a < 1024 && 0 <= b < 1024 ==>
                  KernelEntry(tabs', k, a, b) == if (a, b) == (i, j) then p else KernelEntry(tabs, k, a, b))
            && PutEntry(tabs', k, i, j, KernelEntry(tabs, k, i, j)) == tabs
  {
    var t := k.entries[i].frame;
    assert EntryOk(tabs, k, i);
    ShadowIsHardware(tabs, k, i);
    var tabs' := PutEntry(tabs, k, i, j, p);
    assert tabs'.Keys == tabs.Keys;
    assert tabs[t][j := p][j := tabs[t][j]] == tabs[t];
    forall a | 0 <= a < 1024 ensures EntryOk(tabs', k, a) { assert EntryOk(tabs, k, a); }
    forall a, b | KERN_START_TBL <= a < 1024 && 0 <= b < 1024
      ensures KernelEntry(tabs', k, a, b) == if (a, b) == (i, j) then p else KernelEntry(tabs, k, a, b)
    {
      assert EntryOk(tabs, k, a);
      ShadowIsHardware(tabs, k, a);
    }
  }

  lemma SetSlotSets(tabs: Tables, k: Directory, s: nat, p: Pte)
    requires s < SLOTS && KernelOk(tabs, k)
    ensures KernelOk(SetSlot(tabs, k, s, p), k)
    ensures forall q :: 0 <= q < SLOTS ==>
              Slot(SetSlot(tabs, k, s, p), k, q) == if q == s then p else Slot(tabs, k, q)
    ensures SetSlot(SetSlot(tabs, k, s, p), k, s, Slot(tabs, k, s)) == tabs
  {
    hide KernelOk, KernelEntry, PutEntry;
    PutEntryPuts(tabs, k, SlotDir(s), s % 1024, p);
    forall q | 0 <= q < SLOTS && q != s ensures (SlotDir(q), q % 1024) != (SlotDir(s), s % 1024) { }
  }

  /** A directory with the kernel half of `k`, as `clone_page_dir` makes it. */
  ghost predicate SharesKernel(k: Directory, d: Directory) {
    forall i :: KERN_START_TBL <= i < 1024 ==> d.entries[i] == k.entries[i] && d.tables[i] == k.tables[i]
  }

  /** The hardware reads the same entry, in every directory that shares the kernel
      half. */
  lemma EntryIsWalked(tabs: Tables, k: Directory, d: Directory, i: nat, j: nat)
    requires KERN_START_TBL <= i < 1024 && j < 1024 && KernelOk(tabs, k) && SharesKernel(k, d)
    ensures Lookup(tabs, d, i, j) == Some(KernelEntry(tabs, k, i, j))
    ensures d.entries[i].rw && !d.entries[i].user
  {
    assert EntryOk(tabs, k, i);
    ShadowIsHardware(tabs, k, i);
  }

  lemma SlotIsWalked(tabs: Tables, k: Directory, d: Directory, s: nat, offset: nat)
    requires s < SLOTS && offset < PAGE && KernelOk(tabs, k) && SharesKernel(k, d)
    requires Slot(tabs, k, s).present
    ensures Walk(tabs, d, SlotAddress(s, offset)) == Some(Slot(tabs, k, s).frame * PAGE + offset)
    ensures KernelOnly(tabs, d, SlotAddress(s, offset)) <==> Slot(tabs, k, s).rw && !Slot(tabs, k, s).user
  {
    hide KernelOk, SharesKernel, Lookup, KernelEntry;
    EntryIsWalked(tabs, k, d, SlotDir(s), s % 1024);
    VaddrIndices(SlotDir(s), s % 1024, offset);
  }

  // ----- runs

  /** `live` maps each slot in use to the physical address mapped there. */
  type Live = map<nat, U32>

  ghost predicate Window(tabs: Tables, k: Directory, live: Live) {
    && KernelOk(tabs, k)
    && (forall s :: s in live ==> s < SLOTS && LOW_FRAMES * PAGE <= live[s])
    && forall s :: 0 <= s < SLOTS ==>
         Slot(tabs, k, s) == if s in live then SetPage(EMPTY_PTE, live[s] / PAGE, true, true, false) else EMPTY_PTE
  }

  /** What a caller was given for slot `s`. */
  function Result(live: Live, s: nat): U32
    requires s in live && s < SLOTS
  {
    SlotAddress(s, live[s] % PAGE)
  }

  /** `kmap` fails exactly when every slot is live; otherwise it takes the lowest
      slot that is not, and no other slot changes. */
  lemma KMapTakesLowestSlot(tabs: Tables, k: Directory, live: Live, paddr: U32)
    requires Window(tabs, k, live) && LOW_FRAMES * PAGE <= paddr
    ensures var (tabs', va) := KMap(tabs, k, paddr);
            && (va == 0 <==> forall s :: 0 <= s < SLOTS ==> s in live)
            && (va == 0 ==> tabs' == tabs)
            && (va != 0 ==> exists s: nat :: LowestFree(live, s) && Window(tabs', k, live[s := paddr]) && va == SlotAddress(s, paddr % PAGE))
  {
    hide Slot, SetSlot, SlotAddress, KernelOk;
    var s := FirstEmpty(tabs, k, 0);
    forall q | 0 <= q < s ensures q in live { assert Slot(tabs, k, q) != EMPTY_PTE; }
    if s < SLOTS {
      assert LowestFree(live, s);
      SetSlotSets(tabs, k, s, SetPage(EMPTY_PTE, paddr / PAGE, true, true, false));
      SlotHigh(s, paddr % PAGE);
      assert Window(KMap(tabs, k, paddr).0, k, live[s := paddr]);
    }
  }

  ghost predicate LowestFree(live: Live, s: nat) {
    s < SLOTS && s !in live && forall q :: 0 <= q < s ==> q in live
  }

  lemma SlotHigh(s: nat, offset: nat)
    requires s < SLOTS && offset < PAGE
    ensures KERNEL_BASE <= SlotAddress(s, offset)
    ensures DirIdx(SlotAddress(s, offset)) == SlotDir(s) && TblIdx(SlotAddress(s, offset)) == s % 1024
  {
  }

  lemma KUnmapIsSetSlot(tabs: Tables, k: Directory, s: nat, offset: nat)
    requires s < SLOTS && offset < PAGE
    ensures KUnmap(tabs, k, SlotAddress(s, offset)) == SetSlot(tabs, k, s, EMPTY_PTE)
  {
  }

  /** `kunmap` of a live result gives exactly that slot up. */
  lemma KUnmapFreesSlot(tabs: Tables, k: Directory, live: Live, s: nat)
    requires Window(tabs, k, live) && s in live && s < SLOTS
    ensures Window(KUnmap(tabs, k, Result(live, s)), k, live - {s})
  {
    hide SetSlot, Slot, KernelOk;
    KUnmapIsSetSlot(tabs, k, s, live[s] % PAGE);
    SetSlotSets(tabs, k, s, EMPTY_PTE);
  }

  // ----- identity-mapped addresses

  /** The entry that maps low physical address `pa` at its fixed offset. */
  function IdentityEntry(tabs: Tables, k: Directory, pa: U32): Pte
    requires pa < LOW_FRAMES * PAGE
  {
    LowIndices(pa);
    KernelEntry(tabs, k, DirIdx(KP2V(pa)), TblIdx(KP2V(pa)))
  }

  /** Mapping and unmapping at once restores every table exactly when the address is
      above the boundary or its identity mapping was gone already: `kmap` of a low
      address maps nothing, but `kunmap` of it clears the identity mapping. */
  lemma KMapKUnmapIff(tabs: Tables, k: Directory, paddr: U32)
    requires KernelOk(tabs, k) && KMap(tabs, k, paddr).1 != 0
    ensures KUnmap(KMap(tabs, k, paddr).0, k, KMap(tabs, k, paddr).1) == tabs
            <==> LOW_FRAMES * PAGE <= paddr || IdentityEntry(tabs, k, paddr) == EMPTY_PTE
  {
    hide SetSlot, Slot, KernelOk, KernelEntry, PutEntry, SlotAddress, KP2V;
    if LOW_FRAMES * PAGE <= paddr {
      var s := FirstEmpty(tabs, k, 0);
      KUnmapIsSetSlot(KMap(tabs, k, paddr).0, k, s, paddr % PAGE);
      SetSlotSets(tabs, k, s, SetPage(EMPTY_PTE, paddr / PAGE, true, true, false));
    } else {
      LowIndices(paddr);
      var i, j := DirIdx(KP2V(paddr)), TblIdx(KP2V(paddr));
      PutEntryPuts(tabs, k, i, j, EMPTY_PTE);
      PutSame(tabs, k, i, j);
    }
  }

  lemma PutSame(tabs: Tables, k: Directory, i: nat, j: nat)
    requires i < 1024 && j < 1024
    ensures PutEntry(tabs, k, i, j, KernelEntry(tabs, k, i, j)) == tabs
  {
    var t := ShadowFrame(k.tables[i]);
    if t in tabs { assert tabs[t][j := tabs[t][j]] == tabs[t]; }
  }

  // ----- any sequence of calls

  datatype WindowOp = MapOp(paddr: U32) | UnmapOp(va: U32)

  /** The slot behind a virtual address of the window. */
  function SlotOf(va: U32): int { va / PAGE - KERN_HIGHMEM_START_TBL * 1024 }

  function Step(tabs: Tables, k: Directory, live: Live, op: WindowOp): (Tables, Live) {
    match op
    case MapOp(paddr) =>
      var (tabs', va) := KMap(tabs, k, paddr);
      if va == 0 then (tabs', live) else (tabs', if 0 <= SlotOf(va) then live[SlotOf(va) := paddr] else live)
    case UnmapOp(va) => (KUnmap(tabs, k, va), if 0 <= SlotOf(va) then live - {SlotOf(va)} else live)
  }

  lemma SlotOfResult(s: nat, offset: nat)
    requires s < SLOTS && offset < PAGE
    ensures SlotOf(SlotAddress(s, offset)) == s
  {
  }

  lemma SlotOfLow(pa: U32)
    requires pa < LOW_FRAMES * PAGE
    ensures SlotOf(KP2V(pa)) < 0
  {
  }

  /** Any address of the window is in a slot, any other kernel address in none. */
  lemma SlotOfKernel(va: U32)
    requires KERNEL_BASE <= va
    ensures DirIdx(va) < 1024 && TblIdx(va) < 1024 && KERN_START_TBL <= DirIdx(va)
    ensures if SlotOf(va) < 0 then DirIdx(va) < KERN_HIGHMEM_START_TBL
            else SlotOf(va) < SLOTS && DirIdx(va) == SlotDir(SlotOf(va)) && TblIdx(va) == SlotOf(va) % 1024
  {
  }

  lemma SlotOfUser(va: U32)
    requires va < KERNEL_BASE
    ensures SlotOf(va) < 0
  {
  }

  /** `kunmap` of any address at all empties the slot it lies in, if any. */
  lemma KUnmapKeepsWindow(tabs: Tables, k: Directory, live: Live, va: U32)
    requires Window(tabs, k, live)
    ensures Window(KUnmap(tabs, k, va), k, if 0 <= SlotOf(va) then live - {SlotOf(va)} else live)
  {
    hide KernelOk, KernelEntry, PutEntry, SlotOf;
    if va < KERNEL_BASE {
      SlotOfUser(va);
    } else {
      SlotOfKernel(va);
      PutEntryPuts(tabs, k, DirIdx(va), TblIdx(va), EMPTY_PTE);
      if 0 <= SlotOf(va) { SetSlotSets(tabs, k, SlotOf(va), EMPTY_PTE); }
    }
  }

  lemma KMapKeepsWindow(tabs: Tables, k: Directory, live: Live, paddr: U32)
    requires Window(tabs, k, live)
    ensures var (tabs', live') := Step(tabs, k, live, MapOp(paddr)); Window(tabs', k, live')
  {
    hide SlotOf, SlotAddress, Window;
    if paddr < LOW_FRAMES * PAGE {
      SlotOfLow(paddr);
    } else {
      hide KMap;
      KMapTakesLowestSlot(tabs, k, live, paddr);
      var va := KMap(tabs, k, paddr).1;
      if va != 0 {
        var s: nat :| LowestFree(live, s) && Window(KMap(tabs, k, paddr).0, k, live[s := paddr]) && va == SlotAddress(s, paddr % PAGE);
        SlotOfResult(s, paddr % PAGE);
      }
    }
  }

  lemma StepKeepsWindow(tabs: Tables, k: Directory, live: Live, op: WindowOp)
    requires Window(tabs, k, live)
    ensures var (tabs', live') := Step(tabs, k, live, op); Window(tabs', k, live')
  {
    hide KMap, KUnmap, SlotOf, Window;
    match op
    case MapOp(paddr) => KMapKeepsWindow(tabs, k, live, paddr);
    case UnmapOp(va) => KUnmapKeepsWindow(tabs, k, live, va);
  }

  function Run(tabs: Tables, k: Directory, live: Live, ops: seq<WindowOp>): (Tables, Live)
    decreases |ops|
  {
    if ops == [] then (tabs, live) else
    var (tabs', live') := Step(tabs, k, live, ops[0]);
    Run(tabs', k, live', ops[1..])
  }

  /** After any sequence of calls whatever, in every directory that shares the kernel
      half, each live result translates to its own physical byte, which the kernel
      may write and user mode may not touch, and distinct live results lie on
      distinct pages. */
  lemma {:induction false} RunKeepsWindow(tabs: Tables, k: Directory, live: Live, ops: seq<WindowOp>)
    requires Window(tabs, k, live)
    ensures var (tabs', live') := Run(tabs, k, live, ops);
            && Window(tabs', k, live')
            && (forall d: Directory, s :: SharesKernel(k, d) && s in live' && s < SLOTS ==>
                  Walk(tabs', d, Result(live', s)) == Some(live'[s]) && KernelOnly(tabs', d, Result(live', s)))
            && (forall s, t :: s in live' && t in live' && s != t && s < SLOTS && t < SLOTS ==>
                  Result(live', s) / PAGE != Result(live', t) / PAGE)
    decreases |ops|
  {
    hide Step, Window, Walk, SharesKernel, KernelOnly;
    if ops != [] {
      StepKeepsWindow(tabs, k, live, ops[0]);
      var (tabs', live') := Step(tabs, k, live, ops[0]);
      RunKeepsWindow(tabs', k, live', ops[1..]);
    } else {
      forall d: Directory, s | SharesKernel(k, d) && s in live && s < SLOTS
        ensures Walk(tabs, d, Result(live, s)) == Some(live[s]) && KernelOnly(tabs, d, Result(live, s))
      {
        LiveTranslates(tabs, k, d, live, s);
      }
    }
  }

  lemma LiveTranslates(tabs: Tables, k: Directory, d: Directory, live: Live, s: nat)
    requires Window(tabs, k, live) && SharesKernel(k, d) && s in live && s < SLOTS
    ensures Walk(tabs, d, Result(live, s)) == Some(live[s]) && KernelOnly(tabs, d, Result(live, s))
  {
    hide Walk, KernelOnly;
    SlotIsWalked(tabs, k, d, s, live[s] % PAGE);
  }

  // ----- what becomes of the identity mapping

  /** The call unmaps the page at which low address `pa` is identity-mapped. */
  predicate Hits(op: WindowOp, pa: U32) { op.UnmapOp? && op.va / PAGE == KP2V(pa) / PAGE }

  lemma StepIdentity(tabs: Tables, k: Directory, live: Live, op: WindowOp, pa: U32)
    requires Window(tabs, k, live) && pa < LOW_FRAMES * PAGE
    ensures IdentityEntry(Step(tabs, k, live, op).0, k, pa) ==
            if Hits(op, pa) then EMPTY_PTE else IdentityEntry(tabs, k, pa)
  {
    hide KernelOk, KernelEntry, PutEntry, KP2V, SlotOf;
    LowIndices(pa);
    match op
    case MapOp(paddr) =>
      var s := FirstEmpty(tabs, k, 0);
      if s < SLOTS { PutEntryPuts(tabs, k, SlotDir(s), s % 1024, SetPage(EMPTY_PTE, paddr / PAGE, true, true, false)); }
    case UnmapOp(va) =>
      PageNumbers(va);
      PageNumbers(KP2V(pa));
      if va >= KERNEL_BASE {
        SlotOfKernel(va);
        PutEntryPuts(tabs, k, DirIdx(va), TblIdx(va), EMPTY_PTE);
      }
  }

  lemma {:induction false} RunIdentity(tabs: Tables, k: Directory, live: Live, ops: seq<WindowOp>, pa: U32)
    requires Window(tabs, k, live) && pa < LOW_FRAMES * PAGE
    ensures IdentityEntry(Run(tabs, k, live, ops).0, k, pa) ==
            if exists i :: 0 <= i < |ops| && Hits(ops[i], pa) then EMPTY_PTE else IdentityEntry(tabs, k, pa)
    decreases |ops|
  {
    hide Step, Window, IdentityEntry, Hits;
    if ops != [] {
      StepKeepsWindow(tabs, k, live, ops[0]);
      StepIdentity(tabs, k, live, ops[0], pa);
      var (tabs', live') := Step(tabs, k, live, ops[0]);
      RunIdentity(tabs', k, live', ops[1..], pa);
      if i :| 0 <= i < |ops| && Hits(ops[i], pa) {
        if i > 0 { assert ops[i] == ops[1..][i - 1]; }
      }
    }
  }

  /** After any sequence of calls a low byte is still where the kernel expects it, in
      every directory, exactly when no `kunmap` was given its page; otherwise the page
      is gone for good. */
  lemma IdentityKeptIff(tabs: Tables, k: Directory, d: Directory, live: Live, ops: seq<WindowOp>, pa: U32)
    requires Window(tabs, k, live) && SharesKernel(k, d) && pa < LOW_FRAMES * PAGE
    requires Walk(tabs, d, KP2V(pa)) == Some(pa)
    ensures var tabs' := Run(tabs, k, live, ops).0;
            var hit := exists i :: 0 <= i < |ops| && Hits(ops[i], pa);
            && Walk(tabs', d, KP2V(pa)) == (if hit then None else Some(pa))
            && (KernelOnly(tabs', d, KP2V(pa)) <==> !hit && KernelOnly(tabs, d, KP2V(pa)))
  {
    hide Run, KernelEntry, Lookup, SharesKernel, Hits, KP2V, KernelOk;
    LowIndices(pa);
    RunIdentity(tabs, k, live, ops, pa);
    RunKeepsWindow(tabs, k, live, ops);
    var i, j := DirIdx(KP2V(pa)), TblIdx(KP2V(pa));
    EntryIsWalked(tabs, k, d, i, j);
    EntryIsWalked(Run(tabs, k, live, ops).0, k, d, i, j);
  }
}
