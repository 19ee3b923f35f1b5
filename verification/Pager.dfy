/** Page directories and tables as the kernel changes them in place. */
module Pager {
  import opened Machine
  import opened Frames
  import opened Paging
  import opened KernelWindow
  import opened AddressSpaces

  class PageDirectory {
    const entries: array<Pde>
    const tables: array<U32>

    ghost predicate Valid()
      reads this
    {
      entries.Length == tables.Length == 1024
    }

    ghost function View(): Directory
      requires Valid()
      reads this, entries, tables
    {
      Directory(entries[..], tables[..])
    }

    /** Two cleared pages. */
    constructor ()
      ensures Valid() && fresh(entries) && fresh(tables)
      ensures forall i :: 0 <= i < 1024 ==> entries[i] == EMPTY_PDE && tables[i] == 0
    {
      entries := new Pde[1024](_ => EMPTY_PDE);
      tables := new U32[1024](_ => 0);
    }
  }

  class KernelPager {
    const frames: FrameMap
    const kernel: PageDirectory
    var tabs: Tables

    constructor (frames: FrameMap)
      requires frames.Valid()
      ensures Valid() && this.frames == frames && fresh(kernel) && fresh(kernel.entries) && fresh(kernel.tables)
      ensures tabs == map[]
      ensures forall i :: 0 <= i < 1024 ==> kernel.entries[i] == EMPTY_PDE && kernel.tables[i] == 0
    {
      this.frames := frames;
      kernel := new PageDirectory();
      tabs := map[];
    }

    ghost predicate Valid()
      reads this, frames, kernel
    {
      frames.Valid() && kernel.Valid()
    }

    ghost function View(): Mmu
      requires Valid()
      reads this, frames, frames.bits, kernel
    {
      Mmu(frames.bits[..], tabs)
    }

    /** `proc_map_pages`; a null directory stands for a missing process or one
        without a directory. */
    method ProcMapPages(dir: PageDirectory?, virt: U32, phys: U32, pages: nat, writable: bool) returns (rc: int)
      requires Valid() && Used(View().bits, 0)
      requires dir != null ==> dir.Valid() && Coherent(tabs, dir.View()) && TablesUsed(View().bits, tabs)
      requires virt / PAGE + pages <= 0x10_0000 && phys / PAGE + pages <= FRAMES
      modifies this`tabs, frames.bits
      modifies if dir == null then {} else {dir.entries, dir.tables}
      ensures Valid()
      ensures dir == null || pages == 0 ==> rc == -1 && View() == old(View())
      ensures dir != null && pages > 0 ==>
                && rc in {0, -1}
                && (View(), dir.View(), rc == 0) ==
                   MapPages(old(View()), old(dir.View()), virt / PAGE, phys / PAGE, pages, writable)
    {
      hide MapPage, Coherent, TablesUsed, Used;
      if dir == null || pages == 0 {
        return -1;
      }
      ghost var m, d := View(), dir.View();
      for i := 0 to pages
        invariant (View(), dir.View(), true) == MapPages(m, d, virt / PAGE, phys / PAGE, i, writable)
        invariant MmuOk(View(), dir.View())
      {
        ghost var m1, d1 := View(), dir.View();
        var va: U32 := virt + i * PAGE;
        var pa: U32 := phys + i * PAGE;
        PageNumbers(va);
        MapPageMaps(m1, d1, DirIdx(va), TblIdx(va), pa / PAGE, writable);
        assert virt / PAGE + i == va / PAGE && phys / PAGE + i == pa / PAGE;
        var ok := MapOnePage(dir, va, pa, writable);
        if !ok {
          MapPagesStops(m, d, virt / PAGE, phys / PAGE, i, pages, writable);
          return -1;
        }
      }
      return 0;
    }

    /** The body of the loop. */
    method MapOnePage(dir: PageDirectory, va: U32, pa: U32, writable: bool) returns (ok: bool)
      requires Valid() && Used(View().bits, 0) && dir.Valid() && Coherent(tabs, dir.View())
      modifies this`tabs, frames.bits, dir.entries, dir.tables
      ensures Valid()
      ensures DirIdx(va) < 1024 && TblIdx(va) < 1024
      ensures (View(), dir.View(), ok) ==
              MapPage(old(View()), old(dir.View()), DirIdx(va), TblIdx(va), pa / PAGE, writable)
    {
      hide Used, AllocPages, Coherent;
      IndicesRebuild(va);
      var pd, pt := DirIdx(va), TblIdx(va);
      ghost var e0 := dir.entries[..];
      ghost var t0 := dir.tables[..];
      var entry := dir.entries[pd];
      if !entry.present {
        LowAllocIsLowestRun(View().bits, 1);
        var tablePhys := frames.Alloc(false, 1);
        if tablePhys == 0 {
          return false;
        }
        tabs := tabs[tablePhys / PAGE := EmptyTable()];
        dir.tables[pd] := KP2V(tablePhys);
        dir.entries[pd] := entry.(present := true, rw := true, user := true, frame := tablePhys / PAGE);
        assert dir.tables[..] == t0[pd := KP2V(tablePhys)];
      } else {
        if dir.tables[pd] == 0 {
          return false;
        }
        dir.entries[pd] := entry.(rw := entry.rw || writable, user := true);
        assert dir.tables[..] == t0;
      }
      assert dir.entries[..] == e0[pd := dir.entries[pd]];
      var t := ShadowFrame(dir.tables[pd]);
      if t in tabs {
        tabs := tabs[t := tabs[t][pt := SetPage(tabs[t][pt], pa / PAGE, true, writable, true)]];
      }
      return true;
    }

    /** `kmap`: the first empty entry of the window tables. */
    method KMap(paddr: U32) returns (va: U32)
      requires Valid() && KernelOk(tabs, kernel.View())
      modifies this`tabs
      ensures (tabs, va) == KernelWindow.KMap(old(tabs), kernel.View(), paddr)
    {
      hide KernelOk, KernelWindow.KMap, FirstEmpty, Slot, SetSlot, SlotAddress;
      KMapCases(tabs, kernel.View(), paddr);
      if paddr == 0 {
        return 0;
      } else if paddr < LOW_FRAMES * PAGE {
        return KP2V(paddr);
      }
      ghost var k := kernel.View();
      for i := KERN_HIGHMEM_START_TBL to 1024
        invariant tabs == old(tabs)
        invariant FirstEmpty(tabs, k, (i - KERN_HIGHMEM_START_TBL) * 1024) == FirstEmpty(tabs, k, 0)
      {
        KernelShadow(tabs, k, i);
        var t := ShadowFrame(kernel.tables[i]);
        for j := 0 to 1024
          invariant tabs == old(tabs)
          invariant FirstEmpty(tabs, k, (i - KERN_HIGHMEM_START_TBL) * 1024 + j) == FirstEmpty(tabs, k, 0)
        {
          KMapSlot(tabs, k, i, j, paddr);
          if tabs[t][j] == EMPTY_PTE {
            tabs := tabs[t := tabs[t][j := SetPage(tabs[t][j], paddr / PAGE, true, true, false)]];
            return IdxVaddr(i, j, paddr % PAGE);
          }
        }
      }
      return 0;
    }

    method KUnmap(va: U32)
      requires Valid() && KernelOk(tabs, kernel.View())
      modifies this`tabs
      ensures tabs == KernelWindow.KUnmap(old(tabs), kernel.View(), va)
    {
      if va < KERNEL_BASE {
        return;
      }
      IndicesRebuild(va);
      KernelShadow(tabs, kernel.View(), DirIdx(va));
      var t := ShadowFrame(kernel.tables[DirIdx(va)]);
      tabs := tabs[t := tabs[t][TblIdx(va) := EMPTY_PTE]];
    }

    /** `clone_page_dir` of the kernel directory, which maps no user pages, into a
        cleared directory. */
    method CloneKernel(dest: PageDirectory)
      requires Valid() && dest.Valid() && dest.entries != kernel.entries && dest.tables != kernel.tables
      requires forall i :: 0 <= i < KERN_START_TBL ==> kernel.entries[i].frame == 0
      requires forall i :: 0 <= i < 1024 ==> dest.entries[i] == EMPTY_PDE && dest.tables[i] == 0
      modifies dest.entries, dest.tables
      ensures dest.View() == Clone(kernel.View())
    {
      for i := 0 to 1024
        invariant forall l :: 0 <= l < i ==> dest.entries[l] == if l < KERN_START_TBL then EMPTY_PDE else kernel.entries[l]
        invariant forall l :: 0 <= l < i ==> dest.tables[l] == if l < KERN_START_TBL then 0 else kernel.tables[l]
        invariant forall l :: i <= l < 1024 ==> dest.entries[l] == EMPTY_PDE && dest.tables[l] == 0
      {
        if i >= KERN_START_TBL {
          dest.entries[i] := kernel.entries[i];
          dest.tables[i] := kernel.tables[i];
        }
      }
      assert dest.entries[..] == Clone(kernel.View()).entries;
      assert dest.tables[..] == Clone(kernel.View()).tables;
    }

    /** `setup_kernel_directory` on zeroed storage, the tables being the 256 frames
        from `kt` on. */
    method SetupKernelDirectory(kt: nat)
      requires Valid() && kt + 256 <= 1024 && tabs == map[]
      requires forall i :: 0 <= i < 1024 ==> kernel.entries[i] == EMPTY_PDE && kernel.tables[i] == 0
      modifies this`tabs, kernel.entries, kernel.tables
      ensures kernel.View() == KernelDirectory(kt) && tabs == KernelTables(kt, 256)
    {
      hide KernelTable, KP2V;
      ghost var target := KernelDirectory(kt);
      for i := KERN_START_TBL to 1024
        invariant tabs == KernelTables(kt, i - KERN_START_TBL)
        invariant forall l :: 0 <= l < i ==> kernel.entries[l] == target.entries[l] && kernel.tables[l] == target.tables[l]
        invariant forall l :: i <= l < 1024 ==> kernel.entries[l] == EMPTY_PDE && kernel.tables[l] == 0
      {
        var frame := kt + (i - KERN_START_TBL);
        kernel.tables[i] := KP2V(frame * PAGE);
        kernel.entries[i] := kernel.entries[i].(frame := frame, present := true, rw := true);
        var table := FillKernelTable(i);
        tabs := tabs[frame := table];
      }
      assert kernel.entries[..] == target.entries && kernel.tables[..] == target.tables;
    }

    method FillKernelTable(i: nat) returns (table: PageTable)
      requires KERN_START_TBL <= i < 1024
      ensures table == KernelTable(i)
    {
      table := EmptyTable();
      for j := 0 to 1024
        invariant forall l :: 0 <= l < j ==> table[l] == KernelPte(i, l)
        invariant forall l :: j <= l < 1024 ==> table[l] == EMPTY_PTE
      {
        if i < KERN_HIGHMEM_START_TBL {
          table := table[j := SetPage(table[j], (i - KERN_START_TBL) * 1024 + j, true, true, table[j].user)];
        }
      }
    }
  }

  lemma KMapCases(tabs: Tables, k: Directory, paddr: U32)
    ensures paddr == 0 ==> KernelWindow.KMap(tabs, k, paddr) == (tabs, 0)
    ensures 0 < paddr < LOW_FRAMES * PAGE ==> KernelWindow.KMap(tabs, k, paddr) == (tabs, KP2V(paddr))
    ensures paddr >= LOW_FRAMES * PAGE && FirstEmpty(tabs, k, 0) == SLOTS ==> KernelWindow.KMap(tabs, k, paddr) == (tabs, 0)
    ensures FirstEmpty(tabs, k, SLOTS) == SLOTS
  {
  }

  /** One probe of the window: entry (i, j) is a slot, either free or passed over. */
  lemma KMapSlot(tabs: Tables, k: Directory, i: nat, j: nat, paddr: U32)
    requires KernelOk(tabs, k) && KERN_HIGHMEM_START_TBL <= i < 1024 && j < 1024 && paddr >= LOW_FRAMES * PAGE
    ensures var s := (i - KERN_HIGHMEM_START_TBL) * 1024 + j;
            var t := ShadowFrame(k.tables[i]);
            && t in tabs && IdxVaddr(i, j, paddr % PAGE) < TWO32
            && (tabs[t][j] != EMPTY_PTE ==> FirstEmpty(tabs, k, s) == FirstEmpty(tabs, k, s + 1))
            && (tabs[t][j] == EMPTY_PTE && FirstEmpty(tabs, k, s) == FirstEmpty(tabs, k, 0) ==>
                  KernelWindow.KMap(tabs, k, paddr) ==
                  (tabs[t := tabs[t][j := SetPage(EMPTY_PTE, paddr / PAGE, true, true, false)]], IdxVaddr(i, j, paddr % PAGE)))
  {
    hide KernelOk;
    KernelShadow(tabs, k, i);
    VaddrIndices(i, j, paddr % PAGE);
    var s := (i - KERN_HIGHMEM_START_TBL) * 1024 + j;
    assert SlotDir(s) == i && s % 1024 == j;
  }

  /** A failure ends the loop: the remaining pages are not tried. */
  lemma {:induction false} MapPagesStops(m: Mmu, d: Directory, page: nat, frame: nat, i: nat, pages: nat, writable: bool)
    requires i < pages && page + pages <= 0x10_0000
    requires !MapPages(m, d, page, frame, i + 1, writable).2
    ensures MapPages(m, d, page, frame, pages, writable) == MapPages(m, d, page, frame, i + 1, writable)
    decreases pages
  {
    hide MapPage;
    if i + 1 < pages { MapPagesStops(m, d, page, frame, i, pages - 1, writable); }
  }
}
