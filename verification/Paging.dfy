/** Two-level page tables: the hardware view (`page_dir_entries`), the software
    shadow (`tables`), and the mapping of pages into a process. */
module Paging {
  import opened Machine
  import opened Frames

  datatype Option<+T> = None | Some(value: T)

  const KERNEL_BASE: U32 := 0xC000_0000
  const KERN_START_TBL: nat := 768
  const KERN_HIGHMEM_START_TBL: nat := 992
  const STACK_TOP: U32 := 0xBFFF_FFF0   // where the stack of every process ends

  // ----- address arithmetic of kernel/include/mm/paging.h

  function DirIdx(va: U32): nat { va / 0x40_0000 }
  function TblIdx(va: U32): nat { va % 0x40_0000 / 0x1000 }
  function IdxVaddr(d: nat, t: nat, o: nat): nat { d * 0x40_0000 + t * 0x1000 + o }
  function KV2P(x: U32): U32 { Sub32(x, KERNEL_BASE) }
  function KP2V(x: U32): U32 { Add32(x, KERNEL_BASE) }

  /** The indices are the two digits of the page number, and rebuild the address. */
  lemma IndicesRebuild(va: U32)
    ensures DirIdx(va) < 1024 && TblIdx(va) < 1024
    ensures DirIdx(va) * 1024 + TblIdx(va) == va / PAGE
    ensures IdxVaddr(DirIdx(va), TblIdx(va), va % PAGE) == va
  {
  }

  lemma VaddrIndices(d: nat, t: nat, o: nat)
    requires d < 1024 && t < 1024 && o < PAGE
    ensures IdxVaddr(d, t, o) < TWO32
    ensures DirIdx(IdxVaddr(d, t, o)) == d && TblIdx(IdxVaddr(d, t, o)) == t && IdxVaddr(d, t, o) % PAGE == o
  {
  }

  // ----- entries, tables, directories

  datatype Pte = Pte(present: bool, rw: bool, user: bool, accessed: bool, dirty: bool, unused: nat, frame: nat)

  datatype Pde = Pde(
    present: bool, rw: bool, user: bool, writeThru: bool, disableCache: bool,
    accessed: bool, reserved: bool, pageSize: bool, unused: nat, frame: nat)

  const EMPTY_PTE := Pte(false, false, false, false, false, 0, 0)
  const EMPTY_PDE := Pde(false, false, false, false, false, false, false, false, 0, 0)

  type PageTable = t: seq<Pte> | |t| == 1024 witness seq(1024, _ => EMPTY_PTE)

  function EmptyTable(): (t: PageTable)
    ensures forall j :: 0 <= j < 1024 ==> t[j] == EMPTY_PTE
  {
    seq(1024, _ => EMPTY_PTE)
  }

  datatype RawDirectory = Directory(entries: seq<Pde>, tables: seq<U32>)

  type Directory = d: RawDirectory | |d.entries| == |d.tables| == 1024
    witness Directory(seq(1024, _ => EMPTY_PDE), seq(1024, _ => 0))

  /** Physical memory as far as it holds page tables: frame number to table. */
  type Tables = map<nat, PageTable>

  function SetPage(p: Pte, frame: nat, present: bool, rw: bool, user: bool): Pte {
    p.(frame := frame, present := present, rw := rw, user := user)
  }

  // ----- the walk

  /** The page table entry the MMU reaches for page (i, j). */
  function Lookup(tabs: Tables, d: Directory, i: nat, j: nat): Option<Pte>
    requires i < 1024 && j < 1024
  {
    if d.entries[i].present && d.entries[i].frame in tabs then Some(tabs[d.entries[i].frame][j]) else None
  }

  /** Frame that page (i, j) translates to, whoever asks. */
  function FrameAt(tabs: Tables, d: Directory, i: nat, j: nat): Option<nat>
    requires i < 1024 && j < 1024
  {
    match Lookup(tabs, d, i, j)
    case Some(p) => if p.present then Some(p.frame) else None
    case None => None
  }

  /** Frame that a user-mode access to page (i, j) reaches: both levels must be
      present and user-accessible. */
  function UserFrameAt(tabs: Tables, d: Directory, i: nat, j: nat): Option<nat>
    requires i < 1024 && j < 1024
  {
    match Lookup(tabs, d, i, j)
    case Some(p) => if d.entries[i].user && p.present && p.user then Some(p.frame) else None
    case None => None
  }

  /** User mode may write to page (i, j): both levels allow it. */
  predicate WritableAt(tabs: Tables, d: Directory, i: nat, j: nat)
    requires i < 1024 && j < 1024
  {
    UserFrameAt(tabs, d, i, j).Some? && d.entries[i].rw && Lookup(tabs, d, i, j).value.rw
  }

  function Walk(tabs: Tables, d: Directory, va: U32): Option<nat> {
    IndicesRebuild(va);
    match FrameAt(tabs, d, DirIdx(va), TblIdx(va))
    case Some(f) => Some(f * PAGE + va % PAGE)
    case None => None
  }

  function UserWalk(tabs: Tables, d: Directory, va: U32): Option<nat> {
    IndicesRebuild(va);
    match UserFrameAt(tabs, d, DirIdx(va), TblIdx(va))
    case Some(f) => Some(f * PAGE + va % PAGE)
    case None => None
  }

  predicate UserCanWrite(tabs: Tables, d: Directory, va: U32) {
    IndicesRebuild(va);
    WritableAt(tabs, d, DirIdx(va), TblIdx(va))
  }

  /** The kernel, which honours write protection, may write to page (i, j), and both
      levels close it to user mode. */
  predicate KernelOnlyAt(tabs: Tables, d: Directory, i: nat, j: nat)
    requires i < 1024 && j < 1024
  {
    match Lookup(tabs, d, i, j)
    case Some(p) => d.entries[i].rw && !d.entries[i].user && p.present && p.rw && !p.user
    case None => false
  }

  predicate KernelOnly(tabs: Tables, d: Directory, va: U32) {
    IndicesRebuild(va);
    KernelOnlyAt(tabs, d, DirIdx(va), TblIdx(va))
  }

  // ----- agreement of the two views

  predicate EntryOk(tabs: Tables, d: Directory, i: nat)
    requires i < 1024
  {
    d.entries[i].present ==>
      && 0 < d.entries[i].frame < LOW_FRAMES
      && d.entries[i].frame in tabs
      && d.tables[i] == KP2V(d.entries[i].frame * PAGE)
  }

  /** Every present entry has its table shadowed at the right address, and no two
      entries share a table. */
  ghost predicate Coherent(tabs: Tables, d: Directory) {
    && (forall i :: 0 <= i < 1024 ==> EntryOk(tabs, d, i))
    && forall i, j :: 0 <= i < j < 1024 && d.entries[i].present && d.entries[j].present ==>
         d.entries[i].frame != d.entries[j].frame
  }

  /** Page tables live in frames that the bitmap marks as used. */
  ghost predicate TablesUsed(bits: Bitmap, tabs: Tables) {
    forall f :: f in tabs ==> f < FRAMES && Used(bits, f)
  }

  /** Table frame behind a shadow pointer. */
  function ShadowFrame(p: U32): nat { KV2P(p) / PAGE }

  lemma ShadowIsHardware(tabs: Tables, d: Directory, i: nat)
    requires i < 1024 && EntryOk(tabs, d, i) && d.entries[i].present
    ensures d.tables[i] != 0 && ShadowFrame(d.tables[i]) == d.entries[i].frame
  {
  }

  // ----- proc_map_pages

  datatype Mmu = Mmu(bits: Bitmap, tabs: Tables)

  ghost predicate MmuOk(m: Mmu, d: Directory) {
    Used(m.bits, 0) && Coherent(m.tabs, d) && TablesUsed(m.bits, m.tabs)
  }

  /** Entry `i` after the first half of an iteration, with a table behind it, or
      None when no frame is left for one. */
  function EnsureTable(m: Mmu, d: Directory, i: nat, writable: bool): (r: Option<(Mmu, Directory)>)
    requires i < 1024
  {
    var e := d.entries[i];
    if !e.present then
      var (bits, table) := AllocPages(m.bits, false, 1);
      if table == 0 then None else
      Some((Mmu(bits, m.tabs[table / PAGE := EmptyTable()]),
            Directory(d.entries[i := e.(present := true, rw := true, user := true, frame := table / PAGE)],
                      d.tables[i := KP2V(table)])))
    else if d.tables[i] == 0 then None
    else Some((m, Directory(d.entries[i := e.(rw := e.rw || writable, user := true)], d.tables)))
  }

  /** One iteration: page (i, j) to `frame`. The table is reached through the
      shadow pointer. */
  function MapPage(m: Mmu, d: Directory, i: nat, j: nat, frame: nat, writable: bool): (r: (Mmu, Directory, bool))
    requires i < 1024 && j < 1024
    ensures !r.2 ==> r.0 == m && r.1 == d
  {
    match EnsureTable(m, d, i, writable)
    case None => (m, d, false)
    case Some((m1, d1)) =>
      var t := ShadowFrame(d1.tables[i]);
      if t !in m1.tabs then (m1, d1, true) else
      (m1.(tabs := m1.tabs[t := m1.tabs[t][j := SetPage(m1.tabs[t][j], frame, true, writable, true)]]), d1, true)
  }

  /** `pages` iterations from page number `page` and frame `frame`, in order. */
  function MapPages(m: Mmu, d: Directory, page: nat, frame: nat, pages: nat, writable: bool): (Mmu, Directory, bool)
    requires page + pages <= 1024 * 1024
  {
    if pages == 0 then (m, d, true) else
    var (m1, d1, ok) := MapPages(m, d, page, frame, pages - 1, writable);
    if !ok then (m1, d1, false) else
    var n := page + pages - 1;
    MapPage(m1, d1, n / 1024, n % 1024, frame + pages - 1, writable)
  }

  // ----- one iteration

  /** Nothing but entry `i` and its table changes, and the bitmap gains at most
      the frame of a new table. */
  ghost predicate OnlyTable(m: Mmu, d: Directory, m': Mmu, d': Directory, i: nat)
    requires i < 1024
  {
    var t := d'.entries[i].frame;
    && (forall k :: 0 <= k < 1024 && k != i ==> d'.entries[k] == d.entries[k] && d'.tables[k] == d.tables[k])
    && (forall f :: f in m.tabs && f != t ==> f in m'.tabs && m'.tabs[f] == m.tabs[f])
    && (forall f :: f in m'.tabs && f != t ==> f in m.tabs)
    && (forall g :: 0 <= g < FRAMES ==> (Used(m'.bits, g) <==> Used(m.bits, g) || (g == t && g in m'.tabs)))
    && (if d.entries[i].present then t == d.entries[i].frame else t !in m.tabs && t < FRAMES && !Used(m.bits, t))
  }

  /** Write permission of entry `i`: granted to a new table and when asked for, never
      withdrawn, and on an existing entry not granted unasked. */
  predicate RwGrows(e: Pde, e': Pde, writable: bool) {
    && (writable || !e.present ==> e'.rw)
    && (e.present && e.rw ==> e'.rw)
    && (e.present && e'.rw ==> e.rw || writable)
  }

  lemma EnsureTableOk(m: Mmu, d: Directory, i: nat, writable: bool)
    requires i < 1024 && MmuOk(m, d) && EnsureTable(m, d, i, writable).Some?
    ensures var (m1, d1) := EnsureTable(m, d, i, writable).value;
            && MmuOk(m1, d1) && OnlyTable(m, d, m1, d1, i)
            && d1.entries[i].present && d1.entries[i].user
            && RwGrows(d.entries[i], d1.entries[i], writable)
            && (d.entries[i].present ==> m1 == m)
            && (!d.entries[i].present ==> m1.tabs[d1.entries[i].frame] == EmptyTable())
  {
    hide Used, MarkRange, AllocPages;
    var (m1, d1) := EnsureTable(m, d, i, writable).value;
    if !d.entries[i].present {
      LowAllocIsLowestRun(m.bits, 1);
      AllocTakesFreeFrames(m.bits, false, 1);
      var t := d1.entries[i].frame;
      assert !Used(m.bits, t) && t !in m.tabs;
      assert Used(m1.bits, 0);
      assert TablesUsed(m1.bits, m1.tabs);
    } else {
      assert EntryOk(m.tabs, d, i);
    }
    forall k | 0 <= k < 1024 ensures EntryOk(m1.tabs, d1, k) { assert EntryOk(m.tabs, d, k); }
    forall k, l | 0 <= k < l < 1024 && d1.entries[k].present && d1.entries[l].present
      ensures d1.entries[k].frame != d1.entries[l].frame
    {
      assert EntryOk(m.tabs, d, k) && EntryOk(m.tabs, d, l);
    }
  }

  /** Everything an iteration does: in a coherent directory it maps page (i, j) for
      user mode through the hardware walk, moves no other page, and changes
      nothing outside entry `i` and its table. It fails only for want of a frame,
      and then changes nothing. */
  lemma MapPageMaps(m: Mmu, d: Directory, i: nat, j: nat, frame: nat, writable: bool)
    requires i < 1024 && j < 1024 && MmuOk(m, d)
    ensures var (m', d', ok) := MapPage(m, d, i, j, frame, writable);
            if !ok then m' == m && d' == d && !d.entries[i].present && !RunIn(m.bits, 0, LOW_FRAMES, 1) else
            && MmuOk(m', d') && OnlyTable(m, d, m', d', i)
            && d'.entries[i].present && d'.entries[i].user
            && UserFrameAt(m'.tabs, d', i, j) == Some(frame)
            && (WritableAt(m'.tabs, d', i, j) <==> writable)
            && (forall k, l :: 0 <= k < 1024 && 0 <= l < 1024 && (k, l) != (i, j) ==>
                  && FrameAt(m'.tabs, d', k, l) == FrameAt(m.tabs, d, k, l)
                  && (WritableAt(m.tabs, d, k, l) ==> WritableAt(m'.tabs, d', k, l))
                  && (UserFrameAt(m.tabs, d, k, l).Some? && WritableAt(m'.tabs, d', k, l) ==>
                        WritableAt(m.tabs, d, k, l) || writable)
                  && (UserFrameAt(m.tabs, d, k, l).Some? ==> UserFrameAt(m'.tabs, d', k, l) == UserFrameAt(m.tabs, d, k, l)))
  {
    hide Used, AllocPages;
    if d.entries[i].present { ShadowIsHardware(m.tabs, d, i) by { assert EntryOk(m.tabs, d, i); } }
    if EnsureTable(m, d, i, writable).None? {
      LowAllocIsLowestRun(m.bits, 1);
    } else {
      EnsureTableOk(m, d, i, writable);
      var (m1, d1) := EnsureTable(m, d, i, writable).value;
      assert EntryOk(m1.tabs, d1, i);
      ShadowIsHardware(m1.tabs, d1, i);
      SetEntry(m, d, m1, d1, i, j, frame, writable);
    }
  }

  lemma SetEntry(m: Mmu, d: Directory, m1: Mmu, d1: Directory, i: nat, j: nat, frame: nat, writable: bool)
    requires i < 1024 && j < 1024
    requires MmuOk(m, d) && MmuOk(m1, d1) && OnlyTable(m, d, m1, d1, i)
    requires d1.entries[i].present && d1.entries[i].user && d1.entries[i].frame in m1.tabs
    requires RwGrows(d.entries[i], d1.entries[i], writable)
    requires d.entries[i].present ==> m1 == m
    requires !d.entries[i].present ==> m1.tabs[d1.entries[i].frame] == EmptyTable()
    ensures var t := d1.entries[i].frame;
            var m' := m1.(tabs := m1.tabs[t := m1.tabs[t][j := SetPage(m1.tabs[t][j], frame, true, writable, true)]]);
            && MmuOk(m', d1) && OnlyTable(m, d, m', d1, i)
            && UserFrameAt(m'.tabs, d1, i, j) == Some(frame)
            && (WritableAt(m'.tabs, d1, i, j) <==> writable)
            && (forall k, l :: 0 <= k < 1024 && 0 <= l < 1024 && (k, l) != (i, j) ==>
                  && FrameAt(m'.tabs, d1, k, l) == FrameAt(m.tabs, d, k, l)
                  && (WritableAt(m.tabs, d, k, l) ==> WritableAt(m'.tabs, d1, k, l))
                  && (UserFrameAt(m.tabs, d, k, l).Some? && WritableAt(m'.tabs, d1, k, l) ==>
                        WritableAt(m.tabs, d, k, l) || writable)
                  && (UserFrameAt(m.tabs, d, k, l).Some? ==> UserFrameAt(m'.tabs, d1, k, l) == UserFrameAt(m.tabs, d, k, l)))
  {
    hide Used, EmptyTable;
    var t := d1.entries[i].frame;
    var m' := m1.(tabs := m1.tabs[t := m1.tabs[t][j := SetPage(m1.tabs[t][j], frame, true, writable, true)]]);
    forall k | 0 <= k < 1024 ensures EntryOk(m'.tabs, d1, k) { assert EntryOk(m1.tabs, d1, k); }
    forall k, l | 0 <= k < 1024 && 0 <= l < 1024 && (k, l) != (i, j)
      ensures FrameAt(m'.tabs, d1, k, l) == FrameAt(m.tabs, d, k, l)
      ensures UserFrameAt(m.tabs, d, k, l).Some? ==> UserFrameAt(m'.tabs, d1, k, l) == UserFrameAt(m.tabs, d, k, l)
      ensures WritableAt(m.tabs, d, k, l) ==> WritableAt(m'.tabs, d1, k, l)
      ensures UserFrameAt(m.tabs, d, k, l).Some? && WritableAt(m'.tabs, d1, k, l) ==> WritableAt(m.tabs, d, k, l) || writable
    {
      assert EntryOk(m1.tabs, d1, k) && EntryOk(m.tabs, d, k) && EntryOk(m.tabs, d, i);
    }
  }

  // ----- a whole range

  /** Frame of page number `n`, for anyone and for user mode. */
  function PageFrame(m: Mmu, d: Directory, n: nat): Option<nat>
    requires n < 0x10_0000
  {
    FrameAt(m.tabs, d, n / 1024, n % 1024)
  }

  function UserPageFrame(m: Mmu, d: Directory, n: nat): Option<nat>
    requires n < 0x10_0000
  {
    UserFrameAt(m.tabs, d, n / 1024, n % 1024)
  }

  predicate PageWritable(m: Mmu, d: Directory, n: nat)
    requires n < 0x10_0000
  {
    WritableAt(m.tabs, d, n / 1024, n % 1024)
  }

  lemma {:induction false} MapPagesMaps(m: Mmu, d: Directory, page: nat, frame: nat, pages: nat, writable: bool)
    requires page + pages <= 0x10_0000 && MmuOk(m, d)
    ensures var (m', d', ok) := MapPages(m, d, page, frame, pages, writable);
            && MmuOk(m', d')
            && (ok ==> forall n :: page <= n < page + pages ==> UserPageFrame(m', d', n) == Some(frame + (n - page)))
            && (ok ==> forall n :: page <= n < page + pages ==> (PageWritable(m', d', n) <==> writable))
            && (forall n :: 0 <= n < 0x10_0000 && !(page <= n < page + pages) ==> PageFrame(m', d', n) == PageFrame(m, d, n))
  {
    hide MmuOk, MapPage, FrameAt, UserFrameAt, WritableAt;
    if pages > 0 {
      MapPagesMaps(m, d, page, frame, pages - 1, writable);
      var (m1, d1, ok) := MapPages(m, d, page, frame, pages - 1, writable);
      if ok {
        var last := page + pages - 1;
        MapPageMaps(m1, d1, last / 1024, last % 1024, frame + pages - 1, writable);
        var (m', d', done) := MapPages(m, d, page, frame, pages, writable);
        forall n | done && page <= n < page + pages
          ensures UserPageFrame(m', d', n) == Some(frame + (n - page)) && (PageWritable(m', d', n) <==> writable)
        {
          if n < last {
            assert UserPageFrame(m1, d1, n).Some? && (PageWritable(m1, d1, n) <==> writable);
            assert (n / 1024, n % 1024) != (last / 1024, last % 1024);
          }
        }
      }
    }
  }

  /** A failure means that no low frame is left for a page table. */
  lemma {:induction false} MapPagesFailure(m: Mmu, d: Directory, page: nat, frame: nat, pages: nat, writable: bool)
    requires page + pages <= 0x10_0000 && MmuOk(m, d)
    ensures var (m', d', ok) := MapPages(m, d, page, frame, pages, writable);
            !ok ==> !RunIn(m'.bits, 0, LOW_FRAMES, 1)
  {
    hide MmuOk, MapPage, FrameAt, UserFrameAt, WritableAt, RunIn;
    if pages > 0 {
      MapPagesFailure(m, d, page, frame, pages - 1, writable);
      MapPagesMaps(m, d, page, frame, pages - 1, writable);
      var (m1, d1, ok) := MapPages(m, d, page, frame, pages - 1, writable);
      var n := page + pages - 1;
      if ok { MapPageMaps(m1, d1, n / 1024, n % 1024, frame + pages - 1, writable); }
    }
  }

  /** A successful `proc_map_pages` on an aligned range: the two-level walk takes
      every byte of the range, in user mode, to the matching physical byte, for
      writing exactly if that was asked for, and every address outside the range
      translates as before. */
  lemma MappedRangeTranslates(m: Mmu, d: Directory, virt: U32, phys: U32, pages: nat, writable: bool)
    requires MmuOk(m, d) && virt % PAGE == 0 && phys % PAGE == 0 && virt + pages * PAGE <= TWO32
    ensures var (m', d', ok) := MapPages(m, d, virt / PAGE, phys / PAGE, pages, writable);
            && MmuOk(m', d')
            && (ok ==> forall va: U32 :: virt <= va < virt + pages * PAGE ==>
                  UserWalk(m'.tabs, d', va) == Some(phys + (va - virt)) && (UserCanWrite(m'.tabs, d', va) <==> writable))
            && (forall va: U32 :: !(virt <= va < virt + pages * PAGE) ==> Walk(m'.tabs, d', va) == Walk(m.tabs, d, va))
  {
    hide MmuOk, MapPages, FrameAt, UserFrameAt, WritableAt;
    var (m', d', ok) := MapPages(m, d, virt / PAGE, phys / PAGE, pages, writable);
    MapPagesMaps(m, d, virt / PAGE, phys / PAGE, pages, writable);
    forall va: U32 | ok && virt <= va < virt + pages * PAGE
      ensures UserWalk(m'.tabs, d', va) == Some(phys + (va - virt)) && (UserCanWrite(m'.tabs, d', va) <==> writable)
    {
      PageNumbers(va);
      var n := va / PAGE;
      assert UserPageFrame(m', d', n) == Some(phys / PAGE + (n - virt / PAGE)) && (PageWritable(m', d', n) <==> writable);
    }
    forall va: U32 | !(virt <= va < virt + pages * PAGE) ensures Walk(m'.tabs, d', va) == Walk(m.tabs, d, va) {
      PageNumbers(va);
      assert PageFrame(m', d', va / PAGE) == PageFrame(m, d, va / PAGE);
    }
  }

  lemma PageNumbers(va: U32)
    ensures va / PAGE < 0x10_0000 && DirIdx(va) == va / PAGE / 1024 && TblIdx(va) == va / PAGE % 1024
  {
  }
}
