/** Address spaces: `setup_kernel_directory`, `create_proc`'s directory and stack,
    and mapping of allocated frames, with the isolation every run keeps. */
module AddressSpaces {
  import opened Machine
  import opened Frames
  import opened Paging
  import opened KernelWindow

  /** What a used frame is for. A frame has at most one role. */
  datatype Role = Kernel | Held | Dir(owner: nat) | Table(owner: nat) | Page(owner: nat)

  type Roles = map<nat, Role>

  /** A directory occupies two frames: entries, then shadow pointers. */
  datatype Space = Space(frame: nat, dir: Directory)

  datatype World = World(mmu: Mmu, kernel: Directory, spaces: seq<Space>, roles: Roles)

  // ----- the invariant

  /** The first four mebibytes hold the kernel image, with the kernel's own page
      directory and its tables. */
  const KERNEL_FRAMES: nat := 1024

  ghost predicate RolesOk(m: Mmu, roles: Roles) {
    && Used(m.bits, 0)
    && (forall f :: 0 <= f < KERNEL_FRAMES ==> f in roles && roles[f] == Kernel)
    && (forall f :: f in roles ==> f < FRAMES && Used(m.bits, f))
    && (forall f :: f in m.tabs ==> f in roles && (roles[f].Kernel? || roles[f].Table?))
  }

  ghost predicate KernelDirOk(m: Mmu, k: Directory, roles: Roles) {
    && KernelOk(m.tabs, k)
    && (forall i :: 0 <= i < KERN_START_TBL ==> k.entries[i] == EMPTY_PDE)
    && (forall i :: KERN_START_TBL <= i < 1024 ==> k.entries[i].frame in roles && roles[k.entries[i].frame] == Kernel)
  }

  ghost predicate DirOwned(s: Space, roles: Roles, p: nat) {
    && s.frame in roles && roles[s.frame] == Dir(p)
    && s.frame + 1 in roles && roles[s.frame + 1] == Dir(p)
  }

  /** The user half of a directory uses only tables and pages of its process. */
  ghost predicate UserHalfOwned(tabs: Tables, d: Directory, roles: Roles, p: nat) {
    && (forall i :: 0 <= i < KERN_START_TBL && d.entries[i].present ==>
          d.entries[i].frame in roles && roles[d.entries[i].frame] == Table(p))
    && (forall i, j :: 0 <= i < KERN_START_TBL && 0 <= j < 1024 && FrameAt(tabs, d, i, j).Some? ==>
          FrameAt(tabs, d, i, j).value in roles && roles[FrameAt(tabs, d, i, j).value] == Page(p))
  }

  ghost predicate SpaceOk(m: Mmu, k: Directory, s: Space, roles: Roles, p: nat) {
    && Coherent(m.tabs, s.dir) && SharesKernel(k, s.dir)
    && DirOwned(s, roles, p) && UserHalfOwned(m.tabs, s.dir, roles, p)
  }

  ghost predicate Inv(w: World) {
    && RolesOk(w.mmu, w.roles)
    && KernelDirOk(w.mmu, w.kernel, w.roles)
    && forall p :: 0 <= p < |w.spaces| ==> SpaceOk(w.mmu, w.kernel, w.spaces[p], w.roles, p)
  }

  // ----- isolation

  /** A frame that user code of process `p` can reach belongs to `p`. */
  lemma ReachableIsOwned(w: World, p: nat, i: nat, j: nat)
    requires Inv(w) && p < |w.spaces| && i < 1024 && j < 1024
    requires UserFrameAt(w.mmu.tabs, w.spaces[p].dir, i, j).Some?
    ensures var f := UserFrameAt(w.mmu.tabs, w.spaces[p].dir, i, j).value;
            f in w.roles && w.roles[f] == Page(p)
  {
    var s := w.spaces[p];
    assert SpaceOk(w.mmu, w.kernel, s, w.roles, p);
    assert FrameAt(w.mmu.tabs, s.dir, i, j) == UserFrameAt(w.mmu.tabs, s.dir, i, j);
  }

  lemma WalkIsOwned(w: World, p: nat, va: U32)
    requires Inv(w) && p < |w.spaces| && UserWalk(w.mmu.tabs, w.spaces[p].dir, va).Some?
    ensures var f := UserWalk(w.mmu.tabs, w.spaces[p].dir, va).value / PAGE;
            f in w.roles && w.roles[f] == Page(p)
  {
    hide Inv;
    IndicesRebuild(va);
    ReachableIsOwned(w, p, DirIdx(va), TblIdx(va));
  }

  /** Isolation: no frame is user-reachable from two processes, and none that is
      user-reachable holds a page table or a page directory, the kernel's own
      included. */
  lemma Isolation(w: World, p: nat, va: U32, q: nat, vb: U32)
    requires Inv(w) && p < |w.spaces| && q < |w.spaces|
    requires UserWalk(w.mmu.tabs, w.spaces[p].dir, va).Some?
    ensures var f := UserWalk(w.mmu.tabs, w.spaces[p].dir, va).value / PAGE;
            && (p != q && UserWalk(w.mmu.tabs, w.spaces[q].dir, vb).Some? ==>
                  UserWalk(w.mmu.tabs, w.spaces[q].dir, vb).value / PAGE != f)
            && f !in w.mmu.tabs
            && f != w.spaces[q].frame && f != w.spaces[q].frame + 1
            && KERNEL_FRAMES <= f
  {
    hide UserWalk, KernelDirOk, Used;
    WalkIsOwned(w, p, va);
    if UserWalk(w.mmu.tabs, w.spaces[q].dir, vb).Some? { WalkIsOwned(w, q, vb); }
    assert SpaceOk(w.mmu, w.kernel, w.spaces[q], w.roles, q);
  }

  // ----- mapping one page keeps the invariant

  /** One iteration of `proc_map_pages` in space `p`; a new table gets its role. */
  function MapOne(w: World, p: nat, n: nat, frame: nat, writable: bool): (World, bool)
    requires p < |w.spaces| && n < 0x10_0000
  {
    var (m, d, ok) := MapPage(w.mmu, w.spaces[p].dir, n / 1024, n % 1024, frame, writable);
    if !ok then (w, false) else
    (World(m, w.kernel, w.spaces[p := Space(w.spaces[p].frame, d)], w.roles[d.entries[n / 1024].frame := Table(p)]), true)
  }

  lemma InvMmuOk(w: World, p: nat)
    requires Inv(w) && p < |w.spaces|
    ensures MmuOk(w.mmu, w.spaces[p].dir)
  {
  }

  /** Space `q` is untouched by a write to a table that is not one of its own. */
  lemma OtherSpaceKept(m: Mmu, m': Mmu, k: Directory, s: Space, roles: Roles, q: nat, t: nat, p: nat)
    requires RolesOk(m, roles) && KernelDirOk(m, k, roles) && SpaceOk(m, k, s, roles, q) && p != q
    requires forall f :: f in m.tabs && f != t ==> f in m'.tabs && m'.tabs[f] == m.tabs[f]
    requires t in roles ==> roles[t] == Table(p)
    ensures SpaceOk(m', k, s, roles[t := Table(p)], q)
  {
    hide Used, Lookup;
    forall i | 0 <= i < 1024 ensures EntryOk(m'.tabs, s.dir, i) { assert EntryOk(m.tabs, s.dir, i); }
    forall i, j | 0 <= i < KERN_START_TBL && 0 <= j < 1024
      ensures FrameAt(m'.tabs, s.dir, i, j) == FrameAt(m.tabs, s.dir, i, j)
    {
      SameLookup(m, m', s.dir, i, j, t) by {
        assert EntryOk(m.tabs, s.dir, i);
      }
    }
  }

  lemma SameLookup(m: Mmu, m': Mmu, d: Directory, i: nat, j: nat, t: nat)
    requires i < 1024 && j < 1024
    requires d.entries[i].present ==> d.entries[i].frame in m.tabs && d.entries[i].frame != t
    requires forall f :: f in m.tabs && f != t ==> f in m'.tabs && m'.tabs[f] == m.tabs[f]
    ensures Lookup(m'.tabs, d, i, j) == Lookup(m.tabs, d, i, j)
  {
  }

  lemma KernelKept(m: Mmu, m': Mmu, k: Directory, roles: Roles, t: nat, p: nat)
    requires KernelDirOk(m, k, roles)
    requires forall f :: f in m.tabs && f != t ==> f in m'.tabs && m'.tabs[f] == m.tabs[f]
    requires t in roles ==> roles[t] == Table(p)
    ensures KernelDirOk(m', k, roles[t := Table(p)])
  {
    forall i | 0 <= i < 1024 ensures EntryOk(m'.tabs, k, i) { assert EntryOk(m.tabs, k, i); }
  }

  lemma MapOneKeepsInv(w: World, p: nat, n: nat, frame: nat, writable: bool)
    requires Inv(w) && p < |w.spaces| && n < KERN_START_TBL * 1024
    requires frame in w.roles && w.roles[frame] == Page(p)
    ensures Inv(MapOne(w, p, n, frame, writable).0)
  {
    hide MapPage, Used, SpaceOk, KernelDirOk, RolesOk;
    var i, j := n / 1024, n % 1024;
    InvMmuOk(w, p);
    MapPageMaps(w.mmu, w.spaces[p].dir, i, j, frame, writable);
    var (m, d, ok) := MapPage(w.mmu, w.spaces[p].dir, i, j, frame, writable);
    if ok {
      var t := d.entries[i].frame;
      TableRole(w, p, i, t, m);
      RolesKept(w.mmu, m, w.roles, t, p);
      KernelKept(w.mmu, m, w.kernel, w.roles, t, p);
      var w' := MapOne(w, p, n, frame, writable).0;
      forall q | 0 <= q < |w'.spaces| ensures SpaceOk(w'.mmu, w'.kernel, w'.spaces[q], w'.roles, q) {
        assert SpaceOk(w.mmu, w.kernel, w.spaces[q], w.roles, q);
        if q != p {
          OtherSpaceKept(w.mmu, m, w.kernel, w.spaces[q], w.roles, q, t, p);
        } else {
          OwnSpaceKept(w.mmu, m, w.kernel, w.spaces[p], d, w.roles, p, i, j, frame);
        }
      }
    }
  }

  /** The table written to is new or already belongs to `p`. */
  lemma TableRole(w: World, p: nat, i: nat, t: nat, m: Mmu)
    requires Inv(w) && p < |w.spaces| && i < KERN_START_TBL
    requires if w.spaces[p].dir.entries[i].present then t == w.spaces[p].dir.entries[i].frame
             else t < FRAMES && !Used(w.mmu.bits, t)
    ensures t in w.roles ==> w.roles[t] == Table(p)
  {
  }

  lemma RolesKept(m: Mmu, m': Mmu, roles: Roles, t: nat, p: nat)
    requires RolesOk(m, roles) && t < FRAMES && t in m'.tabs && (t in roles ==> roles[t] == Table(p))
    requires forall f :: f in m'.tabs && f != t ==> f in m.tabs
    requires forall g :: 0 <= g < FRAMES ==> (Used(m'.bits, g) <==> Used(m.bits, g) || g == t)
    ensures RolesOk(m', roles[t := Table(p)])
  {
  }

  lemma OwnSpaceKept(m: Mmu, m': Mmu, k: Directory, s: Space, d: Directory, roles: Roles, p: nat, i: nat, j: nat, frame: nat)
    requires SpaceOk(m, k, s, roles, p) && i < KERN_START_TBL && j < 1024
    requires Coherent(m'.tabs, d) && d.entries[i].present
    requires forall l :: 0 <= l < 1024 && l != i ==> d.entries[l] == s.dir.entries[l] && d.tables[l] == s.dir.tables[l]
    requires var t := d.entries[i].frame; t in roles ==> roles[t] == Table(p)
    requires frame in roles && roles[frame] == Page(p)
    requires UserFrameAt(m'.tabs, d, i, j) == Some(frame)
    requires forall x, y :: 0 <= x < 1024 && 0 <= y < 1024 && (x, y) != (i, j) ==>
               FrameAt(m'.tabs, d, x, y) == FrameAt(m.tabs, s.dir, x, y)
    ensures SpaceOk(m', k, Space(s.frame, d), roles[d.entries[i].frame := Table(p)], p)
  {
  }

  // ----- the steps of a run

  function MapRange(w: World, p: nat, page: nat, frame: nat, pages: nat, writable: bool): (r: (World, bool))
    requires p < |w.spaces| && page + pages <= 0x10_0000
    ensures |r.0.spaces| == |w.spaces|
  {
    if pages == 0 then (w, true) else
    var (w1, ok) := MapRange(w, p, page, frame, pages - 1, writable);
    if !ok then (w1, false) else MapOne(w1, p, page + pages - 1, frame + pages - 1, writable)
  }

  /** The world's bookkeeping follows `proc_map_pages` exactly. */
  lemma {:induction false} MapRangeIsMapPages(w: World, p: nat, page: nat, frame: nat, pages: nat, writable: bool)
    requires p < |w.spaces| && page + pages <= 0x10_0000
    ensures var (w', ok) := MapRange(w, p, page, frame, pages, writable);
            (w'.mmu, w'.spaces[p].dir, ok) == MapPages(w.mmu, w.spaces[p].dir, page, frame, pages, writable)
  {
    hide MapPage;
    if pages > 0 { MapRangeIsMapPages(w, p, page, frame, pages - 1, writable); }
  }

  ghost predicate RangeHas(roles: Roles, base: nat, n: nat, r: Role) {
    forall f :: base <= f < base + n ==> f in roles && roles[f] == r
  }

  lemma {:induction false} MapRangeKeepsInv(w: World, p: nat, page: nat, frame: nat, pages: nat, writable: bool)
    requires Inv(w) && p < |w.spaces| && page + pages <= KERN_START_TBL * 1024
    requires RangeHas(w.roles, frame, pages, Page(p))
    ensures var w' := MapRange(w, p, page, frame, pages, writable).0;
            Inv(w') && PagesKept(w.roles, w'.roles)
  {
    hide Inv, MapOne;
    if pages > 0 {
      MapRangeKeepsInv(w, p, page, frame, pages - 1, writable);
      var (w1, ok) := MapRange(w, p, page, frame, pages - 1, writable);
      if ok {
        var f := frame + pages - 1;
        assert f in w.roles && w.roles[f] == Page(p);
        MapOneKeepsInv(w1, p, page + pages - 1, f, writable);
        MapOneKeepsPages(w1, p, page + pages - 1, f, writable);
      }
    }
  }

  ghost predicate PagesKept(roles: Roles, roles': Roles) {
    forall f :: f in roles && roles[f].Page? ==> f in roles' && roles'[f] == roles[f]
  }

  lemma MapOneKeepsPages(w: World, p: nat, n: nat, frame: nat, writable: bool)
    requires Inv(w) && p < |w.spaces| && n < KERN_START_TBL * 1024
    ensures PagesKept(w.roles, MapOne(w, p, n, frame, writable).0.roles)
  {
  }

  function Give(roles: Roles, base: nat, n: nat, r: Role): (roles': Roles)
    ensures forall f: nat :: f in roles' <==> f in roles || base <= f < base + n
    ensures forall f: nat :: f in roles' ==> roles'[f] == if base <= f < base + n then r else roles[f]
  {
    if n == 0 then roles else Give(roles, base, n - 1, r)[base + n - 1 := r]
  }

  /** The bitmap and the roles may grow, and held frames may find their use. */
  lemma RegrowKeepsInv(w: World, bits: Bitmap, roles: Roles)
    requires Inv(w)
    requires forall f :: f in w.roles ==> f in roles && (roles[f] == w.roles[f] || w.roles[f] == Held)
    requires forall f :: f in roles ==> f < FRAMES && Used(bits, f)
    requires Used(bits, 0)
    ensures Inv(World(Mmu(bits, w.mmu.tabs), w.kernel, w.spaces, roles))
  {
    hide Used;
    var w' := World(Mmu(bits, w.mmu.tabs), w.kernel, w.spaces, roles);
    forall p | 0 <= p < |w.spaces| ensures SpaceOk(w'.mmu, w'.kernel, w'.spaces[p], w'.roles, p) {
      assert SpaceOk(w.mmu, w.kernel, w.spaces[p], w.roles, p);
    }
  }

  /** `alloc_pages`, the frames taken getting role `r`. */
  function Take(w: World, high: bool, n: nat, r: Role): (World, U32) {
    var (bits, a) := AllocPages(w.mmu.bits, high, n);
    if a == 0 then (w, 0) else
    (w.(mmu := Mmu(bits, w.mmu.tabs), roles := Give(w.roles, a / PAGE, n, r)), a)
  }

  lemma TakeKeepsInv(w: World, high: bool, n: nat, r: Role)
    requires Inv(w) && n > 0 && Terminates(w.mmu.bits, high, n)
    ensures var (w', a) := Take(w, high, n, r);
            && Inv(w')
            && (a != 0 ==> RangeHas(w'.roles, a / PAGE, n, r))
  {
    hide Used, AllocPages, SpaceOk, KernelDirOk;
    var (bits, a) := AllocPages(w.mmu.bits, high, n);
    if a != 0 {
      AllocTakesFreeFrames(w.mmu.bits, high, n);
      RegrowKeepsInv(w, bits, Give(w.roles, a / PAGE, n, r));
    }
  }

  function Clone(k: Directory): Directory {
    Directory(seq(1024, i requires 0 <= i < 1024 => if i < KERN_START_TBL then EMPTY_PDE else k.entries[i]),
              seq(1024, i requires 0 <= i < 1024 => if i < KERN_START_TBL then 0 else k.tables[i]))
  }

  lemma NewSpaceKeepsInv(w: World, frame: nat)
    requires Inv(w) && RangeHas(w.roles, frame, 2, Dir(|w.spaces|))
    ensures Inv(w.(spaces := w.spaces + [Space(frame, Clone(w.kernel))]))
  {
    hide Used;
    var d := Clone(w.kernel);
    forall i | 0 <= i < 1024 ensures EntryOk(w.mmu.tabs, d, i) { assert EntryOk(w.mmu.tabs, w.kernel, i); }
    assert SpaceOk(w.mmu, w.kernel, Space(frame, d), w.roles, |w.spaces|);
  }

  /** Page number of the lowest stack page, and the number of stack pages. */
  function StackPage(stackSize: U32): nat
    requires stackSize <= STACK_TOP
  {
    (STACK_TOP - stackSize) / PAGE
  }

  function StackPages(stackSize: U32): (n: nat)
    requires stackSize <= STACK_TOP
    ensures n > 0 && StackPage(stackSize) + n == KERN_START_TBL * 1024
  {
    KERN_START_TBL * 1024 - StackPage(stackSize)
  }

  /** The address space part of `create_proc`: directory, clone, stack. The flag
      tells whether the stack was mapped. */
  function Create(w: World, stackSize: U32): (World, bool)
    requires stackSize <= STACK_TOP
  {
    var p := |w.spaces|;
    var (w1, a) := Take(w, false, 2, Dir(p));
    var w2 := w1.(spaces := w1.spaces + [Space(a / PAGE, Clone(w1.kernel))]);
    var (w3, s) := Take(w2, true, StackPages(stackSize), Page(p));
    if s == 0 then (w3, false)
    else MapRange(w3, p, StackPage(stackSize), s / PAGE, StackPages(stackSize), true)
  }

  /** `create_proc` does not notice a failed directory allocation, because the
      address 0 becomes a pointer that is not null. The new directory lies in
      frames of its own exactly when two adjacent low frames are free; otherwise
      it lies over frame 0, which is the kernel's. */
  lemma DirectoryIsOwnIff(w: World)
    requires Inv(w)
    ensures var (w1, a) := Take(w, false, 2, Dir(|w.spaces|));
            && (RangeHas(w1.roles, a / PAGE, 2, Dir(|w.spaces|)) <==> RunIn(w.mmu.bits, 0, LOW_FRAMES, 2))
            && (!RunIn(w.mmu.bits, 0, LOW_FRAMES, 2) ==> a == 0 && 0 in w1.roles && w1.roles[0] == Kernel)
  {
    hide Used, AllocPages, KernelDirOk, SpaceOk;
    LowAllocIsLowestRun(w.mmu.bits, 2);
    assert 0 in w.roles && w.roles[0] == Kernel;
  }

  lemma CreateKeepsInv(w: World, stackSize: U32)
    requires Inv(w) && stackSize <= STACK_TOP
    requires Take(w, false, 2, Dir(|w.spaces|)).1 != 0
    requires Terminates(Take(w, false, 2, Dir(|w.spaces|)).0.mmu.bits, true, StackPages(stackSize))
    ensures Inv(Create(w, stackSize).0)
  {
    hide Inv, AllocPages, StackPages, Clone;
    var p := |w.spaces|;
    TakeKeepsInv(w, false, 2, Dir(p));
    var (w1, a) := Take(w, false, 2, Dir(p));
    NewSpaceKeepsInv(w1, a / PAGE);
    var w2 := w1.(spaces := w1.spaces + [Space(a / PAGE, Clone(w1.kernel))]);
    TakeKeepsInv(w2, true, StackPages(stackSize), Page(p));
    var (w3, s) := Take(w2, true, StackPages(stackSize), Page(p));
    if s != 0 { MapRangeKeepsInv(w3, p, StackPage(stackSize), s / PAGE, StackPages(stackSize), true); }
  }

  /** `proc_map_pages` of frames the caller holds. */
  function MapHeld(w: World, p: nat, page: nat, frame: nat, pages: nat, writable: bool): (World, bool)
    requires p < |w.spaces| && page + pages <= 0x10_0000
  {
    MapRange(w.(roles := Give(w.roles, frame, pages, Page(p))), p, page, frame, pages, writable)
  }

  lemma MapHeldKeepsInv(w: World, p: nat, page: nat, frame: nat, pages: nat, writable: bool)
    requires Inv(w) && p < |w.spaces| && page + pages <= KERN_START_TBL * 1024
    requires RangeHas(w.roles, frame, pages, Held)
    ensures Inv(MapHeld(w, p, page, frame, pages, writable).0)
  {
    hide Used, MapRange, SpaceOk, KernelDirOk;
    var roles := Give(w.roles, frame, pages, Page(p));
    RegrowKeepsInv(w, w.mmu.bits, roles);
    MapRangeKeepsInv(w.(roles := roles), p, page, frame, pages, writable);
  }

  /** A write to a kernel page table reaches no user half. */
  lemma KernelWriteKeepsInv(w: World, i: nat, table: PageTable)
    requires Inv(w) && KERN_START_TBL <= i < 1024
    ensures var t := w.kernel.entries[i].frame;
            Inv(w.(mmu := w.mmu.(tabs := w.mmu.tabs[t := table])))
  {
    hide Used, Lookup;
    var t := w.kernel.entries[i].frame;
    assert EntryOk(w.mmu.tabs, w.kernel, i);
    var w' := w.(mmu := w.mmu.(tabs := w.mmu.tabs[t := table]));
    assert w'.mmu.tabs.Keys == w.mmu.tabs.Keys;
    forall l | 0 <= l < 1024 ensures EntryOk(w'.mmu.tabs, w.kernel, l) { assert EntryOk(w.mmu.tabs, w.kernel, l); }
    forall p | 0 <= p < |w.spaces| ensures SpaceOk(w'.mmu, w'.kernel, w'.spaces[p], w'.roles, p) {
      assert SpaceOk(w.mmu, w.kernel, w.spaces[p], w.roles, p);
      KernelWriteSpace(w.mmu, w'.mmu, w.kernel, w.spaces[p], w.roles, p, t);
    }
  }

  lemma KernelWriteSpace(m: Mmu, m': Mmu, k: Directory, s: Space, roles: Roles, p: nat, t: nat)
    requires SpaceOk(m, k, s, roles, p) && t in roles && roles[t] == Kernel
    requires m'.tabs.Keys == m.tabs.Keys
    requires forall f :: f in m.tabs && f != t ==> f in m'.tabs && m'.tabs[f] == m.tabs[f]
    ensures SpaceOk(m', k, s, roles, p)
  {
    hide Lookup;
    forall i | 0 <= i < 1024 ensures EntryOk(m'.tabs, s.dir, i) { assert EntryOk(m.tabs, s.dir, i); }
    forall i, j | 0 <= i < KERN_START_TBL && 0 <= j < 1024
      ensures FrameAt(m'.tabs, s.dir, i, j) == FrameAt(m.tabs, s.dir, i, j)
    {
      assert EntryOk(m.tabs, s.dir, i);
      SameLookup(m, m', s.dir, i, j, t);
    }
  }

  lemma WindowKeepsInv(w: World, paddr: U32, va: U32)
    requires Inv(w)
    ensures Inv(w.(mmu := w.mmu.(tabs := KMap(w.mmu.tabs, w.kernel, paddr).0)))
    ensures Inv(w.(mmu := w.mmu.(tabs := KUnmap(w.mmu.tabs, w.kernel, va))))
  {
    hide RolesOk, SpaceOk, Coherent;
    var k, tabs := w.kernel, w.mmu.tabs;
    assert w == w.(mmu := w.mmu.(tabs := tabs));
    var s := FirstEmpty(tabs, k, 0);
    if s < SLOTS {
      KernelShadow(tabs, k, SlotDir(s));
      var t := k.entries[SlotDir(s)].frame;
      KernelWriteKeepsInv(w, SlotDir(s), tabs[t][s % 1024 := SetPage(EMPTY_PTE, paddr / PAGE, true, true, false)]);
    }
    if va >= KERNEL_BASE {
      IndicesRebuild(va);
      KernelShadow(tabs, k, DirIdx(va));
      KernelWriteKeepsInv(w, DirIdx(va), tabs[k.entries[DirIdx(va)].frame][TblIdx(va) := EMPTY_PTE]);
    }
  }

  lemma KernelShadow(tabs: Tables, k: Directory, i: nat)
    requires KernelOk(tabs, k) && KERN_START_TBL <= i < 1024
    ensures ShadowFrame(k.tables[i]) == k.entries[i].frame && k.entries[i].frame in tabs
  {
    assert EntryOk(tabs, k, i);
    ShadowIsHardware(tabs, k, i);
  }

  // ----- runs

  datatype WorldOp =
    | TakeOp(high: bool, n: nat)
    | CreateOp(stackSize: U32)
    | MapOp(p: nat, page: nat, frame: nat, pages: nat, writable: bool)
    | KMapOp(paddr: U32)
    | KUnmapOp(va: U32)

  /** Frames come from `alloc_pages`, a directory is only used if its frames were
      obtained, and only held frames are mapped, into the user half. */
  ghost predicate LegalStep(w: World, op: WorldOp) {
    match op
    case TakeOp(high, n) => n > 0 && Terminates(w.mmu.bits, high, n)
    case CreateOp(stackSize) =>
      && stackSize <= STACK_TOP
      && Take(w, false, 2, Dir(|w.spaces|)).1 != 0
      && Terminates(Take(w, false, 2, Dir(|w.spaces|)).0.mmu.bits, true, StackPages(stackSize))
    case MapOp(p, page, frame, pages, _) =>
      p < |w.spaces| && page + pages <= KERN_START_TBL * 1024 && RangeHas(w.roles, frame, pages, Held)
    case KMapOp(_) => true
    case KUnmapOp(_) => true
  }

  function ApplyOp(w: World, op: WorldOp): World {
    match op
    case TakeOp(high, n) => Take(w, high, n, Held).0
    case CreateOp(stackSize) => if stackSize <= STACK_TOP then Create(w, stackSize).0 else w
    case MapOp(p, page, frame, pages, writable) =>
      if p < |w.spaces| && page + pages <= 0x10_0000 then MapHeld(w, p, page, frame, pages, writable).0 else w
    case KMapOp(paddr) => w.(mmu := w.mmu.(tabs := KMap(w.mmu.tabs, w.kernel, paddr).0))
    case KUnmapOp(va) => w.(mmu := w.mmu.(tabs := KUnmap(w.mmu.tabs, w.kernel, va)))
  }

  lemma StepKeepsInv(w: World, op: WorldOp)
    requires Inv(w) && LegalStep(w, op)
    ensures Inv(ApplyOp(w, op))
  {
    hide Inv, Take, Create, MapHeld, KMap, KUnmap, Terminates;
    match op
    case TakeOp(high, n) => TakeKeepsInv(w, high, n, Held);
    case CreateOp(stackSize) => CreateKeepsInv(w, stackSize);
    case MapOp(p, page, frame, pages, writable) => MapHeldKeepsInv(w, p, page, frame, pages, writable);
    case KMapOp(paddr) => WindowKeepsInv(w, paddr, 0);
    case KUnmapOp(va) => WindowKeepsInv(w, 0, va);
  }

  ghost predicate LegalRun(w: World, ops: seq<WorldOp>)
    decreases |ops|
  {
    ops != [] ==> LegalStep(w, ops[0]) && LegalRun(ApplyOp(w, ops[0]), ops[1..])
  }

  function After(w: World, ops: seq<WorldOp>): World
    decreases |ops|
  {
    if ops == [] then w else After(ApplyOp(w, ops[0]), ops[1..])
  }

  lemma {:induction false} RunKeepsInv(w: World, ops: seq<WorldOp>)
    requires Inv(w) && LegalRun(w, ops)
    ensures Inv(After(w, ops))
    decreases |ops|
  {
    hide Inv, LegalStep, ApplyOp;
    if ops != [] {
      StepKeepsInv(w, ops[0]);
      RunKeepsInv(ApplyOp(w, ops[0]), ops[1..]);
    }
  }

  // ----- boot

  /** `setup_kernel_directory` with its 256 tables in frames kt, kt + 1, ... */
  function KernelDirectory(kt: nat): Directory
    requires kt + 256 <= 1024
  {
    Directory(
      seq(1024, i requires 0 <= i < 1024 =>
        if i < KERN_START_TBL then EMPTY_PDE
        else EMPTY_PDE.(frame := kt + (i - KERN_START_TBL), present := true, rw := true)),
      seq(1024, i requires 0 <= i < 1024 =>
        if i < KERN_START_TBL then 0 else KernelTableAddress(kt, i)))
  }

  function KernelTableAddress(kt: nat, i: nat): U32
    requires kt + 256 <= 1024 && KERN_START_TBL <= i < 1024
  {
    KP2V((kt + (i - KERN_START_TBL)) * PAGE)
  }

  function KernelPte(i: nat, j: nat): Pte
    requires KERN_START_TBL <= i
  {
    if i < KERN_HIGHMEM_START_TBL then SetPage(EMPTY_PTE, (i - KERN_START_TBL) * 1024 + j, true, true, false)
    else EMPTY_PTE
  }

  function KernelTable(i: nat): PageTable
    requires KERN_START_TBL <= i < 1024
  {
    seq(1024, j requires 0 <= j < 1024 => KernelPte(i, j))
  }

  /** The first `n` kernel tables. */
  function KernelTables(kt: nat, n: nat): (tabs: Tables)
    requires n <= 256
    ensures forall f: nat :: f in tabs <==> kt <= f < kt + n
    ensures forall f: nat :: f in tabs ==> tabs[f] == KernelTable(f - kt + KERN_START_TBL)
  {
    if n == 0 then map[] else KernelTables(kt, n - 1)[kt + n - 1 := KernelTable(n - 1 + KERN_START_TBL)]
  }

  /** The kernel's frames are reserved; nothing else has a role yet. */
  function Boot(bits: Bitmap, kt: nat): World
    requires kt + 256 <= 1024
  {
    World(Mmu(bits, KernelTables(kt, 256)), KernelDirectory(kt), [], Give(map[], 0, KERNEL_FRAMES, Kernel))
  }

  lemma BootInv(bits: Bitmap, kt: nat)
    requires 0 < kt && kt + 256 <= 1024
    requires forall f :: 0 <= f < 1024 ==> Used(bits, f)
    ensures Inv(Boot(bits, kt))
  {
    hide Used, KernelTable, KernelTables, Give, EntryOk, KP2V;
    BootEntries(kt);
  }

  /** With all low frames in use, `create_proc` lays the new directory over the
      kernel's frame 0 and clears it. */
  lemma DirectoryOverKernel(kt: nat)
    requires 0 < kt && kt + 256 <= 1024
    ensures var w := Boot(UsedBelow(LOW_FRAMES / 8), kt);
            && Inv(w) && Terminates(w.mmu.bits, true, StackPages(0))
            && var (w', mapped) := Create(w, 0); |w'.spaces| == 1 && w'.spaces[0].frame == 0
  {
    hide Inv, Used, AllocPages, KernelTables, KernelDirectory, Give, MapRange, Clone;
    var bits := UsedBelow(LOW_FRAMES / 8);
    UsedBelowUses(LOW_FRAMES / 8);
    BootInv(bits, kt);
    assert FreeRun(bits, LOW_FRAMES, StackPages(0));
    NoRunUsed(bits, 0, LOW_FRAMES, 2);
    LowAllocIsLowestRun(bits, 2);
    CreateHasSpace(Boot(bits, kt), 0);
  }

  /** `create_proc` keeps the invariant exactly when two adjacent low frames were free
      for its directory, whether or not the stack gets mapped. */
  lemma CreateKeepsInvIff(w: World, stackSize: U32)
    requires Inv(w) && stackSize <= STACK_TOP
    requires Terminates(Take(w, false, 2, Dir(|w.spaces|)).0.mmu.bits, true, StackPages(stackSize))
    ensures Inv(Create(w, stackSize).0) <==> RunIn(w.mmu.bits, 0, LOW_FRAMES, 2)
  {
    hide Inv, Take, Create, Terminates, StackPages, RunIn;
    TakenIff(w);
    if RunIn(w.mmu.bits, 0, LOW_FRAMES, 2) {
      CreateKeepsInv(w, stackSize);
    } else {
      CreateHasSpace(w, stackSize);
      if Inv(Create(w, stackSize).0) {
        DirectoryAboveKernel(Create(w, stackSize).0, |w.spaces|);
        assert false;
      }
    }
  }

  lemma DirectoryAboveKernel(w: World, p: nat)
    requires Inv(w) && p < |w.spaces|
    ensures KERNEL_FRAMES <= w.spaces[p].frame
  {
    hide Used, KernelDirOk, Coherent, UserHalfOwned;
    assert SpaceOk(w.mmu, w.kernel, w.spaces[p], w.roles, p);
  }

  lemma TakenIff(w: World)
    requires Inv(w)
    ensures Take(w, false, 2, Dir(|w.spaces|)).1 != 0 <==> RunIn(w.mmu.bits, 0, LOW_FRAMES, 2)
  {
    hide AllocPages, KernelDirOk, SpaceOk, Used, RunIn;
    LowAllocIsLowestRun(w.mmu.bits, 2);
  }

  /** The new directory lies where the allocation said, wherever that is. */
  lemma CreateHasSpace(w: World, stackSize: U32)
    requires stackSize <= STACK_TOP
    ensures var a := Take(w, false, 2, Dir(|w.spaces|)).1;
            var w' := Create(w, stackSize).0;
            |w'.spaces| == |w.spaces| + 1 && w'.spaces[|w.spaces|].frame == a / PAGE
  {
    hide AllocPages, StackPages, Clone, MapRange;
    var p := |w.spaces|;
    var (w1, a) := Take(w, false, 2, Dir(p));
    var w2 := w1.(spaces := w1.spaces + [Space(a / PAGE, Clone(w1.kernel))]);
    var (w3, s) := Take(w2, true, StackPages(stackSize), Page(p));
    if s != 0 { MapRangeFrames(w3, p, StackPage(stackSize), s / PAGE, StackPages(stackSize), true); }
  }

  lemma {:induction false} MapRangeFrames(w: World, p: nat, page: nat, frame: nat, pages: nat, writable: bool)
    requires p < |w.spaces| && page + pages <= 0x10_0000
    ensures MapRange(w, p, page, frame, pages, writable).0.spaces[p].frame == w.spaces[p].frame
  {
    hide MapPage;
    if pages > 0 { MapRangeFrames(w, p, page, frame, pages - 1, writable); }
  }

  lemma BootEntries(kt: nat)
    requires 0 < kt && kt + 256 <= 1024
    ensures forall i :: 0 <= i < 1024 ==> EntryOk(KernelTables(kt, 256), KernelDirectory(kt), i)
  {
    hide KernelTable, KernelTables;
    var k := KernelDirectory(kt);
    forall i | 0 <= i < 1024 ensures EntryOk(KernelTables(kt, 256), k, i) {
      assert i >= KERN_START_TBL ==> k.tables[i] == KernelTableAddress(kt, i);
    }
  }

  /** After boot the kernel reaches every byte of low memory at a fixed offset, for
      writing too, and user mode none. */
  lemma BootIdentity(bits: Bitmap, kt: nat, pa: U32)
    requires 0 < kt && kt + 256 <= 1024 && pa < LOW_FRAMES * PAGE
    ensures var w := Boot(bits, kt); Walk(w.mmu.tabs, w.kernel, KP2V(pa)) == Some(pa)
    ensures var w := Boot(bits, kt); KernelOnly(w.mmu.tabs, w.kernel, KP2V(pa))
    ensures var w := Boot(bits, kt); UserWalk(w.mmu.tabs, w.kernel, KP2V(pa)) == None
  {
    hide KernelPte, KP2V, Lookup, KernelTables, KernelDirectory;
    LowIndices(pa);
    BootLookup(kt, DirIdx(KP2V(pa)), TblIdx(KP2V(pa)));
    BootPte(pa);
  }

  lemma BootLookup(kt: nat, i: nat, j: nat)
    requires kt + 256 <= 1024 && KERN_START_TBL <= i < 1024 && j < 1024
    ensures Lookup(KernelTables(kt, 256), KernelDirectory(kt), i, j) == Some(KernelPte(i, j))
    ensures KernelDirectory(kt).entries[i].rw && !KernelDirectory(kt).entries[i].user
  {
    hide KernelPte;
  }

  lemma BootPte(pa: U32)
    requires pa < LOW_FRAMES * PAGE
    ensures KernelPte(KERN_START_TBL + pa / PAGE / 1024, pa / PAGE % 1024) ==
            SetPage(EMPTY_PTE, pa / PAGE, true, true, false)
  {
  }

  /** Isolation in every run from boot. */
  lemma EveryRunIsIsolated(bits: Bitmap, kt: nat, ops: seq<WorldOp>, p: nat, va: U32, q: nat, vb: U32)
    requires 0 < kt && kt + 256 <= 1024
    requires forall f :: 0 <= f < 1024 ==> Used(bits, f)
    requires LegalRun(Boot(bits, kt), ops)
    requires var w := After(Boot(bits, kt), ops);
             p < |w.spaces| && q < |w.spaces| && UserWalk(w.mmu.tabs, w.spaces[p].dir, va).Some?
    ensures var w := After(Boot(bits, kt), ops);
            var f := UserWalk(w.mmu.tabs, w.spaces[p].dir, va).value / PAGE;
            && (p != q && UserWalk(w.mmu.tabs, w.spaces[q].dir, vb).Some? ==>
                  UserWalk(w.mmu.tabs, w.spaces[q].dir, vb).value / PAGE != f)
            && f !in w.mmu.tabs && f != w.spaces[q].frame && f != w.spaces[q].frame + 1
            && KERNEL_FRAMES <= f
  {
    hide UserWalk, Boot, Used, LegalRun, After, Inv;
    BootInv(bits, kt);
    RunKeepsInv(Boot(bits, kt), ops);
    Isolation(After(Boot(bits, kt), ops), p, va, q, vb);
  }

  /** In every run from boot the hardware and software views agree, in the kernel's
      directory and in that of every process; all share the kernel half, and no two
      directories share a frame. */
  lemma EveryRunIsCoherent(bits: Bitmap, kt: nat, ops: seq<WorldOp>)
    requires 0 < kt && kt + 256 <= 1024
    requires forall f :: 0 <= f < 1024 ==> Used(bits, f)
    requires LegalRun(Boot(bits, kt), ops)
    ensures var w := After(Boot(bits, kt), ops);
            && KernelOk(w.mmu.tabs, w.kernel)
            && (forall p :: 0 <= p < |w.spaces| ==>
                  && Coherent(w.mmu.tabs, w.spaces[p].dir) && SharesKernel(w.kernel, w.spaces[p].dir)
                  && KERNEL_FRAMES <= w.spaces[p].frame)
            && (forall p, q :: 0 <= p < q < |w.spaces| ==>
                  w.spaces[p].frame + 2 <= w.spaces[q].frame || w.spaces[q].frame + 2 <= w.spaces[p].frame)
  {
    hide Boot, Used, LegalRun, After, Coherent, SharesKernel;
    BootInv(bits, kt);
    RunKeepsInv(Boot(bits, kt), ops);
    var w := After(Boot(bits, kt), ops);
    forall p | 0 <= p < |w.spaces|
      ensures Coherent(w.mmu.tabs, w.spaces[p].dir) && SharesKernel(w.kernel, w.spaces[p].dir)
      ensures KERNEL_FRAMES <= w.spaces[p].frame
    {
      assert SpaceOk(w.mmu, w.kernel, w.spaces[p], w.roles, p);
    }
    forall p, q | 0 <= p < q < |w.spaces|
      ensures w.spaces[p].frame + 2 <= w.spaces[q].frame || w.spaces[q].frame + 2 <= w.spaces[p].frame
    {
      assert SpaceOk(w.mmu, w.kernel, w.spaces[p], w.roles, p);
      assert SpaceOk(w.mmu, w.kernel, w.spaces[q], w.roles, q);
    }
  }
}
