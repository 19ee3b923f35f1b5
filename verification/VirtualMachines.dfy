/** The virtual machine of a process: its registers, as context switches keep them,
    and its memory, as page tables and CR3 keep it apart from all others. Physical
    memory is shared; a user-mode step reads and writes it through the two-level
    walk of whatever directory CR3 names. */
module VirtualMachines {
  import opened Machine
  import opened Frames
  import opened Paging
  import opened AddressSpaces
  import opened SpaceRuns
  import opened Scheduler

  type Physical = m: seq<bv8> | |m| == 0x1_0000_0000 witness seq(0x1_0000_0000, _ => 0)

  /** What user mode sees at each virtual address: a byte, or a fault. */
  type View = seq<Option<bv8>>

  /** One user-mode step: new registers, and bytes to be written. */
  type UserProgram = (Context, View) -> (Context, seq<(U32, bv8)>)

  function ReadUser(tabs: Tables, d: Directory, mem: Physical, va: U32): Option<bv8> {
    match UserWalk(tabs, d, va)
    case Some(pa) => if pa < TWO32 then Some(mem[pa]) else None
    case None => None
  }

  function UserView(tabs: Tables, d: Directory, mem: Physical): View {
    seq(0x1_0000_0000, va requires 0 <= va < 0x1_0000_0000 => ReadUser(tabs, d, mem, va))
  }

  /** A write that the tables do not allow faults and changes nothing. */
  function WriteUser(tabs: Tables, d: Directory, mem: Physical, va: U32, v: bv8): Physical {
    if !UserCanWrite(tabs, d, va) then mem else
    match UserWalk(tabs, d, va)
    case Some(pa) => if pa < TWO32 then mem[pa := v] else mem
    case None => mem
  }

  function WriteAll(tabs: Tables, d: Directory, mem: Physical, writes: seq<(U32, bv8)>): Physical
    decreases |writes|
  {
    if writes == [] then mem
    else WriteAll(tabs, d, WriteUser(tabs, d, mem, writes[0].0, writes[0].1), writes[1..])
  }

  /** The address space whose directory CR3 points at. */
  function SpaceAt(spaces: seq<Space>, cr3: U32): (r: Option<nat>)
    ensures r.Some? ==> r.value < |spaces| && spaces[r.value].frame * PAGE == cr3
    ensures r.None? ==> forall p :: 0 <= p < |spaces| ==> spaces[p].frame * PAGE != cr3
  {
    if spaces == [] then None
    else if spaces[|spaces| - 1].frame * PAGE == cr3 then Some(|spaces| - 1)
    else SpaceAt(spaces[..|spaces| - 1], cr3)
  }

  /** A user program under the MMU. */
  function Execute(w: World, user: UserProgram): Program<Physical> {
    (cr3: U32, c: Context, mem: Physical) =>
      match SpaceAt(w.spaces, cr3)
      case None => (c, mem)
      case Some(p) =>
        var d := w.spaces[p].dir;
        var (c', writes) := user(c, UserView(w.mmu.tabs, d, mem));
        (c', WriteAll(w.mmu.tabs, d, mem, writes))
  }

  function Programs(w: World, users: seq<UserProgram>): (ps: seq<Program<Physical>>)
    requires |users| == MAXPROC
    ensures |ps| == MAXPROC
  {
    seq<Program<Physical>>(MAXPROC, i requires 0 <= i < MAXPROC => Execute(w, users[i]))
  }

  // ----- memory

  /** Where a write lands, for its own view. */
  lemma OwnWrite(tabs: Tables, d: Directory, mem: Physical, mem': Physical, va: U32, v: bv8)
    requires UserView(tabs, d, mem) == UserView(tabs, d, mem')
    ensures UserView(tabs, d, WriteUser(tabs, d, mem, va, v)) == UserView(tabs, d, WriteUser(tabs, d, mem', va, v))
  {
    hide UserWalk, UserCanWrite;
    var n, n' := WriteUser(tabs, d, mem, va, v), WriteUser(tabs, d, mem', va, v);
    forall x: U32 ensures ReadUser(tabs, d, n, x) == ReadUser(tabs, d, n', x) {
      assert UserView(tabs, d, mem)[x] == UserView(tabs, d, mem')[x];
    }
  }

  lemma {:induction false} OwnWrites(tabs: Tables, d: Directory, mem: Physical, mem': Physical, writes: seq<(U32, bv8)>)
    requires UserView(tabs, d, mem) == UserView(tabs, d, mem')
    ensures UserView(tabs, d, WriteAll(tabs, d, mem, writes)) == UserView(tabs, d, WriteAll(tabs, d, mem', writes))
    decreases |writes|
  {
    hide UserView, WriteUser;
    if writes != [] {
      var (va, v) := writes[0];
      OwnWrite(tabs, d, mem, mem', va, v);
      OwnWrites(tabs, d, WriteUser(tabs, d, mem, va, v), WriteUser(tabs, d, mem', va, v), writes[1..]);
    }
  }

  /** A write by process `q` reaches no byte that process `p` sees. */
  lemma OtherWrite(w: World, p: nat, q: nat, mem: Physical, va: U32, v: bv8)
    requires Inv(w) && p < |w.spaces| && q < |w.spaces| && p != q
    ensures UserView(w.mmu.tabs, w.spaces[p].dir, WriteUser(w.mmu.tabs, w.spaces[q].dir, mem, va, v))
            == UserView(w.mmu.tabs, w.spaces[p].dir, mem)
  {
    hide UserWalk, UserCanWrite, Inv;
    var tabs, d, e := w.mmu.tabs, w.spaces[p].dir, w.spaces[q].dir;
    var n := WriteUser(tabs, e, mem, va, v);
    forall x: U32 ensures ReadUser(tabs, d, n, x) == ReadUser(tabs, d, mem, x) {
      if UserWalk(tabs, d, x).Some? && UserWalk(tabs, e, va).Some? { Isolation(w, p, x, q, va); }
    }
  }

  lemma {:induction false} OtherWrites(w: World, p: nat, q: nat, mem: Physical, writes: seq<(U32, bv8)>)
    requires Inv(w) && p < |w.spaces| && q < |w.spaces| && p != q
    ensures UserView(w.mmu.tabs, w.spaces[p].dir, WriteAll(w.mmu.tabs, w.spaces[q].dir, mem, writes))
            == UserView(w.mmu.tabs, w.spaces[p].dir, mem)
    decreases |writes|
  {
    hide UserView, WriteUser, Inv;
    if writes != [] {
      var (va, v) := writes[0];
      OtherWrite(w, p, q, mem, va, v);
      OtherWrites(w, p, q, WriteUser(w.mmu.tabs, w.spaces[q].dir, mem, va, v), writes[1..]);
    }
  }

  // ----- processes and their directories

  /** Every process has a directory of its own among the address spaces. */
  ghost predicate Placed(w: World, s: Cpu) {
    && (forall i :: 1 <= i < MAXPROC && s.slots[i].Some? ==> SpaceAt(w.spaces, s.slots[i].value.cr3).Some?)
    && forall i, j :: 1 <= i < j < MAXPROC && s.slots[i].Some? && s.slots[j].Some? ==>
         s.slots[i].value.cr3 != s.slots[j].value.cr3
  }

  lemma StepKeepsSlots<M>(m: Computer<M>, programs: seq<Program<M>>, e: Event, i: nat)
    requires Sane(m.cpu) && |programs| == MAXPROC && i < MAXPROC
    ensures var s, s' := m.cpu.slots[i], Step(m, programs, e).cpu.slots[i];
            (s.Some? <==> s'.Some?) && (s.Some? ==> s'.value.cr3 == s.value.cr3)
  {
  }

  lemma StepKeepsPlaces(w: World, m: Computer<Physical>, programs: seq<Program<Physical>>, e: Event)
    requires CpuFollows(m.cpu) && Placed(w, m.cpu) && |programs| == MAXPROC
    ensures Placed(w, Step(m, programs, e).cpu) && CpuFollows(Step(m, programs, e).cpu)
  {
    hide Step, CpuFollows, SpaceAt;
    assert Sane(m.cpu) by { FollowsSane(m.cpu); }
    forall i | 0 <= i < MAXPROC
      ensures var s, s' := m.cpu.slots[i], Step(m, programs, e).cpu.slots[i];
              (s.Some? <==> s'.Some?) && (s.Some? ==> s'.value.cr3 == s.value.cr3)
    {
      StepKeepsSlots(m, programs, e, i);
    }
    StepFollows(m, programs, e);
  }

  lemma FollowsSane(s: Cpu)
    requires CpuFollows(s)
    ensures Sane(s) && s.current != 0 && s.cr3 == s.slots[s.current].value.cr3
  {
  }

  // ----- one step

  /** The view of process `i`, through the directory its CR3 names. */
  function ViewOf(w: World, cr3: U32, mem: Physical): View {
    match SpaceAt(w.spaces, cr3)
    case Some(p) => UserView(w.mmu.tabs, w.spaces[p].dir, mem)
    case None => []
  }

  /** A step on memories that look the same to a process leaves them looking the
      same, and the same registers. */
  lemma OwnStep(w: World, user: UserProgram, cr3: U32, c: Context, mem: Physical, mem': Physical, e: Event)
    requires ViewOf(w, cr3, mem) == ViewOf(w, cr3, mem')
    ensures var (r, r') := (Alone(cr3, c, mem, Execute(w, user), e), Alone(cr3, c, mem', Execute(w, user), e));
            r.0 == r'.0 && ViewOf(w, cr3, r.1) == ViewOf(w, cr3, r'.1)
  {
    hide UserView, WriteAll;
    if e == User && SpaceAt(w.spaces, cr3).Some? {
      var d := w.spaces[SpaceAt(w.spaces, cr3).value].dir;
      OwnWrites(w.mmu.tabs, d, mem, mem', user(c, UserView(w.mmu.tabs, d, mem)).1);
    }
  }

  lemma OtherStep(w: World, user: UserProgram, cr3: U32, other: U32, c: Context, mem: Physical)
    requires Inv(w) && cr3 != other
    ensures ViewOf(w, cr3, Execute(w, user)(other, c, mem).1) == ViewOf(w, cr3, mem)
  {
    hide Inv, UserView, WriteAll;
    if SpaceAt(w.spaces, cr3).Some? && SpaceAt(w.spaces, other).Some? {
      var p, q := SpaceAt(w.spaces, cr3).value, SpaceAt(w.spaces, other).value;
      OtherWrites(w, p, q, mem, user(c, UserView(w.mmu.tabs, w.spaces[q].dir, mem)).1);
    }
  }

  /** A step of another process, a system call of another process and a preemption
      change neither the registers nor the memory of process `i`. */
  lemma StepSparesOther(w: World, m: Computer<Physical>, users: seq<UserProgram>, e: Event, i: nat)
    requires Inv(w) && CpuFollows(m.cpu) && Placed(w, m.cpu) && |users| == MAXPROC
    requires 0 < i < MAXPROC && m.cpu.slots[i].Some? && (i != m.cpu.current || e == Reschedule)
    ensures var m' := Step(m, Programs(w, users), e);
            && m'.cpu.slots[i].Some?
            && Virtual(m'.cpu, i) == Virtual(m.cpu, i)
            && ViewOf(w, m.cpu.slots[i].value.cr3, m'.memory) == ViewOf(w, m.cpu.slots[i].value.cr3, m.memory)
  {
    hide Inv, ViewOf, Execute, SpaceAt, Virtual;
    StepIsAlone(m, Programs(w, users), e, i);
    if e == User {
      OtherStep(w, users[m.cpu.current], m.cpu.slots[i].value.cr3, m.cpu.cr3, FromRegs(m.cpu.frame), m.memory);
    }
  }

  // ----- whole runs

  /** Virtual machine: under any interleaving of user steps, system calls and
      preemptions, each process ends with the registers, and sees the memory, of the
      run in which it executes its own events alone, from any physical memory that
      looked the same to it at the start. */
  lemma {:induction false} EachProcessRunsAlone(w: World, m: Computer<Physical>, users: seq<UserProgram>, events: seq<Event>, i: nat, mem: Physical)
    requires Inv(w) && CpuFollows(m.cpu) && Placed(w, m.cpu) && |users| == MAXPROC
    requires 0 < i < MAXPROC && m.cpu.slots[i].Some?
    requires ViewOf(w, m.cpu.slots[i].value.cr3, mem) == ViewOf(w, m.cpu.slots[i].value.cr3, m.memory)
    ensures var programs, cr3 := Programs(w, users), m.cpu.slots[i].value.cr3;
            var r := Run(m, programs, events);
            var (c, alone) := Solo(cr3, Virtual(m.cpu, i), mem, programs[i], OwnEvents(m, programs, events, i));
            && r.cpu.slots[i].Some? && Virtual(r.cpu, i) == c
            && ViewOf(w, cr3, r.memory) == ViewOf(w, cr3, alone)
    decreases |events|
  {
    hide Inv, ViewOf, Execute, Placed, CpuFollows, Step, Alone, Virtual;
    FollowsSane(m.cpu);
    if events != [] {
      var programs, cr3, e := Programs(w, users), m.cpu.slots[i].value.cr3, events[0];
      var m' := Step(m, programs, e);
      StepIsAlone(m, programs, e, m.cpu.current);
      StepIsAlone(m, programs, e, i);
      StepKeepsPlaces(w, m, programs, e);
      if i == m.cpu.current && e != Reschedule {
        var (c1, mem1) := Alone(cr3, Virtual(m.cpu, i), mem, programs[i], e);
        OwnStep(w, users[i], cr3, Virtual(m.cpu, i), mem, m.memory, e);
        EachProcessRunsAlone(w, m', users, events[1..], i, mem1);
        var own := OwnEvents(m', programs, events[1..], i);
        assert ([e] + own)[1..] == own;
      } else {
        StepSparesOther(w, m, users, e, i);
        EachProcessRunsAlone(w, m', users, events[1..], i, mem);
        assert OwnEvents(m, programs, events, i) == OwnEvents(m', programs, events[1..], i);
      }
    }
  }

  // ----- the tables themselves are out of reach

  /** Frames that hold the kernel, a page table or a page directory. */
  ghost predicate Protected(w: World, f: nat) {
    f < KERNEL_FRAMES || f in w.mmu.tabs || exists q :: 0 <= q < |w.spaces| && w.spaces[q].frame <= f <= w.spaces[q].frame + 1
  }

  ghost predicate SameProtected(w: World, mem: Physical, mem': Physical) {
    forall pa: U32 :: Protected(w, pa / PAGE) ==> mem'[pa] == mem[pa]
  }

  lemma WriteSparesProtected(w: World, p: nat, mem: Physical, va: U32, v: bv8)
    requires Inv(w) && p < |w.spaces|
    ensures SameProtected(w, mem, WriteUser(w.mmu.tabs, w.spaces[p].dir, mem, va, v))
  {
    hide UserWalk, UserCanWrite, Inv;
    if UserWalk(w.mmu.tabs, w.spaces[p].dir, va).Some? {
      var f := UserWalk(w.mmu.tabs, w.spaces[p].dir, va).value / PAGE;
      Isolation(w, p, va, p, va);
      forall q | 0 <= q < |w.spaces| ensures !(w.spaces[q].frame <= f <= w.spaces[q].frame + 1) {
        Isolation(w, p, va, q, va);
      }
    }
  }

  lemma {:induction false} WritesSpareProtected(w: World, p: nat, mem: Physical, writes: seq<(U32, bv8)>)
    requires Inv(w) && p < |w.spaces|
    ensures SameProtected(w, mem, WriteAll(w.mmu.tabs, w.spaces[p].dir, mem, writes))
    decreases |writes|
  {
    hide WriteUser, Inv, Protected;
    if writes != [] {
      var (va, v) := writes[0];
      WriteSparesProtected(w, p, mem, va, v);
      WritesSpareProtected(w, p, WriteUser(w.mmu.tabs, w.spaces[p].dir, mem, va, v), writes[1..]);
    }
  }

  lemma ExecuteSparesProtected(w: World, user: UserProgram, cr3: U32, c: Context, mem: Physical)
    requires Inv(w)
    ensures SameProtected(w, mem, Execute(w, user)(cr3, c, mem).1)
  {
    hide Inv, Protected, WriteAll, UserView;
    if SpaceAt(w.spaces, cr3).Some? {
      var p := SpaceAt(w.spaces, cr3).value;
      WritesSpareProtected(w, p, mem, user(c, UserView(w.mmu.tabs, w.spaces[p].dir, mem)).1);
    }
  }

  /** No run of user programs changes a byte of the kernel's frames, of a page table
      or of a page directory: the address spaces stay what they are. */
  lemma {:induction false} RunSparesTables(w: World, m: Computer<Physical>, users: seq<UserProgram>, events: seq<Event>)
    requires Inv(w) && Sane(m.cpu) && |users| == MAXPROC
    ensures SameProtected(w, m.memory, Run(m, Programs(w, users), events).memory)
    decreases |events|
  {
    hide Inv, Protected, Execute;
    if events != [] {
      var programs := Programs(w, users);
      StepIsAlone(m, programs, events[0], m.cpu.current);
      if events[0] == User {
        ExecuteSparesProtected(w, users[m.cpu.current], m.cpu.cr3, FromRegs(m.cpu.frame), m.memory);
      }
      RunSparesTables(w, Step(m, programs, events[0]), users, events[1..]);
    }
  }

  // ----- what a process can rely on

  /** A byte written where user mode may write is read back there, and wherever else
      the process sees the same physical byte; every other write is lost and no other
      byte changes. */
  lemma ReadAfterWrite(w: World, p: nat, mem: Physical, va: U32, v: bv8, x: U32)
    requires Inv(w) && p < |w.spaces|
    ensures var (tabs, d) := (w.mmu.tabs, w.spaces[p].dir);
            ReadUser(tabs, d, WriteUser(tabs, d, mem, va, v), x) ==
            if UserCanWrite(tabs, d, va) && UserWalk(tabs, d, x) == UserWalk(tabs, d, va) then Some(v)
            else ReadUser(tabs, d, mem, x)
  {
    hide UserWalk, UserCanWrite, Inv;
    if UserCanWrite(w.mmu.tabs, w.spaces[p].dir, va) { WritableIsWalked(w.mmu.tabs, w.spaces[p].dir, va); }
    if UserWalk(w.mmu.tabs, w.spaces[p].dir, va).Some? { WalkInMemory(w, p, va); }
  }

  lemma WritableIsWalked(tabs: Tables, d: Directory, va: U32)
    requires UserCanWrite(tabs, d, va)
    ensures UserWalk(tabs, d, va).Some?
  {
  }

  lemma WalkInMemory(w: World, p: nat, va: U32)
    requires Inv(w) && p < |w.spaces| && UserWalk(w.mmu.tabs, w.spaces[p].dir, va).Some?
    ensures UserWalk(w.mmu.tabs, w.spaces[p].dir, va).value < TWO32
  {
    hide UserWalk, KernelDirOk, SpaceOk, Used;
    WalkIsOwned(w, p, va);
  }

  /** A new process starts with its stack pointer at the top of memory it can write. */
  lemma FirstStackIsWritable(w: World, stackSize: U32, raw: Context, entry: U32, va: U32)
    requires Inv(w) && LegalStep(w, CreateOp(stackSize)) && Create(w, stackSize).1
    requires STACK_TOP - stackSize <= va < CreatedContext(raw, entry).useresp + 16
    ensures var w' := ApplyOp(w, CreateOp(stackSize));
            |w'.spaces| == |w.spaces| + 1 && UserCanWrite(w'.mmu.tabs, w'.spaces[|w.spaces|].dir, va)
  {
    hide Inv, Create, ApplyOp, LegalStep;
    LegalCreate(w, stackSize);
    var base := CreateMapsStack(w, stackSize);
    var w' := ApplyOp(w, CreateOp(stackSize));
    var low := STACK_TOP - stackSize - (STACK_TOP - stackSize) % PAGE;
    assert low <= va < KERNEL_BASE;
    var (tabs, d) := (w'.mmu.tabs, w'.spaces[|w.spaces|].dir);
    assert UserWalk(tabs, d, va) == Some(base * PAGE + (va - low));
  }

  /** A step under CR3 of process `p` runs its program on what `p` sees, and a byte that
      it stores is what `p` reads afterwards. */
  lemma UserStepActs(w: World, p: nat, user: UserProgram, cr3: U32, c: Context, mem: Physical, x: U32)
    requires Inv(w) && p < |w.spaces| && cr3 == w.spaces[p].frame * PAGE
    ensures var (tabs, d) := (w.mmu.tabs, w.spaces[p].dir);
            var (c', writes) := user(c, UserView(tabs, d, mem));
            var (r, mem') := Execute(w, user)(cr3, c, mem);
            && r == c'
            && (writes == [] ==> mem' == mem)
            && (|writes| == 1 ==>
                  ReadUser(tabs, d, mem', x) ==
                  if UserCanWrite(tabs, d, writes[0].0) && UserWalk(tabs, d, x) == UserWalk(tabs, d, writes[0].0) then Some(writes[0].1)
                  else ReadUser(tabs, d, mem, x))
  {
    hide Inv, UserView, ReadUser, WriteUser, UserWalk, UserCanWrite;
    OwnSpaceAt(w, p, cr3);
    var (tabs, d) := (w.mmu.tabs, w.spaces[p].dir);
    var writes := user(c, UserView(tabs, d, mem)).1;
    if |writes| == 1 {
      assert WriteAll(tabs, d, mem, writes) == WriteUser(tabs, d, mem, writes[0].0, writes[0].1);
      ReadAfterWrite(w, p, mem, writes[0].0, writes[0].1, x);
    }
  }

  lemma OwnSpaceAt(w: World, p: nat, cr3: U32)
    requires Inv(w) && p < |w.spaces| && cr3 == w.spaces[p].frame * PAGE
    ensures SpaceAt(w.spaces, cr3) == Some(p)
  {
    hide Used, KernelDirOk, Coherent, UserHalfOwned, SpaceAt;
    assert SpaceOk(w.mmu, w.kernel, w.spaces[p], w.roles, p);
    var r := SpaceAt(w.spaces, cr3);
    if r.Some? { assert SpaceOk(w.mmu, w.kernel, w.spaces[r.value], w.roles, r.value); }
  }
}
