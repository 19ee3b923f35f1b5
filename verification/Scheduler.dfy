/** The round-robin scheduler (kernel/kernel/proc/scheduler.c), the context copies
    of kernel/kernel/proc/proc.c and the timer interrupt that drives them, as
    functions of the scheduler's whole state. */
module Scheduler {
  import opened Machine
  import opened Paging

  const MAXPROC: nat := 64

  /** Saved registers of a process. */
  datatype Context = Context(
    edi: U32, esi: U32, ebp: U32, esp: U32, ebx: U32, edx: U32, ecx: U32, eax: U32,
    eip: U32, cs: U32, eflags: U32, useresp: U32, ss: U32)

  /** The interrupt frame; `intNo` and `errCode` belong to the interrupt. */
  datatype Regs = Regs(
    edi: U32, esi: U32, ebp: U32, esp: U32, ebx: U32, edx: U32, ecx: U32, eax: U32,
    intNo: U32, errCode: U32,
    eip: U32, cs: U32, eflags: U32, useresp: U32, ss: U32)

  function FromRegs(r: Regs): Context {
    Context(r.edi, r.esi, r.ebp, r.esp, r.ebx, r.edx, r.ecx, r.eax, r.eip, r.cs, r.eflags, r.useresp, r.ss)
  }

  function ToRegs(r: Regs, c: Context): Regs {
    r.(edi := c.edi, esi := c.esi, ebp := c.ebp, esp := c.esp, ebx := c.ebx, edx := c.edx, ecx := c.ecx, eax := c.eax,
       eip := c.eip, eflags := c.eflags, cs := c.cs, useresp := c.useresp, ss := c.ss)
  }

  /** Saving after loading gives the context back; loading what was saved changes
      nothing. */
  lemma ContextRoundTrip(r: Regs, c: Context)
    ensures FromRegs(ToRegs(r, c)) == c
    ensures ToRegs(r, FromRegs(r)) == r
  {
  }

  datatype ProcState = UNUSED | SETUP | RUNNING | BLOCKED | DESTROY

  datatype Pcb = Pcb(pid: U32, context: Context, state: ProcState, pageDirectory: U32, kstackTop: U32, cr3: U32)

  type Slots = s: seq<Option<Pcb>> | |s| == 64 witness seq(64, _ => None)

  datatype Cpu = Cpu(slots: Slots, current: nat, frame: Regs, cr3: U32, esp0: U32)

  predicate Ring3(cs: U32) { cs % 4 == 3 }

  predicate Ready(slots: Slots, i: nat)
    requires i < MAXPROC
  {
    slots[i].Some? && slots[i].value.state == RUNNING && Ring3(slots[i].value.context.cs)
  }

  /** First slot from `start` on that is ready and is not `cur`, or MAXPROC. */
  function NextFrom(slots: Slots, cur: int, start: nat): (r: nat)
    requires start <= MAXPROC
    ensures start <= r <= MAXPROC
    ensures r < MAXPROC ==> r != cur && Ready(slots, r)
    ensures forall i :: start <= i < r ==> i == cur || !Ready(slots, i)
    decreases MAXPROC - start
  {
    if start == MAXPROC || (start != cur && Ready(slots, start)) then start else NextFrom(slots, cur, start + 1)
  }

  /** `pick_next_proc`: forward from the current slot, then once round. */
  function PickNext(slots: Slots, cur: nat): (r: Option<nat>)
    requires cur < MAXPROC
    ensures r.Some? ==> r.value < MAXPROC && r.value != cur && Ready(slots, r.value)
  {
    var n := NextFrom(slots, cur, cur + 1);
    if n < MAXPROC then Some(n) else
    var m := NextFrom(slots, cur, 0);
    if m < MAXPROC then Some(m) else None
  }

  ghost predicate Sane(s: Cpu) { s.current < MAXPROC && s.slots[s.current].Some? }

  function SaveCurrent(s: Cpu): Cpu
    requires s.current < MAXPROC && s.slots[s.current].Some?
  {
    s.(slots := s.slots[s.current := Some(s.slots[s.current].value.(context := FromRegs(s.frame)))])
  }

  /** `scheduler_switch_process`. */
  function SwitchTo(s: Cpu, next: nat): Cpu
    requires s.current < MAXPROC && s.slots[s.current].Some? && next < MAXPROC && s.slots[next].Some?
  {
    if next == s.current then s else
    var s1 := SaveCurrent(s);
    var p := s1.slots[next].value;
    s1.(current := next, frame := ToRegs(s.frame, p.context), cr3 := KV2P(p.pageDirectory), esp0 := p.kstackTop)
  }

  /** `scheduler_switch_next`. */
  function SwitchNext(s: Cpu): Cpu
    requires s.current < MAXPROC && s.slots[s.current].Some?
  {
    if !Ring3(s.frame.cs) then s else
    var s1 := SaveCurrent(s);
    match PickNext(s1.slots, s1.current)
    case None => s1
    case Some(n) => SwitchTo(s1, n)
  }

  /** Register by register: a switch loads the frame from the context of the process
      entered, saves the frame into that of the process left, and changes nothing
      else of any process or of the interrupt. */
  lemma SwitchMovesRegisters(s: Cpu, next: nat)
    requires Sane(s) && next < MAXPROC && next != s.current && s.slots[next].Some?
    ensures var (r, c) := (SwitchTo(s, next).frame, s.slots[next].value.context);
            && r.edi == c.edi && r.esi == c.esi && r.ebp == c.ebp && r.esp == c.esp && r.ebx == c.ebx && r.edx == c.edx && r.ecx == c.ecx && r.eax == c.eax
            && r.eip == c.eip && r.cs == c.cs && r.eflags == c.eflags && r.useresp == c.useresp && r.ss == c.ss
            && r.intNo == s.frame.intNo && r.errCode == s.frame.errCode
    ensures SwitchTo(s, next).slots[s.current].Some?
    ensures var (r, c) := (s.frame, SwitchTo(s, next).slots[s.current].value.context);
            && c.edi == r.edi && c.esi == r.esi && c.ebp == r.ebp && c.esp == r.esp && c.ebx == r.ebx && c.edx == r.edx && c.ecx == r.ecx && c.eax == r.eax
            && c.eip == r.eip && c.cs == r.cs && c.eflags == r.eflags && c.useresp == r.useresp && c.ss == r.ss
    ensures SwitchTo(s, next).slots[s.current].value.(context := s.slots[s.current].value.context) == s.slots[s.current].value
    ensures forall i :: 0 <= i < MAXPROC && i != s.current ==> SwitchTo(s, next).slots[i] == s.slots[i]
  {
  }

  /** Only user mode is preempted, only in favour of a process that is ready, and with
      none such the interrupted process simply goes on. */
  lemma PreemptsOnlyUser(s: Cpu)
    requires Sane(s)
    ensures s.frame.cs % 4 != 3 ==> SwitchNext(s) == s
    ensures var n := SwitchNext(s).current;
            n != s.current ==>
              && n < MAXPROC && s.slots[n].Some? && s.slots[n].value.state == RUNNING
              && s.slots[n].value.context.cs % 4 == 3
    ensures (forall i :: 0 <= i < MAXPROC && i != s.current ==> !Ready(s.slots, i)) ==>
              SwitchNext(s).(slots := s.slots) == s
  {
    var s1 := SaveCurrent(s);
    match PickNext(s1.slots, s.current)
    case None =>
    case Some(n) => assert s1.slots[n] == s.slots[n] && Ready(s.slots, n);
  }

  // ----- a new process

  /** The context `create_proc` sets up over whatever `raw` the record held. */
  function CreatedContext(raw: Context, entry: U32): Context {
    raw.(eip := entry, esp := STACK_TOP - 16, ebp := STACK_TOP - 16, useresp := STACK_TOP - 16,
         cs := 0x1B, ss := 0x23, eflags := 0x202)
  }

  /** The record `create_proc` lists, for the directory at physical address `directory`
      and a kernel stack at `kstack`. */
  function CreatedPcb(raw: Context, pid: U32, directory: U32, kstack: U32, entry: U32): Pcb {
    Pcb(pid, CreatedContext(raw, entry), RUNNING, KP2V(directory), Add32(kstack, 8192), KV2P(KP2V(directory)))
  }

  /** A new process can be scheduled at once, and its cached CR3 is its directory. */
  lemma CreatedIsReady(slots: Slots, i: nat, raw: Context, pid: U32, directory: U32, kstack: U32, entry: U32)
    requires i < MAXPROC && slots[i] == Some(CreatedPcb(raw, pid, directory, kstack, entry))
    ensures Ready(slots, i)
    ensures slots[i].value.cr3 == directory == KV2P(slots[i].value.pageDirectory)
  {
  }

  /** The first switch to a new process starts it at its entry point, in ring 3, on its
      own user stack, with interrupts on, in its own address space, and points the
      processor at its kernel stack. */
  lemma FirstSwitch(s: Cpu, next: nat, raw: Context, pid: U32, directory: U32, kstack: U32, entry: U32)
    requires Sane(s) && next < MAXPROC && next != s.current
    requires s.slots[next] == Some(CreatedPcb(raw, pid, directory, kstack, entry))
    ensures var s' := SwitchTo(s, next);
            && s'.frame.eip == entry && s'.frame.cs == 0x1B && s'.frame.ss == 0x23
            && s'.frame.useresp == s'.frame.ebp == 0xBFFF_FFE0 && s'.frame.eflags == 0x202
            && s'.cr3 == directory && s'.esp0 == Add32(kstack, 8192)
  {
  }

  // ----- the virtual CPU of a process

  /** The registers process `i` would find on its next instruction. */
  function Virtual(s: Cpu, i: nat): Context
    requires i < MAXPROC && s.slots[i].Some?
  {
    if i == s.current then FromRegs(s.frame) else s.slots[i].value.context
  }

  lemma SwitchNextKeepsVirtual(s: Cpu, i: nat)
    requires Sane(s) && i < MAXPROC && s.slots[i].Some?
    ensures Sane(SwitchNext(s)) && SwitchNext(s).slots[i].Some?
    ensures Virtual(SwitchNext(s), i) == Virtual(s, i)
  {
  }

  /** Events: a user-mode step, a system call writing the frame's eax, and a call
      of the scheduler. */
  datatype Event = User | Syscall(result: U32) | Reschedule

  /** `Program` runs one user-mode step of a process, given the CR3 in force, on the
      registers and the memory that all processes share. */
  type Program<!M> = (U32, Context, M) -> (Context, M)

  datatype Computer<M> = Computer(cpu: Cpu, memory: M)

  function Step<M>(m: Computer<M>, programs: seq<Program<M>>, e: Event): Computer<M>
    requires m.cpu.current < MAXPROC && m.cpu.slots[m.cpu.current].Some? && |programs| == MAXPROC
  {
    var s := m.cpu;
    match e
    case User =>
      var (c, mem) := programs[s.current](s.cr3, FromRegs(s.frame), m.memory);
      Computer(s.(frame := ToRegs(s.frame, c)), mem)
    case Syscall(v) => m.(cpu := s.(frame := s.frame.(eax := v)))
    case Reschedule => m.(cpu := SwitchNext(s))
  }

  /** What a process does on one of its own events, with no scheduler about. */
  function Alone<M>(cr3: U32, c: Context, mem: M, program: Program<M>, e: Event): (Context, M) {
    match e
    case User => program(cr3, c, mem)
    case Syscall(v) => (c.(eax := v), mem)
    case Reschedule => (c, mem)
  }

  /** The current process makes its own step; the registers of every other stay. */
  lemma StepIsAlone<M>(m: Computer<M>, programs: seq<Program<M>>, e: Event, i: nat)
    requires Sane(m.cpu) && |programs| == MAXPROC && i < MAXPROC && m.cpu.slots[i].Some?
    ensures var m' := Step(m, programs, e);
            && Sane(m'.cpu) && m'.cpu.slots[i].Some? && m'.cpu.slots[i].value.cr3 == m.cpu.slots[i].value.cr3
            && (if i == m.cpu.current then
                  (Virtual(m'.cpu, i), m'.memory) == Alone(m.cpu.cr3, Virtual(m.cpu, i), m.memory, programs[i], e)
                else Virtual(m'.cpu, i) == Virtual(m.cpu, i))
            && (e != User ==> m'.memory == m.memory)
  {
  }

  function Run<M>(m: Computer<M>, programs: seq<Program<M>>, events: seq<Event>): (r: Computer<M>)
    requires Sane(m.cpu) && |programs| == MAXPROC
    ensures Sane(r.cpu)
    decreases |events|
  {
    if events == [] then m else
    StepIsAlone(m, programs, events[0], m.cpu.current);
    Run(Step(m, programs, events[0]), programs, events[1..])
  }

  /** The events of a run that process `i` itself executes. */
  function OwnEvents<M>(m: Computer<M>, programs: seq<Program<M>>, events: seq<Event>, i: nat): seq<Event>
    requires Sane(m.cpu) && |programs| == MAXPROC
    decreases |events|
  {
    if events == [] then [] else
    StepIsAlone(m, programs, events[0], m.cpu.current);
    (if i == m.cpu.current && events[0] != Reschedule then [events[0]] else []) +
    OwnEvents(Step(m, programs, events[0]), programs, events[1..], i)
  }

  /** A process on a machine of its own. */
  function Solo<M>(cr3: U32, c: Context, mem: M, program: Program<M>, events: seq<Event>): (Context, M)
    decreases |events|
  {
    if events == [] then (c, mem) else
    var (c', mem') := Alone(cr3, c, mem, program, events[0]);
    Solo(cr3, c', mem', program, events[1..])
  }

  // ----- the processor follows the current process

  /** Slot 0 is the kernel, whose context is not a user one and which does not run
      here; every other process caches the CR3 of its directory; CR3 and ESP0 are
      those of the current process. */
  ghost predicate CpuFollows(s: Cpu) {
    && Sane(s) && s.current != 0
    && (s.slots[0].Some? ==> !Ring3(s.slots[0].value.context.cs))
    && (forall i :: 1 <= i < MAXPROC && s.slots[i].Some? ==>
          s.slots[i].value.cr3 == KV2P(s.slots[i].value.pageDirectory))
    && s.cr3 == s.slots[s.current].value.cr3
    && s.esp0 == s.slots[s.current].value.kstackTop
  }

  function WithInterrupts(eflags: U32): U32 { if eflags / 0x200 % 2 == 1 then eflags else Add32(eflags, 0x200) }

  /** `proc_enter`: the iret frame comes from the context, with the interrupt flag
      set on the kernel's own eflags; the general registers `gp` are whatever they
      happen to be. */
  function Enter(s: Cpu, p: nat, eflags: U32, gp: Regs): Cpu
    requires p < MAXPROC && s.slots[p].Some?
  {
    var pcb := s.slots[p].value;
    var c := pcb.context.(eflags := WithInterrupts(eflags));
    Cpu(s.slots[p := Some(pcb.(context := c))], p,
        gp.(eip := c.eip, cs := c.cs, eflags := c.eflags, useresp := c.useresp, ss := c.ss),
        KV2P(pcb.pageDirectory), pcb.kstackTop)
  }

  lemma EnterFollows(s: Cpu, p: nat, eflags: U32, gp: Regs)
    requires 0 < p < MAXPROC && s.slots[p].Some?
    requires s.slots[0].Some? ==> !Ring3(s.slots[0].value.context.cs)
    requires forall i :: 1 <= i < MAXPROC && s.slots[i].Some? ==>
               s.slots[i].value.cr3 == KV2P(s.slots[i].value.pageDirectory)
    ensures CpuFollows(Enter(s, p, eflags, gp))
  {
  }

  /** Entry register by register: the iret frame is that of the context but for
      eflags, which are the kernel's with the interrupt flag, bit 9, set; the general
      registers are not loaded; of all records only the eflags of the process entered
      change. */
  lemma EnterLoads(s: Cpu, p: nat, eflags: U32, gp: Regs)
    requires p < MAXPROC && s.slots[p].Some?
    ensures var (s', c) := (Enter(s, p, eflags, gp), s.slots[p].value.context);
            var r := s'.frame;
            && s'.current == p
            && r.eip == c.eip && r.cs == c.cs && r.useresp == c.useresp && r.ss == c.ss
            && r.eflags / 0x200 % 2 == 1 && r.eflags % 0x200 == eflags % 0x200 && r.eflags / 0x400 == eflags / 0x400
            && r.(eip := gp.eip, cs := gp.cs, eflags := gp.eflags, useresp := gp.useresp, ss := gp.ss) == gp
            && s'.slots[p] == Some(s.slots[p].value.(context := c.(eflags := r.eflags)))
            && (forall i :: 0 <= i < MAXPROC && i != p ==> s'.slots[i] == s.slots[i])
  {
  }

  /** In particular a new process is entered at its entry point on its own stack. */
  lemma FirstEntry(s: Cpu, p: nat, eflags: U32, gp: Regs, raw: Context, pid: U32, directory: U32, kstack: U32, entry: U32)
    requires p < MAXPROC && s.slots[p] == Some(CreatedPcb(raw, pid, directory, kstack, entry))
    ensures var s' := Enter(s, p, eflags, gp);
            && s'.frame.eip == entry && s'.frame.cs == 0x1B && s'.frame.ss == 0x23
            && s'.frame.useresp == 0xBFFF_FFE0 && s'.frame.eflags / 0x200 % 2 == 1
            && s'.cr3 == directory && s'.esp0 == Add32(kstack, 8192)
  {
    hide WithInterrupts;
    EnterLoads(s, p, eflags, gp);
  }

  lemma SwitchNextFollows(s: Cpu)
    requires CpuFollows(s)
    ensures CpuFollows(SwitchNext(s))
  {
  }

  lemma StepFollows<M>(m: Computer<M>, programs: seq<Program<M>>, e: Event)
    requires CpuFollows(m.cpu) && |programs| == MAXPROC
    ensures CpuFollows(Step(m, programs, e).cpu)
  {
    hide SwitchNext;
    if e == Reschedule { SwitchNextFollows(m.cpu); }
  }

  lemma {:induction false} RunFollows<M>(m: Computer<M>, programs: seq<Program<M>>, events: seq<Event>)
    requires CpuFollows(m.cpu) && |programs| == MAXPROC
    ensures CpuFollows(Run(m, programs, events).cpu)
    decreases |events|
  {
    hide Step;
    if events != [] {
      StepIsAlone(m, programs, events[0], m.cpu.current);
      StepFollows(m, programs, events[0]);
      RunFollows(Step(m, programs, events[0]), programs, events[1..]);
    }
  }

  // ----- fairness

  ghost predicate VirtuallyReady(s: Cpu, i: nat)
    requires i < MAXPROC
  {
    s.slots[i].Some? && s.slots[i].value.state == RUNNING && Ring3(Virtual(s, i).cs)
  }

  /** `es` lists, in slot order, exactly the processes that can run. */
  ghost predicate Runnable(s: Cpu, es: seq<nat>) {
    && (forall x, y :: 0 <= x < y < |es| ==> es[x] < es[y])
    && (forall x :: 0 <= x < |es| ==> es[x] < MAXPROC)
    && (forall i :: 0 <= i < MAXPROC ==> (i in es <==> VirtuallyReady(s, i)))
  }

  lemma NextInList(slots: Slots, es: seq<nat>, k: nat)
    requires k < |es|
    requires forall x, y :: 0 <= x < y < |es| ==> es[x] < es[y]
    requires forall x :: 0 <= x < |es| ==> es[x] < MAXPROC
    requires forall i :: 0 <= i < MAXPROC ==> (i in es <==> Ready(slots, i))
    ensures if |es| == 1 then PickNext(slots, es[k]) == None
            else PickNext(slots, es[k]) == Some(es[NextIndex(k, |es|)])
  {
    hide Ready;
    var n := NextFrom(slots, es[k], es[k] + 1);
    if k + 1 < |es| {
      assert es[k + 1] in es;
    } else {
      assert es[0] in es;
    }
  }

  /** A call of the scheduler from user mode moves to the next runnable process in
      slot order, cyclically, and leaves all of them runnable. */
  lemma SwitchAdvances(s: Cpu, es: seq<nat>, k: nat)
    requires Sane(s) && Runnable(s, es) && k < |es| && s.current == es[k]
    ensures SwitchNext(s).current == es[NextIndex(k, |es|)] && Runnable(SwitchNext(s), es)
  {
    hide PickNext;
    assert es[k] in es;
    var s1 := SaveCurrent(s);
    forall i | 0 <= i < MAXPROC ensures i in es <==> Ready(s1.slots, i) {
      assert i in es <==> VirtuallyReady(s, i);
    }
    NextInList(s1.slots, es, k);
    if |es| > 1 { assert es[NextIndex(k, |es|)] in es; }
    forall i | 0 <= i < MAXPROC ensures i in es <==> VirtuallyReady(SwitchNext(s), i) {
      assert i in es <==> VirtuallyReady(s, i);
    }
  }

  /** User-mode code cannot change its privilege level. */
  ghost predicate StaysInRing3<M(!new)>(program: Program<M>) {
    forall cr3: U32, c: Context, mem: M :: Ring3(c.cs) ==> Ring3(program(cr3, c, mem).0.cs)
  }

  function Reschedules(events: seq<Event>): nat {
    if events == [] then 0 else (if events[0] == Reschedule then 1 else 0) + Reschedules(events[1..])
  }

  /** Round robin: after any run of user steps, system calls and scheduler calls,
      the current process is as many places further round the list as there were
      scheduler calls. */
  lemma {:induction false} RoundRobin<M(!new)>(m: Computer<M>, programs: seq<Program<M>>, events: seq<Event>, es: seq<nat>, k: nat)
    requires Sane(m.cpu) && |programs| == MAXPROC
    requires forall i :: 0 <= i < MAXPROC ==> StaysInRing3(programs[i])
    requires Runnable(m.cpu, es) && k < |es| && m.cpu.current == es[k]
    ensures var s := Run(m, programs, events).cpu;
            s.current == es[Around(k, Reschedules(events), |es|)] && Runnable(s, es)
    decreases |events|
  {
    hide SwitchNext, Runnable, Step, NextIndex;
    if events != [] {
      StepIsAlone(m, programs, events[0], m.cpu.current);
      var m' := Step(m, programs, events[0]);
      if events[0] == Reschedule {
        SwitchAdvances(m.cpu, es, k);
        SwitchStep(m, programs);
        RoundRobin(m', programs, events[1..], es, NextIndex(k, |es|));
      } else {
        QuietStep(m, programs, events[0], es, k);
        RoundRobin(m', programs, events[1..], es, k);
      }
    }
  }

  lemma SwitchStep<M>(m: Computer<M>, programs: seq<Program<M>>)
    requires Sane(m.cpu) && |programs| == MAXPROC
    ensures Step(m, programs, Reschedule).cpu == SwitchNext(m.cpu)
  {
  }

  lemma QuietStep<M(!new)>(m: Computer<M>, programs: seq<Program<M>>, e: Event, es: seq<nat>, k: nat)
    requires Sane(m.cpu) && |programs| == MAXPROC && e != Reschedule
    requires StaysInRing3(programs[m.cpu.current])
    requires Runnable(m.cpu, es) && k < |es| && m.cpu.current == es[k]
    ensures Runnable(Step(m, programs, e).cpu, es)
    ensures Step(m, programs, e).cpu.current == es[k]
  {
  }

  /** Position `c` places further round a list of `n`. */
  function Around(k: nat, c: nat, n: nat): (r: nat)
    requires k < n
    ensures r < n
    decreases c
  {
    if c == 0 then k else Around(NextIndex(k, n), c - 1, n)
  }

  function NextIndex(k: nat, n: nat): (r: nat)
    requires k < n
    ensures r < n
  {
    if k + 1 == n then 0 else k + 1
  }

  lemma {:induction false} AroundOnce(k: nat, c: nat, n: nat)
    requires k < n && c <= n
    ensures Around(k, c, n) == if k + c < n then k + c else k + c - n
    decreases c
  {
    if c > 0 {
      AroundOnce(NextIndex(k, n), c - 1, n);
    }
  }

  /** Every place of a ring is reached exactly once in as many steps as it has. */
  lemma AroundReaches(n: nat, k: nat, j: nat) returns (d: nat)
    requires k < n && j < n
    ensures 1 <= d <= n && Around(k, d, n) == j
    ensures forall e :: 1 <= e <= n && Around(k, e, n) == j ==> e == d
    ensures Around(k, n, n) == k
  {
    hide Around;
    d := if j > k then j - k else j + n - k;
    forall e | 1 <= e <= n ensures Around(k, e, n) == if k + e < n then k + e else k + e - n {
      AroundOnce(k, e, n);
    }
  }

  /** The processes that the scheduler calls of a run make current, in order. */
  function Entered<M>(m: Computer<M>, programs: seq<Program<M>>, events: seq<Event>): (t: seq<nat>)
    requires Sane(m.cpu) && |programs| == MAXPROC
    ensures |t| == Reschedules(events)
    decreases |events|
  {
    if events == [] then [] else
    StepIsAlone(m, programs, events[0], m.cpu.current);
    var m' := Step(m, programs, events[0]);
    (if events[0] == Reschedule then [m'.cpu.current] else []) + Entered(m', programs, events[1..])
  }

  /** Call number `d` enters the process `d + 1` places further round, whatever user
      steps and system calls lie between. */
  lemma {:induction false} EnteredAround<M(!new)>(m: Computer<M>, programs: seq<Program<M>>, events: seq<Event>, es: seq<nat>, k: nat, d: nat)
    requires Sane(m.cpu) && |programs| == MAXPROC
    requires forall i :: 0 <= i < MAXPROC ==> StaysInRing3(programs[i])
    requires Runnable(m.cpu, es) && k < |es| && m.cpu.current == es[k] && d < Reschedules(events)
    ensures Entered(m, programs, events)[d] == es[Around(k, d + 1, |es|)]
    decreases |events|
  {
    hide SwitchNext, Runnable, Step, NextIndex;
    StepIsAlone(m, programs, events[0], m.cpu.current);
    var m' := Step(m, programs, events[0]);
    if events[0] == Reschedule {
      SwitchAdvances(m.cpu, es, k);
      SwitchStep(m, programs);
      if d == 0 {
        assert Around(NextIndex(k, |es|), 0, |es|) == NextIndex(k, |es|);
      } else {
        EnteredAround(m', programs, events[1..], es, NextIndex(k, |es|), d - 1);
      }
    } else {
      QuietStep(m, programs, events[0], es, k);
      EnteredAround(m', programs, events[1..], es, k, d);
    }
  }

  /** `t` lists every element of `es` exactly once, and nothing else. */
  ghost predicate EachOnce(t: seq<nat>, es: seq<nat>) {
    && (forall x :: x in es ==> x in t)
    && (forall d :: 0 <= d < |t| ==> t[d] in es)
    && (forall d, e :: 0 <= d < e < |t| ==> t[d] != t[e])
  }

  lemma RotationIsFair(t: seq<nat>, es: seq<nat>, k: nat)
    requires |t| == |es| && k < |es|
    requires forall x, y :: 0 <= x < y < |es| ==> es[x] < es[y]
    requires forall d :: 0 <= d < |es| ==> t[d] == es[Around(k, d + 1, |es|)]
    ensures EachOnce(t, es) && t[|es| - 1] == es[k] && Around(k, |es|, |es|) == k
  {
    hide Around;
    var n := |es|;
    forall x | x in es ensures x in t {
      var j :| 0 <= j < n && es[j] == x;
      var d := AroundReaches(n, k, j);
      assert t[d - 1] == x;
    }
    forall d, e | 0 <= d < e < n ensures t[d] != t[e] {
      var x := AroundReaches(n, k, Around(k, d + 1, n));
    }
    var _ := AroundReaches(n, k, k);
  }

  /** Fairness: over any stretch of a run with as many scheduler calls as there are
      runnable processes, each of them is made current by exactly one of the calls,
      no other process by any, and the stretch ends with the process it began with. */
  lemma EveryoneOncePerRound<M(!new)>(m: Computer<M>, programs: seq<Program<M>>, events: seq<Event>, es: seq<nat>, k: nat)
    requires Sane(m.cpu) && |programs| == MAXPROC
    requires forall i :: 0 <= i < MAXPROC ==> StaysInRing3(programs[i])
    requires Runnable(m.cpu, es) && k < |es| && m.cpu.current == es[k] && Reschedules(events) == |es|
    ensures EachOnce(Entered(m, programs, events), es) && Entered(m, programs, events)[|es| - 1] == es[k]
    ensures Run(m, programs, events).cpu.current == es[k]
  {
    hide Around, Run, Entered, EachOnce, VirtuallyReady;
    var n, t := |es|, Entered(m, programs, events);
    forall d | 0 <= d < n ensures t[d] == es[Around(k, d + 1, n)] { EnteredAround(m, programs, events, es, k, d); }
    RotationIsFair(t, es, k);
    RoundRobin(m, programs, events, es, k);
  }
}
