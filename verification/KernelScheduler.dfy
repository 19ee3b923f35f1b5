/** The scheduler over process records that are shared and updated in place. */
module KernelScheduler {
  import opened Machine
  import opened Paging
  import opened Scheduler
  import opened Timer

  class Proc {
    var pid: U32
    var context: Context
    var state: ProcState
    var pageDirectory: U32
    var kstackTop: U32
    var cr3: U32

    constructor (pcb: Pcb)
      ensures View() == pcb
    {
      pid, context, state := pcb.pid, pcb.context, pcb.state;
      pageDirectory, kstackTop, cr3 := pcb.pageDirectory, pcb.kstackTop, pcb.cr3;
    }

    ghost function View(): Pcb
      reads this
    {
      Pcb(pid, context, state, pageDirectory, kstackTop, cr3)
    }
  }

  /** The interrupt frame a handler is given. */
  class Frame {
    var regs: Regs

    constructor (r: Regs)
      ensures regs == r
    {
      regs := r;
    }
  }

  ghost function Present(list: seq<Proc?>): set<Proc> { set p: Proc | p in list }

  ghost function SlotViews(list: seq<Proc?>): (s: seq<Option<Pcb>>)
    reads Present(list)
    ensures |s| == |list|
    ensures forall i :: 0 <= i < |list| ==> s[i] == if list[i] == null then None else Some(list[i].View())
  {
    if list == [] then [] else
    var init, last := list[..|list| - 1], list[|list| - 1];
    assert Present(init) <= Present(list);
    SlotViews(init) + [if last == null then None else Some(last.View())]
  }

  /** First position of `p`, or the length. */
  ghost function Position(list: seq<Proc?>, p: Proc?): (k: nat)
    ensures k <= |list|
    ensures k < |list| <==> p in list
    ensures k < |list| ==> list[k] == p
    ensures forall i :: 0 <= i < k ==> list[i] != p
  {
    if list == [] || list[0] == p then 0 else 1 + Position(list[1..], p)
  }

  lemma PositionOf(list: seq<Proc?>, k: nat)
    requires k < |list| && list[k] != null
    requires forall i, j :: 0 <= i < j < |list| && list[i] != null ==> list[i] != list[j]
    ensures Position(list, list[k]) == k
  {
  }

  class RoundRobinScheduler {
    const procList: array<Proc?>
    var current: Proc?
    var cr3: U32
    var esp0: U32
    var tick: nat
    const frequency: U32

    constructor (list: array<Proc?>, frequency: U32)
      requires list.Length == MAXPROC
      ensures procList == list && current == null && tick == 0 && this.frequency == frequency
    {
      procList := list;
      current := null;
      cr3, esp0, tick := 0, 0, 0;
      this.frequency := frequency;
    }

    /** Process records are listed once each, and the current one is listed. */
    ghost predicate Valid()
      reads this, procList
    {
      && procList.Length == MAXPROC
      && (forall i, j :: 0 <= i < j < MAXPROC && procList[i] != null ==> procList[i] != procList[j])
      && current != null && current in procList[..]
    }

    ghost function State(frame: Frame): Cpu
      requires Valid()
      reads this, procList, Present(procList[..]), frame
    {
      Cpu(SlotViews(procList[..]), Position(procList[..], current), frame.regs, cr3, esp0)
    }

    /** `pick_next_proc`; a process that is not listed is searched for from the
        beginning. */
    method PickNext(cur: Proc?, ghost slots: Slots) returns (next: Proc?)
      requires procList.Length == MAXPROC && cur != null && slots == SlotViews(procList[..])
      requires forall i, j :: 0 <= i < j < MAXPROC && procList[i] != null ==> procList[i] != procList[j]
      ensures var k := Position(procList[..], cur);
              next == if k == MAXPROC then (var n := NextFrom(slots, -1, 0); if n < MAXPROC then procList[n] else null)
                      else match Scheduler.PickNext(slots, k) case Some(n) => procList[n] case None => null
    {
      hide NextFrom;
      var curIdx := IndexInList(cur);
      var start := if curIdx >= 0 then curIdx + 1 else 0;
      next := ScanFrom(cur, start, curIdx, slots);
      if next != null {
        return;
      }
      next := ScanFrom(cur, 0, curIdx, slots);
    }

    /** Slot of `cur`, or -1. */
    method IndexInList(cur: Proc?) returns (curIdx: int)
      requires procList.Length == MAXPROC && cur != null
      requires forall i, j :: 0 <= i < j < MAXPROC && procList[i] != null ==> procList[i] != procList[j]
      ensures var k := Position(procList[..], cur); curIdx == if k == MAXPROC then -1 else k
      ensures forall l :: 0 <= l < MAXPROC ==> (procList[l] == cur <==> l == curIdx)
    {
      curIdx := -1;
      for i := 0 to MAXPROC
        invariant curIdx == -1 && forall l :: 0 <= l < i ==> procList[l] != cur
      {
        if procList[i] == cur {
          curIdx := i;
          assert procList[..][i] == cur;
          break;
        }
      }
    }

    /** One pass of the scan, from slot `start`. */
    method ScanFrom(cur: Proc?, start: nat, ghost curIdx: int, ghost slots: Slots) returns (next: Proc?)
      requires procList.Length == MAXPROC && start <= MAXPROC && cur != null && slots == SlotViews(procList[..])
      requires forall l :: 0 <= l < MAXPROC ==> (procList[l] == cur <==> l == curIdx)
      ensures var n := NextFrom(slots, curIdx, start);
              next == (if n < MAXPROC then procList[n] else null) && (next == null <==> n == MAXPROC)
    {
      var i := start;
      while i < MAXPROC
        invariant start <= i <= MAXPROC
        invariant NextFrom(slots, curIdx, i) == NextFrom(slots, curIdx, start)
      {
        var p := procList[i];
        assert slots[i] == if p == null then None else Some(p.View());
        if p != null && p != cur && p.state == RUNNING && p.context.cs % 4 == 3 {
          return p;
        }
        i := i + 1;
      }
      return null;
    }

    method SaveContext(frame: Frame)
      requires Valid()
      modifies current`context
      ensures Valid() && State(frame) == SaveCurrent(old(State(frame)))
    {
      current.context := FromRegs(frame.regs);
      assert State(frame).slots == SaveCurrent(old(State(frame))).slots;
    }

    /** `scheduler_switch_process`. */
    method SwitchProcess(next: Proc?, frame: Frame)
      requires Valid() && (next != null ==> next in procList[..])
      modifies this`current, this`cr3, this`esp0, current`context, frame
      ensures Valid()
      ensures next == null ==> State(frame) == old(State(frame))
      ensures next != null ==> State(frame) == SwitchTo(old(State(frame)), old(Position(procList[..], next)))
    {
      if next == null || next == current {
        return;
      }
      current.context := FromRegs(frame.regs);
      esp0 := next.kstackTop;
      cr3 := KV2P(next.pageDirectory);
      current := next;
      frame.regs := ToRegs(frame.regs, next.context);
      assert State(frame).slots == SwitchTo(old(State(frame)), old(Position(procList[..], next))).slots;
    }

    /** `scheduler_switch_next`. */
    method SwitchNext(frame: Frame)
      requires Valid()
      modifies this`current, this`cr3, this`esp0, current`context, frame
      ensures Valid()
      ensures State(frame) == Scheduler.SwitchNext(old(State(frame)))
    {
      hide Scheduler.PickNext, SaveCurrent, SwitchTo;
      if frame.regs.cs % 4 != 3 {
        return;
      }
      SaveContext(frame);
      SwitchToPicked(frame);
    }

    /** Choose the next process and switch to it. */
    method SwitchToPicked(frame: Frame)
      requires Valid()
      modifies this`current, this`cr3, this`esp0, current`context, frame
      ensures Valid()
      ensures var s := old(State(frame));
              State(frame) == match Scheduler.PickNext(s.slots, s.current) case Some(n) => SwitchTo(s, n) case None => s
    {
      hide Scheduler.PickNext, SwitchTo;
      ghost var s := State(frame);
      var next := PickNext(current, s.slots);
      ghost var pick := Scheduler.PickNext(s.slots, s.current);
      if pick.Some? { PositionOf(procList[..], pick.value); }
      assert State(frame) == s;
      SwitchProcess(next, frame);
    }

    /** `pit_handler`. */
    method Tick(frame: Frame)
      requires Valid() && tick < TWO64
      modifies this`tick, this`current, this`cr3, this`esp0, current`context, frame
      ensures Valid() && tick == (old(tick) + 1) % TWO64
      ensures State(frame) == Handle(old(State(frame)), frequency, old(tick) + 1)
    {
      hide Scheduler.SwitchNext;
      tick := (tick + 1) % TWO64;
      assert State(frame) == old(State(frame));
      var slice := frequency * SCHED_SLICE_SECONDS;
      if slice != 0 && frame.regs.cs % 4 == 3 && tick % slice == 0 {
        SwitchNext(frame);
      }
    }
  }
}
