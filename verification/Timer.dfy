/** The timer interrupt (kernel/kernel/drivers/pit.c): when it calls the scheduler. */
module Timer {
  import opened Machine
  import opened Paging
  import opened Scheduler

  const TWO64: nat := 0x1_0000_0000_0000_0000
  const SCHED_SLICE_SECONDS: nat := 2

  function Slice(frequency: U32): nat { frequency * SCHED_SLICE_SECONDS }

  /** The 64-bit tick counter after interrupt number `t` allows a switch. */
  predicate SliceEnds(frequency: U32, t: nat) {
    Slice(frequency) != 0 && t % TWO64 % Slice(frequency) == 0
  }

  /** `pit_handler` as interrupt number `t`: only a user-mode interrupt at the end
      of a slice reaches the scheduler. */
  function Handle(s: Cpu, frequency: U32, t: nat): Cpu
    requires s.current < MAXPROC && s.slots[s.current].Some?
  {
    if Slice(frequency) != 0 && Ring3(s.frame.cs) && t % TWO64 % Slice(frequency) == 0 then SwitchNext(s) else s
  }

  /** Interrupts t + 1, t + 2, ... with user-mode work in between. */
  function Ticks<M>(m: Computer<M>, programs: seq<Program<M>>, frequency: U32, t: nat, work: seq<seq<Event>>): (r: Computer<M>)
    requires Sane(m.cpu) && |programs| == MAXPROC
    ensures Sane(r.cpu)
    decreases |work|
  {
    if work == [] then m else
    var m1 := Run(m, programs, work[0]);
    HandleIsEvent(m1.cpu, frequency, t + 1);
    Ticks(m1.(cpu := Handle(m1.cpu, frequency, t + 1)), programs, frequency, t + 1, work[1..])
  }

  lemma HandleIsEvent(s: Cpu, frequency: U32, t: nat)
    requires Sane(s)
    ensures Sane(Handle(s, frequency, t))
    ensures Handle(s, frequency, t) == if SliceEnds(frequency, t) then SwitchNext(s) else s
  {
  }

  /** A slice is two seconds of ticks: slices end at the multiples of twice the
      frequency, as the 64-bit counter shows them. */
  lemma SliceEndsAre(frequency: U32, t: nat)
    ensures SliceEnds(frequency, t) <==>
            frequency > 0 && exists q: nat :: t % 0x1_0000_0000_0000_0000 == q * (2 * frequency)
  {
    if frequency > 0 {
      var x, s: nat := t % TWO64, 2 * frequency;
      if SliceEnds(frequency, t) {
        var q, _ := Quotient(x, s);
        assert x == q * s;
      } else if q: nat :| x == q * s {
        QuotientUnique(q, s, 0);
      }
    }
  }

  // ----- the spacing of switches

  /** A larger multiple is at least one step larger. */
  lemma {:induction false} MultipleStep(a: nat, b: nat, s: nat)
    requires a < b
    ensures a * s + s <= b * s
  {
    if a + 1 < b { MultipleStep(a, b - 1, s); }
    assert b * s == (b - 1) * s + s;
  }

  lemma Quotient(x: nat, s: nat) returns (q: nat, r: nat)
    requires s > 0
    ensures x == q * s + r && r < s && r == x % s
  {
    q, r := x / s, x % s;
  }

  lemma MultiplesApart(x: nat, y: nat, s: nat)
    requires s > 0 && x < y && x % s == 0 && y % s == 0
    ensures y - x >= s
  {
    var a, _ := Quotient(x, s);
    var b, _ := Quotient(y, s);
    if a < b { MultipleStep(a, b, s); } else if b < a { MultipleStep(b, a, s); }
  }

  lemma QuotientUnique(a: nat, s: nat, r: nat)
    requires s > 0 && r < s
    ensures (a * s + r) % s == r
  {
    var q, r' := Quotient(a * s + r, s);
    if a < q { MultipleStep(a, q, s); } else if q < a { MultipleStep(q, a, s); }
  }

  lemma ModOfMultiple(q: nat, s: nat, b: nat)
    requires s > 0
    ensures (q * s + b) % s == b % s
  {
    var n, r := Quotient(b, s);
    assert q * s + b == (q + n) * s + r;
    QuotientUnique(q + n, s, r);
  }

  /** Two slice ends without a wrap of the counter between them. */
  lemma SliceEndsApart(frequency: U32, t: nat, u: nat)
    requires SliceEnds(frequency, t) && SliceEnds(frequency, u) && t < u
    requires t / TWO64 == u / TWO64
    ensures u - t >= 2 * frequency
  {
    MultiplesApart(t % TWO64, u % TWO64, Slice(frequency));
  }

  /** Switches are always at least a slice apart exactly when the slice divides the
      range of the tick counter. */
  lemma SlicesAlwaysApartIff(frequency: U32)
    requires frequency > 0
    ensures (forall t: nat, u: nat :: t < u && SliceEnds(frequency, t) && SliceEnds(frequency, u) ==> u - t >= 2 * frequency)
            <==> TWO64 % (2 * frequency) == 0
  {
    hide SliceEnds;
    var s := Slice(frequency);
    if TWO64 % s == 0 {
      forall t: nat, u: nat | t < u && SliceEnds(frequency, t) && SliceEnds(frequency, u) ensures u - t >= s {
        EndIsMultiple(frequency, t);
        EndIsMultiple(frequency, u);
        MultiplesApart(t, u, s);
      }
    } else {
      var t := ShortSlice(frequency);
    }
  }

  /** When the counter wraps, a slice ends early. */
  lemma ShortSlice(frequency: U32) returns (t: nat)
    requires frequency > 0 && TWO64 % Slice(frequency) != 0
    ensures t < TWO64 < t + Slice(frequency) && SliceEnds(frequency, t) && SliceEnds(frequency, TWO64)
  {
    var s := Slice(frequency);
    var q, r := Quotient(TWO64, s);
    t := q * s;
    QuotientUnique(q, s, 0);
    assert t % TWO64 == t && TWO64 % TWO64 == 0;
  }

  lemma EndIsMultiple(frequency: U32, t: nat)
    requires SliceEnds(frequency, t) && TWO64 % Slice(frequency) == 0
    ensures t % Slice(frequency) == 0
  {
    var s := Slice(frequency);
    var q := t / TWO64 * (TWO64 / s);
    assert TWO64 == TWO64 / s * s;
    assert t == t / TWO64 * TWO64 + t % TWO64;
    assert t / TWO64 * TWO64 == q * s;
    ModOfMultiple(q, s, t % TWO64);
  }

  // ----- round robin by the clock

  /** How many of the interrupts t + 1 .. t + n end a slice. */
  function SliceCount(frequency: U32, t: nat, n: nat): nat
    decreases n
  {
    if n == 0 then 0 else (if SliceEnds(frequency, t + 1) then 1 else 0) + SliceCount(frequency, t + 1, n - 1)
  }

  /** With only the timer calling the scheduler, the current process has moved as
      many places round the runnable ones as slices have ended. */
  lemma {:induction false} ClockRoundRobin<M(!new)>(m: Computer<M>, programs: seq<Program<M>>, frequency: U32, t: nat,
                                                    work: seq<seq<Event>>, es: seq<nat>, k: nat)
    requires Sane(m.cpu) && |programs| == MAXPROC
    requires forall i :: 0 <= i < MAXPROC ==> StaysInRing3(programs[i])
    requires forall i :: 0 <= i < |work| ==> Reschedules(work[i]) == 0
    requires Runnable(m.cpu, es) && k < |es| && m.cpu.current == es[k]
    ensures var s := Ticks(m, programs, frequency, t, work).cpu;
            s.current == es[Around(k, SliceCount(frequency, t, |work|), |es|)] && Runnable(s, es)
    decreases |work|
  {
    hide Run, Handle, Runnable, SliceEnds, NextIndex;
    if work != [] {
      var m1 := Run(m, programs, work[0]);
      RoundRobin(m, programs, work[0], es, k);
      HandleIsEvent(m1.cpu, frequency, t + 1);
      var m2 := m1.(cpu := Handle(m1.cpu, frequency, t + 1));
      if SliceEnds(frequency, t + 1) {
        SwitchAdvances(m1.cpu, es, k);
        ClockRoundRobin(m2, programs, frequency, t + 1, work[1..], es, NextIndex(k, |es|));
      } else {
        ClockRoundRobin(m2, programs, frequency, t + 1, work[1..], es, k);
      }
    }
  }
}
