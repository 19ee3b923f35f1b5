/** The physical frame bitmap of kernel/kernel/mm/paging.c. */
module Frames {
  import opened Machine

  const PAGE: nat := 0x1000
  const FRAMES: nat := 0x10_0000
  const LOW_FRAMES: nat := 229_376   // 896 MiB, the identity-mapped part

  /** `framemap` has a byte per frame although a bit per frame is used. */
  type Bitmap = m: seq<bv8> | |m| == 0x10_0000 witness seq(0x10_0000, _ => 0)

  function Mask(k: nat): bv8
    requires k < 8
  {
    1 << k
  }

  predicate HasBit(b: bv8, k: nat)
    requires k < 8
  {
    b & Mask(k) != 0
  }

  function WithBit(b: bv8, k: nat): bv8
    requires k < 8
  {
    b | Mask(k)
  }

  function WithoutBit(b: bv8, k: nat): bv8
    requires k < 8
  {
    b & !Mask(k)
  }

  predicate Used(m: Bitmap, f: nat)
    requires f < FRAMES
  {
    HasBit(m[f / 8], f % 8)
  }

  function SetFrame(m: Bitmap, f: nat): Bitmap
    requires f < FRAMES
  {
    m[f / 8 := WithBit(m[f / 8], f % 8)]
  }

  function ClearFrame(m: Bitmap, f: nat): Bitmap
    requires f < FRAMES
  {
    m[f / 8 := WithoutBit(m[f / 8], f % 8)]
  }

  // ----- the bitmap is a set of frames

  lemma BitSet(b: bv8, j: nat, k: nat)
    requires j < 8 && k < 8
    ensures HasBit(WithBit(b, k), j) <==> j == k || HasBit(b, j)
    ensures HasBit(WithoutBit(b, k), j) <==> j != k && HasBit(b, j)
    ensures !HasBit(b, k) ==> WithoutBit(WithBit(b, k), k) == b
  {
    RawBits(b, j, k);
  }

  lemma RawBits(b: bv8, j: nat, k: nat)
    requires j < 8 && k < 8
    ensures (b | Mask(k)) & Mask(j) != 0 <==> j == k || b & Mask(j) != 0
    ensures (b & !Mask(k)) & Mask(j) != 0 <==> j != k && b & Mask(j) != 0
    ensures b & Mask(k) == 0 ==> (b | Mask(k)) & !Mask(k) == b
  {
  }

  lemma BitClears(b: bv8, j: nat, k: nat)
    requires j < 8 && k < 8
    ensures WithoutBit(WithoutBit(b, j), k) == WithoutBit(WithoutBit(b, k), j)
  {
  }

  lemma SetFrameUses(m: Bitmap, f: nat, g: nat)
    requires f < FRAMES && g < FRAMES
    ensures Used(SetFrame(m, f), g) <==> g == f || Used(m, g)
    ensures Used(ClearFrame(m, f), g) <==> g != f && Used(m, g)
  {
    hide HasBit, WithBit, WithoutBit;
    BitSet(m[f / 8], g % 8, f % 8);
  }

  function MarkRange(m: Bitmap, base: nat, n: nat): Bitmap
    requires base + n <= FRAMES
  {
    if n == 0 then m else SetFrame(MarkRange(m, base, n - 1), base + n - 1)
  }

  function ClearRange(m: Bitmap, base: nat, n: nat): Bitmap
    requires base + n <= FRAMES
  {
    if n == 0 then m else ClearFrame(ClearRange(m, base, n - 1), base + n - 1)
  }

  /** Exactly the frames of the range become used, respectively free. */
  lemma {:induction false} RangeUses(m: Bitmap, base: nat, n: nat, g: nat)
    requires base + n <= FRAMES && g < FRAMES
    ensures Used(MarkRange(m, base, n), g) <==> base <= g < base + n || Used(m, g)
    ensures Used(ClearRange(m, base, n), g) <==> !(base <= g < base + n) && Used(m, g)
  {
    hide Used, SetFrame, ClearFrame;
    if n > 0 {
      RangeUses(m, base, n - 1, g);
      SetFrameUses(MarkRange(m, base, n - 1), base + n - 1, g);
      SetFrameUses(ClearRange(m, base, n - 1), base + n - 1, g);
    }
  }

  /** The frames `free_pages` clears: the address wraps round at the top of memory. */
  function ClearWrapped(m: Bitmap, frame: nat, n: nat): Bitmap {
    if n == 0 then m else ClearFrame(ClearWrapped(m, frame, n - 1), (frame + n - 1) % FRAMES)
  }

  lemma {:induction false} ClearWrappedUses(m: Bitmap, frame: nat, n: nat, g: nat)
    requires g < FRAMES
    ensures Used(ClearWrapped(m, frame, n), g) <==>
            Used(m, g) && forall f :: frame <= f < frame + n ==> f % FRAMES != g
    ensures frame + n <= FRAMES ==> ClearWrapped(m, frame, n) == ClearRange(m, frame, n)
  {
    hide Used, ClearFrame;
    if n > 0 {
      ClearWrappedUses(m, frame, n - 1, g);
      SetFrameUses(ClearWrapped(m, frame, n - 1), (frame + n - 1) % FRAMES, g);
    }
  }

  predicate FreeRun(m: Bitmap, base: nat, n: nat)
    requires base + n <= FRAMES
  {
    forall f :: base <= f < base + n ==> !Used(m, f)
  }

  lemma ClearSetSame(m: Bitmap, f: nat)
    requires f < FRAMES && !Used(m, f)
    ensures ClearFrame(SetFrame(m, f), f) == m
  {
    hide HasBit, WithBit, WithoutBit;
    BitSet(m[f / 8], f % 8, f % 8);
  }

  lemma ClearsCommute(m: Bitmap, f: nat, g: nat)
    requires f < FRAMES && g < FRAMES
    ensures ClearFrame(ClearFrame(m, f), g) == ClearFrame(ClearFrame(m, g), f)
  {
    hide WithoutBit;
    BitClears(m[f / 8], f % 8, g % 8);
  }

  lemma {:induction false} ClearLast(m: Bitmap, base: nat, n: nat, f: nat)
    requires base + n <= FRAMES && f < FRAMES
    ensures ClearRange(ClearFrame(m, f), base, n) == ClearFrame(ClearRange(m, base, n), f)
  {
    hide ClearFrame;
    if n > 0 {
      ClearLast(m, base, n - 1, f);
      ClearsCommute(ClearRange(m, base, n - 1), f, base + n - 1);
    }
  }

  /** Freeing what was just taken restores the bitmap byte for byte. */
  lemma {:induction false} FreeRestoresBitmap(m: Bitmap, base: nat, n: nat)
    requires base + n <= FRAMES && FreeRun(m, base, n)
    ensures ClearRange(MarkRange(m, base, n), base, n) == m
  {
    hide Used, SetFrame, ClearFrame;
    if n > 0 {
      var last := base + n - 1;
      var m1 := MarkRange(m, base, n - 1);
      FreeRestoresBitmap(m, base, n - 1);
      RangeUses(m, base, n - 1, last);
      ClearLast(SetFrame(m1, last), base, n - 1, last);
      ClearSetSame(m1, last);
    }
  }

  // ----- allocation: the lowest free run

  /** Lowest base of a free run of `n` frames inside [b, hi), or `hi`. */
  function LowestRun(m: Bitmap, b: nat, hi: nat, n: nat): (r: nat)
    requires b <= hi <= FRAMES && n > 0
    ensures r == hi || (b <= r && r + n <= hi && FreeRun(m, r, n))
    ensures forall c :: b <= c && c + n <= hi && FreeRun(m, c, n) ==> r <= c
    decreases hi - b
  {
    if b + n > hi then hi
    else if FreeRun(m, b, n) then b
    else LowestRun(m, b + 1, hi, n)
  }

  /** A request above the boundary falls back to the lowest run anywhere, because
      the scan address wraps round to 0 instead of stopping. */
  function ChosenRun(m: Bitmap, high: bool, n: nat): nat
    requires n > 0
  {
    if !high then LowestRun(m, 0, LOW_FRAMES, n)
    else
      var r := LowestRun(m, LOW_FRAMES, FRAMES, n);
      if r < FRAMES then r else LowestRun(m, 0, FRAMES, n)
  }

  /** New bitmap and physical address, 0 for failure. */
  function AllocPages(m: Bitmap, high: bool, n: nat): (r: (Bitmap, U32)) {
    if n == 0 then (m, 0) else
    var b := ChosenRun(m, high, n);
    if b == (if high then FRAMES else LOW_FRAMES) then (m, 0)
    else (MarkRange(m, b, n), b * PAGE)
  }

  /** A HIGHMEM request ends if some free run exists; `ScanNeverEnds` is the
      converse. */
  ghost predicate Terminates(m: Bitmap, high: bool, n: nat) {
    high ==> exists c: nat :: c + n <= FRAMES && FreeRun(m, c, n)
  }

  /** The frame that a HIGHMEM scan looks at after `k` others. */
  function ScanFrame(k: nat): (f: nat)
    ensures f < FRAMES
  {
    (LOW_FRAMES + k) % FRAMES
  }

  /** The run counter of the HIGHMEM scan after `k` frames, wrapping at the top. */
  function Contig(m: Bitmap, k: nat): nat {
    if k == 0 || Used(m, ScanFrame(k - 1)) then 0 else Contig(m, k - 1) + 1
  }

  lemma {:induction false} ContigIsRun(m: Bitmap, k: nat)
    requires Used(m, 0) && k > 0
    ensures var p := ScanFrame(k - 1) + 1;
            Contig(m, k) <= p && FreeRun(m, p - Contig(m, k), Contig(m, k))
  {
    hide Used, Contig, ScanFrame, FreeRun;
    var f := ScanFrame(k - 1);
    ContigStep(m, k - 1, f);
    EmptyRun(m, f + 1);
    if !Used(m, f) {
      if k == 1 {
        NoFramesYet(m);
        EmptyRun(m, f);
        LongerRun(m, f, 0);
      } else {
        ContigIsRun(m, k - 1);
        ContigStep(m, k - 2, ScanFrame(k - 2));
        LongerRun(m, f - Contig(m, k - 1), Contig(m, k - 1));
      }
    }
  }

  /** How the counter goes on. */
  lemma ContigStep(m: Bitmap, k: nat, p: nat)
    requires p == ScanFrame(k)
    ensures Contig(m, k + 1) == if Used(m, p) then 0 else Contig(m, k) + 1
    ensures ScanFrame(k + 1) == if p + 1 == FRAMES then 0 else p + 1
  {
  }

  /** Without a free run of `n` frames the counter never reaches `n`, however long
      the scan goes on: `alloc_pages` does not return. */
  lemma ScanNeverEnds(m: Bitmap, n: nat, k: nat)
    requires Used(m, 0) && n > 0 && !RunIn(m, 0, FRAMES, n)
    ensures Contig(m, k) < n
  {
    hide Used, Contig;
    if k > 0 && n <= Contig(m, k) {
      ContigIsRun(m, k);
      var p := ScanFrame(k - 1) + 1;
      ShorterRun(m, p - Contig(m, k), Contig(m, k), n);
      assert false;
    }
    NoFramesYet(m);
  }

  lemma NoFramesYet(m: Bitmap)
    ensures Contig(m, 0) == 0 && ScanFrame(0) == LOW_FRAMES
  {
  }

  lemma ShorterRun(m: Bitmap, base: nat, n: nat, k: nat)
    requires base + n <= FRAMES && k <= n && FreeRun(m, base, n)
    ensures RunIn(m, 0, FRAMES, k)
  {
    assert FreeRun(m, base, k);
  }

  ghost predicate RunIn(m: Bitmap, lo: nat, hi: nat, n: nat)
    requires hi <= FRAMES
  {
    exists c: nat :: lo <= c && c + n <= hi && FreeRun(m, c, n)
  }

  lemma UsedBlocksRun(m: Bitmap, f: nat, base: nat, n: nat)
    requires base <= f < base + n && f < FRAMES && Used(m, f)
    ensures base + n <= FRAMES ==> !FreeRun(m, base, n)
  {
  }

  /** Below the boundary: the lowest free run, or 0 exactly when there is none. */
  lemma LowAllocIsLowestRun(m: Bitmap, n: nat)
    requires n > 0 && Used(m, 0)
    ensures var (m', a) := AllocPages(m, false, n);
            && (a == 0 <==> !RunIn(m, 0, LOW_FRAMES, n))
            && (a == 0 ==> m' == m)
            && (a != 0 ==>
                  && a % PAGE == 0 && a / PAGE + n <= LOW_FRAMES && FreeRun(m, a / PAGE, n)
                  && (forall c: nat :: c + n <= LOW_FRAMES && FreeRun(m, c, n) ==> a / PAGE <= c)
                  && m' == MarkRange(m, a / PAGE, n))
  {
    hide Used, MarkRange, FreeRun;
    UsedBlocksRun(m, 0, 0, n);
  }

  /** Above the boundary, given that the scan ends: the result is high exactly when
      a high run exists, and then it is the lowest such; otherwise the caller is
      handed the lowest run anywhere. */
  lemma HighAllocIsHighIff(m: Bitmap, n: nat)
    requires n > 0 && Used(m, 0) && Terminates(m, true, n)
    ensures var (m', a) := AllocPages(m, true, n);
            && a != 0 && a % PAGE == 0 && a / PAGE + n <= FRAMES && FreeRun(m, a / PAGE, n)
            && m' == MarkRange(m, a / PAGE, n)
            && (a >= LOW_FRAMES * PAGE <==> RunIn(m, LOW_FRAMES, FRAMES, n))
            && (a >= LOW_FRAMES * PAGE ==>
                  forall c: nat :: LOW_FRAMES <= c && c + n <= FRAMES && FreeRun(m, c, n) ==> a / PAGE <= c)
  {
    hide Used, MarkRange, FreeRun;
    UsedBlocksRun(m, 0, 0, n);
  }

  /** What an allocation hands out was free, is used now, and nothing else moved;
      giving it back restores every byte of the bitmap. */
  lemma AllocTakesFreeFrames(m: Bitmap, high: bool, n: nat)
    requires n > 0 && Used(m, 0) && Terminates(m, high, n)
    requires AllocPages(m, high, n).1 != 0
    ensures var (m', a) := AllocPages(m, high, n);
            && a / PAGE + n <= FRAMES
            && (forall g: nat :: g < FRAMES ==>
                  (Used(m', g) <==> a / PAGE <= g < a / PAGE + n || Used(m, g)))
            && FreeRun(m, a / PAGE, n)
            && ClearRange(m', a / PAGE, n) == m
  {
    hide Used, AllocPages, MarkRange, ClearRange;
    if high { HighAllocIsHighIff(m, n); } else { LowAllocIsLowestRun(m, n); }
    var (m', a) := AllocPages(m, high, n);
    FreeRestoresBitmap(m, a / PAGE, n);
    forall g: nat | g < FRAMES ensures Used(m', g) <==> a / PAGE <= g < a / PAGE + n || Used(m, g) {
      RangeUses(m, a / PAGE, n, g);
    }
  }

  // ----- nearly full memories

  /** The frames of the first `n` bytes of the bitmap are in use. */
  function UsedBelow(n: nat): Bitmap { seq(0x10_0000, i => if i < n then 0xFF else 0) }

  lemma UsedBelowUses(n: nat)
    ensures forall f :: 0 <= f < FRAMES ==> (Used(UsedBelow(n), f) <==> f < 8 * n)
  {
  }

  lemma NoRunUsed(m: Bitmap, lo: nat, hi: nat, n: nat)
    requires hi <= FRAMES && n > 0 && forall f :: lo <= f < hi ==> Used(m, f)
    ensures !RunIn(m, lo, hi, n)
  {
    hide Used;
    forall c: nat | lo <= c && c + n <= hi ensures !FreeRun(m, c, n) { assert Used(m, c); }
  }

  /** A HIGHMEM request handed low memory: only frame 1 is free. */
  lemma HighmemGetsLowFrame()
    ensures var m := ClearFrame(UsedBelow(FRAMES), 1); Terminates(m, true, 1) && AllocPages(m, true, 1).1 == PAGE
  {
    hide Used, ClearFrame, AllocPages;
    var m := ClearFrame(UsedBelow(FRAMES), 1);
    UsedBelowUses(FRAMES);
    forall f | 0 <= f < FRAMES ensures Used(m, f) <==> f != 1 { SetFrameUses(UsedBelow(FRAMES), 1, f); }
    assert FreeRun(m, 1, 1);
    NoRunUsed(m, LOW_FRAMES, FRAMES, 1);
    HighAllocIsHighIff(m, 1);
    var a := AllocPages(m, true, 1).1;
    assert !Used(m, a / PAGE);
  }

  // ----- reserve

  function RoundDown(x: U32): U32 { x - x % PAGE }

  function RoundUp(x: U32): U32 { if x % PAGE != 0 then Add32(RoundDown(x), PAGE) else x }

  /** How many frames the loop of `reserve` marks, from RoundDown(start) on. */
  function ReservedFrames(start: U32, length: U32): (n: nat)
    ensures RoundDown(start) / PAGE + n <= FRAMES
  {
    var s := RoundDown(start);
    var end := Sub32(Add32(s, RoundUp(length)), 1);
    if s < end then (end - s + PAGE - 1) / PAGE else 0
  }

  /** Rounding start and length separately reserves every frame that the region
      touches exactly when the region, measured from its first frame, is no
      longer than the rounded length. */
  lemma ReserveCoversIff(start: U32, length: U32, m: Bitmap)
    requires 0 < length && start + length <= TWO32
    requires !Used(m, (start + length - 1) / PAGE)
    ensures var m' := MarkRange(m, start / PAGE, ReservedFrames(start, length));
            (forall f: nat :: start / PAGE <= f <= (start + length - 1) / PAGE ==> f < FRAMES && Used(m', f))
            <==> start % PAGE + length <= RoundUp(length) || RoundUp(length) == 0
  {
    hide Used, MarkRange;
    var first, last, n := start / PAGE, (start + length - 1) / PAGE, ReservedFrames(start, length);
    assert n > last - first <==> start % PAGE + length <= RoundUp(length) || RoundUp(length) == 0;
    RangeUses(m, first, n, last);
    forall f: nat | first <= f <= last
      ensures f < FRAMES && (n > last - first ==> Used(MarkRange(m, first, n), f))
    {
      RangeUses(m, first, n, f);
    }
  }

  /** Exactly what a region reserves, as long as its rounded length does not wrap: as
      many frames as its length fills, counted from the frame of its first byte. */
  lemma ReserveMarks(start: U32, length: U32, m: Bitmap, f: nat)
    requires 0 < length <= 0xFFFF_F000 && start + length <= TWO32 && f < FRAMES
    ensures Used(MarkRange(m, start / PAGE, ReservedFrames(start, length)), f) <==>
            Used(m, f) || start / PAGE <= f < start / PAGE + (length + PAGE - 1) / PAGE
  {
    hide Used, MarkRange;
    var n := (length + PAGE - 1) / PAGE;
    assert RoundUp(length) == n * PAGE;
    assert ReservedFrames(start, length) == n;
    RangeUses(m, start / PAGE, n, f);
  }

  /** A rounded length that wraps reserves the whole of memory. */
  lemma ReserveWraps(start: U32, length: U32, m: Bitmap, f: nat)
    requires 0xFFFF_F000 < length && start + length <= TWO32 && f < FRAMES
    ensures Used(MarkRange(m, start / PAGE, ReservedFrames(start, length)), f)
  {
    hide Used, MarkRange;
    assert RoundUp(length) == 0 && RoundDown(start) == 0;
    RangeUses(m, 0, FRAMES, f);
  }

  /** Two bytes across a page boundary: the second frame stays free. */
  lemma ReserveMissesFrame(m: Bitmap)
    requires !Used(m, 1)
    ensures !Used(MarkRange(m, 0, ReservedFrames(0xFFF, 2)), 1)
  {
    hide Used, MarkRange;
    RangeUses(m, 0, 1, 1);
  }

  /** An empty region reserves nothing, except in the first page, where the end
      wraps and the whole of memory is marked. */
  lemma ReserveEmpty(start: U32)
    ensures ReservedFrames(start, 0) == if start < PAGE then FRAMES else 0
  {
  }

  class FrameMap {
    const bits: array<bv8>

    ghost predicate Valid()
      reads this
    {
      bits.Length == FRAMES
    }

    constructor ()
      ensures Valid() && fresh(bits) && bits[..] == seq(FRAMES, _ => 0)
    {
      bits := new bv8[FRAMES](_ => 0);
    }

    method SetFrameAt(addr: U32)
      requires Valid()
      modifies bits
      ensures bits[..] == SetFrame(old(bits[..]), addr / PAGE)
    {
      var frame := addr / PAGE;
      bits[frame / 8] := WithBit(bits[frame / 8], frame % 8);
    }

    method ClearFrameAt(addr: U32)
      requires Valid()
      modifies bits
      ensures bits[..] == ClearFrame(old(bits[..]), addr / PAGE)
    {
      var frame := addr / PAGE;
      bits[frame / 8] := WithoutBit(bits[frame / 8], frame % 8);
    }

    method TestFrameAt(addr: U32) returns (used: bool)
      requires Valid()
      ensures used == Used(bits[..], addr / PAGE)
    {
      var frame := addr / PAGE;
      used := HasBit(bits[frame / 8], frame % 8);
    }

    /** One pass with a run counter finds what the simple search defines. In a
        HIGHMEM request the counter is `Contig` of the frames seen. */
    method Alloc(high: bool, count: nat) returns (base: U32)
      requires Valid()
      requires high ==> count > 0 && Used(bits[..], 0) && Terminates(bits[..], high, count)
      modifies bits
      ensures (bits[..], base) == AllocPages(old(bits[..]), high, count)
    {
      hide Used, SetFrame, AllocPages, ChosenRun, LowestRun, FreeRun, Terminates, Contig, ScanFrame;
      ghost var m := bits[..];
      var paddr: U32 := if high then LOW_FRAMES * PAGE else 0;
      var end: U32 := if high then 0xFFFF_FFFF else LOW_FRAMES * PAGE;
      ghost var limit := if high then FRAMES else LOW_FRAMES;
      ghost var lo := if high then LOW_FRAMES else 0;   // where this sweep began
      ghost var wrapped := false;
      ghost var p := lo;
      ghost var steps := 0;
      var contig := 0;
      EmptyRun(m, p);
      NoFramesYet(m);
      while paddr < end
        invariant bits[..] == m
        invariant 0 <= lo <= p < limit || (!high && p == limit)
        invariant paddr == p * PAGE && end == (if high then 0xFFFF_FFFF else LOW_FRAMES * PAGE)
        invariant 0 <= contig && (count > 0 ==> contig < count)
        invariant high ==> contig == Contig(m, steps) && p == ScanFrame(steps)
        invariant lo == if high && !wrapped then LOW_FRAMES else 0
        invariant wrapped ==> high && LowestRun(m, LOW_FRAMES, FRAMES, count) == FRAMES
        invariant !(wrapped && p == 0) ==> lo <= p - contig && FreeRun(m, p - contig, contig)
        invariant !(wrapped && p == 0) ==> p - contig == lo || Used(m, p - contig - 1)
        invariant count > 0 ==> forall c :: lo <= c && c + count <= p ==> !FreeRun(m, c, count)
        decreases !wrapped, limit - p
      {
        ghost var n := if wrapped && p == 0 then 0 else contig;
        if high { ContigStep(m, steps, p); }
        steps := steps + 1;
        var used := TestFrameAt(paddr);
        if !used {
          LongerRun(m, p - contig, contig);
          contig := contig + 1;
          if contig == count {
            base := Sub32(paddr, (count - 1) * PAGE);
            FoundRun(m, high, wrapped, lo, p, count);
            MarkRun(base, count);
            return;
          }
        } else {
          contig := 0;
          EmptyRun(m, p + 1);
        }
        if count > 0 { NoRunYet(m, lo, p, n, count); }
        paddr := Add32(paddr, PAGE);
        p := p + 1;
        if high && p == FRAMES {
          SweepEnds(m, count, wrapped, lo);
          p, lo := 0, 0;
          wrapped := true;
        }
      }
      NoRun(m, count);
      return 0;
    }

    method MarkRun(base: U32, count: nat)
      requires Valid() && base % PAGE == 0 && base / PAGE + count <= FRAMES
      modifies bits
      ensures bits[..] == MarkRange(old(bits[..]), base / PAGE, count)
    {
      hide SetFrame;
      for i := 0 to count
        invariant bits[..] == MarkRange(old(bits[..]), base / PAGE, i)
      {
        SetFrameAt(base + i * PAGE);
      }
    }

    method Reserve(start: U32, length: U32)
      requires Valid()
      modifies bits
      ensures bits[..] == MarkRange(old(bits[..]), start / PAGE, ReservedFrames(start, length))
      ensures 0 < length <= 0xFFFF_F000 && start + length <= TWO32 ==>
                forall f :: 0 <= f < FRAMES ==>
                  (Used(bits[..], f) <==> Used(old(bits[..]), f) || start / PAGE <= f < start / PAGE + (length + PAGE - 1) / PAGE)
    {
      hide SetFrame;
      var s := RoundDown(start);
      var end := Sub32(Add32(s, RoundUp(length)), 1);
      var addr: int := s;
      ghost var n := 0;
      while addr < end
        invariant addr == s + n * PAGE && 0 <= n <= ReservedFrames(start, length)
        invariant addr >= end ==> n == ReservedFrames(start, length)
        invariant bits[..] == MarkRange(old(bits[..]), start / PAGE, n)
      {
        SetFrameAt(addr);
        addr := addr + PAGE;
        n := n + 1;
      }
      if 0 < length <= 0xFFFF_F000 && start + length <= TWO32 {
        forall f | 0 <= f < FRAMES
          ensures Used(bits[..], f) <==> Used(old(bits[..]), f) || start / PAGE <= f < start / PAGE + (length + PAGE - 1) / PAGE
        {
          ReserveMarks(start, length, old(bits[..]), f);
        }
      }
    }

    method FreePages(frame: U32, count: U32)
      requires Valid()
      modifies bits
      ensures bits[..] == ClearWrapped(old(bits[..]), frame, count)
    {
      hide ClearFrame;
      var paddr: U32 := frame * PAGE % TWO32;
      for i := 0 to count
        invariant bits[..] == ClearWrapped(old(bits[..]), frame, i)
      {
        WrappedFrame(frame, i);
        ClearFrameAt(Add32(paddr, i * PAGE % TWO32));
      }
    }
  }

  lemma WrappedFrame(frame: U32, i: U32)
    ensures Add32(frame * PAGE % TWO32, i * PAGE % TWO32) / PAGE == (frame + i) % FRAMES
  {
    PageWraps(frame);
    PageWraps(i);
  }

  lemma PageWraps(x: nat)
    ensures x * PAGE % TWO32 == x % FRAMES * PAGE
  {
  }

  // ----- the steps of the counting scan

  lemma EmptyRun(m: Bitmap, p: nat)
    requires p <= FRAMES
    ensures FreeRun(m, p, 0)
  {
  }

  lemma LongerRun(m: Bitmap, base: nat, n: nat)
    requires base + n < FRAMES && FreeRun(m, base, n) && !Used(m, base + n)
    ensures FreeRun(m, base, n + 1)
  {
  }

  /** The frames before `p` end in a free run of `n`, and no run of `count` has
      ended yet: so none ends at `p` either unless `n` has grown to `count`. */
  lemma NoRunYet(m: Bitmap, lo: nat, p: nat, n: nat, count: nat)
    requires lo <= p - n && p < FRAMES && n < count
    requires p - n == lo || Used(m, p - n - 1)
    requires forall c :: lo <= c && c + count <= p ==> !FreeRun(m, c, count)
    requires Used(m, p) || n + 1 < count
    ensures forall c :: lo <= c && c + count <= p + 1 ==> !FreeRun(m, c, count)
  {
  }

  /** The first sweep may end in vain, a second one may not. */
  lemma SweepEnds(m: Bitmap, count: nat, wrapped: bool, lo: nat)
    requires count > 0 && Terminates(m, true, count)
    requires lo == if wrapped then 0 else LOW_FRAMES
    requires forall c :: lo <= c && c + count <= FRAMES ==> !FreeRun(m, c, count)
    ensures !wrapped && LowestRun(m, LOW_FRAMES, FRAMES, count) == FRAMES
  {
  }

  lemma FoundRun(m: Bitmap, high: bool, wrapped: bool, lo: nat, p: nat, count: nat)
    requires count > 0 && lo + count <= p + 1 <= (if high then FRAMES else LOW_FRAMES)
    requires lo == if high && !wrapped then LOW_FRAMES else 0
    requires wrapped ==> high && LowestRun(m, LOW_FRAMES, FRAMES, count) == FRAMES
    requires FreeRun(m, p + 1 - count, count)
    requires forall c :: lo <= c && c + count <= p ==> !FreeRun(m, c, count)
    ensures AllocPages(m, high, count) == (MarkRange(m, p + 1 - count, count), (p + 1 - count) * PAGE)
  {
    hide FreeRun, MarkRange;
    var r := LowestRun(m, lo, if high then FRAMES else LOW_FRAMES, count);
    assert r == p + 1 - count;
  }

  lemma NoRun(m: Bitmap, count: nat)
    requires count > 0 ==> forall c :: 0 <= c && c + count <= LOW_FRAMES ==> !FreeRun(m, c, count)
    ensures AllocPages(m, false, count) == (m, 0)
  {
  }
}
