/** Runs of the kernel heap: requests, frees and writes to live payloads in any
    order, from `kheap_init` on. */
module HeapSafety {
  import opened Machine
  import opened OrderedArrays
  import opened HeapModel
  import opened HeapBlocks
  import opened HeapOps
  import opened HeapTheorems
  import opened HeapRuns

  datatype HeapOp = AllocOp(size: U32) | FreeOp(p: U32) | WriteOp(a: U32, v: U32)

  ghost predicate Good(s: HeapState) { WellFormed(s) && Coalesced(Blocks(s)) }

  ghost predicate Live(s: HeapState, b: Block) { b in Blocks(s) && b.used }

  /** The block the scan would hand out, if any, has room for the split. */
  predicate AllocSafe(s: HeapState, size: U32) {
    size != 0 && |s.headers| == |s.footers| ==>
      var k := Scan(s, 0, Rounded(size));
      k < |s.headers| ==> SplitFits(HeaderSize(s.mem, s.headers[k]), Rounded(size), |s.headers|)
  }

  /** A request splits soundly, and a write goes to a live payload. A pointer given
      to `free` may be anything, a block already free included, unless forged tags
      pass every check for a header that is not listed. */
  ghost predicate Legal(s: HeapState, op: HeapOp) {
    match op
    case AllocOp(size) => AllocSafe(s, size)
    case FreeOp(p) => FreeAccepts(s, p)
    case WriteOp(a, _) => exists k :: 0 <= k < |Blocks(s)| && Blocks(s)[k].used && Blocks(s)[k].Holds(a)
  }

  function Apply(s: HeapState, op: HeapOp): HeapState {
    match op
    case AllocOp(size) => Alloc(s, size).0
    case FreeOp(p) => if FreeAccepts(s, p) then Free(s, p) else s
    case WriteOp(a, v) => s.(mem := Store(s.mem, a, v))
  }

  /** `op` neither frees `b` nor writes to it. */
  predicate Spares(op: HeapOp, b: Block) {
    match op
    case AllocOp(_) => true
    case FreeOp(p) => p != b.Payload()
    case WriteOp(a, _) => !(b.Payload() <= a < b.Payload() + b.size)
  }

  /** `b` is still there and its payload is byte for byte what it was. */
  ghost predicate Untouched(s: HeapState, s': HeapState, b: Block) {
    Live(s', b) && forall a :: 0 <= a < TWO32 && b.Holds(a) ==> s'.mem[a] == s.mem[a]
  }

  // ----- one step

  lemma WriteKeepsTags(m: Memory, b: Block, a: U32, v: U32)
    requires Tagged(m, b) && b.Holds(a)
    ensures Tagged(Store(m, a, v), b) && SameOutside(m, Store(m, a, v), b.addr, b.End())
  {
  }

  lemma WriteStep(s: HeapState, k: nat, a: U32, v: U32)
    requires WellFormed(s) && k < |Blocks(s)| && Blocks(s)[k].Holds(a)
    ensures var s' := s.(mem := Store(s.mem, a, v));
            WellFormed(s') && Blocks(s') == Blocks(s)
  {
    hide Tagged, Tiles;
    var bs := Blocks(s);
    var s' := s.(mem := Store(s.mem, a, v));
    WriteKeepsTags(s.mem, bs[k], a, v) by { assert Tagged(s.mem, bs[k]); }
    assert Addresses([bs[k]]) == [s.headers[k]] && Footers([bs[k]]) == [s.footers[k]];
    SpliceSame(s.headers, k);
    SpliceSame(s.footers, k);
    SpliceSame(bs, k);
    SingleTiles(bs, s.start, s.end, k);
    RewrittenRepresents(s, s', bs, k, k + 1, [bs[k]]);
    RepresentedBlocks(s', bs);
  }

  lemma SingleTiles(bs: seq<Block>, lo: int, hi: int, k: nat)
    requires Tiles(bs, lo, hi) && k < |bs|
    ensures Tiles([bs[k]], bs[k].addr, bs[k].End())
  {
  }

  lemma AllocSafeSplit(s: HeapState, size: U32, k: nat)
    requires WellFormed(s) && size != 0 && AllocSafe(s, size)
    requires FirstFit(Blocks(s), Rounded(size), k)
    ensures SplitFits(Blocks(s)[k].size, Rounded(size), |Blocks(s)|)
  {
    hide Rounded, Tagged;
    ScanFindsFirstFit(s, Blocks(s), Rounded(size));
    assert s.headers[k] == Blocks(s)[k].addr;
  }

  /** Where a served request lands. */
  lemma AllocSite(s: HeapState, size: U32) returns (k: nat)
    requires WellFormed(s) && AllocSafe(s, size) && Alloc(s, size).1 != NULL
    ensures FirstFit(Blocks(s), Rounded(size), k)
    ensures SplitFits(Blocks(s)[k].size, Rounded(size), |Blocks(s)|)
    ensures Alloc(s, size).1 == Blocks(s)[k].Payload() && size != 0
  {
    hide Alloc, Rounded, Represents;
    AllocIsFirstFit(s, size);
    k :| FirstFit(Blocks(s), Rounded(size), k) && Alloc(s, size).1 == Blocks(s)[k].Payload();
    AllocSafeSplit(s, size, k);
  }

  /** Every legal step keeps tiling, tags, index arrays, alignment and the absence
      of adjacent free blocks. */
  lemma StepKeepsHeap(s: HeapState, op: HeapOp)
    requires Good(s) && Legal(s, op)
    ensures Good(Apply(s, op))
    ensures Apply(s, op).start == s.start && Apply(s, op).end == s.end
  {
    hide Alloc, Free, Represents, AllocSafe, FreeAccepts, Rounded;
    var bs := Blocks(s);
    match op
    case AllocOp(size) =>
      AllocIsFirstFit(s, size);
      if Alloc(s, size).1 != NULL {
        var k := AllocSite(s, size);
        AllocCarves(s, size, k);
        BlockOk(s, k);
        AllocatedCoalesced(bs, k, Rounded(size));
      }
      AllocRegion(s, size);
    case FreeOp(p) =>
      FreeRegion(s, p);
      if k: nat :| k < |bs| && bs[k].Payload() == p {
        FreeFrees(s, k);
        FreedCoalesced(bs, k);
      } else {
        FreeRefuses(s, p);
      }
    case WriteOp(a, v) =>
      var k :| 0 <= k < |bs| && bs[k].used && bs[k].Holds(a);
      WriteStep(s, k, a, v);
  }

  /** `free` acts on listed payloads only. */
  lemma FreeRefuses(s: HeapState, p: U32)
    requires WellFormed(s) && FreeAccepts(s, p)
    requires forall k :: 0 <= k < |Blocks(s)| ==> Blocks(s)[k].Payload() != p
    ensures Free(s, p) == s
  {
    hide Unify, Aligned;
  }

  /** Freeing a block that is free already changes nothing. */
  lemma DoubleFreeIsIdle(s: HeapState, k: nat)
    requires Good(s) && k < |Blocks(s)| && !Blocks(s)[k].used
    ensures FreeAccepts(s, Blocks(s)[k].Payload()) && Free(s, Blocks(s)[k].Payload()) == s
  {
    hide UnifyLeft, UnifyRight, Aligned, Tiles;
    var bs := Blocks(s);
    assert Tagged(s.mem, bs[k]) && s.headers[k] == bs[k].addr;
    FreeState(s, bs, k);
    hide Represents, Free;
    LeftRewrites(s, bs, k);
    RightRewrites(s, bs, k);
  }

  // ----- damage

  /** On any state at all: without the heap's magic nothing is served or freed, a
      pointer whose tags are not intact is not freed, and a listed block whose tags
      are not intact is passed over. */
  lemma DamageIsRefused(s: HeapState, size: U32, p: U32, i: nat)
    ensures s.magic != 0xB10C_B10C_B10C_B10C ==>
              Alloc(s, size) == (s, NULL) && FreeAccepts(s, p) && Free(s, p) == s
    ensures var h := Sub32(p, 16);
            !Intact(s.mem, h, s.mem[Add32(h, 4)]) ==> FreeAccepts(s, p) && Free(s, p) == s
    ensures i < |s.headers| == |s.footers| && !Intact(s.mem, s.headers[i], s.footers[i]) ==> Scan(s, 0, size) != i
  {
    hide Checks, Intact, Unify, AllocFromBlock;
    var h := Sub32(p, 16);
    ChecksIffIntact(s.mem, h, s.mem[Add32(h, 4)]);
    if i < |s.headers| == |s.footers| { ChecksIffIntact(s.mem, s.headers[i], s.footers[i]); }
  }

  /** The condition on requests is exact. */
  lemma AllocSafeIff(s: HeapState, size: U32)
    requires Good(s)
    ensures Good(Alloc(s, size).0) <==> AllocSafe(s, size)
  {
    hide Alloc, Rounded, Tagged, Tiles, Coalesced, SplitFits;
    if AllocSafe(s, size) {
      StepKeepsHeap(s, AllocOp(size));
    } else {
      var k := Scan(s, 0, Rounded(size));
      ScanFindsFirstFit(s, Blocks(s), Rounded(size));
      AllocKeepsHeapIff(s, size, k);
    }
  }

  lemma BlockOk(s: HeapState, k: nat)
    requires WellFormed(s) && k < |Blocks(s)|
    ensures Blocks(s)[k].Ok()
  {
  }

  lemma AllocRegion(s: HeapState, size: U32)
    ensures Alloc(s, size).0.start == s.start && Alloc(s, size).0.end == s.end
  {
  }

  lemma FreeRegion(s: HeapState, p: U32)
    requires FreeAccepts(s, p)
    ensures Free(s, p).start == s.start && Free(s, p).end == s.end
  {
  }

  // ----- what a step spares

  lemma SpliceKeeps(bs: seq<Block>, i: nat, j: nat, mid: seq<Block>, l: nat)
    requires i <= j <= |bs| && l < |bs| && !(i <= l < j)
    ensures bs[l] in Splice(bs, i, j, mid)
  {
  }

  lemma OutsideKept(s: HeapState, s': HeapState, b: Block, lo: int, hi: int)
    requires SameOutside(s.mem, s'.mem, lo, hi)
    requires 0 <= b.size && (b.End() <= lo || hi <= b.addr)
    requires Live(s', b)
    ensures Untouched(s, s', b)
  {
  }

  lemma AllocSpares(s: HeapState, size: U32, i: nat)
    requires WellFormed(s) && AllocSafe(s, size)
    requires i < |Blocks(s)| && Blocks(s)[i].used
    ensures Untouched(s, Alloc(s, size).0, Blocks(s)[i])
  {
    hide Alloc, AllocSafe, Rounded, Tagged, SameOutside, Splice, Indexes, Carve;
    var bs := Blocks(s);
    AllocIsFirstFit(s, size);
    if Alloc(s, size).1 != NULL {
      var k := AllocSite(s, size);
      AllocCarves(s, size, k);
      if i < k { Ascending(bs, s.start, s.end, i, k); } else { Ascending(bs, s.start, s.end, k, i); }
      SpliceKeeps(bs, k, k + 1, Carve(bs[k], Rounded(size)), i);
      OutsideKept(s, Alloc(s, size).0, bs[i], bs[k].addr, bs[k].End());
    }
  }

  lemma FreedKeeps(bs: seq<Block>, k: nat, i: nat)
    requires k < |bs| && i < |bs| && i != k && bs[i].used
    ensures bs[i] in FreedBlocks(bs, k)
  {
    hide Splice;
    var (cs, j) := JoinLeft(bs, k);
    var l := if i < k then i else j + (i - k);
    JoinLeftAt(bs, k, i);
    JoinRightAt(cs, j, l);
    var ds := JoinRight(cs, j);
    var x := if l < j then l else l - |cs| + |ds|;
    SpliceKeeps(ds, j, j + 1, [ds[j].(used := false)], x);
  }

  lemma JoinLeftAt(bs: seq<Block>, k: nat, i: nat)
    requires k < |bs| && i < |bs| && i != k && bs[i].used
    ensures var (cs, j) := JoinLeft(bs, k);
            var l := if i < k then i else j + (i - k);
            0 <= l < |cs| && l != j && cs[l] == bs[i]
  {
  }

  lemma JoinRightAt(bs: seq<Block>, k: nat, i: nat)
    requires k < |bs| && i < |bs| && i != k && bs[i].used
    ensures var ds := JoinRight(bs, k);
            var x := if i < k then i else i - |bs| + |ds|;
            0 <= x < |ds| && x != k && ds[x] == bs[i]
  {
  }

  lemma OutsideFree(bs: seq<Block>, lo: int, hi: int, k: nat, i: nat)
    requires Tiles(bs, lo, hi) && k < |bs| && i < |bs| && i != k && bs[i].used
    ensures bs[i].End() <= FreeLow(bs, k) || FreeHigh(bs, k) <= bs[i].addr
  {
    if i < k { Ascending(bs, lo, hi, i, k); } else { Ascending(bs, lo, hi, k, i); }
    if i < k - 1 { Ascending(bs, lo, hi, i, k - 1); }
    if k + 1 < i { Ascending(bs, lo, hi, k + 1, i); }
  }

  lemma FreeSpares(s: HeapState, k: nat, i: nat)
    requires WellFormed(s) && k < |Blocks(s)| && i < |Blocks(s)| && i != k && Blocks(s)[i].used
    ensures FreeAccepts(s, Blocks(s)[k].Payload())
    ensures Untouched(s, Free(s, Blocks(s)[k].Payload()), Blocks(s)[i])
  {
    hide Free, FreeAccepts, Tagged, SameOutside, FreedBlocks;
    var bs := Blocks(s);
    FreeFrees(s, k);
    FreedKeeps(bs, k, i);
    OutsideFree(bs, s.start, s.end, k, i);
    OutsideKept(s, Free(s, bs[k].Payload()), bs[i], FreeLow(bs, k), FreeHigh(bs, k));
  }

  /** No request, no free of another block and no write elsewhere moves a live
      block or changes a byte of its payload. */
  lemma StepSparesPayload(s: HeapState, op: HeapOp, b: Block)
    requires Good(s) && Legal(s, op) && Live(s, b) && Spares(op, b)
    ensures Untouched(s, Apply(s, op), b)
  {
    hide Alloc, Free, Represents, AllocSafe, FreeAccepts;
    var bs := Blocks(s);
    var i :| 0 <= i < |bs| && bs[i] == b;
    match op
    case AllocOp(size) => AllocSpares(s, size, i);
    case FreeOp(p) =>
      if k: nat :| k < |bs| && bs[k].Payload() == p { FreeSpares(s, k, i); } else { FreeRefuses(s, p); }
    case WriteOp(a, v) =>
      var k :| 0 <= k < |bs| && bs[k].used && bs[k].Holds(a);
      WriteStep(s, k, a, v);
  }

  /** A live block stays where it is until it is freed. */
  lemma StepKeepsLive(s: HeapState, op: HeapOp, b: Block)
    requires Good(s) && Legal(s, op) && Live(s, b) && op != FreeOp(b.Payload())
    ensures Live(Apply(s, op), b)
  {
    hide Represents, Coalesced, Aligned, Alloc, Free, AllocSafe, FreeAccepts, Blocks;
    if op.WriteOp? {
      var k :| 0 <= k < |Blocks(s)| && Blocks(s)[k].used && Blocks(s)[k].Holds(op.a);
      WriteStep(s, k, op.a, op.v);
    } else {
      StepSparesPayload(s, op, b);
    }
  }

  /** Distinct blocks, hence distinct live payloads, never overlap. */
  lemma LiveDisjoint(s: HeapState, b: Block, c: Block)
    requires WellFormed(s) && b in Blocks(s) && c in Blocks(s) && b != c
    ensures b.End() <= c.addr || c.End() <= b.addr
  {
    hide Tagged;
    var bs := Blocks(s);
    var i :| 0 <= i < |bs| && bs[i] == b;
    var j :| 0 <= j < |bs| && bs[j] == c;
    if i < j { Ascending(bs, s.start, s.end, i, j); } else { Ascending(bs, s.start, s.end, j, i); }
  }

  // ----- whole runs

  ghost predicate LegalRun(s: HeapState, ops: seq<HeapOp>)
    decreases |ops|
  {
    ops != [] ==> Legal(s, ops[0]) && LegalRun(Apply(s, ops[0]), ops[1..])
  }

  function After(s: HeapState, ops: seq<HeapOp>): HeapState
    decreases |ops|
  {
    if ops == [] then s else After(Apply(s, ops[0]), ops[1..])
  }

  lemma {:induction false} RunKeepsHeap(s: HeapState, ops: seq<HeapOp>)
    requires Good(s) && LegalRun(s, ops)
    ensures Good(After(s, ops)) && After(s, ops).start == s.start && After(s, ops).end == s.end
    decreases |ops|
  {
    hide Good, Legal, Apply;
    if ops != [] {
      StepKeepsHeap(s, ops[0]);
      RunKeepsHeap(Apply(s, ops[0]), ops[1..]);
    }
  }

  /** A payload handed out keeps its place and contents through any run that does
      not free it or write to it. */
  lemma {:induction false} RunSparesPayload(s: HeapState, ops: seq<HeapOp>, b: Block)
    requires Good(s) && LegalRun(s, ops) && Live(s, b)
    requires forall i :: 0 <= i < |ops| ==> Spares(ops[i], b)
    ensures Untouched(s, After(s, ops), b)
    decreases |ops|
  {
    hide Good, Legal, Apply, Spares;
    if ops != [] {
      var s1 := Apply(s, ops[0]);
      StepKeepsHeap(s, ops[0]);
      StepSparesPayload(s, ops[0], b);
      RunSparesPayload(s1, ops[1..], b);
    }
  }

  lemma InitialTags(m: Memory, start: U32)
    requires start + HEAP_BYTES < TWO32
    ensures Tagged(InitialHeap(m, start).mem, Block(start, HEAP_BYTES - 32, false))
  {
  }

  lemma InitialGood(m: Memory, start: U32)
    requires start + HEAP_BYTES < TWO32 && start % 16 == 0
    ensures Good(InitialHeap(m, start))
    ensures Blocks(InitialHeap(m, start)) == [Block(start, HEAP_BYTES - 32, false)]
  {
    hide Tagged, StoreHeader, StoreFooter;
    InitialTags(m, start);
    RepresentedBlocks(InitialHeap(m, start), [Block(start, HEAP_BYTES - 32, false)]);
  }

  lemma InitialRegion(m: Memory, start: U32)
    requires start + HEAP_BYTES < TWO32
    ensures InitialHeap(m, start).start == start && InitialHeap(m, start).end == start + HEAP_BYTES
  {
  }

  lemma IndexesSorted(s: HeapState, bs: seq<Block>)
    requires Represents(s, bs)
    ensures StrictlySorted(s.headers) && StrictlySorted(s.footers)
  {
    hide Tagged;
    forall i, j | 0 <= i < j < |bs|
      ensures s.headers[i] < s.headers[j] && s.footers[i] < s.footers[j]
    {
      Ascending(bs, s.start, s.end, i, j);
      assert s.headers[i] == bs[i].addr && s.headers[j] == bs[j].addr;
      assert s.footers[i] == bs[i].Footer() && s.footers[j] == bs[j].Footer();
    }
  }

  /** Everything the design asks of a heap on [start, end). */
  ghost predicate Sound(s: HeapState, start: int, end: int) {
    && Tiles(Blocks(s), start, end) && TotalSpan(Blocks(s)) == end - start
    && Coalesced(Blocks(s))
    && |s.headers| == |s.footers| && StrictlySorted(s.headers) && StrictlySorted(s.footers)
    && (forall i :: 0 <= i < |s.headers| ==> Intact(s.mem, s.headers[i], s.footers[i]))
    && (forall i :: 0 <= i < |Blocks(s)| ==> Blocks(s)[i].Payload() % 16 == 0)
  }

  lemma GoodIsSound(s: HeapState)
    requires Good(s)
    ensures Sound(s, s.start, s.end)
  {
    hide Intact, Tagged, Tiles;
    TilesSpan(Blocks(s), s.start, s.end);
    IndexesSorted(s, Blocks(s));
    forall i | 0 <= i < |s.headers| ensures Intact(s.mem, s.headers[i], s.footers[i]) {
      ListedChecks(s, Blocks(s), i);
    }
    PayloadsAligned(Blocks(s));
  }

  lemma PayloadsAligned(bs: seq<Block>)
    requires Aligned(bs)
    ensures forall i :: 0 <= i < |bs| ==> bs[i].Payload() % 16 == 0
  {
  }

  lemma ListedChecks(s: HeapState, bs: seq<Block>, i: nat)
    requires Represents(s, bs) && i < |bs|
    ensures Intact(s.mem, s.headers[i], s.footers[i])
  {
    hide Checks, Intact;
    assert Tagged(s.mem, bs[i]);
    ChecksIffIntact(s.mem, s.headers[i], s.footers[i]);
  }

  /** The heap of every run from `kheap_init`: four mebibytes tiled by blocks, both
      index arrays strictly sorted and in step, every pair of tags consistent,
      payloads on 16-byte boundaries, no two free neighbours. */
  lemma EveryRunIsSound(m: Memory, start: U32, ops: seq<HeapOp>)
    requires start + HEAP_BYTES < TWO32 && start % 16 == 0
    requires LegalRun(InitialHeap(m, start), ops)
    ensures Sound(After(InitialHeap(m, start), ops), start, start + 0x40_0000)
  {
    hide Good, Sound, Apply, Legal, InitialHeap, After, LegalRun;
    InitialRegion(m, start);
    InitialGood(m, start);
    RunKeepsHeap(InitialHeap(m, start), ops);
    GoodIsSound(After(InitialHeap(m, start), ops));
  }

  /** Rounding wraps: a request for nearly four gibibytes from a fresh heap is served
      with a block of no bytes. */
  lemma HugeRequestIsServed(m: Memory, start: U32)
    requires start + HEAP_BYTES < TWO32 && start % 16 == 0
    ensures var (s1, p) := Alloc(InitialHeap(m, start), 0xFFFF_FFFF);
            p == start + 16 && Blocks(s1)[..1] == [Block(start, 0, true)]
  {
    hide Alloc, InitialHeap, Represents, Coalesced, SameOutside, Blocks, AllocFromBlock;
    var s0 := InitialHeap(m, start);
    InitialGood(m, start);
    assert Rounded(0xFFFF_FFFF) == 0 && FirstFit(Blocks(s0), 0, 0);
    AllocState(s0, 0xFFFF_FFFF, 0);
    AllocCarves(s0, 0xFFFF_FFFF, 0);
  }

  const LARGE: U32 := HEAP_BYTES - 144

  lemma LargeRequest(m: Memory, start: U32)
    requires start + HEAP_BYTES < TWO32 && start % 16 == 0
    ensures var s1 := Alloc(InitialHeap(m, start), LARGE).0;
            Good(s1) && Blocks(s1) == [Block(start, LARGE, true), Block(start + LARGE + 32, 80, false)]
  {
    hide Alloc, InitialHeap, Represents, Coalesced, SameOutside, Blocks;
    var s0 := InitialHeap(m, start);
    InitialGood(m, start);
    assert FirstFit(Blocks(s0), LARGE, 0);
    AllocCarves(s0, LARGE, 0);
    AllocatedCoalesced(Blocks(s0), 0, LARGE);
  }

  /** The side condition is not idle: two requests from a fresh heap, the second
      for exactly the 80 bytes the first left over, break the heap. */
  lemma SmallRemainderBreaks(m: Memory, start: U32)
    requires start + HEAP_BYTES < TWO32 && start % 16 == 0
    ensures var s1 := Alloc(InitialHeap(m, start), LARGE).0;
            Good(s1) && forall bs :: !Represents(Alloc(s1, 80).0, bs)
  {
    hide Alloc, InitialHeap, Represents, Coalesced, Blocks;
    LargeRequest(m, start);
    AllocKeepsHeapIff(Alloc(InitialHeap(m, start), LARGE).0, 80, 1);
  }
}
