/** The exact conditions under which an operation keeps the heap, and what every
    run of operations keeps. */
module HeapRuns {
  import opened Machine
  import opened OrderedArrays
  import opened HeapModel
  import opened HeapBlocks
  import opened HeapOps
  import opened HeapTheorems

  // ----- when an allocation is sound

  /** The wrapped comparison splits every block below 96 bytes, and a larger one
      exactly when more than 96 bytes would be left over. */
  lemma SplitTestExact(blockSize: U32, r: U32)
    requires r <= blockSize
    ensures TakesSplit(blockSize, r) <==> blockSize < 96 || r + 96 < blockSize
    ensures TakesSplit(blockSize, r) && blockSize < r + 32 <==> blockSize < 96 && blockSize < r + 32
  {
  }

  /** The condition for a sound allocation in plain numbers. */
  lemma SplitFitsExact(blockSize: U32, r: U32, blocks: nat)
    requires r <= blockSize
    ensures SplitFits(blockSize, r, blocks) <==>
            (blockSize < 96 || r + 96 < blockSize ==> r + 32 <= blockSize && blocks < 4096)
  {
  }

  lemma TightFooters(s: HeapState, i: nat)
    requires i + 1 < |s.footers| && s.footers[i + 1] as int < s.footers[i] as int + 32
    ensures forall bs :: !Represents(s, bs)
  {
    hide Represents;
    forall bs ensures !Represents(s, bs) {
      if Represents(s, bs) {
        IndexLengths(s, bs);
        FootersApart(s, bs, i);
        assert false;
      }
    }
  }

  lemma IndexLengths(s: HeapState, bs: seq<Block>)
    requires Represents(s, bs)
    ensures |s.headers| == |s.footers| == |bs|
  {
  }

  lemma FootersApart(s: HeapState, bs: seq<Block>, i: nat)
    requires Represents(s, bs) && i + 1 < |bs|
    ensures s.footers[i] as int + 32 <= s.footers[i + 1] as int
  {
  }

  /** A split without room puts two footers less than a block apart. */
  lemma OverrunTightens(footers: seq<U32>, headers: seq<U32>, bs: seq<Block>, lo: int, hi: int, k: nat, r: U32)
    requires Indexes(headers, footers, bs) && Tiles(bs, lo, hi) && k < |bs|
    requires r <= bs[k].size < r + 32
    ensures var fs := Inserted(footers, bs[k].addr + r + 16);
            fs[k + 1] as int < fs[k] as int + 32
  {
    hide Inserted;
    var nf := bs[k].addr + r + 16;
    assert footers[k] == bs[k].Footer();
    forall j | k < j < |bs| ensures nf < footers[j] { Ascending(bs, lo, hi, k, j); }
    if nf < footers[k] {
      if k > 0 { assert bs[k - 1].End() == bs[k].addr && footers[k - 1] == bs[k - 1].Footer(); }
      InsertSplitFooter(footers, nf, k);
    } else {
      InsertedSplices(footers, nf, k + 1);
    }
  }

  /** A split with full index arrays leaves a footer whose back pointer names a
      header that was never listed. */
  lemma FullIndexBreaks(s: HeapState, bs: seq<Block>, k: nat, r: U32)
    requires Represents(s, bs) && k < |bs| && |bs| >= INDEX_CAPACITY
    requires r <= bs[k].size && TakesSplit(bs[k].size, r)
    requires bs[k].Ok()
    ensures forall cs :: !Represents(AllocFromBlock(s, bs[k].addr, bs[k].Footer(), r), cs)
  {
    hide AllocFromBlock;
    var h, f := bs[k].addr, bs[k].Footer();
    assert Tagged(s.mem, bs[k]) && s.headers[k] == h && s.footers[k] == f;
    hide Represents, Tagged;
    FullSplit(s, h, f, r);
    var s' := AllocFromBlock(s, h, f, r);
    forall cs ensures !Represents(s', cs) {
      if Represents(s', cs) {
        BackPointer(s', cs, k);
        assert false;
      }
    }
  }

  lemma FullSplit(s: HeapState, h: U32, f: U32, r: U32)
    requires TakesSplit(HeaderSize(s.mem, h), r) && h + r + 32 < TWO32 && h + 12 < f
    requires |s.headers| >= INDEX_CAPACITY && |s.footers| >= INDEX_CAPACITY
    ensures var s' := AllocFromBlock(s, h, f, r);
            && s'.headers == s.headers && s'.footers == s.footers
            && FooterHeader(s'.mem, f) == h + r + 32
  {
    hide SplitMemory;
    FullBackPointer(s.mem, h, f, r, h + r + 16, h + r + 32);
  }

  lemma BackPointer(s: HeapState, bs: seq<Block>, k: nat)
    requires Represents(s, bs) && k < |s.headers|
    ensures FooterHeader(s.mem, s.footers[k]) == s.headers[k]
  {
  }

  lemma FullBackPointer(m: Memory, h: U32, f: U32, r: U32, nf: U32, nh: U32)
    requires h + 12 < f
    ensures FooterHeader(SplitMemory(m, h, f, r, nf, nh), f) == nh
  {
  }

  /** `alloc` keeps a well-formed heap well formed exactly when the block it finds
      has room for the tags and index slots of the split it takes; otherwise no
      block list at all describes what it leaves. */
  lemma AllocKeepsHeapIff(s: HeapState, size: U32, k: nat)
    requires WellFormed(s) && size != 0
    requires FirstFit(Blocks(s), Rounded(size), k)
    ensures WellFormed(Alloc(s, size).0) <==> SplitFits(Blocks(s)[k].size, Rounded(size), |Blocks(s)|)
    ensures !WellFormed(Alloc(s, size).0) ==> forall bs :: !Represents(Alloc(s, size).0, bs)
  {
    hide AllocFromBlock, Alloc, Tagged, Rounded;
    var bs, r := Blocks(s), Rounded(size);
    AllocState(s, size, k);
    if SplitFits(bs[k].size, r, |bs|) {
      AllocCarves(s, size, k);
    } else if |bs| >= INDEX_CAPACITY {
      FullIndexBreaks(s, bs, k, r);
    } else {
      SplitFooters(s, bs[k].addr, bs[k].Footer(), r) by { assert Tagged(s.mem, bs[k]); HeaderSizeIs(s.mem, bs[k]); }
      OverrunTightens(s.footers, s.headers, bs, s.start, s.end, k, r);
      TightFooters(Alloc(s, size).0, k);
    }
  }

  lemma HeaderSizeIs(m: Memory, b: Block)
    requires Tagged(m, b)
    ensures HeaderSize(m, b.addr) == b.size
  {
  }

  lemma SplitFooters(s: HeapState, h: U32, f: U32, r: U32)
    requires TakesSplit(HeaderSize(s.mem, h), r) && h + r + 16 < TWO32
    requires |s.footers| < INDEX_CAPACITY
    ensures AllocFromBlock(s, h, f, r).footers == Inserted(s.footers, h + r + 16)
  {
  }

  /** Rounding wraps above 0xFFFFFFF0, and then the block handed out is smaller
      than the request; otherwise it is at least as large. */
  lemma AllocIsBigEnoughIff(s: HeapState, size: U32, k: nat)
    requires WellFormed(s) && size != 0
    requires FirstFit(Blocks(s), Rounded(size), k)
    requires SplitFits(Blocks(s)[k].size, Rounded(size), |Blocks(s)|)
    ensures var b := Blocks(Alloc(s, size).0)[k];
            && b.used && b.Payload() == Alloc(s, size).1
            && (size <= b.size <==> size <= 0xFFFF_FFF0)
  {
    hide Alloc, AllocFromBlock, Represents, Tagged, SameOutside, Aligned;
    AllocCarves(s, size, k);
    AllocState(s, size, k);
  }

  // ----- no two free neighbours

  lemma AllocatedCoalesced(bs: seq<Block>, k: nat, r: U32)
    requires k < |bs| && bs[k].Ok() && !bs[k].used && Coalesced(bs)
    ensures Coalesced(AllocatedBlocks(bs, k, r))
  {
  }

  /** One merge on each side is enough. */
  lemma FreedCoalesced(bs: seq<Block>, k: nat)
    requires k < |bs| && Coalesced(bs)
    ensures Coalesced(FreedBlocks(bs, k))
  {
    var (cs, j) := JoinLeft(bs, k);
    LeftApart(bs, k);
    var ds := JoinRight(cs, j);
    RightApart(cs, j);
    var es := FreedBlocks(bs, k);
    forall x, y | 0 <= x && y == x + 1 && y < |es| ensures es[x].used || es[y].used {
      assert es[x] == if x == j then ds[j].(used := false) else ds[x];
      assert es[y] == if y == j then ds[j].(used := false) else ds[y];
    }
  }

  /** All free neighbours involve block `k`, which has none on its left. */
  ghost predicate ApartExcept(bs: seq<Block>, k: nat) {
    && (forall i, j :: 0 <= i && j == i + 1 && j < |bs| && i != k && j != k ==> bs[i].used || bs[j].used)
    && (0 < k < |bs| ==> bs[k - 1].used)
  }

  lemma LeftApart(bs: seq<Block>, k: nat)
    requires k < |bs| && Coalesced(bs)
    ensures var (cs, j) := JoinLeft(bs, k); ApartExcept(cs, j)
  {
  }

  lemma RightApart(bs: seq<Block>, k: nat)
    requires k < |bs| && ApartExcept(bs, k)
    ensures var ds := JoinRight(bs, k);
            ApartExcept(ds, k) && (k + 1 < |ds| ==> ds[k + 1].used)
  {
  }

  /** Allocating and freeing at once gives the same block list back. */
  lemma FreeUndoesAllocated(bs: seq<Block>, k: nat, r: U32)
    requires k < |bs| && bs[k].Ok() && !bs[k].used && Coalesced(bs)
    requires r <= bs[k].size
    ensures k < |AllocatedBlocks(bs, k, r)| && AllocatedBlocks(bs, k, r)[k].addr == bs[k].addr
    ensures FreedBlocks(AllocatedBlocks(bs, k, r), k) == bs
  {
    hide TakesSplit;
    var b, cs := bs[k], AllocatedBlocks(bs, k, r);
    assert k > 0 ==> cs[k - 1] == bs[k - 1] && bs[k - 1].used;
    assert JoinLeft(cs, k) == (cs, k);
    var ds := bs[k := b.(used := true)];
    assert JoinRight(cs, k) == ds by {
      if TakesSplit(b.size, r) {
        assert Joined(cs[k], cs[k + 1]) == ds[k];
        assert cs[k + 2..] == ds[k + 1..] && cs[..k] == ds[..k];
      } else {
        assert cs == ds && (k + 1 < |bs| ==> bs[k + 1].used);
      }
    }
    assert Splice(ds, k, k + 1, [b]) == bs;
  }

  /** Round trip on the real heap: block list and both index arrays. */
  lemma AllocFreeRoundTrip(s: HeapState, size: U32, k: nat)
    requires WellFormed(s) && Coalesced(Blocks(s)) && size != 0
    requires FirstFit(Blocks(s), Rounded(size), k)
    requires SplitFits(Blocks(s)[k].size, Rounded(size), |Blocks(s)|)
    ensures var (s1, p) := Alloc(s, size);
            && FreeAccepts(s1, p)
            && Blocks(Free(s1, p)) == Blocks(s)
            && Free(s1, p).headers == s.headers && Free(s1, p).footers == s.footers
            && WellFormed(Free(s1, p))
  {
    hide Alloc, Free, Rounded, Represents, FreedBlocks, AllocatedBlocks, Coalesced, SplitFits, FreeAccepts;
    var bs := Blocks(s);
    AllocState(s, size, k);
    AllocCarves(s, size, k);
    var s1 := Alloc(s, size).0;
    FreeUndoesAllocated(bs, k, Rounded(size));
    FreeFrees(s1, k);
    SameBlocksSameIndexes(s, Free(s1, bs[k].Payload()), bs);
  }

  lemma SameBlocksSameIndexes(s: HeapState, s': HeapState, bs: seq<Block>)
    requires Represents(s, bs) && Represents(s', bs)
    ensures s'.headers == s.headers && s'.footers == s.footers
  {
  }
}
