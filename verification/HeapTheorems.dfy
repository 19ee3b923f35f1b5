/** What `alloc` and `free` promise on a well-formed heap. */
module HeapTheorems {
  import opened Machine
  import opened OrderedArrays
  import opened HeapModel
  import opened HeapBlocks
  import opened HeapOps

  // ----- alloc

  predicate Fits(b: Block, r: U32) { !b.used && r <= b.size }

  /** `k` is the lowest-addressed free block with room for `r` bytes. */
  ghost predicate FirstFit(bs: seq<Block>, r: U32, k: nat) {
    && k < |bs| && Fits(bs[k], r)
    && forall i :: 0 <= i < k ==> !Fits(bs[i], r)
  }

  lemma ScanFindsFirstFit(s: HeapState, bs: seq<Block>, r: U32)
    requires Represents(s, bs)
    ensures var k := Scan(s, 0, r);
            if k < |bs| then FirstFit(bs, r, k) else forall i :: 0 <= i < |bs| ==> !Fits(bs[i], r)
  {
    forall i | 0 <= i < |bs| ensures Suitable(s, i, r) <==> Fits(bs[i], r) {
      assert Tagged(s.mem, bs[i]) && s.headers[i] == bs[i].addr && s.footers[i] == bs[i].Footer();
    }
  }

  /** First fit: a nonzero request gets the payload of the lowest free block that
      can hold it rounded up to 16, and NULL exactly when there is none. A zero
      request and a failed one change nothing. */
  lemma AllocIsFirstFit(s: HeapState, size: U32)
    requires WellFormed(s)
    ensures var bs, r := Blocks(s), Rounded(size);
            var (s', p) := Alloc(s, size);
            && (p == NULL <==> size == 0 || forall i :: 0 <= i < |bs| ==> !Fits(bs[i], r))
            && (p == NULL ==> s' == s)
            && (p != NULL ==> exists k: nat :: FirstFit(bs, r, k) && p == bs[k].Payload())
  {
    hide AllocFromBlock, Tagged, Tiles;
    var bs, r := Blocks(s), Rounded(size);
    if size != 0 {
      ScanFindsFirstFit(s, bs, r);
      var k := Scan(s, 0, r);
      if k < |bs| { AllocState(s, size, k); }
    }
  }

  /** The block list after a request of `r` bytes served from block `k`. */
  function AllocatedBlocks(bs: seq<Block>, k: nat, r: U32): seq<Block>
    requires k < |bs| && bs[k].Ok()
  {
    Splice(bs, k, k + 1, Carve(bs[k], r))
  }

  lemma AllocState(s: HeapState, size: U32, k: nat)
    requires WellFormed(s) && size != 0
    requires FirstFit(Blocks(s), Rounded(size), k)
    ensures var b := Blocks(s)[k];
            b.Ok() && Alloc(s, size) == (AllocFromBlock(s, b.addr, b.Footer(), Rounded(size)), b.Payload())
  {
    hide AllocFromBlock;
    var bs := Blocks(s);
    ScanFindsFirstFit(s, bs, Rounded(size));
    assert s.headers[k] == bs[k].addr && s.footers[k] == bs[k].Footer() && bs[k].Ok();
  }

  /** With room for the split, the block found is carved and nothing outside it
      changes. */
  lemma AllocCarves(s: HeapState, size: U32, k: nat)
    requires WellFormed(s) && size != 0
    requires FirstFit(Blocks(s), Rounded(size), k)
    requires SplitFits(Blocks(s)[k].size, Rounded(size), |Blocks(s)|)
    ensures var bs, s' := Blocks(s), Alloc(s, size).0;
            && WellFormed(s')
            && Blocks(s') == AllocatedBlocks(bs, k, Rounded(size))
            && SameOutside(s.mem, s'.mem, bs[k].addr, bs[k].End())
  {
    hide AllocFromBlock, Alloc, Represents, Splice, Rounded, SameOutside, Carve, Aligned, Blocks;
    var bs, r := Blocks(s), Rounded(size);
    AllocState(s, size, k);
    var s' := AllocFromBlock(s, bs[k].addr, bs[k].Footer(), r);
    CarveRewrites(s, s', bs, k, r);
    RewrittenRepresents(s, s', bs, k, k + 1, Carve(bs[k], r));
    RepresentedBlocks(s', AllocatedBlocks(bs, k, r));
    CarveAligned(bs, k, r);
    AlignedSplice(bs, k, k + 1, Carve(bs[k], r));
  }

  lemma CarveAligned(bs: seq<Block>, k: nat, r: U32)
    requires Aligned(bs) && k < |bs| && bs[k].Ok() && r % 16 == 0
    ensures Aligned(Carve(bs[k], r))
  {
    hide TakesSplit;
    assert bs[k].addr % 16 == 0 && bs[k].size % 16 == 0;
  }

  lemma AlignedSplice(bs: seq<Block>, i: nat, j: nat, mid: seq<Block>)
    requires i <= j <= |bs| && Aligned(bs) && Aligned(mid)
    ensures Aligned(Splice(bs, i, j, mid))
  {
  }

  // ----- free

  /** Blocks after freeing block `k`: joined left, then right, then marked. */
  function JoinLeft(bs: seq<Block>, k: nat): (r: (seq<Block>, nat))
    requires k < |bs|
    ensures r.1 < |r.0|
  {
    if k > 0 && !bs[k - 1].used then (Splice(bs, k - 1, k + 1, [Joined(bs[k - 1], bs[k])]), k - 1)
    else (bs, k)
  }

  function JoinRight(bs: seq<Block>, k: nat): (r: seq<Block>)
    requires k < |bs|
    ensures k < |r|
  {
    if k + 1 < |bs| && !bs[k + 1].used then Splice(bs, k, k + 2, [Joined(bs[k], bs[k + 1])])
    else bs
  }

  function FreedBlocks(bs: seq<Block>, k: nat): seq<Block>
    requires k < |bs|
  {
    var (cs, j) := JoinLeft(bs, k);
    var ds := JoinRight(cs, j);
    Splice(ds, j, j + 1, [ds[j].(used := false)])
  }

  /** The bytes a `free` of block `k` may write: it and its free neighbours. */
  function FreeLow(bs: seq<Block>, k: nat): int
    requires k < |bs|
  {
    if k > 0 && !bs[k - 1].used then bs[k - 1].addr else bs[k].addr
  }

  function FreeHigh(bs: seq<Block>, k: nat): int
    requires k < |bs|
  {
    if k + 1 < |bs| && !bs[k + 1].used then bs[k + 1].End() else bs[k].End()
  }

  lemma FreeState(s: HeapState, bs: seq<Block>, k: nat)
    requires Represents(s, bs) && k < |bs|
    ensures bs[k].Ok() && bs[k].addr in s.headers
    ensures FreeAccepts(s, bs[k].Payload())
    ensures Free(s, bs[k].Payload()) == Unify(s, bs[k].addr, bs[k].Footer())
  {
  }

  lemma SameMemory(m: Memory, lo: int, hi: int)
    ensures SameOutside(m, m, lo, hi)
  {
  }

  lemma JoinLeftStep(s: HeapState, bs: seq<Block>, k: nat)
    requires Represents(s, bs) && k < |bs|
    ensures bs[k].addr in s.headers
    ensures var (s1, h1) := UnifyLeft(s, bs[k].addr, bs[k].Footer());
            var (cs, j) := JoinLeft(bs, k);
            && Represents(s1, cs) && h1 == cs[j].addr && cs[j].Footer() == bs[k].Footer()
            && SameOutside(s.mem, s1.mem, cs[j].addr, cs[j].End())
            && cs[j].addr == FreeLow(bs, k) && cs[j].End() == bs[k].End()
            && cs[j + 1..] == bs[k + 1..]
  {
    hide UnifyLeft, Tagged, SameOutside, Represents, Splice;
    BlockNeighbours(s, bs, k);
    LeftRewrites(s, bs, k);
    SameMemory(s.mem, bs[k].addr, bs[k].End());
    LeftJoined(bs, k);
    if k > 0 && !bs[k - 1].used {
      RewrittenRepresents(s, UnifyLeft(s, bs[k].addr, bs[k].Footer()).0, bs, k - 1, k + 1, [Joined(bs[k - 1], bs[k])]);
    }
  }

  lemma BlockNeighbours(s: HeapState, bs: seq<Block>, k: nat)
    requires Represents(s, bs) && k < |bs|
    ensures bs[k].Ok() && bs[k].addr in s.headers
    ensures k > 0 ==> bs[k - 1].Ok() && bs[k - 1].End() == bs[k].addr
  {
    assert s.headers[k] == bs[k].addr;
  }

  /** The block that joining to the left leaves in place of block `k`. */
  lemma LeftJoined(bs: seq<Block>, k: nat)
    requires k < |bs|
    requires k > 0 ==> bs[k - 1].End() == bs[k].addr
    ensures var (cs, j) := JoinLeft(bs, k);
            && cs[j].addr == FreeLow(bs, k)
            && cs[j].Footer() == bs[k].Footer() && cs[j].End() == bs[k].End()
            && cs[j + 1..] == bs[k + 1..]
  {
    if k > 0 && !bs[k - 1].used {
      var mid := [Joined(bs[k - 1], bs[k])];
      assert Splice(bs, k - 1, k + 1, mid)[k..] == bs[k + 1..];
    }
  }

  lemma JoinRightStep(s: HeapState, bs: seq<Block>, k: nat)
    requires Represents(s, bs) && k < |bs|
    ensures bs[k].addr in s.headers
    ensures var s1 := UnifyRight(s, bs[k].addr, bs[k].Footer());
            var cs := JoinRight(bs, k);
            && Represents(s1, cs) && cs[k].addr == bs[k].addr
            && SameOutside(s.mem, s1.mem, cs[k].addr, cs[k].End())
            && cs[k].End() == FreeHigh(bs, k)
  {
    hide UnifyRight, Tagged, SameOutside;
    RightRewrites(s, bs, k);
    SameMemory(s.mem, bs[k].addr, bs[k].End());
    if k + 1 < |bs| && !bs[k + 1].used {
      var mid := [Joined(bs[k], bs[k + 1])];
      assert bs[k].End() == bs[k + 1].addr;
      RewrittenRepresents(s, UnifyRight(s, bs[k].addr, bs[k].Footer()), bs, k, k + 2, mid);
    }
  }

  /** Freeing block `k` joins it with its free neighbours, marks the result free
      and writes nowhere else. */
  lemma UnifyFrees(s: HeapState, bs: seq<Block>, k: nat)
    requires Represents(s, bs) && k < |bs|
    ensures bs[k].addr in s.headers
    ensures var s' := Unify(s, bs[k].addr, bs[k].Footer());
            && Represents(s', FreedBlocks(bs, k))
            && SameOutside(s.mem, s'.mem, FreeLow(bs, k), FreeHigh(bs, k))
  {
    hide UnifyLeft, UnifyRight, Tagged, Splice;
    JoinLeftStep(s, bs, k);
    var (s1, h1) := UnifyLeft(s, bs[k].addr, bs[k].Footer());
    var (cs, j) := JoinLeft(bs, k);
    JoinRightStep(s1, cs, j);
    var s2 := UnifyRight(s1, h1, bs[k].Footer());
    var ds := JoinRight(cs, j);
    var s3 := s2.(mem := Store(s2.mem, Add32(h1, 8), 0));
    MarkRewrites(s2, s3, ds, j, false);
    RewrittenRepresents(s2, s3, ds, j, j + 1, [ds[j].(used := false)]);
    assert FreeHigh(cs, j) == FreeHigh(bs, k) by {
      assert |cs[j + 1..]| == |bs[k + 1..]|;
      if k + 1 < |bs| { assert cs[j + 1] == cs[j + 1..][0] == bs[k + 1..][0]; }
    }
  }

  lemma FreeFrees(s: HeapState, k: nat)
    requires WellFormed(s) && k < |Blocks(s)|
    ensures FreeAccepts(s, Blocks(s)[k].Payload())
    ensures var bs := Blocks(s);
            var s' := Free(s, bs[k].Payload());
            && WellFormed(s')
            && Blocks(s') == FreedBlocks(bs, k)
            && SameOutside(s.mem, s'.mem, FreeLow(bs, k), FreeHigh(bs, k))
  {
    hide Unify;
    var bs := Blocks(s);
    FreeState(s, bs, k);
    UnifyFrees(s, bs, k);
    RepresentedBlocks(Free(s, bs[k].Payload()), FreedBlocks(bs, k));
    FreedAligned(bs, k);
  }

  lemma FreedAligned(bs: seq<Block>, k: nat)
    requires k < |bs| && Aligned(bs)
    ensures Aligned(FreedBlocks(bs, k))
  {
    var (cs, j) := JoinLeft(bs, k);
    assert Aligned(cs);
    assert Aligned(JoinRight(cs, j));
  }
}
