/** What a `free` achieves, and why freeing again does no harm. */
module HeapFrees {
  import opened Machine
  import opened OrderedArrays
  import opened HeapModel
  import opened HeapBlocks
  import opened HeapOps
  import opened HeapTheorems
  import opened HeapRuns
  import opened HeapSafety

  // ----- tags that a merge clears

  lemma MergeLeftClears(m: Memory, prev: U32, prevFooter: U32, h: U32, f: U32)
    requires h + 16 <= f && f + 16 <= TWO32
    ensures MergeLeft(m, prev, prevFooter, h, f)[h + 12] == 0
  {
  }

  lemma MergeRightClears(m: Memory, h: U32, f: U32, next: U32, nextFooter: U32, a: U32)
    requires h + 8 <= a < TWO32 && h + 16 <= TWO32 && a != nextFooter && next + 16 <= TWO32
    requires m[a] == 0 || a == next + 12
    ensures MergeRight(m, h, f, next, nextFooter)[a] == 0
  {
  }

  lemma LeftClears(s: HeapState, bs: seq<Block>, k: nat)
    requires Represents(s, bs) && 0 < k < |bs| && !bs[k - 1].used
    ensures bs[k].Ok() && bs[k].addr in s.headers
    ensures UnifyLeft(s, bs[k].addr, bs[k].Footer()).0.mem[bs[k].addr + 12] == 0
  {
    hide MergeLeft, Tagged, UnifyLeft;
    LeftState(s, bs, k);
    BlockNeighbours(s, bs, k);
    MergeLeftClears(s.mem, bs[k - 1].addr, bs[k - 1].Footer(), bs[k].addr, bs[k].Footer());
  }

  /** A cleared word inside block `k`, and the header of a neighbour merged into it. */
  lemma RightClears(s: HeapState, bs: seq<Block>, k: nat, a: U32)
    requires Represents(s, bs) && k < |bs| && bs[k].addr + 16 <= a
    requires (s.mem[a] == 0 && a < bs[k].Footer()) || (k + 1 < |bs| && !bs[k + 1].used && a == bs[k + 1].addr + 12)
    ensures bs[k].addr in s.headers
    ensures UnifyRight(s, bs[k].addr, bs[k].Footer()).mem[a] == 0
  {
    hide MergeRight, Tagged, UnifyRight;
    RightRewrites(s, bs, k);
    if k + 1 < |bs| && !bs[k + 1].used {
      RightState(s, bs, k);
      BlockNeighbours(s, bs, k + 1);
      BlockNeighbours(s, bs, k);
      MergeRightClears(s.mem, bs[k].addr, bs[k].Footer(), bs[k + 1].addr, bs[k + 1].Footer(), a);
    }
  }

  /** Block `i` is the one freed or one merged with it. */
  predicate Absorbed(bs: seq<Block>, k: nat, i: nat)
    requires k < |bs|
  {
    i < |bs| && (i == k || (i + 1 == k && !bs[i].used) || (i == k + 1 && !bs[i].used))
  }

  /** Every header swallowed by a merge loses its magic. */
  lemma UnifyClears(s: HeapState, bs: seq<Block>, k: nat, i: nat)
    requires Represents(s, bs) && k < |bs| && Absorbed(bs, k, i) && bs[i].addr != FreeLow(bs, k)
    ensures bs[i].Ok() && bs[k].addr in s.headers
    ensures Unify(s, bs[k].addr, bs[k].Footer()).mem[bs[i].addr + 12] == 0
  {
    hide UnifyLeft, UnifyRight, Tagged, Splice, Represents;
    IndexLengths(s, bs);
    BlockNeighbours(s, bs, i);
    BlockNeighbours(s, bs, k);
    JoinLeftStep(s, bs, k);
    var (s1, h1) := UnifyLeft(s, bs[k].addr, bs[k].Footer());
    var (cs, j) := JoinLeft(bs, k);
    BlockNeighbours(s1, cs, j);
    var a := bs[i].addr + 12;
    if i == k {
      LeftClears(s, bs, k);
    } else {
      assert cs[j + 1] == cs[j + 1..][0] == bs[k + 1..][0];
      BlockNeighbours(s1, cs, j + 1);
    }
    RightClears(s1, cs, j, a);
  }

  // ----- the block that a free leaves

  lemma FreedAt(bs: seq<Block>, lo: int, hi: int, k: nat)
    requires Tiles(bs, lo, hi) && k < |bs|
    ensures var (es, j) := (FreedBlocks(bs, k), JoinLeft(bs, k).1);
            && j < |es| && !es[j].used
            && es[j].addr == FreeLow(bs, k) && es[j].End() == FreeHigh(bs, k)
  {
    var (cs, j) := JoinLeft(bs, k);
    LeftJoined(bs, k);
    var ds := JoinRight(cs, j);
    if k + 1 < |bs| { assert cs[j + 1] == cs[j + 1..][0] == bs[k + 1..][0]; }
    assert |cs[j + 1..]| == |bs[k + 1..]|;
    assert ds[j].addr == FreeLow(bs, k) && ds[j].End() == FreeHigh(bs, k);
  }

  /** After a `free` the freed block and its free neighbours are one free block: its
      bytes can be handed out again. */
  lemma FreeReleases(s: HeapState, k: nat) returns (j: nat)
    requires Good(s) && k < |Blocks(s)|
    ensures var (bs, s') := (Blocks(s), Apply(s, FreeOp(Blocks(s)[k].Payload())));
            && Good(s') && j < |Blocks(s')| && !Blocks(s')[j].used
            && Blocks(s')[j].addr == FreeLow(bs, k) <= bs[k].addr && bs[k].End() <= FreeHigh(bs, k) == Blocks(s')[j].End()
  {
    hide Free, FreeAccepts, FreedBlocks, Tagged, Indexes;
    var bs := Blocks(s);
    FreeFrees(s, k);
    FreedCoalesced(bs, k);
    FreedAt(bs, s.start, s.end, k);
    j := JoinLeft(bs, k).1;
  }

  /** Freeing a second time the block just freed, or any block that was merged with
      it, changes nothing. */
  lemma FreeAgainIsIdle(s: HeapState, k: nat, i: nat)
    requires Good(s) && k < |Blocks(s)| && Absorbed(Blocks(s), k, i)
    ensures Blocks(s)[i].Ok() && Blocks(s)[k].Ok()
    ensures var (p, q) := (Blocks(s)[k].Payload(), Blocks(s)[i].Payload());
            && FreeAccepts(s, p)
            && FreeAccepts(Free(s, p), q) && Free(Free(s, p), q) == Free(s, p)
  {
    hide Good, Free, FreeAccepts, FreedBlocks, Represents, Intact, Blocks;
    var bs := Blocks(s);
    GoodOk(s, k);
    GoodOk(s, i);
    FreeState(s, bs, k);
    if bs[i].addr == FreeLow(bs, k) {
      var j := FreeReleases(s, k);
      DoubleFreeIsIdle(Free(s, bs[k].Payload()), j);
    } else {
      SwallowedIsRefused(s, bs, k, i);
    }
  }

  lemma SwallowedIsRefused(s: HeapState, bs: seq<Block>, k: nat, i: nat)
    requires Represents(s, bs) && k < |bs| && Absorbed(bs, k, i) && bs[i].addr != FreeLow(bs, k)
    ensures bs[i].Ok() && bs[k].Ok() && FreeAccepts(s, bs[k].Payload())
    ensures var s' := Free(s, bs[k].Payload());
            FreeAccepts(s', bs[i].Payload()) && Free(s', bs[i].Payload()) == s'
  {
    hide Free, FreeAccepts, Represents, Intact, Unify, FreeLow;
    FreeState(s, bs, k);
    IndexLengths(s, bs);
    UnifyClears(s, bs, k, i);
    var s' := Free(s, bs[k].Payload());
    var h := bs[i].addr;
    NotIntact(s'.mem, h, s'.mem[Add32(h, 4)]);
    DamageIsRefused(s', 0, h + 16, 0);
  }

  lemma GoodOk(s: HeapState, k: nat)
    requires Good(s) && k < |Blocks(s)|
    ensures Represents(s, Blocks(s)) && Blocks(s)[k].Ok()
  {
  }

  lemma NotIntact(m: Memory, h: U32, f: U32)
    requires h + 12 < TWO32 && m[h + 12] == 0
    ensures !Intact(m, h, f)
  {
  }
}
