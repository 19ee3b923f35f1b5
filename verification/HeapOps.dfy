/** What `alloc` and `free` do to the block list, and when they keep it. */
module HeapOps {
  import opened Machine
  import opened OrderedArrays
  import opened HeapModel
  import opened HeapBlocks

  // ----- allocation from a block

  /** The blocks that replace `b` when `r` bytes are taken from it. */
  function Carve(b: Block, r: U32): seq<Block>
    requires b.Ok()
  {
    if TakesSplit(b.size, r) then
      [Block(b.addr, r, true), Block(b.addr + r + 32, b.size - r - 32, false)]
    else [b.(used := true)]
  }

  /** Room for what the split writes: a header, a footer and an index slot. */
  predicate SplitFits(blockSize: U32, r: U32, blocks: nat) {
    TakesSplit(blockSize, r) ==> r + 32 <= blockSize && blocks < INDEX_CAPACITY
  }

  /** Header words written by an update that leaves the magic alone. */
  lemma HeaderRestored(m: Memory, h: U32, size: U32, footer: U32, used: U32)
    requires h + 16 <= TWO32
    ensures var m' := Store(Store(Store(m, h, size), Add32(h, 4), footer), Add32(h, 8), used);
            && SameOutside(m, m', h, h + 16)
            && HeaderSize(m', h) == size && HeaderFooter(m', h) == footer
            && HeaderUsed(m', h) == used && HeaderMagic(m', h) == HeaderMagic(m, h)
  {
  }

  lemma FooterRepointed(m: Memory, f: U32, header: U32)
    requires f + 16 <= TWO32
    ensures var m' := Store(m, f, header);
            && SameOutside(m, m', f, f + 16)
            && FooterHeader(m', f) == header && FooterMagic(m', f) == FooterMagic(m, f)
  {
  }

  /** Four tag writes: the footer at `nf`, the header at `nh`, the back pointer
      of the footer of `b`, and the header of `b`. */
  ghost predicate SplitSteps(m0: Memory, m1: Memory, m2: Memory, m3: Memory, m4: Memory,
                             b: Block, r: U32, nf: U32, nh: U32)
    requires b.Ok()
  {
    var h, f := b.addr, b.Footer();
    && SameOutside(m0, m1, nf, nf + 16) && FooterHeader(m1, nf) == h && FooterMagic(m1, nf) == MAGIC64
    && SameOutside(m1, m2, nh, nh + 16) && HeaderSize(m2, nh) == b.size - r - 32
    && HeaderFooter(m2, nh) == f && HeaderUsed(m2, nh) == 0 && HeaderMagic(m2, nh) == MAGIC32
    && SameOutside(m2, m3, f, f + 16) && FooterHeader(m3, f) == nh && FooterMagic(m3, f) == FooterMagic(m2, f)
    && SameOutside(m3, m4, h, h + 16) && HeaderSize(m4, h) == r
    && HeaderFooter(m4, h) == nf && HeaderUsed(m4, h) == 1 && HeaderMagic(m4, h) == HeaderMagic(m3, h)
  }

  lemma SplitMemorySteps(m0: Memory, b: Block, r: U32, nf: U32, nh: U32)
    returns (m1: Memory, m2: Memory, m3: Memory)
    requires Tagged(m0, b)
    requires r + 32 <= b.size && nf == b.addr + r + 16 && nh == nf + 16
    ensures SplitSteps(m0, m1, m2, m3, SplitMemory(m0, b.addr, b.Footer(), r, nf, nh), b, r, nf, nh)
  {
    hide StoreFooter, StoreHeader;
    var h, f := b.addr, b.Footer();
    m1 := StoreFooter(m0, nf, h, MAGIC32);
    FooterStored(m0, nf, h, MAGIC32);
    HeaderKept(m0, m1, nf, nf + 16, h);
    m2 := StoreHeader(m1, nh, b.size - (r + 32), f, 0, MAGIC32);
    HeaderStored(m1, nh, b.size - (r + 32), f, 0, MAGIC32);
    m3 := Store(m2, f, nh);
    FooterRepointed(m2, f, nh);
    HeaderRestored(m3, h, r, nf, 1);
  }

  lemma CarveTags(m0: Memory, m1: Memory, m2: Memory, m3: Memory, m4: Memory, b: Block, r: U32, nf: U32, nh: U32)
    requires Tagged(m0, b)
    requires r + 32 <= b.size && nf == b.addr + r + 16 && nh == nf + 16
    requires SplitSteps(m0, m1, m2, m3, m4, b, r, nf, nh)
    ensures SameOutside(m0, m4, b.addr, b.End())
    ensures Tagged(m4, Block(b.addr, r, true))
    ensures Tagged(m4, Block(nh, b.size - r - 32, false))
  {
    var h, f := b.addr, b.Footer();
    HeaderKept(m0, m1, nf, nf + 16, h);
    HeaderKept(m1, m2, nh, nh + 16, h);
    HeaderKept(m2, m3, f, f + 16, h);
    HeaderKept(m2, m3, f, f + 16, nh);
    HeaderKept(m3, m4, h, h + 16, nh);
    FooterKept(m0, m1, nf, nf + 16, f);
    FooterKept(m1, m2, nh, nh + 16, f);
    FooterKept(m3, m4, h, h + 16, f);
    FooterKept(m1, m2, nh, nh + 16, nf);
    FooterKept(m2, m3, f, f + 16, nf);
    FooterKept(m3, m4, h, h + 16, nf);
  }

  lemma CarveMemory(m0: Memory, b: Block, r: U32)
    requires Tagged(m0, b) && r + 32 <= b.size
    ensures var m' := SplitMemory(m0, b.addr, b.Footer(), r, b.addr + r + 16, b.addr + r + 32);
            && SameOutside(m0, m', b.addr, b.End())
            && Tagged(m', Block(b.addr, r, true))
            && Tagged(m', Block(b.addr + r + 32, b.size - r - 32, false))
  {
    var nf, nh := b.addr + r + 16, b.addr + r + 32;
    var m4 := SplitMemory(m0, b.addr, b.Footer(), r, nf, nh);
    var m1, m2, m3 := SplitMemorySteps(m0, b, r, nf, nh);
    CarveTags(m0, m1, m2, m3, m4, b, r, nf, nh);
  }

  lemma InsertSplitHeader(s: seq<U32>, v: U32, k: nat)
    requires k < |s| && s[k] <= v && forall j :: k < j < |s| ==> v < s[j]
    ensures Inserted(s, v) == Splice<U32>(s, k, k + 1, [s[k], v])
  {
    InsertedSplices(s, v, k + 1);
    assert s[..k + 1] == s[..k] + [s[k]];
  }

  lemma InsertSplitFooter(s: seq<U32>, v: U32, k: nat)
    requires k < |s| && (k > 0 ==> s[k - 1] <= v) && forall j :: k <= j < |s| ==> v < s[j]
    ensures Inserted(s, v) == Splice<U32>(s, k, k + 1, [v, s[k]])
  {
    InsertedSplices(s, v, k);
    assert s[k..] == [s[k]] + s[k + 1..];
  }

  lemma CarveIndexes(headers: seq<U32>, footers: seq<U32>, bs: seq<Block>, lo: int, hi: int, k: nat, r: U32)
    requires Indexes(headers, footers, bs) && Tiles(bs, lo, hi)
    requires k < |bs| && r + 32 <= bs[k].size
    ensures Inserted(headers, bs[k].addr + r + 32)
            == Splice<U32>(headers, k, k + 1, [bs[k].addr, bs[k].addr + r + 32])
    ensures Inserted(footers, bs[k].addr + r + 16)
            == Splice<U32>(footers, k, k + 1, [bs[k].addr + r + 16, bs[k].Footer()])
  {
    var b := bs[k];
    assert headers[k] == b.addr && footers[k] == b.Footer();
    forall j | k < j < |bs| ensures b.End() <= headers[j] && b.End() <= footers[j] {
      Ascending(bs, lo, hi, k, j);
    }
    InsertSplitHeader(headers, b.addr + r + 32, k);
    if k > 0 { assert footers[k - 1] <= bs[k - 1].End() == b.addr; }
    InsertSplitFooter(footers, b.addr + r + 16, k);
  }

  lemma SpliceSame<T>(s: seq<T>, k: nat)
    requires k < |s|
    ensures Splice(s, k, k + 1, [s[k]]) == s
  {
  }

  function Bit(used: bool): U32 { if used then 1 else 0 }

  lemma MarkTags(m: Memory, b: Block, used: bool)
    requires Tagged(m, b)
    ensures var m' := Store(m, Add32(b.addr, 8), Bit(used));
            SameOutside(m, m', b.addr, b.End()) && Tagged(m', b.(used := used))
  {
  }

  /** Writing the `used` word of block `k` flips its mark and nothing else. */
  lemma MarkRewrites(s: HeapState, s': HeapState, bs: seq<Block>, k: nat, used: bool)
    requires Represents(s, bs) && k < |bs|
    requires s' == s.(mem := Store(s.mem, Add32(bs[k].addr, 8), Bit(used)))
    ensures Rewritten(s, s', bs, k, k + 1, [bs[k].(used := used)])
  {
    hide Tagged, SameOutside, Splice;
    var mid := [bs[k].(used := used)];
    assert Tagged(s.mem, bs[k]);
    MarkTags(s.mem, bs[k], used);
    assert Addresses(mid) == [s.headers[k]];
    assert Footers(mid) == [s.footers[k]];
    SpliceSame(s.headers, k);
    SpliceSame(s.footers, k);
  }

  lemma SplitIsRewrite(s: HeapState, s': HeapState, bs: seq<Block>, k: nat, r: U32)
    requires Represents(s, bs) && k < |bs| < INDEX_CAPACITY
    requires r + 32 <= bs[k].size && TakesSplit(bs[k].size, r)
    requires SameOutside(s.mem, s'.mem, bs[k].addr, bs[k].End())
    requires Tagged(s'.mem, Carve(bs[k], r)[0]) && Tagged(s'.mem, Carve(bs[k], r)[1])
    requires s'.headers == Inserted(s.headers, bs[k].addr + r + 32)
    requires s'.footers == Inserted(s.footers, bs[k].addr + r + 16)
    requires s' == s.(mem := s'.mem, headers := s'.headers, footers := s'.footers)
    ensures Rewritten(s, s', bs, k, k + 1, Carve(bs[k], r))
  {
    hide Inserted, Tagged, SameOutside, Splice;
    var mid := Carve(bs[k], r);
    CarveIndexes(s.headers, s.footers, bs, s.start, s.end, k, r);
    assert Addresses(mid) == [bs[k].addr, bs[k].addr + r + 32];
    assert Footers(mid) == [bs[k].addr + r + 16, bs[k].Footer()];
  }

  lemma SplitState(s: HeapState, h: U32, f: U32, r: U32)
    requires TakesSplit(HeaderSize(s.mem, h), r) && h + r + 32 < TWO32
    requires |s.headers| == |s.footers| < INDEX_CAPACITY
    ensures var s' := AllocFromBlock(s, h, f, r);
            && s'.mem == SplitMemory(s.mem, h, f, r, h + r + 16, h + r + 32)
            && s'.headers == Inserted(s.headers, h + r + 32)
            && s'.footers == Inserted(s.footers, h + r + 16)
            && s' == s.(mem := s'.mem, headers := s'.headers, footers := s'.footers)
  {
  }

  /** Taking `r` bytes from block `k` rewrites exactly that block's tags. */
  lemma CarveRewrites(s: HeapState, s': HeapState, bs: seq<Block>, k: nat, r: U32)
    requires Represents(s, bs) && k < |bs|
    requires r <= bs[k].size && SplitFits(bs[k].size, r, |bs|)
    requires s' == AllocFromBlock(s, bs[k].addr, bs[k].Footer(), r)
    ensures Rewritten(s, s', bs, k, k + 1, Carve(bs[k], r))
  {
    hide SplitMemory, Inserted, Tiles;
    var b := bs[k];
    assert Tagged(s.mem, b);
    if TakesSplit(b.size, r) {
      SplitState(s, b.addr, b.Footer(), r);
      CarveMemory(s.mem, b, r);
      SplitIsRewrite(s, s', bs, k, r);
    } else {
      MarkRewrites(s, s', bs, k, true);
    }
  }

  // ----- merging neighbours

  function Joined(a: Block, b: Block): Block { Block(a.addr, a.size + b.size + 32, a.used) }

  lemma AbsorbTags(m: Memory, a: Block, b: Block)
    requires Tagged(m, a) && Tagged(m, b) && a.End() == b.addr
    ensures var m' := Absorb(m, a.addr, a.size + b.size + 32, b.Footer());
            && SameOutside(m, m', a.addr, b.End())
            && Tagged(m', Joined(a, b))
  {
  }

  /** Clearing the two tags between joined blocks touches only their payload. */
  lemma ClearTags(m0: Memory, m1: Memory, m2: Memory, m3: Memory, a: Block, b: Block, x: int, y: int)
    requires a.Ok() && b.Ok() && a.End() == b.addr
    requires SameOutside(m0, m1, a.addr, b.End()) && Tagged(m1, Joined(a, b))
    requires a.Footer() <= x && x + 16 <= b.Payload() && SameOutside(m1, m2, x, x + 16)
    requires a.Footer() <= y && y + 16 <= b.Payload() && SameOutside(m2, m3, y, y + 16)
    ensures SameOutside(m0, m3, a.addr, b.End()) && Tagged(m3, Joined(a, b))
  {
  }

  lemma SpliceJoined(headers: seq<U32>, footers: seq<U32>, k: nat)
    requires k + 1 < |headers| == |footers|
    ensures Removed(headers, k + 1) == Splice<U32>(headers, k, k + 2, [headers[k]])
    ensures Removed(footers, k) == Splice<U32>(footers, k, k + 2, [footers[k + 1]])
  {
  }

  lemma JoinRewrites(s: HeapState, s': HeapState, bs: seq<Block>, k: nat)
    requires Represents(s, bs) && k + 1 < |bs|
    requires SameOutside(s.mem, s'.mem, bs[k].addr, bs[k + 1].End())
    requires Tagged(s'.mem, Joined(bs[k], bs[k + 1]))
    requires s' == s.(mem := s'.mem, headers := Removed(s.headers, k + 1), footers := Removed(s.footers, k))
    ensures Rewritten(s, s', bs, k, k + 2, [Joined(bs[k], bs[k + 1])])
  {
    hide Tagged, SameOutside, Splice, Removed;
    var mid := [Joined(bs[k], bs[k + 1])];
    assert bs[k].End() == bs[k + 1].addr;
    assert Addresses(mid) == [s.headers[k]];
    assert Footers(mid) == [s.footers[k + 1]];
    SpliceJoined(s.headers, s.footers, k);
  }

  lemma IndexIn(headers: seq<U32>, footers: seq<U32>, bs: seq<Block>, lo: int, hi: int, k: nat)
    requires Indexes(headers, footers, bs) && Tiles(bs, lo, hi) && k < |bs|
    ensures IndexOf(headers, bs[k].addr) == k
  {
    var i := IndexOf(headers, bs[k].addr);
    assert headers[k] == bs[k].addr;
    if i < k { Ascending(bs, lo, hi, i, k); }
  }

  lemma LeftMemory(m: Memory, a: Block, b: Block)
    requires Tagged(m, a) && Tagged(m, b) && a.End() == b.addr
    ensures var m' := MergeLeft(m, a.addr, a.Footer(), b.addr, b.Footer());
            SameOutside(m, m', a.addr, b.End()) && Tagged(m', Joined(a, b))
  {
    hide Absorb, StoreHeader, StoreFooter;
    var m1 := Absorb(m, a.addr, a.size + b.size + 32, b.Footer());
    AbsorbTags(m, a, b);
    var m2 := StoreHeader(m1, b.addr, 0, 0, 0, 0);
    HeaderStored(m1, b.addr, 0, 0, 0, 0);
    FooterStored(m2, a.Footer(), 0, 0);
    ClearTags(m, m1, m2, StoreFooter(m2, a.Footer(), 0, 0), a, b, b.addr, a.Footer());
  }

  lemma RightMemory(m: Memory, a: Block, b: Block)
    requires Tagged(m, a) && Tagged(m, b) && a.End() == b.addr
    ensures var m' := MergeRight(m, a.addr, a.Footer(), b.addr, b.Footer());
            SameOutside(m, m', a.addr, b.End()) && Tagged(m', Joined(a, b))
  {
    hide Absorb, StoreHeader, StoreFooter;
    var m1 := Absorb(m, a.addr, a.size + b.size + 32, b.Footer());
    AbsorbTags(m, a, b);
    var m2 := StoreFooter(m1, a.Footer(), 0, 0);
    FooterStored(m1, a.Footer(), 0, 0);
    HeaderStored(m2, b.addr, 0, 0, 0, 0);
    ClearTags(m, m1, m2, StoreHeader(m2, b.addr, 0, 0, 0, 0), a, b, a.Footer(), b.addr);
  }

  lemma LeftState(s: HeapState, bs: seq<Block>, k: nat)
    requires Represents(s, bs) && 0 < k < |bs| && !bs[k - 1].used
    ensures bs[k].addr in s.headers
    ensures var (s', h) := UnifyLeft(s, bs[k].addr, bs[k].Footer());
            && h == bs[k - 1].addr
            && s'.mem == MergeLeft(s.mem, bs[k - 1].addr, bs[k - 1].Footer(), bs[k].addr, bs[k].Footer())
            && s' == s.(mem := s'.mem, headers := Removed(s.headers, k), footers := Removed(s.footers, k - 1))
  {
    IndexIn(s.headers, s.footers, bs, s.start, s.end, k);
    assert s.headers[k] == bs[k].addr && Tagged(s.mem, bs[k - 1]);
  }

  lemma RightState(s: HeapState, bs: seq<Block>, k: nat)
    requires Represents(s, bs) && k + 1 < |bs| && !bs[k + 1].used
    ensures bs[k].addr in s.headers
    ensures var s' := UnifyRight(s, bs[k].addr, bs[k].Footer());
            && s'.mem == MergeRight(s.mem, bs[k].addr, bs[k].Footer(), bs[k + 1].addr, bs[k + 1].Footer())
            && s' == s.(mem := s'.mem, headers := Removed(s.headers, k + 1), footers := Removed(s.footers, k))
  {
    IndexIn(s.headers, s.footers, bs, s.start, s.end, k);
    assert s.headers[k] == bs[k].addr && Tagged(s.mem, bs[k + 1]);
  }

  lemma LeftJoins(s: HeapState, s': HeapState, bs: seq<Block>, k: nat)
    requires Represents(s, bs) && 0 < k < |bs|
    requires s'.mem == MergeLeft(s.mem, bs[k - 1].addr, bs[k - 1].Footer(), bs[k].addr, bs[k].Footer())
    requires s' == s.(mem := s'.mem, headers := Removed(s.headers, k), footers := Removed(s.footers, k - 1))
    ensures Rewritten(s, s', bs, k - 1, k + 1, [Joined(bs[k - 1], bs[k])])
  {
    assert Tagged(s.mem, bs[k - 1]) && Tagged(s.mem, bs[k]) && bs[k - 1].End() == bs[k].addr;
    LeftMemory(s.mem, bs[k - 1], bs[k]);
    JoinRewrites(s, s', bs, k - 1);
  }

  lemma RightJoins(s: HeapState, s': HeapState, bs: seq<Block>, k: nat)
    requires Represents(s, bs) && k + 1 < |bs|
    requires s'.mem == MergeRight(s.mem, bs[k].addr, bs[k].Footer(), bs[k + 1].addr, bs[k + 1].Footer())
    requires s' == s.(mem := s'.mem, headers := Removed(s.headers, k + 1), footers := Removed(s.footers, k))
    ensures Rewritten(s, s', bs, k, k + 2, [Joined(bs[k], bs[k + 1])])
  {
    assert Tagged(s.mem, bs[k]) && Tagged(s.mem, bs[k + 1]) && bs[k].End() == bs[k + 1].addr;
    RightMemory(s.mem, bs[k], bs[k + 1]);
    JoinRewrites(s, s', bs, k);
  }

  /** `unify_left` joins block `k` into its left neighbour exactly when there is
      one and it is free. */
  lemma LeftRewrites(s: HeapState, bs: seq<Block>, k: nat)
    requires Represents(s, bs) && k < |bs|
    ensures bs[k].addr in s.headers
    ensures var (s', h) := UnifyLeft(s, bs[k].addr, bs[k].Footer());
            if k > 0 && !bs[k - 1].used then
              h == bs[k - 1].addr && Rewritten(s, s', bs, k - 1, k + 1, [Joined(bs[k - 1], bs[k])])
            else
              h == bs[k].addr && s' == s
  {
    if k > 0 && !bs[k - 1].used {
      LeftState(s, bs, k);
      LeftJoins(s, UnifyLeft(s, bs[k].addr, bs[k].Footer()).0, bs, k);
    } else {
      IndexIn(s.headers, s.footers, bs, s.start, s.end, k);
      assert s.headers[k] == bs[k].addr && (k > 0 ==> Tagged(s.mem, bs[k - 1]));
    }
  }

  /** `unify_right`, the same on the other side. */
  lemma RightRewrites(s: HeapState, bs: seq<Block>, k: nat)
    requires Represents(s, bs) && k < |bs|
    ensures bs[k].addr in s.headers
    ensures var s' := UnifyRight(s, bs[k].addr, bs[k].Footer());
            if k + 1 < |bs| && !bs[k + 1].used then
              Rewritten(s, s', bs, k, k + 2, [Joined(bs[k], bs[k + 1])])
            else
              s' == s
  {
    if k + 1 < |bs| && !bs[k + 1].used {
      RightState(s, bs, k);
      RightJoins(s, UnifyRight(s, bs[k].addr, bs[k].Footer()), bs, k);
    } else {
      IndexIn(s.headers, s.footers, bs, s.start, s.end, k);
      assert s.headers[k] == bs[k].addr && (k + 1 < |bs| ==> Tagged(s.mem, bs[k + 1]));
    }
  }
}
