/** The abstract heap: a list of blocks that tiles the heap region, and what it
    means for tags and index arrays to represent it. */
module HeapBlocks {
  import opened Machine
  import opened OrderedArrays
  import opened HeapModel

  /** A block owns [addr, addr + 32 + size): header, payload, footer. */
  datatype Block = Block(addr: int, size: int, used: bool) {
    function Footer(): int { addr + 16 + size }
    function End(): int { addr + 32 + size }
    function Payload(): int { addr + 16 }
    predicate Ok() { 0 <= addr && 0 <= size && End() < TWO32 }
    ghost predicate Holds(a: int) { Payload() <= a < Payload() + size }
  }

  /** The tags of `b` are in memory and point at each other. */
  predicate Tagged(m: Memory, b: Block) {
    && b.Ok()
    && HeaderSize(m, b.addr) == b.size
    && HeaderUsed(m, b.addr) == (if b.used then 1 else 0)
    && Checks(m, b.addr, b.Footer())
  }

  ghost predicate Tiles(bs: seq<Block>, lo: int, hi: int) {
    && bs != []
    && bs[0].addr == lo
    && bs[|bs| - 1].End() == hi
    && (forall i :: 0 <= i < |bs| ==> bs[i].Ok())
    && forall i, j :: 0 <= i && j == i + 1 && j < |bs| ==> bs[i].End() == bs[j].addr
  }

  /** The index arrays list the headers and footers, in block order. */
  ghost predicate Indexes(headers: seq<U32>, footers: seq<U32>, bs: seq<Block>) {
    && |headers| == |footers| == |bs|
    && (forall i :: 0 <= i < |bs| ==> headers[i] == bs[i].addr)
    && (forall i :: 0 <= i < |bs| ==> footers[i] == bs[i].Footer())
  }

  /** Tags and index arrays agree with the block list. */
  ghost predicate Represents(s: HeapState, bs: seq<Block>) {
    && Tiles(bs, s.start, s.end)
    && Indexes(s.headers, s.footers, bs)
    && |bs| <= INDEX_CAPACITY
    && (forall i :: 0 <= i < |bs| ==> Tagged(s.mem, bs[i]))
    && s.magic == MAGIC64
  }

  /** The block list a state describes, read off the header tags. */
  function Blocks(s: HeapState): seq<Block> {
    seq(|s.headers|, i requires 0 <= i < |s.headers| =>
      Block(s.headers[i], HeaderSize(s.mem, s.headers[i]), HeaderUsed(s.mem, s.headers[i]) != 0))
  }

  ghost predicate Aligned(bs: seq<Block>) {
    forall i :: 0 <= i < |bs| ==> bs[i].addr % 16 == 0 && bs[i].size % 16 == 0
  }

  ghost predicate WellFormed(s: HeapState) { Represents(s, Blocks(s)) && Aligned(Blocks(s)) }

  /** No two neighbours are both free. */
  ghost predicate Coalesced(bs: seq<Block>) {
    forall i, j :: 0 <= i && j == i + 1 && j < |bs| ==> bs[i].used || bs[j].used
  }

  lemma RepresentedBlocks(s: HeapState, bs: seq<Block>)
    requires Represents(s, bs)
    ensures bs == Blocks(s)
  {
  }

  // ----- geometry of a tiling

  lemma {:induction false} Ascending(bs: seq<Block>, lo: int, hi: int, i: int, j: int)
    requires Tiles(bs, lo, hi)
    requires 0 <= i < j < |bs|
    ensures bs[i].End() <= bs[j].addr
    decreases j
  {
    if i + 1 < j {
      Ascending(bs, lo, hi, i, j - 1);
      assert bs[j - 1].End() == bs[j].addr;
    }
  }

  function TotalSpan(bs: seq<Block>): int {
    if bs == [] then 0 else TotalSpan(bs[..|bs| - 1]) + bs[|bs| - 1].size + 32
  }

  /** Sizes plus 32 bytes of tags per block add up to the whole region. */
  lemma {:induction false} TilesSpan(bs: seq<Block>, lo: int, hi: int)
    requires Tiles(bs, lo, hi)
    ensures TotalSpan(bs) == hi - lo
  {
    var n := |bs| - 1;
    if n > 0 {
      assert bs[n - 1].End() == bs[n].addr;
      TilesSpan(bs[..n], lo, bs[n].addr);
    }
  }

  /** Every address of the region lies in exactly one block. */
  lemma {:induction false} TilesCover(bs: seq<Block>, lo: int, hi: int, a: int) returns (i: int)
    requires Tiles(bs, lo, hi)
    requires lo <= a < hi
    ensures 0 <= i < |bs| && bs[i].addr <= a < bs[i].End()
    ensures forall j :: 0 <= j < |bs| && j != i ==> !(bs[j].addr <= a < bs[j].End())
  {
    i := 0;
    while !(a < bs[i].End())
      invariant 0 <= i < |bs| && bs[i].addr <= a
      decreases |bs| - i
    {
      assert bs[i].End() == bs[i + 1].addr;
      i := i + 1;
    }
    forall j | 0 <= j < |bs| && j != i ensures !(bs[j].addr <= a < bs[j].End()) {
      if j < i { Ascending(bs, lo, hi, j, i); } else { Ascending(bs, lo, hi, i, j); }
    }
  }

  // ----- replacing a stretch of blocks: splits, merges and marks are all this

  function Splice<T>(s: seq<T>, i: nat, j: nat, mid: seq<T>): (r: seq<T>)
    requires i <= j <= |s|
    ensures |r| == |s| - (j - i) + |mid|
  {
    s[..i] + mid + s[j..]
  }

  lemma SpliceAt<T>(s: seq<T>, i: nat, j: nat, mid: seq<T>, k: nat)
    requires i <= j <= |s| && k < |s| - (j - i) + |mid|
    ensures Splice(s, i, j, mid)[k] ==
            if k < i then s[k] else if k < i + |mid| then mid[k - i] else s[k - |mid| + (j - i)]
  {
  }

  lemma SpliceTiles(bs: seq<Block>, lo: int, hi: int, i: nat, j: nat, mid: seq<Block>)
    requires Tiles(bs, lo, hi)
    requires i < j <= |bs|
    requires Tiles(mid, bs[i].addr, bs[j - 1].End())
    ensures Tiles(Splice(bs, i, j, mid), lo, hi)
  {
  }

  // ----- tags in memory

  lemma HeaderKept(m: Memory, m': Memory, lo: int, hi: int, h: U32)
    requires SameOutside(m, m', lo, hi)
    requires h + 16 <= TWO32 && (h + 16 <= lo || hi <= h)
    ensures HeaderSize(m', h) == HeaderSize(m, h) && HeaderFooter(m', h) == HeaderFooter(m, h)
    ensures HeaderUsed(m', h) == HeaderUsed(m, h) && HeaderMagic(m', h) == HeaderMagic(m, h)
  {
  }

  lemma FooterKept(m: Memory, m': Memory, lo: int, hi: int, f: U32)
    requires SameOutside(m, m', lo, hi)
    requires f + 16 <= TWO32 && (f + 16 <= lo || hi <= f)
    ensures FooterHeader(m', f) == FooterHeader(m, f) && FooterMagic(m', f) == FooterMagic(m, f)
  {
  }

  lemma HeaderStored(m: Memory, h: U32, size: U32, footer: U32, used: U32, magic: U32)
    requires h + 16 <= TWO32
    ensures var m' := StoreHeader(m, h, size, footer, used, magic);
            && SameOutside(m, m', h, h + 16)
            && HeaderSize(m', h) == size && HeaderFooter(m', h) == footer
            && HeaderUsed(m', h) == used && HeaderMagic(m', h) == magic
  {
  }

  lemma FooterStored(m: Memory, f: U32, header: U32, word: U32)
    requires f + 16 <= TWO32
    ensures var m' := StoreFooter(m, f, header, word);
            && SameOutside(m, m', f, f + 16)
            && FooterHeader(m', f) == header && FooterMagic(m', f) == word + 0x1_0000_0000 * word
  {
  }

  lemma TaggedOutside(m: Memory, m': Memory, lo: int, hi: int, b: Block)
    requires SameOutside(m, m', lo, hi)
    requires Tagged(m, b) && (b.End() <= lo || hi <= b.addr)
    ensures Tagged(m', b)
  {
  }

  ghost predicate AllOk(bs: seq<Block>) { forall i :: 0 <= i < |bs| ==> bs[i].Ok() }

  ghost function Addresses(bs: seq<Block>): seq<U32>
    requires AllOk(bs)
  {
    seq(|bs|, i requires 0 <= i < |bs| => bs[i].addr)
  }

  ghost function Footers(bs: seq<Block>): seq<U32>
    requires AllOk(bs)
  {
    seq(|bs|, i requires 0 <= i < |bs| => bs[i].Footer())
  }

  lemma SpliceIndexes(headers: seq<U32>, footers: seq<U32>, headers': seq<U32>, footers': seq<U32>,
                      bs: seq<Block>, i: nat, j: nat, mid: seq<Block>)
    requires Indexes(headers, footers, bs) && i <= j <= |bs| && AllOk(mid)
    requires headers' == Splice<U32>(headers, i, j, Addresses(mid))
    requires footers' == Splice<U32>(footers, i, j, Footers(mid))
    ensures Indexes(headers', footers', Splice(bs, i, j, mid))
  {
  }

  /** `s'` is `s` with the tags of blocks i..j rewritten to describe `mid`. */
  ghost predicate Rewritten(s: HeapState, s': HeapState, bs: seq<Block>, i: nat, j: nat, mid: seq<Block>)
    requires Represents(s, bs) && i < j <= |bs|
  {
    && Tiles(mid, bs[i].addr, bs[j - 1].End())
    && SameOutside(s.mem, s'.mem, bs[i].addr, bs[j - 1].End())
    && (forall k :: 0 <= k < |mid| ==> Tagged(s'.mem, mid[k]))
    && s'.headers == Splice<U32>(s.headers, i, j, Addresses(mid))
    && s'.footers == Splice<U32>(s.footers, i, j, Footers(mid))
    && |s'.headers| <= INDEX_CAPACITY
    && s' == s.(mem := s'.mem, headers := s'.headers, footers := s'.footers)
  }

  lemma RewrittenTagged(s: HeapState, s': HeapState, bs: seq<Block>, i: nat, j: nat, mid: seq<Block>, k: nat)
    requires Represents(s, bs) && i < j <= |bs|
    requires Rewritten(s, s', bs, i, j, mid)
    requires k < |Splice(bs, i, j, mid)|
    ensures Tagged(s'.mem, Splice(bs, i, j, mid)[k])
  {
    hide Tagged, Indexes, SameOutside, Splice;
    SpliceAt(bs, i, j, mid, k);
    if !(i <= k < i + |mid|) {
      var l := if k < i then k else k - |mid| + (j - i);
      if l < i { Ascending(bs, s.start, s.end, l, i); }
      if j <= l { Ascending(bs, s.start, s.end, j - 1, l); }
      assert Tagged(s.mem, bs[l]);
      TaggedOutside(s.mem, s'.mem, bs[i].addr, bs[j - 1].End(), bs[l]);
    }
  }

  /** The one lemma behind every heap update: a local rewrite of tags is a
      splice of the block list. */
  lemma RewrittenRepresents(s: HeapState, s': HeapState, bs: seq<Block>, i: nat, j: nat, mid: seq<Block>)
    requires Represents(s, bs) && i < j <= |bs|
    requires Rewritten(s, s', bs, i, j, mid)
    ensures Represents(s', Splice(bs, i, j, mid))
  {
    hide Tagged, Indexes, SameOutside;
    var r := Splice(bs, i, j, mid);
    SpliceTiles(bs, s.start, s.end, i, j, mid);
    SpliceIndexes(s.headers, s.footers, s'.headers, s'.footers, bs, i, j, mid);
    forall k | 0 <= k < |r| ensures Tagged(s'.mem, r[k]) {
      RewrittenTagged(s, s', bs, i, j, mid, k);
    }
  }
}
