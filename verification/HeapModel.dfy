/** The kernel heap of kernel/kernel/mm/kmm.c as functions of its whole state:
    the memory that holds the boundary tags and the two index arrays. Every
    function takes the branches of the C code, with 32-bit wrap-around, on any
    state at all; which states are well formed is the business of HeapBlocks. */
module HeapModel {
  import opened Machine
  import opened OrderedArrays

  const MAGIC32: U32 := 0xB10C_B10C
  const MAGIC64: nat := 0xB10C_B10C_B10C_B10C
  const INDEX_CAPACITY: nat := 4096
  const HEAP_BYTES: nat := 1024 * 4096
  const NULL: U32 := 0

  datatype HeapState = HeapState(
    mem: Memory, headers: seq<U32>, footers: seq<U32>,
    start: U32, end: U32, magic: nat)

  // Header: size, footer, used, magic. Footer: header, res, 64-bit magic.

  function HeaderSize(m: Memory, h: U32): U32 { Load(m, h) }
  function HeaderFooter(m: Memory, h: U32): U32 { Load(m, Add32(h, 4)) }
  function HeaderUsed(m: Memory, h: U32): U32 { Load(m, Add32(h, 8)) }
  function HeaderMagic(m: Memory, h: U32): U32 { Load(m, Add32(h, 12)) }
  function FooterHeader(m: Memory, f: U32): U32 { Load(m, f) }
  function FooterMagic(m: Memory, f: U32): nat {
    Load(m, Add32(f, 8)) + 0x1_0000_0000 * Load(m, Add32(f, 12))
  }

  function StoreHeader(m: Memory, h: U32, size: U32, footer: U32, used: U32, magic: U32): Memory {
    Store(Store(Store(Store(m, h, size), Add32(h, 4), footer), Add32(h, 8), used), Add32(h, 12), magic)
  }

  /** `word` is either half of the 64-bit magic, whose halves are equal. */
  function StoreFooter(m: Memory, f: U32, header: U32, word: U32): Memory {
    Store(Store(Store(Store(m, f, header), Add32(f, 4), 0), Add32(f, 8), word), Add32(f, 12), word)
  }

  function InsertIndex(s: seq<U32>, v: U32): seq<U32> {
    if |s| < INDEX_CAPACITY then Inserted(s, v) else s
  }

  predicate Prechecks(s: HeapState) {
    s.magic == MAGIC64 && |s.headers| == |s.footers|
  }

  predicate Checks(m: Memory, h: U32, f: U32) {
    && HeaderMagic(m, h) == MAGIC32
    && FooterMagic(m, f) == MAGIC64
    && HeaderFooter(m, h) == f
    && FooterHeader(m, f) == h
  }

  /** What intact tags are, word by word: the header ends in the 32-bit magic and names
      the footer, the footer ends in it twice and names the header. */
  ghost predicate Intact(m: Memory, h: U32, f: U32) {
    && m[Add32(h, 12)] == 0xB10C_B10C && m[Add32(h, 4)] == f
    && m[Add32(f, 8)] == m[Add32(f, 12)] == 0xB10C_B10C && m[f] == h
  }

  lemma ChecksIffIntact(m: Memory, h: U32, f: U32)
    ensures Checks(m, h, f) <==> Intact(m, h, f)
  {
  }

  /** The test at the head of `alloc_from_block`, wrapping subtraction and all. */
  predicate TakesSplit(blockSize: U32, size: U32) {
    size < Sub32(Sub32(Sub32(blockSize, 16), 16), 64)
  }

  /** The tags a split writes. */
  function SplitMemory(m: Memory, h: U32, f: U32, size: U32, newFooter: U32, newHeader: U32): Memory {
    var m1 := StoreFooter(m, newFooter, h, MAGIC32);
    var rest := Sub32(HeaderSize(m1, h), Add32(Add32(size, 16), 16));
    var m2 := StoreHeader(m1, newHeader, rest, f, 0, MAGIC32);
    var m3 := Store(m2, f, newHeader);
    Store(Store(Store(m3, h, size), Add32(h, 4), newFooter), Add32(h, 8), 1)
  }

  function AllocFromBlock(s: HeapState, h: U32, f: U32, size: U32): HeapState {
    if !TakesSplit(HeaderSize(s.mem, h), size) then
      s.(mem := Store(s.mem, Add32(h, 8), 1))
    else
      var newFooter := Add32(Add32(h, size), 16);
      var newHeader := Add32(newFooter, 16);
      s.(mem := SplitMemory(s.mem, h, f, size, newFooter, newHeader),
         headers := InsertIndex(s.headers, newHeader),
         footers := InsertIndex(s.footers, newFooter))
  }

  /** Stretch the block of header `left` to end at footer `f`. */
  function Absorb(m: Memory, left: U32, merged: U32, f: U32): Memory {
    Store(Store(Store(m, left, merged), Add32(left, 4), f), f, left)
  }

  function MergeLeft(m: Memory, prev: U32, prevFooter: U32, h: U32, f: U32): Memory {
    var merged := Add32(HeaderSize(m, prev), Add32(Add32(HeaderSize(m, h), 16), 16));
    StoreFooter(StoreHeader(Absorb(m, prev, merged, f), h, 0, 0, 0, 0), prevFooter, 0, 0)
  }

  function MergeRight(m: Memory, h: U32, f: U32, next: U32, nextFooter: U32): Memory {
    var merged := Add32(HeaderSize(m, h), Add32(Add32(HeaderSize(m, next), 16), 16));
    StoreHeader(StoreFooter(Absorb(m, h, merged, nextFooter), f, 0, 0), next, 0, 0, 0, 0)
  }

  /** Merge `h` into a free left neighbour; also the header that survives. */
  function UnifyLeft(s: HeapState, h: U32, f: U32): (r: (HeapState, U32))
    requires h in s.headers && |s.headers| == |s.footers|
    ensures r.1 in r.0.headers && |r.0.headers| == |r.0.footers|
  {
    var index := IndexOf(s.headers, h);
    if index == 0 then (s, h) else
    var prev := s.headers[index - 1];
    var prevFooter := HeaderFooter(s.mem, prev);
    if HeaderUsed(s.mem, prev) != 0 then (s, h) else
    RemovalKeeps(s.headers, index);
    (s.(mem := MergeLeft(s.mem, prev, prevFooter, h, f),
        headers := Removed(s.headers, index), footers := Removed(s.footers, index - 1)),
     prev)
  }

  function UnifyRight(s: HeapState, h: U32, f: U32): HeapState
    requires h in s.headers && |s.headers| == |s.footers|
  {
    var index := IndexOf(s.headers, h);
    if index == |s.headers| - 1 then s else
    var next := s.headers[index + 1];
    var nextFooter := HeaderFooter(s.mem, next);
    if HeaderUsed(s.mem, next) != 0 then s else
    s.(mem := MergeRight(s.mem, h, f, next, nextFooter),
       headers := Removed(s.headers, index + 1), footers := Removed(s.footers, index))
  }

  function Unify(s: HeapState, h: U32, f: U32): HeapState
    requires h in s.headers && |s.headers| == |s.footers|
  {
    var (s1, h1) := UnifyLeft(s, h, f);
    var s2 := UnifyRight(s1, h1, f);
    s2.(mem := Store(s2.mem, Add32(h1, 8), 0))
  }

  /** The element before a removed position is still listed. */
  lemma RemovalKeeps(s: seq<U32>, i: nat)
    requires i < |s|
    ensures i > 0 ==> s[i - 1] in Removed(s, i)
  {
  }

  /** `size` rounded up to a multiple of 16, modulo 2^32. */
  function Rounded(size: U32): (r: U32)
    ensures r % 16 == 0
    ensures if size <= 0xFFFF_FFF0 then size <= r < size + 16 else r == 0
  {
    if size % 16 != 0 then Add32(size, 16 - size % 16) else size
  }

  predicate Suitable(s: HeapState, i: nat, size: U32)
    requires i < |s.headers| == |s.footers|
  {
    && HeaderUsed(s.mem, s.headers[i]) == 0
    && size <= HeaderSize(s.mem, s.headers[i])
    && Checks(s.mem, s.headers[i], s.footers[i])
  }

  /** First suitable index from `i` on, or the length when there is none. */
  function Scan(s: HeapState, i: nat, size: U32): (k: nat)
    requires i <= |s.headers| == |s.footers|
    ensures i <= k <= |s.headers|
    ensures forall j :: i <= j < k ==> !Suitable(s, j, size)
    ensures k < |s.headers| ==> Suitable(s, k, size)
    decreases |s.headers| - i
  {
    if i == |s.headers| || Suitable(s, i, size) then i else Scan(s, i + 1, size)
  }

  function Alloc(s: HeapState, size: U32): (HeapState, U32) {
    if size == 0 || !Prechecks(s) then (s, NULL) else
    var r := Rounded(size);
    var k := Scan(s, 0, r);
    if k == |s.headers| then (s, NULL) else
    (AllocFromBlock(s, s.headers[k], s.footers[k], r), Add32(s.headers[k], 16))
  }

  /** A pointer `free` may be given: either its tags fail the checks, and then
      nothing happens, or its header is one of those listed. */
  predicate FreeAccepts(s: HeapState, p: U32) {
    var h := Sub32(p, 16);
    Prechecks(s) && Checks(s.mem, h, HeaderFooter(s.mem, h)) ==> h in s.headers
  }

  function Free(s: HeapState, p: U32): HeapState
    requires FreeAccepts(s, p)
  {
    var h := Sub32(p, 16);
    var f := HeaderFooter(s.mem, h);
    if !Prechecks(s) || !Checks(s.mem, h, f) then s else Unify(s, h, f)
  }

  /** `kheap_init` over a region of 1024 pages at `start`. */
  function InitialHeap(m: Memory, start: U32): HeapState
    requires start + HEAP_BYTES < TWO32
  {
    var end := start + HEAP_BYTES;
    var f := end - 16;
    var m1 := StoreHeader(m, start, end - (start + 32), f, 0, MAGIC32);
    HeapState(StoreFooter(m1, f, start, MAGIC32), [start], [f], start, end, MAGIC64)
  }
}
