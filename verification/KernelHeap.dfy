/** The kernel heap as the kernel runs it: tags are words of memory overwritten
    in place, index arrays are shifted in place, `alloc` scans with a loop. Each
    method is proved to do to the whole state what HeapModel says. */
module KernelHeap {
  import opened Machine
  import opened OrderedArrays
  import HeapModel
  import HeapSafety
  import opened HeapBlocks

  class KHeap {
    const mem: array<U32>
    const headerArray: OrderedArray
    const footerArray: OrderedArray
    var start: U32
    var end: U32
    var magic: nat

    ghost function Repr(): set<object>
      reads this
    {
      {this, mem, headerArray, headerArray.data, footerArray, footerArray.data}
    }

    ghost predicate Valid()
      reads Repr()
    {
      && mem.Length == TWO32
      && headerArray.Valid() && headerArray.data.Length == HeapModel.INDEX_CAPACITY
      && footerArray.Valid() && footerArray.data.Length == HeapModel.INDEX_CAPACITY
      && headerArray != footerArray && headerArray.data != footerArray.data
      && mem != headerArray.data && mem != footerArray.data
    }

    ghost function State(): HeapModel.HeapState
      requires Valid()
      reads Repr()
    {
      HeapModel.HeapState(mem[..], headerArray.Contents(), footerArray.Contents(), start, end, magic)
    }

    /** `kheap_init`: one free block over the 1024 pages at `start`. */
    constructor (mem: array<U32>, start: U32)
      requires mem.Length == TWO32 && start + HeapModel.HEAP_BYTES < TWO32
      modifies mem
      ensures Valid() && fresh(Repr() - {mem}) && this.mem == mem
      ensures State() == HeapModel.InitialHeap(old(mem[..]), start)
    {
      this.mem := mem;
      headerArray := new OrderedArray(HeapModel.INDEX_CAPACITY);
      footerArray := new OrderedArray(HeapModel.INDEX_CAPACITY);
      this.start := start;
      end := start + HeapModel.HEAP_BYTES;
      magic := HeapModel.MAGIC64;
      new;
      Seed();
    }

    /** The first block covers the whole region. */
    method Seed()
      requires Valid() && State().headers == State().footers == []
      requires start + HeapModel.HEAP_BYTES == end && magic == HeapModel.MAGIC64
      modifies Repr()
      ensures Valid() && State() == HeapModel.InitialHeap(old(State()).mem, old(start))
    {
      hide HeapModel.StoreHeader, HeapModel.StoreFooter, Store, OrderedArray.Valid, OrderedArray.Contents;
      var f := end - 16;
      PokeHeader(start, end - (start + 32), f, 0, HeapModel.MAGIC32);
      PokeFooter(f, start, HeapModel.MAGIC32);
      var _ := headerArray.Insert(start);
      var _ := footerArray.Insert(f);
    }

    method Poke(a: U32, v: U32)
      requires Valid()
      modifies mem
      ensures Valid() && State() == old(State()).(mem := Store(old(State()).mem, a, v))
    {
      mem[a] := v;
    }

    method PokeHeader(h: U32, size: U32, footer: U32, used: U32, word: U32)
      requires Valid()
      modifies mem
      ensures Valid()
      ensures State() == old(State()).(mem := HeapModel.StoreHeader(old(State()).mem, h, size, footer, used, word))
    {
      Poke(h, size);
      Poke(Add32(h, 4), footer);
      Poke(Add32(h, 8), used);
      Poke(Add32(h, 12), word);
    }

    method PokeFooter(f: U32, header: U32, word: U32)
      requires Valid()
      modifies mem
      ensures Valid()
      ensures State() == old(State()).(mem := HeapModel.StoreFooter(old(State()).mem, f, header, word))
    {
      Poke(f, header);
      Poke(Add32(f, 4), 0);
      Poke(Add32(f, 8), word);
      Poke(Add32(f, 12), word);
    }

    method Prechecks() returns (ok: bool)
      requires Valid()
      ensures ok == HeapModel.Prechecks(State())
    {
      ok := magic == HeapModel.MAGIC64 && headerArray.size == footerArray.size;
    }

    method Checks(h: U32, f: U32) returns (ok: bool)
      requires Valid()
      ensures ok == HeapModel.Checks(State().mem, h, f)
    {
      ok := && mem[Add32(h, 12)] == HeapModel.MAGIC32
            && mem[Add32(f, 8)] as int + 0x1_0000_0000 * mem[Add32(f, 12)] as int == HeapModel.MAGIC64
            && mem[Add32(h, 4)] == f && mem[f] == h;
    }

    method AllocFromBlock(h: U32, f: U32, size: U32) returns (block: U32)
      requires Valid()
      modifies Repr()
      ensures Valid() && block == h
      ensures State() == HeapModel.AllocFromBlock(old(State()), h, f, size)
    {
      hide HeapModel.StoreHeader, HeapModel.StoreFooter, Inserted, Store, OrderedArray.Valid, OrderedArray.Contents;
      if size >= Sub32(Sub32(Sub32(mem[h], 16), 16), 64) {
        Poke(Add32(h, 8), 1);
        return h;
      }
      var newFooter := Add32(Add32(h, size), 16);
      var newHeader := Add32(newFooter, 16);
      PokeFooter(newFooter, h, HeapModel.MAGIC32);
      PokeHeader(newHeader, Sub32(mem[h], Add32(Add32(size, 16), 16)), f, 0, HeapModel.MAGIC32);
      Poke(f, newHeader);
      Poke(h, size);
      Poke(Add32(h, 4), newFooter);
      Poke(Add32(h, 8), 1);
      var _ := headerArray.Insert(newHeader);
      var _ := footerArray.Insert(newFooter);
      return h;
    }

    /** The tags of a merge to the left. */
    method MergeLeftTags(prev: U32, prevFooter: U32, h: U32, f: U32)
      requires Valid()
      modifies mem
      ensures Valid()
      ensures State() == old(State()).(mem := HeapModel.MergeLeft(old(State()).mem, prev, prevFooter, h, f))
    {
      hide HeapModel.StoreHeader, HeapModel.StoreFooter, Store, OrderedArray.Valid, OrderedArray.Contents, Add32;
      Poke(prev, Add32(mem[prev], Add32(Add32(mem[h], 16), 16)));
      Poke(Add32(prev, 4), f);
      Poke(f, prev);
      PokeHeader(h, 0, 0, 0, 0);
      PokeFooter(prevFooter, 0, 0);
    }

    /** The tags of a merge to the right. */
    method MergeRightTags(h: U32, f: U32, next: U32, nextFooter: U32)
      requires Valid()
      modifies mem
      ensures Valid()
      ensures State() == old(State()).(mem := HeapModel.MergeRight(old(State()).mem, h, f, next, nextFooter))
    {
      hide HeapModel.StoreHeader, HeapModel.StoreFooter, Store, OrderedArray.Valid, OrderedArray.Contents, Add32;
      Poke(h, Add32(mem[h], Add32(Add32(mem[next], 16), 16)));
      Poke(Add32(h, 4), nextFooter);
      Poke(nextFooter, h);
      PokeFooter(f, 0, 0);
      PokeHeader(next, 0, 0, 0, 0);
    }

    /** The merged pair leaves the index arrays. */
    method DropIndexes(header: nat, footer: nat)
      requires Valid() && header < headerArray.size && footer < footerArray.size
      modifies headerArray, headerArray.data, footerArray, footerArray.data
      ensures Valid()
      ensures State() == old(State()).(headers := Removed(old(State()).headers, header),
                                       footers := Removed(old(State()).footers, footer))
    {
      hide OrderedArray.Contents, Removed;
      footerArray.Remove(footer);
      headerArray.Remove(header);
    }

    method UnifyLeft(h: U32, f: U32) returns (kept: U32)
      requires Valid() && h in State().headers && headerArray.size == footerArray.size
      modifies Repr()
      ensures Valid()
      ensures (State(), kept) == HeapModel.UnifyLeft(old(State()), h, f)
    {
      hide HeapModel.MergeLeft, OrderedArray.Valid, OrderedArray.Contents, Removed, Add32;
      var index := headerArray.Find(h);
      kept := h;
      if index > 0 {
        var prev := headerArray.Get(index - 1);
        var prevFooter := mem[Add32(prev, 4)];
        if mem[Add32(prev, 8)] == 0 {
          MergeLeftTags(prev, prevFooter, h, f);
          DropIndexes(index, index - 1);
          kept := prev;
        }
      }
    }

    method UnifyRight(h: U32, f: U32)
      requires Valid() && h in State().headers && headerArray.size == footerArray.size
      modifies Repr()
      ensures Valid()
      ensures State() == HeapModel.UnifyRight(old(State()), h, f)
    {
      hide HeapModel.MergeRight, OrderedArray.Valid, OrderedArray.Contents, Removed, Add32;
      var index := headerArray.Find(h);
      if index < headerArray.size - 1 {
        var next := headerArray.Get(index + 1);
        var nextFooter := mem[Add32(next, 4)];
        if mem[Add32(next, 8)] == 0 {
          MergeRightTags(h, f, next, nextFooter);
          DropIndexes(index + 1, index);
        }
      }
    }

    method Unify(h: U32, f: U32)
      requires Valid() && h in State().headers && headerArray.size == footerArray.size
      modifies Repr()
      ensures Valid()
      ensures State() == HeapModel.Unify(old(State()), h, f)
    {
      hide HeapModel.UnifyLeft, HeapModel.UnifyRight;
      var kept := UnifyLeft(h, f);
      UnifyRight(kept, f);
      Poke(Add32(kept, 8), 0);
    }

    /** The tests on block `i`: free, large enough, intact. */
    method Probe(i: nat, size: U32) returns (suitable: bool, h: U32, f: U32)
      requires Valid() && i < headerArray.size == footerArray.size
      ensures h == State().headers[i] && f == State().footers[i]
      ensures suitable == HeapModel.Suitable(State(), i, size)
    {
      hide HeapModel.Checks, OrderedArray.Valid, OrderedArray.Contents, Add32;
      h := headerArray.Get(i);
      f := footerArray.Get(i);
      if mem[Add32(h, 8)] != 0 || mem[h] < size {
        return false, h, f;
      }
      suitable := Checks(h, f);
    }

    /** `alloc`: scan for the first free block that is large enough and intact. */
    method Alloc(request: U32) returns (p: U32)
      requires Valid()
      modifies Repr()
      ensures Valid()
      ensures (State(), p) == HeapModel.Alloc(old(State()), request)
    {
      hide HeapModel.AllocFromBlock, HeapModel.Suitable, HeapModel.Scan, OrderedArray.Valid, OrderedArray.Contents;
      if request == 0 {
        return HeapModel.NULL;
      }
      var ok := Prechecks();
      if !ok {
        return HeapModel.NULL;
      }
      var size := request;
      if size % 16 != 0 {
        size := Add32(size, 16 - size % 16);
      }
      assert size == HeapModel.Rounded(request);
      hide HeapModel.Rounded, Add32;
      ghost var s := State();
      var i := 0;
      while i < headerArray.size
        invariant 0 <= i <= |s.headers| && Valid() && State() == s
        invariant HeapModel.Scan(s, i, size) == HeapModel.Scan(s, 0, size)
      {
        ScanStep(s, i, size);
        var suitable, h, f := Probe(i, size);
        if suitable {
          var block := AllocFromBlock(h, f, size);
          return Add32(block, 16);
        }
        i := i + 1;
      }
      ScanEnd(s, size);
      return HeapModel.NULL;
    }

    method Free(p: U32)
      requires Valid() && HeapModel.FreeAccepts(State(), p)
      modifies Repr()
      ensures Valid()
      ensures State() == HeapModel.Free(old(State()), p)
    {
      hide HeapModel.Unify;
      var h := Sub32(p, 16);
      var f := mem[Add32(h, 4)];
      var ok := Prechecks();
      if ok {
        var intact := Checks(h, f);
        if intact {
          Unify(h, f);
        }
      }
    }
  }

  /** One probe of the scan. */
  lemma ScanStep(s: HeapModel.HeapState, i: nat, size: U32)
    requires i < |s.headers| == |s.footers|
    ensures HeapModel.Scan(s, i, size) == if HeapModel.Suitable(s, i, size) then i else HeapModel.Scan(s, i + 1, size)
  {
  }

  lemma ScanEnd(s: HeapModel.HeapState, size: U32)
    requires |s.headers| == |s.footers|
    ensures HeapModel.Scan(s, |s.headers|, size) == |s.headers|
  {
  }
}
