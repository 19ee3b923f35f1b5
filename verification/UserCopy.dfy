/** User pointers in system calls (kernel/kernel/core/syscall.c). */
module UserCopy {
  import opened Machine
  import opened Frames
  import opened Paging

  /** `user_addr_accessible`: tests the hardware entry, then the table behind the
      shadow pointer. `None` is a process without a page directory. */
  predicate Accessible(tabs: Tables, proc: Option<Directory>, addr: U32) {
    && proc.Some?
    && addr < KERN_START_TBL * 0x40_0000
    && var d := proc.value;
    && d.entries[DirIdx(addr)].present && d.entries[DirIdx(addr)].user
    && d.tables[DirIdx(addr)] != 0
    && ShadowFrame(d.tables[DirIdx(addr)]) in tabs
    && var page := tabs[ShadowFrame(d.tables[DirIdx(addr)])][TblIdx(addr)];
    page.present && page.user
  }

  /** In a coherent directory the check passes exactly when a user-mode access
      below the kernel half would. */
  lemma AccessibleIffWalkable(tabs: Tables, d: Directory, addr: U32)
    requires Coherent(tabs, d)
    ensures Accessible(tabs, Some(d), addr) <==> addr < KERNEL_BASE && UserWalk(tabs, d, addr).Some?
  {
    IndicesRebuild(addr);
    assert EntryOk(tabs, d, DirIdx(addr));
    if d.entries[DirIdx(addr)].present { ShadowIsHardware(tabs, d, DirIdx(addr)); }
  }

  /** The byte a user-mode load would see; the access must not fault. */
  function ReadByte(mem: nat -> char, tabs: Tables, d: Directory, addr: U32): char
    requires UserWalk(tabs, d, addr).Some?
  {
    mem(UserWalk(tabs, d, addr).value)
  }

  /** The string at `src`, cut at the first NUL or after `limit` bytes; None when a
      byte that is needed is not accessible. Addresses wrap as in the kernel. */
  function UserString(mem: nat -> char, tabs: Tables, d: Directory, src: U32, k: nat, limit: nat): (r: Option<string>)
    requires Coherent(tabs, d) && k <= limit < TWO32
    ensures r.Some? ==> |r.value| <= limit - k && '\0' !in r.value
    decreases limit - k
  {
    if k == limit then Some([]) else
    var addr := Add32(src, k);
    if !Accessible(tabs, Some(d), addr) then None else
    AccessibleIffWalkable(tabs, d, addr);
    var c := ReadByte(mem, tabs, d, addr);
    if c == '\0' then Some([]) else
    Prepend([c], UserString(mem, tabs, d, src, k + 1, limit))
  }

  /** The process sees `c` at address `va`, below the kernel half. */
  ghost predicate Sees(mem: nat -> char, tabs: Tables, d: Directory, va: int, c: char) {
    && 0 <= va < KERNEL_BASE
    && UserWalk(tabs, d, va).Some?
    && ReadByte(mem, tabs, d, va) == c
  }

  /** What success means: the bytes copied are those the process sees, in order,
      at addresses that never leave the user half, and the copy stopped at a NUL
      or at the limit. */
  lemma {:induction false} UserStringReads(mem: nat -> char, tabs: Tables, d: Directory, src: U32, k: nat, limit: nat)
    requires Coherent(tabs, d) && k <= limit < TWO32
    requires UserString(mem, tabs, d, src, k, limit).Some?
    requires k > 0 ==> src + k <= KERNEL_BASE
    ensures var s := UserString(mem, tabs, d, src, k, limit).value;
            && (forall i :: 0 <= i < |s| ==> Sees(mem, tabs, d, src + k + i, s[i]))
            && (|s| < limit - k ==> Sees(mem, tabs, d, src + k + |s|, '\0'))
    decreases limit - k
  {
    hide Coherent, UserWalk, Accessible;
    if k < limit {
      var addr := Add32(src, k);
      AccessibleIffWalkable(tabs, d, addr);
      var c := ReadByte(mem, tabs, d, addr);
      assert Sees(mem, tabs, d, src + k, c);
      if c != '\0' {
        UserStringReads(mem, tabs, d, src, k + 1, limit);
        SeesMore(mem, tabs, d, src + k, c, UserString(mem, tabs, d, src, k + 1, limit).value);
      }
    }
  }

  lemma SeesMore(mem: nat -> char, tabs: Tables, d: Directory, a: int, c: char, t: string)
    requires Sees(mem, tabs, d, a, c)
    requires forall i :: 0 <= i < |t| ==> Sees(mem, tabs, d, a + 1 + i, t[i])
    ensures forall i :: 0 <= i < |t| + 1 ==> Sees(mem, tabs, d, a + i, ([c] + t)[i])
  {
  }

  /** A range that user mode can read is never refused. */
  lemma {:induction false} MappedRangeCopies(mem: nat -> char, tabs: Tables, d: Directory, src: U32, k: nat, limit: nat)
    requires Coherent(tabs, d) && k <= limit && src + limit <= KERNEL_BASE
    requires forall va: U32 :: src <= va < src + limit ==> UserWalk(tabs, d, va).Some?
    ensures UserString(mem, tabs, d, src, k, limit).Some?
    decreases limit - k
  {
    hide Coherent, UserWalk;
    if k < limit {
      AccessibleIffWalkable(tabs, d, Add32(src, k));
      MappedRangeCopies(mem, tabs, d, src, k + 1, limit);
    }
  }

  /** In particular a range that `proc_map_pages` has just mapped. */
  lemma MapThenCopy(mem: nat -> char, m: Mmu, d: Directory, virt: U32, phys: U32, pages: nat, writable: bool, limit: nat)
    requires MmuOk(m, d) && virt % PAGE == 0 && phys % PAGE == 0 && virt + pages * PAGE <= KERNEL_BASE
    requires MapPages(m, d, virt / PAGE, phys / PAGE, pages, writable).2 && limit <= pages * PAGE
    ensures var (m', d', _) := MapPages(m, d, virt / PAGE, phys / PAGE, pages, writable);
            Coherent(m'.tabs, d') && UserString(mem, m'.tabs, d', virt, 0, limit).Some?
  {
    hide MapPages, UserWalk, Walk, UserCanWrite;
    MappedRangeTranslates(m, d, virt, phys, pages, writable);
    var (m', d', _) := MapPages(m, d, virt / PAGE, phys / PAGE, pages, writable);
    MappedRangeCopies(mem, m'.tabs, d', virt, 0, limit);
  }

  /** The string at `src` that a call with room for `destLen` bytes and a request of
      `userLen` must deliver has `n` characters: the process sees that many before a
      NUL, and what ends it is the request, the room or the NUL. */
  ghost predicate EndsAt(mem: nat -> char, tabs: Tables, d: Directory, src: U32, destLen: nat, userLen: U32, n: nat) {
    && n <= userLen && n < destLen
    && (forall va :: src <= va < src + n ==> SeesText(mem, tabs, d, va))
    && (n == userLen || n + 1 == destLen || Sees(mem, tabs, d, src + n, '\0'))
  }

  ghost predicate SeesText(mem: nat -> char, tabs: Tables, d: Directory, va: int) {
    0 <= va < KERNEL_BASE && UserWalk(tabs, d, va).Some? && ReadByte(mem, tabs, d, va) != '\0'
  }

  /** A string that ends somewhere is read to its end. */
  lemma {:induction false} UserStringComplete(mem: nat -> char, tabs: Tables, d: Directory, src: U32, k: nat, limit: nat, n: nat)
    requires Coherent(tabs, d) && k <= n <= limit < TWO32
    requires forall va :: src + k <= va < src + n ==> SeesText(mem, tabs, d, va)
    requires n == limit || Sees(mem, tabs, d, src + n, '\0')
    ensures UserString(mem, tabs, d, src, k, limit).Some?
    decreases n - k
  {
    hide Coherent, UserWalk, Accessible;
    if k < limit {
      assert k < n ==> SeesText(mem, tabs, d, src + k);
      AccessibleIffWalkable(tabs, d, Add32(src, k));
      if k < n { UserStringComplete(mem, tabs, d, src, k + 1, limit, n); }
    }
  }

  /** The string is read exactly when it ends somewhere, and it is what the process
      sees up to there. */
  lemma UserStringIff(mem: nat -> char, tabs: Tables, d: Directory, src: U32, limit: nat, destLen: nat, userLen: U32)
    requires Coherent(tabs, d) && destLen > 0 && limit < TWO32
    requires limit == if userLen >= destLen then destLen - 1 else userLen
    ensures var r := UserString(mem, tabs, d, src, 0, limit);
            && (r.Some? <==> exists n: nat :: EndsAt(mem, tabs, d, src, destLen, userLen, n))
            && (r.Some? ==> EndsAt(mem, tabs, d, src, destLen, userLen, |r.value|)
                            && forall i :: 0 <= i < |r.value| ==> Sees(mem, tabs, d, src + i, r.value[i]))
  {
    hide Coherent, UserWalk, UserString;
    if UserString(mem, tabs, d, src, 0, limit).Some? {
      UserStringReads(mem, tabs, d, src, 0, limit);
      var s := UserString(mem, tabs, d, src, 0, limit).value;
      forall va | src <= va < src + |s| ensures SeesText(mem, tabs, d, va) {
        assert Sees(mem, tabs, d, src + 0 + (va - src), s[va - src]);
      }
      assert EndsAt(mem, tabs, d, src, destLen, userLen, |s|);
    }
    if n: nat :| EndsAt(mem, tabs, d, src, destLen, userLen, n) {
      UserStringComplete(mem, tabs, d, src, 0, limit, n);
    }
  }

  function Prepend(s: string, r: Option<string>): Option<string> {
    match r
    case None => None
    case Some(t) => Some(s + t)
  }

  /** What a successful copy leaves: the `n` characters the process sees, a NUL, and
      nothing else touched. */
  ghost predicate Copied(mem: nat -> char, tabs: Tables, d: Directory, src: U32, n: nat, before: string, after: string) {
    && n < |after| == |before|
    && (forall i :: 0 <= i < n ==> Sees(mem, tabs, d, src + i, after[i]))
    && after[n] == '\0' && after[n + 1..] == before[n + 1..]
  }

  /** `copy_user_string`. A null destination or source and a missing process are
      refused. Otherwise the call succeeds exactly when the string ends somewhere
      before an inaccessible byte; then it is stored up to there and terminated. A
      process may lack a directory; then nothing is accessible. */
  method CopyUserString(mem: nat -> char, tabs: Tables, proc: Option<Option<Directory>>, dest: array?<char>, destLen: nat,
                        src: U32, userLen: U32) returns (ok: bool)
    requires dest != null ==> destLen <= dest.Length
    requires proc.Some? && proc.value.Some? ==> Coherent(tabs, proc.value.value)
    requires destLen < TWO32
    modifies dest
    ensures dest == null || destLen == 0 || src == 0 || proc.None? ==> !ok
    ensures dest != null && (destLen == 0 || src == 0 || proc.None?) ==> dest[..] == old(dest[..])
    ensures dest != null && destLen > 0 && src != 0 && proc.Some? && proc.value.Some? ==>
              var d := proc.value.value;
              && (ok <==> exists n: nat :: EndsAt(mem, tabs, d, src, destLen, userLen, n))
              && (ok ==> exists n: nat :: EndsAt(mem, tabs, d, src, destLen, userLen, n)
                                          && Copied(mem, tabs, d, src, n, old(dest[..]), dest[..]))
    ensures dest != null && destLen > 0 && src != 0 && proc == Some(None) ==>
              && (ok <==> userLen == 0 || destLen == 1)
              && dest[..] == if ok then old(dest[..])[0 := '\0'] else old(dest[..])
    ensures dest != null && destLen > 0 ==> dest[destLen..] == old(dest[..])[destLen..]
    ensures dest != null && userLen < destLen ==> dest[userLen + 1..] == old(dest[..])[userLen + 1..]
  {
    if dest == null || destLen == 0 || src == 0 || proc.None? {
      return false;
    }
    hide EndsAt, Copied, Coherent;
    if proc.value.None? {
      ok := userLen == 0 || destLen == 1;
      if ok {
        dest[0] := '\0';
      }
    } else {
      ok := CopyString(mem, tabs, proc.value.value, dest, destLen, src, userLen);
    }
  }

  /** The case of a process with a directory. */
  method CopyString(mem: nat -> char, tabs: Tables, d: Directory, dest: array<char>, destLen: nat, src: U32, userLen: U32)
    returns (ok: bool)
    requires 0 < destLen <= dest.Length && destLen < TWO32 && Coherent(tabs, d)
    modifies dest
    ensures ok <==> exists n: nat :: EndsAt(mem, tabs, d, src, destLen, userLen, n)
    ensures ok ==> exists n: nat :: EndsAt(mem, tabs, d, src, destLen, userLen, n)
                                    && Copied(mem, tabs, d, src, n, old(dest[..]), dest[..])
    ensures forall i :: destLen <= i < dest.Length || userLen < i < dest.Length ==> dest[i] == old(dest[i])
  {
    hide UserString, Coherent, EndsAt, Copied;
    ghost var before := dest[..];
    var limit := userLen;
    if limit >= destLen {
      limit := destLen - 1;
    }
    UserStringIff(mem, tabs, d, src, limit, destLen, userLen);
    if limit == 0 {
      dest[0] := '\0';
      EmptyString(mem, tabs, d, src);
      CopyIs(mem, tabs, d, src, [], before, dest[..]);
      return true;
    }
    ok := CopyBytes(mem, tabs, d, dest, src, limit);
    if ok {
      CopyIs(mem, tabs, d, src, UserString(mem, tabs, d, src, 0, limit).value, before, dest[..]);
    }
  }

  lemma CopyIs(mem: nat -> char, tabs: Tables, d: Directory, src: U32, s: string, before: string, after: string)
    requires |s| < |after| == |before| && after[..|s|] == s && after[|s|] == '\0'
    requires forall i :: |s| < i < |after| ==> after[i] == before[i]
    requires forall i :: 0 <= i < |s| ==> Sees(mem, tabs, d, src + i, s[i])
    ensures Copied(mem, tabs, d, src, |s|, before, after)
  {
    assert forall i :: 0 <= i < |s| ==> after[i] == after[..|s|][i];
  }

  lemma EmptyString(mem: nat -> char, tabs: Tables, d: Directory, src: U32)
    requires Coherent(tabs, d)
    ensures UserString(mem, tabs, d, src, 0, 0) == Some([])
  {
  }

  /** The copying loop, for a nonzero limit. */
  method CopyBytes(mem: nat -> char, tabs: Tables, d: Directory, dest: array<char>, src: U32, limit: nat) returns (ok: bool)
    requires Coherent(tabs, d) && limit < dest.Length && limit < TWO32
    modifies dest
    ensures ok == UserString(mem, tabs, d, src, 0, limit).Some?
    ensures ok ==> var s := UserString(mem, tabs, d, src, 0, limit).value;
                   && dest[..|s|] == s && dest[|s|] == '\0'
                   && forall i :: |s| < i < dest.Length ==> dest[i] == old(dest[i])
    ensures forall i :: limit < i < dest.Length ==> dest[i] == old(dest[i])
  {
    hide Coherent, UserWalk, Accessible, ReadByte;
    ghost var whole := UserString(mem, tabs, d, src, 0, limit);
    var copied := 0;
    PrependChar([], ' ', whole);
    assert dest[..copied] == [];
    while copied < limit
      invariant 0 <= copied <= limit
      invariant whole == Prepend(dest[..copied], UserString(mem, tabs, d, src, copied, limit))
      invariant forall i :: copied <= i < dest.Length ==> dest[i] == old(dest[i])
    {
      var addr := Add32(src, copied);
      if !Accessible(tabs, Some(d), addr) {
        return false;
      }
      AccessibleIffWalkable(tabs, d, addr);
      var c := ReadByte(mem, tabs, d, addr);
      ghost var before := dest[..copied];
      dest[copied] := c;
      copied := copied + 1;
      assert dest[..copied - 1] == before && dest[..copied] == before + [c];
      if c == '\0' {
        assert before + [] == before;
        return true;
      }
      PrependChar(before, c, UserString(mem, tabs, d, src, copied, limit));
    }
    ghost var all := dest[..copied];
    assert all + [] == all;
    dest[copied] := '\0';
    assert dest[..copied] == all;
    return true;
  }

  lemma PrependChar(s: string, c: char, r: Option<string>)
    ensures Prepend(s, Prepend([c], r)) == Prepend(s + [c], r)
    ensures Prepend([], r) == r
  {
    if r.Some? { assert s + ([c] + r.value) == s + [c] + r.value && [] + r.value == r.value; }
  }
}
