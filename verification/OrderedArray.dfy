/** The sorted index array of kernel/kernel/core/common.c: a fixed buffer of
    addresses with a length, kept in order by insertion. */
module OrderedArrays {
  import opened Machine

  const NOT_FOUND: U32 := 0xFFFF_FFFF

  ghost predicate Sorted(s: seq<U32>) {
    forall i, j :: 0 <= i < j < |s| ==> s[i] <= s[j]
  }

  ghost predicate StrictlySorted(s: seq<U32>) {
    forall i, j :: 0 <= i < j < |s| ==> s[i] < s[j]
  }

  /** What an insertion leaves: larger elements move up from the back until one
      that is not larger than `v` is met. */
  function Inserted(s: seq<U32>, v: U32): (r: seq<U32>)
    ensures |r| == |s| + 1
  {
    if s == [] || !(v < s[|s| - 1]) then s + [v]
    else Inserted(s[..|s| - 1], v) + [s[|s| - 1]]
  }

  function InsertedAt(s: seq<U32>, v: U32): (k: nat)
    ensures k <= |s|
  {
    if s == [] || !(v < s[|s| - 1]) then |s|
    else InsertedAt(s[..|s| - 1], v)
  }

  function Removed(s: seq<U32>, i: nat): seq<U32>
    requires i < |s|
  {
    s[..i] + s[i + 1..]
  }

  /** First position of `v`, or the length when it is absent. */
  function IndexOf(s: seq<U32>, v: U32): (k: nat)
    ensures k <= |s|
    ensures v in s <==> k < |s|
    ensures k < |s| ==> s[k] == v
    ensures forall j :: 0 <= j < k ==> s[j] != v
  {
    if s == [] then 0
    else if s[0] == v then 0
    else 1 + IndexOf(s[1..], v)
  }

  /** Where everything from `k` on is larger and the element before is not,
      insertion splices `v` in at `k`. */
  lemma {:induction false} InsertedSplices(s: seq<U32>, v: U32, k: nat)
    requires k <= |s|
    requires k > 0 ==> s[k - 1] <= v
    requires forall j :: k <= j < |s| ==> v < s[j]
    ensures Inserted(s, v) == s[..k] + [v] + s[k..]
    ensures InsertedAt(s, v) == k
  {
    if k < |s| {
      var t := s[..|s| - 1];
      InsertedSplices(t, v, k);
      assert t[..k] == s[..k];
      assert s[k..] == t[k..] + [s[|s| - 1]];
    } else {
      assert s[..k] == s && s[k..] == [];
    }
  }

  /** Insertion into a sorted array keeps it sorted, lands behind its equals,
      adds exactly `v`, and removing at the reported index undoes it. */
  lemma {:induction false} InsertedIsSorted(s: seq<U32>, v: U32) returns (k: nat)
    requires Sorted(s)
    ensures k == InsertedAt(s, v)
    ensures Sorted(Inserted(s, v))
    ensures Inserted(s, v)[k] == v && forall j :: k < j <= |s| ==> v < Inserted(s, v)[j]
    ensures multiset(Inserted(s, v)) == multiset(s) + multiset{v}
    ensures Removed(Inserted(s, v), k) == s
  {
    k := |s|;
    while k > 0 && v < s[k - 1]
      invariant 0 <= k <= |s|
      invariant forall j :: k <= j < |s| ==> v < s[j]
    {
      k := k - 1;
    }
    InsertedSplices(s, v, k);
    SplicedIsSorted(s, v, k);
    SplicedAddsOne(s, v, k);
  }

  lemma SplicedIsSorted(s: seq<U32>, v: U32, k: nat)
    requires Sorted(s) && k <= |s|
    requires k > 0 ==> s[k - 1] <= v
    requires forall j :: k <= j < |s| ==> v < s[j]
    ensures var r := s[..k] + [v] + s[k..];
            Sorted(r) && r[k] == v && forall j :: k < j <= |s| ==> v < r[j]
  {
  }

  lemma SplicedAddsOne(s: seq<U32>, v: U32, k: nat)
    requires k <= |s|
    ensures var r := s[..k] + [v] + s[k..];
            multiset(r) == multiset(s) + multiset{v} && Removed(r, k) == s
  {
    var r := s[..k] + [v] + s[k..];
    assert s == s[..k] + s[k..];
    assert r[..k] == s[..k] && r[k + 1..] == s[k..];
  }

  /** Elements from `i` on moved up by one and `v` in the gap. */
  lemma ShiftedIsSpliced(d: seq<U32>, s: seq<U32>, v: U32, i: nat)
    requires i <= |s| < |d| && d[i] == v
    requires forall k :: 0 <= k < i ==> d[k] == s[k]
    requires forall k :: i <= k < |s| ==> d[k + 1] == s[k]
    ensures d[..|s| + 1] == s[..i] + [v] + s[i..]
  {
  }

  class OrderedArray {
    const data: array<U32>
    var size: nat

    ghost predicate Valid()
      reads this, data
    {
      size <= data.Length <= 0x4000_0000
    }

    /** The storage behind the elements is zero. */
    ghost predicate Cleared()
      reads this, data
    {
      forall k :: size <= k < data.Length ==> data[k] == 0
    }

    function Contents(): (s: seq<U32>)
      requires Valid()
      reads this, data
      ensures |s| == size
    {
      data[..size]
    }

    /** `init_ordered_array_place`: the backing storage is cleared. */
    constructor (maxSize: nat)
      requires maxSize <= 0x4000_0000
      ensures Valid() && Cleared() && Contents() == [] && data.Length == maxSize
      ensures fresh(data)
    {
      data := new U32[maxSize](_ => 0);
      size := 0;
    }

    method Insert(v: U32) returns (at: nat)
      requires Valid()
      modifies this, data
      ensures Valid() && (old(Cleared()) ==> Cleared())
      ensures old(size) < data.Length ==>
                && Contents() == Inserted(old(Contents()), v)
                && at == InsertedAt(old(Contents()), v)
      ensures old(size) >= data.Length ==> Contents() == old(Contents()) && at == 0
    {
      hide Inserted, InsertedAt;
      if size < data.Length {
        ghost var s := Contents();
        var i := size;
        while i > 0 && v < data[i - 1]
          invariant 0 <= i <= size == |s| < data.Length
          invariant forall k :: 0 <= k < i ==> data[k] == s[k]
          invariant forall k :: i <= k < |s| ==> data[k + 1] == s[k] && v < s[k]
          invariant forall k :: size < k < data.Length ==> data[k] == old(data[k])
        {
          data[i] := data[i - 1];
          i := i - 1;
        }
        data[i] := v;
        size := size + 1;
        InsertedSplices(s, v, i);
        ShiftedIsSpliced(data[..], s, v, i);
        return i;
      }
      return 0;
    }

    /** Past the end nothing is shifted, but the last element is still lost. */
    method Remove(i: nat)
      requires Valid() && size > 0 && i < data.Length
      modifies this, data
      ensures Valid() && (old(Cleared()) && i < old(size) ==> Cleared())
      ensures Contents() == if i < old(size) then Removed(old(Contents()), i) else old(Contents())[..old(size) - 1]
    {
      ghost var s := Contents();
      var j := i;
      while j < size - 1
        invariant i <= j < data.Length && size == |s| && (i < size ==> j < size) && (size <= i ==> j == i)
        invariant forall k :: 0 <= k < size && k < i ==> data[k] == s[k]
        invariant forall k :: i <= k < j ==> data[k] == s[k + 1]
        invariant forall k :: j <= k < size ==> data[k] == s[k]
        invariant forall k :: size <= k < data.Length ==> data[k] == old(data[k])
      {
        data[j] := data[j + 1];
        j := j + 1;
      }
      data[j] := 0;
      size := size - 1;
      assert data[..size] == if i < |s| then Removed(s, i) else s[..|s| - 1];
    }

    method Get(i: nat) returns (v: U32)
      requires Valid() && i < size
      ensures v == Contents()[i]
    {
      v := data[i];
    }

    method Find(v: U32) returns (at: U32)
      requires Valid()
      ensures at == if v in Contents() then IndexOf(Contents(), v) else NOT_FOUND
    {
      var i := 0;
      while i < size
        invariant 0 <= i <= size
        invariant forall k :: 0 <= k < i ==> data[k] != v
      {
        if data[i] == v {
          assert Contents()[i] == v;
          return i;
        }
        i := i + 1;
      }
      return NOT_FOUND;
    }
  }
}
