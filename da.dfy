/** da.h: growable arrays of elements (ptr, len, cap) updated in place. */
module DynArray {

  /** The number of slots da_grow asks realloc for when cap is below mincap:
      twice cap (4 when cap is 0), raised to mincap if that is still short. */
  function GrowTarget(cap: nat, mincap: nat): (n: nat)
    ensures n >= mincap
    ensures n >= (if cap == 0 then 4 else 2 * cap)
    ensures n == mincap || n == (if cap == 0 then 4 else 2 * cap)
  {
    var doubled := cap * 2;
    var newcap := if doubled == 0 then 4 else doubled;
    if newcap < mincap then mincap else newcap
  }

  /** realloc: a fresh buffer of n slots that keeps the old buffer's leading contents. */
  method Realloc<T(0)>(a: array?<T>, n: nat) returns (b: array<T>)
    ensures fresh(b) && b.Length == n
    ensures a != null ==> forall i :: 0 <= i < n && i < a.Length ==> b[i] == a[i]
  {
    b := new T[n];
    if a != null {
      var i := 0;
      while i < n && i < a.Length
        invariant 0 <= i <= n && i <= a.Length
        invariant forall k :: 0 <= k < i ==> b[k] == a[k]
      {
        b[i] := a[i];
        i := i + 1;
      }
    }
  }

  /** One growable array: ptr, len and cap as in the structs da.h's macros work on. */
  class Da<T(0)> {
    var ptr: array?<T>
    var len: nat
    var cap: nat

    /** The slots the last realloc provided (none before the first). */
    function Size(): nat
      reads this
    {
      if ptr == null then 0 else ptr.Length
    }

    /** The buffer holds the len elements, and cap never exceeds the real allocation. */
    ghost predicate Valid()
      reads this
    {
      len <= Size() && cap <= Size()
    }

    /** The elements stored so far, in order. */
    function Elements(): seq<T>
      reads this, ptr
      requires Valid()
    {
      if ptr == null then [] else ptr[..len]
    }

    /** da_init: no buffer, no elements, no capacity. */
    constructor Init()
      ensures ptr == null && len == 0 && cap == 0
      ensures Valid() && Elements() == []
    {
      ptr := null;
      len := 0;
      cap := 0;
    }

    /** da_grow: nothing happens when cap already covers mincap; otherwise the buffer is
        reallocated to GrowTarget(cap, mincap) slots, and cap is left as it was. */
    method Grow(mincap: nat)
      requires Valid() && len <= mincap
      modifies this
      ensures Valid() && len == old(len) && cap == old(cap)
      ensures Elements() == old(Elements())
      ensures old(cap) >= mincap ==> ptr == old(ptr)
      ensures old(cap) < mincap ==> ptr != null && fresh(ptr) && Size() == GrowTarget(old(cap), mincap)
      ensures Size() >= mincap
    {
      if cap >= mincap {
        return;
      }
      var newcap := GrowTarget(cap, mincap);
      ptr := Realloc(ptr, newcap);
    }

    /** da_append: grow to len + 1, store the item at index len, count it. */
    method Append(item: T)
      requires Valid()
      modifies this, ptr
      ensures Valid() && cap == old(cap) && len == old(len) + 1
      ensures Elements() == old(Elements()) + [item]
      ensures old(cap) >= old(len) + 1 ==> ptr == old(ptr)
      ensures old(cap) < old(len) + 1 ==> fresh(ptr) && Size() == GrowTarget(old(cap), old(len) + 1)
    {
      Grow(len + 1);
      ptr[len] := item;
      len := len + 1;
    }
  }

  /** Since cap stays 0 from da_init on, every append reallocates, to max(4, len + 1) slots. */
  lemma GrowFromZero(len: nat)
    ensures GrowTarget(0, len + 1) == if len + 1 < 4 then 4 else len + 1
  {
  }

  /** A client of the macros as parse_func uses them: after da_init and any number of
      appends, cap is still 0 and the elements are the appended items in order. */
  method AppendAll<T(0)>(items: seq<T>) returns (da: Da<T>)
    ensures fresh(da) && da.Valid() && da.cap == 0
    ensures da.Elements() == items
  {
    da := new Da<T>.Init();
    var i := 0;
    while i < |items|
      invariant 0 <= i <= |items|
      invariant fresh(da) && (da.ptr == null || fresh(da.ptr))
      invariant da.Valid() && da.cap == 0 && da.Elements() == items[..i]
    {
      da.Append(items[i]);
      i := i + 1;
    }
  }
}
