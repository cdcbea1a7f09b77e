/**
 * The slab allocator: `SlabAllocator` keeps a LIFO free list of equal-size
 * objects (the list is threaded through the objects themselves), and
 * `SlabHeap` carves a block of memory into objects and hands them to the
 * free list.  Addresses are plain numbers; the list is the sequence of
 * object addresses from the head on.  The compare-and-swap retry loops
 * run here as single sequential steps.
 */
module Slab {
  import opened Wrappers
  import Bits

  // ---------------------------------------------------------------------
  // The free list

  /** Allocate on a list: the head, and the list after it; nothing for an empty list. */
  function Pop(list: seq<nat>): (r: (Option<nat>, seq<nat>))
  {
    if list == [] then (None, []) else (Some(list[0]), list[1..])
  }

  /** Free on a list: the object becomes the head, the old head its next. */
  function Push(list: seq<nat>, obj: nat): (r: seq<nat>)
  {
    [obj] + list
  }

  /** Free(x) then Allocate() gives x back and restores the list: the list is LIFO. */
  lemma PopAfterPush(list: seq<nat>, obj: nat)
    ensures Pop(Push(list, obj)) == (Some(obj), list)
  {
    assert Push(list, obj)[1..] == list;
  }

  /** Free grows the list by one; a successful Allocate shrinks it by one; an empty list stays empty. */
  lemma ListLength(list: seq<nat>, obj: nat)
    ensures |Push(list, obj)| == |list| + 1
    ensures Pop(list).0.Some? <==> |list| > 0
    ensures Pop(list).0.Some? ==> |Pop(list).1| == |list| - 1 && Pop(list).0.value in list
    ensures Pop(list).0.None? ==> Pop(list).1 == list
  {
  }

  /** The addresses start, start + size, ..., start + (n - 1) * size. */
  function Slots(start: nat, size: nat, n: nat): (r: seq<nat>)
    ensures |r| == n
    decreases n
  {
    if n == 0 then [] else [start] + Slots(start + size, size, n - 1)
  }

  lemma {:induction false} SlotsIndex(start: nat, size: nat, n: nat, k: nat)
    requires k < n
    ensures Slots(start, size, n)[k] == start + k * size
    decreases n
  {
    if k > 0 {
      SlotsIndex(start + size, size, n - 1, k - 1);
      MulSucc(k - 1, size);
    }
  }

  lemma MulSucc(k: nat, size: nat)
    ensures (k + 1) * size == k * size + size
  {
  }

  /** Pushing the slot just below a run of slots extends the run downwards. */
  lemma PushBelow(cur: nat, size: nat, i: nat, list: seq<nat>)
    requires cur >= size
    ensures Push(Slots(cur, size, i) + list, cur - size) == Slots(cur - size, size, i + 1) + list
  {
    assert Slots(cur - size, size, i + 1) == [cur - size] + Slots(cur, size, i);
  }

  /** The results of k Allocate calls in a row, on a list. */
  function PopMany(list: seq<nat>, k: nat): (r: seq<Option<nat>>)
    ensures |r| == k
  {
    if k == 0 then [] else [Pop(list).0] + PopMany(Pop(list).1, k - 1)
  }

  /** Allocating from a run of slots returns them in ascending address order. */
  lemma {:induction false} PopManySlots(start: nat, size: nat, n: nat, rest: seq<nat>)
    ensures forall k :: 0 <= k < n ==> PopMany(Slots(start, size, n) + rest, n)[k] == Some(Slots(start, size, n)[k])
    decreases n
  {
    if n > 0 {
      var list := Slots(start, size, n) + rest;
      assert list[1..] == Slots(start + size, size, n - 1) + rest;
      PopManySlots(start + size, size, n - 1, rest);
    }
  }

  class SlabAllocator {
    /** The free list, head first. */
    var list: seq<nat>
    /** `size_`: the object size. */
    var size: nat

    constructor()
      ensures list == [] && size == 0
    {
      list, size := [], 0;
    }

    method Initialize(objectSize: nat)
      modifies this
      ensures size == objectSize && list == old(list)
    {
      size := objectSize;
    }

    /** Allocate: the head, which leaves the list; nothing when the list is empty. */
    method Allocate() returns (r: Option<nat>)
      modifies this
      ensures (r, list) == Pop(old(list)) && size == old(size)
    {
      if list == [] {
        return None;
      }
      r := Some(list[0]);
      list := list[1..];
    }

    /** Free: obj becomes the head. */
    method Free(obj: nat)
      modifies this
      ensures list == Push(old(list), obj) && size == old(size)
    {
      list := [obj] + list;
    }
  }

  // ---------------------------------------------------------------------
  // The heap

  class SlabHeap {
    const allocator: SlabAllocator
    var start: nat
    var end: nat

    constructor()
      ensures fresh(allocator) && allocator.list == [] && allocator.size == 0
      ensures start == 0 && end == 0
    {
      allocator := new SlabAllocator();
      start, end := 0, 0;
    }

    /** Contains(addr): start <= addr < end. */
    predicate Contains(addr: nat)
      reads this
    {
      start <= addr < end
    }

    /** GetSlabHeapSize: how many objects fit between start and end. */
    function SlabHeapSize(): (r: nat)
      reads this, allocator
      requires allocator.size > 0 && start <= end
    {
      (end - start) / allocator.size
    }

    /** GetObjectIndexImpl: the object's index from the start. */
    function ObjectIndex(obj: nat): (r: nat)
      reads this, allocator
      requires allocator.size > 0 && start <= obj
    {
      (obj - start) / allocator.size
    }

    /**
     * Initialize(memory, memory_size) for objects of `objectSize` bytes:
     * as many whole objects as fit, freed from the highest address down,
     * so that the list afterwards runs upwards from `memory`.
     */
    method Initialize(memory: nat, memorySize: nat, objectSize: nat)
      requires objectSize > 0
      modifies this, allocator
      ensures allocator.size == objectSize && start == memory
      ensures end == memory + (memorySize / objectSize) * objectSize
      ensures allocator.list == Slots(memory, objectSize, memorySize / objectSize) + old(allocator.list)
    {
      allocator.Initialize(objectSize);
      var numObj := memorySize / objectSize;
      start := memory;
      end := start + numObj * objectSize;
      var cur := end;
      var i := 0;
      while i < numObj
        invariant i <= numObj && allocator.size == objectSize
        invariant start == memory && end == memory + numObj * objectSize
        invariant cur == memory + (numObj - i) * objectSize
        invariant allocator.list == Slots(cur, objectSize, i) + old(allocator.list)
      {
        MulSucc(numObj - i - 1, objectSize);
        PushBelow(cur, objectSize, i, old(allocator.list));
        cur := cur - objectSize;
        allocator.Free(cur);
        i := i + 1;
      }
    }

    method Allocate() returns (r: Option<nat>)
      modifies allocator
      ensures (r, allocator.list) == Pop(old(allocator.list)) && allocator.size == old(allocator.size)
    {
      r := allocator.Allocate();
    }

    /** Free: only objects inside the heap may be given back. */
    method Free(obj: nat)
      requires Contains(obj)
      modifies allocator
      ensures allocator.list == Push(old(allocator.list), obj) && allocator.size == old(allocator.size)
    {
      allocator.Free(obj);
    }
  }

  /** Where TryAllocate's memory came from. */
  datatype Source = FromSlab(addr: nat) | FromMalloc

  /**
   * SlabObject::TryAllocate with the `override` flag: from the slab when
   * the flag is set and the slab is not exhausted, else from malloc.
   */
  method TryAllocate(heap: SlabHeap, override: bool) returns (r: Source)
    modifies heap.allocator
    ensures override && old(heap.allocator.list) != [] ==>
              r == FromSlab(old(heap.allocator.list)[0]) && heap.allocator.list == old(heap.allocator.list)[1..]
    ensures !(override && old(heap.allocator.list) != []) ==>
              r == FromMalloc && heap.allocator.list == old(heap.allocator.list)
  {
    if override {
      var res := heap.Allocate();
      if res.Some? {
        return FromSlab(res.value);
      }
    }
    r := FromMalloc;
  }

  /**
   * SlabObject::TryFree: back to the slab only when the flag is set and the
   * slab contains the object; otherwise to `free`.  The result says which.
   */
  method TryFree(heap: SlabHeap, override: bool, obj: nat) returns (toSlab: bool)
    modifies heap.allocator
    ensures toSlab <==> override && heap.Contains(obj)
    ensures toSlab ==> heap.allocator.list == Push(old(heap.allocator.list), obj)
    ensures !toSlab ==> heap.allocator.list == old(heap.allocator.list)
  {
    if override && heap.Contains(obj) {
      heap.Free(obj);
      return true;
    }
    return false;
  }

  /** The heap's size is the number of objects Initialize carved, and slot k has index k. */
  lemma HeapGeometry(memory: nat, memorySize: nat, objectSize: nat, k: nat)
    requires objectSize > 0 && k < memorySize / objectSize
    ensures (memory + (memorySize / objectSize) * objectSize - memory) / objectSize == memorySize / objectSize
    ensures var obj := Slots(memory, objectSize, memorySize / objectSize)[k];
      && memory <= obj < memory + (memorySize / objectSize) * objectSize
      && (obj - memory) / objectSize == k
  {
    var n := memorySize / objectSize;
    Bits.DivUnique(n * objectSize, objectSize, n, 0);
    SlotsIndex(memory, objectSize, n, k);
    Bits.DivUnique(k * objectSize, objectSize, k, 0);
    MulSucc(k, objectSize);
    Bits.MulLe(k + 1, n, objectSize);
  }
}
