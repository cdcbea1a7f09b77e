/**
 * `AssemblerBuffer`: the growable byte area the assembler emits into.
 *
 * `contents_`, `cursor_` and `limit_` are pointers into one data area; the
 * model keeps the area as a byte sequence `data` and the two pointers as
 * offsets from `contents_`: Size() is `size` (cursor - contents) and the
 * limit sits kMinimumGap bytes before the end of the area, so Capacity()
 * equals |data|.  Fixups form a list threaded through their `previous`
 * pointers; slow paths form a singly linked queue through `next`.  Values
 * are read and written little-endian (the host byte order of the targets).
 */
module RiscvBuffer {
  import opened Bits
  import opened RiscvMemory

  const MinimumGap: nat := 32
  const SizeTBits: nat := 64

  /** A position in generated code that is processed after copying. */
  class AssemblerFixup {
    var previous: AssemblerFixup?
    var position: int

    constructor()
      ensures previous == null
    {
      previous := null;
    }
  }

  /** A queued out-of-line code sequence. */
  class SlowPath {
    var next: SlowPath?

    constructor()
      ensures next == null
    {
      next := null;
    }
  }

  /**
   * Load and Store guard with `CHECK_LE(position, Size() - static_cast<int>(sizeof(T)))`.
   * The int operand is converted to size_t, so the subtraction wraps when
   * Size() < sizeof(T).
   */
  predicate LoadGuardAsWritten(position: nat, size: nat, n: nat)
  {
    position <= (size - n) % Pow2(SizeTBits)
  }

  /** The guard the check evidently means: the n bytes lie below Size(). */
  predicate LoadGuard(position: nat, size: nat, n: nat)
  {
    position + n <= size
  }

  /** Whenever Size() >= sizeof(T), the written guard is the intended one. */
  lemma LoadGuardAgrees(position: nat, size: nat, n: nat)
    requires n <= size < Pow2(SizeTBits)
    ensures LoadGuardAsWritten(position, size, n) <==> LoadGuard(position, size, n)
  {
    ModSmall(size - n, Pow2(SizeTBits));
  }

  /**
   * On an empty buffer the written guard admits Load<uint32_t>(0), which
   * reads four bytes that were never emitted.
   */
  lemma LoadGuardAdmitsEmptyRead()
    ensures LoadGuardAsWritten(0, 0, 4) && !LoadGuard(0, 0, 4)
  {
  }

  /** memmove of n bytes from old position to new position, inside d. */
  function Moved(d: seq<byte>, newPosition: nat, oldPosition: nat, n: nat): (r: seq<byte>)
    requires oldPosition + n <= |d| && newPosition + n <= |d|
    ensures |r| == |d|
    ensures forall j :: 0 <= j < |d| ==>
      r[j] == if newPosition <= j < newPosition + n then d[oldPosition + (j - newPosition)] else d[j]
  {
    d[..newPosition] + d[oldPosition..oldPosition + n] + d[newPosition + n..]
  }

  class AssemblerBuffer {
    var data: seq<byte>
    var size: nat
    var limit: nat
    var hasEnsuredCapacity: bool
    var fixup: AssemblerFixup?
    var slowPath: SlowPath?
    ghost var slowPaths: seq<SlowPath>

    /** The data area ends kMinimumGap bytes past the limit, and the cursor is inside it. */
    predicate AreaValid()
      reads this
    {
      |data| == limit + MinimumGap && size <= |data|
    }

    /** `slowPath` heads a null-terminated chain through exactly the nodes of `slowPaths`. */
    ghost predicate QueueValid()
      reads this, slowPaths
    {
      (slowPath == null <==> |slowPaths| == 0) &&
      (|slowPaths| > 0 ==> slowPath == slowPaths[0]) &&
      (forall i :: 0 <= i < |slowPaths| - 1 ==> slowPaths[i].next == slowPaths[i + 1]) &&
      (|slowPaths| > 0 ==> slowPaths[|slowPaths| - 1].next == null) &&
      (forall i, j :: 0 <= i < j < |slowPaths| ==> slowPaths[i] != slowPaths[j])
    }

    ghost predicate Valid()
      reads this, slowPaths
    {
      AreaValid() && QueueValid()
    }

    function Size(): nat
      reads this
    {
      size
    }

    function Capacity(): nat
      reads this
    {
      limit + MinimumGap
    }

    /**
     * The allocator is not part of the model: the initial data area is
     * given, at least kMinimumGap bytes long.
     */
    constructor(initial: seq<byte>)
      requires |initial| >= MinimumGap
      ensures Valid() && data == initial && size == 0 && Capacity() == |initial|
      ensures !hasEnsuredCapacity && fixup == null && slowPaths == []
    {
      data := initial;
      size := 0;
      limit := |initial| - MinimumGap;
      hasEnsuredCapacity := false;
      fixup := null;
      slowPath := null;
      slowPaths := [];
    }

    /**
     * ExtendCapacity(min_capacity): the body is not part of the model; its
     * effect is a larger area that keeps the old bytes.  `grown` is the new
     * capacity and `fill` the indeterminate bytes of the new tail.
     */
    method ExtendCapacity(minCapacity: nat, grown: nat, fill: seq<byte>)
      requires Valid() && minCapacity > Capacity()
      requires grown >= minCapacity && |fill| == grown - |data|
      modifies this
      ensures Valid() && Capacity() == grown && data == old(data) + fill
      ensures size == old(size) && hasEnsuredCapacity == old(hasEnsuredCapacity)
      ensures fixup == old(fixup) && slowPath == old(slowPath) && slowPaths == old(slowPaths)
    {
      data := data + fill;
      limit := grown - MinimumGap;
    }

    /**
     * The debug EnsureCapacity scope on entry: extend when the cursor is
     * past the limit, then record the gap.  Its CHECK_GE(gap_, kMinimumGap)
     * holds whenever ExtendCapacity delivers what it is asked for.
     */
    method BeginEnsureCapacity(grown: nat, fill: seq<byte>) returns (gap: int)
      requires Valid() && !hasEnsuredCapacity
      requires size > limit ==> grown >= size + MinimumGap && |fill| == grown - |data|
      modifies this
      ensures Valid() && hasEnsuredCapacity && gap == Capacity() - Size()
      ensures gap >= MinimumGap
      ensures size == old(size) && data[..size] == old(data[..size])
      ensures fixup == old(fixup) && slowPath == old(slowPath) && slowPaths == old(slowPaths)
    {
      if size > limit {
        ExtendCapacity(size + MinimumGap, grown, fill);
      }
      gap := Capacity() - Size();
      hasEnsuredCapacity := true;
    }

    /** The scope on exit: the instruction took no more than kMinimumGap bytes. */
    method EndEnsureCapacity(gap: int)
      requires Valid() && gap - (Capacity() - Size()) <= MinimumGap
      modifies this
      ensures Valid() && !hasEnsuredCapacity
      ensures data == old(data) && size == old(size) && limit == old(limit)
      ensures fixup == old(fixup) && slowPath == old(slowPath) && slowPaths == old(slowPaths)
    {
      hasEnsuredCapacity := false;
    }

    /** Emit<T>: write the n bytes of value at the cursor and advance it by n. */
    method Emit(value: nat, n: nat)
      requires Valid() && hasEnsuredCapacity
      requires n == 1 || n == 2 || n == 4 || n == 8
      requires value < Pow2(8 * n) && size + n <= |data|
      modifies this
      ensures Valid() && Size() == old(Size()) + n
      ensures data == Stored(old(data), old(size), value, n)
      ensures limit == old(limit) && hasEnsuredCapacity
      ensures fixup == old(fixup) && slowPath == old(slowPath) && slowPaths == old(slowPaths)
    {
      data := Stored(data, size, value, n);
      size := size + n;
    }

    /** Load<T>(position), under the guard position + sizeof(T) <= Size(). */
    method Load(position: nat, n: nat) returns (v: nat)
      requires Valid() && (n == 1 || n == 2 || n == 4 || n == 8)
      requires LoadGuard(position, Size(), n)
      ensures v == DecodeLE(data[position..position + n])
      ensures Stored(data, position, v, n) == data
    {
      v := DecodeLE(data[position..position + n]);
      StoreLoaded(data, position, n);
    }

    /** Store<T>(position, value), under the same guard as Load. */
    method Store(position: nat, value: nat, n: nat)
      requires Valid() && (n == 1 || n == 2 || n == 4 || n == 8)
      requires value < Pow2(8 * n) && LoadGuard(position, Size(), n)
      modifies this
      ensures Valid() && data == Stored(old(data), position, value, n)
      ensures size == old(size) && limit == old(limit) && hasEnsuredCapacity == old(hasEnsuredCapacity)
      ensures fixup == old(fixup) && slowPath == old(slowPath) && slowPaths == old(slowPaths)
    {
      data := Stored(data, position, value, n);
    }

    /**
     * Load<T>(position) under the guard as written.  Where Size() < sizeof(T)
     * the guard admits any position: a read that stays in the data area
     * returns bytes at or past the cursor, which were never emitted, and one
     * that leaves it is undefined behaviour (ok false).
     */
    method LoadAsWritten(position: nat, n: nat) returns (ok: bool, v: nat)
      requires Valid() && (n == 1 || n == 2 || n == 4 || n == 8)
      requires LoadGuardAsWritten(position, Size(), n)
      ensures ok <==> position + n <= |data|
      ensures ok ==> v == DecodeLE(data[position..position + n])
      ensures LoadGuard(position, Size(), n) ==> ok
    {
      ok := position + n <= |data|;
      v := 0;
      if ok {
        v := DecodeLE(data[position..position + n]);
      }
    }

    /** Store<T>(position, value) under the guard as written; ok false is a write past the data area. */
    method StoreAsWritten(position: nat, value: nat, n: nat) returns (ok: bool)
      requires Valid() && (n == 1 || n == 2 || n == 4 || n == 8)
      requires value < Pow2(8 * n) && LoadGuardAsWritten(position, Size(), n)
      modifies this
      ensures ok <==> position + n <= old(|data|)
      ensures Valid() && data == if ok then Stored(old(data), position, value, n) else old(data)
      ensures size == old(size) && limit == old(limit) && hasEnsuredCapacity == old(hasEnsuredCapacity)
      ensures fixup == old(fixup) && slowPath == old(slowPath) && slowPaths == old(slowPaths)
    {
      ok := position + n <= |data|;
      if ok {
        data := Stored(data, position, value, n);
      }
    }

    /**
     * On an empty buffer the written guard lets Load<uint32_t>(0) through,
     * and it returns the first four bytes of the area, none of them emitted.
     */
    lemma LoadAsWrittenReadsUnemitted()
      requires Valid() && Size() == 0
      ensures LoadGuardAsWritten(0, Size(), 4) && !LoadGuard(0, Size(), 4) && 4 <= |data|
    {
      LoadGuardAdmitsEmptyRead();
    }

    /** Resize(new_size): extend when new_size exceeds the capacity, then move the cursor. */
    method Resize(newSize: nat, grown: nat, fill: seq<byte>)
      requires Valid()
      requires newSize > Capacity() ==> grown >= newSize && |fill| == grown - |data|
      modifies this
      ensures Valid() && Size() == newSize
      ensures data == if newSize > old(Capacity()) then old(data) + fill else old(data)
      ensures hasEnsuredCapacity == old(hasEnsuredCapacity)
      ensures fixup == old(fixup) && slowPath == old(slowPath) && slowPaths == old(slowPaths)
    {
      if newSize > Capacity() {
        ExtendCapacity(newSize, grown, fill);
      }
      size := newSize;
    }

    /** Move: memmove of size bytes inside the emitted code (DCHECKed bounds). */
    method Move(newPosition: nat, oldPosition: nat, n: nat)
      requires Valid()
      requires oldPosition + n <= Size() && newPosition + n <= Size()
      modifies this
      ensures Valid() && data == Moved(old(data), newPosition, oldPosition, n)
      ensures size == old(size) && limit == old(limit) && hasEnsuredCapacity == old(hasEnsuredCapacity)
      ensures fixup == old(fixup) && slowPath == old(slowPath) && slowPaths == old(slowPaths)
    {
      data := Moved(data, newPosition, oldPosition, n);
    }

    /** EmitFixup: push the fixup on the list, stamped with the current size. */
    method EmitFixup(f: AssemblerFixup)
      requires Valid()
      modifies this, f
      ensures Valid() && fixup == f && f.previous == old(fixup) && f.position == Size()
      ensures data == old(data) && size == old(size) && limit == old(limit)
      ensures hasEnsuredCapacity == old(hasEnsuredCapacity)
      ensures slowPath == old(slowPath) && slowPaths == old(slowPaths)
    {
      f.previous := fixup;
      f.position := size;
      fixup := f;
    }

    lemma NextInQueue(k: nat)
      requires QueueValid() && k < |slowPaths| - 1
      ensures slowPaths[k].next == slowPaths[k + 1]
    {
    }

    /** EnqueueSlowPath: walk to the tail of the queue and append there. */
    method EnqueueSlowPath(sp: SlowPath)
      requires Valid() && sp.next == null && sp !in slowPaths
      modifies this, slowPaths
      ensures Valid() && slowPaths == old(slowPaths) + [sp]
      ensures data == old(data) && size == old(size) && limit == old(limit)
      ensures hasEnsuredCapacity == old(hasEnsuredCapacity) && fixup == old(fixup)
    {
      if slowPath == null {
        slowPath := sp;
        slowPaths := [sp];
      } else {
        var cur := slowPath;
        ghost var k := 0;
        if k < |slowPaths| - 1 {
          NextInQueue(k);
        }
        while cur.next != null
          invariant unchanged(this) && Valid()
          invariant 0 <= k < |slowPaths| && cur == slowPaths[k]
          invariant cur.next == null ==> k == |slowPaths| - 1
          decreases |slowPaths| - k
        {
          cur := cur.next;
          k := k + 1;
          if k < |slowPaths| - 1 {
            NextInQueue(k);
          }
        }
        assert k == |slowPaths| - 1;
        cur.next := sp;
        slowPaths := slowPaths + [sp];
      }
    }

    /**
     * EmitSlowPaths: detach the queue and emit every slow path in queue
     * order; `emitted` is that order.
     */
    method EmitSlowPaths() returns (emitted: seq<SlowPath>)
      requires Valid()
      modifies this
      ensures Valid() && emitted == old(slowPaths)
      ensures slowPath == null && slowPaths == []
      ensures data == old(data) && size == old(size) && limit == old(limit)
      ensures hasEnsuredCapacity == old(hasEnsuredCapacity) && fixup == old(fixup)
    {
      var cur := slowPath;
      ghost var nodes := slowPaths;
      slowPath := null;
      slowPaths := [];
      emitted := [];
      while cur != null
        invariant |emitted| <= |nodes| && emitted == nodes[..|emitted|]
        invariant |emitted| < |nodes| ==> cur == nodes[|emitted|]
        invariant |emitted| == |nodes| ==> cur == null
        invariant forall i :: 0 <= i < |nodes| - 1 ==> nodes[i].next == nodes[i + 1]
        invariant |nodes| > 0 ==> nodes[|nodes| - 1].next == null
        decreases |nodes| - |emitted|
      {
        emitted := emitted + [cur];
        cur := cur.next;
      }
    }
  }

  /** On an empty queue, enqueueing a then b and emitting gives [a, b]. */
  method EnqueueOrder(buffer: AssemblerBuffer, a: SlowPath, b: SlowPath) returns (emitted: seq<SlowPath>)
    requires buffer.Valid() && buffer.slowPaths == [] && a != b
    requires a.next == null && b.next == null
    modifies buffer, a
    ensures emitted == [a, b] && buffer.slowPaths == []
  {
    buffer.EnqueueSlowPath(a);
    buffer.EnqueueSlowPath(b);
    emitted := buffer.EmitSlowPaths();
  }
}
