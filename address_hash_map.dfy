/**
 * `AddressHashMap`: the bucketed map from guest addresses to IR nodes
 * (functions and blocks) that a module keeps.
 *
 * The address range [addr_start, addr_end] is cut into buckets of
 * `hash_item_size` bytes; each bucket is created on first use and holds an
 * intrusive red-black tree ordered by node address.  A tree is modelled by
 * its in-order sequence of nodes, strictly ascending by address; `find`,
 * `insert`, `erase`, `lower_bound` and `upper_bound` are functions on that
 * sequence.  Addresses are 64-bit `LocationDescriptor`s.
 */
module AddressMap {
  import opened Bits

  const Two64: nat := 0x1_0000_0000_0000_0000
  const DefaultHashItemSize: nat := 0x10_0000
  /** `max_node_size` in GetRange: 64 KB. */
  const MaxNodeSize: nat := 0x1_0000

  datatype Option<T> = None | Some(value: T)

  /** `AddressNode::node_type`. */
  datatype NodeKind = FunctionNode | BlockNode | OtherNode

  /** An IR node as the map sees it: its start address, its identity and its kind. */
  datatype Node = Node(addr: nat, id: nat, kind: NodeKind)

  // ---------------------------------------------------------------------
  // One bucket: an intrusive tree, as its in-order sequence

  predicate Sorted(t: seq<Node>)
  {
    forall i, j :: 0 <= i < j < |t| ==> t[i].addr < t[j].addr
  }

  /** `find(T{addr})`: the node of the tree with that address. */
  function Find(t: seq<Node>, a: nat): (r: Option<Node>)
    ensures r.Some? ==> r.value in t && r.value.addr == a
    ensures r.None? ==> forall n :: n in t ==> n.addr != a
  {
    if |t| == 0 then None
    else if t[0].addr == a then Some(t[0])
    else Find(t[1..], a)
  }

  /**
   * `insert(node)`: places the node in address order.  The tree keeps the
   * node it already has when the address is taken.
   */
  function Insert(t: seq<Node>, n: Node): (r: seq<Node>)
    requires Sorted(t)
    ensures Sorted(r)
    ensures forall m :: m in r <==> m in t || (m == n && Find(t, n.addr).None?)
    ensures |r| <= |t| + 1
  {
    if |t| == 0 then [n]
    else if n.addr < t[0].addr then [n] + t
    else if n.addr == t[0].addr then t
    else
      var rest := Insert(t[1..], n);
      assert forall m :: m in rest ==> t[0].addr < m.addr;
      [t[0]] + rest
  }

  /** `erase(find(T{addr}))`: drops the node with that address, if any. */
  function Erase(t: seq<Node>, a: nat): (r: seq<Node>)
    requires Sorted(t)
    ensures Sorted(r)
    ensures forall m :: m in r <==> m in t && m.addr != a
  {
    if |t| == 0 then []
    else if t[0].addr == a then
      assert forall m :: m in t[1..] ==> m.addr != a;
      t[1..]
    else
      var rest := Erase(t[1..], a);
      [t[0]] + rest
  }

  /** In a sorted tree, Find answers with the one node that has the address. */
  lemma {:induction false} FindSorted(t: seq<Node>, n: Node)
    requires Sorted(t) && n in t
    ensures Find(t, n.addr) == Some(n)
  {
    if t[0] != n {
      assert t[0].addr < n.addr;
      FindSorted(t[1..], n);
    }
  }

  /** Find after Insert: the inserted node at its address unless one was there. */
  lemma InsertFind(t: seq<Node>, n: Node, a: nat)
    requires Sorted(t)
    ensures Find(Insert(t, n), a) == (if a == n.addr && Find(t, a).None? then Some(n) else Find(t, a))
  {
    var t' := Insert(t, n);
    var f := Find(t', a);
    if f.Some? {
      FindSorted(t', f.value);
      if f.value in t { FindSorted(t, f.value); }
    } else if a == n.addr && Find(t, a).None? {
      FindSorted(t', n);
    }
  }

  /** Find after Erase: nothing at the erased address, the same elsewhere. */
  lemma EraseFind(t: seq<Node>, e: nat, a: nat)
    requires Sorted(t)
    ensures Find(Erase(t, e), a) == (if a == e then None else Find(t, a))
  {
    var t' := Erase(t, e);
    var f := Find(t', a);
    if f.Some? {
      FindSorted(t, f.value);
    }
  }

  /** `lower_bound(T{a})`: the index of the first node whose address is >= a. */
  function LowerBound(t: seq<Node>, a: nat): (r: nat)
    requires Sorted(t)
    ensures r <= |t|
    ensures forall i :: 0 <= i < r ==> t[i].addr < a
    ensures forall i :: r <= i < |t| ==> t[i].addr >= a
  {
    if |t| == 0 || t[0].addr >= a then 0 else 1 + LowerBound(t[1..], a)
  }

  /** `upper_bound(T{a})`: the index of the first node whose address is > a. */
  function UpperBound(t: seq<Node>, a: nat): (r: nat)
    requires Sorted(t)
    ensures r <= |t|
    ensures forall i :: 0 <= i < r ==> t[i].addr <= a
    ensures forall i :: r <= i < |t| ==> t[i].addr > a
  {
    if |t| == 0 || t[0].addr > a then 0 else 1 + UpperBound(t[1..], a)
  }

  /**
   * The nodes GetRange visits in one bucket: from lower_bound(start),
   * stepped back by one unless it is the first node, up to upper_bound(end).
   */
  function Window(t: seq<Node>, start: nat, end: nat): (r: seq<Node>)
    requires Sorted(t) && start <= end
  {
    var lo := LowerBound(t, start);
    var first := if lo > 0 then lo - 1 else lo;
    BoundsOrdered(t, start, end);
    t[first..UpperBound(t, end)]
  }

  lemma BoundsOrdered(t: seq<Node>, start: nat, end: nat)
    requires Sorted(t) && start <= end
    ensures LowerBound(t, start) <= UpperBound(t, end)
  {
  }

  /** The window holds every node of the bucket whose address lies in [start, end]. */
  lemma WindowHoldsRange(t: seq<Node>, start: nat, end: nat, n: Node)
    requires Sorted(t) && start <= end && n in t && start <= n.addr <= end
    ensures n in Window(t, start, end)
  {
    var i :| 0 <= i < |t| && t[i] == n;
    var lo := LowerBound(t, start);
    var first := if lo > 0 then lo - 1 else lo;
    assert first <= i < UpperBound(t, end);
    assert Window(t, start, end)[i - first] == n;
  }

  /** A node of the window is a node of the tree at or below `end`. */
  lemma WindowBounds(t: seq<Node>, start: nat, end: nat, n: Node)
    requires Sorted(t) && start <= end && n in Window(t, start, end)
    ensures n in t && n.addr <= end
  {
    var lo := LowerBound(t, start);
    var first := if lo > 0 then lo - 1 else lo;
    var k :| 0 <= k < |Window(t, start, end)| && Window(t, start, end)[k] == n;
    assert t[first + k] == n;
  }

  /**
   * Below start the window reaches back by one node: the last node of the
   * tree that starts before start is in it.
   */
  lemma WindowHoldsPredecessor(t: seq<Node>, start: nat, end: nat, n: Node)
    requires Sorted(t) && start <= end && n in t && n.addr < start
    requires forall m :: m in t && n.addr < m.addr ==> start <= m.addr
    ensures n in Window(t, start, end)
  {
    var i :| 0 <= i < |t| && t[i] == n;
    var lo := LowerBound(t, start);
    assert lo == i + 1 by {
      if i + 1 < |t| {
        assert t[i + 1] in t && n.addr < t[i + 1].addr;
      }
    }
    assert i < UpperBound(t, end);
    assert Window(t, start, end)[0] == n;
  }

  /** And by one node only: a node with another one between it and start is outside the window. */
  lemma WindowSkipsEarlier(t: seq<Node>, start: nat, end: nat, n: Node, m: Node)
    requires Sorted(t) && start <= end && n in t && m in t && n.addr < m.addr < start
    ensures n !in Window(t, start, end)
  {
    var i :| 0 <= i < |t| && t[i] == n;
    var j :| 0 <= j < |t| && t[j] == m;
    var lo := LowerBound(t, start);
    assert i < j < lo;
    var w := Window(t, start, end);
    BoundsOrdered(t, start, end);
    assert w == t[lo - 1..UpperBound(t, end)];
    forall k | 0 <= k < |w|
      ensures w[k] != n
    {
      assert w[k] == t[lo - 1 + k] && n.addr < t[lo - 1 + k].addr;
    }
  }

  /** A window is a slice of a sorted tree, hence sorted. */
  lemma WindowAscending(t: seq<Node>, start: nat, end: nat)
    requires Sorted(t) && start <= end
    ensures Sorted(Window(t, start, end))
  {
    var lo := LowerBound(t, start);
    var first := if lo > 0 then lo - 1 else lo;
    var w := Window(t, start, end);
    BoundsOrdered(t, start, end);
    assert w == t[first..UpperBound(t, end)];
    forall i, j | 0 <= i < j < |w|
      ensures w[i].addr < w[j].addr
    {
      assert w[i] == t[first + i] && w[j] == t[first + j];
    }
  }

  /** Two sorted runs, the first wholly below the second, concatenate to a sorted run. */
  lemma AppendAscending(a: seq<Node>, b: seq<Node>)
    requires Sorted(a) && Sorted(b)
    requires forall x, y :: x in a && y in b ==> x.addr < y.addr
    ensures Sorted(a + b)
  {
    var c := a + b;
    forall i, j | 0 <= i < j < |c|
      ensures c[i].addr < c[j].addr
    {
      if i < |a| && j >= |a| {
        assert c[i] in a && c[j] in b;
      } else if i >= |a| {
        assert c[i] == b[i - |a|] && c[j] == b[j - |a|];
      }
    }
  }

  /** The nodes of a sequence that overlap [start, end], in order. */
  function Overlapping(s: seq<Node>, start: nat, end: nat, overlap: (Node, nat, nat) -> bool): (r: seq<Node>)
    ensures forall n :: n in r <==> n in s && overlap(n, start, end)
  {
    if |s| == 0 then []
    else
      var rest := Overlapping(s[1..], start, end, overlap);
      if overlap(s[0], start, end) then [s[0]] + rest else rest
  }

  /** Filtering keeps a sorted sequence sorted. */
  lemma {:induction false} OverlappingAscending(s: seq<Node>, start: nat, end: nat, overlap: (Node, nat, nat) -> bool)
    requires Sorted(s)
    ensures Sorted(Overlapping(s, start, end, overlap))
  {
    if |s| > 0 {
      assert Sorted(s[1..]);
      OverlappingAscending(s[1..], start, end, overlap);
      var rest := Overlapping(s[1..], start, end, overlap);
      if overlap(s[0], start, end) {
        AppendAscending([s[0]], rest);
      }
    }
  }

  /** Every present bucket holds a sorted tree. */
  predicate BucketsSorted(buckets: seq<Option<seq<Node>>>)
  {
    forall k :: 0 <= k < |buckets| && buckets[k].Some? ==> Sorted(buckets[k].value)
  }

  /** What GetRange collects from one bucket: nothing if absent, else the overlapping nodes of its window. */
  function Hits(b: Option<seq<Node>>, start: nat, end: nat, overlap: (Node, nat, nat) -> bool): seq<Node>
    requires start <= end && (b.Some? ==> Sorted(b.value))
  {
    match b
    case None => []
    case Some(t) => Overlapping(Window(t, start, end), start, end, overlap)
  }

  /**
   * The scan of GetRange over buckets i..last (both included), concatenating
   * the overlapping nodes of each bucket's window.
   */
  function Scan(buckets: seq<Option<seq<Node>>>, i: nat, last: nat, start: nat, end: nat,
                overlap: (Node, nat, nat) -> bool): (r: seq<Node>)
    requires last < |buckets| && start <= end
    requires BucketsSorted(buckets)
    decreases last + 1 - i
  {
    if i > last then []
    else Hits(buckets[i], start, end, overlap) + Scan(buckets, i + 1, last, start, end, overlap)
  }

  /** Every node the scan returns overlaps the range and sits in a scanned bucket. */
  lemma {:induction false} ScanSound(buckets: seq<Option<seq<Node>>>, i: nat, last: nat, start: nat, end: nat,
                                     overlap: (Node, nat, nat) -> bool, n: Node) returns (k: nat)
    requires last < |buckets| && start <= end
    requires BucketsSorted(buckets)
    requires n in Scan(buckets, i, last, start, end, overlap)
    ensures overlap(n, start, end) && n.addr <= end
    ensures i <= k <= last && buckets[k].Some? && n in buckets[k].value
    decreases last + 1 - i
  {
    var here := Hits(buckets[i], start, end, overlap);
    assert Scan(buckets, i, last, start, end, overlap) == here + Scan(buckets, i + 1, last, start, end, overlap);
    if n in here {
      WindowBounds(buckets[i].value, start, end, n);
      k := i;
    } else {
      k := ScanSound(buckets, i + 1, last, start, end, overlap, n);
    }
  }

  /** A node of a scanned bucket whose address lies in [start, end] and that overlaps is returned. */
  lemma {:induction false} ScanComplete(buckets: seq<Option<seq<Node>>>, i: nat, last: nat, start: nat, end: nat,
                                        overlap: (Node, nat, nat) -> bool, k: nat, n: Node)
    requires last < |buckets| && start <= end
    requires BucketsSorted(buckets)
    requires i <= k <= last && buckets[k].Some? && n in buckets[k].value
    requires start <= n.addr <= end && overlap(n, start, end)
    ensures n in Scan(buckets, i, last, start, end, overlap)
    decreases last + 1 - i
  {
    var here := Hits(buckets[i], start, end, overlap);
    assert Scan(buckets, i, last, start, end, overlap) == here + Scan(buckets, i + 1, last, start, end, overlap);
    if k == i {
      WindowHoldsRange(buckets[k].value, start, end, n);
      assert n in here;
    } else {
      ScanComplete(buckets, i + 1, last, start, end, overlap, k, n);
    }
  }

  /** A node in the window of a scanned bucket that overlaps the range is returned. */
  lemma {:induction false} ScanHoldsWindow(buckets: seq<Option<seq<Node>>>, i: nat, last: nat, start: nat, end: nat,
                                           overlap: (Node, nat, nat) -> bool, k: nat, n: Node)
    requires last < |buckets| && start <= end
    requires BucketsSorted(buckets)
    requires i <= k <= last && buckets[k].Some? && n in Window(buckets[k].value, start, end)
    requires overlap(n, start, end)
    ensures n in Scan(buckets, i, last, start, end, overlap)
    decreases last + 1 - i
  {
    var here := Hits(buckets[i], start, end, overlap);
    assert Scan(buckets, i, last, start, end, overlap) == here + Scan(buckets, i + 1, last, start, end, overlap);
    if k == i {
      assert n in here;
    } else {
      ScanHoldsWindow(buckets, i + 1, last, start, end, overlap, k, n);
    }
  }

  /** Every node the scan returns lies in the window of a scanned bucket. */
  lemma {:induction false} ScanInWindow(buckets: seq<Option<seq<Node>>>, i: nat, last: nat, start: nat, end: nat,
                                        overlap: (Node, nat, nat) -> bool, n: Node)
    requires last < |buckets| && start <= end
    requires BucketsSorted(buckets)
    requires n in Scan(buckets, i, last, start, end, overlap)
    ensures exists k :: i <= k <= last && buckets[k].Some? && n in Window(buckets[k].value, start, end)
    decreases last + 1 - i
  {
    var here := Hits(buckets[i], start, end, overlap);
    assert Scan(buckets, i, last, start, end, overlap) == here + Scan(buckets, i + 1, last, start, end, overlap);
    if n !in here {
      ScanInWindow(buckets, i + 1, last, start, end, overlap, n);
      var k :| i + 1 <= k <= last && buckets[k].Some? && n in Window(buckets[k].value, start, end);
    }
  }

  // ---------------------------------------------------------------------
  // GetRange's first bucket

  /**
   * As written: `std::max(start - max_node_size, addr_start)` in 64-bit
   * unsigned arithmetic, so a start below 64 KB wraps to an address near
   * 2^64 that wins the max.
   */
  function ScanFromAsWritten(start: nat, addrStart: nat): (r: nat)
    ensures r >= addrStart
  {
    var back := (start - MaxNodeSize) % Two64;
    if back > addrStart then back else addrStart
  }

  /** The intended lower address: 64 KB below start, never below addr_start. */
  function ScanFrom(start: nat, addrStart: nat): (r: nat)
    ensures r >= addrStart
    ensures r <= start || r == addrStart
    ensures start >= addrStart + MaxNodeSize ==> r == start - MaxNodeSize
  {
    if start >= MaxNodeSize && start - MaxNodeSize > addrStart then start - MaxNodeSize else addrStart
  }

  /** `Hash(addr) = (addr - addr_start) / hash_item_size` for an address at or above addr_start. */
  function BucketOf(addr: nat, addrStart: nat, itemSize: nat): (r: nat)
    requires addr >= addrStart && itemSize > 0
  {
    (addr - addrStart) / itemSize
  }

  /** Hash is monotone: a lower address never maps to a later bucket. */
  lemma BucketMono(a: nat, b: nat, addrStart: nat, itemSize: nat)
    requires addrStart <= a <= b && itemSize > 0
    ensures BucketOf(a, addrStart, itemSize) <= BucketOf(b, addrStart, itemSize)
  {
    var qa, qb := (a - addrStart) / itemSize, (b - addrStart) / itemSize;
    DivMod(a - addrStart, itemSize);
    DivMod(b - addrStart, itemSize);
    if qa > qb {
      MulLe(qb + 1, qa, itemSize);
    }
  }

  /** Bucket k covers the addresses addr_start + [k * size, (k + 1) * size). */
  lemma BucketRange(addr: nat, addrStart: nat, itemSize: nat)
    requires addrStart <= addr && itemSize > 0
    ensures var k := BucketOf(addr, addrStart, itemSize);
            addrStart + k * itemSize <= addr < addrStart + (k + 1) * itemSize
  {
    DivMod(addr - addrStart, itemSize);
  }

  /** One whole bucket further up lies in a later bucket. */
  lemma BucketStep(a: nat, b: nat, addrStart: nat, itemSize: nat)
    requires addrStart <= a && a + itemSize <= b && itemSize > 0
    ensures BucketOf(a, addrStart, itemSize) < BucketOf(b, addrStart, itemSize)
  {
    var x := a - addrStart;
    DivMod(x, itemSize);
    DivUnique(x + itemSize, itemSize, x / itemSize + 1, x % itemSize);
    BucketMono(a + itemSize, b, addrStart, itemSize);
  }

  /**
   * With start below 64 KB, the first bucket GetRange computes lies past
   * the bucket of `end` (for any range ending a bucket or more below
   * 2^64 - 64 KB): no bucket is scanned, whatever the map holds.
   */
  lemma GetRangeAsWrittenSkipsLowStarts(start: nat, end: nat, addrStart: nat, itemSize: nat)
    requires start < MaxNodeSize && addrStart <= end && 0 < itemSize
    requires end + itemSize <= Two64 - MaxNodeSize
    ensures BucketOf(ScanFromAsWritten(start, addrStart), addrStart, itemSize) > BucketOf(end, addrStart, itemSize)
  {
    var back := ScanFromAsWritten(start, addrStart);
    assert back == start - MaxNodeSize + Two64;
    BucketStep(end, back, addrStart, itemSize);
  }

  /** From 64 KB on the subtraction does not wrap, and the written and the intended first address agree. */
  lemma ScanFromAgrees(start: nat, addrStart: nat)
    requires MaxNodeSize <= start < Two64
    ensures ScanFromAsWritten(start, addrStart) == ScanFrom(start, addrStart)
  {
    assert (start - MaxNodeSize) % Two64 == start - MaxNodeSize;
  }

  /** The intended first bucket is never past the bucket of any address in [start, end]. */
  lemma ScanFromCoversRange(start: nat, addr: nat, addrStart: nat, itemSize: nat)
    requires addrStart <= addr && start <= addr && 0 < itemSize
    ensures BucketOf(ScanFrom(start, addrStart), addrStart, itemSize) <= BucketOf(addr, addrStart, itemSize)
  {
    BucketMono(ScanFrom(start, addrStart), addr, addrStart, itemSize);
  }

  /** The nodes of a bucket table, by address. */
  ghost function ContentsOf(b: seq<Option<seq<Node>>>, addrStart: nat, addrEnd: nat, itemSize: nat): (m: map<nat, Node>)
    requires itemSize > 0 && |b| == (addrEnd - addrStart) / itemSize + 1 && addrStart <= addrEnd
    ensures forall a :: a in m ==> m[a].addr == a && addrStart <= a <= addrEnd
  {
    map a | addrStart <= a <= addrEnd && InTable(b, a, addrStart, addrEnd, itemSize).Some?
      :: InTable(b, a, addrStart, addrEnd, itemSize).value
  }

  /** The node at address `a` of a bucket table: Get without the table object. */
  function InTable(b: seq<Option<seq<Node>>>, a: nat, addrStart: nat, addrEnd: nat, itemSize: nat): (r: Option<Node>)
    requires itemSize > 0 && |b| == (addrEnd - addrStart) / itemSize + 1 && addrStart <= a <= addrEnd
    ensures r.Some? ==> r.value.addr == a
  {
    BucketMono(a, addrEnd, addrStart, itemSize);
    var k := BucketOf(a, addrStart, itemSize);
    if b[k].Some? then Find(b[k].value, a) else None
  }

  /** Storing a node into its bucket adds it to the table unless its address is taken. */
  lemma TableAfterStore(b0: seq<Option<seq<Node>>>, b1: seq<Option<seq<Node>>>, hash: nat, t: seq<Node>,
                        value: Node, addrStart: nat, addrEnd: nat, itemSize: nat)
    requires itemSize > 0 && addrStart <= value.addr <= addrEnd
    requires |b0| == (addrEnd - addrStart) / itemSize + 1 && hash == BucketOf(value.addr, addrStart, itemSize)
    requires hash < |b0| && Sorted(t) && t == (if b0[hash].Some? then b0[hash].value else [])
    requires b1 == b0[hash := Some(Insert(t, value))]
    ensures Find(t, value.addr).Some? ==> ContentsOf(b1, addrStart, addrEnd, itemSize) == ContentsOf(b0, addrStart, addrEnd, itemSize)
    ensures Find(t, value.addr).None? ==>
              ContentsOf(b1, addrStart, addrEnd, itemSize) == ContentsOf(b0, addrStart, addrEnd, itemSize)[value.addr := value]
  {
    var m0 := ContentsOf(b0, addrStart, addrEnd, itemSize);
    var m1 := ContentsOf(b1, addrStart, addrEnd, itemSize);
    var absent := Find(t, value.addr).None?;
    forall a | addrStart <= a <= addrEnd
      ensures InTable(b1, a, addrStart, addrEnd, itemSize)
           == (if a == value.addr && absent then Some(value) else InTable(b0, a, addrStart, addrEnd, itemSize))
    {
      StoreAt(b0, b1, hash, t, value, addrStart, addrEnd, itemSize, a);
    }
    var o := if absent then Some(value) else InTable(b0, value.addr, addrStart, addrEnd, itemSize);
    ContentsPointwise(b0, b1, value.addr, o, addrStart, addrEnd, itemSize);
    if !absent {
      StoreAt(b0, b1, hash, t, value, addrStart, addrEnd, itemSize, value.addr);
      assert o.Some? && value.addr in m0 && m0[value.addr] == o.value;
      assert m0[value.addr := o.value] == m0;
    }
  }

  /** Two tables that agree everywhere except at `addr`, where the new one holds `o`. */
  lemma ContentsPointwise(b0: seq<Option<seq<Node>>>, b1: seq<Option<seq<Node>>>, addr: nat, o: Option<Node>,
                          addrStart: nat, addrEnd: nat, itemSize: nat)
    requires itemSize > 0 && addrStart <= addr <= addrEnd
    requires |b0| == |b1| == (addrEnd - addrStart) / itemSize + 1
    requires forall a | addrStart <= a <= addrEnd ::
      InTable(b1, a, addrStart, addrEnd, itemSize) == (if a == addr then o else InTable(b0, a, addrStart, addrEnd, itemSize))
    ensures o.Some? ==> ContentsOf(b1, addrStart, addrEnd, itemSize) == ContentsOf(b0, addrStart, addrEnd, itemSize)[addr := o.value]
    ensures o.None? ==> ContentsOf(b1, addrStart, addrEnd, itemSize) == ContentsOf(b0, addrStart, addrEnd, itemSize) - {addr}
  {
    var m0 := ContentsOf(b0, addrStart, addrEnd, itemSize);
    var m1 := ContentsOf(b1, addrStart, addrEnd, itemSize);
    var m := if o.Some? then m0[addr := o.value] else m0 - {addr};
    forall a
      ensures a in m1 <==> a in m
    {
      if addrStart <= a <= addrEnd {
        assert InTable(b1, a, addrStart, addrEnd, itemSize) == (if a == addr then o else InTable(b0, a, addrStart, addrEnd, itemSize));
      }
    }
    forall a | a in m1
      ensures m1[a] == m[a]
    {
      assert InTable(b1, a, addrStart, addrEnd, itemSize) == (if a == addr then o else InTable(b0, a, addrStart, addrEnd, itemSize));
    }
    assert m1 == m;
  }

  /** TableAfterStore at one address. */
  lemma StoreAt(b0: seq<Option<seq<Node>>>, b1: seq<Option<seq<Node>>>, hash: nat, t: seq<Node>,
                value: Node, addrStart: nat, addrEnd: nat, itemSize: nat, a: nat)
    requires itemSize > 0 && addrStart <= value.addr <= addrEnd && addrStart <= a <= addrEnd
    requires |b0| == (addrEnd - addrStart) / itemSize + 1 && hash == BucketOf(value.addr, addrStart, itemSize)
    requires hash < |b0| && Sorted(t) && t == (if b0[hash].Some? then b0[hash].value else [])
    requires b1 == b0[hash := Some(Insert(t, value))]
    ensures InTable(b1, a, addrStart, addrEnd, itemSize)
         == (if a == value.addr && Find(t, value.addr).None? then Some(value) else InTable(b0, a, addrStart, addrEnd, itemSize))
  {
    var k := BucketOf(a, addrStart, itemSize);
    BucketMono(a, addrEnd, addrStart, itemSize);
    if k == hash {
      InsertFind(t, value, a);
      assert InTable(b1, a, addrStart, addrEnd, itemSize) == Find(Insert(t, value), a);
      assert InTable(b0, a, addrStart, addrEnd, itemSize) == Find(t, a);
    } else {
      assert b1[k] == b0[k];
    }
  }

  /** Erasing an address from its bucket removes it from the table. */
  lemma TableAfterErase(b0: seq<Option<seq<Node>>>, b1: seq<Option<seq<Node>>>, hash: nat, t: seq<Node>,
                        addr: nat, addrStart: nat, addrEnd: nat, itemSize: nat)
    requires itemSize > 0 && addrStart <= addr <= addrEnd
    requires |b0| == (addrEnd - addrStart) / itemSize + 1 && hash == BucketOf(addr, addrStart, itemSize)
    requires hash < |b0| && Sorted(t) && b0[hash] == Some(t)
    requires b1 == b0[hash := Some(Erase(t, addr))]
    ensures ContentsOf(b1, addrStart, addrEnd, itemSize) == ContentsOf(b0, addrStart, addrEnd, itemSize) - {addr}
  {
    var m0 := ContentsOf(b0, addrStart, addrEnd, itemSize);
    var m1 := ContentsOf(b1, addrStart, addrEnd, itemSize);
    forall a | addrStart <= a <= addrEnd
      ensures InTable(b1, a, addrStart, addrEnd, itemSize)
           == (if a == addr then None else InTable(b0, a, addrStart, addrEnd, itemSize))
    {
      var k := BucketOf(a, addrStart, itemSize);
      BucketMono(a, addrEnd, addrStart, itemSize);
      if k == hash {
        EraseFind(t, addr, a);
        assert InTable(b1, a, addrStart, addrEnd, itemSize) == Find(Erase(t, addr), a);
      } else {
        assert b1[k] == b0[k];
      }
    }
    ContentsPointwise(b0, b1, addr, None, addrStart, addrEnd, itemSize);
  }

  /** The body of GetRange for one present bucket: the window, then the overlapping nodes in it. */
  method BucketNodes(t: seq<Node>, start: nat, end: nat, overlap: (Node, nat, nat) -> bool) returns (here: seq<Node>)
    requires Sorted(t) && start <= end
    ensures here == Overlapping(Window(t, start, end), start, end, overlap)
  {
    BoundsOrdered(t, start, end);
    var lo := LowerBound(t, start);
    if lo > 0 {
      lo := lo - 1;
    }
    var hi := UpperBound(t, end);
    here := OverlappingIn(t[lo..hi], start, end, overlap);
  }

  /** The inner loop of GetRange: walks one window, keeping the overlapping nodes. */
  method OverlappingIn(window: seq<Node>, start: nat, end: nat, overlap: (Node, nat, nat) -> bool)
    returns (here: seq<Node>)
    ensures here == Overlapping(window, start, end, overlap)
  {
    var j := 0;
    here := [];
    while j < |window|
      invariant j <= |window|
      invariant here + Overlapping(window[j..], start, end, overlap) == Overlapping(window, start, end, overlap)
    {
      assert window[j..][1..] == window[j + 1..];
      if overlap(window[j], start, end) {
        here := here + [window[j]];
      }
      j := j + 1;
    }
  }

  /** One turn of GetRange's bucket loop moves bucket i's hits from the scan to the result. */
  lemma ScanStep(buckets: seq<Option<seq<Node>>>, i: nat, last: nat, start: nat, end: nat,
                 overlap: (Node, nat, nat) -> bool, nodes: seq<Node>, here: seq<Node>)
    requires i <= last < |buckets| && start <= end && BucketsSorted(buckets)
    requires here == Hits(buckets[i], start, end, overlap)
    ensures (nodes + here) + Scan(buckets, i + 1, last, start, end, overlap)
         == nodes + Scan(buckets, i, last, start, end, overlap)
  {
    var rest := Scan(buckets, i + 1, last, start, end, overlap);
    assert Scan(buckets, i, last, start, end, overlap) == here + rest;
    assert (nodes + here) + rest == nodes + (here + rest);
  }

  /** GetRange's loop over the buckets startHash..endHash. */
  method ScanBuckets(buckets: seq<Option<seq<Node>>>, startHash: nat, endHash: nat, start: nat, end: nat,
                     overlap: (Node, nat, nat) -> bool) returns (nodes: seq<Node>)
    requires endHash < |buckets| && start <= end
    requires BucketsSorted(buckets)
    ensures nodes == Scan(buckets, startHash, endHash, start, end, overlap)
  {
    nodes := [];
    if startHash > endHash {
      return;
    }
    var i := startHash;
    while i <= endHash
      invariant startHash <= i <= endHash + 1
      invariant nodes + Scan(buckets, i, endHash, start, end, overlap) == Scan(buckets, startHash, endHash, start, end, overlap)
    {
      var here := [];
      if buckets[i].Some? {
        here := BucketNodes(buckets[i].value, start, end, overlap);
      }
      ScanStep(buckets, i, endHash, start, end, overlap, nodes, here);
      nodes := nodes + here;
      i := i + 1;
    }
  }

  // ---------------------------------------------------------------------
  // The map

  class AddressHashMap {
    const addrStart: nat
    const addrEnd: nat
    const hashItemSize: nat
    /** Whether the bucket table is a std::vector (small ranges) or a VirtualVector. */
    const inStdVector: bool
    /** `hash_map`: one lazily created tree per bucket. */
    var buckets: seq<Option<seq<Node>>>

    predicate Valid()
      reads this
    {
      && hashItemSize > 0
      && addrStart <= addrEnd < Two64
      && |buckets| == (addrEnd - addrStart) / hashItemSize + 1
      && BucketsSorted(buckets)
      && (forall k, n :: 0 <= k < |buckets| && buckets[k].Some? && n in buckets[k].value ==>
            addrStart <= n.addr <= addrEnd && BucketOf(n.addr, addrStart, hashItemSize) == k)
    }

    /** The table has (end - start) / hash_item_size + 1 buckets, all absent. */
    constructor(start: nat, end: nat, itemSize: nat)
      requires start <= end < Two64 && 0 < itemSize
      ensures Valid()
      ensures addrStart == start && addrEnd == end && hashItemSize == itemSize
      ensures inStdVector <==> end - start <= itemSize * 512
      ensures |buckets| == (end - start) / itemSize + 1
      ensures forall k :: 0 <= k < |buckets| ==> buckets[k].None?
    {
      addrStart, addrEnd, hashItemSize := start, end, itemSize;
      inStdVector := end - start <= itemSize * 512;
      buckets := seq((end - start) / itemSize + 1, _ => None);
    }

    /** Hash(addr) picks a bucket of the table for every address of the range. */
    function Hash(addr: nat): (r: nat)
      requires Valid() && addrStart <= addr <= addrEnd
      reads this
      ensures r < |buckets|
    {
      var r := BucketOf(addr, addrStart, hashItemSize);
      BucketMono(addr, addrEnd, addrStart, hashItemSize);
      r
    }

    /** The nodes of the map, by address. */
    ghost function Contents(): (m: map<nat, Node>)
      requires Valid()
      reads this
    {
      ContentsOf(buckets, addrStart, addrEnd, hashItemSize)
    }

    /** Get returns the node stored at exactly that address, or null. */
    method Get(addr: nat) returns (r: Option<Node>)
      requires Valid() && addrStart <= addr <= addrEnd
      ensures r.Some? <==> addr in Contents()
      ensures r.Some? ==> r.value == Contents()[addr]
    {
      var hash := Hash(addr);
      match buckets[hash] {
        case None => r := None;
        case Some(t) => r := Find(t, addr);
      }
    }

    /**
     * Put<check_exist>: creates the bucket on first use and inserts the
     * node.  With check_exist, an existing node at that address makes it
     * return false and change nothing; without, the tree keeps the existing
     * node.  The caller passes the node's own address.
     */
    method Put(addr: nat, value: Node, checkExist: bool) returns (ok: bool)
      requires Valid() && addrStart <= addr <= addrEnd && value.addr == addr
      modifies this
      ensures Valid()
      ensures ok <==> !(checkExist && addr in old(Contents()))
      ensures addr in old(Contents()) ==> Contents() == old(Contents())
      ensures addr !in old(Contents()) ==> Contents() == old(Contents())[addr := value]
      ensures !ok ==> buckets == old(buckets)
    {
      var hash := Hash(addr);
      var t: seq<Node> := [];
      if buckets[hash].Some? {
        t := buckets[hash].value;
      }
      if checkExist && Find(t, addr).Some? {
        assert addr in Contents();
        return false;
      }
      buckets := buckets[hash := Some(Insert(t, value))];
      ok := true;
      TableAfterStore(old(buckets), buckets, hash, t, value, addrStart, addrEnd, hashItemSize);
    }

    /** Remove returns the node it erases, or null when the bucket or address is absent. */
    method Remove(addr: nat) returns (r: Option<Node>)
      requires Valid() && addrStart <= addr <= addrEnd
      modifies this
      ensures Valid()
      ensures r.Some? <==> addr in old(Contents())
      ensures r.Some? ==> r.value == old(Contents())[addr]
      ensures Contents() == old(Contents()) - {addr}
    {
      var hash := Hash(addr);
      if buckets[hash].None? {
        return None;
      }
      var t := buckets[hash].value;
      r := Find(t, addr);
      if r.Some? {
        buckets := buckets[hash := Some(Erase(t, addr))];
        TableAfterErase(old(buckets), buckets, hash, t, addr, addrStart, addrEnd, hashItemSize);
      }
    }

    /**
     * GetRange: the nodes overlapping [start, end], scanning the buckets from
     * the one holding 64 KB below start (never below addr_start) to the one
     * holding end.  Nodes come bucket by bucket, in address order within
     * each bucket.  `overlap` is the node type's own Overlap test.
     */
    method GetRange(start: nat, end: nat, overlap: (Node, nat, nat) -> bool) returns (nodes: seq<Node>)
      requires Valid() && start <= end && addrStart <= end <= addrEnd
      ensures nodes == Scan(buckets, BucketOf(ScanFrom(start, addrStart), addrStart, hashItemSize),
                            Hash(end), start, end, overlap)
    {
      var startHash := BucketOf(ScanFrom(start, addrStart), addrStart, hashItemSize);
      var endHash := Hash(end);
      nodes := ScanBuckets(buckets, startHash, endHash, start, end, overlap);
    }

    /**
     * GetRange as written: the first bucket is that of `start - 64 KB`
     * computed modulo 2^64; the loop runs zero times when that bucket lies
     * past the one holding end.
     */
    method GetRangeAsWritten(start: nat, end: nat, overlap: (Node, nat, nat) -> bool) returns (nodes: seq<Node>)
      requires Valid() && start <= end && addrStart <= end <= addrEnd
      ensures nodes == Scan(buckets, BucketOf(ScanFromAsWritten(start, addrStart), addrStart, hashItemSize),
                            Hash(end), start, end, overlap)
    {
      var startHash := BucketOf(ScanFromAsWritten(start, addrStart), addrStart, hashItemSize);
      nodes := ScanBuckets(buckets, startHash, Hash(end), start, end, overlap);
    }

    /**
     * As written, a range that starts below 64 KB finds nothing, even the
     * nodes at its very start, for any table whose addresses sit 64 KB and
     * one bucket below 2^64.
     */
    lemma GetRangeAsWrittenFindsNothing(start: nat, end: nat, overlap: (Node, nat, nat) -> bool)
      requires Valid() && start <= end && addrStart <= end <= addrEnd && start < MaxNodeSize
      requires addrEnd + hashItemSize <= Two64 - MaxNodeSize
      ensures Scan(buckets, BucketOf(ScanFromAsWritten(start, addrStart), addrStart, hashItemSize),
                   Hash(end), start, end, overlap) == []
    {
      GetRangeAsWrittenSkipsLowStarts(start, end, addrStart, hashItemSize);
    }

    /** From 64 KB on, the written and the corrected GetRange return the same nodes. */
    lemma GetRangeAgrees(start: nat, end: nat, overlap: (Node, nat, nat) -> bool)
      requires Valid() && start <= end && addrStart <= end <= addrEnd && MaxNodeSize <= start
      ensures Scan(buckets, BucketOf(ScanFromAsWritten(start, addrStart), addrStart, hashItemSize),
                   Hash(end), start, end, overlap)
           == Scan(buckets, BucketOf(ScanFrom(start, addrStart), addrStart, hashItemSize),
                   Hash(end), start, end, overlap)
    {
      ScanFromAgrees(start, addrStart);
    }

    /** GetRange returns nodes in strictly ascending address order, so no node twice. */
    lemma {:induction false} ScanAscending(i: nat, last: nat, start: nat, end: nat, overlap: (Node, nat, nat) -> bool)
      requires Valid() && last < |buckets| && start <= end
      ensures Sorted(Scan(buckets, i, last, start, end, overlap))
      decreases last + 1 - i
    {
      if i <= last {
        var here := Hits(buckets[i], start, end, overlap);
        var rest := Scan(buckets, i + 1, last, start, end, overlap);
        ScanAscending(i + 1, last, start, end, overlap);
        if buckets[i].Some? {
          var t := buckets[i].value;
          WindowAscending(t, start, end);
          OverlappingAscending(Window(t, start, end), start, end, overlap);
          forall x, y | x in here && y in rest
            ensures x.addr < y.addr
          {
            WindowBounds(t, start, end, x);
            var k := ScanSound(buckets, i + 1, last, start, end, overlap, y);
            if y.addr <= x.addr {
              BucketMono(y.addr, x.addr, addrStart, hashItemSize);
            }
          }
        }
        AppendAscending(here, rest);
      }
    }

    /** Every node GetRange returns is in the map and overlaps the range. */
    lemma GetRangeSound(start: nat, end: nat, overlap: (Node, nat, nat) -> bool, n: Node)
      requires Valid() && start <= end && addrStart <= end <= addrEnd
      requires n in Scan(buckets, BucketOf(ScanFrom(start, addrStart), addrStart, hashItemSize),
                         Hash(end), start, end, overlap)
      ensures overlap(n, start, end) && n.addr <= end
      ensures n.addr in Contents() && Contents()[n.addr] == n
    {
      var k := ScanSound(buckets, BucketOf(ScanFrom(start, addrStart), addrStart, hashItemSize),
                         Hash(end), start, end, overlap, n);
      FindSorted(buckets[k].value, n);
    }

    /** Every node of the map that starts inside [start, end] and overlaps it is returned. */
    lemma GetRangeComplete(start: nat, end: nat, overlap: (Node, nat, nat) -> bool, a: nat)
      requires Valid() && start <= end && addrStart <= end <= addrEnd
      requires a in Contents() && start <= a <= end && overlap(Contents()[a], start, end)
      ensures Contents()[a] in Scan(buckets, BucketOf(ScanFrom(start, addrStart), addrStart, hashItemSize),
                                    Hash(end), start, end, overlap)
    {
      var k := Hash(a);
      ScanFromCoversRange(start, a, addrStart, hashItemSize);
      BucketMono(a, end, addrStart, hashItemSize);
      ScanComplete(buckets, BucketOf(ScanFrom(start, addrStart), addrStart, hashItemSize),
                   Hash(end), start, end, overlap, k, Contents()[a]);
    }

    /**
     * The look-back: a node of the map that starts below start but no lower
     * than the first scanned address, overlaps the range, and is the last
     * node of the map before start, is returned.
     */
    lemma GetRangeLookBack(start: nat, end: nat, overlap: (Node, nat, nat) -> bool, a: nat)
      requires Valid() && start <= end && addrStart <= end <= addrEnd
      requires a in Contents() && ScanFrom(start, addrStart) <= a < start && overlap(Contents()[a], start, end)
      requires forall b :: b in Contents() && a < b ==> start <= b
      ensures Contents()[a] in Scan(buckets, BucketOf(ScanFrom(start, addrStart), addrStart, hashItemSize),
                                    Hash(end), start, end, overlap)
    {
      var k := Hash(a);
      var n := Contents()[a];
      var t := buckets[k].value;
      assert n in t;
      forall m | m in t && n.addr < m.addr
        ensures start <= m.addr
      {
        FindSorted(t, m);
        assert m.addr in Contents();
      }
      WindowHoldsPredecessor(t, start, end, n);
      BucketMono(ScanFrom(start, addrStart), a, addrStart, hashItemSize);
      BucketMono(a, end, addrStart, hashItemSize);
      ScanHoldsWindow(buckets, BucketOf(ScanFrom(start, addrStart), addrStart, hashItemSize),
                      Hash(end), start, end, overlap, k, n);
    }

    /**
     * The look-back reaches one node per bucket only: a node with another
     * node of its bucket between it and start is not returned, whether or
     * not it overlaps the range.
     */
    lemma GetRangeLookBackOneNode(start: nat, end: nat, overlap: (Node, nat, nat) -> bool, a: nat, b: nat)
      requires Valid() && start <= end && addrStart <= end <= addrEnd
      requires a in Contents() && b in Contents() && a < b < start && Hash(a) == Hash(b)
      ensures Contents()[a] !in Scan(buckets, BucketOf(ScanFrom(start, addrStart), addrStart, hashItemSize),
                                     Hash(end), start, end, overlap)
    {
      var n := Contents()[a];
      var t := buckets[Hash(a)].value;
      assert n in t && Contents()[b] in t;
      if n in Scan(buckets, BucketOf(ScanFrom(start, addrStart), addrStart, hashItemSize),
                   Hash(end), start, end, overlap) {
        ScanInWindow(buckets, BucketOf(ScanFrom(start, addrStart), addrStart, hashItemSize),
                     Hash(end), start, end, overlap, n);
        var k :| 0 <= k < |buckets| && buckets[k].Some? && n in Window(buckets[k].value, start, end);
        WindowBounds(buckets[k].value, start, end, n);
        WindowSkipsEarlier(t, start, end, n, Contents()[b]);
        assert false;
      }
    }
  }
}
