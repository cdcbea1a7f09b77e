/**
 * `Module`: the per-address-range registry of IR nodes and code caches.
 *
 * Nodes (functions and blocks) live in an AddressHashMap keyed by their
 * start location; the module holds one reference on every function or
 * block node it has registered (`AddNodeRef`) and gives it back on removal
 * (`ReleaseNodeRef`).  Machine code is allocated from a list of code caches
 * indexed from 0 in creation order.  The reader-writer locks are not part
 * of the model: every operation runs as one sequential step.
 */
module BackendModule {
  import opened Bits
  import Alignment
  import opened BitFields
  import opened AddressMap

  const MB: nat := 0x10_0000
  const Two32: nat := 0x1_0000_0000

  // ---------------------------------------------------------------------
  // Code cache sizing

  /**
   * ModuleCodeCacheSize: twice the request rounded up to the page size for
   * requests up to 256 MB, 512 MB above; the result is a u32.
   */
  function ModuleCodeCacheSize(s: nat, pageSize: nat): nat
    requires 0 < pageSize && s < Two64
  {
    if s <= 256 * MB then
      Pow2Words();
      Alignment.AlignUp(2 * s, pageSize, 64) % Two32
    else 512 * MB
  }

  /** For a page size below 1 GB: at most 256 MB gives the least page multiple >= 2 * s. */
  lemma CodeCacheSizeSpec(s: nat, pageSize: nat)
    requires 0 < pageSize <= 0x4000_0000 && s < Two64
    ensures s <= 256 * MB ==>
              && ModuleCodeCacheSize(s, pageSize) % pageSize == 0
              && 2 * s <= ModuleCodeCacheSize(s, pageSize) < 2 * s + pageSize
    ensures s > 256 * MB ==> ModuleCodeCacheSize(s, pageSize) == 512 * MB
    ensures s <= 512 * MB ==> s <= ModuleCodeCacheSize(s, pageSize)
  {
    if s <= 256 * MB {
      Pow2Words();
      Alignment.AlignUpIsLeastMultiple(2 * s, pageSize, 64);
      ModSmall(Alignment.AlignUp(2 * s, pageSize, 64), Two32);
    }
  }

  // ---------------------------------------------------------------------
  // Code caches

  /**
   * A code cache, seen as its capacity and the bytes handed out so far.
   * `AllocCode` succeeds while the request still fits.
   */
  datatype CodeCache = CodeCache(capacity: nat, used: nat)

  /** A piece of a code cache: its offset and size. */
  datatype CodeBuffer = CodeBuffer(offset: nat, size: nat)

  predicate Fits(c: CodeCache, size: nat)
  {
    c.used + size <= c.capacity
  }

  /** `AllocCode` on a cache the request fits in: the buffer starts at the first unused byte. */
  function AllocCode(c: CodeCache, size: nat): (r: (CodeBuffer, CodeCache))
    requires Fits(c, size)
    ensures r.0.size == size && r.1.capacity == c.capacity
    ensures c.used <= r.0.offset && r.0.offset + size <= r.1.used <= r.1.capacity
  {
    (CodeBuffer(c.used, size), CodeCache(c.capacity, c.used + size))
  }

  /** The first cache, in index order, the request fits in. */
  function FirstFit(caches: seq<CodeCache>, size: nat): (r: Option<nat>)
    ensures r.Some? ==> r.value < |caches| && Fits(caches[r.value], size)
    ensures r.Some? ==> forall k :: 0 <= k < r.value ==> !Fits(caches[k], size)
    ensures r.None? ==> forall k :: 0 <= k < |caches| ==> !Fits(caches[k], size)
  {
    if |caches| == 0 then None
    else if Fits(caches[0], size) then Some(0)
    else
      match FirstFit(caches[1..], size)
      case None => None
      case Some(k) => Some(k + 1)
  }

  /**
   * The request AllocCodeCache places in a cache it has just created: the
   * cache has ModuleCodeCacheSize(size) bytes, so the request fits exactly
   * when it is no larger than that.
   */
  predicate FreshCacheHolds(size: nat, pageSize: nat)
    requires 0 < pageSize && size < Two64
  {
    Fits(CodeCache(ModuleCodeCacheSize(size, pageSize), 0), size)
  }

  /** Every request up to 512 MB fits in the cache created for it. */
  lemma FreshCacheHoldsUpTo512MB(size: nat, pageSize: nat)
    requires 0 < pageSize <= 0x4000_0000 && size <= 512 * MB
    ensures FreshCacheHolds(size, pageSize)
  {
    CodeCacheSizeSpec(size, pageSize);
  }

  /**
   * As written, AllocCodeCache dereferences the optional that AllocCode
   * returns on the fresh cache without checking it.  A u32 request of
   * 512 MB + 1 gets a 512 MB cache, which cannot hold it, so that
   * optional is empty.
   */
  lemma FreshCacheTooSmall(pageSize: nat)
    requires 0 < pageSize <= 0x4000_0000
    ensures 512 * MB + 1 < Two32
    ensures !FreshCacheHolds(512 * MB + 1, pageSize)
  {
    CodeCacheSizeSpec(512 * MB + 1, pageSize);
  }

  // ---------------------------------------------------------------------
  // JIT cache entries

  /** `JitState`, stored as 0..3 in a 2-bit field. */
  datatype JitState = JitNone | JitQueue | Cached | Deprecated

  function StateCode(s: JitState): (r: nat)
    ensures r < 4
  {
    match s
    case JitNone => 0
    case JitQueue => 1
    case Cached => 2
    case Deprecated => 3
  }

  function StateOfCode(c: nat): (r: JitState)
    requires c < 4
    ensures StateCode(r) == c
  {
    if c == 0 then JitNone else if c == 1 then JitQueue else if c == 2 then Cached else Deprecated
  }

  const WordBits: nat := 64

  /**
   * `JitCache`: four BitField members, each in its own u64: State<0,2>,
   * CacheID<3,6>, Offset<10,32> and Size<42,22>.
   */
  datatype JitCache = JitCache(stateWord: nat, cacheIdWord: nat, offsetWord: nat, sizeWord: nat)

  /**
   * `*field` of a JitCache member: the `bits` bits from bit `position` up.
   * ReadJitFieldIsBitField shows this is the BitField read of a u64.
   */
  function ReadJitField(w: nat, position: nat, bits: nat): (r: nat)
    ensures r < Pow2(bits)
  {
    Shr(w, position) % Pow2(bits)
  }

  lemma ReadJitFieldIsBitField(w: nat, position: nat, bits: nat, width: nat)
    requires 0 < bits && position + bits <= width && 32 <= width
    ensures ReadJitField(w, position, bits) == ReadField(w, position, bits, width)
  {
    var r := ReadJitField(w, position, bits);
    ReadBits(w, position, bits, width);
    ReadBound(w, position, bits, width);
    forall i | 0 <= i < bits ensures Bit(r, i) == Bit(ReadField(w, position, bits, width), i) {
      ModLowBit(Shr(w, position), bits, i);
      ShrBit(w, position, i);
    }
    BitsEqual(r, ReadField(w, position, bits, width), bits);
  }

  /** Assigning a value that fits the field, then reading the field, gives the value back. */
  lemma ReadJitFieldAfterWrite(w: nat, v: nat, position: nat, bits: nat, width: nat)
    requires 0 < bits && position + bits <= width && 32 <= width
    requires w < Pow2(width) && v < Pow2(bits)
    ensures v < Pow2(width)
    ensures ReadJitField(Written(w, v, position, bits, width), position, bits) == v
  {
    Pow2Mono(bits, width);
    ReadAfterWrite(w, v, position, bits, width);
    ReadJitFieldIsBitField(Written(w, v, position, bits, width), position, bits, width);
    ModSmall(v, Pow2(bits));
  }

  function JitStateOf(j: JitCache): JitState
  {
    Pow2Small();
    StateOfCode(ReadJitField(j.stateWord, 0, 2))
  }

  function CacheIdOf(j: JitCache): nat
  {
    ReadJitField(j.cacheIdWord, 3, 6)
  }

  function OffsetOf(j: JitCache): nat
  {
    ReadJitField(j.offsetWord, 10, 32)
  }

  /** An executable address: `GetExePtr(offset)` of the cache with that index. */
  datatype ExecPtr = ExecPtr(cacheId: nat, offset: nat)

  lemma StateCodeRoundTrip(s: JitState)
    ensures StateOfCode(StateCode(s)) == s
  {
  }

  /** The entry after `state = s; cache_id = id; offset = offset`, each assignment a BitField write. */
  function Assigned(j: JitCache, s: JitState, id: nat, offset: nat): JitCache
    requires j.stateWord < Two64 && j.cacheIdWord < Two64 && j.offsetWord < Two64
    requires id < 64 && offset < Two32
  {
    Pow2Words();
    JitCache(Written(j.stateWord, StateCode(s), 0, 2, WordBits),
             Written(j.cacheIdWord, id, 3, 6, WordBits),
             Written(j.offsetWord, offset, 10, 32, WordBits), j.sizeWord)
  }

  /** A JitCache whose fields were assigned a state, a cache id and an offset reads them back. */
  lemma JitFieldsRoundTrip(j: JitCache, s: JitState, id: nat, offset: nat)
    requires j.stateWord < Two64 && j.cacheIdWord < Two64 && j.offsetWord < Two64
    requires id < 64 && offset < Two32
    ensures JitStateOf(Assigned(j, s, id, offset)) == s
    ensures CacheIdOf(Assigned(j, s, id, offset)) == id
    ensures OffsetOf(Assigned(j, s, id, offset)) == offset
  {
    StateFieldRoundTrip(j, s, id, offset);
    Pow2Words();
    Pow2Small();
    ReadJitFieldAfterWrite(j.cacheIdWord, id, 3, 6, WordBits);
    ReadJitFieldAfterWrite(j.offsetWord, offset, 10, 32, WordBits);
  }

  lemma StateFieldRoundTrip(j: JitCache, s: JitState, id: nat, offset: nat)
    requires j.stateWord < Two64 && j.cacheIdWord < Two64 && j.offsetWord < Two64
    requires id < 64 && offset < Two32
    ensures JitStateOf(Assigned(j, s, id, offset)) == s
  {
    Pow2Words();
    Pow2Small();
    var w := Assigned(j, s, id, offset);
    ReadJitFieldAfterWrite(j.stateWord, StateCode(s), 0, 2, WordBits);
    assert ReadJitField(w.stateWord, 0, 2) == StateCode(s);
    StateCodeRoundTrip(s);
  }

  // ---------------------------------------------------------------------
  // Node references

  /** `ToNodeRef`: a reference to a function or block node, empty for any other kind. */
  function ToNodeRef(n: Node): (r: Option<Node>)
    ensures r.Some? <==> n.kind != OtherNode
    ensures r.Some? ==> r.value == n
  {
    if n.kind == OtherNode then None else Some(n)
  }

  /** The kinds whose reference count AddNodeRef and ReleaseNodeRef touch. */
  predicate Counted(n: Node)
  {
    n.kind != OtherNode
  }

  /** `AddNodeRef`: one more reference on a function or block node. */
  function AddRef(refs: map<Node, nat>, n: Node): (r: map<Node, nat>)
    ensures Counted(n) ==> n in r && r[n] == (if n in refs then refs[n] else 0) + 1
    ensures forall m :: m != n || !Counted(n) ==> (m in r <==> m in refs) && (m in refs ==> r[m] == refs[m])
  {
    if Counted(n) then refs[n := (if n in refs then refs[n] else 0) + 1] else refs
  }

  /** `ReleaseNodeRef`: one reference less on a function or block node. */
  function Release(refs: map<Node, nat>, n: Node): (r: map<Node, nat>)
    requires Counted(n) ==> n in refs && refs[n] >= 1
    ensures Counted(n) ==> n in r && r[n] == refs[n] - 1
    ensures forall m :: m != n || !Counted(n) ==> (m in r <==> m in refs) && (m in refs ==> r[m] == refs[m])
  {
    if Counted(n) then refs[n := refs[n] - 1] else refs
  }

  /** Releasing then adding a reference leaves the counts as they were. */
  lemma AddAfterRelease(refs: map<Node, nat>, n: Node)
    requires Counted(n) ==> n in refs && refs[n] >= 1
    ensures AddRef(Release(refs, n), n) == refs
  {
    var r := AddRef(Release(refs, n), n);
    assert forall m :: m in r <==> m in refs;
  }

  /** The references a list of nodes turns into, in order (the loops of GetNodes and RemoveRange). */
  function RefsOf(ns: seq<Node>): (r: seq<Option<Node>>)
  {
    if |ns| == 0 then [] else RefsOf(ns[..|ns| - 1]) + [ToNodeRef(ns[|ns| - 1])]
  }

  lemma {:induction false} RefsOfMeaning(ns: seq<Node>)
    ensures |RefsOf(ns)| == |ns|
    ensures forall k :: 0 <= k < |ns| ==> RefsOf(ns)[k] == ToNodeRef(ns[k])
  {
    if |ns| > 0 {
      RefsOfMeaning(ns[..|ns| - 1]);
    }
  }

  function AddrSet(ns: seq<Node>): set<nat>
  {
    set n | n in ns :: n.addr
  }

  /** The counts after one ReleaseNodeRef per node of `ns` (no node twice). */
  function ReleasedAll(refs: map<Node, nat>, ns: seq<Node>): (r: map<Node, nat>)
    requires forall m :: m in ns && Counted(m) ==> m in refs && refs[m] >= 1
  {
    map m | m in refs :: if m in ns && Counted(m) then refs[m] - 1 else refs[m]
  }

  /** The nodes GetRange returns for [start, end] are in the table and overlap the range... */
  predicate SoundHits(ns: seq<Node>, c: map<nat, Node>, start: nat, end: nat, overlap: (Node, nat, nat) -> bool)
  {
    forall n :: n in ns ==> n.addr in c && c[n.addr] == n && overlap(n, start, end)
  }

  /** ...and every node of the table starting in [start, end] that overlaps it is among them. */
  predicate CompleteHits(ns: seq<Node>, c: map<nat, Node>, start: nat, end: nat, overlap: (Node, nat, nat) -> bool)
  {
    forall a :: a in c && start <= a <= end && overlap(c[a], start, end) ==> a in AddrSet(ns)
  }

  /** What GetRange's result is known to be, gathered from the AddressHashMap lemmas. */
  lemma RangeFacts(m: AddressHashMap, start: nat, end: nat, overlap: (Node, nat, nat) -> bool, nodes: seq<Node>)
    requires m.Valid() && start <= end && m.addrStart <= end <= m.addrEnd
    requires nodes == Scan(m.buckets, BucketOf(ScanFrom(start, m.addrStart), m.addrStart, m.hashItemSize),
                           m.Hash(end), start, end, overlap)
    ensures Sorted(nodes)
    ensures SoundHits(nodes, m.Contents(), start, end, overlap)
    ensures CompleteHits(nodes, m.Contents(), start, end, overlap)
  {
    m.ScanAscending(BucketOf(ScanFrom(start, m.addrStart), m.addrStart, m.hashItemSize), m.Hash(end), start, end, overlap);
    forall n | n in nodes
      ensures n.addr in m.Contents() && m.Contents()[n.addr] == n && overlap(n, start, end)
    {
      m.GetRangeSound(start, end, overlap, n);
    }
    forall a | a in m.Contents() && start <= a <= end && overlap(m.Contents()[a], start, end)
      ensures a in AddrSet(nodes)
    {
      m.GetRangeComplete(start, end, overlap, a);
    }
  }

  predicate AddrsWithin(ns: seq<Node>, lo: nat, hi: nat)
  {
    forall n :: n in ns ==> lo <= n.addr <= hi
  }

  /** In an ascending list, the i-th node's address is not among the earlier ones. */
  lemma FreshInPrefix(nodes: seq<Node>, i: nat)
    requires i < |nodes| && Sorted(nodes)
    ensures nodes[i] !in nodes[..i] && nodes[i].addr !in AddrSet(nodes[..i])
  {
    forall k | 0 <= k < i
      ensures nodes[k].addr < nodes[i].addr
    {
    }
  }

  lemma AddrSetSnoc(p: seq<Node>, n: Node)
    ensures AddrSet(p + [n]) == AddrSet(p) + {n.addr}
  {
    assert forall m :: m in p + [n] <==> m in p || m == n;
  }

  /** Releasing a node not yet released extends ReleasedAll by that node. */
  lemma ReleasedAllSnoc(refs0: map<Node, nat>, p: seq<Node>, n: Node)
    requires n !in p
    requires forall m :: m in p + [n] && Counted(m) ==> m in refs0 && refs0[m] >= 1
    ensures Counted(n) ==> n in ReleasedAll(refs0, p) && ReleasedAll(refs0, p)[n] >= 1
    ensures Release(ReleasedAll(refs0, p), n) == ReleasedAll(refs0, p + [n])
  {
    assert forall m :: m in p + [n] <==> m in p || m == n;
    var r0 := ReleasedAll(refs0, p);
    var r1 := ReleasedAll(refs0, p + [n]);
    assert forall m :: m in Release(r0, n) <==> m in r1;
  }

  /** One turn of RemoveRange's loop, on the values it changes. */
  lemma RemoveStep(nodes: seq<Node>, i: nat, before: map<nat, Node>, refs0: map<Node, nat>)
    requires i < |nodes| && Sorted(nodes)
    requires forall m :: m in nodes && Counted(m) ==> m in refs0 && refs0[m] >= 1
    ensures Counted(nodes[i]) ==> nodes[i] in ReleasedAll(refs0, nodes[..i]) && ReleasedAll(refs0, nodes[..i])[nodes[i]] >= 1
    ensures Release(ReleasedAll(refs0, nodes[..i]), nodes[i]) == ReleasedAll(refs0, nodes[..i + 1])
    ensures (before - AddrSet(nodes[..i])) - {nodes[i].addr} == before - AddrSet(nodes[..i + 1])
    ensures RefsOf(nodes[..i]) + [ToNodeRef(nodes[i])] == RefsOf(nodes[..i + 1])
  {
    var p, n := nodes[..i], nodes[i];
    assert nodes[..i + 1] == p + [n];
    assert (p + [n])[..i] == p;
    FreshInPrefix(nodes, i);
    AddrSetSnoc(p, n);
    assert forall m :: m in p + [n] ==> m in nodes;
    ReleasedAllSnoc(refs0, p, n);
  }

  // ---------------------------------------------------------------------
  // The module

  class Module {
    const moduleStart: nat
    const moduleEnd: nat
    const nodeMap: AddressHashMap
    /** References the module holds, per node. */
    var refs: map<Node, nat>
    /** `code_caches`, by index. */
    var caches: seq<CodeCache>
    var currentCodeCache: nat

    /** The module holds a reference on every function and block node of its map. */
    ghost predicate Valid()
      reads this, nodeMap
    {
      && nodeMap.Valid()
      && nodeMap.addrStart == moduleStart && nodeMap.addrEnd == moduleEnd
      && (forall a :: a in nodeMap.Contents() && Counted(nodeMap.Contents()[a]) ==>
            nodeMap.Contents()[a] in refs && refs[nodeMap.Contents()[a]] >= 1)
      && currentCodeCache == |caches|
    }

    /** The node map covers [start, end] with 1 MB buckets; no node, no cache yet. */
    constructor(start: nat, end: nat)
      requires start <= end < Two64
      ensures Valid() && fresh(nodeMap)
      ensures moduleStart == start && moduleEnd == end && nodeMap.hashItemSize == DefaultHashItemSize
      ensures nodeMap.Contents() == map[] && refs == map[] && caches == []
    {
      moduleStart, moduleEnd := start, end;
      nodeMap := new AddressHashMap(start, end, DefaultHashItemSize);
      refs, caches, currentCodeCache := map[], [], 0;
      new;
      assert nodeMap.Contents() == map[];
    }

    /**
     * Push: registers a node at its start location.  It returns false and
     * changes nothing when a node already sits there; otherwise it inserts
     * the node and takes one reference on it.
     */
    method Push(node: Node) returns (ok: bool)
      requires Valid() && moduleStart <= node.addr <= moduleEnd
      modifies this, nodeMap
      ensures Valid()
      ensures ok <==> node.addr !in old(nodeMap.Contents())
      ensures ok ==> nodeMap.Contents() == old(nodeMap.Contents())[node.addr := node] && refs == AddRef(old(refs), node)
      ensures !ok ==> nodeMap.Contents() == old(nodeMap.Contents()) && refs == old(refs)
      ensures caches == old(caches)
    {
      ok := nodeMap.Put(node.addr, node, true);
      if ok {
        refs := AddRef(refs, node);
      }
    }

    /** Remove: erases whatever node sits at the node's location and releases one reference on the node. */
    method Remove(node: Node)
      requires Valid() && moduleStart <= node.addr <= moduleEnd
      requires Counted(node) ==> node in refs && refs[node] >= 1
      modifies this, nodeMap
      ensures Valid()
      ensures nodeMap.Contents() == old(nodeMap.Contents()) - {node.addr}
      ensures refs == Release(old(refs), node)
      ensures caches == old(caches)
    {
      var _ := nodeMap.Remove(node.addr);
      refs := Release(refs, node);
    }

    /** GetNode: the reference to the node at exactly that location, if any. */
    method GetNode(location: nat) returns (r: Option<Node>)
      requires Valid() && moduleStart <= location <= moduleEnd
      ensures r.Some? <==> location in nodeMap.Contents() && Counted(nodeMap.Contents()[location])
      ensures r.Some? ==> r.value == nodeMap.Contents()[location]
    {
      var node := nodeMap.Get(location);
      r := if node.Some? then ToNodeRef(node.value) else None;
    }

    /**
     * GetNodes (and GetRangeNodes, which is the same code): the references
     * to the nodes GetRange finds, in GetRange's order.  `found` is that
     * list of nodes.
     */
    method GetNodes(start: nat, end: nat, overlap: (Node, nat, nat) -> bool)
      returns (refsOut: seq<Option<Node>>, ghost found: seq<Node>)
      requires Valid() && start <= end && moduleStart <= end <= moduleEnd
      ensures refsOut == RefsOf(found) && Sorted(found)
      ensures SoundHits(found, nodeMap.Contents(), start, end, overlap)
      ensures CompleteHits(found, nodeMap.Contents(), start, end, overlap)
    {
      var nodes := nodeMap.GetRange(start, end, overlap);
      RangeFacts(nodeMap, start, end, overlap, nodes);
      found := nodes;
      refsOut := [];
      var i := 0;
      while i < |nodes|
        invariant i <= |nodes| && refsOut == RefsOf(nodes[..i])
      {
        assert nodes[..i + 1][..i] == nodes[..i];
        refsOut := refsOut + [ToNodeRef(nodes[i])];
        i := i + 1;
      }
      assert nodes[..i] == nodes;
    }

    /** One turn of RemoveRange's loop: Remove on the i-th node found. */
    method RemoveNext(nodes: seq<Node>, i: nat, ghost before: map<nat, Node>, ghost refs0: map<Node, nat>)
      returns (ref: Option<Node>)
      requires Valid() && i < |nodes| && Sorted(nodes)
      requires AddrsWithin(nodes, moduleStart, moduleEnd)
      requires forall m :: m in nodes && Counted(m) ==> m in refs0 && refs0[m] >= 1
      requires nodeMap.Contents() == before - AddrSet(nodes[..i])
      requires refs == ReleasedAll(refs0, nodes[..i])
      modifies this, nodeMap
      ensures Valid() && caches == old(caches)
      ensures nodeMap.Contents() == before - AddrSet(nodes[..i + 1])
      ensures refs == ReleasedAll(refs0, nodes[..i + 1])
      ensures ref == ToNodeRef(nodes[i])
    {
      var n := nodes[i];
      RemoveStep(nodes, i, before, refs0);
      assert n in nodes;
      ref := ToNodeRef(n);
      Remove(n);
    }

    /** RemoveRange's loop: Remove on every node found, in order. */
    method RemoveAll(nodes: seq<Node>, ghost before: map<nat, Node>, ghost refs0: map<Node, nat>)
      returns (removed: seq<Option<Node>>)
      requires Valid() && Sorted(nodes) && AddrsWithin(nodes, moduleStart, moduleEnd)
      requires forall m :: m in nodes && Counted(m) ==> m in refs0 && refs0[m] >= 1
      requires nodeMap.Contents() == before && refs == refs0
      modifies this, nodeMap
      ensures Valid() && caches == old(caches)
      ensures nodeMap.Contents() == before - AddrSet(nodes)
      ensures refs == ReleasedAll(refs0, nodes)
      ensures removed == RefsOf(nodes)
    {
      removed := [];
      var i := 0;
      assert nodes[..0] == [];
      while i < |nodes|
        invariant i <= |nodes| && Valid() && caches == old(caches)
        invariant nodeMap.Contents() == before - AddrSet(nodes[..i])
        invariant refs == ReleasedAll(refs0, nodes[..i])
        invariant removed == RefsOf(nodes[..i])
      {
        var ref := RemoveNext(nodes, i, before, refs0);
        assert nodes[..i + 1][..i] == nodes[..i];
        removed := removed + [ref];
        i := i + 1;
      }
      assert nodes[..i] == nodes;
    }

    /**
     * RemoveRange: takes every node GetRange finds out of the map, releasing
     * the module's reference on each, and returns references to them.
     */
    method RemoveRange(start: nat, end: nat, overlap: (Node, nat, nat) -> bool)
      returns (removed: seq<Option<Node>>, ghost found: seq<Node>)
      requires Valid() && start <= end && moduleStart <= end <= moduleEnd
      modifies this, nodeMap
      ensures Valid() && caches == old(caches)
      ensures removed == RefsOf(found) && Sorted(found)
      ensures SoundHits(found, old(nodeMap.Contents()), start, end, overlap)
      ensures CompleteHits(found, old(nodeMap.Contents()), start, end, overlap)
      ensures forall m :: m in found && Counted(m) ==> m in old(refs) && old(refs)[m] >= 1
      ensures nodeMap.Contents() == old(nodeMap.Contents()) - AddrSet(found)
      ensures refs == ReleasedAll(old(refs), found)
    {
      ghost var before := nodeMap.Contents();
      var nodes := nodeMap.GetRange(start, end, overlap);
      RangeFacts(nodeMap, start, end, overlap, nodes);
      found := nodes;
      assert forall m :: m in nodes && Counted(m) ==> m in old(refs) && old(refs)[m] >= 1;
      assert AddrsWithin(nodes, moduleStart, moduleEnd);
      removed := RemoveAll(nodes, before, old(refs));
    }

    /**
     * GetNodeOrCreate: the node at the location if there is one; otherwise
     * a new function (isFunc) or block node with the given id, registered
     * with one reference held by the module.  A node of another kind at the
     * location is not replaced, and the result is then empty.
     */
    method GetNodeOrCreate(location: nat, isFunc: bool, newId: nat) returns (r: Option<Node>)
      requires Valid() && moduleStart <= location <= moduleEnd
      modifies this, nodeMap
      ensures Valid() && caches == old(caches)
      ensures location in old(nodeMap.Contents()) ==>
                && r == ToNodeRef(old(nodeMap.Contents())[location])
                && nodeMap.Contents() == old(nodeMap.Contents()) && refs == old(refs)
      ensures location !in old(nodeMap.Contents()) ==>
                && r == Some(Node(location, newId, if isFunc then FunctionNode else BlockNode))
                && nodeMap.Contents() == old(nodeMap.Contents())[location := r.value]
                && refs == AddRef(old(refs), r.value)
    {
      r := GetNode(location);
      if r.Some? {
        return;
      }
      var node := nodeMap.Get(location);
      if node.Some? {
        r := ToNodeRef(node.value);
        return;
      }
      var created := Node(location, newId, if isFunc then FunctionNode else BlockNode);
      refs := AddRef(refs, created);
      var _ := nodeMap.Put(location, created, false);
      r := Some(created);
    }

    /**
     * GetJitCache(JitCache): the executable address of a cached
     * translation, or nothing when the entry is not Cached or names no
     * existing code cache.
     */
    function JitEntry(j: JitCache): (r: Option<ExecPtr>)
      reads this
      ensures r.Some? <==> JitStateOf(j) == Cached && CacheIdOf(j) < |caches|
      ensures r.Some? ==> r.value == ExecPtr(CacheIdOf(j), OffsetOf(j))
    {
      if JitStateOf(j) != Cached then None
      else if CacheIdOf(j) < |caches| then Some(ExecPtr(CacheIdOf(j), OffsetOf(j)))
      else None
    }

    /** An entry written as Cached with an existing cache id and an offset leads to that cache and offset. */
    lemma JitEntryOfWritten(j: JitCache, id: nat, offset: nat)
      requires j.stateWord < Two64 && j.cacheIdWord < Two64 && j.offsetWord < Two64
      requires id < 64 && id < |caches| && offset < Two32
      ensures JitEntry(Assigned(j, Cached, id, offset)) == Some(ExecPtr(id, offset))
    {
      JitFieldsRoundTrip(j, Cached, id, offset);
    }

    /**
     * GetJitCache(location): the JIT entry of the function or block node at
     * the location.  `jitOf` reads a node's JitCache, which the node itself
     * holds.
     */
    method GetJitCache(location: nat, jitOf: Node -> JitCache) returns (r: Option<ExecPtr>)
      requires Valid() && moduleStart <= location <= moduleEnd
      ensures location in nodeMap.Contents() && Counted(nodeMap.Contents()[location]) ==>
                r == JitEntry(jitOf(nodeMap.Contents()[location]))
      ensures !(location in nodeMap.Contents() && Counted(nodeMap.Contents()[location])) ==> r.None?
    {
      var node := GetNode(location);
      if node.None? {
        return None;
      }
      r := JitEntry(jitOf(node.value));
    }

    /**
     * AllocCodeCache: the first cache, by index, that the request fits in;
     * otherwise a new cache of ModuleCodeCacheSize(size) bytes at the next
     * index.  The result is empty when even the new cache cannot hold the
     * request (see FreshCacheTooSmall).
     */
    method AllocCodeCache(size: nat, pageSize: nat) returns (r: Option<(nat, CodeBuffer)>)
      requires Valid() && 0 < pageSize && size < Two32
      modifies this
      ensures Valid() && refs == old(refs)
      ensures FirstFit(old(caches), size).Some? ==>
                var k := FirstFit(old(caches), size).value;
                && r == Some((k, AllocCode(old(caches)[k], size).0))
                && caches == old(caches)[k := AllocCode(old(caches)[k], size).1]
      ensures FirstFit(old(caches), size).None? ==>
                var c := CodeCache(ModuleCodeCacheSize(size, pageSize), 0);
                && (r.Some? <==> FreshCacheHolds(size, pageSize))
                && (r.Some? ==> r.value == (|old(caches)|, AllocCode(c, size).0)
                                && caches == old(caches) + [AllocCode(c, size).1])
                && (r.None? ==> caches == old(caches) + [c])
    {
      var i := 0;
      while i < |caches|
        invariant i <= |caches| && caches == old(caches) && Valid() && refs == old(refs)
        invariant forall k :: 0 <= k < i ==> !Fits(caches[k], size)
      {
        if Fits(caches[i], size) {
          var (buf, c) := AllocCode(caches[i], size);
          caches := caches[i := c];
          return Some((i, buf));
        }
        i := i + 1;
      }
      var index := currentCodeCache;
      var c := CodeCache(ModuleCodeCacheSize(size, pageSize), 0);
      caches := caches + [c];
      currentCodeCache := currentCodeCache + 1;
      if Fits(c, size) {
        var (buf, c') := AllocCode(c, size);
        caches := caches[index := c'];
        r := Some((index, buf));
      } else {
        r := None;
      }
    }
  }
}
