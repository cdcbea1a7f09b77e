/**
 * The HIR builder: a function under construction is a list of blocks,
 * the edges between them, the values its instructions define and the uses
 * of those values.  Blocks, edges and values live in pools indexed by
 * handle (`seq` fields); a block's handle is its position in `blocks`.
 */
module HirBuilder {
  import opened Wrappers
  import opened IrArgs
  import opened IrLocation
  import opened IrInst
  import opened IrBlock

  /** Block and value order ids are u16 counters. */
  const OrderLimit: nat := 0x1_0000

  /**
   * An edge with its two flags, `CONDITIONAL` (bit 0) and `DOMINATES`
   * (bit 1); no other bit of `flags` is ever set.
   */
  datatype Edge = Edge(src: nat, dest: nat, conditional: bool, dominates: bool)

  /** `HIRUse`: an instruction and the slot that uses a value; 253 and 254 tag calls and phis. */
  datatype HIRUse = HIRUse(inst: nat, argIdx: nat)

  const UseNil: nat := 255
  const UseFuncCall: nat := 253
  const UsePhi: nat := 254

  predicate IsFuncCall(u: HIRUse)
  {
    u.argIdx == UseFuncCall
  }

  predicate IsPhi(u: HIRUse)
  {
    u.argIdx == UsePhi
  }

  /** The three tags are pairwise different, so a use is at most one of call and phi. */
  lemma UseTagsDisjoint(u: HIRUse)
    ensures !(IsFuncCall(u) && IsPhi(u))
    ensures IsFuncCall(u) ==> u.argIdx != UseNil && u.argIdx >= MaxArgs
    ensures IsPhi(u) ==> u.argIdx != UseNil && u.argIdx >= MaxArgs
  {
  }

  datatype AllocType = NONE | GPR | FPR | MEM

  /** `ValueAllocated`: where the register allocator put a value; `slot` is the register or spill slot. */
  datatype ValueAllocated = ValueAllocated(ty: AllocType, slot: nat)

  /** A default-constructed ValueAllocated is unallocated. */
  function DefaultAllocated(): (r: ValueAllocated)
    ensures !Allocated(r)
  {
    ValueAllocated(NONE, 0)
  }

  predicate Allocated(a: ValueAllocated)
  {
    a.ty != NONE
  }

  /** `HIRValue`: the defining instruction, its order id, its block and its uses. */
  datatype HIRValue = HIRValue(def: nat, orderId: nat, block: nat, placement: ValueAllocated, uses: seq<HIRUse>)

  /** `HIRValue::Compare`: 1 when rhs has the greater order id, -1 when the smaller, 0 when equal. */
  function ValueCompare(lhs: HIRValue, rhs: HIRValue): (r: int)
    ensures r == 1 <==> lhs.orderId < rhs.orderId
    ensures r == -1 <==> rhs.orderId < lhs.orderId
    ensures r == 0 <==> lhs.orderId == rhs.orderId
  {
    if rhs.orderId > lhs.orderId then 1 else if rhs.orderId < lhs.orderId then -1 else 0
  }

  lemma ValueCompareAntisymmetric(a: HIRValue, b: HIRValue)
    ensures ValueCompare(a, b) == -ValueCompare(b, a)
  {
  }

  // ---------------------------------------------------------------- uses

  /** The first use recorded for (inst, idx), or |uses| when there is none. */
  function FindUse(uses: seq<HIRUse>, inst: nat, idx: nat): (i: nat)
    ensures i <= |uses|
    ensures i < |uses| ==> uses[i] == HIRUse(inst, idx)
    ensures HIRUse(inst, idx) !in uses[..i]
  {
    if uses == [] then 0
    else if uses[0] == HIRUse(inst, idx) then 0
    else
      var j := FindUse(uses[1..], inst, idx);
      assert uses[..j + 1] == [uses[0]] + uses[1..][..j];
      j + 1
  }

  /** `HIRValue::UnUse(inst, idx)`: erase the first matching use, if any. */
  function UnUse(uses: seq<HIRUse>, inst: nat, idx: nat): seq<HIRUse>
  {
    var i := FindUse(uses, inst, idx);
    if i == |uses| then uses else uses[..i] + uses[i + 1..]
  }

  /** UnUse changes nothing without a match, else drops exactly the first match, in order. */
  lemma UnUseSpec(uses: seq<HIRUse>, inst: nat, idx: nat)
    ensures HIRUse(inst, idx) !in uses ==> UnUse(uses, inst, idx) == uses
    ensures HIRUse(inst, idx) in uses ==> exists i ::
      && 0 <= i < |uses| && uses[i] == HIRUse(inst, idx) && HIRUse(inst, idx) !in uses[..i]
      && UnUse(uses, inst, idx) == uses[..i] + uses[i + 1..]
    ensures multiset(UnUse(uses, inst, idx)) + (if HIRUse(inst, idx) in uses then multiset{HIRUse(inst, idx)} else multiset{})
      == multiset(uses)
  {
    var i := FindUse(uses, inst, idx);
    if i == |uses| {
      assert uses[..i] == uses;
    } else {
      assert uses == uses[..i] + [uses[i]] + uses[i + 1..];
    }
  }

  // ---------------------------------------------------------------- blocks

  /** A block of the function under construction (`HIRBlock` with its `Block`). */
  datatype HBlock = HBlock(
    order: nat, start: Location, endLoc: Location, term: Terminal, insts: seq<nat>,
    incoming: seq<nat>, outgoing: seq<nat>, preds: seq<nat>, succs: seq<nat>,
    backEdges: seq<nat>, dominator: int)

  function NewHBlock(order: nat, start: Location): (b: HBlock)
    ensures b.order == order && b.start == start && b.insts == [] && b.incoming == [] && b.outgoing == []
  {
    HBlock(order, start, DefaultLocation, Invalid, [], [], [], [], [], [], -1)
  }

  function WithOutgoing(b: HBlock, e: nat): HBlock
  {
    b.(outgoing := b.outgoing + [e])
  }

  function WithIncoming(b: HBlock, e: nat): HBlock
  {
    b.(incoming := b.incoming + [e])
  }

  function WithEnd(b: HBlock, e: Location): HBlock
  {
    b.(endLoc := e)
  }

  function WithTerm(b: HBlock, t: Terminal): HBlock
  {
    b.(term := t)
  }

  function WithInst(b: HBlock, h: nat): HBlock
  {
    b.(insts := b.insts + [h])
  }

  function WithLinks(b: HBlock, p: seq<nat>, s: seq<nat>): HBlock
  {
    b.(preds := p, succs := s)
  }

  /** The first block of `list` starting at `loc`, or -1. */
  function FindBlock(blocks: seq<HBlock>, list: seq<nat>, loc: Location): (r: int)
    requires forall k :: 0 <= k < |list| ==> list[k] < |blocks|
    ensures r >= 0 ==> r < |blocks| && r in list && blocks[r].start == loc
    ensures r == -1 <==> forall k :: 0 <= k < |list| ==> blocks[list[k]].start != loc
  {
    if list == [] then -1
    else if blocks[list[0]].start == loc then list[0]
    else
      var r := FindBlock(blocks, list[1..], loc);
      assert forall k :: 1 <= k < |list| ==> list[k] == list[1..][k - 1];
      r
  }

  /** Sources of a list of edges: `predecessors`. */
  function Srcs(edges: seq<Edge>, l: seq<nat>): (r: seq<nat>)
    requires forall k :: 0 <= k < |l| ==> l[k] < |edges|
    ensures |r| == |l| && forall k :: 0 <= k < |l| ==> r[k] == edges[l[k]].src
  {
    seq(|l|, k requires 0 <= k < |l| => edges[l[k]].src)
  }

  /** Destinations of a list of edges: `successors`. */
  function Dests(edges: seq<Edge>, l: seq<nat>): (r: seq<nat>)
    requires forall k :: 0 <= k < |l| ==> l[k] < |edges|
    ensures |r| == |l| && forall k :: 0 <= k < |l| ==> r[k] == edges[l[k]].dest
  {
    seq(|l|, k requires 0 <= k < |l| => edges[l[k]].dest)
  }

  /** `incoming.flags &= ~DOMINATES` on every edge of `l`. */
  function ClearDominates(edges: seq<Edge>, l: seq<nat>): (r: seq<Edge>)
    ensures |r| == |edges|
    ensures forall j :: 0 <= j < |edges| ==> r[j] == if j in l then edges[j].(dominates := false) else edges[j]
  {
    seq(|edges|, j requires 0 <= j < |edges| => if j in l then edges[j].(dominates := false) else edges[j])
  }

  /** The loop of `AddEdge` that clears DOMINATES on every edge into the destination. */
  method ClearAll(edges: seq<Edge>, inc: seq<nat>) returns (es: seq<Edge>)
    ensures es == ClearDominates(edges, inc)
  {
    es := edges;
    var k := 0;
    while k < |inc|
      invariant k <= |inc| && |es| == |edges|
      invariant forall j :: 0 <= j < |edges| ==> es[j] == if j in inc[..k] then edges[j].(dominates := false) else edges[j]
    {
      assert inc[..k + 1] == inc[..k] + [inc[k]];
      if inc[k] < |es| {
        es := es[inc[k] := es[inc[k]].(dominates := false)];
      }
      k := k + 1;
    }
    assert inc[..k] == inc;
  }

  /** Block h has order id h (u16). */
  ghost predicate Ordered(blocks: seq<HBlock>)
  {
    forall h :: 0 <= h < |blocks| ==> blocks[h].order == h % OrderLimit
  }

  /** Every edge joins two blocks, and every block lists only existing edges. */
  ghost predicate EdgesInside(blocks: seq<HBlock>, edges: seq<Edge>)
  {
    && (forall e :: 0 <= e < |edges| ==> edges[e].src < |blocks| && edges[e].dest < |blocks|)
    && (forall h :: 0 <= h < |blocks| ==> EdgesBelow(blocks[h].incoming, |edges|) && EdgesBelow(blocks[h].outgoing, |edges|))
  }

  /** Edge `e` appended to the outgoing edges of `src` and the incoming edges of `dest`. */
  function Link(blocks: seq<HBlock>, src: nat, dest: nat, e: nat): (r: seq<HBlock>)
    requires src < |blocks| && dest < |blocks|
    ensures |r| == |blocks|
  {
    var b1 := blocks[src := WithOutgoing(blocks[src], e)];
    b1[dest := WithIncoming(b1[dest], e)]
  }

  lemma LinkKeepsInside(blocks: seq<HBlock>, edges: seq<Edge>, src: nat, dest: nat, conditional: bool)
    requires src < |blocks| && dest < |blocks| && EdgesInside(blocks, edges) && Ordered(blocks)
    ensures var r := Link(blocks, src, dest, |edges|);
      && EdgesInside(r, edges + [Edge(src, dest, conditional, false)]) && Ordered(r) && Kept(blocks, r)
      && r[src].outgoing == blocks[src].outgoing + [|edges|]
      && r[dest].incoming == blocks[dest].incoming + [|edges|]
      && forall x :: 0 <= x < |blocks| && x != src && x != dest ==> r[x] == blocks[x]
  {
    var r := Link(blocks, src, dest, |edges|);
    var es := edges + [Edge(src, dest, conditional, false)];
    forall h | 0 <= h < |r|
      ensures EdgesBelow(r[h].incoming, |es|) && EdgesBelow(r[h].outgoing, |es|)
    {
      assert EdgesBelow(blocks[h].incoming, |edges|) && EdgesBelow(blocks[h].outgoing, |edges|);
    }
  }

  lemma ClearKeepsInside(blocks: seq<HBlock>, edges: seq<Edge>, l: seq<nat>)
    requires EdgesInside(blocks, edges)
    ensures EdgesInside(blocks, ClearDominates(edges, l))
    ensures forall j :: 0 <= j < |edges| ==> SameEnds(ClearDominates(edges, l)[j], edges[j])
  {
  }

  /** Two edges with the same ends and the same CONDITIONAL flag. */
  predicate SameEnds(e: Edge, f: Edge)
  {
    e.src == f.src && e.dest == f.dest && e.conditional == f.conditional
  }

  /** The blocks of `a` are still in `b`, with their start locations. */
  ghost predicate StartsKept(a: seq<HBlock>, b: seq<HBlock>)
  {
    |a| <= |b| && forall x :: 0 <= x < |a| ==> b[x].start == a[x].start
  }

  /** The blocks of `a` are still in `b`, with their start locations and terminals. */
  ghost predicate Kept(a: seq<HBlock>, b: seq<HBlock>)
  {
    |a| <= |b| && forall x :: 0 <= x < |a| ==> b[x].start == a[x].start && b[x].term == a[x].term
  }

  ghost predicate EdgesBelow(l: seq<nat>, n: nat)
  {
    forall k :: 0 <= k < |l| ==> l[k] < n
  }

  /** lo, lo + 1, ..., hi - 1. */
  function Range(lo: nat, hi: nat): (r: seq<nat>)
    requires lo <= hi
    ensures |r| == hi - lo && forall k :: 0 <= k < |r| ==> r[k] == lo + k
  {
    seq(hi - lo, k => lo + k)
  }

  // ---------------------------------------------------------------- values

  /** The HIR value defined by instruction `def` (`GetHIRValue`), or -1. */
  function FindValue(values: seq<HIRValue>, def: int): (r: int)
    ensures -1 <= r < |values|
    ensures r >= 0 ==> values[r].def == def
    ensures r == -1 <==> forall k :: 0 <= k < |values| ==> values[k].def != def
  {
    if values == [] then -1
    else if values[|values| - 1].def == def && FindValue(values[..|values| - 1], def) == -1 then |values| - 1
    else FindValue(values[..|values| - 1], def)
  }

  ghost predicate DistinctDefs(values: seq<HIRValue>)
  {
    forall i, j :: 0 <= i < j < |values| ==> values[i].def != values[j].def
  }

  function WithUse(v: HIRValue, u: HIRUse): HIRValue
  {
    v.(uses := v.uses + [u])
  }

  /** The value with `us` appended to its uses. */
  function WithUses(v: HIRValue, us: seq<HIRUse>): HIRValue
  {
    v.(uses := v.uses + us)
  }

  /** One `hir_value->Use(inst, i)` per value of `vs` that has an HIR value. */
  function AddUses(values: seq<HIRValue>, h: nat, i: nat, vs: seq<Value>): (r: seq<HIRValue>)
    ensures |r| == |values|
    decreases |vs|
  {
    if vs == [] then values
    else
      var j := FindValue(values, vs[0].def);
      var v1 := if j >= 0 then values[j := WithUse(values[j], HIRUse(h, i))] else values;
      AddUses(v1, h, i, vs[1..])
  }

  /** `n` copies of a use. */
  function Repeat(u: HIRUse, n: nat): (r: seq<HIRUse>)
    ensures |r| == n && forall k :: 0 <= k < n ==> r[k] == u
  {
    seq(n, _ => u)
  }

  /**
   * With one HIR value per definition, value j gains one use (h, i) for
   * every entry of `vs` it defines, and nothing else changes.
   */
  lemma {:induction false} AddUsesCounts(values: seq<HIRValue>, h: nat, i: nat, vs: seq<Value>, j: nat)
    requires DistinctDefs(values) && j < |values|
    ensures AddUses(values, h, i, vs)[j] == WithUses(values[j], Repeat(HIRUse(h, i), UsesOf(vs, values[j].def)))
    decreases |vs|
  {
    if vs == [] {
      assert values[j].uses + [] == values[j].uses;
    } else {
      var x := FindValue(values, vs[0].def);
      var v1 := if x >= 0 then values[x := WithUse(values[x], HIRUse(h, i))] else values;
      assert DistinctDefs(v1) by {
        forall a, b | 0 <= a < b < |v1| ensures v1[a].def != v1[b].def {
          assert v1[a].def == values[a].def && v1[b].def == values[b].def;
        }
      }
      AddUsesCounts(v1, h, i, vs[1..], j);
      var u := HIRUse(h, i);
      var n := UsesOf(vs[1..], values[j].def);
      if x == j {
        assert Repeat(u, 1 + n) == [u] + Repeat(u, n);
      } else {
        assert vs[0].def != values[j].def;
      }
    }
  }

  /** The registration of `AppendInst` over the argument slots, slot by slot. */
  function AddArgUses(values: seq<HIRValue>, h: nat, args: seq<Arg>): (r: seq<HIRValue>)
    ensures |r| == |values|
  {
    if args == [] then values
    else AddUses(AddArgUses(values, h, args[..|args| - 1]), h, |args| - 1, ArgValues(args[|args| - 1]))
  }

  /** The uses `AppendInst` records for definition `d`: slot by slot, one per value of the slot. */
  function UseList(args: seq<Arg>, h: nat, d: nat): seq<HIRUse>
  {
    if args == [] then []
    else UseList(args[..|args| - 1], h, d) + Repeat(HIRUse(h, |args| - 1), UsesOf(ArgValues(args[|args| - 1]), d))
  }

  /**
   * Registration adds to each HIR value exactly the uses of UseList, in
   * slot order, after the ones it had, and changes nothing else of it.
   */
  lemma {:induction false} AddArgUsesSpec(values: seq<HIRValue>, h: nat, args: seq<Arg>, j: nat)
    requires DistinctDefs(values) && j < |values|
    ensures AddArgUses(values, h, args)[j] == WithUses(values[j], UseList(args, h, values[j].def))
    ensures DistinctDefs(AddArgUses(values, h, args))
  {
    if args == [] {
      assert values[j].uses + [] == values[j].uses;
    } else {
      var init := args[..|args| - 1];
      var v0 := AddArgUses(values, h, init);
      AddArgUsesSpec(values, h, init, j);
      assert DistinctDefs(v0) by {
        AddArgUsesSpec(values, h, init, 0);
      }
      AddUsesCounts(v0, h, |args| - 1, ArgValues(args[|args| - 1]), j);
      assert v0[j].def == values[j].def;
      forall a, b | 0 <= a < b < |values|
        ensures AddArgUses(values, h, args)[a].def != AddArgUses(values, h, args)[b].def
      {
        AddUsesCounts(v0, h, |args| - 1, ArgValues(args[|args| - 1]), a);
        AddUsesCounts(v0, h, |args| - 1, ArgValues(args[|args| - 1]), b);
        AddArgUsesSpec(values, h, init, a);
        AddArgUsesSpec(values, h, init, b);
      }
    }
  }

  /** A definition no slot of the instruction refers to gains no use. */
  lemma {:induction false} UseListEmpty(args: seq<Arg>, h: nat, d: nat)
    requires forall k :: 0 <= k < |args| ==> UsesOf(ArgValues(args[k]), d) == 0
    ensures UseList(args, h, d) == []
  {
    if args != [] {
      UseListEmpty(args[..|args| - 1], h, d);
    }
  }

  /** The HIR value `AppendInst` creates for an instruction with a result: none otherwise. */
  function Created(meta: MetaTable, i: Inst, h: nat, order: nat, b: nat): (r: seq<HIRValue>)
    ensures |r| <= 1 && (r != [] <==> HasValue(meta, i))
    ensures forall k :: 0 <= k < |r| ==> r[k].def == h && r[k].block == b && r[k].uses == []
  {
    if HasValue(meta, i) then [HIRValue(h, order, b, DefaultAllocated(), [])] else []
  }

  /** `max_local_id = max(local.id, max_local_id)` for LoadLocal and StoreLocal. */
  function RaisedLocalId(i: Inst, m: nat): (r: nat)
    requires |i.args| > 0
    ensures r >= m
    ensures (i.op == LoadLocal || i.op == StoreLocal) && i.args[0].ALocal? ==> r >= i.args[0].local.id
    ensures r == m || ((i.op == LoadLocal || i.op == StoreLocal) && i.args[0].ALocal? && r == i.args[0].local.id)
  {
    if (i.op == LoadLocal || i.op == StoreLocal) && i.args[0].ALocal? && i.args[0].local.id > m then i.args[0].local.id else m
  }

  // ---------------------------------------------------------------- value numbering

  /** The definitions of the values of block b, in map order. */
  function DefsOfBlock(values: seq<HIRValue>, b: nat): (r: seq<nat>)
    ensures forall k :: 0 <= k < |r| ==> r[k] in AllDefs(values)
  {
    if values == [] then []
    else
      var init := DefsOfBlock(values[..|values| - 1], b);
      assert forall k :: 0 <= k < |init| ==> init[k] in AllDefs(values[..|values| - 1]);
      assert AllDefs(values) == AllDefs(values[..|values| - 1]) + [values[|values| - 1].def];
      init + (if values[|values| - 1].block == b then [values[|values| - 1].def] else [])
  }

  function AllDefs(values: seq<HIRValue>): (r: seq<nat>)
    ensures |r| == |values| && forall k :: 0 <= k < |values| ==> r[k] == values[k].def
  {
    seq(|values|, k requires 0 <= k < |values| => values[k].def)
  }

  /** The order `IdByRPO` is meant to number definitions in: block by block, in RPO. */
  function RpoDefs(values: seq<HIRValue>, rpo: seq<nat>): (r: seq<nat>)
    ensures forall k :: 0 <= k < |r| ==> r[k] in AllDefs(values)
  {
    if rpo == [] then [] else RpoDefs(values, rpo[..|rpo| - 1]) + DefsOfBlock(values, rpo[|rpo| - 1])
  }

  /**
   * The order `IdByRPO` numbers definitions in as written: every block's
   * `GetHIRValues()` is the function's whole value map, so the whole map
   * is numbered once per block.
   */
  function RpoDefsAsWritten(values: seq<HIRValue>, rpo: seq<nat>): seq<nat>
  {
    if rpo == [] then [] else RpoDefsAsWritten(values, rpo[..|rpo| - 1]) + AllDefs(values)
  }

  /** Every definition listed by RpoDefs is an instruction of the arena. */
  lemma RpoDefsHandles(s: seq<Inst>, values: seq<HIRValue>, l: seq<nat>)
    requires Handles(s, AllDefs(values))
    requires forall k :: 0 <= k < |l| ==> l[k] in AllDefs(values)
    ensures Handles(s, l)
  {
  }

  /**
   * `IdByRPO` as intended: when no definition is listed twice, the k-th
   * definition in RPO block order gets id k (u16), consecutively from 0.
   */
  lemma IdByRPOConsecutive(s: seq<Inst>, values: seq<HIRValue>, rpo: seq<nat>, k: nat)
    requires Handles(s, AllDefs(values)) && Distinct(RpoDefs(values, rpo)) && k < |RpoDefs(values, rpo)|
    ensures Handles(s, RpoDefs(values, rpo))
    ensures ReId(s, RpoDefs(values, rpo))[RpoDefs(values, rpo)[k]].id == k % IdLimit
  {
    RpoDefsHandles(s, values, RpoDefs(values, rpo));
    ReIdPositions(s, RpoDefs(values, rpo), k);
  }

  /** The inner loop of `IdByRPO`: number the values of block b after the ids handed out so far. */
  method NumberBlock(arena: seq<Inst>, values: seq<HIRValue>, b: nat, ghost s0: seq<Inst>, ghost before: seq<nat>, cur0: nat)
    returns (r: seq<Inst>, cur: nat)
    requires Handles(s0, AllDefs(values)) && Handles(s0, before) && cur0 == |before|
    requires arena == ReId(s0, before)
    ensures Handles(s0, before + DefsOfBlock(values, b))
    ensures cur == |before + DefsOfBlock(values, b)|
    ensures r == ReId(s0, before + DefsOfBlock(values, b))
  {
    r, cur := arena, cur0;
    assert values[..0] == [] && before + [] == before;
    for j := 0 to |values|
      invariant Handles(s0, before + DefsOfBlock(values[..j], b))
      invariant cur == |before + DefsOfBlock(values[..j], b)|
      invariant r == ReId(s0, before + DefsOfBlock(values[..j], b))
    {
      r, cur := NumberValue(r, values, b, j, s0, before, cur);
    }
    assert values[..|values|] == values;
  }

  lemma DefsOfBlockSnoc(values: seq<HIRValue>, b: nat, j: nat)
    requires j < |values|
    ensures DefsOfBlock(values[..j + 1], b) == DefsOfBlock(values[..j], b) + (if values[j].block == b then [values[j].def] else [])
  {
    assert values[..j + 1][..j] == values[..j];
  }

  lemma ReIdSnoc(s: seq<Inst>, l: seq<nat>, d: nat)
    requires Handles(s, l) && d < |s|
    ensures Handles(s, l + [d])
    ensures ReId(s, l + [d]) == ReId(s, l)[d := WithId(ReId(s, l)[d], |l| % IdLimit)]
  {
    assert (l + [d])[..|l|] == l;
  }

  /** One value of `NumberBlock`: a definition of block `b` takes the next id. */
  method NumberValue(arena: seq<Inst>, values: seq<HIRValue>, b: nat, j: nat, ghost s0: seq<Inst>, ghost before: seq<nat>, cur0: nat)
    returns (r: seq<Inst>, cur: nat)
    requires j < |values| && Handles(s0, AllDefs(values))
    requires Handles(s0, before + DefsOfBlock(values[..j], b))
    requires cur0 == |before + DefsOfBlock(values[..j], b)|
    requires arena == ReId(s0, before + DefsOfBlock(values[..j], b))
    ensures Handles(s0, before + DefsOfBlock(values[..j + 1], b))
    ensures cur == |before + DefsOfBlock(values[..j + 1], b)|
    ensures r == ReId(s0, before + DefsOfBlock(values[..j + 1], b))
  {
    r, cur := arena, cur0;
    ghost var l := before + DefsOfBlock(values[..j], b);
    DefsOfBlockSnoc(values, b, j);
    if values[j].block == b {
      var d := values[j].def;
      assert d == AllDefs(values)[j];
      assert before + DefsOfBlock(values[..j + 1], b) == l + [d];
      ReIdSnoc(s0, l, d);
      r := r[d := WithId(r[d], cur % IdLimit)];
      cur := cur + 1;
    } else {
      assert before + DefsOfBlock(values[..j + 1], b) == l;
    }
  }

  /** The outer loop of `IdByRPO`: the blocks in RPO order, with one running counter. */
  method NumberRpo(s0: seq<Inst>, values: seq<HIRValue>, rpo: seq<nat>) returns (arena: seq<Inst>)
    requires Handles(s0, AllDefs(values))
    ensures Handles(s0, RpoDefs(values, rpo))
    ensures arena == ReId(s0, RpoDefs(values, rpo))
  {
    var cur: nat := 0;
    arena := s0;
    for i := 0 to |rpo|
      invariant Handles(s0, RpoDefs(values, rpo[..i]))
      invariant cur == |RpoDefs(values, rpo[..i])|
      invariant arena == ReId(s0, RpoDefs(values, rpo[..i]))
    {
      ghost var before := RpoDefs(values, rpo[..i]);
      arena, cur := NumberBlock(arena, values, rpo[i], s0, before, cur);
      assert rpo[..i + 1][..i] == rpo[..i];
      assert RpoDefs(values, rpo[..i + 1]) == before + DefsOfBlock(values, rpo[i]);
    }
    assert rpo[..|rpo|] == rpo;
  }

  /** The two-block example: one value in each block. */
  function TwoValues(): seq<HIRValue>
  {
    [HIRValue(0, 0, 0, DefaultAllocated(), []), HIRValue(1, 1, 1, DefaultAllocated(), [])]
  }

  /** With one value in each of two blocks, the intended order visits each definition once. */
  lemma TwoValuesRpo()
    ensures RpoDefs(TwoValues(), [0, 1]) == [0, 1]
  {
    TwoValuesBlocks();
    assert [0, 1][..1] == [0] && [0][..0] == [];
    assert RpoDefs(TwoValues(), [0]) == [0];
  }

  /** With two blocks, the order as written visits both definitions once per block. */
  lemma TwoValuesAsWritten()
    ensures RpoDefsAsWritten(TwoValues(), [0, 1]) == [0, 1, 0, 1]
  {
    assert [0, 1][..1] == [0] && [0][..0] == [];
    assert AllDefs(TwoValues()) == [0, 1];
    assert RpoDefsAsWritten(TwoValues(), [0]) == [0, 1];
  }

  lemma TwoValuesBlocks()
    ensures DefsOfBlock(TwoValues(), 0) == [0] && DefsOfBlock(TwoValues(), 1) == [1]
  {
    var values := TwoValues();
    assert values[..1][..0] == [] && values[..1] == [values[0]];
    assert DefsOfBlock(values[..1], 0) == [0];
    assert DefsOfBlock(values[..1], 1) == [];
  }

  /** Numbering [0, 1, 0, 1] leaves instruction 0 with the id of its second visit. */
  lemma ReIdTwice(s: seq<Inst>)
    requires |s| == 2
    ensures ReId(s, [0, 1, 0, 1])[0].id == 2
  {
    var l := [0, 1, 0, 1];
    assert l[..3] == [0, 1, 0];
    assert l[..3][..2] == [0, 1];
    var r2 := ReId(s, [0, 1, 0]);
    assert r2[0].id == 2;
  }

  /** Two blocks with one value each: as written the first value ends with id 2, not 0. */
  lemma IdByRPOAsWrittenSkipsIds(s: seq<Inst>)
    requires |s| == 2
    ensures RpoDefs(TwoValues(), [0, 1]) == [0, 1] && RpoDefsAsWritten(TwoValues(), [0, 1]) == [0, 1, 0, 1]
    ensures ReId(s, RpoDefs(TwoValues(), [0, 1]))[0].id == 0
    ensures ReId(s, RpoDefsAsWritten(TwoValues(), [0, 1]))[0].id == 2
  {
    TwoValuesRpo();
    TwoValuesAsWritten();
    ReIdOnce(s);
    ReIdTwice(s);
  }

  lemma ReIdOnce(s: seq<Inst>)
    requires |s| == 2
    ensures ReId(s, [0, 1])[0].id == 0
  {
    assert Distinct([0, 1]);
    ReIdPositions(s, [0, 1], 0);
  }

  /** The cases of `Switch` handled so far: each opened its block and got its edge, in order. */
  ghost predicate CasesOk(cases: seq<Case>, res: seq<(Imm, nat)>, blocks: seq<HBlock>, edges: seq<Edge>, e0: nat, pre: nat)
  {
    && |res| <= |cases| && |edges| == e0 + |res|
    && forall k :: 0 <= k < |res| ==>
         && GetNextLocation(cases[k].next).Some? && res[k].0 == cases[k].caseValue
         && res[k].1 < |blocks| && blocks[res[k].1].start == cases[k].next.next
         && SameEnds(edges[e0 + k], Edge(pre, res[k].1, true, false))
  }

  lemma CasesStep(cases: seq<Case>, res: seq<(Imm, nat)>, b1: seq<HBlock>, es1: seq<Edge>, b2: seq<HBlock>, es2: seq<Edge>,
                  e0: nat, pre: nat, b: nat)
    requires CasesOk(cases, res, b1, es1, e0, pre) && |res| < |cases|
    requires GetNextLocation(cases[|res|].next).Some?
    requires Kept(b1, b2) && |es2| == |es1| + 1 && b < |b2| && b2[b].start == GetNextLocation(cases[|res|].next).value
    requires SameEnds(es2[|es1|], Edge(pre, b, true, false))
    requires forall j :: 0 <= j < |es1| ==> SameEnds(es2[j], es1[j])
    ensures CasesOk(cases, res + [(cases[|res|].caseValue, b)], b2, es2, e0, pre)
  {
    var r2 := res + [(cases[|res|].caseValue, b)];
    forall k | 0 <= k < |r2|
      ensures r2[k].1 < |b2| && b2[r2[k].1].start == cases[k].next.next
      ensures SameEnds(es2[e0 + k], Edge(pre, r2[k].1, true, false))
    {
      if k < |res| {
        assert r2[k] == res[k];
        assert SameEnds(es1[e0 + k], Edge(pre, res[k].1, true, false));
      } else {
        assert GetNextLocation(cases[k].next).value == cases[k].next.next;
      }
    }
  }

  /** The u16 counter stepped past `n` counts n + 1. */
  lemma OrderSucc(n: nat)
    ensures (n % OrderLimit + 1) % OrderLimit == (n + 1) % OrderLimit
  {
  }

  lemma NewBlockKeeps(blocks: seq<HBlock>, edges: seq<Edge>, loc: Location)
    requires Ordered(blocks) && EdgesInside(blocks, edges)
    ensures var r := blocks + [NewHBlock(|blocks| % OrderLimit, loc)];
      Ordered(r) && EdgesInside(r, edges) && Kept(blocks, r)
  {
    var r := blocks + [NewHBlock(|blocks| % OrderLimit, loc)];
    forall h | 0 <= h < |r|
      ensures r[h].order == h % OrderLimit
      ensures EdgesBelow(r[h].incoming, |edges|) && EdgesBelow(r[h].outgoing, |edges|)
    {
      if h < |blocks| {
        assert r[h] == blocks[h];
      }
    }
  }

  /** The blocks `start` .. `start + i - 1` have their predecessors and successors filled in. */
  ghost predicate LinkedUpTo(blocks: seq<HBlock>, edges: seq<Edge>, start: nat, i: nat, bs: seq<HBlock>)
  {
    && EdgesInside(blocks, edges) && |bs| == |blocks|
    && forall x :: 0 <= x < |bs| ==>
         bs[x] == if start <= x < start + i then WithLinks(blocks[x], Srcs(edges, blocks[x].incoming), Dests(edges, blocks[x].outgoing)) else blocks[x]
  }

  /** Entries `start` .. `start + i - 1` of the vector name their blocks; the rest are null. */
  ghost predicate VectorUpTo(start: nat, i: nat, vec: seq<int>)
  {
    forall x :: 0 <= x < |vec| ==> vec[x] == if start <= x < start + i then x else -1
  }

  lemma LinkedKeeps(blocks: seq<HBlock>, edges: seq<Edge>, start: nat, i: nat, bs: seq<HBlock>)
    requires LinkedUpTo(blocks, edges, start, i, bs) && Ordered(blocks) && EdgesInside(blocks, edges)
    ensures Ordered(bs) && EdgesInside(bs, edges) && Kept(blocks, bs)
  {
    forall h | 0 <= h < |bs|
      ensures bs[h].order == blocks[h].order && bs[h].incoming == blocks[h].incoming && bs[h].outgoing == blocks[h].outgoing
    {
    }
  }

  // ---------------------------------------------------------------- the function object

  class HIRFunction {
    var blocks: seq<HBlock>
    var blockList: seq<nat>
    var edges: seq<Edge>
    var values: seq<HIRValue>
    var vector: seq<int>
    var rpo: seq<nat>
    var current: int
    ghost var listStart: nat
    var blockOrderId: nat
    var valueOrderId: nat
    var maxLocalId: nat

    /**
     * Handles stay inside their pools; block h has order id h (u16); the
     * block list holds every block in creation order until EndFunction
     * empties it.
     */
    ghost predicate Valid()
      reads this
    {
      && (current == -1 || 0 <= current < |blocks|)
      && blockOrderId == |blocks| % OrderLimit
      && Ordered(blocks)
      && listStart <= |blocks| && blockList == Range(listStart, |blocks|)
      && EdgesInside(blocks, edges)
      && (forall k :: 0 <= k < |rpo| ==> rpo[k] < |blocks|)
      && DistinctDefs(values) && valueOrderId < OrderLimit
      && (forall v :: 0 <= v < |values| ==> values[v].block < |blocks|)
    }

    /** `HIRFunction(begin, end)`: one block at `begin`, which is current. */
    constructor(begin: Location)
      ensures Valid() && |blocks| == 1 && blocks[0].start == begin && current == 0
      ensures edges == [] && values == [] && blockOrderId == 1
    {
      blocks := [NewHBlock(0, begin)];
      blockList := [0];
      listStart := 0;
      edges := [];
      values := [];
      vector := [];
      rpo := [];
      current := 0;
      blockOrderId := 1;
      valueOrderId := 0;
      maxLocalId := 0;
    }

    /** `MaxBlockCount()`: the u16 block counter. */
    function MaxBlockCount(): (r: nat)
      reads this
      requires Valid()
      ensures r == |blocks| % OrderLimit
    {
      blockOrderId
    }

    /** The search of `CreateOrGetBlock` over the block list. */
    method FindListed(loc: Location) returns (f: int)
      requires Valid()
      ensures f == FindBlock(blocks, blockList, loc)
    {
      var i := 0;
      while i < |blockList|
        invariant i <= |blockList|
        invariant FindBlock(blocks, blockList, loc) == FindBlock(blocks, blockList[i..], loc)
      {
        if blocks[blockList[i]].start == loc {
          return blockList[i];
        }
        assert blockList[i..][1..] == blockList[i + 1..];
        i := i + 1;
      }
      return -1;
    }

    /**
     * `CreateOrGetBlock(location)`: the listed block starting there, else a
     * new block with the next order id, appended to the list.
     */
    method CreateOrGetBlock(loc: Location) returns (h: nat)
      requires Valid()
      modifies this
      ensures Valid() && h < |blocks| && blocks[h].start == loc
      ensures var f := FindBlock(old(blocks), old(blockList), loc);
        if f >= 0 then h == f && blocks == old(blocks) && blockList == old(blockList)
        else h == |old(blocks)| && blocks == old(blocks) + [NewHBlock(old(blockOrderId), loc)] && blockList == old(blockList) + [h]
      ensures edges == old(edges) && values == old(values) && current == old(current) && rpo == old(rpo)
    {
      var f := FindListed(loc);
      if f >= 0 {
        return f;
      }
      h := |blocks|;
      assert Range(listStart, h) + [h] == Range(listStart, h + 1);
      NewBlockKeeps(blocks, edges, loc);
      OrderSucc(h);
      blocks := blocks + [NewHBlock(blockOrderId, loc)];
      blockList := blockList + [h];
      blockOrderId := (blockOrderId + 1) % OrderLimit;
    }

    /** `AppendBlock(start, end)`: create or get the block, set its end, make it current. */
    method AppendBlock(start: Location, endLoc: Location) returns (h: nat)
      requires Valid()
      modifies this
      ensures Valid() && h < |blocks| && current == h && blocks[h].start == start && blocks[h].endLoc == endLoc
      ensures |blocks| == |old(blocks)| || |blocks| == |old(blocks)| + 1
      ensures edges == old(edges) && values == old(values) && rpo == old(rpo)
      ensures forall x :: 0 <= x < |old(blocks)| && x != h ==> blocks[x] == old(blocks)[x]
      ensures blocks[h].incoming == (if h < |old(blocks)| then old(blocks)[h].incoming else [])
      ensures Kept(old(blocks), blocks)
    {
      h := CreateOrGetBlock(start);
      blocks := blocks[h := WithEnd(blocks[h], endLoc)];
      current := h;
    }

    /** One case of `Switch`: open the block at `loc` and add a conditional edge to it from `pre`. */
    method AddCase(pre: nat, loc: Location) returns (b: nat)
      requires Valid() && pre < |blocks|
      modifies this
      ensures Valid() && b < |blocks| && blocks[b].start == loc && Kept(old(blocks), blocks)
      ensures |edges| == |old(edges)| + 1 && SameEnds(edges[|old(edges)|], Edge(pre, b, true, false))
      ensures forall j :: 0 <= j < |old(edges)| ==> SameEnds(edges[j], old(edges)[j])
    {
      b := AppendBlock(loc, DefaultLocation);
      AddEdge(pre, b, true);
    }

    /** The two blocks of `If`: open else and then (then stays current), and add an edge to each. */
    method AddBranches(pre: nat, elseLoc: Location, thenLoc: Location) returns (elseB: nat, thenB: nat)
      requires Valid() && pre < |blocks|
      modifies this
      ensures Valid() && Kept(old(blocks), blocks) && |edges| == |old(edges)| + 2
      ensures elseB < |blocks| && thenB < |blocks| && blocks[elseB].start == elseLoc && blocks[thenB].start == thenLoc
      ensures SameEnds(edges[|old(edges)|], Edge(pre, thenB, true, false))
      ensures SameEnds(edges[|old(edges)| + 1], Edge(pre, elseB, true, false))
      ensures current == thenB
    {
      elseB := AppendBlock(elseLoc, DefaultLocation);
      thenB := AppendBlock(thenLoc, DefaultLocation);
      ghost var e1 := |edges|;
      AddEdge(pre, thenB, true);
      AddEdge(pre, elseB, true);
      assert SameEnds(edges[e1], Edge(pre, thenB, true, false));
    }

    /**
     * `AddEdge(src, dest, conditional)`: a new edge, last among src's
     * outgoing and dest's incoming edges; when dest already had incoming
     * edges, none of them dominates any longer.
     */
    method AddEdge(src: nat, dest: nat, conditional: bool)
      requires Valid() && src < |blocks| && dest < |blocks|
      modifies this
      ensures Valid() && |edges| == |old(edges)| + 1 && |blocks| == |old(blocks)|
      ensures var e := |old(edges)|;
        && blocks[src].outgoing == old(blocks)[src].outgoing + [e]
        && blocks[dest].incoming == old(blocks)[dest].incoming + [e]
        && edges[e] == Edge(src, dest, conditional, false)
      ensures var all := old(edges) + [Edge(src, dest, conditional, false)];
        edges == if old(blocks)[dest].incoming != [] then ClearDominates(all, blocks[dest].incoming) else all
      ensures forall x :: 0 <= x < |blocks| && x != src && x != dest ==> blocks[x] == old(blocks)[x]
      ensures current == old(current) && values == old(values) && rpo == old(rpo) && blockList == old(blockList)
      ensures Kept(old(blocks), blocks)
      ensures forall j :: 0 <= j < |old(edges)| ==> SameEnds(edges[j], old(edges)[j])
    {
      var destWasDominated := blocks[dest].incoming != [];
      var e := |edges|;
      LinkKeepsInside(blocks, edges, src, dest, conditional);
      edges := edges + [Edge(src, dest, conditional, false)];
      blocks := Link(blocks, src, dest, e);
      if destWasDominated {
        ClearKeepsInside(blocks, edges, blocks[dest].incoming);
        edges := ClearAll(edges, blocks[dest].incoming);
      }
    }

    /**
     * `AppendInst(inst)` of the current block: validate and append; give
     * an instruction with a result its HIR value (whose constructor sets
     * the instruction's id to the value's order id); register one use per
     * Value, Lambda-value or Params-value argument that has an HIR value;
     * raise max_local_id on LoadLocal and StoreLocal.  A Params argument
     * is kept whole, where the original frees its nodes (see
     * RegisterParamsAsWritten): every argument slot is left as it was.
     */
    method AppendInst(meta: MetaTable, pool: InstPool, h: nat) returns (ok: bool)
      requires Valid() && current >= 0
      requires h < |pool.insts| && |pool.insts[h].args| == MaxArgs && FindValue(values, h) == -1
      modifies this, pool
      ensures Valid() && current == old(current) && edges == old(edges) && blockList == old(blockList)
      ensures ok == Validate(meta, old(pool.insts[h]))
      ensures !ok ==> blocks == old(blocks) && values == old(values) && pool.insts == old(pool.insts)
      ensures ok ==> blocks == old(blocks)[current := WithInst(old(blocks)[current], h)]
      ensures ok ==> values == AddArgUses(old(values) + Created(meta, old(pool.insts[h]), h, old(valueOrderId), current), h, old(pool.insts[h]).args)
      ensures ok ==> forall j :: 0 <= j < |old(values)| ==>
        values[j] == WithUses(old(values)[j], UseList(old(pool.insts[h]).args, h, old(values)[j].def))
      ensures ok ==> pool.insts == if HasValue(meta, old(pool.insts[h])) then old(pool.insts)[h := WithId(old(pool.insts[h]), old(valueOrderId))] else old(pool.insts)
      ensures ok ==> valueOrderId == if HasValue(meta, old(pool.insts[h])) then (old(valueOrderId) + 1) % OrderLimit else old(valueOrderId)
      ensures ok ==> maxLocalId == RaisedLocalId(old(pool.insts[h]), old(maxLocalId))
      ensures pool.insts[h].args == old(pool.insts[h]).args
    {
      var inst := pool.insts[h];
      ok := Validate(meta, inst);
      if !ok {
        return;
      }
      AddToCurrent(inst, h);
      AddValue(meta, pool, h);
    }

    /**
     * `current_block->AppendInst(inst)` once validated: the handle joins
     * the current block's list; and the max_local_id update.
     */
    method AddToCurrent(inst: Inst, h: nat)
      requires Valid() && current >= 0 && |inst.args| > 0
      modifies this
      ensures Valid() && current == old(current)
      ensures blocks == old(blocks)[current := WithInst(old(blocks)[current], h)]
      ensures edges == old(edges) && blockList == old(blockList) && values == old(values)
      ensures valueOrderId == old(valueOrderId) && maxLocalId == RaisedLocalId(inst, old(maxLocalId))
    {
      blocks := blocks[current := WithInst(blocks[current], h)];
      maxLocalId := RaisedLocalId(inst, maxLocalId);
    }

    /** The HIR value of the instruction, if it has a result, and the registration of its uses. */
    method AddValue(meta: MetaTable, pool: InstPool, h: nat)
      requires Valid() && current >= 0
      requires h < |pool.insts| && FindValue(values, h) == -1
      modifies this, pool
      ensures Valid()
      ensures blocks == old(blocks) && current == old(current) && edges == old(edges) && blockList == old(blockList)
      ensures maxLocalId == old(maxLocalId)
      ensures values == AddArgUses(old(values) + Created(meta, old(pool.insts[h]), h, old(valueOrderId), current), h, old(pool.insts[h]).args)
      ensures forall j :: 0 <= j < |old(values)| ==>
        values[j] == WithUses(old(values)[j], UseList(old(pool.insts[h]).args, h, old(values)[j].def))
      ensures pool.insts == if HasValue(meta, old(pool.insts[h])) then old(pool.insts)[h := WithId(old(pool.insts[h]), old(valueOrderId))] else old(pool.insts)
      ensures valueOrderId == if HasValue(meta, old(pool.insts[h])) then (old(valueOrderId) + 1) % OrderLimit else old(valueOrderId)
    {
      var inst := pool.insts[h];
      var base := values + Created(meta, inst, h, valueOrderId, current);
      assert DistinctDefs(base);
      var vs := RegisterUses(base, h, inst.args);
      assert forall v :: 0 <= v < |vs| ==> vs[v].block == base[v].block;
      if HasValue(meta, inst) {
        pool.insts := pool.insts[h := WithId(inst, valueOrderId)];
        valueOrderId := (valueOrderId + 1) % OrderLimit;
      }
      values := vs;
    }

    /** The registration loop of `AppendInst`, slot by slot (the HIR values are found by definition). */
    method RegisterUses(base: seq<HIRValue>, h: nat, args: seq<Arg>) returns (vs: seq<HIRValue>)
      requires DistinctDefs(base)
      ensures vs == AddArgUses(base, h, args) && DistinctDefs(vs) && |vs| == |base|
      ensures forall j :: 0 <= j < |base| ==> vs[j] == WithUses(base[j], UseList(args, h, base[j].def))
    {
      vs := base;
      for i := 0 to |args|
        invariant vs == AddArgUses(base, h, args[..i])
      {
        assert args[..i + 1][..i] == args[..i];
        vs := AddUses(vs, h, i, ArgValues(args[i]));
      }
      assert args[..|args|] == args;
      forall j | 0 <= j < |base|
        ensures vs[j] == WithUses(base[j], UseList(args, h, base[j].def))
      {
        AddArgUsesSpec(base, h, args, j);
      }
      if |base| > 0 {
        AddArgUsesSpec(base, h, args, 0);
      }
    }

    /** `EndBlock(terminal)`: the current block gets the terminal and there is no current block. */
    method EndBlock(pool: InstPool, t: Terminal, invalidId: nat)
      requires Valid() && current >= 0 && Handles(pool.insts, blocks[current].insts)
      modifies this, pool
      ensures Valid() && current == -1
      ensures blocks == old(blocks)[old(current) := WithTerm(old(blocks)[old(current)], t)]
      ensures pool.insts == AfterSetTerminal(old(pool.insts), old(blocks)[old(current)].insts, invalidId)
      ensures edges == old(edges) && values == old(values) && blockList == old(blockList) && rpo == old(rpo)
      ensures listStart == old(listStart)
    {
      var list := blocks[current].insts;
      if |list| > 0 && pool.insts[list[0]].id == invalidId {
        var bk := new Block(0, blocks[current].start);
        bk.insts := list;
        bk.ReIdInstr(pool);
      }
      blocks := blocks[current := WithTerm(blocks[current], t)];
      current := -1;
    }

    /** The predecessors loop of `EndFunction`: the sources of the incoming edges, in order. */
    method Predecessors(inc: seq<nat>) returns (p: seq<nat>)
      requires EdgesBelow(inc, |edges|)
      ensures p == Srcs(edges, inc)
    {
      p := [];
      for k := 0 to |inc|
        invariant p == Srcs(edges, inc[..k])
      {
        p := p + [edges[inc[k]].src];
      }
      assert inc[..|inc|] == inc;
    }

    /** The successors loop of `EndFunction`: the destinations of the outgoing edges, in order. */
    method Successors(out: seq<nat>) returns (r: seq<nat>)
      requires EdgesBelow(out, |edges|)
      ensures r == Dests(edges, out)
    {
      r := [];
      for k := 0 to |out|
        invariant r == Dests(edges, out[..k])
      {
        r := r + [edges[out[k]].dest];
      }
      assert out[..|out|] == out;
    }

    /**
     * The block loop of `EndFunction`: `blocks[order_id] = &block` in a
     * vector of MaxBlockCount() entries, predecessors and successors in edge
     * order, then the list is cleared.  An order id outside the vector
     * (once 65536 blocks wrapped the u16 counter) writes out of bounds: ok
     * is false and nothing changes.
     */
    method BuildLinks() returns (ok: bool)
      requires Valid()
      modifies this
      ensures Valid()
      ensures edges == old(edges) && values == old(values) && current == old(current) && rpo == old(rpo)
      ensures |old(blocks)| < OrderLimit ==> ok
      ensures !ok ==> blocks == old(blocks) && blockList == old(blockList) && vector == old(vector)
      ensures ok ==> blockList == [] && |blocks| == |old(blocks)|
      ensures ok ==> forall h :: 0 <= h < |blocks| ==>
        blocks[h] == if old(listStart) <= h then WithLinks(old(blocks)[h], Srcs(edges, old(blocks)[h].incoming), Dests(edges, old(blocks)[h].outgoing)) else old(blocks)[h]
      ensures ok && |blocks| < OrderLimit ==> |vector| == |blocks| && forall h :: 0 <= h < |blocks| ==> vector[h] == if old(listStart) <= h then h else -1
    {
      var bs, vec;
      ok, bs, vec := LinkListed();
      if !ok {
        return;
      }
      LinkedKeeps(blocks, edges, listStart, |blockList|, bs);
      blocks := bs;
      vector := vec;
      blockList := [];
      listStart := |blocks|;
    }

    /** The loop of `BuildLinks` over the block list, on copies of the blocks and the vector. */
    method LinkListed() returns (ok: bool, bs: seq<HBlock>, vec: seq<int>)
      requires Valid()
      ensures |blocks| < OrderLimit ==> ok
      ensures ok ==> LinkedUpTo(blocks, edges, listStart, |blockList|, bs)
      ensures ok && |blocks| < OrderLimit ==> VectorUpTo(listStart, |blockList|, vec) && |vec| == |blocks|
    {
      bs := blocks;
      vec := seq(blockOrderId, _ => -1);
      var i := 0;
      while i < |blockList|
        invariant i <= |blockList| && |vec| == blockOrderId
        invariant LinkedUpTo(blocks, edges, listStart, i, bs)
        invariant |blocks| < OrderLimit ==> VectorUpTo(listStart, i, vec)
      {
        ok, bs, vec := LinkOne(bs, vec, i);
        if !ok {
          return;
        }
        i := i + 1;
      }
      ok := true;
    }

    /** One listed block of `BuildLinks`: record it in the vector and fill in its neighbours. */
    method LinkOne(bs: seq<HBlock>, vec: seq<int>, i: nat) returns (ok: bool, bs': seq<HBlock>, vec': seq<int>)
      requires Valid() && i < |blockList| && |vec| == blockOrderId
      requires LinkedUpTo(blocks, edges, listStart, i, bs)
      requires |blocks| < OrderLimit ==> VectorUpTo(listStart, i, vec)
      ensures |blocks| < OrderLimit ==> ok
      ensures ok ==> |vec'| == blockOrderId && LinkedUpTo(blocks, edges, listStart, i + 1, bs')
      ensures ok && |blocks| < OrderLimit ==> VectorUpTo(listStart, i + 1, vec')
    {
      var h := blockList[i];
      assert h == listStart + i && bs[h] == blocks[h];
      var o := bs[h].order;
      if o >= |vec| {
        return false, bs, vec;
      }
      vec' := vec[o := h];
      var p := Predecessors(bs[h].incoming);
      var r := Successors(bs[h].outgoing);
      bs' := bs[h := WithLinks(bs[h], p, r)];
      ok := true;
    }

    /** `EndFunction()`: end the current block with PopRSBHint, then BuildLinks. */
    method EndFunction(pool: InstPool, invalidId: nat) returns (ok: bool)
      requires Valid() && current >= 0 && Handles(pool.insts, blocks[current].insts)
      modifies this, pool
      ensures Valid() && current == -1 && edges == old(edges) && values == old(values)
      ensures pool.insts == AfterSetTerminal(old(pool.insts), old(blocks)[old(current)].insts, invalidId)
      ensures |old(blocks)| < OrderLimit ==> ok
      ensures ok ==> blockList == [] && |blocks| == |old(blocks)| && blocks[old(current)].term == PopRSBHint
      ensures ok ==> forall h :: old(listStart) <= h < |blocks| ==>
        blocks[h].preds == Srcs(edges, blocks[h].incoming) && blocks[h].succs == Dests(edges, blocks[h].outgoing)
      ensures ok && |blocks| < OrderLimit ==> |vector| == |blocks| && forall h :: old(listStart) <= h < |blocks| ==> vector[h] == h
    {
      EndBlock(pool, PopRSBHint, invalidId);
      ok := BuildLinks();
    }

    /**
     * `IdByRPO` as intended: a u32 counter from 0 numbers the values of
     * each block in RPO order (the id is truncated to u16 by SetId).
     */
    method IdByRPO(pool: InstPool)
      requires Handles(pool.insts, AllDefs(values))
      modifies pool
      ensures pool.insts == ReId(old(pool.insts), RpoDefs(values, rpo))
    {
      pool.insts := NumberRpo(pool.insts, values, rpo);
    }

    /** `DestroyHIRValue`: erase the j-th value from the value map; nothing else changes. */
    method DestroyHIRValue(j: nat)
      requires j < |values|
      modifies this
      ensures values == old(values[..j] + values[j + 1..])
      ensures blocks == old(blocks) && blockList == old(blockList) && edges == old(edges)
      ensures vector == old(vector) && rpo == old(rpo) && current == old(current) && listStart == old(listStart)
      ensures blockOrderId == old(blockOrderId) && valueOrderId == old(valueOrderId) && maxLocalId == old(maxLocalId)
    {
      values := values[..j] + values[j + 1..];
    }
  }

  /**
   * The Params branch of `AppendInst` as written: the parameters are
   * walked to register their uses, then `params.Destroy()` frees the
   * nodes.  `Get<Params>` hands out a reference to the instruction's own
   * argument, so the list freed is the one the appended instruction still
   * holds: once it had a parameter, its `first_param` dangles, and a later
   * GetValues or DestroyArg of that slot walks freed nodes.
   */
  method RegisterParamsAsWritten(p: ParamList) returns (ds: seq<DataClass>)
    requires p.Valid()
    modifies p
    ensures ds == old(p.Contents())
    ensures ds != [] ==> p.Dangling() && !p.Valid()
  {
    ds := p.Values();
    var freed := p.Destroy();
  }

  /** `GetNextLocation`: the target of LinkBlock and LinkBlockFast; any other terminal panics. */
  function GetNextLocation(t: Terminal): (r: Option<Location>)
    ensures r.Some? <==> t.LinkBlock? || t.LinkBlockFast?
    ensures r.Some? ==> r.value == t.next
  {
    match t
    case LinkBlock(next) => Some(next)
    case LinkBlockFast(next) => Some(next)
    case _ => None
  }

  /** `HIRBuilder`: the functions built so far and the one under construction. */
  class HIRBuilder {
    var current: HIRFunction?
    var functions: seq<HIRFunction>
    var location: Location

    constructor()
      ensures current == null && functions == []
    {
      current := null;
      functions := [];
      location := DefaultLocation;
    }

    /** `AppendFunction(start, end)`: a new function, listed and made current. */
    method AppendFunction(start: Location) returns (f: HIRFunction)
      modifies this
      ensures fresh(f) && current == f && functions == old(functions) + [f]
      ensures f.Valid() && |f.blocks| == 1 && f.blocks[0].start == start && f.current == 0
    {
      f := new HIRFunction(start);
      current := f;
      functions := functions + [f];
    }

    method SetLocation(l: Location)
      modifies this
      ensures location == l && current == old(current) && functions == old(functions)
    {
      location := l;
    }

    /**
     * `If(if_)`: end the current block with the terminal, open the else and
     * then blocks, add the conditional edges pre→then and pre→else, and
     * return (else, then).  None when a branch is not a link (the panic of
     * GetNextLocation).
     */
    method If(pool: InstPool, t: Terminal, invalidId: nat) returns (r: Option<(nat, nat)>)
      requires t.If? && current != null && current.Valid() && current.current >= 0
      requires Handles(pool.insts, current.blocks[current.current].insts)
      modifies current, pool
      ensures current.Valid()
      ensures r.Some? <==> GetNextLocation(t.elseT).Some? && GetNextLocation(t.thenT).Some?
      ensures r.Some? ==> var pre, e := old(current.current), |old(current.edges)|;
        && |current.edges| == e + 2 && StartsKept(old(current.blocks), current.blocks)
        && current.blocks[pre].term == t
        && r.value.0 < |current.blocks| && r.value.1 < |current.blocks|
        && current.blocks[r.value.0].start == t.elseT.next && current.blocks[r.value.1].start == t.thenT.next
        && SameEnds(current.edges[e], Edge(pre, r.value.1, true, false))
        && SameEnds(current.edges[e + 1], Edge(pre, r.value.0, true, false))
        && current.current == r.value.1
    {
      var f := current;
      var pre := f.current;
      f.EndBlock(pool, t, invalidId);
      var elseLoc := GetNextLocation(t.elseT);
      var thenLoc := GetNextLocation(t.thenT);
      if elseLoc.None? || thenLoc.None? {
        return None;
      }
      var elseB, thenB := f.AddBranches(pre, elseLoc.value, thenLoc.value);
      r := Some((elseB, thenB));
    }

    /**
     * `Switch(switch_)`: end the current block, then per case in order open
     * the case's block and add a conditional edge to it; the result pairs
     * each case value with its block.
     */
    method Switch(pool: InstPool, t: Terminal, invalidId: nat) returns (r: Option<seq<(Imm, nat)>>)
      requires t.Switch? && current != null && current.Valid() && current.current >= 0
      requires Handles(pool.insts, current.blocks[current.current].insts)
      modifies current, pool
      ensures current.Valid()
      ensures r.Some? <==> forall k :: 0 <= k < |t.cases| ==> GetNextLocation(t.cases[k].next).Some?
      ensures r.Some? ==> var pre, e := old(current.current), |old(current.edges)|;
        && |r.value| == |t.cases| && |current.edges| == e + |t.cases|
        && StartsKept(old(current.blocks), current.blocks) && current.blocks[pre].term == t
        && forall k :: 0 <= k < |t.cases| ==>
             && r.value[k].0 == t.cases[k].caseValue && r.value[k].1 < |current.blocks|
             && current.blocks[r.value[k].1].start == t.cases[k].next.next
             && SameEnds(current.edges[e + k], Edge(pre, r.value[k].1, true, false))
    {
      var f := current;
      var pre := f.current;
      f.EndBlock(pool, t, invalidId);
      ghost var b0 := f.blocks;
      ghost var e0 := |f.edges|;
      var res: seq<(Imm, nat)> := [];
      for i := 0 to |t.cases|
        invariant f.Valid() && pre < |f.blocks| && Kept(b0, f.blocks) && f.blocks[pre].term == t
        invariant |res| == i && CasesOk(t.cases, res, f.blocks, f.edges, e0, pre)
      {
        var next := GetNextLocation(t.cases[i].next);
        if next.None? {
          return None;
        }
        ghost var b1, es1 := f.blocks, f.edges;
        var b := f.AddCase(pre, next.value);
        CasesStep(t.cases, res, b1, es1, f.blocks, f.edges, e0, pre, b);
        res := res + [(t.cases[i].caseValue, b)];
      }
      r := Some(res);
    }

    /** `LinkBlock(link)`: end the current block, open the target block, add an unconditional edge. */
    method LinkBlock(pool: InstPool, t: Terminal, invalidId: nat) returns (next: nat)
      requires t.LinkBlock? && current != null && current.Valid() && current.current >= 0
      requires Handles(pool.insts, current.blocks[current.current].insts)
      modifies current, pool
      ensures current.Valid() && next < |current.blocks| && current.current == next
      ensures var pre, e := old(current.current), |old(current.edges)|;
        && |current.edges| == e + 1 && StartsKept(old(current.blocks), current.blocks)
        && current.blocks[pre].term == t && current.blocks[next].start == t.next
        && SameEnds(current.edges[e], Edge(pre, next, false, false))
    {
      var f := current;
      var pre := f.current;
      f.EndBlock(pool, t, invalidId);
      next := f.AppendBlock(t.next, DefaultLocation);
      f.AddEdge(pre, next, false);
    }

    /** `Return()`: end the function; there is no current function afterwards. */
    method Return(pool: InstPool, invalidId: nat) returns (ok: bool)
      requires current != null && current.Valid() && current.current >= 0
      requires Handles(pool.insts, current.blocks[current.current].insts)
      modifies this, current, pool
      ensures current == null && functions == old(functions)
      ensures old(current).Valid() && old(current).current == -1
      ensures |old(current.blocks)| < OrderLimit ==> ok
      ensures ok ==> old(current).blockList == [] && |old(current).blocks| == |old(current.blocks)|
      ensures ok ==> old(current).blocks[old(current.current)].term == PopRSBHint
    {
      var f := current;
      ok := f.EndFunction(pool, invalidId);
      current := null;
    }
  }
}
