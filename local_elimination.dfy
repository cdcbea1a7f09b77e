/**
 * Local elimination: same-block store-to-load forwarding of guest locals.
 * A table indexed by local id remembers, for each local, the HIR value
 * last stored to it by StoreLocal.  A LoadLocal of a local whose stored
 * value was defined in the block being walked is bypassed: every use of
 * the load is redirected to the stored value, and the load's HIR value is
 * destroyed.  The load instruction itself stays in the block.
 */
module LocalElimination {
  import opened Wrappers
  import opened IrArgs
  import opened IrInst
  import opened IrBlock
  import opened HirBuilder

  /** `HIRLocal::current_value` when not null: the value and the block of its definition. */
  datatype Current = Current(value: Value, block: nat)

  /** What the pass works on: the instruction arena, the function's HIR values and the local table. */
  datatype LState = LState(s: seq<Inst>, values: seq<HIRValue>, table: seq<Option<Current>>)

  /** `current_locals(MaxLocalId() + 1)`: one empty entry per local id. */
  function EmptyTable(maxLocalId: nat): (t: seq<Option<Current>>)
    ensures |t| == maxLocalId + 1 && forall k :: 0 <= k < |t| ==> t[k].None?
  {
    seq(maxLocalId + 1, _ => None)
  }

  // ---------------------------------------------------------------- redirecting uses

  /** A use slot after redirection to v: a Value becomes v, a Lambda becomes Lambda{v}, the rest stays. */
  function Redirected(a: Arg, v: Value): Arg
  {
    match a
    case AValue(_) => AValue(v)
    case ALambda(_) => ALambda(Lambda(DValue(v)))
    case _ => a
  }

  lemma RedirectedIdempotent(a: Arg, v: Value)
    ensures Redirected(Redirected(a, v), v) == Redirected(a, v)
  {
  }

  /**
   * The loop over the uses of the load's HIR value: each use whose slot
   * holds a Value or a Lambda is re-set with SetArg.  None where a use
   * names a slot outside the arena or SetArg panics.
   */
  function RedirectUses(meta: MetaTable, s: seq<Inst>, uses: seq<HIRUse>, v: Value): (r: Option<seq<Inst>>)
    ensures r.Some? ==> |r.value| == |s|
    decreases |uses|
  {
    if uses == [] then Some(s)
    else
      var u := uses[0];
      if !(u.inst < |s| && u.argIdx < |s[u.inst].args|) then None
      else
        var a := s[u.inst].args[u.argIdx];
        var s1 :- if a.AValue? || a.ALambda? then SetArgSpec(meta, s, u.inst, u.argIdx, Redirected(a, v)) else Some(s);
        RedirectUses(meta, s1, uses[1..], v)
  }

  /** r is s with exactly the slots named by `uses` redirected to v; opcodes and slot counts are kept. */
  ghost predicate RedirectedFrom(s: seq<Inst>, r: seq<Inst>, uses: seq<HIRUse>, v: Value)
  {
    && |r| == |s|
    && (forall x :: 0 <= x < |s| ==> r[x].op == s[x].op && |r[x].args| == |s[x].args|)
    && forall x, k :: 0 <= x < |s| && 0 <= k < |s[x].args| ==>
         r[x].args[k] == if HIRUse(x, k) in uses then Redirected(s[x].args[k], v) else s[x].args[k]
  }

  /** Redirection rewrites the use slots and nothing else. */
  lemma {:induction false} RedirectUsesSlots(meta: MetaTable, s: seq<Inst>, uses: seq<HIRUse>, v: Value)
    requires RedirectUses(meta, s, uses, v).Some?
    ensures RedirectedFrom(s, RedirectUses(meta, s, uses, v).value, uses, v)
    decreases |uses|
  {
    if uses != [] {
      var u := uses[0];
      var a := s[u.inst].args[u.argIdx];
      var s1 := if a.AValue? || a.ALambda? then SetArgSpec(meta, s, u.inst, u.argIdx, Redirected(a, v)).value else s;
      if a.AValue? || a.ALambda? {
        SetArgPlaces(meta, s, u.inst, u.argIdx, Redirected(a, v));
      }
      assert RedirectedFrom(s, s1, [u], v) by {
        forall x, k | 0 <= x < |s| && 0 <= k < |s[x].args|
          ensures s1[x].args[k] == if HIRUse(x, k) in [u] then Redirected(s[x].args[k], v) else s[x].args[k]
        {
        }
      }
      RedirectUsesSlots(meta, s1, uses[1..], v);
      var r := RedirectUses(meta, s1, uses[1..], v).value;
      forall x, k | 0 <= x < |s| && 0 <= k < |s[x].args|
        ensures r[x].args[k] == if HIRUse(x, k) in uses then Redirected(s[x].args[k], v) else s[x].args[k]
      {
        RedirectedIdempotent(s[x].args[k], v);
        assert HIRUse(x, k) in uses <==> HIRUse(x, k) == u || HIRUse(x, k) in uses[1..];
      }
    }
  }

  // ---------------------------------------------------------------- one instruction

  /** Drop the j-th HIR value (`DestroyHIRValue`). */
  function Without(values: seq<HIRValue>, j: nat): (r: seq<HIRValue>)
    requires j < |values|
    ensures |r| == |values| - 1
  {
    values[..j] + values[j + 1..]
  }

  /** The table entry a StoreLocal of v leaves: v's HIR value, or null when v has none. */
  function Stored(values: seq<HIRValue>, v: Value): (c: Option<Current>)
    ensures c.Some? <==> FindValue(values, v.def) >= 0
  {
    var j := FindValue(values, v.def);
    if j >= 0 then Some(Current(Value(values[j].def, VOID), values[j].block)) else None
  }

  /**
   * The switch of `LocalEliminationPass::Run(HIRFunction*)` on instruction
   * h of block b.  None where the local or value argument has another kind
   * (the failing `GetArg`) or the local id lies outside the table.
   */
  function Visit(meta: MetaTable, st: LState, b: nat, h: nat): (r: Option<LState>)
    requires h < |st.s|
    ensures r.Some? ==> |r.value.s| == |st.s| && |r.value.table| == |st.table|
  {
    var i := st.s[h];
    match i.op
    case LoadLocal =>
      if |i.args| == 0 || !i.args[0].ALocal? || i.args[0].local.id >= |st.table| then None
      else
        var cur := st.table[i.args[0].local.id];
        if cur.None? || cur.value.block != b then Some(st)
        else
          var j := FindValue(st.values, h);
          if j < 0 then Some(st)
          else
            var s1 :- RedirectUses(meta, st.s, st.values[j].uses, cur.value.value);
            Some(LState(s1, Without(st.values, j), st.table))
    case StoreLocal =>
      if |i.args| < 2 || !i.args[0].ALocal? || !i.args[1].AValue? || i.args[0].local.id >= |st.table| then None
      else Some(st.(table := st.table[i.args[0].local.id := Stored(st.values, i.args[1].value)]))
    case _ => Some(st)
  }

  /** A StoreLocal records the stored value's HIR value for its local, and changes nothing else. */
  lemma VisitStore(meta: MetaTable, st: LState, b: nat, h: nat)
    requires h < |st.s| && st.s[h].op == StoreLocal
    requires |st.s[h].args| >= 2 && st.s[h].args[0].ALocal? && st.s[h].args[1].AValue?
    requires st.s[h].args[0].local.id < |st.table|
    ensures var r := Visit(meta, st, b, h);
      && r.Some? && r.value.s == st.s && r.value.values == st.values
      && r.value.table == st.table[st.s[h].args[0].local.id := Stored(st.values, st.s[h].args[1].value)]
  {
  }

  /**
   * A LoadLocal whose local holds a value of this same block: each use of
   * the load is redirected to the stored value, and the load's HIR value
   * is gone from the map.
   */
  lemma VisitLoadForwards(meta: MetaTable, st: LState, b: nat, h: nat)
    requires h < |st.s| && st.s[h].op == LoadLocal && DistinctDefs(st.values)
    requires |st.s[h].args| > 0 && st.s[h].args[0].ALocal? && st.s[h].args[0].local.id < |st.table|
    requires var cur := st.table[st.s[h].args[0].local.id]; cur.Some? && cur.value.block == b
    requires FindValue(st.values, h) >= 0 && Visit(meta, st, b, h).Some?
    ensures var r := Visit(meta, st, b, h).value;
      var j := FindValue(st.values, h);
      && RedirectedFrom(st.s, r.s, st.values[j].uses, st.table[st.s[h].args[0].local.id].value.value)
      && FindValue(r.values, h) == -1 && r.values == Without(st.values, j) && r.table == st.table
  {
    var j := FindValue(st.values, h);
    var id := st.s[h].args[0].local.id;
    var cur := st.table[id].value;
    VisitLoadStep(meta, st, b, h, id, j);
    RedirectUsesSlots(meta, st.s, st.values[j].uses, cur.value);
    var w := Without(st.values, j);
    forall k | 0 <= k < |w| ensures w[k].def != h {
      var k' := if k < j then k else k + 1;
      assert w[k] == st.values[k'] && k' != j;
    }
  }

  /** A LoadLocal of a local with no value, or with a value of another block, is left alone. */
  lemma VisitLoadUntouched(meta: MetaTable, st: LState, b: nat, h: nat)
    requires h < |st.s| && st.s[h].op == LoadLocal
    requires |st.s[h].args| > 0 && st.s[h].args[0].ALocal? && st.s[h].args[0].local.id < |st.table|
    requires var cur := st.table[st.s[h].args[0].local.id]; cur.None? || cur.value.block != b
    ensures Visit(meta, st, b, h) == Some(st)
  {
  }

  /** Every other opcode is left alone. */
  lemma VisitOther(meta: MetaTable, st: LState, b: nat, h: nat)
    requires h < |st.s| && st.s[h].op != LoadLocal && st.s[h].op != StoreLocal
    ensures Visit(meta, st, b, h) == Some(st)
  {
  }

  /** One block: x := Other; StoreLocal(l0, x); y := LoadLocal(l0); Other(y). */
  function StoreLoadBlock(): seq<Inst>
  {
    [Inst(Other(0), [AVoid, AVoid, AVoid, AVoid], 1, 0, U64, NoPseudo),
     Inst(StoreLocal, [ALocal(Local(0, U64)), AValue(Value(0, VOID)), AVoid, AVoid], 0, 1, VOID, NoPseudo),
     Inst(LoadLocal, [ALocal(Local(0, U64)), AVoid, AVoid, AVoid], 1, 2, U64, NoPseudo),
     Inst(Other(1), [AValue(Value(2, VOID)), AVoid, AVoid, AVoid], 0, 3, U64, NoPseudo)]
  }

  /** The HIR values of x (used by the store) and y (used by the last instruction), both of block 0. */
  function StoreLoadValues(): seq<HIRValue>
  {
    [HIRValue(0, 0, 0, DefaultAllocated(), [HIRUse(1, 1)]),
     HIRValue(2, 1, 0, DefaultAllocated(), [HIRUse(3, 0)])]
  }

  /** The block's arena after forwarding: y has lost its use, x has gained it, the last instruction uses x. */
  function StoreLoadForwarded(): seq<Inst>
  {
    [Inst(Other(0), [AVoid, AVoid, AVoid, AVoid], 2, 0, U64, NoPseudo),
     Inst(StoreLocal, [ALocal(Local(0, U64)), AValue(Value(0, VOID)), AVoid, AVoid], 0, 1, VOID, NoPseudo),
     Inst(LoadLocal, [ALocal(Local(0, U64)), AVoid, AVoid, AVoid], 0, 2, U64, NoPseudo),
     Inst(Other(1), [AValue(Value(0, VOID)), AVoid, AVoid, AVoid], 0, 3, U64, NoPseudo)]
  }

  /** Redirecting y's one use to x moves the use count from y to x. */
  lemma StoreLoadRedirect(meta: MetaTable)
    ensures RedirectUses(meta, StoreLoadBlock(), [HIRUse(3, 0)], Value(0, VOID)) == Some(StoreLoadForwarded())
  {
    StoreLoadSetArg(meta);
    assert Redirected(AValue(Value(2, VOID)), Value(0, VOID)) == AValue(Value(0, VOID));
    RedirectOne(meta, StoreLoadBlock(), HIRUse(3, 0), Value(0, VOID), StoreLoadForwarded());
  }

  /** Redirecting a single use is the SetArg of the redirected argument in its slot. */
  lemma RedirectOne(meta: MetaTable, s: seq<Inst>, u: HIRUse, v: Value, s1: seq<Inst>)
    requires u.inst < |s| && u.argIdx < |s[u.inst].args|
    requires s[u.inst].args[u.argIdx].AValue? || s[u.inst].args[u.argIdx].ALambda?
    requires SetArgSpec(meta, s, u.inst, u.argIdx, Redirected(s[u.inst].args[u.argIdx], v)) == Some(s1)
    ensures RedirectUses(meta, s, [u], v) == Some(s1)
  {
    assert [u][1..] == [];
  }

  /** SetArg of x in y's slot of the last instruction: y loses its use, x gains one. */
  lemma StoreLoadSetArg(meta: MetaTable)
    ensures SetArgSpec(meta, StoreLoadBlock(), 3, 0, AValue(Value(0, VOID))) == Some(StoreLoadForwarded())
  {
    StoreLoadOverwrite();
    var s3 := StoreLoadOverwritten();
    var s4 := s3[0 := s3[0].(numUse := 2)];
    assert UseAll(s3, 3, [Value(0, VOID)]) == Some(s4);
    assert ArgValues(AValue(Value(0, VOID))) == [Value(0, VOID)];
    assert Adopt(meta, s4, 3, AValue(Value(0, VOID))) == s4[3];
    assert s4[3 := s4[3]] == s4;
    var f := StoreLoadForwarded();
    assert s4[0] == f[0] && s4[1] == f[1] && s4[2] == f[2] && s4[3] == f[3];
    FourEqual(s4, f);
  }

  /** Two arenas of four instructions that agree instruction by instruction are equal. */
  lemma FourEqual(a: seq<Inst>, b: seq<Inst>)
    requires |a| == 4 && |b| == 4 && a[0] == b[0] && a[1] == b[1] && a[2] == b[2] && a[3] == b[3]
    ensures a == b
  {
    forall i | 0 <= i < 4 ensures a[i] == b[i] {
      if i == 0 {} else if i == 1 {} else if i == 2 {} else {}
    }
  }

  /** The arena once y's slot holds x, before x's use is counted: y has lost its use. */
  function StoreLoadOverwritten(): seq<Inst>
  {
    [Inst(Other(0), [AVoid, AVoid, AVoid, AVoid], 1, 0, U64, NoPseudo),
     Inst(StoreLocal, [ALocal(Local(0, U64)), AValue(Value(0, VOID)), AVoid, AVoid], 0, 1, VOID, NoPseudo),
     Inst(LoadLocal, [ALocal(Local(0, U64)), AVoid, AVoid, AVoid], 0, 2, U64, NoPseudo),
     Inst(Other(1), [AValue(Value(0, VOID)), AVoid, AVoid, AVoid], 0, 3, U64, NoPseudo)]
  }

  /** The overwrite of y's slot: UnUse of y, then x stored in the slot. */
  lemma StoreLoadOverwrite()
    ensures Overwrite(StoreLoadBlock(), 3, 0, AValue(Value(0, VOID))) == Some(StoreLoadOverwritten())
  {
    var s := StoreLoadBlock();
    var s1 := s[2 := s[2].(numUse := 0)];
    assert UnUseAll(s, 3, [Value(2, VOID)]) == Some(s1);
    var s2 := s1[3 := s1[3].(args := s1[3].args[0 := AVoid])];
    assert DestroyArgSpec(s, 3, 0) == Some(s2);
    var s3 := s2[3 := s2[3].(args := s2[3].args[0 := AValue(Value(0, VOID))])];
    assert Overwrite(s, 3, 0, AValue(Value(0, VOID))) == Some(s3);
    var o := StoreLoadOverwritten();
    assert s3[0] == o[0] && s3[1] == o[1] && s3[2] == o[2] && s3[3] == o[3];
    FourEqual(s3, o);
  }

  /** The table after the store: local 0 holds x, of block 0. */
  function StoreLoadTable(): seq<Option<Current>>
  {
    [Some(Current(Value(0, VOID), 0))]
  }

  lemma StoreLoadFind()
    ensures FindValue(StoreLoadValues(), 0) == 0 && FindValue(StoreLoadValues(), 2) == 1
  {
    var vs := StoreLoadValues();
    assert vs[..1] == [vs[0]] && [vs[0]][..0] == [];
  }

  lemma StoreLoadStore(meta: MetaTable)
    ensures Visit(meta, LState(StoreLoadBlock(), StoreLoadValues(), EmptyTable(0)), 0, 1)
         == Some(LState(StoreLoadBlock(), StoreLoadValues(), StoreLoadTable()))
  {
    var vs := StoreLoadValues();
    StoreLoadFind();
    assert Stored(vs, Value(0, VOID)) == Some(Current(Value(0, VOID), 0));
    assert EmptyTable(0)[0 := Stored(vs, Value(0, VOID))] == StoreLoadTable();
  }

  lemma StoreLoadLoad(meta: MetaTable)
    ensures Visit(meta, LState(StoreLoadBlock(), StoreLoadValues(), StoreLoadTable()), 0, 2)
         == Some(LState(StoreLoadForwarded(), [StoreLoadValues()[0]], StoreLoadTable()))
  {
    var vs := StoreLoadValues();
    var s := StoreLoadBlock();
    StoreLoadFind();
    StoreLoadRedirect(meta);
    assert s[2].op == LoadLocal && s[2].args[0] == ALocal(Local(0, U64));
    var st := LState(s, vs, StoreLoadTable());
    VisitLoadStep(meta, st, 0, 2, 0, 1);
    assert Without(vs, 1) == [vs[0]];
  }

  /** The load branch of Visit, once the local's entry and the load's HIR value are known. */
  lemma VisitLoadStep(meta: MetaTable, st: LState, b: nat, h: nat, id: nat, j: nat)
    requires h < |st.s| && st.s[h].op == LoadLocal && |st.s[h].args| > 0 && st.s[h].args[0].ALocal?
    requires id == st.s[h].args[0].local.id < |st.table| && st.table[id].Some? && st.table[id].value.block == b
    requires j < |st.values| && FindValue(st.values, h) == j
    ensures Visit(meta, st, b, h) ==
      match RedirectUses(meta, st.s, st.values[j].uses, st.table[id].value.value)
      case None => None
      case Some(s1) => Some(LState(s1, Without(st.values, j), st.table))
  {
  }

  /**
   * Store-to-load forwarding over the whole block: the user of y now uses
   * x, y has no use left and no HIR value, and x has gained the use.
   */
  lemma StoreThenLoadForwards(meta: MetaTable, s: seq<Inst>, vs: seq<HIRValue>, list: seq<nat>)
    requires s == StoreLoadBlock() && vs == StoreLoadValues() && list == [0, 1, 2, 3]
    ensures var r := WalkBlock(meta, LState(s, vs, EmptyTable(0)), 0, list);
      && r.Some? && |r.value.s| == 4 && |r.value.s[3].args| == MaxArgs && r.value.s[3].args[0] == AValue(Value(0, VOID))
      && r.value.values == [vs[0]] && r.value.s[2].numUse == 0 && r.value.s[0].numUse == 2
  {
    StoreLoadWalk(meta);
  }

  /** The walk over the block: the store records x, the load is forwarded, the rest is left alone. */
  lemma StoreLoadWalk(meta: MetaTable)
    ensures WalkBlock(meta, LState(StoreLoadBlock(), StoreLoadValues(), EmptyTable(0)), 0, [0, 1, 2, 3])
         == Some(LState(StoreLoadForwarded(), [StoreLoadValues()[0]], StoreLoadTable()))
  {
    var s, vs := StoreLoadBlock(), StoreLoadValues();
    var st0 := LState(s, vs, EmptyTable(0));
    var st1 := LState(s, vs, StoreLoadTable());
    assert Visit(meta, st0, 0, 0) == Some(st0);
    StoreLoadStore(meta);
    StoreLoadWalkTail(meta);
    assert [0, 1, 2, 3][1..] == [1, 2, 3] && [1, 2, 3][1..] == [2, 3];
    WalkBlockStep(meta, st1, 0, [1, 2, 3]);
    WalkBlockStep(meta, st0, 0, [0, 1, 2, 3]);
  }

  /** The last two instructions of the walk: the load is forwarded, the user of y is left alone. */
  lemma StoreLoadWalkTail(meta: MetaTable)
    ensures WalkBlock(meta, LState(StoreLoadBlock(), StoreLoadValues(), StoreLoadTable()), 0, [2, 3])
         == Some(LState(StoreLoadForwarded(), [StoreLoadValues()[0]], StoreLoadTable()))
  {
    var st1 := LState(StoreLoadBlock(), StoreLoadValues(), StoreLoadTable());
    var st3 := LState(StoreLoadForwarded(), [StoreLoadValues()[0]], StoreLoadTable());
    StoreLoadLoad(meta);
    assert Visit(meta, st3, 0, 3) == Some(st3);
    assert [2, 3][1..] == [3] && [3][1..] == [];
    WalkBlockStep(meta, st3, 0, [3]);
    WalkBlockStep(meta, st1, 0, [2, 3]);
  }

  /** One step of the block walk. */
  lemma WalkBlockStep(meta: MetaTable, st: LState, b: nat, list: seq<nat>)
    requires Handles(st.s, list) && list != []
    ensures WalkBlock(meta, st, b, list) ==
      match Visit(meta, st, b, list[0])
      case None => None
      case Some(st1) => WalkBlock(meta, st1, b, list[1..])
  {
  }

  // ---------------------------------------------------------------- blocks and the function

  /** The walk over the instruction list of block b. */
  function WalkBlock(meta: MetaTable, st: LState, b: nat, list: seq<nat>): (r: Option<LState>)
    requires Handles(st.s, list)
    ensures r.Some? ==> |r.value.s| == |st.s| && |r.value.table| == |st.table|
    decreases |list|
  {
    if list == [] then Some(st)
    else
      var st1 :- Visit(meta, st, b, list[0]);
      WalkBlock(meta, st1, b, list[1..])
  }

  /** The block vector holds blocks of the function, each listing instructions of the arena. */
  ghost predicate BlocksOk(s: seq<Inst>, blocks: seq<HBlock>, vector: seq<int>)
  {
    forall k :: 0 <= k < |vector| ==> 0 <= vector[k] < |blocks| && Handles(s, blocks[vector[k]].insts)
  }

  lemma BlocksOkSameLength(s: seq<Inst>, t: seq<Inst>, blocks: seq<HBlock>, vector: seq<int>)
    requires BlocksOk(s, blocks, vector) && |t| == |s|
    ensures BlocksOk(t, blocks, vector)
  {
  }

  lemma BlocksOkSuffix(s: seq<Inst>, blocks: seq<HBlock>, vector: seq<int>, k: nat)
    requires BlocksOk(s, blocks, vector) && k <= |vector|
    ensures BlocksOk(s, blocks, vector[k..])
  {
    forall j | 0 <= j < |vector[k..]| ensures 0 <= vector[k..][j] < |blocks| && Handles(s, blocks[vector[k..][j]].insts) {
      assert vector[k..][j] == vector[k + j];
    }
  }

  /** The walk over the blocks of the vector, in vector order; the table carries over between blocks. */
  function WalkBlocks(meta: MetaTable, st: LState, blocks: seq<HBlock>, vector: seq<int>): (r: Option<LState>)
    requires BlocksOk(st.s, blocks, vector)
    ensures r.Some? ==> |r.value.s| == |st.s| && |r.value.table| == |st.table|
    decreases |vector|
  {
    if vector == [] then Some(st)
    else
      var b := vector[0];
      var st1 :- WalkBlock(meta, st, b, blocks[b].insts);
      BlocksOkSameLength(st.s, st1.s, blocks, vector[1..]);
      WalkBlocks(meta, st1, blocks, vector[1..])
  }

  /** `LocalEliminationPass::Run(HIRFunction*)` on the arena and the value map; the table starts empty. */
  function Pass(meta: MetaTable, s: seq<Inst>, values: seq<HIRValue>, blocks: seq<HBlock>, vector: seq<int>,
                maxLocalId: nat): (r: Option<(seq<Inst>, seq<HIRValue>)>)
    requires BlocksOk(s, blocks, vector)
    ensures r.Some? ==> |r.value.0| == |s|
  {
    var st :- WalkBlocks(meta, LState(s, values, EmptyTable(maxLocalId)), blocks, vector);
    Some((st.s, st.values))
  }

  /** The pass changes no opcode and never adds an HIR value; DistinctDefs is kept. */
  lemma {:induction false} WalkBlockKeeps(meta: MetaTable, st: LState, b: nat, list: seq<nat>)
    requires Handles(st.s, list) && DistinctDefs(st.values) && WalkBlock(meta, st, b, list).Some?
    ensures var r := WalkBlock(meta, st, b, list).value;
      && (forall x :: 0 <= x < |st.s| ==> r.s[x].op == st.s[x].op)
      && |r.values| <= |st.values| && DistinctDefs(r.values)
    decreases |list|
  {
    if list != [] {
      var st1 := Visit(meta, st, b, list[0]).value;
      VisitKeeps(meta, st, b, list[0]);
      WalkBlockKeeps(meta, st1, b, list[1..]);
    }
  }

  lemma VisitKeeps(meta: MetaTable, st: LState, b: nat, h: nat)
    requires h < |st.s| && DistinctDefs(st.values) && Visit(meta, st, b, h).Some?
    ensures var r := Visit(meta, st, b, h).value;
      && (forall x :: 0 <= x < |st.s| ==> r.s[x].op == st.s[x].op)
      && |r.values| <= |st.values| && DistinctDefs(r.values)
  {
    var i := st.s[h];
    if i.op == LoadLocal {
      var cur := st.table[i.args[0].local.id];
      if cur.Some? && cur.value.block == b && FindValue(st.values, h) >= 0 {
        var j := FindValue(st.values, h);
        RedirectUsesSlots(meta, st.s, st.values[j].uses, cur.value.value);
        WithoutDistinct(st.values, j);
      }
    }
  }

  /** Dropping one HIR value keeps the definitions distinct. */
  lemma WithoutDistinct(values: seq<HIRValue>, j: nat)
    requires j < |values| && DistinctDefs(values)
    ensures DistinctDefs(Without(values, j))
  {
    var w := Without(values, j);
    forall p, q | 0 <= p < q < |w| ensures w[p].def != w[q].def {
      var p', q' := if p < j then p else p + 1, if q < j then q else q + 1;
      assert w[p] == values[p'] && w[q] == values[q'];
    }
  }

  // ---------------------------------------------------------------- the pass, in place

  /** The inner loop: SetArg on each use whose slot holds a Value or a Lambda. */
  method Redirect(meta: MetaTable, pool: InstPool, uses: seq<HIRUse>, v: Value) returns (ok: bool)
    modifies pool
    ensures ok <==> RedirectUses(meta, old(pool.insts), uses, v).Some?
    ensures ok ==> pool.insts == RedirectUses(meta, old(pool.insts), uses, v).value
  {
    for i := 0 to |uses|
      invariant RedirectUses(meta, old(pool.insts), uses, v) == RedirectUses(meta, pool.insts, uses[i..], v)
    {
      assert uses[i..][1..] == uses[i + 1..];
      var u := uses[i];
      if !(u.inst < |pool.insts| && u.argIdx < |pool.insts[u.inst].args|) {
        return false;
      }
      var a := pool.insts[u.inst].args[u.argIdx];
      if a.AValue? || a.ALambda? {
        ok := pool.SetArg(meta, u.inst, u.argIdx, Redirected(a, v));
        if !ok {
          return;
        }
      }
    }
    return true;
  }

  /** One instruction of the walk: the arena, the value map of f and the table change as Visit says. */
  method VisitInst(meta: MetaTable, pool: InstPool, f: HIRFunction, table: array<Option<Current>>, b: nat, h: nat)
    returns (ok: bool)
    requires h < |pool.insts|
    modifies pool, f, table
    ensures var r := Visit(meta, LState(old(pool.insts), old(f.values), old(table[..])), b, h);
      && (ok <==> r.Some?)
      && (ok ==> LState(pool.insts, f.values, table[..]) == r.value)
    ensures f.blocks == old(f.blocks) && f.vector == old(f.vector) && f.maxLocalId == old(f.maxLocalId)
    ensures f.edges == old(f.edges) && f.blockList == old(f.blockList) && f.rpo == old(f.rpo)
  {
    var i := pool.insts[h];
    match i.op
    case LoadLocal =>
      if |i.args| == 0 || !i.args[0].ALocal? || i.args[0].local.id >= table.Length {
        return false;
      }
      var cur := table[i.args[0].local.id];
      if cur.Some? && cur.value.block == b {
        var j := FindValue(f.values, h);
        if j >= 0 {
          ok := Redirect(meta, pool, f.values[j].uses, cur.value.value);
          if !ok {
            return;
          }
          f.DestroyHIRValue(j);
        }
      }
      return true;
    case StoreLocal =>
      if |i.args| < 2 || !i.args[0].ALocal? || !i.args[1].AValue? || i.args[0].local.id >= table.Length {
        return false;
      }
      table[i.args[0].local.id] := Stored(f.values, i.args[1].value);
      return true;
    case _ =>
      return true;
  }

  /** The walk over one block's instruction list. */
  method VisitBlock(meta: MetaTable, pool: InstPool, f: HIRFunction, table: array<Option<Current>>, b: nat,
                    list: seq<nat>) returns (ok: bool)
    requires Handles(pool.insts, list)
    modifies pool, f, table
    ensures var r := WalkBlock(meta, LState(old(pool.insts), old(f.values), old(table[..])), b, list);
      && (ok <==> r.Some?)
      && (ok ==> LState(pool.insts, f.values, table[..]) == r.value)
    ensures f.blocks == old(f.blocks) && f.vector == old(f.vector) && f.maxLocalId == old(f.maxLocalId)
    ensures f.edges == old(f.edges) && f.blockList == old(f.blockList) && f.rpo == old(f.rpo)
  {
    ghost var target := WalkBlock(meta, LState(pool.insts, f.values, table[..]), b, list);
    for k := 0 to |list|
      invariant Handles(pool.insts, list[k..])
      invariant target == WalkBlock(meta, LState(pool.insts, f.values, table[..]), b, list[k..])
      invariant f.blocks == old(f.blocks) && f.vector == old(f.vector) && f.maxLocalId == old(f.maxLocalId)
      invariant f.edges == old(f.edges) && f.blockList == old(f.blockList) && f.rpo == old(f.rpo)
    {
      assert list[k..][1..] == list[k + 1..];
      ok := VisitInst(meta, pool, f, table, b, list[k]);
      if !ok {
        return;
      }
    }
    return true;
  }

  /**
   * `LocalEliminationPass::Run(HIRFunction*)`: a table of MaxLocalId() + 1
   * empty entries, then the walk over the blocks of the block vector.
   */
  method RunFunction(meta: MetaTable, pool: InstPool, f: HIRFunction) returns (ok: bool)
    requires BlocksOk(pool.insts, f.blocks, f.vector)
    modifies pool, f
    ensures var r := Pass(meta, old(pool.insts), old(f.values), old(f.blocks), old(f.vector), old(f.maxLocalId));
      && (ok <==> r.Some?)
      && (ok ==> pool.insts == r.value.0 && f.values == r.value.1)
    ensures f.blocks == old(f.blocks) && f.vector == old(f.vector) && f.maxLocalId == old(f.maxLocalId)
    ensures f.edges == old(f.edges) && f.blockList == old(f.blockList) && f.rpo == old(f.rpo)
  {
    var table := new Option<Current>[f.maxLocalId + 1](_ => None);
    assert table[..] == EmptyTable(f.maxLocalId);
    var blocks, vector := f.blocks, f.vector;
    ghost var target := WalkBlocks(meta, LState(pool.insts, f.values, table[..]), blocks, vector);
    for k := 0 to |vector|
      invariant |pool.insts| == |old(pool.insts)| && BlocksOk(pool.insts, blocks, vector[k..])
      invariant target == WalkBlocks(meta, LState(pool.insts, f.values, table[..]), blocks, vector[k..])
      invariant f.blocks == blocks && f.vector == vector && f.maxLocalId == old(f.maxLocalId)
      invariant f.edges == old(f.edges) && f.blockList == old(f.blockList) && f.rpo == old(f.rpo)
    {
      assert vector[k..][1..] == vector[k + 1..];
      var b := vector[k];
      ok := VisitBlock(meta, pool, f, table, b, blocks[b].insts);
      if !ok {
        return;
      }
      BlocksOkSameLength(old(pool.insts), pool.insts, blocks, vector);
      BlocksOkSuffix(pool.insts, blocks, vector, k + 1);
    }
    return true;
  }

  // ---------------------------------------------------------------- every function of the builder

  /** The parts of a function the pass reads or writes. */
  datatype FuncView = FuncView(values: seq<HIRValue>, blocks: seq<HBlock>, vector: seq<int>, maxLocalId: nat)

  function ViewOf(f: HIRFunction): FuncView
    reads f
  {
    FuncView(f.values, f.blocks, f.vector, f.maxLocalId)
  }

  function ViewsOf(fs: seq<HIRFunction>): (r: seq<FuncView>)
    reads fs
    ensures |r| == |fs| && forall i :: 0 <= i < |fs| ==> r[i] == ViewOf(fs[i])
  {
    seq(|fs|, i requires 0 <= i < |fs| reads fs => ViewOf(fs[i]))
  }

  ghost predicate ViewsOk(s: seq<Inst>, views: seq<FuncView>)
  {
    forall i :: 0 <= i < |views| ==> BlocksOk(s, views[i].blocks, views[i].vector)
  }

  lemma ViewsOkRest(s: seq<Inst>, t: seq<Inst>, views: seq<FuncView>)
    requires ViewsOk(s, views) && |t| == |s| && views != []
    ensures ViewsOk(t, views[1..])
  {
    forall i | 0 <= i < |views[1..]| ensures BlocksOk(t, views[1..][i].blocks, views[1..][i].vector) {
      BlocksOkSameLength(s, t, views[i + 1].blocks, views[i + 1].vector);
    }
  }

  /** `LocalEliminationPass::Run(HIRBuilder*)`: the pass on each function in turn; the arena is shared. */
  function PassAll(meta: MetaTable, s: seq<Inst>, views: seq<FuncView>): (r: Option<(seq<Inst>, seq<seq<HIRValue>>)>)
    requires ViewsOk(s, views)
    ensures r.Some? ==> |r.value.0| == |s| && |r.value.1| == |views|
    decreases |views|
  {
    if views == [] then Some((s, []))
    else
      var v := views[0];
      var first :- Pass(meta, s, v.values, v.blocks, v.vector, v.maxLocalId);
      ViewsOkRest(s, first.0, views);
      var rest :- PassAll(meta, first.0, views[1..]);
      Some((rest.0, [first.1] + rest.1))
  }

  /** The value maps `done` of the functions already run, put in front of the rest of the walk. */
  function Glue(done: seq<seq<HIRValue>>, o: Option<(seq<Inst>, seq<seq<HIRValue>>)>): Option<(seq<Inst>, seq<seq<HIRValue>>)>
  {
    match o
    case None => None
    case Some(r) => Some((r.0, done + r.1))
  }

  /** Function f is still as viewed (not run) or carries the value map `val` it was given (run). */
  ghost predicate Staged(f: HIRFunction, v: FuncView, ran: bool, val: seq<HIRValue>)
    reads f
  {
    f.blocks == v.blocks && f.vector == v.vector && f.maxLocalId == v.maxLocalId
    && f.values == if ran then val else v.values
  }

  lemma GlueStep(meta: MetaTable, s: seq<Inst>, t: seq<Inst>, views: seq<FuncView>, i: nat, done: seq<seq<HIRValue>>,
                 val: seq<HIRValue>)
    requires i < |views| && ViewsOk(s, views[i..]) && |t| == |s|
    requires Pass(meta, s, views[i].values, views[i].blocks, views[i].vector, views[i].maxLocalId) == Some((t, val))
    ensures ViewsOk(t, views[i + 1..])
    ensures Glue(done, PassAll(meta, s, views[i..])) == Glue(done + [val], PassAll(meta, t, views[i + 1..]))
  {
    assert views[i..][1..] == views[i + 1..];
    ViewsOkRest(s, t, views[i..]);
    var o := PassAll(meta, t, views[i + 1..]);
    if o.Some? {
      assert done + ([val] + o.value.1) == (done + [val]) + o.value.1;
    }
  }

  method Run(meta: MetaTable, pool: InstPool, b: HIRBuilder) returns (ok: bool)
    requires ViewsOk(pool.insts, ViewsOf(b.functions))
    requires forall i, j :: 0 <= i < j < |b.functions| ==> b.functions[i] != b.functions[j]
    modifies pool, set i | 0 <= i < |b.functions| :: b.functions[i]
    ensures var r := PassAll(meta, old(pool.insts), old(ViewsOf(b.functions)));
      && (ok <==> r.Some?)
      && (ok ==> pool.insts == r.value.0 && forall i :: 0 <= i < |b.functions| ==> b.functions[i].values == r.value.1[i])
  {
    var fs := b.functions;
    ghost var views := ViewsOf(fs);
    ghost var target := PassAll(meta, pool.insts, views);
    ghost var done: seq<seq<HIRValue>> := [];
    assert Glue([], target) == target by {
      if target.Some? { assert [] + target.value.1 == target.value.1; }
    }
    for i := 0 to |fs|
      invariant |done| == i && |pool.insts| == |old(pool.insts)| && ViewsOk(pool.insts, views[i..])
      invariant target == Glue(done, PassAll(meta, pool.insts, views[i..]))
      invariant forall j :: 0 <= j < |fs| ==> Staged(fs[j], views[j], j < i, if j < i then done[j] else [])
    {
      assert BlocksOk(pool.insts, views[i..][0].blocks, views[i..][0].vector);
      ghost var s0 := pool.insts;
      ok := RunFunction(meta, pool, fs[i]);
      if !ok {
        return;
      }
      GlueStep(meta, s0, pool.insts, views, i, done, fs[i].values);
      done := done + [fs[i].values];
    }
    assert views[|fs|..] == [];
    return true;
  }
}
