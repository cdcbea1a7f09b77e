/**
 * The dead-code elimination pass over one block: a single forward walk
 * that unlinks and deletes every instruction without side effects (no
 * uses and a result-producing opcode).  Deleting an instruction releases
 * its arguments (`~Inst` runs DestroyArgs), which lowers the use counts of
 * the instructions it used.
 */
module DeadCode {
  import opened Wrappers
  import opened IrArgs
  import opened IrInst
  import opened IrBlock

  /** Every instruction has its `max_args` slots. */
  ghost predicate Slots(s: seq<Inst>)
  {
    forall k :: 0 <= k < |s| ==> |s[k].args| == MaxArgs
  }

  /** `DestroyArgs` from slot i on: DestroyArg on slots i, i + 1, ..., max_args - 1. */
  function DestroyArgsFrom(s: seq<Inst>, user: nat, i: nat): (r: Option<seq<Inst>>)
    requires user < |s| && |s[user].args| == MaxArgs && i <= MaxArgs
    ensures r.Some? ==> |r.value| == |s|
    ensures r.Some? ==> |r.value[user].args| == MaxArgs
    ensures r.Some? ==> forall k :: 0 <= k < MaxArgs ==> r.value[user].args[k] == if k < i then s[user].args[k] else AVoid
    ensures r.Some? ==> forall x :: 0 <= x < |s| && x != user ==> r.value[x].args == s[x].args
    ensures r.Some? ==> forall x :: 0 <= x < |s| ==> r.value[x].op == s[x].op && r.value[x].retType == s[x].retType
    decreases MaxArgs - i
  {
    if i == MaxArgs then Some(s)
    else
      var s1 :- DestroyArgSpec(s, user, i);
      DestroyArgsFrom(s1, user, i + 1)
  }

  /** `DestroyArgs`: every slot un-used and reset to Void; no other instruction's arguments change. */
  function DestroyArgs(s: seq<Inst>, user: nat): (r: Option<seq<Inst>>)
    requires user < |s| && |s[user].args| == MaxArgs
    ensures r.Some? ==> |r.value| == |s| && r.value[user].args == [AVoid, AVoid, AVoid, AVoid]
    ensures r.Some? ==> forall x :: 0 <= x < |s| && x != user ==> r.value[x].args == s[x].args
    ensures r.Some? ==> forall x :: 0 <= x < |s| ==> r.value[x].op == s[x].op && r.value[x].retType == s[x].retType
  {
    DestroyArgsFrom(s, user, 0)
  }

  /** Releasing the arguments of an instruction whose slots are all Void changes nothing. */
  lemma {:induction false} DestroyArgsFromVoid(s: seq<Inst>, user: nat, i: nat)
    requires user < |s| && |s[user].args| == MaxArgs && i <= MaxArgs
    requires forall k :: i <= k < MaxArgs ==> s[user].args[k] == AVoid
    ensures DestroyArgsFrom(s, user, i) == Some(s)
    decreases MaxArgs - i
  {
    if i < MaxArgs {
      assert ArgValues(AVoid) == [];
      assert s[user].args[i := AVoid] == s[user].args;
      assert s[user := s[user].(args := s[user].args[i := AVoid])] == s;
      DestroyArgsFromVoid(s, user, i + 1);
    }
  }

  /** a is b with some elements left out, the others in their order. */
  predicate IsSubseq(a: seq<nat>, b: seq<nat>)
    decreases |b|
  {
    a == [] || (b != [] && ((a[0] == b[0] && IsSubseq(a[1..], b[1..])) || IsSubseq(a, b[1..])))
  }

  lemma {:induction false} SubseqMember(a: seq<nat>, b: seq<nat>, x: nat)
    requires IsSubseq(a, b) && x in a
    ensures x in b
    decreases |b|
  {
    if a[0] == b[0] && IsSubseq(a[1..], b[1..]) {
      if x != a[0] {
        assert x in a[1..];
        SubseqMember(a[1..], b[1..], x);
      }
    } else {
      SubseqMember(a, b[1..], x);
    }
  }

  /**
   * The walk over the instruction list `list`: the instructions kept, in
   * list order, and the arena after deleting the others.  Whether an
   * instruction has side effects is asked of the arena as the deletions
   * before it have left it.  None where releasing an argument panics.
   */
  function DceFrom(meta: MetaTable, s: seq<Inst>, list: seq<nat>): (r: Option<(seq<nat>, seq<Inst>)>)
    requires Slots(s) && Handles(s, list)
    ensures r.Some? ==> |r.value.1| == |s| && Slots(r.value.1) && IsSubseq(r.value.0, list)
    ensures r.Some? ==> forall x :: 0 <= x < |s| ==> r.value.1[x].op == s[x].op && r.value.1[x].retType == s[x].retType
    decreases |list|
  {
    if list == [] then Some(([], s))
    else
      var h := list[0];
      if HasSideEffects(meta, s[h]) then
        var rest :- DceFrom(meta, s, list[1..]);
        Some(([h] + rest.0, rest.1))
      else
        var s1 :- DestroyArgs(s, h);
        var rest :- DceFrom(meta, s1, list[1..]);
        assert IsSubseq(rest.0, list) by {
          if rest.0 != [] && rest.0[0] == list[0] && IsSubseq(rest.0[1..], list[1..]) {
          }
        }
        Some(rest)
  }

  /** An instruction whose opcode has no result always has side effects, so it is never deleted. */
  lemma {:induction false} DceKeepsVoid(meta: MetaTable, s: seq<Inst>, list: seq<nat>, h: nat)
    requires Slots(s) && Handles(s, list) && DceFrom(meta, s, list).Some?
    requires h in list && meta(s[h].op).returnType == Void
    ensures h in DceFrom(meta, s, list).value.0
    decreases |list|
  {
    if list[0] != h {
      assert h in list[1..];
      if HasSideEffects(meta, s[list[0]]) {
        DceKeepsVoid(meta, s, list[1..], h);
      } else {
        var s1 := DestroyArgs(s, list[0]).value;
        DceKeepsVoid(meta, s1, list[1..], h);
      }
    }
  }

  /**
   * On a list without repeats, a kept instruction keeps its arguments and
   * a deleted one ends with every slot released.
   */
  lemma {:induction false} DceArguments(meta: MetaTable, s: seq<Inst>, list: seq<nat>, h: nat)
    requires Slots(s) && Handles(s, list) && Distinct(list) && DceFrom(meta, s, list).Some? && h in list
    ensures var r := DceFrom(meta, s, list).value;
      if h in r.0 then r.1[h].args == s[h].args else r.1[h].args == [AVoid, AVoid, AVoid, AVoid]
    decreases |list|
  {
    var r := DceFrom(meta, s, list).value;
    var tl := list[1..];
    assert Distinct(tl) by {
      forall a, b | 0 <= a < b < |tl| ensures tl[a] != tl[b] {
        assert tl[a] == list[a + 1] && tl[b] == list[b + 1];
      }
    }
    var h0 := list[0];
    assert h0 !in tl by {
      forall k | 0 <= k < |tl| ensures tl[k] != h0 {
        assert tl[k] == list[k + 1];
      }
    }
    if HasSideEffects(meta, s[h0]) {
      var rest := DceFrom(meta, s, tl).value;
      if h == h0 {
        assert h !in rest.0 by {
          if h in rest.0 {
            SubseqMember(rest.0, tl, h);
          }
        }
        KeptUntouched(meta, s, tl, h);
      } else {
        DceArguments(meta, s, tl, h);
      }
    } else {
      var s1 := DestroyArgs(s, h0).value;
      var rest := DceFrom(meta, s1, tl).value;
      if h == h0 {
        assert h !in rest.0 by {
          if h in rest.0 {
            SubseqMember(rest.0, tl, h);
          }
        }
        KeptUntouched(meta, s1, tl, h);
      } else {
        DceArguments(meta, s1, tl, h);
      }
    }
  }

  /** An instruction outside the list keeps its arguments. */
  lemma {:induction false} KeptUntouched(meta: MetaTable, s: seq<Inst>, list: seq<nat>, h: nat)
    requires Slots(s) && Handles(s, list) && DceFrom(meta, s, list).Some? && h < |s| && h !in list
    ensures DceFrom(meta, s, list).value.1[h].args == s[h].args
    decreases |list|
  {
    if list != [] {
      assert h !in list[1..];
      if HasSideEffects(meta, s[list[0]]) {
        KeptUntouched(meta, s, list[1..], h);
      } else {
        var s1 := DestroyArgs(s, list[0]).value;
        KeptUntouched(meta, s1, list[1..], h);
      }
    }
  }

  // ---------------------------------------------------------------- one pass only

  /** An opcode table in which every opcode has a result. */
  function AllValued(op: OpCode): IRMeta
  {
    IRMeta(ValueTag, [])
  }

  /** x (used once, by y) and y (unused, using x). */
  function UsedOnce(): seq<Inst>
  {
    [Inst(Other(0), [AVoid, AVoid, AVoid, AVoid], 1, 0, U64, NoPseudo),
     Inst(Other(0), [AValue(Value(0, VOID)), AVoid, AVoid, AVoid], 0, 1, U64, NoPseudo)]
  }

  /**
   * The walk does not revisit: x is kept because y uses it, y is then
   * deleted, and x is left without uses and without side effects, so a
   * second walk would delete it.
   */
  lemma DceIsSinglePass()
    ensures DceFrom(AllValued, UsedOnce(), [0, 1]).Some?
    ensures DceFrom(AllValued, UsedOnce(), [0, 1]).value.0 == [0]
    ensures !HasSideEffects(AllValued, DceFrom(AllValued, UsedOnce(), [0, 1]).value.1[0])
  {
    var s := UsedOnce();
    assert HasSideEffects(AllValued, s[0]);
    assert !HasSideEffects(AllValued, s[1]);
    var s1 := UnUseSpec(s, 1, Value(0, VOID)).value;
    assert s1[0].numUse == 0;
    var s2 := s1[1 := s1[1].(args := s1[1].args[0 := AVoid])];
    assert DestroyArgSpec(s, 1, 0) == Some(s2);
    DestroyArgsFromVoid(s2, 1, 1);
    assert DestroyArgs(s, 1) == Some(s2);
    assert DceFrom(AllValued, s2, []) == Some(([], s2));
    assert DceFrom(AllValued, s, [0, 1][1..]) == Some(([], s2));
  }

  // ---------------------------------------------------------------- the pass

  /** `DestroyArgs` on the arena, slot by slot. */
  method DestroyAll(pool: InstPool, user: nat) returns (ok: bool)
    requires user < |pool.insts| && |pool.insts[user].args| == MaxArgs
    modifies pool
    ensures ok <==> DestroyArgs(old(pool.insts), user).Some?
    ensures ok ==> pool.insts == DestroyArgs(old(pool.insts), user).value
  {
    var i := 0;
    while i < MaxArgs
      invariant i <= MaxArgs && user < |pool.insts| && |pool.insts[user].args| == MaxArgs
      invariant DestroyArgsFrom(pool.insts, user, i) == DestroyArgs(old(pool.insts), user)
    {
      ok := pool.DestroyArg(user, i);
      if !ok {
        return;
      }
      i := i + 1;
    }
    return true;
  }

  /** The walk's result with `kept` in front of the instructions it keeps. */
  function Prepend(kept: seq<nat>, o: Option<(seq<nat>, seq<Inst>)>): Option<(seq<nat>, seq<Inst>)>
  {
    match o
    case None => None
    case Some(r) => Some((kept + r.0, r.1))
  }

  lemma PrependNothing(o: Option<(seq<nat>, seq<Inst>)>)
    ensures Prepend([], o) == o
  {
    if o.Some? {
      assert [] + o.value.0 == o.value.0;
    }
  }

  /** Keeping the head of the list. */
  lemma KeepStep(meta: MetaTable, s: seq<Inst>, list: seq<nat>, kept: seq<nat>)
    requires Slots(s) && Handles(s, list) && list != [] && HasSideEffects(meta, s[list[0]])
    ensures Handles(s, list[1..])
    ensures Prepend(kept, DceFrom(meta, s, list)) == Prepend(kept + [list[0]], DceFrom(meta, s, list[1..]))
  {
    var o := DceFrom(meta, s, list[1..]);
    if o.Some? {
      assert kept + ([list[0]] + o.value.0) == (kept + [list[0]]) + o.value.0;
    }
  }

  /** Deleting the head of the list. */
  lemma DropStep(meta: MetaTable, s: seq<Inst>, list: seq<nat>, kept: seq<nat>)
    requires Slots(s) && Handles(s, list) && list != [] && !HasSideEffects(meta, s[list[0]])
    ensures DestroyArgs(s, list[0]).None? ==> DceFrom(meta, s, list).None?
    ensures DestroyArgs(s, list[0]).Some? ==>
      && Slots(DestroyArgs(s, list[0]).value) && Handles(DestroyArgs(s, list[0]).value, list[1..])
      && Prepend(kept, DceFrom(meta, s, list)) == Prepend(kept, DceFrom(meta, DestroyArgs(s, list[0]).value, list[1..]))
  {
    var r := DestroyArgs(s, list[0]);
    if r.Some? {
      var s1 := r.value;
      forall k | 0 <= k < |s1| ensures |s1[k].args| == MaxArgs {
        if k != list[0] {
          assert s1[k].args == s[k].args;
        }
      }
    }
  }

  /** The walk still to do over `rest`, after keeping `kept`, completes the walk `target`. */
  ghost predicate Pending(meta: MetaTable, target: Option<(seq<nat>, seq<Inst>)>, s: seq<Inst>,
                          kept: seq<nat>, rest: seq<nat>)
  {
    Slots(s) && Handles(s, rest) && target == Prepend(kept, DceFrom(meta, s, rest))
  }

  lemma PendingDone(meta: MetaTable, target: Option<(seq<nat>, seq<Inst>)>, s: seq<Inst>, kept: seq<nat>)
    requires Pending(meta, target, s, kept, [])
    ensures target == Some((kept, s))
  {
    assert kept + [] == kept;
  }

  /** Keeping the head `h` of what is left to walk. */
  lemma Keep(meta: MetaTable, target: Option<(seq<nat>, seq<Inst>)>, s: seq<Inst>,
             kept: seq<nat>, rest: seq<nat>, h: nat)
    requires Pending(meta, target, s, kept, rest) && rest != [] && h == rest[0]
    requires HasSideEffects(meta, s[h])
    ensures Pending(meta, target, s, kept + [h], rest[1..])
  {
    KeepStep(meta, s, rest, kept);
  }

  /** Deleting the head `h` of what is left to walk: release its arguments. */
  method Drop(meta: MetaTable, pool: InstPool, h: nat, ghost target: Option<(seq<nat>, seq<Inst>)>,
              ghost kept: seq<nat>, ghost rest: seq<nat>) returns (ok: bool)
    requires Pending(meta, target, pool.insts, kept, rest) && rest != [] && h == rest[0]
    requires !HasSideEffects(meta, pool.insts[h])
    modifies pool
    ensures !ok ==> target.None?
    ensures ok ==> Pending(meta, target, pool.insts, kept, rest[1..])
  {
    DropStep(meta, pool.insts, rest, kept);
    ok := DestroyAll(pool, h);
  }

  /**
   * The loop of `DeadCodeEliminationPass::Run(Block*)` over the list
   * `list`: each instruction without side effects is deleted, the others
   * are kept in order.  ok is false where releasing an argument panics.
   */
  method Sweep(meta: MetaTable, pool: InstPool, list: seq<nat>) returns (ok: bool, kept: seq<nat>)
    requires Slots(pool.insts) && Handles(pool.insts, list)
    modifies pool
    ensures ok <==> DceFrom(meta, old(pool.insts), list).Some?
    ensures ok ==> kept == DceFrom(meta, old(pool.insts), list).value.0
    ensures ok ==> pool.insts == DceFrom(meta, old(pool.insts), list).value.1
  {
    ghost var target := DceFrom(meta, pool.insts, list);
    kept := [];
    PrependNothing(target);
    for i := 0 to |list|
      invariant Pending(meta, target, pool.insts, kept, list[i..])
    {
      var h := list[i];
      assert list[i..][1..] == list[i + 1..];
      if HasSideEffects(meta, pool.insts[h]) {
        Keep(meta, target, pool.insts, kept, list[i..], h);
        kept := kept + [h];
      } else {
        ok := Drop(meta, pool, h, target, kept, list[i..]);
        if !ok {
          return;
        }
      }
    }
    PendingDone(meta, target, pool.insts, kept);
    return true, kept;
  }

  /** `DeadCodeEliminationPass::Run(Block*)`: Sweep over the block's instruction list. */
  method Run(meta: MetaTable, pool: InstPool, block: Block) returns (ok: bool)
    requires Slots(pool.insts) && Handles(pool.insts, block.insts)
    modifies pool, block
    ensures ok <==> DceFrom(meta, old(pool.insts), old(block.insts)).Some?
    ensures ok ==> block.insts == DceFrom(meta, old(pool.insts), old(block.insts)).value.0
    ensures ok ==> pool.insts == DceFrom(meta, old(pool.insts), old(block.insts)).value.1
    ensures block.term == old(block.term)
  {
    var insts;
    ok, insts := Sweep(meta, pool, block.insts);
    if ok {
      block.insts := insts;
    }
  }
}
