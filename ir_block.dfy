/**
 * IR blocks (`Block`): a start and an end location, the list of the
 * block's instructions and its terminal.  Instructions live in the arena
 * of module IrInst; the list holds their indices (the intrusive list of
 * the original links the instruction objects themselves).
 */
module IrBlock {
  import opened Wrappers
  import opened IrArgs
  import opened IrLocation
  import opened IrInst

  /** Instruction ids are u16. */
  const IdLimit: nat := 0x1_0000

  /** How a block ends. */
  datatype Terminal =
    | Invalid
    | ReturnToDispatch
    | LinkBlock(next: Location)
    | LinkBlockFast(next: Location)
    | PopRSBHint
    | If(cond: Value, thenT: Terminal, elseT: Terminal)
    | Switch(value: Value, cases: seq<Case>)
    | CheckHalt(elseT: Terminal)

  datatype Case = Case(caseValue: Imm, next: Terminal)

  // ---------------------------------------------------------------- terminals

  /**
   * `HasTerminal` as written: `!block_term.empty()`, and a boost::variant
   * is never empty, so every block has a terminal, also a fresh one whose
   * terminal is the default Invalid.
   */
  function HasTerminalAsWritten(t: Terminal): bool
  {
    true
  }

  /** `HasTerminal` as intended: the block was given a terminal other than Invalid. */
  function HasTerminal(t: Terminal): (r: bool)
  {
    !t.Invalid?
  }

  /** A fresh block has no terminal, yet the as-written query says it has. */
  lemma HasTerminalAsWrittenOnFreshBlock()
    ensures HasTerminalAsWritten(Invalid) && !HasTerminal(Invalid)
  {
  }

  // ---------------------------------------------------------------- ordering

  /**
   * `Block::Compare` on the start locations of two blocks: 1 when the
   * right one starts later, -1 when earlier, 0 on the same location.
   */
  function Compare(lhs: Location, rhs: Location): (r: int)
    ensures r == 1 <==> Less(lhs, rhs)
    ensures r == -1 <==> Less(rhs, lhs)
    ensures r == 0 <==> Equal(lhs, rhs)
  {
    if Greater(rhs, lhs) then 1 else if Less(rhs, lhs) then -1 else 0
  }

  /** Compare is antisymmetric and agrees with the block operators <, > and ==. */
  lemma CompareAntisymmetric(a: Location, b: Location)
    ensures Compare(a, b) == -Compare(b, a)
    ensures Compare(a, b) == 0 <==> a == b
  {
  }

  // ---------------------------------------------------------------- re-numbering

  /** Instruction `i` with id `id`. */
  function WithId(i: Inst, id: nat): Inst
  {
    i.(id := id)
  }

  ghost predicate Handles(s: seq<Inst>, list: seq<nat>)
  {
    forall k :: 0 <= k < |list| ==> list[k] < |s|
  }

  /** `ReIdInstr`: the instructions of `list` get ids 0, 1, 2, ... (u16) in list order. */
  function ReId(s: seq<Inst>, list: seq<nat>): (r: seq<Inst>)
    requires Handles(s, list)
    ensures |r| == |s|
  {
    if list == [] then s
    else
      var r0 := ReId(s, list[..|list| - 1]);
      var h := list[|list| - 1];
      r0[h := WithId(r0[h], (|list| - 1) % IdLimit)]
  }

  /** One more instruction of the list: one more id written, the next in the u16 count. */
  lemma ReIdStep(s: seq<Inst>, list: seq<nat>, i: nat)
    requires Handles(s, list) && i < |list|
    ensures Handles(s, list[..i]) && Handles(s, list[..i + 1]) && list[i] < |s|
    ensures ReId(s, list[..i + 1]) == ReId(s, list[..i])[list[i] := WithId(ReId(s, list[..i])[list[i]], i % IdLimit)]
  {
    assert list[..i + 1][..i] == list[..i];
    assert forall k :: 0 <= k < i + 1 ==> list[..i + 1][k] == list[k];
  }

  /** The u16 counter wraps like the count it follows. */
  lemma IdSucc(n: nat)
    ensures (n % IdLimit + 1) % IdLimit == (n + 1) % IdLimit
  {
  }

  /** Re-numbering changes ids only, and nothing outside the list. */
  lemma {:induction false} ReIdOnlyIds(s: seq<Inst>, list: seq<nat>, x: nat)
    requires Handles(s, list) && x < |s|
    ensures ReId(s, list)[x] == WithId(s[x], ReId(s, list)[x].id)
    ensures x !in list ==> ReId(s, list)[x] == s[x]
    decreases |list|
  {
    if list != [] {
      var init := list[..|list| - 1];
      ReIdOnlyIds(s, init, x);
      if x !in list {
        assert x !in init;
      }
    }
  }

  /** After re-numbering, the k-th instruction of a duplicate-free list has id k (u16). */
  lemma {:induction false} ReIdPositions(s: seq<Inst>, list: seq<nat>, k: nat)
    requires Handles(s, list) && Distinct(list) && k < |list|
    ensures ReId(s, list)[list[k]].id == k % IdLimit
    decreases |list|
  {
    if k < |list| - 1 {
      var init := list[..|list| - 1];
      assert init[k] == list[k];
      assert Distinct(init) by {
        forall a, b | 0 <= a < b < |init| ensures init[a] != init[b] {
          assert init[a] == list[a] && init[b] == list[b];
        }
      }
      assert list[k] != list[|list| - 1];
      ReIdPositions(s, init, k);
    }
  }

  /** The arena after `SetTerminal`: re-numbered when the first instruction has the invalid id. */
  function AfterSetTerminal(s: seq<Inst>, list: seq<nat>, invalidId: nat): (r: seq<Inst>)
    requires Handles(s, list)
    ensures |r| == |s|
  {
    if |list| > 0 && s[list[0]].id == invalidId then ReId(s, list) else s
  }

  /** A block whose first instruction had the invalid id is numbered 0, 1, 2, ... afterwards. */
  lemma AfterSetTerminalNumbers(s: seq<Inst>, list: seq<nat>, invalidId: nat, k: nat)
    requires Handles(s, list) && Distinct(list) && k < |list| && s[list[0]].id == invalidId
    ensures AfterSetTerminal(s, list, invalidId)[list[k]].id == k % IdLimit
  {
    ReIdPositions(s, list, k);
  }

  // ---------------------------------------------------------------- removal

  /** The first position of `h` in `list`. */
  function IndexOf(list: seq<nat>, h: nat): (i: nat)
    requires h in list
    ensures i < |list| && list[i] == h && h !in list[..i]
  {
    if list[0] == h then 0
    else
      var j := IndexOf(list[1..], h);
      assert list[..j + 1] == [list[0]] + list[1..][..j];
      j + 1
  }

  /** `inst_list.erase(*inst)`: the list without that one instruction. */
  function RemoveFirst(list: seq<nat>, h: nat): (r: seq<nat>)
    requires h in list
    ensures |r| == |list| - 1
  {
    var i := IndexOf(list, h);
    list[..i] + list[i + 1..]
  }

  /** On a duplicate-free list, removal drops exactly `h` and keeps the list duplicate-free. */
  lemma RemoveFirstMembers(list: seq<nat>, h: nat, x: nat)
    requires Distinct(list) && h in list
    ensures x in RemoveFirst(list, h) <==> x in list && x != h
    ensures Distinct(RemoveFirst(list, h))
  {
    var i := IndexOf(list, h);
    var r := RemoveFirst(list, h);
    if x in r {
      var k :| 0 <= k < |r| && r[k] == x;
      if k < i { assert r[k] == list[k]; } else { assert r[k] == list[k + 1]; }
    }
    if x in list && x != h {
      var k :| 0 <= k < |list| && list[k] == x;
      if k < i { assert r[k] == x; } else { assert k > i && r[k - 1] == x; }
    }
    forall a, b | 0 <= a < b < |r| ensures r[a] != r[b] {
      var a', b' := if a < i then a else a + 1, if b < i then b else b + 1;
      assert r[a] == list[a'] && r[b] == list[b'];
    }
  }

  /** Removal keeps the relative order of the other instructions. */
  lemma RemoveFirstOrder(list: seq<nat>, h: nat)
    requires h in list
    ensures exists i :: 0 <= i < |list| && list[i] == h && RemoveFirst(list, h) == list[..i] + list[i + 1..]
  {
    var i := IndexOf(list, h);
    assert list[i] == h;
  }

  // ---------------------------------------------------------------- the block object

  class Block {
    var id: nat
    var location: Location
    var endLoc: Location
    var insts: seq<nat>
    var term: Terminal

    /** `Block(id, location)`: no instructions, the default Invalid terminal. */
    constructor(id0: nat, start: Location)
      ensures id == id0 && location == start && endLoc == DefaultLocation
      ensures insts == [] && term == Invalid
    {
      id := id0;
      location := start;
      endLoc := DefaultLocation;
      insts := [];
      term := Invalid;
    }

    method SetEndLocation(e: Location)
      modifies this
      ensures endLoc == e && id == old(id) && location == old(location)
      ensures insts == old(insts) && term == old(term)
    {
      endLoc := e;
    }

    /** `ReIdInstr`: ids 0, 1, 2, ... in list order, through a u16 counter. */
    method ReIdInstr(pool: InstPool)
      requires Handles(pool.insts, insts)
      modifies pool
      ensures pool.insts == ReId(old(pool.insts), insts)
    {
      var index := 0;
      var i := 0;
      while i < |insts|
        invariant i <= |insts| && index == i % IdLimit
        invariant Handles(old(pool.insts), insts[..i])
        invariant pool.insts == ReId(old(pool.insts), insts[..i])
      {
        ReIdStep(old(pool.insts), insts, i);
        IdSucc(i);
        var h := insts[i];
        pool.insts := pool.insts[h := WithId(pool.insts[h], index)];
        index := (index + 1) % IdLimit;
        i := i + 1;
      }
      assert insts[..i] == insts;
    }

    /**
     * `SetTerminal`: store the terminal, and re-number the instructions
     * when the first of them still has the invalid id (AfterSetTerminal).
     */
    method SetTerminal(pool: InstPool, t: Terminal, invalidId: nat)
      requires Handles(pool.insts, insts)
      modifies this, pool
      ensures term == t && insts == old(insts) && location == old(location) && endLoc == old(endLoc)
      ensures pool.insts == AfterSetTerminal(old(pool.insts), insts, invalidId)
    {
      term := t;
      if |insts| > 0 && pool.insts[insts[0]].id == invalidId {
        ReIdInstr(pool);
      }
    }

    /** `AppendInst(inst)`: validate, then append at the end of the list. */
    method AppendInst(meta: MetaTable, pool: InstPool, h: nat) returns (ok: bool)
      requires h < |pool.insts| && |pool.insts[h].args| == MaxArgs
      modifies this
      ensures ok == Validate(meta, pool.insts[h])
      ensures insts == if ok then old(insts) + [h] else old(insts)
      ensures term == old(term) && location == old(location) && endLoc == old(endLoc)
    {
      ok := Validate(meta, pool.insts[h]);
      if ok {
        insts := insts + [h];
      }
    }

    /**
     * The `AppendInst(op, args...)` template: a new instruction built by
     * SetArgs, then appended.  Returns its arena index, or -1 when SetArgs
     * or Validate fails.
     */
    method AppendNew(meta: MetaTable, pool: InstPool, op: OpCode, xs: seq<ArgInput>) returns (h: int)
      modifies this, pool
      ensures Create(meta, old(pool.insts), op, xs).None? ==> h == -1 && insts == old(insts)
      ensures Create(meta, old(pool.insts), op, xs).Some? ==> pool.insts == Create(meta, old(pool.insts), op, xs).value
      ensures h >= 0 ==> h == |old(pool.insts)| && insts == old(insts) + [h]
      ensures Create(meta, old(pool.insts), op, xs).Some? && Validate(meta, pool.insts[|old(pool.insts)|]) ==> h >= 0
    {
      var r := Create(meta, pool.insts, op, xs);
      if r.None? {
        return -1;
      }
      var n := |pool.insts|;
      pool.insts := r.value;
      var ok := AppendInst(meta, pool, n);
      h := if ok then n else -1;
    }

    /** `RemoveInst`: unlink the instruction from the list. */
    method RemoveInst(h: nat)
      requires h in insts
      modifies this
      ensures insts == RemoveFirst(old(insts), h) && term == old(term)
    {
      insts := RemoveFirst(insts, h);
    }

    /** `DestroyInst`: unlink and free it; freeing is not modelled. */
    method DestroyInst(h: nat)
      requires h in insts
      modifies this
      ensures insts == RemoveFirst(old(insts), h) && term == old(term)
    {
      insts := RemoveFirst(insts, h);
    }

    /** `DestroyInstrs`: erase the list front to back. */
    method DestroyInstrs()
      modifies this
      ensures insts == [] && term == old(term)
    {
      while insts != []
        invariant term == old(term)
        decreases |insts|
      {
        insts := insts[1..];
      }
    }
  }
}
