/**
 * The arm64 trampolines' decision logic: which static uniforms are saved
 * and restored in pairs, the order of the host callee-saved registers, and
 * the branch form LinkBlock picks for the distance between two blocks.
 * Emission is modelled as the list of steps the code would emit; the
 * encoded bytes are not part of the model.
 */
module Arm64Trampolines {
  import opened Wrappers

  // ---------------------------------------------------------------------
  // Static uniforms

  /** One entry of `buffers_static_alloc`: a uniform kept in a host register. */
  datatype Uniform = Uniform(offset: nat, size: nat, reg: nat, isFloat: bool)

  /** The register view an access uses: Q (16 bytes), D or X (8), W (4). */
  datatype RegView = Q | D | X | W

  datatype Direction = Store | Load

  /** Stp/Ldp of two uniforms, or Str/Ldr of one, at the first uniform's offset in the state. */
  datatype Step =
    | Pair(dir: Direction, view: RegView, first: Uniform, second: Uniform)
    | Single(dir: Direction, view: RegView, only: Uniform)

  const Two32: nat := 0x1_0000_0000

  /** `next.offset - cur.offset` on uint32 operands: it wraps modulo 2^32. */
  function OffsetGap(cur: Uniform, next: Uniform): nat
  {
    (next.offset - cur.offset) % Two32
  }

  /** Entries i and i + 1 share one paired access. */
  predicate Pairs(cur: Uniform, next: Uniform)
  {
    var gap := OffsetGap(cur, next);
    gap == cur.size && gap == next.size && cur.isFloat == next.isFloat
  }

  /** The register view for an access of `size` bytes; nothing (PANIC) for other sizes. */
  function ViewOf(size: nat, isFloat: bool): (r: Option<RegView>)
    ensures r.Some? <==> size in {16, 8, 4}
  {
    if size == 16 then Some(Q)
    else if size == 8 then Some(if isFloat then D else X)
    else if size == 4 then Some(W)
    else None
  }

  /** The uniforms a step transfers, in order. */
  function Covers(s: Step): seq<Uniform>
  {
    match s
    case Pair(_, _, a, b) => [a, b]
    case Single(_, _, a) => [a]
  }

  function CoversAll(steps: seq<Step>): seq<Uniform>
  {
    if steps == [] then [] else Covers(steps[0]) + CoversAll(steps[1..])
  }

  /**
   * The steps the loop emits from entry i on; nothing when it reaches a
   * PANIC.
   */
  function PlanFrom(us: seq<Uniform>, i: nat, dir: Direction): Option<seq<Step>>
    requires i <= |us|
    decreases |us| - i
  {
    if i == |us| then Some([])
    else if i + 1 < |us| && Pairs(us[i], us[i + 1]) then
      match ViewOf(OffsetGap(us[i], us[i + 1]), us[i].isFloat)
      case None => None
      case Some(v) =>
        match PlanFrom(us, i + 2, dir)
        case None => None
        case Some(rest) => Some([Pair(dir, v, us[i], us[i + 1])] + rest)
    else
      match ViewOf(us[i].size, us[i].isFloat)
      case None => None
      case Some(v) =>
        match PlanFrom(us, i + 1, dir)
        case None => None
        case Some(rest) => Some([Single(dir, v, us[i])] + rest)
  }

  /** Every entry from i on is transferred exactly once and in order, by a step of its own size. */
  lemma {:induction false} PlanCoversEachOnce(us: seq<Uniform>, i: nat, dir: Direction)
    requires i <= |us|
    requires PlanFrom(us, i, dir).Some?
    ensures CoversAll(PlanFrom(us, i, dir).value) == us[i..]
    decreases |us| - i
  {
    if i < |us| {
      var steps := PlanFrom(us, i, dir).value;
      assert steps[1..] == PlanFrom(us, if i + 1 < |us| && Pairs(us[i], us[i + 1]) then i + 2 else i + 1, dir).value;
      if i + 1 < |us| && Pairs(us[i], us[i + 1]) {
        PlanCoversEachOnce(us, i + 2, dir);
        assert us[i..] == [us[i], us[i + 1]] + us[i + 2..];
      } else {
        PlanCoversEachOnce(us, i + 1, dir);
        assert us[i..] == [us[i]] + us[i + 1..];
      }
    }
  }

  /** The plan fails exactly when some access has a size other than 16, 8 or 4. */
  lemma {:induction false} PlanFailsOnlyOnBadSize(us: seq<Uniform>, i: nat, dir: Direction)
    requires i <= |us|
    requires forall k :: i <= k < |us| ==> us[k].size in {16, 8, 4}
    ensures PlanFrom(us, i, dir).Some?
    decreases |us| - i
  {
    if i < |us| {
      if i + 1 < |us| && Pairs(us[i], us[i + 1]) {
        PlanFailsOnlyOnBadSize(us, i + 2, dir);
      } else {
        PlanFailsOnlyOnBadSize(us, i + 1, dir);
      }
    }
  }

  /** Forgets the direction of each step. */
  function Shape(s: Step): Step
  {
    match s
    case Pair(_, v, a, b) => Pair(Store, v, a, b)
    case Single(_, v, a) => Single(Store, v, a)
  }

  /** Restore follows the same pairing plan as save, with loads for stores. */
  lemma {:induction false} RestoreMirrorsSave(us: seq<Uniform>, i: nat)
    requires i <= |us|
    ensures PlanFrom(us, i, Store).Some? <==> PlanFrom(us, i, Load).Some?
    ensures PlanFrom(us, i, Store).Some? ==>
              |PlanFrom(us, i, Store).value| == |PlanFrom(us, i, Load).value|
              && forall k :: 0 <= k < |PlanFrom(us, i, Load).value| ==>
                   Shape(PlanFrom(us, i, Load).value[k]) == PlanFrom(us, i, Store).value[k]
    decreases |us| - i
  {
    if i < |us| {
      if i + 1 < |us| && Pairs(us[i], us[i + 1]) {
        RestoreMirrorsSave(us, i + 2);
      } else {
        RestoreMirrorsSave(us, i + 1);
      }
    }
  }

  /** `prefix` followed by the plan `rest`, when there is one. */
  function Glue(prefix: seq<Step>, rest: Option<seq<Step>>): Option<seq<Step>>
  {
    match rest
    case None => None
    case Some(r) => Some(prefix + r)
  }

  /**
   * BuildSaveStaticUniform (Store) and BuildRestoreStaticUniform (Load):
   * walk the entries, pairing neighbours where they allow it.  On a PANIC
   * the steps emitted so far are returned with `panicked` set.
   */
  method BuildStaticUniform(us: seq<Uniform>, dir: Direction) returns (steps: seq<Step>, panicked: bool)
    ensures panicked <==> PlanFrom(us, 0, dir).None?
    ensures !panicked ==> steps == PlanFrom(us, 0, dir).value
  {
    steps := [];
    var i := 0;
    if PlanFrom(us, 0, dir).Some? {
      assert [] + PlanFrom(us, 0, dir).value == PlanFrom(us, 0, dir).value;
    }
    while i < |us|
      invariant i <= |us|
      invariant PlanFrom(us, 0, dir) == Glue(steps, PlanFrom(us, i, dir))
      decreases |us| - i
    {
      var cur := us[i];
      if i + 1 < |us| {
        var next := us[i + 1];
        var gap := (next.offset - cur.offset) % Two32;
        if gap == cur.size && gap == next.size && cur.isFloat == next.isFloat {
          var view := ViewOf(gap, cur.isFloat);
          if view.None? {
            return steps, true;
          }
          GlueAssoc(steps, Pair(dir, view.value, cur, next), PlanFrom(us, i + 2, dir));
          steps := steps + [Pair(dir, view.value, cur, next)];
          i := i + 2;
          continue;
        }
      }
      var view := ViewOf(cur.size, cur.isFloat);
      if view.None? {
        return steps, true;
      }
      GlueAssoc(steps, Single(dir, view.value, cur), PlanFrom(us, i + 1, dir));
      steps := steps + [Single(dir, view.value, cur)];
      i := i + 1;
    }
    assert steps + [] == steps;
    return steps, false;
  }

  lemma GlueAssoc(prefix: seq<Step>, s: Step, rest: Option<seq<Step>>)
    ensures Glue(prefix, match rest case None => None case Some(r) => Some([s] + r))
         == Glue(prefix + [s], rest)
  {
    if rest.Some? {
      assert prefix + ([s] + rest.value) == (prefix + [s]) + rest.value;
    }
  }

  /**
   * Two entries pair only when the second starts right where the first
   * ends (modulo the uint32 wrap) and both have the size of the gap.
   */
  lemma PairsAdjacent(cur: Uniform, next: Uniform)
    requires next.offset < Two32 && cur.offset + cur.size < Two32
    requires Pairs(cur, next)
    ensures next.offset == cur.offset + cur.size && next.size == cur.size
  {
    if next.offset < cur.offset {
      assert false;
    }
  }

  // ---------------------------------------------------------------------
  // Host callee-saved registers

  datatype HostReg = XReg(x: nat) | QReg(q: nat)

  /** One Stp/Ldp of a register pair, moving the stack pointer by `bytes`. */
  datatype CalleePair = CalleePair(first: HostReg, second: HostReg, bytes: nat)

  /** BuildSaveHostCallee: x19..x30 in pairs of 16 bytes, then q8..q15 in pairs of 32, each pushed below the last. */
  const SaveHostCallee: seq<CalleePair> := [
    CalleePair(XReg(19), XReg(20), 16), CalleePair(XReg(21), XReg(22), 16),
    CalleePair(XReg(23), XReg(24), 16), CalleePair(XReg(25), XReg(26), 16),
    CalleePair(XReg(27), XReg(28), 16), CalleePair(XReg(29), XReg(30), 16),
    CalleePair(QReg(8), QReg(9), 32), CalleePair(QReg(10), QReg(11), 32),
    CalleePair(QReg(12), QReg(13), 32), CalleePair(QReg(14), QReg(15), 32)]

  /** BuildRestoreHostCallee: the pairs popped, each moving the stack pointer back up. */
  const RestoreHostCallee: seq<CalleePair> := [
    CalleePair(QReg(14), QReg(15), 32), CalleePair(QReg(12), QReg(13), 32),
    CalleePair(QReg(10), QReg(11), 32), CalleePair(QReg(8), QReg(9), 32),
    CalleePair(XReg(29), XReg(30), 16), CalleePair(XReg(27), XReg(28), 16),
    CalleePair(XReg(25), XReg(26), 16), CalleePair(XReg(23), XReg(24), 16),
    CalleePair(XReg(21), XReg(22), 16), CalleePair(XReg(19), XReg(20), 16)]

  function StackBytes(pairs: seq<CalleePair>): nat
  {
    if pairs == [] then 0 else pairs[0].bytes + StackBytes(pairs[1..])
  }

  /** Restore pops exactly the pushed pairs in reverse order. */
  lemma RestoreReversesSave()
    ensures |RestoreHostCallee| == |SaveHostCallee|
    ensures forall k :: 0 <= k < |SaveHostCallee| ==>
              RestoreHostCallee[k] == SaveHostCallee[|SaveHostCallee| - 1 - k]
  {
  }

  /** Both move the stack pointer by the same 224 bytes, so it comes back to where it was. */
  lemma CalleeStackBalanced()
    ensures StackBytes(SaveHostCallee) == StackBytes(RestoreHostCallee) == 224
  {
  }

  // ---------------------------------------------------------------------
  // Block linking

  const Page: nat := 0x1000
  const BranchReach: nat := 0x800_0000
  const PageReach: nat := 0x1_0000_0000

  /** The code LinkBlock writes at the source block. */
  datatype LinkCode =
    | AbsoluteJump(target: nat)
    | PageJump(offset: int, pageOffset: nat)
    | DirectBranch(offset: int)

  function Abs(x: int): nat
  {
    if x < 0 then -x else x
  }

  /**
   * LinkBlock(source, target, pic): the jump from source to target, chosen
   * by distance; nothing (returns false, writes nothing) when the target is
   * 4GB or more away and the code must be position independent.
   */
  function LinkBlock(source: nat, target: nat, pic: bool): (r: Option<LinkCode>)
  {
    var offset := target - source;
    if Abs(offset) >= PageReach then
      if pic then None else Some(AbsoluteJump(target))
    else if Abs(offset) >= BranchReach then
      Some(PageJump(offset, target % Page))
    else
      Some(DirectBranch(offset))
  }

  /** The page of an address: what ADRP loads for a label at that address. */
  function PageOf(addr: nat): nat
  {
    addr - addr % Page
  }

  /** Where the emitted code jumps to, when run at `source`. */
  function JumpTarget(source: nat, code: LinkCode): int
  {
    match code
    case AbsoluteJump(t) => t
    case PageJump(offset, pageOffset) =>
      var labelAt := source + offset;
      if labelAt < 0 then labelAt else PageOf(labelAt) + pageOffset
    case DirectBranch(offset) => source + offset
  }

  /**
   * LinkBlock fails exactly for far position-independent links; otherwise
   * the code it picks reaches the target, and the single B is used only
   * within the +-128MB branch range and ADRP only within +-4GB.
   */
  lemma LinkBlockReachesTarget(source: nat, target: nat, pic: bool)
    ensures LinkBlock(source, target, pic).None? <==> pic && Abs(target - source) >= PageReach
    ensures LinkBlock(source, target, pic).Some? ==>
              JumpTarget(source, LinkBlock(source, target, pic).value) == target
    ensures LinkBlock(source, target, pic).Some? && LinkBlock(source, target, pic).value.DirectBranch? ==>
              Abs(target - source) < BranchReach
    ensures LinkBlock(source, target, pic).Some? && LinkBlock(source, target, pic).value.PageJump? ==>
              BranchReach <= Abs(target - source) < PageReach
  {
  }
}
