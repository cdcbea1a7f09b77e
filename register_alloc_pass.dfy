/**
 * `RegisterAllocPass`: the two allocators of the register-allocation pass
 * as classes whose methods update their state in place, each proved
 * against the specification functions of module LinearScan (allocation
 * loop) and module LiveIntervals (interval collection).
 */
module RegisterAllocPass {
  import opened Wrappers
  import opened RegAllocResult
  import opened LinearScan
  import opened IrArgs
  import opened IrInst
  import opened HirBuilder
  import opened LiveIntervals

  /**
   * `LinearScanAllocator`: the allocation result it fills, the collected
   * intervals, `active_lives`, the two register masks, the spill-slot
   * vector and its cursor.  `fixed` selects the corrected spill rule and
   * `SetActiveRegs` argument order; false keeps the code as written.
   */
  class LinearScanAllocator {
    const regAlloc: RegAlloc
    const fixed: bool
    var liveInterval: seq<LiveInterval>
    var activeLives: seq<LiveInterval>
    var activeGprs: seq<bool>
    var activeFprs: seq<bool>
    var spillSlots: seq<bool>
    var spillSlotCursor: nat

    /** The allocation loop's view of this object. */
    ghost function State(): AllocState
      reads this, regAlloc
    {
      AllocState(regAlloc.allocResult, Resources(activeGprs, activeFprs, spillSlots), activeLives, spillSlotCursor)
    }

    /** The masks start as the backend's offer; no interval, no spill slot. */
    constructor(alloc: RegAlloc, fixed: bool)
      ensures regAlloc == alloc && this.fixed == fixed
      ensures activeGprs == alloc.gprs && activeFprs == alloc.fprs
      ensures liveInterval == [] && activeLives == [] && spillSlots == [] && spillSlotCursor == 0
    {
      regAlloc := alloc;
      this.fixed := fixed;
      activeGprs, activeFprs := alloc.gprs, alloc.fprs;
      liveInterval, activeLives := [], [];
      spillSlots, spillSlotCursor := [], 0;
    }

    /** `AllocGPR`: the lowest free GPR, now taken, or -1 with the mask unchanged. */
    method AllocGpr() returns (alloc: int)
      modifies this
      ensures alloc == FirstClear(old(activeGprs))
      ensures activeGprs == if alloc >= 0 then old(activeGprs)[alloc := true] else old(activeGprs)
      ensures activeFprs == old(activeFprs) && spillSlots == old(spillSlots) && spillSlotCursor == old(spillSlotCursor)
      ensures activeLives == old(activeLives) && liveInterval == old(liveInterval)
    {
      alloc := FirstClear(activeGprs);
      if alloc >= 0 {
        activeGprs := activeGprs[alloc := true];
      }
    }

    /** `AllocFPR`: the lowest free FPR, now taken, or -1 with the mask unchanged. */
    method AllocFpr() returns (alloc: int)
      modifies this
      ensures alloc == FirstClear(old(activeFprs))
      ensures activeFprs == if alloc >= 0 then old(activeFprs)[alloc := true] else old(activeFprs)
      ensures activeGprs == old(activeGprs) && spillSlots == old(spillSlots) && spillSlotCursor == old(spillSlotCursor)
      ensures activeLives == old(activeLives) && liveInterval == old(liveInterval)
    {
      alloc := FirstClear(activeFprs);
      if alloc >= 0 {
        activeFprs := activeFprs[alloc := true];
      }
    }

    /** `FreeGPR`: the ASSERT that the register is taken gives `ok`; then it is cleared. */
    method FreeGpr(id: nat) returns (ok: bool)
      modifies this
      ensures ok <==> Free(old(activeGprs), id).Some?
      ensures ok ==> activeGprs == Free(old(activeGprs), id).value
      ensures activeFprs == old(activeFprs) && spillSlots == old(spillSlots) && spillSlotCursor == old(spillSlotCursor)
      ensures activeLives == old(activeLives) && liveInterval == old(liveInterval)
    {
      ok := id < |activeGprs| && activeGprs[id];
      if ok {
        activeGprs := activeGprs[id := false];
      }
    }

    /** `FreeFPR`: as `FreeGPR`, on the FPR mask. */
    method FreeFpr(id: nat) returns (ok: bool)
      modifies this
      ensures ok <==> Free(old(activeFprs), id).Some?
      ensures ok ==> activeFprs == Free(old(activeFprs), id).value
      ensures activeGprs == old(activeGprs) && spillSlots == old(spillSlots) && spillSlotCursor == old(spillSlotCursor)
      ensures activeLives == old(activeLives) && liveInterval == old(liveInterval)
    {
      ok := id < |activeFprs| && activeFprs[id];
      if ok {
        activeFprs := activeFprs[id := false];
      }
    }

    /** `FreeSpill`: as `FreeGPR`, on the spill-slot vector. */
    method FreeSpill(slot: nat) returns (ok: bool)
      modifies this
      ensures ok <==> Free(old(spillSlots), slot).Some?
      ensures ok ==> spillSlots == Free(old(spillSlots), slot).value
      ensures activeGprs == old(activeGprs) && activeFprs == old(activeFprs) && spillSlotCursor == old(spillSlotCursor)
      ensures activeLives == old(activeLives) && liveInterval == old(liveInterval)
    {
      ok := slot < |spillSlots| && spillSlots[slot];
      if ok {
        spillSlots := spillSlots[slot := false];
      }
    }

    /** Releasing one expired interval (the body of the erase branch of `ExpireOldIntervals`). */
    method ReleaseInterval(a: LiveInterval) returns (ok: bool)
      requires a.inst < |regAlloc.allocResult|
      modifies this
      ensures var r := Release(old(State()).res, regAlloc.allocResult, a);
        (ok <==> r.Some?) && (ok ==> State().res == r.value)
      ensures activeLives == old(activeLives) && liveInterval == old(liveInterval) && spillSlotCursor == old(spillSlotCursor)
    {
      var kind := regAlloc.ValueType(a.inst);
      if kind == Gpr {
        var reg := regAlloc.ValueGpr(a.inst);
        ok := FreeGpr(reg.value);
      } else if kind == Fpr {
        var reg := regAlloc.ValueFpr(a.inst);
        ok := FreeFpr(reg.value);
      } else {
        var slot := regAlloc.ValueMem(a.inst);
        if slot.None? {
          return false;
        }
        ok := FreeSpill(slot.value);
        if ok && a.vector {
          ok := FreeSpill(slot.value + 1);
        }
      }
    }

    /**
     * After the first `k` intervals of `all` have been visited: the list
     * holds the survivors among them followed by the unvisited rest, and
     * the resources are those `Expire` leaves for the visited prefix.
     */
    ghost predicate ExpiredTo(entries: seq<Entry>, res0: Resources, all: seq<LiveInterval>, k: nat, start: nat)
      reads this, regAlloc
    {
      && k <= |all| && Known(entries, all) && regAlloc.allocResult == entries
      && (forall a :: a in all[..k] ==> a in all)
      && Expire(res0, entries, all[..k], start).Some?
      && var ex := Expire(res0, entries, all[..k], start).value;
      activeLives == ex.lives + all[k..] && State().res == ex.res
    }

    /** One visit of the loop of `ExpireOldIntervals`, at position `i` of the list. */
    method ExpireNext(start: nat, i: nat, ghost entries: seq<Entry>, ghost res0: Resources, ghost all: seq<LiveInterval>, ghost k: nat)
      returns (ok: bool, next: nat)
      requires ExpiredTo(entries, res0, all, k, start) && k < |all|
      requires i == |Expire(res0, entries, all[..k], start).value.lives|
      modifies this
      ensures ok ==> ExpiredTo(entries, res0, all, k + 1, start) && next == |Expire(res0, entries, all[..k + 1], start).value.lives|
      ensures !ok ==> Expire(res0, entries, all[..k + 1], start).None?
      ensures liveInterval == old(liveInterval) && spillSlotCursor == old(spillSlotCursor)
    {
      Visiting(entries, res0, all, k, start);
      if activeLives[i].end < start {
        ok := DropAt(start, i, entries, res0, all, k);
        next := i;
      } else {
        KeepAt(entries, res0, all, k, start);
        ok, next := true, i + 1;
      }
    }

    /** At a visit, the list is the survivors, the visited interval, and the rest. */
    lemma Visiting(entries: seq<Entry>, res0: Resources, all: seq<LiveInterval>, k: nat, start: nat)
      requires ExpiredTo(entries, res0, all, k, start) && k < |all|
      ensures var ex := Expire(res0, entries, all[..k], start).value;
        activeLives == ex.lives + [all[k]] + all[k + 1..] && activeLives[|ex.lives|] == all[k]
    {
      assert all[k..] == [all[k]] + all[k + 1..];
    }

    /** A visited interval that is still live stays in the list. */
    lemma KeepAt(entries: seq<Entry>, res0: Resources, all: seq<LiveInterval>, k: nat, start: nat)
      requires ExpiredTo(entries, res0, all, k, start) && k < |all| && all[k].end >= start
      ensures ExpiredTo(entries, res0, all, k + 1, start)
      ensures |Expire(res0, entries, all[..k + 1], start).value.lives| == |Expire(res0, entries, all[..k], start).value.lives| + 1
    {
      TakeStep(all, k);
      Visiting(entries, res0, all, k, start);
      ExpireSnocKeep(res0, entries, all[..k], all[k], start);
    }

    /** A visited interval that has ended is released and erased. */
    method DropAt(start: nat, i: nat, ghost entries: seq<Entry>, ghost res0: Resources, ghost all: seq<LiveInterval>, ghost k: nat)
      returns (ok: bool)
      requires ExpiredTo(entries, res0, all, k, start) && k < |all| && all[k].end < start
      requires i == |Expire(res0, entries, all[..k], start).value.lives|
      modifies this
      ensures ok ==> ExpiredTo(entries, res0, all, k + 1, start) && i == |Expire(res0, entries, all[..k + 1], start).value.lives|
      ensures !ok ==> Expire(res0, entries, all[..k + 1], start).None?
      ensures liveInterval == old(liveInterval) && spillSlotCursor == old(spillSlotCursor)
    {
      TakeStep(all, k);
      Visiting(entries, res0, all, k, start);
      ExpireSnocDrop(res0, entries, all[..k], all[k], start);
      ghost var ex := Expire(res0, entries, all[..k], start).value;
      ok := ReleaseInterval(activeLives[i]);
      if !ok {
        return;
      }
      activeLives := activeLives[..i] + activeLives[i + 1..];
      assert activeLives == ex.lives + all[k + 1..];
    }

    /**
     * `ExpireOldIntervals(current)`: walk `active_lives` front to back,
     * releasing and erasing every interval that ended before `start`; a
     * failed ASSERT gives `ok == false`.
     */
    method ExpireOldIntervals(start: nat) returns (ok: bool)
      requires Known(regAlloc.allocResult, activeLives)
      modifies this
      ensures var r := Expire(old(State()).res, regAlloc.allocResult, old(activeLives), start);
        (ok <==> r.Some?) && (ok ==> activeLives == r.value.lives && State().res == r.value.res)
      ensures liveInterval == old(liveInterval) && spillSlotCursor == old(spillSlotCursor)
    {
      ghost var entries := regAlloc.allocResult;
      ghost var all := activeLives;
      ghost var res0 := State().res;
      ghost var k := 0;
      assert all[..0] == [] && all[0..] == all;
      var i := 0;
      while i < |activeLives|
        invariant ExpiredTo(entries, res0, all, k, start)
        invariant i == |Expire(res0, entries, all[..k], start).value.lives|
        invariant liveInterval == old(liveInterval) && spillSlotCursor == old(spillSlotCursor)
        decreases |all| - k
      {
        ok, i := ExpireNext(start, i, entries, res0, all, k);
        if !ok {
          ExpireNoneExtends(res0, entries, all, k + 1, start);
          return;
        }
        k := k + 1;
      }
      assert k == |all| && all[..k] == all && all[k..] == [];
      assert activeLives == Expire(res0, entries, all, start).value.lives + [];
      ok := true;
    }

    /** `GrowSpillStack(n)`: the cursor moves to the old size and the vector gains `n` clear slots. */
    method GrowSpillStack(n: nat)
      modifies this
      ensures spillSlotCursor == |old(spillSlots)| && spillSlots == Grow(old(spillSlots), n)
      ensures activeGprs == old(activeGprs) && activeFprs == old(activeFprs)
      ensures activeLives == old(activeLives) && liveInterval == old(liveInterval)
    {
      spillSlotCursor := |spillSlots|;
      spillSlots := Grow(spillSlots, n);
    }

    /**
     * `SpillAtInterval`: the interval gets a spill slot (two for a
     * vector) by the rule of `SpillAt`, recorded with `MapMemSpill`.
     */
    method SpillAtInterval(iv: LiveInterval)
      requires iv.inst < |regAlloc.allocResult| && spillSlotCursor <= |spillSlots|
      modifies this, regAlloc
      ensures var sp := SpillAt(fixed, old(spillSlots), old(spillSlotCursor), iv.vector);
        && spillSlots == sp.slots && spillSlotCursor == sp.cursor
        && regAlloc.allocResult == Place(old(regAlloc.allocResult), iv.inst, Mem, sp.slot)
      ensures activeGprs == old(activeGprs) && activeFprs == old(activeFprs)
      ensures activeLives == old(activeLives) && liveInterval == old(liveInterval)
    {
      if iv.vector {
        var slot := FindFreePair(spillSlots);
        if slot < 0 {
          slot := |spillSlots|;
          GrowSpillStack(2);
        }
        regAlloc.MapMemSpill(iv.inst, slot);
        spillSlots := MarkPair(fixed, spillSlots, slot);
      } else {
        var free := FirstClear(spillSlots);
        if free >= 0 {
          regAlloc.MapMemSpill(iv.inst, free);
          spillSlots := spillSlots[free := true];
        } else {
          var slot := if fixed then |spillSlots| else spillSlotCursor;
          regAlloc.MapMemSpill(iv.inst, slot);
          GrowSpillStack(1);
          spillSlots := spillSlots[slot := true];
        }
      }
    }

    /**
     * One pass of the loop of `AllocateRegisters`: expire, take a
     * register of the interval's class or spill, record the live masks.
     */
    method AllocateOne(iv: LiveInterval) returns (ok: bool)
      requires Fits(State()) && iv.inst < |regAlloc.allocResult|
      modifies this, regAlloc
      ensures var r := Step(fixed, old(State()), iv); (ok <==> r.Some?) && (ok ==> State() == r.value)
      ensures liveInterval == old(liveInterval)
    {
      ok := ExpireOldIntervals(iv.start);
      if !ok {
        return;
      }
      if !iv.vector {
        var alloc := AllocGpr();
        if alloc >= 0 {
          activeLives := activeLives + [iv];
          regAlloc.MapGpr(iv.inst, alloc);
        } else {
          SpillAtInterval(iv);
        }
      } else {
        var alloc := AllocFpr();
        if alloc >= 0 {
          activeLives := activeLives + [iv];
          regAlloc.MapFpr(iv.inst, alloc);
        } else {
          SpillAtInterval(iv);
        }
      }
      if fixed {
        regAlloc.SetActiveRegs(iv.inst, activeGprs, activeFprs);
      } else {
        regAlloc.SetActiveRegs(iv.inst, activeFprs, activeGprs);
      }
    }

    /**
     * Steps 2 and 3 of `AllocateRegisters`: sort the collected intervals
     * and run the loop; the final state is `Run` over the sorted list.
     */
    method AllocateSorted() returns (ok: bool)
      requires Fits(State()) && Known(regAlloc.allocResult, liveInterval)
      modifies this, regAlloc
      ensures liveInterval == SortIntervals(old(liveInterval))
      ensures var r := Run(fixed, old(State()), liveInterval); (ok <==> r.Some?) && (ok ==> State() == r.value)
    {
      ghost var st0 := State();
      liveInterval := SortIntervals(liveInterval);
      var i := 0;
      while i < |liveInterval|
        invariant 0 <= i <= |liveInterval| && liveInterval == SortIntervals(old(liveInterval))
        invariant Known(st0.entries, liveInterval) && |regAlloc.allocResult| == |st0.entries|
        invariant Run(fixed, st0, liveInterval[..i]) == Some(State())
        invariant Fits(State())
      {
        TakeStep(liveInterval, i);
        assert liveInterval[i] in liveInterval;
        ok := AllocateOne(liveInterval[i]);
        if !ok {
          RunStopsAt(fixed, st0, liveInterval, i);
          return;
        }
        i := i + 1;
      }
      assert liveInterval[..i] == liveInterval;
      ok := true;
    }

    /** `MapRegister(id, HostFPR{reg})` or `MapRegister(id, HostGPR{reg})`. */
    method MapHost(id: nat, isFloat: bool, reg: nat)
      requires id < |regAlloc.allocResult|
      modifies regAlloc
      ensures regAlloc.allocResult == Pin(old(regAlloc.allocResult), id, isFloat, reg)
    {
      if isFloat {
        regAlloc.MapFpr(id, reg);
      } else {
        regAlloc.MapGpr(id, reg);
      }
    }

    /**
     * One pass of the first loop of `CollectLiveIntervals(Block*)` over
     * instruction `h`; `ok` is false when the `SetHostReg` ASSERT fails.
     */
    method ScanInst(s: seq<Inst>, h: nat, useEnd: seq<nat>, setUses: map<nat, nat>)
      returns (ok: bool, useEnd': seq<nat>, setUses': map<nat, nat>)
      requires Ready(s, h, |useEnd|, |regAlloc.allocResult|)
      modifies regAlloc
      ensures var r := ScanOne(s, Scan(old(regAlloc.allocResult), useEnd, setUses), h);
        (ok <==> r.Some?) && (ok ==> Scan(regAlloc.allocResult, useEnd', setUses') == r.value)
      ensures |regAlloc.allocResult| == old(|regAlloc.allocResult|) && |useEnd'| == |useEnd|
    {
      var i := s[h];
      ok, useEnd', setUses' := true, useEnd, setUses;
      if IsGetHostRegOperation(i) {
        MapHost(i.id, i.op == GetHostFPR, HostIndex(i.args[0].imm));
      } else if IsBitCastOperation(i) {
        regAlloc.MapReference(IdOf(s, i.args[0].value), i.id);
      } else if IsSetHostRegOperation(i) {
        var value := i.args[0].value;
        var host := HostIndex(i.args[1].imm);
        var isFloat := i.op == SetHostFPR;
        var useCount := s[value.def].numUse;
        var x := IdOf(s, value);
        if useCount == 0 {
          ok := false;
        } else if useCount == 1 {
          MapHost(x, isFloat, host);
        } else if x in setUses {
          var uses := Dec8(setUses[x]);
          if uses == 0 {
            MapHost(x, isFloat, host);
          } else {
            setUses' := setUses[x := uses];
          }
        } else {
          setUses' := setUses[x := Dec8(useCount)];
        }
      } else {
        useEnd' := CreditValues(s, useEnd, ArgsValues(i.args), i.id, true);
      }
    }

    /** Instruction `i` of the first loop: the scan of the next prefix, or the whole scan fails. */
    method ScanNext(s: seq<Inst>, list: seq<nat>, i: nat, useEnd: seq<nat>, setUses: map<nat, nat>, ghost sc0: Scan)
      returns (ok: bool, useEnd': seq<nat>, setUses': map<nat, nat>)
      requires i < |list| && |sc0.useEnd| == |list| && |useEnd| == |list|
      requires BlockReady(s, list, |list|, |sc0.entries|) && |regAlloc.allocResult| == |sc0.entries|
      requires BlockReady(s, list[..i], |list|, |sc0.entries|)
      requires ScanBlock(s, list[..i], sc0) == Some(Scan(regAlloc.allocResult, useEnd, setUses))
      modifies regAlloc
      ensures |regAlloc.allocResult| == |sc0.entries| && |useEnd'| == |list|
      ensures BlockReady(s, list[..i + 1], |list|, |sc0.entries|)
      ensures ok ==> ScanBlock(s, list[..i + 1], sc0) == Some(Scan(regAlloc.allocResult, useEnd', setUses'))
      ensures !ok ==> ScanBlock(s, list, sc0).None?
    {
      ScanSnoc(s, list, sc0, i);
      ok, useEnd', setUses' := ScanInst(s, list[i], useEnd, setUses);
      if !ok {
        ScanStopsAt(s, list, sc0, i);
      }
    }

    /** The first loop of `CollectLiveIntervals(Block*)`, from an empty `use_end` and `set_value_uses`. */
    method ScanList(s: seq<Inst>, list: seq<nat>) returns (ok: bool, useEnd: seq<nat>, setUses: map<nat, nat>)
      requires BlockReady(s, list, |list|, |regAlloc.allocResult|)
      modifies regAlloc
      ensures var r := ScanBlock(s, list, Scan(old(regAlloc.allocResult), Zeros(|list|), map[]));
        (ok <==> r.Some?) && (ok ==> Scan(regAlloc.allocResult, useEnd, setUses) == r.value)
      ensures |regAlloc.allocResult| == old(|regAlloc.allocResult|)
    {
      useEnd, setUses := Zeros(|list|), map[];
      ghost var sc0 := Scan(regAlloc.allocResult, useEnd, setUses);
      var i := 0;
      while i < |list|
        invariant 0 <= i <= |list| && |useEnd| == |list| && |regAlloc.allocResult| == |sc0.entries|
        invariant BlockReady(s, list[..i], |list|, |sc0.entries|)
        invariant ScanBlock(s, list[..i], sc0) == Some(Scan(regAlloc.allocResult, useEnd, setUses))
      {
        ok, useEnd, setUses := ScanNext(s, list, i, useEnd, setUses, sc0);
        if !ok {
          return;
        }
        i := i + 1;
      }
      assert list[..i] == list;
      ok := true;
    }

    /**
     * `CollectLiveIntervals(Block*)`: the first loop pins host-register
     * values, records references and fills `use_end`; the second appends
     * the intervals of the used values.  `ok` is false when an ASSERT
     * fails (an empty block, a `SetHostReg` of an unused value), and the
     * allocation result is then left unspecified.
     */
    method CollectBlockIntervals(meta: MetaTable, s: seq<Inst>, list: seq<nat>) returns (ok: bool)
      requires CollectReady(meta, s, list, |regAlloc.allocResult|)
      modifies regAlloc, this
      ensures var r := CollectBlock(meta, s, list, old(regAlloc.allocResult));
        && (ok <==> r.Some?)
        && (ok ==> regAlloc.allocResult == r.value.entries && liveInterval == old(liveInterval) + r.value.intervals)
      ensures |regAlloc.allocResult| == old(|regAlloc.allocResult|)
      ensures activeLives == old(activeLives) && activeGprs == old(activeGprs) && activeFprs == old(activeFprs)
      ensures spillSlots == old(spillSlots) && spillSlotCursor == old(spillSlotCursor)
    {
      if list == [] {
        return false;
      }
      var useEnd, setUses;
      ok, useEnd, setUses := ScanList(s, list);
      if !ok {
        return;
      }
      var ivs := IntervalsOf(meta, s, list, useEnd, true);
      liveInterval := liveInterval + ivs;
      ok := true;
    }

    /** One value of `CollectLiveIntervals(HIRFunction*)`. */
    method CollectValueOf(s: seq<Inst>, hv: HIRValue)
      requires ValueReady(s, hv, |regAlloc.allocResult|)
      modifies regAlloc, this
      ensures Collected(regAlloc.allocResult, liveInterval) == CollectValue(s, Collected(old(regAlloc.allocResult), old(liveInterval)), hv)
      ensures activeLives == old(activeLives) && activeGprs == old(activeGprs) && activeFprs == old(activeFprs)
      ensures spillSlots == old(spillSlots) && spillSlotCursor == old(spillSlotCursor)
    {
      var instr := s[hv.def];
      if IsGetHostRegOperation(instr) {
        MapHost(hv.orderId, instr.op == GetHostFPR, HostIndex(instr.args[0].imm));
      } else if IsBitCastOperation(instr) {
        regAlloc.MapReference(IdOf(s, instr.args[0].value), instr.id);
      } else {
        var start := hv.orderId;
        var end := LastUser(s, hv.orderId, hv.uses);
        if IsPseudoOperation(instr.op) {
          start := IdOf(s, instr.args[0].value);
        }
        liveInterval := liveInterval + [LiveInterval(instr.id, start, end, IsFloat(instr))];
      }
    }

    /**
     * `CollectLiveIntervals(HIRFunction*)`: host-register reads are pinned
     * by order id, bit casts recorded as references, and every other
     * value gets the interval from its order id (a pseudo operation's:
     * its argument's id) to its last user.
     */
    method CollectFunctionIntervals(s: seq<Inst>, values: seq<HIRValue>)
      requires forall k :: 0 <= k < |values| ==> ValueReady(s, values[k], |regAlloc.allocResult|)
      modifies regAlloc, this
      ensures Collected(regAlloc.allocResult, liveInterval)
        == CollectValues(s, values, Collected(old(regAlloc.allocResult), old(liveInterval)))
      ensures activeLives == old(activeLives) && activeGprs == old(activeGprs) && activeFprs == old(activeFprs)
      ensures spillSlots == old(spillSlots) && spillSlotCursor == old(spillSlotCursor)
    {
      ghost var c0 := Collected(regAlloc.allocResult, liveInterval);
      var i := 0;
      while i < |values|
        invariant 0 <= i <= |values| && |regAlloc.allocResult| == |c0.entries|
        invariant forall k :: 0 <= k < i ==> values[..i][k] == values[k]
        invariant Collected(regAlloc.allocResult, liveInterval) == CollectValues(s, values[..i], c0)
        invariant activeLives == old(activeLives) && activeGprs == old(activeGprs) && activeFprs == old(activeFprs)
        invariant spillSlots == old(spillSlots) && spillSlotCursor == old(spillSlotCursor)
      {
        assert values[..i + 1][..i] == values[..i] && values[..i + 1][i] == values[i];
        CollectValueOf(s, values[i]);
        i := i + 1;
      }
      assert values[..i] == values;
    }

    /**
     * `AllocateRegisters` for a block: collect, sort, allocate.  `ok` is
     * false when an ASSERT fails; otherwise the final state is `BlockPass`.
     */
    method AllocateBlock(meta: MetaTable, s: seq<Inst>, list: seq<nat>) returns (ok: bool)
      requires CollectReady(meta, s, list, |regAlloc.allocResult|)
      requires Fits(State()) && Known(regAlloc.allocResult, liveInterval)
      modifies this, regAlloc
      ensures var c := CollectBlock(meta, s, list, old(regAlloc.allocResult));
        ok ==> (c.Some? && liveInterval == SortIntervals(old(liveInterval) + c.value.intervals)
                && Run(fixed, old(State()).(entries := c.value.entries), liveInterval) == Some(State()))
      ensures var c := CollectBlock(meta, s, list, old(regAlloc.allocResult));
        !ok ==> (c.None? || Run(fixed, old(State()).(entries := c.value.entries),
                                SortIntervals(old(liveInterval) + c.value.intervals)).None?)
    {
      ghost var st0 := State();
      ok := CollectBlockIntervals(meta, s, list);
      if !ok {
        return;
      }
      assert Known(regAlloc.allocResult, liveInterval);
      assert State() == st0.(entries := regAlloc.allocResult);
      ok := AllocateSorted();
    }

    /** `AllocateRegisters` for a function: collect, sort, allocate; `ok` is false when an ASSERT of the loop fails. */
    method AllocateFunction(s: seq<Inst>, values: seq<HIRValue>) returns (ok: bool)
      requires forall k :: 0 <= k < |values| ==> ValueReady(s, values[k], |regAlloc.allocResult|)
      requires Fits(State()) && Known(regAlloc.allocResult, liveInterval)
      modifies this, regAlloc
      ensures var c := CollectValues(s, values, Collected(old(regAlloc.allocResult), old(liveInterval)));
        && liveInterval == SortIntervals(c.intervals)
        && var r := Run(fixed, old(State()).(entries := c.entries), liveInterval);
        (ok <==> r.Some?) && (ok ==> State() == r.value)
    {
      ghost var st0 := State();
      CollectFunctionIntervals(s, values);
      assert State() == st0.(entries := regAlloc.allocResult);
      ok := AllocateSorted();
    }
  }

  /** A run that fails at one step fails as a whole. */
  lemma {:induction false} RunStopsAt(fixed: bool, st0: AllocState, ivs: seq<LiveInterval>, i: nat)
    requires Fits(st0) && Known(st0.entries, ivs) && i < |ivs|
    requires Run(fixed, st0, ivs[..i]).Some?
    requires Step(fixed, Run(fixed, st0, ivs[..i]).value, ivs[i]).None?
    ensures Run(fixed, st0, ivs).None?
    decreases |ivs| - i
  {
    assert ivs[..i + 1][..i] == ivs[..i];
    assert forall a :: a in ivs[..i + 1] ==> a in ivs;
    if i + 1 < |ivs| {
      RunNoneExtends(fixed, st0, ivs, i + 1);
    } else {
      assert ivs[..i + 1] == ivs;
    }
  }

  /** Once a run over a prefix fails, every longer prefix fails. */
  lemma {:induction false} RunNoneExtends(fixed: bool, st0: AllocState, ivs: seq<LiveInterval>, i: nat)
    requires Fits(st0) && Known(st0.entries, ivs) && i <= |ivs|
    requires forall a :: a in ivs[..i] ==> a in ivs
    requires Run(fixed, st0, ivs[..i]).None?
    ensures Run(fixed, st0, ivs).None?
    decreases |ivs| - i
  {
    if i < |ivs| {
      assert ivs[..i + 1][..i] == ivs[..i];
      assert forall a :: a in ivs[..i + 1] ==> a in ivs;
      RunNoneExtends(fixed, st0, ivs, i + 1);
    } else {
      assert ivs[..i] == ivs;
    }
  }

  /** The vector search of `SpillAtInterval` and `AllocVReg`: the lowest even `i` with both entries clear, or -1. */
  method FindFreePair(m: seq<bool>) returns (slot: int)
    ensures slot == FirstFreePair(m)
  {
    slot := -1;
    var i := 0;
    while i + 1 < |m|
      invariant 0 <= i && i % 2 == 0
      invariant forall k :: 0 <= k < i && k % 2 == 0 && k + 1 < |m| ==> m[k] || m[k + 1]
      decreases |m| - i
    {
      if !m[i] && !m[i + 1] {
        slot := i;
        break;
      }
      i := i + 2;
    }
  }

  /** The loop over `GetValues()`: each value raises its `use_end` slot to the user's id. */
  method CreditValues(s: seq<Inst>, ue: seq<nat>, vs: seq<Value>, d: nat, throughCasts: bool) returns (r: seq<nat>)
    requires forall k :: 0 <= k < |vs| ==> CreditReady(s, vs[k], |ue|, throughCasts)
    ensures r == Credit(s, ue, vs, d, throughCasts)
  {
    r := ue;
    var j := 0;
    while j < |vs|
      invariant 0 <= j <= |vs| && |r| == |ue|
      invariant r == Credit(s, ue, vs[..j], d, throughCasts)
    {
      assert vs[..j + 1] == vs[..j] + [vs[j]];
      CreditSnoc(s, ue, vs[..j], vs[j], d, throughCasts);
      var slot := CreditedId(s, vs[j], throughCasts);
      r := r[slot := Max(r[slot], d)];
      j := j + 1;
    }
    assert vs[..j] == vs;
  }

  /** Crediting one more value raises the slot it credits to d. */
  lemma CreditSnoc(s: seq<Inst>, ue: seq<nat>, p: seq<Value>, v: Value, d: nat, throughCasts: bool)
    requires forall k :: 0 <= k < |p| ==> CreditReady(s, p[k], |ue|, throughCasts)
    requires CreditReady(s, v, |ue|, throughCasts)
    ensures forall k :: 0 <= k < |p + [v]| ==> CreditReady(s, (p + [v])[k], |ue|, throughCasts)
    ensures Credit(s, ue, p + [v], d, throughCasts) ==
      Credit(s, ue, p, d, throughCasts)[CreditedId(s, v, throughCasts) := Max(Credit(s, ue, p, d, throughCasts)[CreditedId(s, v, throughCasts)], d)]
  {
    assert (p + [v])[..|p|] == p;
  }

  /** The `std::for_each` over a value's uses: the larger of the order id and every user's id. */
  method LastUser(s: seq<Inst>, orderId: nat, uses: seq<HIRUse>) returns (end: nat)
    requires forall k :: 0 <= k < |uses| ==> uses[k].inst < |s|
    ensures end == UsesEnd(s, orderId, uses)
  {
    end := orderId;
    var j := 0;
    while j < |uses|
      invariant 0 <= j <= |uses|
      invariant end == UsesEnd(s, orderId, uses[..j])
    {
      assert uses[..j + 1][..j] == uses[..j] && uses[..j + 1][j] == uses[j];
      end := Max(end, s[uses[j].inst].id);
      j := j + 1;
    }
    assert uses[..j] == uses;
  }

  /** The first loop of `VRegisterAllocator::CollectLiveIntervals`, from an empty `use_end`. */
  method CreditList(s: seq<Inst>, list: seq<nat>) returns (useEnd: seq<nat>)
    requires VListReady(s, list, |list|)
    ensures useEnd == CreditAll(s, list, Zeros(|list|))
  {
    useEnd := Zeros(|list|);
    var i := 0;
    while i < |list|
      invariant 0 <= i <= |list| && VListReady(s, list[..i], |list|)
      invariant useEnd == CreditAll(s, list[..i], Zeros(|list|))
    {
      VReadyPrefix(s, list, i, |list|);
      var h := list[i];
      useEnd := CreditValues(s, useEnd, ArgsValues(s[h].args), s[h].id, false);
      i := i + 1;
    }
    assert list[..i] == list;
  }

  /** The second loop of both collections: an interval per value-producing instruction, skipping unused ones when asked. */
  method IntervalsOf(meta: MetaTable, s: seq<Inst>, list: seq<nat>, ue: seq<nat>, skipUnused: bool) returns (ivs: seq<LiveInterval>)
    requires Indexed(meta, s, list, |ue|)
    ensures ivs == Intervals(meta, s, list, ue, skipUnused)
  {
    ivs := [];
    var i := 0;
    while i < |list|
      invariant 0 <= i <= |list|
      invariant Indexed(meta, s, list[..i], |ue|)
      invariant ivs == Intervals(meta, s, list[..i], ue, skipUnused)
    {
      IndexedPrefix(meta, s, list, i, |ue|);
      var h := list[i];
      if HasValue(meta, s[h]) {
        var start := s[h].id;
        var end := ue[start];
        if !skipUnused || end != 0 {
          ivs := ivs + [LiveInterval(start, start, end, IsFloat(s[h]))];
        }
      }
      i := i + 1;
    }
    assert list[..i] == list;
  }

  /**
   * `VRegisterAllocator`: each instruction's virtual register (`SetVirReg`,
   * kept here by instruction id), the collected intervals, `active_lives`,
   * `active_v_regs` and its cursor.  `fixed` selects the corrected
   * marking and cursor rule of `AllocVReg`.
   */
  class VRegisterAllocator {
    const fixed: bool
    var virRegs: map<nat, nat>
    var liveInterval: seq<LiveInterval>
    var activeLives: seq<LiveInterval>
    var activeVRegs: seq<bool>
    var activeVRegsCursor: nat

    /** The loop's view of this object. */
    ghost function State(): VState
      reads this
    {
      VState(virRegs, activeVRegs, activeLives, activeVRegsCursor)
    }

    /** Nothing collected, no virtual register in use. */
    constructor(fixed: bool)
      ensures this.fixed == fixed && virRegs == map[]
      ensures liveInterval == [] && activeLives == [] && activeVRegs == [] && activeVRegsCursor == 0
    {
      this.fixed := fixed;
      virRegs := map[];
      liveInterval, activeLives := [], [];
      activeVRegs, activeVRegsCursor := [], 0;
    }

    /** After visiting the first `k` intervals of `all`: survivors, then the rest; the registers as `VExpire` leaves them. */
    ghost predicate VExpiredTo(regs0: seq<bool>, all: seq<LiveInterval>, k: nat, start: nat)
      reads this
    {
      && k <= |all|
      && var ex := VExpire(regs0, virRegs, all[..k], start);
      activeLives == ex.lives + all[k..] && activeVRegs == ex.regs
    }

    /**
     * `ExpireOldIntervals(current)`: walk `active_lives` front to back,
     * clearing the virtual register (and the next one for a vector) of
     * every interval that ended before `start`, and erasing it.
     */
    method ExpireOldIntervals(start: nat)
      modifies this
      ensures var r := VExpire(old(activeVRegs), virRegs, old(activeLives), start);
        activeLives == r.lives && activeVRegs == r.regs
      ensures virRegs == old(virRegs) && liveInterval == old(liveInterval) && activeVRegsCursor == old(activeVRegsCursor)
    {
      ghost var all := activeLives;
      ghost var regs0 := activeVRegs;
      ghost var k := 0;
      VExpiredFirst(start);
      var i := 0;
      while i < |activeLives|
        invariant VExpiredTo(regs0, all, k, start)
        invariant i == |VExpire(regs0, virRegs, all[..k], start).lives|
        invariant virRegs == old(virRegs) && liveInterval == old(liveInterval) && activeVRegsCursor == old(activeVRegsCursor)
        decreases |all| - k
      {
        i := ExpireNext(start, i, regs0, all, k);
        k := k + 1;
      }
      VExpiredAll(regs0, all, k, start);
    }

    /** Before the loop nothing is visited: the list is all unvisited. */
    lemma VExpiredFirst(start: nat)
      ensures VExpiredTo(activeVRegs, activeLives, 0, start)
    {
      assert activeLives[..0] == [] && activeLives[0..] == activeLives;
    }

    /** After the loop every interval is visited: the list and registers are what `VExpire` leaves. */
    lemma VExpiredAll(regs0: seq<bool>, all: seq<LiveInterval>, k: nat, start: nat)
      requires VExpiredTo(regs0, all, k, start) && |activeLives| <= |VExpire(regs0, virRegs, all[..k], start).lives|
      ensures activeLives == VExpire(regs0, virRegs, all, start).lives && activeVRegs == VExpire(regs0, virRegs, all, start).regs
    {
      assert k == |all| && all[..k] == all && all[k..] == [];
      assert activeLives == VExpire(regs0, virRegs, all, start).lives + [];
    }

    /** One visit of the loop of `ExpireOldIntervals`, at position `i` of the list. */
    method ExpireNext(start: nat, i: nat, ghost regs0: seq<bool>, ghost all: seq<LiveInterval>, ghost k: nat) returns (next: nat)
      requires VExpiredTo(regs0, all, k, start)
      requires i == |VExpire(regs0, virRegs, all[..k], start).lives| && i < |activeLives|
      modifies this
      ensures k < |all| && VExpiredTo(regs0, all, k + 1, start) && next == |VExpire(regs0, virRegs, all[..k + 1], start).lives|
      ensures virRegs == old(virRegs) && liveInterval == old(liveInterval) && activeVRegsCursor == old(activeVRegsCursor)
    {
      assert k < |all|;
      VVisiting(regs0, all, k, start);
      if activeLives[i].end < start {
        VDropAt(start, i, regs0, all, k);
        next := i;
      } else {
        VKeepAt(regs0, all, k, start);
        next := i + 1;
      }
    }

    /** At a visit, the list is the survivors, the visited interval, and the rest. */
    lemma VVisiting(regs0: seq<bool>, all: seq<LiveInterval>, k: nat, start: nat)
      requires VExpiredTo(regs0, all, k, start) && k < |all|
      ensures var ex := VExpire(regs0, virRegs, all[..k], start);
        activeLives == ex.lives + [all[k]] + all[k + 1..] && activeLives[|ex.lives|] == all[k]
    {
      assert all[k..] == [all[k]] + all[k + 1..];
    }

    /** A visited interval that is still live stays in the list. */
    lemma VKeepAt(regs0: seq<bool>, all: seq<LiveInterval>, k: nat, start: nat)
      requires VExpiredTo(regs0, all, k, start) && k < |all| && all[k].end >= start
      ensures VExpiredTo(regs0, all, k + 1, start)
      ensures |VExpire(regs0, virRegs, all[..k + 1], start).lives| == |VExpire(regs0, virRegs, all[..k], start).lives| + 1
    {
      TakeStep(all, k);
      VVisiting(regs0, all, k, start);
      VExpireSnoc(regs0, virRegs, all[..k], all[k], start);
    }

    /** A visited interval that has ended releases its virtual register(s) and is erased. */
    method VDropAt(start: nat, i: nat, ghost regs0: seq<bool>, ghost all: seq<LiveInterval>, ghost k: nat)
      requires VExpiredTo(regs0, all, k, start) && k < |all| && all[k].end < start
      requires i == |VExpire(regs0, virRegs, all[..k], start).lives|
      modifies this
      ensures VExpiredTo(regs0, all, k + 1, start) && i == |VExpire(regs0, virRegs, all[..k + 1], start).lives|
      ensures virRegs == old(virRegs) && liveInterval == old(liveInterval) && activeVRegsCursor == old(activeVRegsCursor)
    {
      TakeStep(all, k);
      VVisiting(regs0, all, k, start);
      VExpireSnoc(regs0, virRegs, all[..k], all[k], start);
      ghost var ex := VExpire(regs0, virRegs, all[..k], start);
      var it := activeLives[i];
      if it.inst in virRegs {
        var x := virRegs[it.inst];
        activeVRegs := Unset(activeVRegs, x);
        if it.vector {
          activeVRegs := Unset(activeVRegs, x + 1);
        }
      }
      activeLives := activeLives[..i] + activeLives[i + 1..];
      assert activeLives == ex.lives + all[k + 1..];
    }

    /** `GrowVRegs(n)`: the cursor moves to the old size and the vector gains `n` clear entries. */
    method GrowVRegs(n: nat)
      modifies this
      ensures activeVRegsCursor == |old(activeVRegs)| && activeVRegs == Grow(old(activeVRegs), n)
      ensures virRegs == old(virRegs) && activeLives == old(activeLives) && liveInterval == old(liveInterval)
    {
      activeVRegsCursor := |activeVRegs|;
      activeVRegs := Grow(activeVRegs, n);
    }

    /** `AllocVReg`: the interval's instruction gets a virtual register by the rule of `SpillAt`. */
    method AllocVReg(iv: LiveInterval)
      requires activeVRegsCursor <= |activeVRegs|
      modifies this
      ensures var sp := SpillAt(fixed, old(activeVRegs), old(activeVRegsCursor), iv.vector);
        && activeVRegs == sp.slots && activeVRegsCursor == sp.cursor
        && virRegs == old(virRegs)[iv.inst := sp.slot]
      ensures activeLives == old(activeLives) && liveInterval == old(liveInterval)
    {
      if iv.vector {
        var slot := FindFreePair(activeVRegs);
        if slot < 0 {
          slot := |activeVRegs|;
          GrowVRegs(2);
        }
        virRegs := virRegs[iv.inst := slot];
        activeVRegs := MarkPair(fixed, activeVRegs, slot);
      } else {
        var free := FirstClear(activeVRegs);
        if free >= 0 {
          activeVRegs := activeVRegs[free := true];
          virRegs := virRegs[iv.inst := free];
        } else {
          var slot := if fixed then |activeVRegs| else activeVRegsCursor;
          GrowVRegs(1);
          activeVRegs := activeVRegs[slot := true];
          virRegs := virRegs[iv.inst := slot];
        }
      }
    }

    /** One pass of the loop of `AllocateRegisters`: expire, append the interval to the active list, give it a virtual register. */
    method AllocateOne(iv: LiveInterval)
      requires activeVRegsCursor <= |activeVRegs|
      modifies this
      ensures State() == VStep(fixed, old(State()), iv)
      ensures liveInterval == old(liveInterval)
    {
      ExpireOldIntervals(iv.start);
      activeLives := activeLives + [iv];
      AllocVReg(iv);
    }

    /**
     * Steps 2 and 3 of `AllocateRegisters`: sort the collected intervals,
     * then for each expire, append it to the active list and give it a
     * virtual register; the final state is `VRun` over the sorted list.
     */
    method AllocateSorted()
      requires activeVRegsCursor <= |activeVRegs|
      modifies this
      ensures liveInterval == SortIntervals(old(liveInterval))
      ensures State() == VRun(fixed, old(State()), liveInterval)
    {
      ghost var st0 := State();
      liveInterval := SortIntervals(liveInterval);
      var i := 0;
      while i < |liveInterval|
        invariant 0 <= i <= |liveInterval| && liveInterval == SortIntervals(old(liveInterval))
        invariant activeVRegsCursor <= |activeVRegs|
        invariant VRun(fixed, st0, liveInterval[..i]) == State()
      {
        TakeStep(liveInterval, i);
        AllocateOne(liveInterval[i]);
        i := i + 1;
      }
      assert liveInterval[..i] == liveInterval;
    }

    /**
     * `CollectLiveIntervals`: every instruction's values raise their own
     * `use_end` slot (no cast is looked through), then every
     * value-producing instruction gets an interval, used or not.
     */
    method CollectIntervals(meta: MetaTable, s: seq<Inst>, list: seq<nat>)
      requires VCollectReady(meta, s, list)
      modifies this
      ensures liveInterval == old(liveInterval) + VCollect(meta, s, list)
      ensures State() == old(State())
    {
      var useEnd := CreditList(s, list);
      var ivs := IntervalsOf(meta, s, list, useEnd, false);
      liveInterval := liveInterval + ivs;
    }

    /** `AllocateRegisters`: collect, sort, and give every interval a virtual register. */
    method AllocateRegisters(meta: MetaTable, s: seq<Inst>, list: seq<nat>)
      requires VCollectReady(meta, s, list) && activeVRegsCursor <= |activeVRegs|
      modifies this
      ensures liveInterval == SortIntervals(old(liveInterval) + VCollect(meta, s, list))
      ensures State() == VRun(fixed, old(State()), liveInterval)
    {
      CollectIntervals(meta, s, list);
      AllocateSorted();
    }
  }

  // ---------------------------------------------------------------- the pass entry points

  /** The allocation state a fresh `LinearScanAllocator` starts from. */
  function Initial(entries: seq<Entry>, gprs: seq<bool>, fprs: seq<bool>): (r: AllocState)
    ensures Fits(r) && r.active == [] && r.entries == entries
  {
    AllocState(entries, Resources(gprs, fprs, []), [], 0)
  }

  /** A block's pass: collect, then run the allocation loop over the sorted intervals. */
  function BlockPass(fixed: bool, meta: MetaTable, s: seq<Inst>, list: seq<nat>, entries: seq<Entry>, gprs: seq<bool>, fprs: seq<bool>)
    : (r: Option<AllocState>)
    requires CollectReady(meta, s, list, |entries|)
    ensures r.Some? ==> |r.value.entries| == |entries|
  {
    var c :- CollectBlock(meta, s, list, entries);
    Run(fixed, Initial(c.entries, gprs, fprs), SortIntervals(c.intervals))
  }

  /** A function's pass: collect over its values, then run the allocation loop over the sorted intervals. */
  function FunctionPass(fixed: bool, s: seq<Inst>, values: seq<HIRValue>, entries: seq<Entry>, gprs: seq<bool>, fprs: seq<bool>)
    : (r: Option<AllocState>)
    requires forall k :: 0 <= k < |values| ==> ValueReady(s, values[k], |entries|)
    ensures r.Some? ==> |r.value.entries| == |entries|
  {
    var c := CollectValues(s, values, Collected(entries, []));
    Run(fixed, Initial(c.entries, gprs, fprs), SortIntervals(c.intervals))
  }

  /** The builder's pass: each function in turn, on the same allocation result. */
  function BuilderPass(fixed: bool, s: seq<Inst>, fs: seq<seq<HIRValue>>, entries: seq<Entry>, gprs: seq<bool>, fprs: seq<bool>)
    : (r: Option<seq<Entry>>)
    requires forall i, k :: 0 <= i < |fs| && 0 <= k < |fs[i]| ==> ValueReady(s, fs[i][k], |entries|)
    ensures r.Some? ==> |r.value| == |entries|
    decreases |fs|
  {
    if fs == [] then Some(entries)
    else
      var init := fs[..|fs| - 1];
      assert forall i :: 0 <= i < |init| ==> init[i] == fs[i];
      var e :- BuilderPass(fixed, s, init, entries, gprs, fprs);
      var st :- FunctionPass(fixed, s, fs[|fs| - 1], e, gprs, fprs);
      Some(st.entries)
  }

  /** The values of each function, in order. */
  ghost function ValuesOf(fs: seq<HIRFunction>): (r: seq<seq<HIRValue>>)
    reads fs
    ensures |r| == |fs| && forall i :: 0 <= i < |fs| ==> r[i] == fs[i].values
  {
    if fs == [] then [] else ValuesOf(fs[..|fs| - 1]) + [fs[|fs| - 1].values]
  }

  /** `RegisterAllocPass::Run(Block*, RegAlloc*)`; `ok` is false when an ASSERT fails. */
  method RunBlock(meta: MetaTable, s: seq<Inst>, list: seq<nat>, regAlloc: RegAlloc, fixed: bool) returns (ok: bool)
    requires CollectReady(meta, s, list, |regAlloc.allocResult|)
    modifies regAlloc
    ensures var r := BlockPass(fixed, meta, s, list, old(regAlloc.allocResult), regAlloc.gprs, regAlloc.fprs);
      (ok <==> r.Some?) && (ok ==> regAlloc.allocResult == r.value.entries)
  {
    ghost var e0 := regAlloc.allocResult;
    var allocator := new LinearScanAllocator(regAlloc, fixed);
    ghost var st0 := allocator.State();
    assert st0 == Initial(e0, regAlloc.gprs, regAlloc.fprs);
    ok := allocator.AllocateBlock(meta, s, list);
    ghost var c := CollectBlock(meta, s, list, e0);
    if c.Some? {
      assert st0.(entries := c.value.entries) == Initial(c.value.entries, regAlloc.gprs, regAlloc.fprs);
      assert [] + c.value.intervals == c.value.intervals;
    }
  }

  /** `RegisterAllocPass::Run(HIRFunction*, RegAlloc*)`; `ok` is false when an ASSERT fails. */
  method RunFunction(s: seq<Inst>, f: HIRFunction, regAlloc: RegAlloc, fixed: bool) returns (ok: bool)
    requires forall k :: 0 <= k < |f.values| ==> ValueReady(s, f.values[k], |regAlloc.allocResult|)
    modifies regAlloc
    ensures var r := FunctionPass(fixed, s, f.values, old(regAlloc.allocResult), regAlloc.gprs, regAlloc.fprs);
      (ok <==> r.Some?) && (ok ==> regAlloc.allocResult == r.value.entries)
  {
    ghost var e0 := regAlloc.allocResult;
    var allocator := new LinearScanAllocator(regAlloc, fixed);
    ghost var st0 := allocator.State();
    assert st0 == Initial(e0, regAlloc.gprs, regAlloc.fprs);
    ok := allocator.AllocateFunction(s, f.values);
    ghost var c := CollectValues(s, f.values, Collected(e0, []));
    assert st0.(entries := c.entries) == Initial(c.entries, regAlloc.gprs, regAlloc.fprs);
  }

  /** `RegisterAllocPass::Run(HIRBuilder*, RegAlloc*)`: every function in turn; `ok` is false when an ASSERT fails. */
  method RunBuilder(s: seq<Inst>, b: HIRBuilder, regAlloc: RegAlloc, fixed: bool) returns (ok: bool)
    requires forall i, k :: 0 <= i < |b.functions| && 0 <= k < |b.functions[i].values| ==>
      ValueReady(s, b.functions[i].values[k], |regAlloc.allocResult|)
    modifies regAlloc
    ensures var r := BuilderPass(fixed, s, ValuesOf(b.functions), old(regAlloc.allocResult), regAlloc.gprs, regAlloc.fprs);
      (ok <==> r.Some?) && (ok ==> regAlloc.allocResult == r.value)
  {
    ghost var vs := ValuesOf(b.functions);
    ghost var e0 := regAlloc.allocResult;
    var i := 0;
    while i < |b.functions|
      invariant 0 <= i <= |b.functions|
      invariant BuilderPass(fixed, s, vs[..i], e0, regAlloc.gprs, regAlloc.fprs) == Some(regAlloc.allocResult)
    {
      ok := RunNext(s, b.functions[i], vs, i, e0, regAlloc, fixed);
      if !ok {
        assert ValuesOf(b.functions) == vs && old(regAlloc.allocResult) == e0;
        return;
      }
      i := i + 1;
    }
    assert vs[..i] == vs == ValuesOf(b.functions);
    ok := true;
  }

  /** One function of the builder pass: extends the fold by one function or fails for good. */
  method RunNext(s: seq<Inst>, f: HIRFunction, ghost vs: seq<seq<HIRValue>>, i: nat, ghost e0: seq<Entry>,
                 regAlloc: RegAlloc, fixed: bool) returns (ok: bool)
    requires forall j, k :: 0 <= j < |vs| && 0 <= k < |vs[j]| ==> ValueReady(s, vs[j][k], |e0|)
    requires i < |vs| && vs[i] == f.values
    requires BuilderPass(fixed, s, vs[..i], e0, regAlloc.gprs, regAlloc.fprs) == Some(regAlloc.allocResult)
    modifies regAlloc
    ensures ok ==> BuilderPass(fixed, s, vs[..i + 1], e0, regAlloc.gprs, regAlloc.fprs) == Some(regAlloc.allocResult)
    ensures !ok ==> BuilderPass(fixed, s, vs, e0, regAlloc.gprs, regAlloc.fprs).None?
  {
    assert vs[..i + 1][..i] == vs[..i] && vs[..i + 1][i] == f.values;
    ok := RunFunction(s, f, regAlloc, fixed);
    if !ok {
      BuilderNoneExtends(fixed, s, vs, e0, regAlloc.gprs, regAlloc.fprs, i + 1);
    }
  }

  /** Once the pass over some functions fails, the pass over all of them fails. */
  lemma {:induction false} BuilderNoneExtends(fixed: bool, s: seq<Inst>, fs: seq<seq<HIRValue>>, entries: seq<Entry>,
                                              gprs: seq<bool>, fprs: seq<bool>, i: nat)
    requires forall j, k :: 0 <= j < |fs| && 0 <= k < |fs[j]| ==> ValueReady(s, fs[j][k], |entries|)
    requires i <= |fs| && BuilderPass(fixed, s, fs[..i], entries, gprs, fprs).None?
    ensures BuilderPass(fixed, s, fs, entries, gprs, fprs).None?
    decreases |fs| - i
  {
    if i < |fs| {
      assert fs[..i + 1][..i] == fs[..i];
      BuilderNoneExtends(fixed, s, fs, entries, gprs, fprs, i + 1);
    } else {
      assert fs[..i] == fs;
    }
  }

  /** `VRegisterAllocPass::Run(Block*)`: the virtual registers the allocation leaves, by instruction id. */
  method RunVirtual(meta: MetaTable, s: seq<Inst>, list: seq<nat>, fixed: bool) returns (virRegs: map<nat, nat>)
    requires VCollectReady(meta, s, list)
    ensures virRegs == VRun(fixed, VState(map[], [], [], 0), SortIntervals(VCollect(meta, s, list))).virRegs
  {
    var allocator := new VRegisterAllocator(fixed);
    allocator.AllocateRegisters(meta, s, list);
    assert [] + VCollect(meta, s, list) == VCollect(meta, s, list);
    virRegs := allocator.virRegs;
  }
}
