/**
 * `RegAlloc`: the register-allocation result the backend reads, one entry
 * per IR value id.  An entry says where the value lives (a general or
 * floating-point host register, a spill slot, or a reference to another
 * id whose location it shares) and which registers were live ("dirty")
 * at that instruction.  The REF kind comes from reg_alloc.cpp; the header
 * reg_alloc.h does not list it.
 */
module RegAllocResult {
  import opened Wrappers

  datatype Kind = NoKind | Gpr | Fpr | Mem | Ref

  /** One `Map` entry: its kind, its slot (register id, spill offset or referenced id) and the dirty masks. */
  datatype Entry = Entry(kind: Kind, slot: nat, dirtyGprs: seq<bool>, dirtyFprs: seq<bool>)

  /**
   * The id a lookup ends at: REF entries are followed to the id in their
   * slot.  `fuel` bounds the number of links; a chain that runs out of
   * fuel or points outside the table gives nothing.
   */
  function Resolve(entries: seq<Entry>, id: nat, fuel: nat): (r: Option<nat>)
    requires id < |entries|
    ensures r.Some? ==> r.value < |entries| && entries[r.value].kind != Ref
    ensures entries[id].kind != Ref ==> r == Some(id)
    decreases fuel
  {
    if entries[id].kind != Ref then Some(id)
    else if fuel == 0 || entries[id].slot >= |entries| then None
    else Resolve(entries, entries[id].slot, fuel - 1)
  }

  /** The slot of the entry a lookup ends at, when that entry has the expected kind (the ASSERT). */
  function ValueOfKind(entries: seq<Entry>, id: nat, kind: Kind): (r: Option<nat>)
    requires id < |entries|
    ensures r.Some? ==> exists k :: 0 <= k < |entries| && entries[k].kind == kind && entries[k].slot == r.value
  {
    match Resolve(entries, id, |entries|)
    case Some(k) => if entries[k].kind == kind then Some(entries[k].slot) else None
    case None => None
  }

  /** A reference to a register-mapped id resolves to that register. */
  lemma ReferenceResolves(entries: seq<Entry>, from: nat, to: nat, kind: Kind)
    requires from < |entries| && to < |entries| && from != to
    requires entries[from].kind == kind && kind != Ref
    ensures var e := entries[to := entries[to].(kind := Ref, slot := from)];
      ValueOfKind(e, to, kind) == Some(entries[from].slot)
  {
    var e := entries[to := entries[to].(kind := Ref, slot := from)];
    assert Resolve(e, from, |e| - 1) == Some(from);
  }

  /** A lookup through a chain of references ends where the last link's lookup ends. */
  lemma {:induction false} ResolveThrough(entries: seq<Entry>, id: nat, fuel: nat)
    requires id < |entries| && entries[id].kind == Ref && entries[id].slot < |entries| && fuel > 0
    ensures Resolve(entries, id, fuel) == Resolve(entries, entries[id].slot, fuel - 1)
  {
  }

  class RegAlloc {
    /** `alloc_result`, indexed by value id. */
    var allocResult: seq<Entry>
    /** The host registers the backend offers, as masks (`GPRSMask`, `FPRSMask`): a set bit is unavailable. */
    const gprs: seq<bool>
    const fprs: seq<bool>

    /** One NONE entry per instruction. */
    constructor(instrSize: nat, gprs: seq<bool>, fprs: seq<bool>)
      ensures allocResult == seq(instrSize, _ => Entry(NoKind, 0, [], []))
      ensures this.gprs == gprs && this.fprs == fprs
    {
      allocResult := seq(instrSize, _ => Entry(NoKind, 0, [], []));
      this.gprs, this.fprs := gprs, fprs;
    }

    /** MapRegister(id, HostGPR). */
    method MapGpr(id: nat, reg: nat)
      requires id < |allocResult|
      modifies this
      ensures allocResult == old(allocResult)[id := old(allocResult)[id].(kind := Gpr, slot := reg)]
    {
      allocResult := allocResult[id := allocResult[id].(kind := Gpr, slot := reg)];
    }

    /** MapRegister(id, HostFPR). */
    method MapFpr(id: nat, reg: nat)
      requires id < |allocResult|
      modifies this
      ensures allocResult == old(allocResult)[id := old(allocResult)[id].(kind := Fpr, slot := reg)]
    {
      allocResult := allocResult[id := allocResult[id].(kind := Fpr, slot := reg)];
    }

    /** MapMemSpill(id, slot): the spill slot's offset. */
    method MapMemSpill(id: nat, offset: nat)
      requires id < |allocResult|
      modifies this
      ensures allocResult == old(allocResult)[id := old(allocResult)[id].(kind := Mem, slot := offset)]
    {
      allocResult := allocResult[id := allocResult[id].(kind := Mem, slot := offset)];
    }

    /** MapReference(from, to): entry `to` refers to id `from`. */
    method MapReference(from: nat, to: nat)
      requires to < |allocResult|
      modifies this
      ensures allocResult == old(allocResult)[to := old(allocResult)[to].(kind := Ref, slot := from)]
    {
      allocResult := allocResult[to := allocResult[to].(kind := Ref, slot := from)];
    }

    /** SetActiveRegs: only the dirty masks of entry id. */
    method SetActiveRegs(id: nat, dirtyGprs: seq<bool>, dirtyFprs: seq<bool>)
      requires id < |allocResult|
      modifies this
      ensures allocResult == old(allocResult)[id := old(allocResult)[id].(dirtyGprs := dirtyGprs, dirtyFprs := dirtyFprs)]
    {
      allocResult := allocResult[id := allocResult[id].(dirtyGprs := dirtyGprs, dirtyFprs := dirtyFprs)];
    }

    /** ValueGPR(id): the register, following references; nothing when the ASSERT on the kind fails. */
    function ValueGpr(id: nat): (r: Option<nat>)
      reads this
      requires id < |allocResult|
      ensures allocResult[id].kind == Gpr ==> r == Some(allocResult[id].slot)
      ensures allocResult[id].kind !in {Gpr, Ref} ==> r.None?
    {
      ValueOfKind(allocResult, id, Gpr)
    }

    function ValueFpr(id: nat): (r: Option<nat>)
      reads this
      requires id < |allocResult|
      ensures allocResult[id].kind == Fpr ==> r == Some(allocResult[id].slot)
      ensures allocResult[id].kind !in {Fpr, Ref} ==> r.None?
    {
      ValueOfKind(allocResult, id, Fpr)
    }

    function ValueMem(id: nat): (r: Option<nat>)
      reads this
      requires id < |allocResult|
      ensures allocResult[id].kind == Mem ==> r == Some(allocResult[id].slot)
      ensures allocResult[id].kind !in {Mem, Ref} ==> r.None?
    {
      ValueOfKind(allocResult, id, Mem)
    }

    /** ValueType: the recorded kind, without following references. */
    function ValueType(id: nat): (r: Kind)
      reads this
      requires id < |allocResult|
    {
      allocResult[id].kind
    }
  }
}
