/**
 * Live-interval collection of the register-allocation pass.  For a block:
 * host-register reads and writes pin a value to its host register, a bit
 * cast makes its result refer to its source, and every other instruction
 * records itself as the last use of the values it reads; each value-producing
 * instruction that is used gets the interval from its id to that last use.
 * For a function: one interval per value, from its order id to its last
 * user.  The virtual-register allocator collects the simpler block form.
 */
module LiveIntervals {
  import opened Wrappers
  import opened IrArgs
  import opened IrInst
  import opened HirBuilder
  import opened RegAllocResult
  import opened LinearScan

  /** `IsFloatValue`: the return type lies between V8 and V256. */
  predicate IsFloat(i: Inst)
  {
    Ordinal(V8) <= Ordinal(i.retType) <= Ordinal(V256)
  }

  /** `Value::Id`: the id of the defining instruction. */
  function IdOf(s: seq<Inst>, v: Value): nat
    requires 0 <= v.def < |s|
  {
    s[v.def].id
  }

  /** `(u16) host_index`. */
  function HostIndex(imm: Imm): nat
  {
    Get(imm) % 0x10000
  }

  function Max(a: nat, b: nat): nat
  {
    if a < b then b else a
  }

  /** The u8 pre-decrement `--x`. */
  function Dec8(x: nat): nat
  {
    (x + 255) % 256
  }

  /** `MapRegister(id, HostFPR{reg})` when `float`, else `MapRegister(id, HostGPR{reg})`. */
  function Pin(entries: seq<Entry>, id: nat, float: bool, reg: nat): (r: seq<Entry>)
    requires id < |entries|
    ensures |r| == |entries| && r[id].kind == (if float then Fpr else Gpr) && r[id].slot == reg
    ensures forall k :: 0 <= k < |entries| && k != id ==> r[k] == entries[k]
  {
    Place(entries, id, if float then Fpr else Gpr, reg)
  }

  /** `MapReference(from, to)`: entry `to` refers to id `from`. */
  function Refer(entries: seq<Entry>, from: nat, to: nat): (r: seq<Entry>)
    requires to < |entries|
    ensures |r| == |entries| && r[to].kind == Ref && r[to].slot == from
    ensures forall k :: 0 <= k < |entries| && k != to ==> r[k] == entries[k]
  {
    entries[to := entries[to].(kind := Ref, slot := from)]
  }

  // ---------------------------------------------------------------- the kinds of instruction

  /** The offset immediates that the host-register tests read are immediates. */
  predicate Tagged(i: Inst)
  {
    && |i.args| == MaxArgs
    && ((i.op == GetHostGPR || i.op == GetHostFPR) ==> i.args[1].AImm?)
    && ((i.op == SetHostGPR || i.op == SetHostFPR) ==> i.args[2].AImm?)
  }

  /** Neither a host-register read, a bit cast nor a host-register write: its operands are uses. */
  predicate Plain(i: Inst)
    requires Tagged(i)
  {
    !IsGetHostRegOperation(i) && !IsBitCastOperation(i) && !IsSetHostRegOperation(i)
  }

  /** The instruction argument 0 of `i` names. */
  predicate SourceDefined(s: seq<Inst>, i: Inst)
  {
    |i.args| > 0 && i.args[0].AValue? && 0 <= i.args[0].value.def < |s|
  }

  // ---------------------------------------------------------------- last uses

  /** A use of `v` can be credited: v is defined, and so is the source of a bit cast when casts are looked through. */
  predicate Creditable(s: seq<Inst>, v: Value, throughCasts: bool)
  {
    0 <= v.def < |s| && (throughCasts && IsBitCastOperation(s[v.def]) ==> SourceDefined(s, s[v.def]))
  }

  /**
   * The `use_end` slot that a use of `v` raises: the id of a bit cast's
   * source when casts are looked through, else v's own id.
   */
  function CreditedId(s: seq<Inst>, v: Value, throughCasts: bool): nat
    requires Creditable(s, v, throughCasts)
  {
    if throughCasts && IsBitCastOperation(s[v.def]) then IdOf(s, s[v.def].args[0].value) else IdOf(s, v)
  }

  predicate CreditReady(s: seq<Inst>, v: Value, n: nat, throughCasts: bool)
  {
    Creditable(s, v, throughCasts) && CreditedId(s, v, throughCasts) < n
  }

  /** Some value of `vs` credits slot `x`. */
  ghost predicate Hits(s: seq<Inst>, vs: seq<Value>, x: nat, throughCasts: bool)
  {
    exists k :: 0 <= k < |vs| && Creditable(s, vs[k], throughCasts) && CreditedId(s, vs[k], throughCasts) == x
  }

  lemma HitsSnoc(s: seq<Inst>, vs: seq<Value>, v: Value, x: nat, throughCasts: bool)
    requires Creditable(s, v, throughCasts)
    ensures Hits(s, vs + [v], x, throughCasts) <==> Hits(s, vs, x, throughCasts) || CreditedId(s, v, throughCasts) == x
  {
    var w := vs + [v];
    if Hits(s, vs, x, throughCasts) {
      var k :| 0 <= k < |vs| && Creditable(s, vs[k], throughCasts) && CreditedId(s, vs[k], throughCasts) == x;
      assert w[k] == vs[k];
    }
    if CreditedId(s, v, throughCasts) == x {
      assert w[|vs|] == v;
    }
    if Hits(s, w, x, throughCasts) {
      var k :| 0 <= k < |w| && Creditable(s, w[k], throughCasts) && CreditedId(s, w[k], throughCasts) == x;
      if k < |vs| {
        assert w[k] == vs[k];
      }
    }
  }

  /**
   * The loop over `GetValues()`: each value raises its slot of `use_end`
   * to the user's id `d` (`std::max`).  Every slot some value credits
   * ends as the larger of its old entry and d; every other slot keeps
   * its entry.
   */
  function Credit(s: seq<Inst>, ue: seq<nat>, vs: seq<Value>, d: nat, throughCasts: bool): (r: seq<nat>)
    requires forall k :: 0 <= k < |vs| ==> CreditReady(s, vs[k], |ue|, throughCasts)
    ensures |r| == |ue|
    ensures forall x :: 0 <= x < |ue| ==> r[x] == if Hits(s, vs, x, throughCasts) then Max(ue[x], d) else ue[x]
    decreases |vs|
  {
    if vs == [] then ue
    else
      var init := vs[..|vs| - 1];
      var v := vs[|vs| - 1];
      assert vs == init + [v];
      assert CreditReady(s, vs[|vs| - 1], |ue|, throughCasts);
      assert forall k :: 0 <= k < |init| ==> init[k] == vs[k];
      var r0 := Credit(s, ue, init, d, throughCasts);
      var c := CreditedId(s, v, throughCasts);
      var r := r0[c := Max(r0[c], d)];
      assert forall x :: 0 <= x < |ue| ==> r[x] == if Hits(s, vs, x, throughCasts) then Max(ue[x], d) else ue[x] by {
        forall x | 0 <= x < |ue|
          ensures r[x] == if Hits(s, vs, x, throughCasts) then Max(ue[x], d) else ue[x]
        {
          HitsSnoc(s, init, v, x, throughCasts);
        }
      }
      r
  }

  /** List instruction `h` uses slot `x`: it reads a value crediting x, and is a plain instruction when only those count. */
  ghost predicate Uses(s: seq<Inst>, h: nat, x: nat, throughCasts: bool, plainOnly: bool)
  {
    && h < |s|
    && (plainOnly ==> Tagged(s[h]) && Plain(s[h]))
    && Hits(s, ArgsValues(s[h].args), x, throughCasts)
  }

  /**
   * `ue` records last uses over `list`: each slot is at least the id of
   * every instruction that uses it, and is 0 or the id of one of them.
   */
  ghost predicate LastUses(s: seq<Inst>, list: seq<nat>, ue: seq<nat>, throughCasts: bool, plainOnly: bool)
  {
    forall x :: 0 <= x < |ue| ==> LastUseOf(s, list, ue[x], x, throughCasts, plainOnly)
  }

  /** `u` is at least the id of every user of slot `x` in `list`, and is 0 or the id of one of them. */
  ghost predicate LastUseOf(s: seq<Inst>, list: seq<nat>, u: nat, x: nat, throughCasts: bool, plainOnly: bool)
  {
    && (forall k :: 0 <= k < |list| && Uses(s, list[k], x, throughCasts, plainOnly) ==> u >= s[list[k]].id)
    && (u == 0 || exists k :: 0 <= k < |list| && Uses(s, list[k], x, throughCasts, plainOnly) && u == s[list[k]].id)
  }

  /** Every entry is 0. */
  ghost predicate Zero(ue: seq<nat>)
  {
    forall x :: 0 <= x < |ue| ==> ue[x] == 0
  }

  /** `use_end.resize(n)` on an empty vector. */
  function Zeros(n: nat): (r: seq<nat>)
    ensures |r| == n && Zero(r)
  {
    seq(n, _ => 0)
  }

  lemma LastUsesEmpty(s: seq<Inst>, ue: seq<nat>, throughCasts: bool, plainOnly: bool)
    requires Zero(ue)
    ensures LastUses(s, [], ue, throughCasts, plainOnly)
  {
  }

  /** Appending an instruction `h` that credits `ue` (or, when `used` is false, leaves it alone) keeps last uses. */
  lemma LastUsesSnoc(s: seq<Inst>, list: seq<nat>, h: nat, ue: seq<nat>, ue': seq<nat>, throughCasts: bool, plainOnly: bool, used: bool)
    requires h < |s| && |ue'| == |ue| && LastUses(s, list, ue, throughCasts, plainOnly)
    requires used ==> forall k :: 0 <= k < |ArgsValues(s[h].args)| ==> Creditable(s, ArgsValues(s[h].args)[k], throughCasts)
    requires used <==> !plainOnly || (Tagged(s[h]) && Plain(s[h]))
    requires forall x :: 0 <= x < |ue| ==>
      ue'[x] == if used && Hits(s, ArgsValues(s[h].args), x, throughCasts) then Max(ue[x], s[h].id) else ue[x]
    ensures LastUses(s, list + [h], ue', throughCasts, plainOnly)
  {
    var l := list + [h];
    forall x | 0 <= x < |ue'|
      ensures LastUseOf(s, l, ue'[x], x, throughCasts, plainOnly)
    {
      assert LastUseOf(s, list, ue[x], x, throughCasts, plainOnly);
      forall k | 0 <= k < |l| && Uses(s, l[k], x, throughCasts, plainOnly)
        ensures ue'[x] >= s[l[k]].id
      {
        if k < |list| {
          assert l[k] == list[k];
        }
      }
      if ue'[x] != 0 {
        if ue'[x] == ue[x] {
          var k :| 0 <= k < |list| && Uses(s, list[k], x, throughCasts, plainOnly) && ue[x] == s[list[k]].id;
          assert l[k] == list[k];
        } else {
          assert l[|list|] == h;
        }
      }
    }
  }

  // ---------------------------------------------------------------- block mode

  /** The scan state: the allocation result, `use_end` and `set_value_uses`. */
  datatype Scan = Scan(entries: seq<Entry>, useEnd: seq<nat>, setUses: map<nat, nat>)

  /** What a `SetHostReg` reads: the value (argument 0), defined and with an id in the result, and the host register (argument 1). */
  predicate SetReady(s: seq<Inst>, i: Inst, m: nat)
  {
    SourceDefined(s, i) && IdOf(s, i.args[0].value) < m && |i.args| > 1 && i.args[1].AImm?
  }

  /**
   * What the first loop reads of list instruction `h`, with `n` slots of
   * `use_end` and `m` entries in the allocation result.
   */
  predicate Ready(s: seq<Inst>, h: nat, n: nat, m: nat)
  {
    && h < |s| && Tagged(s[h])
    && (if IsGetHostRegOperation(s[h]) then s[h].args[0].AImm? && s[h].id < m
        else if IsBitCastOperation(s[h]) then SourceDefined(s, s[h]) && s[h].id < m
        else if IsSetHostRegOperation(s[h]) then SetReady(s, s[h], m)
        else forall k :: 0 <= k < |ArgsValues(s[h].args)| ==> CreditReady(s, ArgsValues(s[h].args)[k], n, true))
  }

  /**
   * The `SetHostReg` branch.  With a use count of 1 the value is pinned
   * at once; otherwise the first write stores the count less one, and each
   * later write counts it down, pinning the value when it reaches 0 (the
   * stored count is then left as it was).  A use count of 0 fails the
   * ASSERT.
   */
  function SetHost(s: seq<Inst>, sc: Scan, i: Inst): (r: Option<Scan>)
    requires SetReady(s, i, |sc.entries|)
    ensures r.Some? ==> |r.value.entries| == |sc.entries| && r.value.useEnd == sc.useEnd
  {
    var v := i.args[0].value;
    var x := IdOf(s, v);
    var useCount := s[v.def].numUse;
    var pinned := sc.(entries := Pin(sc.entries, x, i.op == SetHostFPR, HostIndex(i.args[1].imm)));
    if useCount == 0 then None
    else if useCount == 1 then Some(pinned)
    else if x in sc.setUses then
      var uses := Dec8(sc.setUses[x]);
      if uses == 0 then Some(pinned) else Some(sc.(setUses := sc.setUses[x := uses]))
    else Some(sc.(setUses := sc.setUses[x := Dec8(useCount)]))
  }

  /** One pass of the first loop of `CollectLiveIntervals(Block*)`. */
  function ScanOne(s: seq<Inst>, sc: Scan, h: nat): (r: Option<Scan>)
    requires Ready(s, h, |sc.useEnd|, |sc.entries|)
    ensures r.Some? ==> |r.value.entries| == |sc.entries| && |r.value.useEnd| == |sc.useEnd|
  {
    var i := s[h];
    if IsGetHostRegOperation(i) then
      Some(sc.(entries := Pin(sc.entries, i.id, i.op == GetHostFPR, HostIndex(i.args[0].imm))))
    else if IsBitCastOperation(i) then
      Some(sc.(entries := Refer(sc.entries, IdOf(s, i.args[0].value), i.id)))
    else if IsSetHostRegOperation(i) then
      SetHost(s, sc, i)
    else
      Some(sc.(useEnd := Credit(s, sc.useEnd, ArgsValues(i.args), i.id, true)))
  }

  ghost predicate BlockReady(s: seq<Inst>, list: seq<nat>, n: nat, m: nat)
  {
    forall k :: 0 <= k < |list| ==> Ready(s, list[k], n, m)
  }

  /** The first loop over the whole list; nothing when an ASSERT fails. */
  function ScanBlock(s: seq<Inst>, list: seq<nat>, sc: Scan): (r: Option<Scan>)
    requires BlockReady(s, list, |sc.useEnd|, |sc.entries|)
    ensures r.Some? ==> |r.value.entries| == |sc.entries| && |r.value.useEnd| == |sc.useEnd|
    decreases |list|
  {
    if list == [] then Some(sc)
    else
      var r0 :- ScanBlock(s, list[..|list| - 1], sc);
      ScanOne(s, r0, list[|list| - 1])
  }

  /** Prefixes of a ready list are ready. */
  lemma BlockReadyInit(s: seq<Inst>, list: seq<nat>, n: nat, m: nat)
    requires BlockReady(s, list, n, m) && list != []
    ensures BlockReady(s, list[..|list| - 1], n, m) && Ready(s, list[|list| - 1], n, m)
  {
    assert forall k :: 0 <= k < |list| - 1 ==> list[..|list| - 1][k] == list[k];
  }

  /** A step of the first loop: the next prefix is ready and its scan is one more `ScanOne`. */
  lemma ScanPrefix(s: seq<Inst>, list: seq<nat>, i: nat, n: nat, m: nat)
    requires BlockReady(s, list, n, m) && i < |list|
    ensures BlockReady(s, list[..i], n, m) && BlockReady(s, list[..i + 1], n, m) && Ready(s, list[i], n, m)
    ensures list[..i + 1][..i] == list[..i] && list[..i + 1][i] == list[i]
  {
    assert forall k :: 0 <= k < i + 1 ==> list[..i + 1][k] == list[k];
  }

  /** The scan of one more instruction is one more `ScanOne`. */
  lemma ScanSnoc(s: seq<Inst>, list: seq<nat>, sc: Scan, i: nat)
    requires BlockReady(s, list, |sc.useEnd|, |sc.entries|) && i < |list|
    requires BlockReady(s, list[..i], |sc.useEnd|, |sc.entries|) && ScanBlock(s, list[..i], sc).Some?
    ensures BlockReady(s, list[..i + 1], |sc.useEnd|, |sc.entries|) && Ready(s, list[i], |sc.useEnd|, |sc.entries|)
    ensures ScanBlock(s, list[..i + 1], sc) == ScanOne(s, ScanBlock(s, list[..i], sc).value, list[i])
  {
    ScanPrefix(s, list, i, |sc.useEnd|, |sc.entries|);
  }

  /** Once the scan of a prefix fails, the scan of the whole list fails. */
  lemma {:induction false} ScanNoneExtends(s: seq<Inst>, list: seq<nat>, sc: Scan, i: nat)
    requires BlockReady(s, list, |sc.useEnd|, |sc.entries|) && i <= |list|
    requires BlockReady(s, list[..i], |sc.useEnd|, |sc.entries|) && ScanBlock(s, list[..i], sc).None?
    ensures ScanBlock(s, list, sc).None?
    decreases |list| - i
  {
    if i < |list| {
      ScanPrefix(s, list, i, |sc.useEnd|, |sc.entries|);
      ScanNoneExtends(s, list, sc, i + 1);
    } else {
      assert list[..i] == list;
    }
  }

  /** A failing step fails the whole scan. */
  lemma ScanStopsAt(s: seq<Inst>, list: seq<nat>, sc: Scan, i: nat)
    requires BlockReady(s, list, |sc.useEnd|, |sc.entries|) && i < |list|
    requires BlockReady(s, list[..i], |sc.useEnd|, |sc.entries|)
    requires ScanBlock(s, list[..i], sc).Some? && Ready(s, list[i], |sc.useEnd|, |sc.entries|)
    requires ScanOne(s, ScanBlock(s, list[..i], sc).value, list[i]).None?
    ensures ScanBlock(s, list, sc).None?
  {
    ScanPrefix(s, list, i, |sc.useEnd|, |sc.entries|);
    ScanNoneExtends(s, list, sc, i + 1);
  }

  /** Only a plain instruction changes `use_end`, and it credits its values. */
  lemma ScanOneUseEnd(s: seq<Inst>, sc: Scan, h: nat)
    requires Ready(s, h, |sc.useEnd|, |sc.entries|) && ScanOne(s, sc, h).Some?
    ensures Plain(s[h]) ==> forall k :: 0 <= k < |ArgsValues(s[h].args)| ==> Creditable(s, ArgsValues(s[h].args)[k], true)
    ensures forall x :: 0 <= x < |sc.useEnd| ==>
      ScanOne(s, sc, h).value.useEnd[x] ==
        if Plain(s[h]) && Hits(s, ArgsValues(s[h].args), x, true) then Max(sc.useEnd[x], s[h].id) else sc.useEnd[x]
  {
  }

  /** The first loop leaves the last use (through casts, by plain instructions) of every id in `use_end`. */
  lemma {:induction false} ScanLastUses(s: seq<Inst>, list: seq<nat>, sc: Scan)
    requires BlockReady(s, list, |sc.useEnd|, |sc.entries|) && Zero(sc.useEnd)
    requires ScanBlock(s, list, sc).Some?
    ensures LastUses(s, list, ScanBlock(s, list, sc).value.useEnd, true, true)
    decreases |list|
  {
    if list == [] {
      LastUsesEmpty(s, sc.useEnd, true, true);
    } else {
      var init := list[..|list| - 1];
      BlockReadyInit(s, list, |sc.useEnd|, |sc.entries|);
      ScanLastUses(s, init, sc);
      ScanLastUsesStep(s, list, sc);
    }
  }

  lemma ScanLastUsesStep(s: seq<Inst>, list: seq<nat>, sc: Scan)
    requires BlockReady(s, list, |sc.useEnd|, |sc.entries|) && list != [] && ScanBlock(s, list, sc).Some?
    requires BlockReady(s, list[..|list| - 1], |sc.useEnd|, |sc.entries|) && ScanBlock(s, list[..|list| - 1], sc).Some?
    requires LastUses(s, list[..|list| - 1], ScanBlock(s, list[..|list| - 1], sc).value.useEnd, true, true)
    ensures LastUses(s, list, ScanBlock(s, list, sc).value.useEnd, true, true)
  {
    var init := list[..|list| - 1];
    var h := list[|list| - 1];
    var r0 := ScanBlock(s, init, sc).value;
    ScanBlockLast(s, list, sc);
    SplitLastIndex(list);
    ScanOneLastUses(s, init, h, r0, list, ScanBlock(s, list, sc).value.useEnd);
  }

  /** A non-empty list is its prefix and its last element. */
  lemma SplitLastIndex<T>(list: seq<T>)
    requires list != []
    ensures list == list[..|list| - 1] + [list[|list| - 1]]
  {
  }

  /** The scan of a non-empty list is one more `ScanOne` after the scan of its prefix. */
  lemma ScanBlockLast(s: seq<Inst>, list: seq<nat>, sc: Scan)
    requires BlockReady(s, list, |sc.useEnd|, |sc.entries|) && list != [] && ScanBlock(s, list, sc).Some?
    ensures BlockReady(s, list[..|list| - 1], |sc.useEnd|, |sc.entries|) && ScanBlock(s, list[..|list| - 1], sc).Some?
    ensures Ready(s, list[|list| - 1], |sc.useEnd|, |sc.entries|)
    ensures ScanBlock(s, list, sc) == ScanOne(s, ScanBlock(s, list[..|list| - 1], sc).value, list[|list| - 1])
  {
    BlockReadyInit(s, list, |sc.useEnd|, |sc.entries|);
  }

  /** One more scanned instruction keeps `LastUses`. */
  lemma ScanOneLastUses(s: seq<Inst>, init: seq<nat>, h: nat, r0: Scan, list: seq<nat>, ue: seq<nat>)
    requires Ready(s, h, |r0.useEnd|, |r0.entries|) && ScanOne(s, r0, h).Some?
    requires LastUses(s, init, r0.useEnd, true, true)
    requires list == init + [h] && ue == ScanOne(s, r0, h).value.useEnd
    ensures LastUses(s, list, ue, true, true)
  {
    ScanOneUseEnd(s, r0, h);
    LastUsesSnoc(s, init, h, r0.useEnd, ue, true, true, Plain(s[h]));
  }

  /** How many `SetHostReg` instructions of `list` write the value with id `x`. */
  function SetCount(s: seq<Inst>, list: seq<nat>, x: nat): (r: nat)
    ensures r <= |list|
    decreases |list|
  {
    if list == [] then 0
    else
      var h := list[|list| - 1];
      SetCount(s, list[..|list| - 1], x) + if SetsId(s, list[|list| - 1], x) then 1 else 0
  }

  /** Every `SetHostReg` of `list` that writes id `x` sees use count `c`. */
  ghost predicate CountIs(s: seq<Inst>, list: seq<nat>, x: nat, c: nat)
  {
    forall k :: 0 <= k < |list| && list[k] < |s| && SourceDefined(s, s[list[k]]) && IdOf(s, s[list[k]].args[0].value) == x
      ==> s[s[list[k]].args[0].value.def].numUse == c
  }

  /** The instruction is a `SetHostReg` of id `x`. */
  predicate SetsId(s: seq<Inst>, h: nat, x: nat)
  {
    h < |s| && Tagged(s[h]) && IsSetHostRegOperation(s[h]) && SourceDefined(s, s[h]) && IdOf(s, s[h].args[0].value) == x
  }

  /** What `set_value_uses` holds for x after m writes of a value with use count c. */
  ghost predicate Stored(setUses: map<nat, nat>, x: nat, m: nat, c: nat)
  {
    (x in setUses <==> m >= 1) && (x in setUses ==> setUses[x] == if m < c then c - m else 1)
  }

  /** One instruction advances the count-down of x by one exactly when it writes x. */
  lemma ScanOneCountDown(s: seq<Inst>, sc: Scan, h: nat, x: nat, m: nat, c: nat)
    requires Ready(s, h, |sc.useEnd|, |sc.entries|) && ScanOne(s, sc, h).Some?
    requires 2 <= c < 256 && Stored(sc.setUses, x, m, c)
    requires SetsId(s, h, x) ==> s[s[h].args[0].value.def].numUse == c
    ensures Stored(ScanOne(s, sc, h).value.setUses, x, m + if SetsId(s, h, x) then 1 else 0, c)
  {
  }

  /**
   * The count-down of `set_value_uses` for a value with use count
   * `2 <= c < 256`: after m of its host-register writes the stored count
   * is c - m, and it stays at 1 from the (c-1)-th write on.
   */
  lemma {:induction false} SetUsesCountDown(s: seq<Inst>, list: seq<nat>, sc: Scan, x: nat, c: nat)
    requires BlockReady(s, list, |sc.useEnd|, |sc.entries|) && x !in sc.setUses
    requires ScanBlock(s, list, sc).Some? && 2 <= c < 256 && CountIs(s, list, x, c)
    ensures Stored(ScanBlock(s, list, sc).value.setUses, x, SetCount(s, list, x), c)
    decreases |list|
  {
    if list != [] {
      var init := list[..|list| - 1];
      var h := list[|list| - 1];
      BlockReadyInit(s, list, |sc.useEnd|, |sc.entries|);
      assert CountIs(s, init, x, c) by {
        forall k | 0 <= k < |init| ensures init[k] == list[k] { }
      }
      SetUsesCountDown(s, init, sc, x, c);
      var r0 := ScanBlock(s, init, sc).value;
      ScanOneCountDown(s, r0, h, x, SetCount(s, init, x), c);
    }
  }

  /**
   * A host-register write of id `x` (use count `c`) pins x exactly when
   * c is 1 or when it is the c-th or a later write of x in the list;
   * otherwise the allocation result is unchanged.
   */
  lemma SetHostPinsAt(s: seq<Inst>, pre: seq<nat>, h: nat, sc: Scan, x: nat, c: nat)
    requires BlockReady(s, pre + [h], |sc.useEnd|, |sc.entries|) && x !in sc.setUses
    requires ScanBlock(s, pre + [h], sc).Some? && 1 <= c < 256 && CountIs(s, pre + [h], x, c)
    requires Tagged(s[h]) && IsSetHostRegOperation(s[h]) && IdOf(s, s[h].args[0].value) == x
    ensures var r0 := ScanBlock(s, pre, sc).value;
      ScanBlock(s, pre + [h], sc).value.entries ==
        if c == 1 || SetCount(s, pre, x) >= c - 1
        then Pin(r0.entries, x, s[h].op == SetHostFPR, HostIndex(s[h].args[1].imm))
        else r0.entries
  {
    var l := pre + [h];
    assert l[..|l| - 1] == pre && l[|l| - 1] == h;
    assert BlockReady(s, pre, |sc.useEnd|, |sc.entries|) by {
      forall k | 0 <= k < |pre| ensures pre[k] == l[k] { }
    }
    assert l[|pre|] == h;
    if c >= 2 {
      assert CountIs(s, pre, x, c) by {
        forall k | 0 <= k < |pre| ensures pre[k] == l[k] { }
      }
      SetUsesCountDown(s, pre, sc, x, c);
    }
  }

  /** The interval of list instruction `h`: from its id to the last use recorded for it. */
  function IntervalAt(s: seq<Inst>, h: nat, ue: seq<nat>): (r: LiveInterval)
    requires h < |s| && s[h].id < |ue|
  {
    LiveInterval(s[h].id, s[h].id, ue[s[h].id], IsFloat(s[h]))
  }

  /** The second loop's test: the instruction has a value, and (when skipping) a recorded use. */
  predicate Collects(meta: MetaTable, s: seq<Inst>, h: nat, ue: seq<nat>, skipUnused: bool)
    requires h < |s| && (HasValue(meta, s[h]) ==> s[h].id < |ue|)
  {
    HasValue(meta, s[h]) && (skipUnused ==> ue[s[h].id] != 0)
  }

  ghost predicate Indexed(meta: MetaTable, s: seq<Inst>, list: seq<nat>, n: nat)
  {
    forall k :: 0 <= k < |list| ==> list[k] < |s| && (HasValue(meta, s[list[k]]) ==> s[list[k]].id < n)
  }

  /**
   * The second loop: an interval for each instruction with a value, in
   * list order; block mode skips those whose last use is 0.
   */
  function Intervals(meta: MetaTable, s: seq<Inst>, list: seq<nat>, ue: seq<nat>, skipUnused: bool): (r: seq<LiveInterval>)
    requires Indexed(meta, s, list, |ue|)
    ensures |r| <= |list|
    ensures forall iv :: iv in r <==>
      exists k :: 0 <= k < |list| && Collects(meta, s, list[k], ue, skipUnused) && iv == IntervalAt(s, list[k], ue)
    decreases |list|
  {
    if list == [] then []
    else
      var init := list[..|list| - 1];
      var h := list[|list| - 1];
      assert list == init + [h];
      var r0 := Intervals(meta, s, init, ue, skipUnused);
      var r := if Collects(meta, s, h, ue, skipUnused) then r0 + [IntervalAt(s, h, ue)] else r0;
      assert forall iv :: iv in r <==>
        exists k :: 0 <= k < |list| && Collects(meta, s, list[k], ue, skipUnused) && iv == IntervalAt(s, list[k], ue) by {
        forall iv
          ensures iv in r <==>
            exists k :: 0 <= k < |list| && Collects(meta, s, list[k], ue, skipUnused) && iv == IntervalAt(s, list[k], ue)
        {
          if iv in r0 {
            var k :| 0 <= k < |init| && Collects(meta, s, init[k], ue, skipUnused) && iv == IntervalAt(s, init[k], ue);
            assert list[k] == init[k];
          }
          if exists k :: 0 <= k < |list| && Collects(meta, s, list[k], ue, skipUnused) && iv == IntervalAt(s, list[k], ue) {
            var k :| 0 <= k < |list| && Collects(meta, s, list[k], ue, skipUnused) && iv == IntervalAt(s, list[k], ue);
            if k < |init| {
              assert list[k] == init[k];
            }
          }
        }
      }
      r
  }

  lemma IndexedPrefix(meta: MetaTable, s: seq<Inst>, list: seq<nat>, i: nat, n: nat)
    requires Indexed(meta, s, list, n) && i < |list|
    ensures Indexed(meta, s, list[..i], n) && Indexed(meta, s, list[..i + 1], n)
    ensures list[..i + 1][..i] == list[..i] && list[..i + 1][i] == list[i]
  {
    assert forall k :: 0 <= k < i + 1 ==> list[..i + 1][k] == list[k];
  }

  /** Everything `CollectLiveIntervals` reads of a block, with `m` entries in the allocation result. */
  ghost predicate CollectReady(meta: MetaTable, s: seq<Inst>, list: seq<nat>, m: nat)
  {
    BlockReady(s, list, |list|, m) && Indexed(meta, s, list, |list|) && Indexed(meta, s, list, m)
  }

  /** What the collection leaves: the allocation result and the intervals. */
  datatype Collected = Collected(entries: seq<Entry>, intervals: seq<LiveInterval>)

  /**
   * `CollectLiveIntervals(Block*)`: nothing for an empty block (the
   * ASSERT) or when a `SetHostReg` ASSERT fails; otherwise the scan's
   * allocation result and the intervals of the used values.
   */
  function CollectBlock(meta: MetaTable, s: seq<Inst>, list: seq<nat>, entries: seq<Entry>): (r: Option<Collected>)
    requires CollectReady(meta, s, list, |entries|)
    ensures r.Some? ==> |r.value.entries| == |entries| && Known(entries, r.value.intervals)
    ensures list == [] ==> r.None?
  {
    if list == [] then None
    else
      var sc :- ScanBlock(s, list, Scan(entries, Zeros(|list|), map[]));
      var ivs := Intervals(meta, s, list, sc.useEnd, true);
      assert Known(entries, ivs) by {
        forall iv | iv in ivs ensures iv.inst < |entries| {
          var k :| 0 <= k < |list| && Collects(meta, s, list[k], sc.useEnd, true) && iv == IntervalAt(s, list[k], sc.useEnd);
        }
      }
      Some(Collected(sc.entries, ivs))
  }

  /**
   * The block-mode intervals span from each used value's id to its last
   * use: an interval ends at or after every plain instruction that reads
   * the value (directly or through a bit cast), and at one of them; and
   * every value-producing instruction whose last user has a non-zero id
   * has its interval.
   */
  lemma BlockIntervalsSpan(meta: MetaTable, s: seq<Inst>, list: seq<nat>, entries: seq<Entry>, iv: LiveInterval)
    requires CollectReady(meta, s, list, |entries|) && CollectBlock(meta, s, list, entries).Some?
    requires iv in CollectBlock(meta, s, list, entries).value.intervals
    ensures iv.start == iv.inst && iv.end != 0
    ensures forall k :: 0 <= k < |list| && Uses(s, list[k], iv.inst, true, true) ==> iv.end >= s[list[k]].id
    ensures exists k :: 0 <= k < |list| && Uses(s, list[k], iv.inst, true, true) && iv.end == s[list[k]].id
    ensures exists k :: 0 <= k < |list| && HasValue(meta, s[list[k]]) && s[list[k]].id == iv.inst
  {
    var sc0 := Scan(entries, Zeros(|list|), map[]);
    var sc := ScanBlock(s, list, sc0).value;
    ScanLastUses(s, list, sc0);
    var k :| 0 <= k < |list| && Collects(meta, s, list[k], sc.useEnd, true) && iv == IntervalAt(s, list[k], sc.useEnd);
  }

  /** Conversely, a value-producing instruction with a user of non-zero id has an interval. */
  lemma UsedValueCollected(meta: MetaTable, s: seq<Inst>, list: seq<nat>, entries: seq<Entry>, k: nat, j: nat)
    requires CollectReady(meta, s, list, |entries|) && CollectBlock(meta, s, list, entries).Some?
    requires k < |list| && HasValue(meta, s[list[k]]) && j < |list| && Uses(s, list[j], s[list[k]].id, true, true)
    requires s[list[j]].id != 0
    ensures IntervalAt(s, list[k], ScanBlock(s, list, Scan(entries, Zeros(|list|), map[])).value.useEnd)
      in CollectBlock(meta, s, list, entries).value.intervals
  {
    var sc0 := Scan(entries, Zeros(|list|), map[]);
    ScanLastUses(s, list, sc0);
  }

  // ---------------------------------------------------------------- virtual-register mode

  /** What the virtual-register collection reads of list instruction `h`. */
  predicate VReady(s: seq<Inst>, h: nat, n: nat)
  {
    h < |s| && forall k :: 0 <= k < |ArgsValues(s[h].args)| ==> CreditReady(s, ArgsValues(s[h].args)[k], n, false)
  }

  /** The first loop of `VRegisterAllocator::CollectLiveIntervals`: every instruction's values, no cast looked through. */
  function CreditAll(s: seq<Inst>, list: seq<nat>, ue: seq<nat>): (r: seq<nat>)
    requires VListReady(s, list, |ue|)
    ensures |r| == |ue|
    decreases |list|
  {
    if list == [] then ue
    else
      var h := list[|list| - 1];
      assert VReady(s, list[|list| - 1], |ue|);
      assert forall k :: 0 <= k < |list| - 1 ==> list[..|list| - 1][k] == list[k];
      Credit(s, CreditAll(s, list[..|list| - 1], ue), ArgsValues(s[h].args), s[h].id, false)
  }

  lemma {:induction false} CreditAllLastUses(s: seq<Inst>, list: seq<nat>, ue: seq<nat>)
    requires VListReady(s, list, |ue|) && Zero(ue)
    ensures LastUses(s, list, CreditAll(s, list, ue), false, false)
    decreases |list|
  {
    if list == [] {
      LastUsesEmpty(s, ue, false, false);
    } else {
      var init := list[..|list| - 1];
      var h := list[|list| - 1];
      assert list == init + [h];
      CreditAllLastUses(s, init, ue);
      LastUsesSnoc(s, init, h, CreditAll(s, init, ue), CreditAll(s, list, ue), false, false, true);
    }
  }

  ghost predicate VListReady(s: seq<Inst>, list: seq<nat>, n: nat)
  {
    forall k :: 0 <= k < |list| ==> VReady(s, list[k], n)
  }

  lemma VReadyPrefix(s: seq<Inst>, list: seq<nat>, i: nat, n: nat)
    requires VListReady(s, list, n) && i < |list|
    ensures VListReady(s, list[..i], n) && VListReady(s, list[..i + 1], n) && VReady(s, list[i], n)
    ensures list[..i + 1][..i] == list[..i] && list[..i + 1][i] == list[i]
  {
    assert forall k :: 0 <= k < i + 1 ==> list[..i + 1][k] == list[k];
  }

  ghost predicate VCollectReady(meta: MetaTable, s: seq<Inst>, list: seq<nat>)
  {
    VListReady(s, list, |list|) && Indexed(meta, s, list, |list|)
  }

  /** The virtual-register intervals: every value-producing instruction, used or not. */
  function VCollect(meta: MetaTable, s: seq<Inst>, list: seq<nat>): (r: seq<LiveInterval>)
    requires VCollectReady(meta, s, list)
  {
    Intervals(meta, s, list, CreditAll(s, list, Zeros(|list|)), false)
  }

  /**
   * Each virtual-register interval starts at its value's id and ends at
   * its last reader's id, or 0 when nothing reads it; every
   * value-producing instruction has one.
   */
  lemma VIntervalsSpan(meta: MetaTable, s: seq<Inst>, list: seq<nat>, iv: LiveInterval)
    requires VCollectReady(meta, s, list) && iv in VCollect(meta, s, list)
    ensures iv.start == iv.inst
    ensures forall k :: 0 <= k < |list| && Uses(s, list[k], iv.inst, false, false) ==> iv.end >= s[list[k]].id
    ensures iv.end == 0 || exists k :: 0 <= k < |list| && Uses(s, list[k], iv.inst, false, false) && iv.end == s[list[k]].id
  {
    var ue := CreditAll(s, list, Zeros(|list|));
    CreditAllLastUses(s, list, Zeros(|list|));
    var k :| 0 <= k < |list| && Collects(meta, s, list[k], ue, false) && iv == IntervalAt(s, list[k], ue);
  }

  lemma VEveryValueCollected(meta: MetaTable, s: seq<Inst>, list: seq<nat>, k: nat)
    requires VCollectReady(meta, s, list) && k < |list| && HasValue(meta, s[list[k]])
    ensures IntervalAt(s, list[k], CreditAll(s, list, Zeros(|list|))) in VCollect(meta, s, list)
  {
  }

  // ---------------------------------------------------------------- function mode

  /** `end`: the larger of the order id and every user's id. */
  function UsesEnd(s: seq<Inst>, orderId: nat, uses: seq<HIRUse>): (r: nat)
    requires forall k :: 0 <= k < |uses| ==> uses[k].inst < |s|
    ensures r >= orderId && forall k :: 0 <= k < |uses| ==> r >= s[uses[k].inst].id
    ensures r == orderId || exists k :: 0 <= k < |uses| && r == s[uses[k].inst].id
    decreases |uses|
  {
    if uses == [] then orderId
    else
      var init := uses[..|uses| - 1];
      var r0 := UsesEnd(s, orderId, init);
      assert forall k :: 0 <= k < |init| ==> init[k] == uses[k];
      Max(r0, s[uses[|uses| - 1].inst].id)
  }

  /** A value that gets an interval: neither a host-register read nor a bit cast. */
  predicate Spans(i: Inst)
    requires Tagged(i)
  {
    !IsGetHostRegOperation(i) && !IsBitCastOperation(i)
  }

  /** What the function-mode loop reads of a value, with `m` entries in the allocation result. */
  predicate ValueReady(s: seq<Inst>, hv: HIRValue, m: nat)
  {
    && hv.def < |s| && Tagged(s[hv.def])
    && (forall k :: 0 <= k < |hv.uses| ==> hv.uses[k].inst < |s|)
    && (if IsGetHostRegOperation(s[hv.def]) then s[hv.def].args[0].AImm? && hv.orderId < m
        else if IsBitCastOperation(s[hv.def]) then SourceDefined(s, s[hv.def]) && s[hv.def].id < m
        else s[hv.def].id < m && (IsPseudoOperation(s[hv.def].op) ==> SourceDefined(s, s[hv.def])))
  }

  /** The interval of a value: from its order id (a pseudo operation's: its argument's id) to `UsesEnd`. */
  function ValueInterval(s: seq<Inst>, hv: HIRValue): (r: LiveInterval)
    requires hv.def < |s| && forall k :: 0 <= k < |hv.uses| ==> hv.uses[k].inst < |s|
    requires IsPseudoOperation(s[hv.def].op) ==> SourceDefined(s, s[hv.def])
  {
    var i := s[hv.def];
    var start := if IsPseudoOperation(i.op) then IdOf(s, i.args[0].value) else hv.orderId;
    LiveInterval(i.id, start, UsesEnd(s, hv.orderId, hv.uses), IsFloat(i))
  }

  /** One value of the function-mode loop. */
  function CollectValue(s: seq<Inst>, c: Collected, hv: HIRValue): (r: Collected)
    requires ValueReady(s, hv, |c.entries|)
    ensures |r.entries| == |c.entries|
  {
    var i := s[hv.def];
    if IsGetHostRegOperation(i) then
      c.(entries := Pin(c.entries, hv.orderId, i.op == GetHostFPR, HostIndex(i.args[0].imm)))
    else if IsBitCastOperation(i) then
      c.(entries := Refer(c.entries, IdOf(s, i.args[0].value), i.id))
    else
      c.(intervals := c.intervals + [ValueInterval(s, hv)])
  }

  /** `CollectLiveIntervals(HIRFunction*)`, over the function's values in order. */
  function CollectValues(s: seq<Inst>, values: seq<HIRValue>, c: Collected): (r: Collected)
    requires forall k :: 0 <= k < |values| ==> ValueReady(s, values[k], |c.entries|)
    ensures |r.entries| == |c.entries|
    ensures Known(c.entries, c.intervals) ==> Known(r.entries, r.intervals)
    decreases |values|
  {
    if values == [] then c
    else CollectValue(s, CollectValues(s, values[..|values| - 1], c), values[|values| - 1])
  }

  /** One value adds its interval exactly when it spans. */
  lemma CollectValueStep(s: seq<Inst>, c: Collected, hv: HIRValue, iv: LiveInterval)
    requires ValueReady(s, hv, |c.entries|)
    ensures iv in CollectValue(s, c, hv).intervals <==> iv in c.intervals || (Spans(s[hv.def]) && iv == ValueInterval(s, hv))
  {
  }

  /** Some value of `values` spans and has interval `iv`. */
  ghost predicate Spanned(s: seq<Inst>, values: seq<HIRValue>, iv: LiveInterval, m: nat)
  {
    exists k :: 0 <= k < |values| && ValueReady(s, values[k], m) && Spans(s[values[k].def]) && iv == ValueInterval(s, values[k])
  }

  lemma SpannedSnoc(s: seq<Inst>, values: seq<HIRValue>, hv: HIRValue, iv: LiveInterval, m: nat)
    requires ValueReady(s, hv, m)
    ensures Spanned(s, values + [hv], iv, m) <==> Spanned(s, values, iv, m) || (Spans(s[hv.def]) && iv == ValueInterval(s, hv))
  {
    var w := values + [hv];
    if Spanned(s, values, iv, m) {
      var k :| 0 <= k < |values| && ValueReady(s, values[k], m) && Spans(s[values[k].def]) && iv == ValueInterval(s, values[k]);
      assert w[k] == values[k];
    }
    if Spans(s[hv.def]) && iv == ValueInterval(s, hv) {
      assert w[|values|] == hv;
    }
    if Spanned(s, w, iv, m) {
      var k :| 0 <= k < |w| && ValueReady(s, w[k], m) && Spans(s[w[k].def]) && iv == ValueInterval(s, w[k]);
      if k < |values| {
        assert w[k] == values[k];
      }
    }
  }

  /**
   * The function-mode intervals are exactly those of the values that are
   * neither host-register reads nor bit casts, appended after what was
   * there.
   */
  lemma {:induction false} FunctionIntervals(s: seq<Inst>, values: seq<HIRValue>, c: Collected, iv: LiveInterval)
    requires forall k :: 0 <= k < |values| ==> ValueReady(s, values[k], |c.entries|)
    ensures iv in CollectValues(s, values, c).intervals <==> iv in c.intervals || Spanned(s, values, iv, |c.entries|)
    decreases |values|
  {
    if values != [] {
      var init := values[..|values| - 1];
      var hv := values[|values| - 1];
      assert forall k :: 0 <= k < |init| ==> init[k] == values[k];
      FunctionIntervals(s, init, c, iv);
      SplitLastIndex(values);
      FunctionIntervalsStep(s, init, hv, values, c, iv);
    }
  }

  lemma FunctionIntervalsStep(s: seq<Inst>, init: seq<HIRValue>, hv: HIRValue, values: seq<HIRValue>, c: Collected, iv: LiveInterval)
    requires values == init + [hv] && init == values[..|values| - 1]
    requires forall k :: 0 <= k < |values| ==> ValueReady(s, values[k], |c.entries|)
    requires forall k :: 0 <= k < |init| ==> ValueReady(s, init[k], |c.entries|)
    requires iv in CollectValues(s, init, c).intervals <==> iv in c.intervals || Spanned(s, init, iv, |c.entries|)
    ensures iv in CollectValues(s, values, c).intervals <==> iv in c.intervals || Spanned(s, values, iv, |c.entries|)
  {
    assert values[|values| - 1] == hv;
    CollectValueStep(s, CollectValues(s, init, c), hv, iv);
    SpannedSnoc(s, init, hv, iv, |c.entries|);
  }
}
