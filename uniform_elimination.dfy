/**
 * Uniform elimination over one block.  A LoadUniform or StoreUniform whose
 * offset lies in a uniform held in a host register becomes a
 * GetHostGPR/GetHostFPR or SetHostGPR/SetHostFPR of that register.  Any
 * other StoreUniform records, byte by byte, which value and which byte of
 * it the uniform buffer now holds; a later LoadUniform whose bytes all come
 * from one stored value is replaced by a BitCast or BitExtract of that value.
 */
module UniformElimination {
  import opened Wrappers
  import opened IrArgs
  import opened IrInst
  import opened IrBlock
  import DeadCode

  // ---------------------------------------------------------------- the byte table

  /** `UniformValue`: the value last stored over a byte of the buffer, and which of its bytes this is. */
  datatype UniformValue = UniformValue(value: Value, offset: nat)

  /** A default-constructed entry: no value, byte 0. */
  const EmptyByte: UniformValue := UniformValue(NullValue, 0)

  /** `UniformValue::Null` as written: it holds for an entry that DOES hold a value. */
  predicate NullAsWritten(u: UniformValue)
  {
    Defined(u.value)
  }

  /** What `Null` is meant to say: the entry holds no value. */
  predicate IsNull(u: UniformValue)
  {
    !Defined(u.value)
  }

  /** The table at the start of the block: `uniform_size` empty entries. */
  function EmptyBuffer(n: nat): (r: seq<UniformValue>)
    ensures |r| == n && forall j :: 0 <= j < n ==> IsNull(r[j]) && !NullAsWritten(r[j])
  {
    seq(n, _ => EmptyByte)
  }

  /** `UniformRegister`: a uniform kept in a host register, with the register's GPR and FPR ids. */
  datatype UniformRegister = UniformRegister(uniform: Uniform, gpr: nat, fpr: nat)

  /** `UniformRegister::Null`: no register, told by a VOID uniform type. */
  predicate RegisterNull(r: UniformRegister)
  {
    r.uniform.ty == VOID
  }

  /**
   * `UniformInfo` and the helpers the pass calls on it: the buffer size,
   * the register map's `GetValueAt` (a register-null entry where no
   * register covers the offset), `GetValueSizeByte` and `IsFloatValueType`.
   */
  datatype Info = Info(uniformSize: nat, regs: nat -> UniformRegister, sizeOf: ValueType -> nat,
                       isFloat: ValueType -> bool)

  /** An access runs past the end of the register's uniform: the cross-uniform panic. */
  predicate Crosses(info: Info, u: Uniform, reg: UniformRegister)
  {
    u.offset + info.sizeOf(u.ty) > reg.uniform.offset + info.sizeOf(reg.uniform.ty)
  }

  // ---------------------------------------------------------------- what replaces an instruction

  /** The new opcode, the arguments handed to SetArgs, and SetReturn's type when it is called. */
  datatype Emission = Emission(op: OpCode, xs: seq<ArgInput>, ret: Option<ValueType>)

  /** All arguments are single-slot ones. */
  predicate AllPlain(xs: seq<ArgInput>)
  {
    forall j :: 0 <= j < |xs| ==> xs[j].Plain?
  }

  /** Single-slot arguments: the value v first, immediates after it. */
  predicate ValueFirst(e: Emission, v: Value)
  {
    && AllPlain(e.xs) && 0 < |e.xs| <= MaxArgs && !IsPseudoOperation(e.op)
    && e.xs[0].arg == AValue(v) && forall j :: 0 < j < |e.xs| ==> e.xs[j].arg.AImm?
  }

  /** Single-slot immediate arguments only. */
  predicate ImmsOnly(e: Emission)
  {
    AllPlain(e.xs) && |e.xs| <= MaxArgs && !IsPseudoOperation(e.op) && forall j :: 0 <= j < |e.xs| ==> e.xs[j].arg.AImm?
  }

  /** `HostRegIndex(id)`, as a 16-bit immediate (host register ids are u16). */
  function RegArg(id: nat): ArgInput
  {
    Plain(AImm(Imm(U16, id)))
  }

  /** `Imm{static_cast<u8>(uni_offset - reg_offset)}`: the offset inside the register, truncated to a byte. */
  function OffsetIn(uniOffset: nat, regOffset: nat): (r: nat)
    ensures r < 256
    ensures regOffset <= uniOffset < regOffset + 256 ==> r == uniOffset - regOffset
  {
    (uniOffset - regOffset) % 256
  }

  /** The register the rewrite names: the FPR for a float type, the GPR otherwise. */
  function RegisterId(info: Info, reg: UniformRegister, ty: ValueType): nat
  {
    if info.isFloat(ty) then reg.fpr else reg.gpr
  }

  /** `GetHostFPR/GetHostGPR(reg, offset_in).SetReturn(uni_type)`. */
  function HostLoad(info: Info, reg: UniformRegister, u: Uniform): (e: Emission)
    ensures ImmsOnly(e)
  {
    Emission(if info.isFloat(u.ty) then GetHostFPR else GetHostGPR,
             [RegArg(RegisterId(info, reg, u.ty)), Plain(AImm(Imm(U8, OffsetIn(u.offset, reg.uniform.offset))))],
             Some(u.ty))
  }

  /** `SetHostFPR/SetHostGPR(value, reg, offset_in)`; the return type is left as it was. */
  function HostStore(info: Info, reg: UniformRegister, u: Uniform, v: Value): (e: Emission)
    ensures ValueFirst(e, v)
  {
    Emission(if info.isFloat(u.ty) then SetHostFPR else SetHostGPR,
             [Plain(AValue(v)), RegArg(RegisterId(info, reg, u.ty)),
              Plain(AImm(Imm(U8, OffsetIn(u.offset, reg.uniform.offset))))],
             None)
  }

  /** A forwarded load: BitCast of the value from its byte 0, else BitExtract(bit offset, bit size). */
  function Forward(v: Value, k: nat, size: nat, ty: ValueType): (e: Emission)
    ensures ValueFirst(e, v)
  {
    if k == 0 then Emission(BitCast, [Plain(AValue(v))], Some(ty))
    else Emission(BitExtract, [Plain(AValue(v)), Plain(AImm(Imm(U32, k * 8))), Plain(AImm(Imm(U32, size * 8)))], Some(ty))
  }

  /**
   * `inst.Reset()` and then the emitter: the arguments are released, then
   * the new opcode is set, SetArgs fills the slots and SetReturn, when
   * called, sets the type.
   */
  function Emit(meta: MetaTable, s: seq<Inst>, h: nat, e: Emission): (r: Option<seq<Inst>>)
    requires h < |s| && |s[h].args| == MaxArgs
    ensures r.Some? ==> |r.value| == |s| && |r.value[h].args| == MaxArgs && r.value[h].op == e.op
    ensures r.Some? && e.ret.Some? ==> r.value[h].retType == e.ret.value
  {
    var s1 :- DeadCode.DestroyArgs(s, h);
    var s2 := s1[h := s1[h].(op := e.op)];
    var s3 :- SetArgsFrom(meta, s2, h, e.xs, 0);
    Some(if e.ret.Some? then s3[h := SetRet(s3[h], e.ret.value)] else s3)
  }

  lemma {:induction false} PlainWidth(xs: seq<ArgInput>)
    requires AllPlain(xs)
    ensures TotalWidth(xs) == |xs|
  {
    if xs != [] {
      PlainWidth(xs[1..]);
    }
  }

  /** An emission of single-slot arguments puts argument j in slot j. */
  lemma EmitPlaces(meta: MetaTable, s: seq<Inst>, h: nat, e: Emission)
    requires h < |s| && |s[h].args| == MaxArgs && AllPlain(e.xs) && Emit(meta, s, h, e).Some?
    ensures forall j :: 0 <= j < |e.xs| ==> j < MaxArgs && Emit(meta, s, h, e).value[h].args[j] == e.xs[j].arg
  {
    var s1 := DeadCode.DestroyArgs(s, h).value;
    var s2 := s1[h := s1[h].(op := e.op)];
    var s3 := SetArgsFrom(meta, s2, h, e.xs, 0).value;
    PlainWidth(e.xs);
    forall j | 0 <= j < |e.xs| ensures j < MaxArgs && s3[h].args[j] == e.xs[j].arg {
      SetArgsPlaces(meta, s2, h, e.xs, 0, j);
      PlainWidth(e.xs[..j]);
    }
  }

  /**
   * The emission succeeds whenever releasing the old arguments does and
   * every value it passes is defined in the arena.
   */
  lemma EmitSucceeds(meta: MetaTable, s: seq<Inst>, h: nat, e: Emission)
    requires h < |s| && |s[h].args| == MaxArgs && DeadCode.DestroyArgs(s, h).Some?
    requires AllPlain(e.xs) && |e.xs| <= MaxArgs && !IsPseudoOperation(e.op)
    requires forall j :: 0 <= j < |e.xs| ==> AllDefined(s, ArgValues(e.xs[j].arg))
    ensures Emit(meta, s, h, e).Some?
  {
    var s1 := DeadCode.DestroyArgs(s, h).value;
    var s2 := s1[h := s1[h].(op := e.op)];
    PlainWidth(e.xs);
    assert InputsDefined(s2, e.xs) by {
      forall j | 0 <= j < |e.xs| ensures AllDefined(s2, InputValues(e.xs[j])) {
        assert InputValues(e.xs[j]) == ArgValues(e.xs[j].arg);
      }
    }
    SetArgsSucceeds(meta, s2, h, e.xs, 0);
  }

  // ---------------------------------------------------------------- stores and the byte scan

  /** The non-register StoreUniform: byte o + i of the buffer now holds byte i of v, for each i < size. */
  function Written(buf: seq<UniformValue>, o: nat, v: Value, size: nat): (r: seq<UniformValue>)
    requires o + size <= |buf|
    ensures |r| == |buf|
  {
    seq(|buf|, j requires 0 <= j < |buf| => if o <= j < o + size then UniformValue(v, j - o) else buf[j])
  }

  /** Bytes o .. o + n - 1 hold bytes k .. k + n - 1 of one defined value (equal to v as a Value). */
  ghost predicate Holds(buf: seq<UniformValue>, o: nat, n: nat, v: Value, k: nat)
  {
    && o + n <= |buf|
    && forall j :: o <= j < o + n ==> Defined(buf[j].value) && ValueEq(buf[j].value, v) && buf[j].offset == k + (j - o)
  }

  /**
   * The byte scan of LoadUniform as written, from byte i on, with the
   * running `value_load` and `value_offset`.  A byte past the end of the
   * buffer is None.
   */
  function ScanAsWritten(buf: seq<UniformValue>, o: nat, size: nat, i: nat, load: Value, voff: nat): Option<(Value, nat)>
    requires i <= size
    decreases size - i
  {
    if i == size then Some((load, voff))
    else if o + i >= |buf| then None
    else
      var u := buf[o + i];
      if NullAsWritten(u) then Some((NullValue, voff))
      else if !ValueEq(load, u.value) then Some((NullValue, voff))
      else ScanAsWritten(buf, o, size, i + 1, u.value, if i == 0 then u.offset else voff)
  }

  /**
   * The scan as intended: every byte holds a value, the same one as byte
   * 0, and the bytes of that value follow each other.
   */
  function Scan(buf: seq<UniformValue>, o: nat, size: nat, i: nat, load: Value, voff: nat): Option<(Value, nat)>
    requires i <= size
    decreases size - i
  {
    if i == size then Some((load, voff))
    else if o + i >= |buf| then None
    else
      var u := buf[o + i];
      if IsNull(u) then Some((NullValue, voff))
      else if i > 0 && (!ValueEq(load, u.value) || u.offset != voff + i) then Some((NullValue, voff))
      else Scan(buf, o, size, i + 1, u.value, if i == 0 then u.offset else voff)
  }

  /** The scan a LoadUniform runs: as written, or as intended. */
  function LoadScan(fixed: bool, buf: seq<UniformValue>, o: nat, size: nat): Option<(Value, nat)>
  {
    if fixed then Scan(buf, o, size, 0, NullValue, 0) else ScanAsWritten(buf, o, size, 0, NullValue, 0)
  }

  /** As written the scan never ends with a defined value: a held byte stops it, an empty one keeps it null. */
  lemma {:induction false} ScanAsWrittenNeverDefined(buf: seq<UniformValue>, o: nat, size: nat, i: nat, load: Value, voff: nat)
    requires i <= size && !Defined(load)
    ensures var r := ScanAsWritten(buf, o, size, i, load, voff); r.Some? ==> !Defined(r.value.0)
    decreases size - i
  {
    if i < size && o + i < |buf| {
      var u := buf[o + i];
      if !NullAsWritten(u) && ValueEq(load, u.value) {
        ScanAsWrittenNeverDefined(buf, o, size, i + 1, u.value, if i == 0 then u.offset else voff);
      }
    }
  }

  /**
   * The scan with only `Null` corrected: byte 0 is still compared with the
   * empty `value_load`, which no held byte equals.
   */
  function ScanNullFixedOnly(buf: seq<UniformValue>, o: nat, size: nat, i: nat, load: Value, voff: nat): Option<(Value, nat)>
    requires i <= size
    decreases size - i
  {
    if i == size then Some((load, voff))
    else if o + i >= |buf| then None
    else
      var u := buf[o + i];
      if IsNull(u) then Some((NullValue, voff))
      else if !ValueEq(load, u.value) then Some((NullValue, voff))
      else ScanNullFixedOnly(buf, o, size, i + 1, u.value, if i == 0 then u.offset else voff)
  }

  /** The byte-0 comparison alone already stops every forward: correcting `Null` is not enough. */
  lemma {:induction false} ScanNullFixedOnlyNeverDefined(buf: seq<UniformValue>, o: nat, size: nat, i: nat, load: Value,
                                                         voff: nat)
    requires i <= size && !Defined(load)
    ensures var r := ScanNullFixedOnly(buf, o, size, i, load, voff); r.Some? ==> !Defined(r.value.0)
    decreases size - i
  {
    if i < size && o + i < |buf| {
      var u := buf[o + i];
      if !IsNull(u) && ValueEq(load, u.value) {
        assert false;
      }
    }
  }

  /**
   * The scan with both source slips corrected but without the check that
   * byte i holds byte `value_offset + i` of the value.
   */
  function ScanUnordered(buf: seq<UniformValue>, o: nat, size: nat, i: nat, load: Value, voff: nat): Option<(Value, nat)>
    requires i <= size
    decreases size - i
  {
    if i == size then Some((load, voff))
    else if o + i >= |buf| then None
    else
      var u := buf[o + i];
      if IsNull(u) then Some((NullValue, voff))
      else if i > 0 && !ValueEq(load, u.value) then Some((NullValue, voff))
      else ScanUnordered(buf, o, size, i + 1, u.value, if i == 0 then u.offset else voff)
  }

  /**
   * Two overlapping stores of one value leave its bytes out of order: after
   * storing 4 bytes of v at o and again at o + 2, bytes o + 1 and o + 2
   * hold bytes 1 and 0 of v.
   */
  lemma OverlappingStoresSwapBytes(buf: seq<UniformValue>, o: nat, v: Value)
    requires o + 6 <= |buf|
    ensures var w := Written(Written(buf, o, v, 4), o + 2, v, 4);
      w[o + 1] == UniformValue(v, 1) && w[o + 2] == UniformValue(v, 0)
  {
    var w1 := Written(buf, o, v, 4);
    assert w1[o + 1] == UniformValue(v, 1);
  }

  /**
   * On bytes that hold bytes 1 and 0 of v, the scan without the order check
   * forwards v from byte 1, which is not what the buffer holds; the
   * intended scan declines.
   */
  lemma ScanUnorderedForwardsSwappedBytes(buf: seq<UniformValue>, o: nat, v: Value)
    requires o + 2 <= |buf| && Defined(v)
    requires buf[o] == UniformValue(v, 1) && buf[o + 1] == UniformValue(v, 0)
    ensures ScanUnordered(buf, o, 2, 0, NullValue, 0) == Some((v, 1))
    ensures !Holds(buf, o, 2, v, 1)
    ensures !Defined(Scan(buf, o, 2, 0, NullValue, 0).value.0)
  {
    assert ScanUnordered(buf, o, 2, 1, v, 1) == ScanUnordered(buf, o, 2, 2, v, 1);
    assert buf[o + 1].offset != 1 + (o + 1 - o);
  }

  /** What the intended scan forwards is right: its bytes are the value's, from the returned byte on. */
  lemma {:induction false} ScanSound(buf: seq<UniformValue>, o: nat, size: nat, i: nat, load: Value, voff: nat)
    requires i <= size
    requires i > 0 ==> Defined(load) && Holds(buf, o, i, load, voff)
    ensures var r := Scan(buf, o, size, i, load, voff);
      r.Some? && Defined(r.value.0) && size > 0 ==> Holds(buf, o, size, r.value.0, r.value.1)
    decreases size - i
  {
    if i < size && o + i < |buf| {
      var u := buf[o + i];
      if !IsNull(u) && !(i > 0 && (!ValueEq(load, u.value) || u.offset != voff + i)) {
        var voff' := if i == 0 then u.offset else voff;
        assert Holds(buf, o, i + 1, u.value, voff');
        ScanSound(buf, o, size, i + 1, u.value, voff');
      }
    }
  }

  /** And it forwards whenever the bytes do come from one value in order. */
  lemma {:induction false} ScanComplete(buf: seq<UniformValue>, o: nat, size: nat, i: nat, load: Value, voff: nat,
                                        v: Value, k: nat)
    requires i <= size && 0 < size && Defined(v) && Holds(buf, o, size, v, k)
    requires i > 0 ==> ValueEq(load, v) && voff == k
    ensures var r := Scan(buf, o, size, i, load, voff);
      r.Some? && Defined(r.value.0) && ValueEq(r.value.0, v) && r.value.1 == k
    decreases size - i
  {
    if i < size {
      var u := buf[o + i];
      assert Defined(u.value) && ValueEq(u.value, v) && u.offset == k + i;
      ScanComplete(buf, o, size, i + 1, u.value, if i == 0 then u.offset else voff, v, k);
    }
  }

  /** The intended scan forwards exactly when the loaded bytes are consecutive bytes of one stored value. */
  lemma ScanIff(buf: seq<UniformValue>, o: nat, size: nat)
    requires 0 < size
    ensures var r := Scan(buf, o, size, 0, NullValue, 0);
      (r.Some? && Defined(r.value.0) ==> Holds(buf, o, size, r.value.0, r.value.1))
    ensures forall v, k :: Defined(v) && Holds(buf, o, size, v, k) ==>
      var r := Scan(buf, o, size, 0, NullValue, 0);
      r.Some? && Defined(r.value.0) && ValueEq(r.value.0, v) && r.value.1 == k
  {
    ScanSound(buf, o, size, 0, NullValue, 0);
    forall v, k | Defined(v) && Holds(buf, o, size, v, k)
      ensures var r := Scan(buf, o, size, 0, NullValue, 0);
        r.Some? && Defined(r.value.0) && ValueEq(r.value.0, v) && r.value.1 == k
    {
      ScanComplete(buf, o, size, 0, NullValue, 0, v, k);
    }
  }

  /**
   * A store followed by a load inside it: the load reads bytes d .. d + m - 1
   * of the stored value.
   */
  lemma StoreThenLoadInside(buf: seq<UniformValue>, o: nat, v: Value, n: nat, d: nat, m: nat)
    requires o + n <= |buf| && Defined(v) && 0 < m && d + m <= n
    ensures var r := Scan(Written(buf, o, v, n), o + d, m, 0, NullValue, 0);
      r.Some? && ValueEq(r.value.0, v) && Defined(r.value.0) && r.value.1 == d
  {
    var w := Written(buf, o, v, n);
    assert Holds(w, o + d, m, v, d) by {
      forall j | o + d <= j < o + d + m ensures w[j] == UniformValue(v, j - o) { }
    }
    ScanComplete(w, o + d, m, 0, NullValue, 0, v, d);
  }

  // ---------------------------------------------------------------- one instruction

  /** What the pass works on: the instruction arena and the byte table. */
  datatype UState = UState(s: seq<Inst>, buf: seq<UniformValue>)

  /**
   * The switch of `UniformEliminationPass::Run(Block*)` on instruction h.
   * `fixed` chooses the intended byte scan over the one as written.  None
   * stands for the cross-uniform panic, for an argument of another kind (the
   * failing `GetArg`), for a byte past the end of the table, and for a failure
   * of the rewrite.
   */
  function Visit(meta: MetaTable, info: Info, fixed: bool, st: UState, h: nat): (r: Option<UState>)
    requires h < |st.s|
    ensures r.Some? ==> |r.value.s| == |st.s| && |r.value.buf| == |st.buf|
  {
    var i := st.s[h];
    match i.op
    case LoadUniform =>
      if |i.args| != MaxArgs || !i.args[0].AUniform? then None
      else VisitLoad(meta, info, fixed, st, h, i.args[0].uniform)
    case StoreUniform =>
      if |i.args| != MaxArgs || !i.args[0].AUniform? || !i.args[1].AValue? then None
      else VisitStore(meta, info, st, h, i.args[0].uniform, i.args[1].value)
    case _ => Some(st)
  }

  /** The LoadUniform case, for uniform u. */
  function VisitLoad(meta: MetaTable, info: Info, fixed: bool, st: UState, h: nat, u: Uniform): (r: Option<UState>)
    requires h < |st.s| && |st.s[h].args| == MaxArgs
    ensures r.Some? ==> |r.value.s| == |st.s| && r.value.buf == st.buf
  {
    var reg := info.regs(u.offset);
    if !RegisterNull(reg) then
      if Crosses(info, u, reg) then None
      else Rewrite(meta, st, h, HostLoad(info, reg, u))
    else
      var p :- LoadScan(fixed, st.buf, u.offset, info.sizeOf(u.ty));
      if !Defined(p.0) then Some(st)
      else Rewrite(meta, st, h, Forward(p.0, p.1, info.sizeOf(u.ty), u.ty))
  }

  /** The StoreUniform case, for uniform u and stored value v. */
  function VisitStore(meta: MetaTable, info: Info, st: UState, h: nat, u: Uniform, v: Value): (r: Option<UState>)
    requires h < |st.s| && |st.s[h].args| == MaxArgs
    ensures r.Some? ==> |r.value.s| == |st.s| && |r.value.buf| == |st.buf|
  {
    var reg := info.regs(u.offset);
    if !RegisterNull(reg) then
      if Crosses(info, u, reg) then None
      else Rewrite(meta, st, h, HostStore(info, reg, u, v))
    else if u.offset + info.sizeOf(u.ty) > |st.buf| then None
    else Some(st.(buf := Written(st.buf, u.offset, v, info.sizeOf(u.ty))))
  }

  /** Instruction h rewritten by the emission; the byte table is untouched. */
  function Rewrite(meta: MetaTable, st: UState, h: nat, e: Emission): (r: Option<UState>)
    requires h < |st.s| && |st.s[h].args| == MaxArgs
    ensures r.Some? ==> |r.value.s| == |st.s| && r.value.buf == st.buf
  {
    var s1 :- Emit(meta, st.s, h, e);
    Some(st.(s := s1))
  }

  /** Instruction h of `s` is what the emission describes: its opcode, argument j in slot j, its return type. */
  ghost predicate Emitted(s: seq<Inst>, h: nat, e: Emission)
  {
    && h < |s| && |s[h].args| == MaxArgs && s[h].op == e.op
    && (forall j :: 0 <= j < |e.xs| && j < MaxArgs ==> e.xs[j].Plain? && s[h].args[j] == e.xs[j].arg)
    && (e.ret.Some? ==> s[h].retType == e.ret.value)
  }

  /**
   * A rewrite with single-slot arguments whose values are defined succeeds
   * when the old arguments can be released, and leaves instruction h as
   * the emission describes.
   */
  lemma RewritePlain(meta: MetaTable, st: UState, h: nat, e: Emission)
    requires h < |st.s| && |st.s[h].args| == MaxArgs && DeadCode.DestroyArgs(st.s, h).Some?
    requires AllPlain(e.xs) && |e.xs| <= MaxArgs && !IsPseudoOperation(e.op)
    requires forall j :: 0 <= j < |e.xs| ==> AllDefined(st.s, ArgValues(e.xs[j].arg))
    ensures var r := Rewrite(meta, st, h, e); r.Some? && r.value.buf == st.buf && Emitted(r.value.s, h, e)
  {
    EmitSucceeds(meta, st.s, h, e);
    EmitPlaces(meta, st.s, h, e);
  }

  /** The parts of instruction h a LoadUniform or StoreUniform reads. */
  predicate UniformAt(st: UState, h: nat)
  {
    h < |st.s| && |st.s[h].args| == MaxArgs && st.s[h].args[0].AUniform?
  }

  /** An access that runs past its register's uniform panics, load or store. */
  lemma VisitCrossPanics(meta: MetaTable, info: Info, fixed: bool, st: UState, h: nat)
    requires UniformAt(st, h) && (st.s[h].op == LoadUniform || (st.s[h].op == StoreUniform && st.s[h].args[1].AValue?))
    requires var u := st.s[h].args[0].uniform; !RegisterNull(info.regs(u.offset)) && Crosses(info, u, info.regs(u.offset))
    ensures Visit(meta, info, fixed, st, h).None?
  {
  }

  /** The register branch of Visit: the instruction is rewritten by the load or store emission. */
  lemma VisitHostIsRewrite(meta: MetaTable, info: Info, fixed: bool, st: UState, h: nat)
    requires UniformAt(st, h) && (st.s[h].op == LoadUniform || (st.s[h].op == StoreUniform && st.s[h].args[1].AValue?))
    requires var u := st.s[h].args[0].uniform; !RegisterNull(info.regs(u.offset)) && !Crosses(info, u, info.regs(u.offset))
    ensures var u := st.s[h].args[0].uniform;
      Visit(meta, info, fixed, st, h) ==
        if st.s[h].op == LoadUniform then Rewrite(meta, st, h, HostLoad(info, info.regs(u.offset), u))
        else Rewrite(meta, st, h, HostStore(info, info.regs(u.offset), u, st.s[h].args[1].value))
  {
  }

  /**
   * The register rewrites: GetHostFPR/SetHostFPR exactly for a float type,
   * naming that register's FPR (else its GPR) and the offset inside the
   * register; the load is typed as the uniform, the store passes the value first.
   */
  lemma HostEmissions(info: Info, reg: UniformRegister, u: Uniform, v: Value)
    requires reg.uniform.offset <= u.offset < reg.uniform.offset + 256
    ensures var e := HostLoad(info, reg, u);
      && (e.op == GetHostFPR <==> info.isFloat(u.ty)) && (e.op == GetHostGPR <==> !info.isFloat(u.ty))
      && e.xs == [RegArg(if info.isFloat(u.ty) then reg.fpr else reg.gpr), Plain(AImm(Imm(U8, u.offset - reg.uniform.offset)))]
      && e.ret == Some(u.ty)
    ensures var e := HostStore(info, reg, u, v);
      && (e.op == SetHostFPR <==> info.isFloat(u.ty)) && (e.op == SetHostGPR <==> !info.isFloat(u.ty))
      && e.xs == [Plain(AValue(v)), RegArg(if info.isFloat(u.ty) then reg.fpr else reg.gpr),
                  Plain(AImm(Imm(U8, u.offset - reg.uniform.offset)))]
  {
  }

  /**
   * A LoadUniform inside a register's uniform is rewritten into the
   * GetHost emission of that register; the byte table is untouched.
   */
  lemma VisitHostLoad(meta: MetaTable, info: Info, fixed: bool, st: UState, h: nat)
    requires UniformAt(st, h) && st.s[h].op == LoadUniform
    requires var u := st.s[h].args[0].uniform; !RegisterNull(info.regs(u.offset)) && !Crosses(info, u, info.regs(u.offset))
    requires DeadCode.DestroyArgs(st.s, h).Some?
    ensures var r := Visit(meta, info, fixed, st, h);
      var u := st.s[h].args[0].uniform;
      r.Some? && r.value.buf == st.buf && Emitted(r.value.s, h, HostLoad(info, info.regs(u.offset), u))
  {
    var u := st.s[h].args[0].uniform;
    VisitHostIsRewrite(meta, info, fixed, st, h);
    RewriteImms(meta, st, h, HostLoad(info, info.regs(u.offset), u));
  }

  /** RewritePlain for an emission of immediates only. */
  lemma RewriteImms(meta: MetaTable, st: UState, h: nat, e: Emission)
    requires h < |st.s| && |st.s[h].args| == MaxArgs && DeadCode.DestroyArgs(st.s, h).Some? && ImmsOnly(e)
    ensures var r := Rewrite(meta, st, h, e); r.Some? && r.value.buf == st.buf && Emitted(r.value.s, h, e)
  {
    RewritePlain(meta, st, h, e);
  }

  /**
   * A StoreUniform inside a register's uniform is rewritten into the
   * SetHost emission of the stored value into that register; the byte
   * table is untouched.
   */
  lemma VisitHostStore(meta: MetaTable, info: Info, fixed: bool, st: UState, h: nat)
    requires UniformAt(st, h) && st.s[h].op == StoreUniform && st.s[h].args[1].AValue?
    requires var u := st.s[h].args[0].uniform; !RegisterNull(info.regs(u.offset)) && !Crosses(info, u, info.regs(u.offset))
    requires DeadCode.DestroyArgs(st.s, h).Some? && 0 <= st.s[h].args[1].value.def < |st.s|
    ensures var r := Visit(meta, info, fixed, st, h);
      var u := st.s[h].args[0].uniform;
      r.Some? && r.value.buf == st.buf && Emitted(r.value.s, h, HostStore(info, info.regs(u.offset), u, st.s[h].args[1].value))
  {
    var u := st.s[h].args[0].uniform;
    VisitHostIsRewrite(meta, info, fixed, st, h);
    RewriteWithValue(meta, st, h, HostStore(info, info.regs(u.offset), u, st.s[h].args[1].value), st.s[h].args[1].value);
  }

  /** RewritePlain for an emission whose only value is v, in slot 0. */
  lemma RewriteWithValue(meta: MetaTable, st: UState, h: nat, e: Emission, v: Value)
    requires h < |st.s| && |st.s[h].args| == MaxArgs && DeadCode.DestroyArgs(st.s, h).Some? && 0 <= v.def < |st.s|
    requires ValueFirst(e, v)
    ensures var r := Rewrite(meta, st, h, e); r.Some? && r.value.buf == st.buf && Emitted(r.value.s, h, e)
  {
    assert ArgValues(e.xs[0].arg) == [v];
    RewritePlain(meta, st, h, e);
  }

  /** Any other StoreUniform writes byte i of the value into byte o + i of the table, and nothing else. */
  lemma VisitStoreBytes(meta: MetaTable, info: Info, fixed: bool, st: UState, h: nat)
    requires UniformAt(st, h) && st.s[h].op == StoreUniform && st.s[h].args[1].AValue?
    requires var u := st.s[h].args[0].uniform; RegisterNull(info.regs(u.offset))
    ensures var r := Visit(meta, info, fixed, st, h);
      var u := st.s[h].args[0].uniform;
      var n := info.sizeOf(u.ty);
      && (r.Some? <==> u.offset + n <= |st.buf|)
      && (r.Some? ==> r.value.s == st.s)
      && (r.Some? ==> forall j :: u.offset <= j < u.offset + n ==> r.value.buf[j] == UniformValue(st.s[h].args[1].value, j - u.offset))
      && (r.Some? ==> forall j :: 0 <= j < |st.buf| && !(u.offset <= j < u.offset + n) ==> r.value.buf[j] == st.buf[j])
  {
  }

  /** As written, a LoadUniform outside every register is never rewritten. */
  lemma VisitLoadAsWrittenKeeps(meta: MetaTable, info: Info, st: UState, h: nat)
    requires UniformAt(st, h) && st.s[h].op == LoadUniform
    requires RegisterNull(info.regs(st.s[h].args[0].uniform.offset))
    ensures var r := Visit(meta, info, false, st, h); r.Some? ==> r.value == st
  {
    var u := st.s[h].args[0].uniform;
    ScanAsWrittenNeverDefined(st.buf, u.offset, info.sizeOf(u.ty), 0, NullValue, 0);
  }

  /** The non-register load branch of Visit once the scan has found a defined value. */
  lemma VisitLoadIsRewrite(meta: MetaTable, info: Info, st: UState, h: nat, p: (Value, nat))
    requires UniformAt(st, h) && st.s[h].op == LoadUniform
    requires var u := st.s[h].args[0].uniform;
      RegisterNull(info.regs(u.offset)) && LoadScan(true, st.buf, u.offset, info.sizeOf(u.ty)) == Some(p)
    requires Defined(p.0)
    ensures var u := st.s[h].args[0].uniform;
      Visit(meta, info, true, st, h) == Rewrite(meta, st, h, Forward(p.0, p.1, info.sizeOf(u.ty), u.ty))
  {
  }

  /** A forwarded load is a BitCast from byte 0, else a BitExtract from bit 8k of as many bits as the load has. */
  lemma ForwardEmission(v: Value, k: nat, n: nat, ty: ValueType)
    ensures var e := Forward(v, k, n, ty);
      && (e.op == BitCast <==> k == 0) && (e.op == BitExtract <==> k != 0) && e.xs[0] == Plain(AValue(v))
      && (k > 0 ==> e.xs == [Plain(AValue(v)), Plain(AImm(Imm(U32, 8 * k))), Plain(AImm(Imm(U32, 8 * n)))])
      && e.ret == Some(ty)
  {
  }

  /**
   * With the intended scan, a LoadUniform outside every register whose
   * bytes are bytes k, k + 1, ... of one stored value v is rewritten into
   * the forwarding of (a value equal to) v from byte k.
   */
  lemma VisitLoadForwards(meta: MetaTable, info: Info, st: UState, h: nat, v: Value, k: nat)
    requires UniformAt(st, h) && st.s[h].op == LoadUniform
    requires var u := st.s[h].args[0].uniform;
      RegisterNull(info.regs(u.offset)) && 0 < info.sizeOf(u.ty) && Holds(st.buf, u.offset, info.sizeOf(u.ty), v, k)
    requires Defined(v) && v.def < |st.s| && DeadCode.DestroyArgs(st.s, h).Some?
    ensures var r := Visit(meta, info, true, st, h);
      var u := st.s[h].args[0].uniform;
      && r.Some? && r.value.buf == st.buf
      && exists w :: ValueEq(w, v) && Emitted(r.value.s, h, Forward(w, k, info.sizeOf(u.ty), u.ty))
  {
    var u := st.s[h].args[0].uniform;
    var n := info.sizeOf(u.ty);
    ScanComplete(st.buf, u.offset, n, 0, NullValue, 0, v, k);
    var p := Scan(st.buf, u.offset, n, 0, NullValue, 0).value;
    LoadForwardStep(meta, info, st, h, p);
  }

  /** The non-register load whose scan found a value defined in the arena is rewritten into its forwarding. */
  lemma LoadForwardStep(meta: MetaTable, info: Info, st: UState, h: nat, p: (Value, nat))
    requires UniformAt(st, h) && st.s[h].op == LoadUniform
    requires var u := st.s[h].args[0].uniform;
      RegisterNull(info.regs(u.offset)) && LoadScan(true, st.buf, u.offset, info.sizeOf(u.ty)) == Some(p)
    requires 0 <= p.0.def < |st.s| && DeadCode.DestroyArgs(st.s, h).Some?
    ensures var r := Visit(meta, info, true, st, h);
      var u := st.s[h].args[0].uniform;
      r.Some? && r.value.buf == st.buf && Emitted(r.value.s, h, Forward(p.0, p.1, info.sizeOf(u.ty), u.ty))
  {
    var u := st.s[h].args[0].uniform;
    VisitLoadIsRewrite(meta, info, st, h, p);
    RewriteWithValue(meta, st, h, Forward(p.0, p.1, info.sizeOf(u.ty), u.ty), p.0);
  }

  /** With the intended scan a load is rewritten only from bytes of one value in order. */
  lemma VisitLoadOnlyForwards(meta: MetaTable, info: Info, st: UState, h: nat)
    requires UniformAt(st, h) && st.s[h].op == LoadUniform
    requires var u := st.s[h].args[0].uniform; RegisterNull(info.regs(u.offset)) && 0 < info.sizeOf(u.ty)
    ensures var r := Visit(meta, info, true, st, h);
      var u := st.s[h].args[0].uniform;
      r.Some? && r.value != st ==>
        exists v, k :: Defined(v) && Holds(st.buf, u.offset, info.sizeOf(u.ty), v, k)
  {
    var u := st.s[h].args[0].uniform;
    var n := info.sizeOf(u.ty);
    ScanIff(st.buf, u.offset, n);
    var r := Scan(st.buf, u.offset, n, 0, NullValue, 0);
    if r.Some? && Defined(r.value.0) {
      assert Holds(st.buf, u.offset, n, r.value.0, r.value.1);
    }
  }

  /** Every other opcode is left alone. */
  lemma VisitOther(meta: MetaTable, info: Info, fixed: bool, st: UState, h: nat)
    requires h < |st.s| && st.s[h].op != LoadUniform && st.s[h].op != StoreUniform
    ensures Visit(meta, info, fixed, st, h) == Some(st)
  {
  }

  // ---------------------------------------------------------------- the block

  /** The walk over the block's instruction list. */
  function WalkBlock(meta: MetaTable, info: Info, fixed: bool, st: UState, list: seq<nat>): (r: Option<UState>)
    requires Handles(st.s, list)
    ensures r.Some? ==> |r.value.s| == |st.s| && |r.value.buf| == |st.buf|
    decreases |list|
  {
    if list == [] then Some(st)
    else
      var st1 :- Visit(meta, info, fixed, st, list[0]);
      WalkBlock(meta, info, fixed, st1, list[1..])
  }

  /** `UniformEliminationPass::Run(Block*)`: the walk from an empty table of `uniform_size` bytes. */
  function Pass(meta: MetaTable, info: Info, fixed: bool, s: seq<Inst>, list: seq<nat>): (r: Option<seq<Inst>>)
    requires Handles(s, list)
    ensures r.Some? ==> |r.value| == |s|
  {
    var st :- WalkBlock(meta, info, fixed, UState(s, EmptyBuffer(info.uniformSize)), list);
    Some(st.s)
  }

  /**
   * The as-written pass on a block with no register-mapped uniform leaves
   * every LoadUniform in place: no instruction changes opcode.
   */
  lemma {:induction false} WalkAsWrittenKeepsOps(meta: MetaTable, info: Info, st: UState, list: seq<nat>)
    requires Handles(st.s, list)
    requires forall o: nat {:trigger info.regs(o)} :: RegisterNull(info.regs(o))
    ensures var r := WalkBlock(meta, info, false, st, list);
      r.Some? ==> forall x :: 0 <= x < |st.s| ==> r.value.s[x].op == st.s[x].op
    decreases |list|
  {
    if list != [] {
      var h := list[0];
      var r1 := Visit(meta, info, false, st, h);
      if r1.Some? {
        if st.s[h].op == LoadUniform && |st.s[h].args| == MaxArgs && st.s[h].args[0].AUniform? {
          VisitLoadAsWrittenKeeps(meta, info, st, h);
        }
        assert r1.value.s == st.s;
        WalkAsWrittenKeepsOps(meta, info, r1.value, list[1..]);
      }
    }
  }

  // ---------------------------------------------------------------- the imperative pass

  /** The byte-writing loop of StoreUniform. */
  method StoreBytes(buf: array<UniformValue>, o: nat, v: Value, size: nat)
    requires o + size <= buf.Length
    modifies buf
    ensures buf[..] == Written(old(buf[..]), o, v, size)
  {
    ghost var b := buf[..];
    for i := 0 to size
      invariant buf[..] == Written(b, o, v, i)
    {
      buf[o + i] := UniformValue(v, i);
    }
  }

  /** The byte-reading loop of LoadUniform; None for a byte past the end of the table. */
  method ScanBytes(buf: array<UniformValue>, o: nat, size: nat, fixed: bool) returns (r: Option<(Value, nat)>)
    ensures r == LoadScan(fixed, buf[..], o, size)
  {
    var load := NullValue;
    var voff: nat := 0;
    for i := 0 to size
      invariant LoadScan(fixed, buf[..], o, size) ==
        if fixed then Scan(buf[..], o, size, i, load, voff) else ScanAsWritten(buf[..], o, size, i, load, voff)
    {
      if o + i >= buf.Length {
        return None;
      }
      var u := buf[o + i];
      var stop := if fixed then IsNull(u) || (i > 0 && (!ValueEq(load, u.value) || u.offset != voff + i))
                  else NullAsWritten(u) || !ValueEq(load, u.value);
      if stop {
        return Some((NullValue, voff));
      }
      load := u.value;
      if i == 0 {
        voff := u.offset;
      }
    }
    return Some((load, voff));
  }

  /** `inst.Reset()` and the emitter, on the arena. */
  method EmitInst(meta: MetaTable, pool: InstPool, h: nat, e: Emission) returns (ok: bool)
    requires h < |pool.insts| && |pool.insts[h].args| == MaxArgs
    modifies pool
    ensures ok <==> Emit(meta, old(pool.insts), h, e).Some?
    ensures ok ==> pool.insts == Emit(meta, old(pool.insts), h, e).value
  {
    ok := DeadCode.DestroyAll(pool, h);
    if !ok {
      return;
    }
    pool.insts := pool.insts[h := pool.insts[h].(op := e.op)];
    var r := SetArgsFrom(meta, pool.insts, h, e.xs, 0);
    if r.None? {
      return false;
    }
    pool.insts := r.value;
    if e.ret.Some? {
      pool.insts := pool.insts[h := SetRet(pool.insts[h], e.ret.value)];
    }
  }

  /** The switch on instruction h. */
  method VisitInst(meta: MetaTable, info: Info, fixed: bool, pool: InstPool, buf: array<UniformValue>, h: nat)
    returns (ok: bool)
    requires h < |pool.insts|
    modifies pool, buf
    ensures var r := Visit(meta, info, fixed, UState(old(pool.insts), old(buf[..])), h);
      && (ok <==> r.Some?)
      && (ok ==> UState(pool.insts, buf[..]) == r.value)
  {
    var i := pool.insts[h];
    if i.op != LoadUniform && i.op != StoreUniform {
      return true;
    }
    if |i.args| != MaxArgs || !i.args[0].AUniform? || (i.op == StoreUniform && !i.args[1].AValue?) {
      return false;
    }
    var u := i.args[0].uniform;
    var reg := info.regs(u.offset);
    if !RegisterNull(reg) {
      if Crosses(info, u, reg) {
        return false;
      }
      var e := if i.op == LoadUniform then HostLoad(info, reg, u) else HostStore(info, reg, u, i.args[1].value);
      ok := EmitInst(meta, pool, h, e);
      return;
    }
    var n := info.sizeOf(u.ty);
    if i.op == StoreUniform {
      if u.offset + n > buf.Length {
        return false;
      }
      StoreBytes(buf, u.offset, i.args[1].value, n);
      return true;
    }
    var p := ScanBytes(buf, u.offset, n, fixed);
    if p.None? {
      return false;
    }
    if !Defined(p.value.0) {
      return true;
    }
    ok := EmitInst(meta, pool, h, Forward(p.value.0, p.value.1, n, u.ty));
  }

  /**
   * `UniformEliminationPass::Run(Block*)`: a table of `uniform_size` empty
   * entries, then the switch on each instruction of the block in order.
   */
  method Run(meta: MetaTable, info: Info, fixed: bool, pool: InstPool, block: Block) returns (ok: bool)
    requires Handles(pool.insts, block.insts)
    modifies pool
    ensures var r := Pass(meta, info, fixed, old(pool.insts), block.insts);
      && (ok <==> r.Some?)
      && (ok ==> pool.insts == r.value)
  {
    var buf := new UniformValue[info.uniformSize](_ => EmptyByte);
    assert buf[..] == EmptyBuffer(info.uniformSize);
    var list := block.insts;
    ghost var target := WalkBlock(meta, info, fixed, UState(pool.insts, buf[..]), list);
    for k := 0 to |list|
      invariant Handles(pool.insts, list[k..])
      invariant target == WalkBlock(meta, info, fixed, UState(pool.insts, buf[..]), list[k..])
    {
      assert list[k..][1..] == list[k + 1..];
      ok := VisitInst(meta, info, fixed, pool, buf, list[k]);
      if !ok {
        return;
      }
    }
    assert list[|list|..] == [];
    return true;
  }
}
