/**
 * The x86 frontend decoder: operand widths, the register table and the
 * thread-context slots it addresses, memory-operand pieces (scale, far
 * pointers, the address mask), the opcode dispatch and the decode loop.
 *
 * The disassembler (distorm) is outside the model: a decoded instruction is
 * an input (`Insn`), its register codes are numbered by the order of
 * distorm's register enumeration, which is the order of the table rows
 * (the lookups index the table by register code).  The ThreadContext64
 * layout is not part of this model either, so the context offsets and slot
 * sizes are a `Layout` parameter.
 */
module X86Decoder {
  import opened Wrappers
  import IR = IrArgs
  import Bits

  // ---------------------------------------------------------------- condition codes

  /** The decoder's condition codes, in enum order. */
  datatype Cond = EQ | NE | CS | CC | MI | PL | VS | VC | HI | LS | GE | LT | GT | LE | AL | NV
                | AT | AE | BT | BE | SN | NS | PA | NP

  /** The aliases share their targets' enumerators. */
  const HS: Cond := CS
  const LO: Cond := CC
  const OF: Cond := VS
  const NO: Cond := VC

  /** The enumerator value of a condition. */
  function CondValue(c: Cond): (r: nat)
    ensures r < 24
    ensures c == AT ==> r == 16
  {
    match c
    case EQ => 0 case NE => 1 case CS => 2 case CC => 3 case MI => 4 case PL => 5 case VS => 6 case VC => 7
    case HI => 8 case LS => 9 case GE => 10 case LT => 11 case GT => 12 case LE => 13 case AL => 14 case NV => 15
    case AT => 16 case AE => 17 case BT => 18 case BE => 19 case SN => 20 case NS => 21 case PA => 22 case NP => 23
  }

  /** The values are one-to-one, so the four aliases are exactly their targets' values. */
  lemma CondAliases(a: Cond, b: Cond)
    ensures CondValue(a) == CondValue(b) <==> a == b
    ensures CondValue(HS) == 2 && CondValue(LO) == 3 && CondValue(OF) == 6 && CondValue(NO) == 7
  {
  }

  // ---------------------------------------------------------------- operand widths

  /** The width in bits of a value type (BOOL counts one bit). */
  function BitWidth(t: IR.ValueType): nat
  {
    match t
    case VOID => 0 case BOOL => 1
    case U8 => 8 case U16 => 16 case U32 => 32 case U64 => 64 case U128 => 128
    case S8 => 8 case S16 => 16 case S32 => 32 case S64 => 64 case S128 => 128
    case V8 => 8 case V16 => 16 case V32 => 32 case V64 => 64 case V128 => 128 case V256 => 256
  }

  predicate IsUnsigned(t: IR.ValueType)
  {
    t in {IR.U8, IR.U16, IR.U32, IR.U64}
  }

  predicate IsSignedType(t: IR.ValueType)
  {
    t in {IR.S8, IR.S16, IR.S32, IR.S64}
  }

  predicate IsVector(t: IR.ValueType)
  {
    t in {IR.V8, IR.V16, IR.V32, IR.V64, IR.V128, IR.V256}
  }

  /** `GetSize`: an operand width in bits as an unsigned type; any other width panics (None). */
  function GetSize(bits: nat): (r: Option<IR.ValueType>)
    ensures r.Some? <==> bits in {0, 8, 16, 32, 64}
    ensures r.Some? ==> BitWidth(r.value) == bits && (r.value == IR.VOID || IsUnsigned(r.value))
  {
    match bits
    case 0 => Some(IR.VOID)
    case 8 => Some(IR.U8)
    case 16 => Some(IR.U16)
    case 32 => Some(IR.U32)
    case 64 => Some(IR.U64)
    case _ => None
  }

  /** `GetSignedSize`: the same widths as signed types. */
  function GetSignedSize(bits: nat): (r: Option<IR.ValueType>)
    ensures r.Some? <==> bits in {0, 8, 16, 32, 64}
    ensures r.Some? ==> BitWidth(r.value) == bits && (r.value == IR.VOID || IsSignedType(r.value))
  {
    match bits
    case 0 => Some(IR.VOID)
    case 8 => Some(IR.S8)
    case 16 => Some(IR.S16)
    case 32 => Some(IR.S32)
    case 64 => Some(IR.S64)
    case _ => None
  }

  /** `GetVecSize`: the vector types, which also cover 128 and 256 bits. */
  function GetVecSize(bits: nat): (r: Option<IR.ValueType>)
    ensures r.Some? <==> bits in {0, 8, 16, 32, 64, 128, 256}
    ensures r.Some? ==> BitWidth(r.value) == bits && (r.value == IR.VOID || IsVector(r.value))
  {
    match bits
    case 0 => Some(IR.VOID)
    case 8 => Some(IR.V8)
    case 16 => Some(IR.V16)
    case 32 => Some(IR.V32)
    case 64 => Some(IR.V64)
    case 128 => Some(IR.V128)
    case 256 => Some(IR.V256)
    case _ => None
  }

  /** Each size mapping inverts `BitWidth` on its own family, so a type's width maps back to it. */
  lemma SizesInvertWidth(t: IR.ValueType)
    ensures (t == IR.VOID || IsUnsigned(t)) ==> GetSize(BitWidth(t)) == Some(t)
    ensures (t == IR.VOID || IsSignedType(t)) ==> GetSignedSize(BitWidth(t)) == Some(t)
    ensures (t == IR.VOID || IsVector(t)) ==> GetVecSize(BitWidth(t)) == Some(t)
  {
  }

  // ---------------------------------------------------------------- context registers

  /** `X86RegInfo::Index`: the context slot a register name lives in. */
  const Rax: nat := 0
  const Rsp: nat := 4
  const R15: nat := 15
  const ES: nat := 16
  const GS: nat := 21
  const Rip: nat := 22
  const Xmm0: nat := 23
  const Xmm15: nat := 38
  const Ymm0: nat := 39
  const Ymm15: nat := 54

  /** A table row: the register code, its slot, its width and whether it is the high byte. */
  datatype RegInfo = RegInfo(code: nat, index: nat, ty: IR.ValueType, high: bool)

  /**
   * The ThreadContext64 offsets of the integer registers, segments, pc and
   * vector registers, and the sizes of one `Reg`, `Seg`, `Xmm` and `Ymm`.
   */
  datatype Layout = Layout(regs: nat, regSize: nat, segs: nat, segSize: nat, pc: nat,
                           xmms: nat, xmmSize: nat, ymmSize: nat)

  /**
   * `ToReg`: the uniform slot of an integer, segment or pc register; any
   * other index panics (None).  The code as written ignores `high`
   * (`fixed` false); the corrected slot of a high byte is one byte up.
   */
  function ToReg(l: Layout, info: RegInfo, fixed: bool): (r: Option<IR.Uniform>)
    ensures r.Some? <==> info.index <= Rip
    ensures r.Some? ==> r.value.ty == info.ty
    ensures info.index <= R15 && !(fixed && info.high) ==> r == Some(IR.Uniform(l.regs + info.index * l.regSize, info.ty))
  {
    var lift := if fixed && info.high then 1 else 0;
    if info.index <= R15 then Some(IR.Uniform(l.regs + info.index * l.regSize + lift, info.ty))
    else if ES <= info.index <= GS then Some(IR.Uniform(l.segs + (info.index - ES) * l.segSize, info.ty))
    else if info.index == Rip then Some(IR.Uniform(l.pc, info.ty))
    else None
  }

  /** `ToVReg`: the uniform slot of an XMM or YMM register; any other index panics (None). */
  function ToVReg(l: Layout, info: RegInfo): (r: Option<IR.Uniform>)
    ensures r.Some? <==> Xmm0 <= info.index <= Ymm15
    ensures r.Some? ==> r.value.ty == info.ty && r.value.offset >= l.xmms
  {
    if Xmm0 <= info.index <= Xmm15 then Some(IR.Uniform(l.xmms + (info.index - Xmm0) * l.xmmSize, info.ty))
    else if Ymm0 <= info.index <= Ymm15 then Some(IR.Uniform(l.xmms + (info.index - Ymm0) * l.ymmSize, info.ty))
    else None
  }

  /** Distinct XMM registers get distinct slots, so do distinct YMM registers, and YMM0 starts at XMM0. */
  lemma ToVRegSeparates(l: Layout, a: RegInfo, b: RegInfo)
    requires l.xmmSize > 0 && l.ymmSize > 0
    requires Xmm0 <= a.index <= Ymm15 && Xmm0 <= b.index <= Ymm15 && a.index != b.index
    requires (a.index <= Xmm15) == (b.index <= Xmm15)
    ensures ToVReg(l, a).value.offset != ToVReg(l, b).value.offset
  {
    var size := if a.index <= Xmm15 then l.xmmSize else l.ymmSize;
    var base := if a.index <= Xmm15 then Xmm0 else Ymm0;
    MulApart(a.index - base, b.index - base, size, 0, 0);
  }

  /** The first YMM register shares its slot with the first XMM register. */
  lemma Ymm0OverlaysXmm0(l: Layout, a: RegInfo, b: RegInfo)
    requires a.index == Xmm0 && b.index == Ymm0
    ensures ToVReg(l, a).value.offset == ToVReg(l, b).value.offset == l.xmms
  {
  }

  /** `i * size + hi` and `j * size + hj` differ when (i, hi) and (j, hj) do and a byte offset stays inside a slot. */
  lemma MulApart(i: nat, j: nat, size: nat, hi: nat, hj: nat)
    requires hi < size && hj < size && (i != j || hi != hj)
    ensures i * size + hi != j * size + hj
  {
    if i < j {
      MulGap(i, j, size);
    } else if j < i {
      MulGap(j, i, size);
    }
  }

  /** Multiples of `size` at distinct factors are at least `size` apart. */
  lemma {:induction false} MulGap(i: nat, j: nat, size: nat)
    requires i < j
    ensures i * size + size <= j * size
    decreases j
  {
    if j == i + 1 {
      assert j * size == i * size + size;
    } else {
      MulGap(i, j - 1, size);
      assert j * size == (j - 1) * size + size;
    }
  }

  // ---------------------------------------------------------------- the register table

  /** Register codes (distorm's enumeration order, which is the table's row order). */
  const R_RAX: nat := 0
  const R_RCX: nat := 1
  const R_EAX: nat := 16
  const R_ECX: nat := 17
  const R_AX: nat := 32
  const R_AL: nat := 48
  const R_AH: nat := 52
  const R_BH: nat := 55
  const R_R8B: nat := 56
  const R_R15B: nat := 63
  const R_SPL: nat := 64
  const R_ES: nat := 68
  const R_GS: nat := 73
  const R_RIP: nat := 74
  const R_ST0: nat := 75
  const R_MM0: nat := 83
  const R_XMM0: nat := 91
  const R_YMM0: nat := 107
  const R_YMM15: nat := 122
  const TableSize: nat := 123

  /**
   * `x86_regs_table[code]`, written out by the table's runs of rows.  The
   * table as written (`fixed` false) flags R8B..R15B as high bytes and
   * records the YMM0 row under the code R_XMM0; the corrected table flags
   * only AH..BH and records every row under its own code.
   */
  function Row(code: nat, fixed: bool): (r: RegInfo)
    requires code < TableSize
    ensures r.index <= Ymm15
    ensures code <= R_RIP <==> r.index <= Rip
  {
    if code < R_EAX then RegInfo(code, code, IR.U64, false)
    else if code < R_AX then RegInfo(code, code - R_EAX, IR.U32, false)
    else if code < R_AL then RegInfo(code, code - R_AX, IR.U16, false)
    else if code < R_AH then RegInfo(code, code - R_AL, IR.U8, false)
    else if code < R_R8B then RegInfo(code, code - R_AH, IR.U8, true)
    else if code < R_SPL then RegInfo(code, code - R_AL, IR.U8, !fixed)
    else if code < R_ES then RegInfo(code, code - R_SPL + Rsp, IR.U8, false)
    else if code < R_RIP then RegInfo(code, code - R_ES + ES, IR.U16, false)
    else if code == R_RIP then RegInfo(code, Rip, IR.U64, false)
    else if code < R_MM0 then RegInfo(code, code - R_ST0 + Xmm0, IR.V128, false)
    else if code < R_XMM0 then RegInfo(code, code - R_MM0 + Xmm0, IR.V64, false)
    else if code < R_YMM0 then RegInfo(code, code - R_XMM0 + Xmm0, IR.V128, false)
    else RegInfo(if code == R_YMM0 && !fixed then R_XMM0 else code, code - R_YMM0 + Ymm0, IR.V256, false)
  }

  /** Widths by register family: 64/32/16/8-bit names, segments, rip, x87, MMX, XMM and YMM. */
  lemma TableWidths(code: nat, fixed: bool)
    requires code < TableSize
    ensures code < R_EAX || code == R_RIP ==> Row(code, fixed).ty == IR.U64
    ensures R_EAX <= code < R_AX ==> Row(code, fixed).ty == IR.U32
    ensures (R_AX <= code < R_AL || R_ES <= code <= R_GS) ==> Row(code, fixed).ty == IR.U16
    ensures R_AL <= code < R_ES ==> Row(code, fixed).ty == IR.U8
    ensures (R_ST0 <= code < R_MM0 || R_XMM0 <= code < R_YMM0) ==> Row(code, fixed).ty == IR.V128
    ensures R_MM0 <= code < R_XMM0 ==> Row(code, fixed).ty == IR.V64
    ensures R_YMM0 <= code ==> Row(code, fixed).ty == IR.V256
  {
  }

  /** The 32- and 16-bit names of a 64-bit register, and its low byte, live in its slot. */
  lemma TableAliases(i: nat, fixed: bool)
    requires i <= R15
    ensures Row(R_EAX + i, fixed).index == i && Row(R_AX + i, fixed).index == i
    ensures i < 4 ==> Row(R_AL + i, fixed).index == i && Row(R_AH + i, fixed).index == i
    ensures 4 <= i < 8 ==> Row(R_SPL + i - 4, fixed).index == i
    ensures 8 <= i ==> Row(R_AL + i, fixed).index == i
  {
  }

  /** As written, the YMM0 row carries the XMM0 row's code. */
  lemma Ymm0RowAsWrittenCarriesXmm0Code()
    ensures Row(R_YMM0, false).code == Row(R_XMM0, false).code == R_XMM0
  {
  }

  /** Corrected, every row carries its own code, so the table is indexed by the code it records. */
  lemma RowCodesMatch(code: nat)
    requires code < TableSize
    ensures Row(code, true).code == code
  {
  }

  /** As written, R8B (the low byte of R8) is flagged high. */
  lemma R8bAsWrittenFlaggedHigh()
    ensures Row(R_R8B, false).high && Row(R_R8B, false).index == 8
  {
  }

  /** Corrected, exactly AH, CH, DH and BH are high bytes. */
  lemma HighExactlyAhToBh(code: nat)
    requires code < TableSize
    ensures Row(code, true).high <==> R_AH <= code <= R_BH
  {
  }

  /** `IsV`: codes from ST0 on are vector registers. */
  predicate IsV(code: nat)
  {
    code >= R_ST0
  }

  /**
   * The slot `R(reg)`/`V(reg)` load from and store to, chosen by `IsV` as
   * `Src` and `Dst` do.  Beyond YMM15 the assertion in `V` fails (None).
   */
  function RegSlot(l: Layout, code: nat, fixed: bool): (r: Option<IR.Uniform>)
    ensures r.Some? <==> code <= R_YMM15
    ensures r.Some? ==> r.value.ty == Row(code, fixed).ty
  {
    if code > R_YMM15 then None
    else if IsV(code) then ToVReg(l, Row(code, fixed))
    else ToReg(l, Row(code, fixed), fixed)
  }

  /** As written, AH reads and writes the same slot as AL. */
  lemma AhAsWrittenIsAl(l: Layout)
    ensures RegSlot(l, R_AH, false) == RegSlot(l, R_AL, false)
  {
  }

  /** The integer, segment and pc areas of the context do not overlap, and a register holds at least two bytes. */
  predicate Separated(l: Layout)
  {
    && l.regSize >= 2 && l.segSize >= 1
    && (l.regs + 16 * l.regSize <= l.segs || l.segs + 6 * l.segSize <= l.regs)
    && (l.regs + 16 * l.regSize <= l.pc || l.pc < l.regs)
    && (l.segs + 6 * l.segSize <= l.pc || l.pc < l.segs)
  }

  /**
   * Corrected, two different integer register names of the same width
   * never share a slot.
   */
  lemma RegSlotSeparates(l: Layout, a: nat, b: nat)
    requires Separated(l) && a <= R_RIP && b <= R_RIP && a != b
    requires Row(a, true).ty == Row(b, true).ty
    ensures RegSlot(l, a, true).value.offset != RegSlot(l, b, true).value.offset
  {
    RowKey(a, b);
    ToRegSeparates(l, Row(a, true), Row(b, true));
  }

  /** Corrected, two integer names of one width differ in their slot or in being the high byte; only slots 0..15 have high bytes. */
  lemma RowKey(a: nat, b: nat)
    requires a <= R_RIP && b <= R_RIP && a != b
    requires Row(a, true).ty == Row(b, true).ty
    ensures Row(a, true).index != Row(b, true).index || Row(a, true).high != Row(b, true).high
    ensures Row(a, true).high ==> Row(a, true).index <= R15
    ensures Row(b, true).high ==> Row(b, true).index <= R15
  {
  }

  /** Corrected `ToReg` gives distinct context bytes to distinct (slot, high) pairs. */
  lemma ToRegSeparates(l: Layout, ra: RegInfo, rb: RegInfo)
    requires Separated(l) && ra.index <= Rip && rb.index <= Rip
    requires (ra.high ==> ra.index <= R15) && (rb.high ==> rb.index <= R15)
    requires ra.index != rb.index || ra.high != rb.high
    ensures ToReg(l, ra, true).value.offset != ToReg(l, rb, true).value.offset
  {
    var oa, wa := SlotIn(l, ra);
    var ob, wb := SlotIn(l, rb);
    if ra.index <= R15 && rb.index <= R15 {
      MulApart(ra.index, rb.index, l.regSize, if ra.high then 1 else 0, if rb.high then 1 else 0);
    } else if ES <= ra.index <= GS && ES <= rb.index <= GS {
      MulApart(ra.index - ES, rb.index - ES, l.segSize, 0, 0);
    }
  }

  /** The byte a corrected `ToReg` gives and the area it lies in: 0 the registers, 1 the segments, 2 the pc. */
  lemma SlotIn(l: Layout, r: RegInfo) returns (offset: nat, area: nat)
    requires Separated(l) && r.index <= Rip && (r.high ==> r.index <= R15)
    ensures offset == ToReg(l, r, true).value.offset
    ensures area == 0 <==> r.index <= R15
    ensures area == 1 <==> ES <= r.index <= GS
    ensures area == 2 <==> r.index == Rip
    ensures area == 0 ==> l.regs <= offset < l.regs + 16 * l.regSize
    ensures area == 1 ==> l.segs <= offset < l.segs + 6 * l.segSize
    ensures area == 2 ==> offset == l.pc
  {
    offset := ToReg(l, r, true).value.offset;
    if r.index <= R15 {
      area := 0;
      SlotInside(r.index, l.regSize, if r.high then 1 else 0);
    } else if r.index <= GS {
      area := 1;
      SlotInside(r.index - ES, l.segSize, 0);
    } else {
      area := 2;
    }
  }

  /** A slot of a 16-entry area (or of the 6 segments) ends inside the area. */
  lemma SlotInside(i: nat, size: nat, h: nat)
    requires i < 16 && h < size
    ensures 0 <= i * size && i * size + h < 16 * size
    ensures i < 6 ==> i * size + h < 6 * size
  {
    assert (16 - i) * size >= size;
    assert 16 * size == i * size + (16 - i) * size;
    if i < 6 {
      assert (6 - i) * size >= size;
      assert 6 * size == i * size + (6 - i) * size;
    }
  }

  // ---------------------------------------------------------------- memory operands

  /**
   * The decoder's address `Operand`: an operator, two sides and a u8
   * shift or extension amount.
   */
  datatype AddressOperand = AddressOperand(opType: IR.OperandKind, left: IR.DataClass, right: IR.DataClass, ext: nat)

  /** `ir::OperandLsl`: a left shift (its definition is not part of this model; no stored amount). */
  const OperandLsl: IR.OperandOp := IR.OperandOp(IR.LSL, 0)

  /** `Operand::IsImm`: an immediate on the left, nothing on the right and no shift. */
  predicate IsImm(o: AddressOperand)
  {
    o.left.DImm? && o.right.DVoid? && o.ext == 0
  }

  /**
   * `Operand::ToIROperand`: a lone left side with a shift becomes
   * `left LSL ext`, a lone left side stays alone, and two sides keep the
   * operator with `ext` as its shift.
   */
  function ToIROperand(o: AddressOperand): (r: IR.Operand)
    requires o.ext < IR.Two8
    ensures r.left == o.left
    ensures r.right.DVoid? <==> o.right.DVoid? && o.ext == 0
    ensures !o.right.DVoid? ==> r.right == o.right && r.op == IR.OperandOp(o.opType, o.ext)
  {
    if o.right.DVoid? then
      if o.ext != 0 then IR.Operand(OperandLsl, o.left, IR.DImm(IR.ImmU8(o.ext)))
      else IR.OneSided(o.left)
    else IR.Operand(IR.OperandOp(o.opType, o.ext), o.left, o.right)
  }

  /** An immediate operand converts to that immediate alone, and a lone shifted side to a left shift by `ext`. */
  lemma ToIROperandOneSided(o: AddressOperand)
    requires o.ext < IR.Two8 && o.right.DVoid?
    ensures IsImm(o) ==> ToIROperand(o) == IR.OneSided(o.left) && ToIROperand(o).left.DImm?
    ensures o.ext != 0 ==> ToIROperand(o).op.kind == IR.LSL && IR.Get(ToIROperand(o).right.imm) == o.ext
  {
  }

  /** Among operands with no right side, the conversion loses nothing: left side and shift come back. */
  lemma ToIROperandInjective(a: AddressOperand, b: AddressOperand)
    requires a.ext < IR.Two8 && b.ext < IR.Two8 && a.right.DVoid? && b.right.DVoid?
    requires ToIROperand(a) == ToIROperand(b)
    ensures a.left == b.left && a.ext == b.ext
  {
    if a.ext != 0 && b.ext != 0 {
      assert IR.Get(ToIROperand(a).right.imm) == a.ext;
      assert IR.Get(ToIROperand(b).right.imm) == b.ext;
    }
  }

  /**
   * The scale of a memory operand as the operand's shift: 2, 4 and 8
   * become 1, 2 and 3, 0 leaves the operand unshifted, and any other
   * scale panics (None).
   */
  function ScaleShift(scale: nat): (r: Option<nat>)
    ensures r.Some? <==> scale in {0, 2, 4, 8}
    ensures scale == 0 ==> r == Some(0)
    ensures r.Some? && scale != 0 ==> 1 <= r.value <= 3 && Bits.Pow2(r.value) == scale
  {
    if scale == 0 then Some(0)
    else if scale == 2 then Some(1)
    else if scale == 4 then Some(2)
    else if scale == 8 then Some(3)
    else None
  }

  /** Shifting by the mapped amount multiplies by the scale: the mapping inverts `Pow2` on 1..3. */
  lemma ScaleShiftInverts(k: nat)
    requires 1 <= k <= 3
    ensures ScaleShift(Bits.Pow2(k)) == Some(k)
  {
    assert Bits.Pow2(1) == 2 && Bits.Pow2(2) == 4 && Bits.Pow2(3) == 8;
  }

  /**
   * A far pointer's address `(u32(segment) << 4) + offset`, a 32-bit sum
   * that wraps.
   */
  function FarAddress(segment: nat, offset: nat): (r: nat)
    requires segment < IR.Two16 && offset < IR.Two32
    ensures r < IR.Two32
    ensures segment * 16 + offset < IR.Two32 ==> r == segment * 16 + offset
  {
    (segment * 16 + offset) % IR.Two32
  }

  /** The immediate a far-pointer source operand becomes. */
  function FarPointer(segment: nat, offset: nat): (r: IR.DataClass)
    requires segment < IR.Two16 && offset < IR.Two32
    ensures r.DImm? && r.imm.ty == IR.U32 && IR.Get(r.imm) == FarAddress(segment, offset)
  {
    IR.DImm(IR.ImmU32(FarAddress(segment, offset)))
  }

  /** A real-mode pointer (16-bit offset) is the 20-bit-plus linear address `segment * 16 + offset`, without wrap. */
  lemma FarAddressRealMode(segment: nat, offset: nat)
    requires segment < IR.Two16 && offset < IR.Two16
    ensures FarAddress(segment, offset) == segment * 16 + offset < 0x11_0000
  {
  }

  /** `addr_mask`: all 64 bits in 64-bit mode, else the low 32. */
  function AddrMask(is64: bool): (r: nat)
    ensures r == Bits.Mask(if is64 then 64 else 32)
  {
    Bits.Pow2Words();
    if is64 then IR.Two64 - 1 else IR.Two32 - 1
  }

  /** Masking an address with `addr_mask` reduces it modulo the mode's address space. */
  lemma AddrMaskWraps(x: nat, is64: bool)
    ensures Bits.And(x, AddrMask(is64)) == x % (if is64 then IR.Two64 else IR.Two32)
  {
    Bits.Pow2Words();
    Bits.AndMask(x, if is64 then 64 else 32);
  }

  // ---------------------------------------------------------------- opcode dispatch

  /** The opcodes `DecodeSwitch` lists, and every other opcode. */
  datatype Mnemonic =
    | NOP | HLT | INT_3 | SYSCALL | CALL | RET | RETF | LEAVE | LEA
    | JMP | JA | JAE | JB | JBE | JZ | JNZ | JG | JGE | JL | JLE | JS | JNS | JP | JO | JNO | JNP
    | JECXZ | JRCXZ | MOV
    | CMOVA | CMOVAE | CMOVB | CMOVBE | CMOVZ | CMOVG | CMOVGE | CMOVL | CMOVLE | CMOVNZ
    | CMOVNO | CMOVO | CMOVP | CMOVNP | CMOVS | CMOVNS
    | ADD | XADD | SUB | CMP | ADC | SBB | INC | DEC | MUL | DIV | IMUL | IDIV
    | OR | AND | TEST | XOR | PUSH | POP | PUSHA | POPA
    | Unlisted(code: nat)

  /** Interrupt reasons the decoder raises. */
  datatype Reason = PageFatal | IllCode | Fallback | Hlt | Brk | Svc

  /** What a listed opcode translates to: the handler and the arguments it is called with. */
  datatype Action =
    | Nop
    | Interrupt(reason: Reason)
    | Call
    | Return
    | Leave
    | Lea
    | CondJump(cond: Cond)
    | ZeroCheckJump(reg: nat)
    | Mov
    | CondMov(cond: Cond)
    | AddSub(sub: bool, saveResult: bool, exchange: bool)
    | AddSubWithCarry(sub: bool)
    | IncAndDec(dec: bool)
    | MulDiv(div: bool, sign: bool)
    | Or
    | And(saveResult: bool)
    | Xor
    | Push
    | Pop
    | PushA
    | PopA

  /**
   * `DecodeSwitch`: the handler of a listed opcode; an unlisted one
   * returns false (None).
   */
  function DecodeSwitch(m: Mnemonic): (r: Option<Action>)
    ensures r.None? <==> m.Unlisted?
  {
    match m
    case NOP => Some(Nop)
    case HLT => Some(Interrupt(Hlt))
    case INT_3 => Some(Interrupt(Brk))
    case SYSCALL => Some(Interrupt(Svc))
    case CALL => Some(Call)
    case RET => Some(Return)
    case RETF => Some(Return)
    case LEAVE => Some(Leave)
    case LEA => Some(Lea)
    case JMP => Some(CondJump(AL))
    case JA => Some(CondJump(AT))
    case JAE => Some(CondJump(AE))
    case JB => Some(CondJump(BT))
    case JBE => Some(CondJump(BE))
    case JZ => Some(CondJump(EQ))
    case JNZ => Some(CondJump(NE))
    case JG => Some(CondJump(GT))
    case JGE => Some(CondJump(GE))
    case JL => Some(CondJump(LT))
    case JLE => Some(CondJump(LE))
    case JS => Some(CondJump(SN))
    case JNS => Some(CondJump(NS))
    case JP => Some(CondJump(PA))
    case JO => Some(CondJump(OF))
    case JNO => Some(CondJump(NO))
    case JNP => Some(CondJump(NP))
    case JECXZ => Some(ZeroCheckJump(R_ECX))
    case JRCXZ => Some(ZeroCheckJump(R_RCX))
    case MOV => Some(Mov)
    case CMOVA => Some(CondMov(AT))
    case CMOVAE => Some(CondMov(AE))
    case CMOVB => Some(CondMov(BT))
    case CMOVBE => Some(CondMov(BE))
    case CMOVZ => Some(CondMov(EQ))
    case CMOVG => Some(CondMov(GT))
    case CMOVGE => Some(CondMov(GE))
    case CMOVL => Some(CondMov(LT))
    case CMOVLE => Some(CondMov(LE))
    case CMOVNZ => Some(CondMov(NE))
    case CMOVNO => Some(CondMov(NO))
    case CMOVO => Some(CondMov(OF))
    case CMOVP => Some(CondMov(PA))
    case CMOVNP => Some(CondMov(NP))
    case CMOVS => Some(CondMov(SN))
    case CMOVNS => Some(CondMov(NS))
    case ADD => Some(AddSub(false, true, false))
    case XADD => Some(AddSub(false, true, true))
    case SUB => Some(AddSub(true, true, false))
    case CMP => Some(AddSub(true, false, false))
    case ADC => Some(AddSubWithCarry(false))
    case SBB => Some(AddSubWithCarry(true))
    case INC => Some(IncAndDec(false))
    case DEC => Some(IncAndDec(true))
    case MUL => Some(MulDiv(false, false))
    case DIV => Some(MulDiv(true, false))
    case IMUL => Some(MulDiv(false, true))
    case IDIV => Some(MulDiv(true, true))
    case OR => Some(Or)
    case AND => Some(And(true))
    case TEST => Some(And(false))
    case XOR => Some(Xor)
    case PUSH => Some(Push)
    case POP => Some(Pop)
    case PUSHA => Some(PushA)
    case POPA => Some(PopA)
    case Unlisted(_) => None
  }

  /** CMP is SUB without the write-back. */
  lemma CompareIsSubtract()
    ensures DecodeSwitch(CMP) == Some(AddSub(true, false, false)) && DecodeSwitch(SUB) == Some(AddSub(true, true, false))
  {
  }

  /** TEST is AND without the write-back. */
  lemma TestIsAnd()
    ensures DecodeSwitch(TEST) == Some(And(false)) && DecodeSwitch(AND) == Some(And(true))
  {
  }

  // ---------------------------------------------------------------- the decode loop

  /** A decoded instruction as the loop reads it: an opcode (Illegal for UINT16_MAX) and a length. */
  datatype Opcode = Illegal | Op(m: Mnemonic)
  datatype Insn = Insn(opcode: Opcode, size: nat)

  /**
   * What the loop hands the assembler: a translated instruction (with the
   * pc after it, which the handler sees), the matching `AdvancePC`, or an
   * interrupt that stops the block at a pc.
   */
  datatype Event = Translated(pc: nat, action: Action) | Advanced(size: nat) | Raised(reason: Reason, pc: nat)

  /** The result of decoding from a pc: the events, the final pc and whether `EndCommit` ended the block. */
  datatype Outcome = Outcome(events: seq<Event>, pc: nat, committed: bool)

  /** `EndCommit`'s answers after successive instructions, ending with the answer that closes the block. */
  predicate Answers(ends: seq<bool>, k: nat)
  {
    k < |ends| && ends[|ends| - 1]
  }

  /**
   * The loop from `pc` with `code` the readable instructions (a pc outside
   * it is an unmapped page) and `ends[k..]` the remaining `EndCommit`
   * answers.
   */
  function Steps(code: map<nat, Insn>, ends: seq<bool>, pc: nat, k: nat): (r: Outcome)
    requires Answers(ends, k)
    ensures |r.events| > 0
    decreases |ends| - k
  {
    if pc !in code then Outcome([Raised(PageFatal, pc)], pc, false)
    else if code[pc].opcode.Illegal? then Outcome([Raised(IllCode, pc)], pc, false)
    else
      var next := NextPc(pc, code[pc].size);
      match DecodeSwitch(code[pc].opcode.m)
      case None => Outcome([Raised(Fallback, next)], next, false)
      case Some(a) =>
        var done := [Translated(next, a), Advanced(code[pc].size)];
        if ends[k] then Outcome(done, next, true)
        else
          var rest := Steps(code, ends, next, k + 1);
          Outcome(done + rest.events, rest.pc, rest.committed)
  }

  /** Events are translated/advanced pairs, then a single stop event unless the block was committed. */
  predicate Trace(ev: seq<Event>, committed: bool)
    decreases |ev|
  {
    if |ev| == 0 then committed
    else if |ev| == 1 then !committed && ev[0].Raised? && ev[0].reason in {PageFatal, IllCode, Fallback}
    else ev[0].Translated? && ev[1].Advanced? && Trace(ev[2..], committed)
  }

  /** The number of instructions a trace translated. */
  function Count(ev: seq<Event>): nat
  {
    if |ev| == 0 then 0 else (if ev[0].Translated? then 1 else 0) + Count(ev[1..])
  }

  /** The sum of the `AdvancePC` sizes in a trace. */
  function Advance(ev: seq<Event>): nat
  {
    if |ev| == 0 then 0 else (if ev[0].Advanced? then ev[0].size else 0) + Advance(ev[1..])
  }

  lemma {:induction false} CountAppend(a: seq<Event>, b: seq<Event>)
    ensures Count(a + b) == Count(a) + Count(b) && Advance(a + b) == Advance(a) + Advance(b)
  {
    if a == [] {
      assert a + b == b;
    } else {
      assert (a + b)[0] == a[0] && (a + b)[1..] == a[1..] + b;
      CountAppend(a[1..], b);
    }
  }

  /** The index of the first answer that closes the block, at or after k. */
  function FirstEnd(ends: seq<bool>, k: nat): (r: nat)
    requires Answers(ends, k)
    ensures k <= r < |ends| && ends[r] && forall j :: k <= j < r ==> !ends[j]
    decreases |ends| - k
  {
    if ends[k] then k else FirstEnd(ends, k + 1)
  }

  /**
   * The loop's shape: pairs of translated instructions, ended by one stop
   * event unless committed, and a committed block translated exactly up to
   * the first answer that ends it.
   */
  lemma {:induction false} StepsShape(code: map<nat, Insn>, ends: seq<bool>, pc: nat, k: nat)
    requires Answers(ends, k)
    ensures var o := Steps(code, ends, pc, k);
      && Trace(o.events, o.committed)
      && (o.committed ==> Count(o.events) == FirstEnd(ends, k) - k + 1)
    decreases |ends| - k
  {
    var o := Steps(code, ends, pc, k);
    if pc in code && !code[pc].opcode.Illegal? && DecodeSwitch(code[pc].opcode.m).Some? {
      var a := DecodeSwitch(code[pc].opcode.m).value;
      var size := code[pc].size;
      var next := NextPc(pc, size);
      var done := [Translated(next, a), Advanced(size)];
      CountPair(next, a, size);
      if !ends[k] {
        var rest := Steps(code, ends, next, k + 1);
        StepsShape(code, ends, next, k + 1);
        assert o.events == done + rest.events;
        assert (done + rest.events)[2..] == rest.events;
        CountAppend(done, rest.events);
      }
    }
  }

  lemma CountPair(next: nat, a: Action, size: nat)
    ensures Count([Translated(next, a), Advanced(size)]) == 1 && Advance([Translated(next, a), Advanced(size)]) == size
  {
    var done := [Translated(next, a), Advanced(size)];
    assert done[1..] == [Advanced(size)] && done[1..][1..] == [];
    assert Count(done[1..][1..]) == 0 && Advance(done[1..][1..]) == 0;
    assert Count(done[1..]) == 0 && Advance(done[1..]) == size;
  }

  /**
   * Unless the stop is a fallback, decoding ends at the start advanced by
   * every `AdvancePC` (modulo 2^64).
   */
  /** The conclusion of `StepsAdvance` for one outcome started at `pc`. */
  predicate AdvanceHolds(o: Outcome, pc: nat)
  {
    |o.events| > 0 ==> o.events[|o.events| - 1] != Raised(Fallback, o.pc) ==> o.pc == NextPc(pc, Advance(o.events))
  }

  lemma {:induction false} StepsAdvance(code: map<nat, Insn>, ends: seq<bool>, pc: nat, k: nat)
    requires Answers(ends, k) && pc < IR.Two64
    ensures var o := Steps(code, ends, pc, k);
      o.events[|o.events| - 1] != Raised(Fallback, o.pc) ==> o.pc == NextPc(pc, Advance(o.events))
    decreases |ends| - k
  {
    if pc in code && !code[pc].opcode.Illegal? && DecodeSwitch(code[pc].opcode.m).Some? {
      if !ends[k] {
        StepsAdvance(code, ends, NextPc(pc, code[pc].size), k + 1);
      }
      StepAdvances(code, ends, pc, k);
    } else {
      StopAdvances(code, ends, pc, k);
    }
    assert AdvanceHolds(Steps(code, ends, pc, k), pc);
  }

  /** One translated instruction keeps `AdvanceHolds` from the rest of the block. */
  lemma StepAdvances(code: map<nat, Insn>, ends: seq<bool>, pc: nat, k: nat)
    requires Answers(ends, k) && pc < IR.Two64
    requires pc in code && !code[pc].opcode.Illegal? && DecodeSwitch(code[pc].opcode.m).Some?
    requires !ends[k] ==> AdvanceHolds(Steps(code, ends, NextPc(pc, code[pc].size), k + 1), NextPc(pc, code[pc].size))
    ensures AdvanceHolds(Steps(code, ends, pc, k), pc)
  {
    var o := Steps(code, ends, pc, k);
    var a := DecodeSwitch(code[pc].opcode.m).value;
    var size := code[pc].size;
    var next := NextPc(pc, size);
    var done := [Translated(next, a), Advanced(size)];
    CountPair(next, a, size);
    if !ends[k] {
      var rest := Steps(code, ends, next, k + 1);
      assert o.events == done + rest.events && o.pc == rest.pc;
      CountAppend(done, rest.events);
      assert o.events[|o.events| - 1] == rest.events[|rest.events| - 1];
      if rest.events[|rest.events| - 1] != Raised(Fallback, rest.pc) {
        NextPcAdd(pc, size, Advance(rest.events));
      }
    } else {
      assert o.events == done && o.pc == next;
      NextPcAdd(pc, size, 0);
    }
  }

  /** A stop on the first instruction keeps `AdvanceHolds`. */
  lemma StopAdvances(code: map<nat, Insn>, ends: seq<bool>, pc: nat, k: nat)
    requires Answers(ends, k) && pc < IR.Two64
    requires !(pc in code && !code[pc].opcode.Illegal? && DecodeSwitch(code[pc].opcode.m).Some?)
    ensures AdvanceHolds(Steps(code, ends, pc, k), pc)
  {
    var o := Steps(code, ends, pc, k);
    if pc in code && !code[pc].opcode.Illegal? {
      var next := NextPc(pc, code[pc].size);
      assert o.events == [Raised(Fallback, next)] && o.pc == next;
    } else {
      assert |o.events| == 1 && o.pc == pc;
      assert o.events[1..] == [];
      assert Advance(o.events) == 0;
      NextPcAdd(pc, 0, 0);
    }
  }

  /** `pc += n` on a 64-bit pc. */
  function NextPc(pc: nat, n: nat): (r: nat)
    ensures r < IR.Two64
  {
    (pc + n) % IR.Two64
  }

  /** Two advances are one advance by the sum, and advancing by nothing keeps a 64-bit pc. */
  lemma NextPcAdd(pc: nat, a: nat, b: nat)
    ensures NextPc(NextPc(pc, a), b) == NextPc(pc, a + b)
    ensures pc < IR.Two64 ==> NextPc(pc, 0) == pc
  {
  }

  /** The block stops with a fallback exactly when it reaches an unlisted opcode before an end. */
  lemma {:induction false} FallbackOnUnlisted(code: map<nat, Insn>, ends: seq<bool>, pc: nat, k: nat)
    requires Answers(ends, k)
    ensures var o := Steps(code, ends, pc, k);
      (pc in code && code[pc].opcode.Op? && code[pc].opcode.m.Unlisted?) ==>
        o == Outcome([Raised(Fallback, NextPc(pc, code[pc].size))], NextPc(pc, code[pc].size), false)
    ensures var o := Steps(code, ends, pc, k);
      o.committed ==> forall e :: e in o.events ==> !e.Raised?
    decreases |ends| - k
  {
    if pc in code && !code[pc].opcode.Illegal? && DecodeSwitch(code[pc].opcode.m).Some? && !ends[k] {
      var next := NextPc(pc, code[pc].size);
      FallbackOnUnlisted(code, ends, next, k + 1);
    }
  }

  /** Decoding from `start` emits `done` and then whatever decoding from `pc` with the answers from k on emits. */
  ghost predicate Resumes(code: map<nat, Insn>, ends: seq<bool>, start: nat, pc: nat, k: nat, done: seq<Event>)
    requires Answers(ends, k)
  {
    var o := Steps(code, ends, pc, k);
    Steps(code, ends, start, 0) == Outcome(done + o.events, o.pc, o.committed)
  }

  /** A fetch fault, an illegal opcode or an unlisted one ends decoding with that one stop event. */
  lemma ResumesStop(code: map<nat, Insn>, ends: seq<bool>, start: nat, pc: nat, k: nat, done: seq<Event>)
    requires Answers(ends, k) && Resumes(code, ends, start, pc, k, done)
    ensures pc !in code ==> Steps(code, ends, start, 0) == Outcome(done + [Raised(PageFatal, pc)], pc, false)
    ensures pc in code && code[pc].opcode.Illegal? ==>
      Steps(code, ends, start, 0) == Outcome(done + [Raised(IllCode, pc)], pc, false)
    ensures pc in code && code[pc].opcode.Op? && DecodeSwitch(code[pc].opcode.m).None? ==>
      var next := NextPc(pc, code[pc].size);
      Steps(code, ends, start, 0) == Outcome(done + [Raised(Fallback, next)], next, false)
  {
  }

  /** A translated instruction either ends the block (when `EndCommit` says so) or decoding resumes after it. */
  lemma ResumesStep(code: map<nat, Insn>, ends: seq<bool>, start: nat, pc: nat, k: nat, done: seq<Event>)
    requires Answers(ends, k) && Resumes(code, ends, start, pc, k, done)
    requires pc in code && code[pc].opcode.Op? && DecodeSwitch(code[pc].opcode.m).Some?
    ensures var next := NextPc(pc, code[pc].size);
      var ev := done + [Translated(next, DecodeSwitch(code[pc].opcode.m).value), Advanced(code[pc].size)];
      if ends[k] then Steps(code, ends, start, 0) == Outcome(ev, next, true)
      else Answers(ends, k + 1) && Resumes(code, ends, start, next, k + 1, ev)
  {
    var next := NextPc(pc, code[pc].size);
    var a := DecodeSwitch(code[pc].opcode.m).value;
    var here := [Translated(next, a), Advanced(code[pc].size)];
    if !ends[k] {
      var rest := Steps(code, ends, next, k + 1);
      assert Steps(code, ends, pc, k).events == here + rest.events;
      assert done + (here + rest.events) == (done + here) + rest.events;
    }
  }

  /** The frontend decoder: where it starts, where it is, and whether the block has ended. */
  class X64Decoder {
    const start: nat
    const is64: bool
    var pc: nat
    var endDecode: bool
    var addrMask: nat
    /** What the decoder has handed the assembler so far. */
    var emitted: seq<Event>

    constructor(start: nat, is64: bool)
      ensures this.start == start && this.is64 == is64 && pc == start
      ensures !endDecode && addrMask == AddrMask(is64) && emitted == []
    {
      this.start := start;
      this.is64 := is64;
      pc := start;
      endDecode := false;
      addrMask := AddrMask(is64);
      emitted := [];
    }

    /**
     * `Decode`: restarts at `start` and translates until a page fault, an
     * illegal or unlisted opcode, or the end of the block.  A decoder whose
     * block already ended translates nothing.
     */
    method Decode(code: map<nat, Insn>, ends: seq<bool>)
      requires Answers(ends, 0) && start < IR.Two64
      modifies this
      ensures old(endDecode) ==> pc == start && endDecode && emitted == old(emitted)
      ensures !old(endDecode) ==> var o := Steps(code, ends, start, 0);
        emitted == old(emitted) + o.events && pc == o.pc && endDecode == o.committed
      ensures addrMask == old(addrMask)
    {
      pc := start;
      if endDecode {
        return;
      }
      DecodeLoop(code, ends);
    }

    /** The `while (!end_decode)` loop of `Decode`, from `start`. */
    method DecodeLoop(code: map<nat, Insn>, ends: seq<bool>)
      requires Answers(ends, 0) && !endDecode && pc == start && start < IR.Two64
      modifies this
      ensures var o := Steps(code, ends, start, 0);
        emitted == old(emitted) + o.events && pc == o.pc && endDecode == o.committed
      ensures addrMask == old(addrMask)
    {
      var k := 0;
      var stop := false;
      assert [] + Steps(code, ends, pc, k).events == Steps(code, ends, pc, k).events;
      assert emitted[|old(emitted)|..] == [];
      while !stop
        invariant pc < IR.Two64 && addrMask == old(addrMask) && k <= |ends|
        invariant |old(emitted)| <= |emitted| && emitted[..|old(emitted)|] == old(emitted)
        invariant !stop ==> !endDecode && Answers(ends, k) && Resumes(code, ends, start, pc, k, emitted[|old(emitted)|..])
        invariant stop ==> Steps(code, ends, start, 0) == Outcome(emitted[|old(emitted)|..], pc, endDecode)
        decreases |ends| - k
      {
        stop := DecodeNext(code, ends, k, old(emitted));
        k := k + 1;
      }
      assert emitted == old(emitted) + emitted[|old(emitted)|..];
    }

    /**
     * One pass of the loop body: fetch, decode and translate the instruction
     * at `pc`; `stop` when the loop breaks or `EndCommit` ends the block.
     */
    method DecodeNext(code: map<nat, Insn>, ends: seq<bool>, k: nat, ghost before: seq<Event>) returns (stop: bool)
      requires !endDecode && Answers(ends, k) && pc < IR.Two64
      requires |before| <= |emitted| && emitted[..|before|] == before
      requires Resumes(code, ends, start, pc, k, emitted[|before|..])
      modifies this
      ensures pc < IR.Two64 && addrMask == old(addrMask)
      ensures |before| <= |emitted| && emitted[..|before|] == before
      ensures !stop ==> !endDecode && Answers(ends, k + 1) && Resumes(code, ends, start, pc, k + 1, emitted[|before|..])
      ensures stop ==> Steps(code, ends, start, 0) == Outcome(emitted[|before|..], pc, endDecode)
    {
      ghost var done := emitted[|before|..];
      ghost var pc0 := pc;
      if pc !in code {
        Emit([Raised(PageFatal, pc)], before);
        ResumesStop(code, ends, start, pc, k, done);
        return true;
      }
      var insn := code[pc];
      if insn.opcode.Illegal? {
        Emit([Raised(IllCode, pc)], before);
        ResumesStop(code, ends, start, pc, k, done);
        return true;
      }
      pc := NextPc(pc, insn.size);
      var action := DecodeSwitch(insn.opcode.m);
      if action.None? {
        Emit([Raised(Fallback, pc)], before);
        ResumesStop(code, ends, start, pc0, k, done);
        return true;
      }
      Emit([Translated(pc, action.value), Advanced(insn.size)], before);
      ResumesStep(code, ends, start, pc0, k, done);
      endDecode := ends[k];
      stop := endDecode;
    }

    /** Hands `ev` to the assembler. */
    method Emit(ev: seq<Event>, ghost before: seq<Event>)
      requires |before| <= |emitted| && emitted[..|before|] == before
      modifies this`emitted
      ensures emitted == old(emitted) + ev
      ensures |before| <= |emitted| && emitted[..|before|] == before
      ensures emitted[|before|..] == old(emitted)[|before|..] + ev
    {
      emitted := emitted + ev;
    }
  }
}
