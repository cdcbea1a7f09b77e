/**
 * The RISC-V instruction formats of sections 2.2 "Base Instruction
 * Formats" and 2.3 "Immediate Encoding Variants" of The RISC-V
 * Instruction Set Manual, Volume I: Unprivileged ISA, as the assembler's
 * Emit helpers pack them into a 32-bit word.
 *
 * Every operand is the 32-bit pattern the C++ code obtains with
 * `static_cast<uint32_t>`; a signed immediate is its two's-complement
 * pattern, so `IsInt<k>(imm)` reads "below 2^(k-1), or at least
 * 2^32 - 2^(k-1)".  Each encoder is paired with a decoder that reads the
 * fields back where the manual puts them, and the round trip is the
 * encoder's contract.
 */
module RiscvEncoding {

  function SignExtend12(x: bv32): bv32
  {
    if x & 0x800 != 0 then x | 0xFFFF_F000 else x
  }

  function SignExtend13(x: bv32): bv32
  {
    if x & 0x1000 != 0 then x | 0xFFFF_E000 else x
  }

  function SignExtend21(x: bv32): bv32
  {
    if x & 0x10_0000 != 0 then x | 0xFFE0_0000 else x
  }

  datatype IType = IType(imm: bv32, rs1: bv32, funct3: bv32, rd: bv32, opcode: bv32)
  datatype RType = RType(funct7: bv32, rs2: bv32, rs1: bv32, funct3: bv32, rd: bv32, opcode: bv32)
  datatype R4Type = R4Type(rs3: bv32, fmt: bv32, rs2: bv32, rs1: bv32, funct3: bv32, rd: bv32, opcode: bv32)
  datatype SType = SType(imm: bv32, rs2: bv32, rs1: bv32, funct3: bv32, opcode: bv32)
  datatype I6Type = I6Type(funct6: bv32, imm6: bv32, rs1: bv32, funct3: bv32, rd: bv32, opcode: bv32)
  datatype BType = BType(offset: bv32, rs2: bv32, rs1: bv32, funct3: bv32, opcode: bv32)
  datatype UType = UType(imm20: bv32, rd: bv32, opcode: bv32)
  datatype JType = JType(offset: bv32, rd: bv32, opcode: bv32)

  // ---------------------------------------------------------------------
  // Decoders: where the manual puts each field

  function Rs2(w: bv32): bv32 { (w >> 20) & 0x1F }
  function Rs1(w: bv32): bv32 { (w >> 15) & 0x1F }
  function Funct3(w: bv32): bv32 { (w >> 12) & 0x7 }
  function Rd(w: bv32): bv32 { (w >> 7) & 0x1F }
  function Opcode(w: bv32): bv32 { w & 0x7F }

  function DecodeI(w: bv32): IType
  {
    IType(SignExtend12(w >> 20), Rs1(w), Funct3(w), Rd(w), Opcode(w))
  }

  function DecodeR(w: bv32): RType
  {
    RType(w >> 25, Rs2(w), Rs1(w), Funct3(w), Rd(w), Opcode(w))
  }

  function DecodeR4(w: bv32): R4Type
  {
    R4Type(w >> 27, (w >> 25) & 0x3, Rs2(w), Rs1(w), Funct3(w), Rd(w), Opcode(w))
  }

  /** imm[11:5] from bits 31:25 and imm[4:0] from bits 11:7. */
  function DecodeS(w: bv32): SType
  {
    SType(SignExtend12(((w >> 25) << 5) | ((w >> 7) & 0x1F)), Rs2(w), Rs1(w), Funct3(w), Opcode(w))
  }

  function DecodeI6(w: bv32): I6Type
  {
    I6Type(w >> 26, (w >> 20) & 0x3F, Rs1(w), Funct3(w), Rd(w), Opcode(w))
  }

  /** offset[12] from bit 31, [10:5] from 30:25, [4:1] from 11:8, [11] from bit 7. */
  function DecodeB(w: bv32): BType
  {
    BType(BOffset(w), Rs2(w), Rs1(w), Funct3(w), Opcode(w))
  }

  function BOffset(w: bv32): bv32
  {
    SignExtend13(((w >> 31) << 12) | (((w >> 25) & 0x3F) << 5) | (((w >> 8) & 0xF) << 1) | (((w >> 7) & 1) << 11))
  }

  function DecodeU(w: bv32): UType
  {
    UType(w >> 12, Rd(w), Opcode(w))
  }

  /** offset[20] from bit 31, [10:1] from 30:21, [11] from bit 20, [19:12] from 19:12. */
  function DecodeJ(w: bv32): JType
  {
    JType(JOffset(w), Rd(w), Opcode(w))
  }

  function JOffset(w: bv32): bv32
  {
    SignExtend21(((w >> 31) << 20) | (((w >> 21) & 0x3FF) << 1) | (((w >> 20) & 1) << 11) | (((w >> 12) & 0xFF) << 12))
  }

  // ---------------------------------------------------------------------
  // Encoders (the Emit helpers' arithmetic), each with its round trip

  /** EmitI: imm12 << 20 | rs1 << 15 | funct3 << 12 | rd << 7 | opcode, with IsInt<12>(imm12). */
  function EncodeI(imm12: bv32, rs1: bv32, funct3: bv32, rd: bv32, opcode: bv32): (w: bv32)
    requires imm12 < 0x800 || imm12 >= 0xFFFF_F800
    requires rs1 < 32 && funct3 < 8 && rd < 32 && opcode < 128
    ensures DecodeI(w) == IType(imm12, rs1, funct3, rd, opcode)
  {
    (imm12 << 20) | (rs1 << 15) | (funct3 << 12) | (rd << 7) | opcode
  }

  /** EmitR: funct7 << 25 | rs2 << 20 | rs1 << 15 | funct3 << 12 | rd << 7 | opcode. */
  function EncodeR(funct7: bv32, rs2: bv32, rs1: bv32, funct3: bv32, rd: bv32, opcode: bv32): (w: bv32)
    requires funct7 < 128 && rs2 < 32 && rs1 < 32 && funct3 < 8 && rd < 32 && opcode < 128
    ensures DecodeR(w) == RType(funct7, rs2, rs1, funct3, rd, opcode)
  {
    (funct7 << 25) | (rs2 << 20) | (rs1 << 15) | (funct3 << 12) | (rd << 7) | opcode
  }

  /** EmitR4: the fused multiply-add form, rs3 at bits 31:27 and fmt at 26:25. */
  function EncodeR4(rs3: bv32, fmt: bv32, rs2: bv32, rs1: bv32, funct3: bv32, rd: bv32, opcode: bv32): (w: bv32)
    requires rs3 < 32 && fmt < 4 && rs2 < 32 && rs1 < 32 && funct3 < 8 && rd < 32 && opcode < 128
    ensures DecodeR4(w) == R4Type(rs3, fmt, rs2, rs1, funct3, rd, opcode)
  {
    (rs3 << 27) | (fmt << 25) | (rs2 << 20) | (rs1 << 15) | (funct3 << 12) | (rd << 7) | opcode
  }

  /** EmitS: imm[11:5] goes to bits 31:25 and imm[4:0] to bits 11:7, with IsInt<12>(imm12). */
  function EncodeS(imm12: bv32, rs2: bv32, rs1: bv32, funct3: bv32, opcode: bv32): (w: bv32)
    requires imm12 < 0x800 || imm12 >= 0xFFFF_F800
    requires rs2 < 32 && rs1 < 32 && funct3 < 8 && opcode < 128
    ensures DecodeS(w) == SType(imm12, rs2, rs1, funct3, opcode)
  {
    ((imm12 & 0xFE0) << 20) | (rs2 << 20) | (rs1 << 15) | (funct3 << 12) | ((imm12 & 0x1F) << 7) | opcode
  }

  /** EmitI6: the shift-immediate form, funct6 at bits 31:26 and the 6-bit shamt at 25:20. */
  function EncodeI6(funct6: bv32, imm6: bv32, rs1: bv32, funct3: bv32, rd: bv32, opcode: bv32): (w: bv32)
    requires funct6 < 64 && imm6 < 64 && rs1 < 32 && funct3 < 8 && rd < 32 && opcode < 128
    ensures DecodeI6(w) == I6Type(funct6, imm6, rs1, funct3, rd, opcode)
  {
    (funct6 << 26) | (imm6 << 20) | (rs1 << 15) | (funct3 << 12) | (rd << 7) | opcode
  }

  /**
   * EmitB: an even offset with IsInt<13>, scattered as bit 12 -> 31,
   * 10:5 -> 30:25, 4:1 -> 11:8 and 11 -> 7.  The offset's four pieces are
   * gathered in BranchOffsetBits; OR being commutative, the word is the
   * one the source builds.
   */
  function EncodeB(offset: bv32, rs2: bv32, rs1: bv32, funct3: bv32, opcode: bv32): (w: bv32)
    requires offset & 1 == 0 && (offset < 0x1000 || offset >= 0xFFFF_F000)
    requires rs2 < 32 && rs1 < 32 && funct3 < 8 && opcode < 128
    ensures DecodeB(w) == BType(offset, rs2, rs1, funct3, opcode)
  {
    var x := BranchOffsetBits(offset);
    BranchFieldsApart(x, rs2, rs1, funct3, opcode);
    x | (rs2 << 20) | (rs1 << 15) | (funct3 << 12) | opcode
  }

  /** The offset bits of a branch word, clear of every other field. */
  function BranchOffsetBits(offset: bv32): (x: bv32)
    requires offset & 1 == 0 && (offset < 0x1000 || offset >= 0xFFFF_F000)
    ensures x & 0x01FF_F07F == 0
    ensures BOffset(x) == offset
  {
    var imm12 := (offset >> 1) & 0xfff;
    ((imm12 & 0x800) << (31 - 11)) | ((imm12 & 0x03f0) << (25 - 4)) |
      ((imm12 & 0xf) << 8) | ((imm12 & 0x400) >> (10 - 7))
  }

  /** ORing the register fields into offset bits leaves each readable. */
  lemma BranchFieldsApart(x: bv32, rs2: bv32, rs1: bv32, funct3: bv32, opcode: bv32)
    requires x & 0x01FF_F07F == 0
    requires rs2 < 32 && rs1 < 32 && funct3 < 8 && opcode < 128
    ensures var w := x | (rs2 << 20) | (rs1 << 15) | (funct3 << 12) | opcode;
      BOffset(w) == BOffset(x) && Rs2(w) == rs2 && Rs1(w) == rs1 && Funct3(w) == funct3 && Opcode(w) == opcode
  {
  }

  /** EmitU: the 20-bit upper immediate at bits 31:12 (IsUint<20> is a CHECK here). */
  function EncodeU(imm20: bv32, rd: bv32, opcode: bv32): (w: bv32)
    requires imm20 < 0x10_0000 && rd < 32 && opcode < 128
    ensures DecodeU(w) == UType(imm20, rd, opcode)
  {
    (imm20 << 12) | (rd << 7) | opcode
  }

  /**
   * EmitJ: an even offset with IsInt<21>, scattered as bit 20 -> 31,
   * 10:1 -> 30:21, 11 -> 20 and 19:12 -> 19:12.
   */
  function EncodeJ(offset: bv32, rd: bv32, opcode: bv32): (w: bv32)
    requires offset & 1 == 0 && (offset < 0x10_0000 || offset >= 0xFFF0_0000)
    requires rd < 32 && opcode < 128
    ensures DecodeJ(w) == JType(offset, rd, opcode)
  {
    var imm20 := (offset >> 1) & 0xfffff;
    ((imm20 & 0x80000) << (31 - 19)) | ((imm20 & 0x03ff) << 21) |
      ((imm20 & 0x400) << (20 - 10)) | ((imm20 & 0x7f800) << (12 - 11)) |
      (rd << 7) | opcode
  }
}
