/**
 * The A64 move-wide immediates as the arm64 frontend evaluates them
 * (MOVN, MOVZ and MOVK; section C6.2 of the Arm Architecture Reference
 * Manual).  The 16-bit immediate is shifted left by hw * 16; W forms
 * allow hw < 2 only.  MOVZ yields the shifted immediate, MOVN its
 * bitwise NOT (cut to 32 bits for W forms), and MOVK the old register
 * value with the 16 bits at the shift replaced by the immediate.  Values
 * are the unsigned bit patterns of the registers.
 */
module Arm64MoveWide {
  import opened Bits
  import opened BitFields
  import opened Wrappers

  datatype MoveWideOp = MOVN | MOVZ | MOVK

  /** The register width of the form: 64 for X, 32 for W. */
  function RegBits(is64: bool): nat
  {
    if is64 then XRegBits else WRegBits
  }

  const XRegBits: nat := 64
  const WRegBits: nat := 32

  /** `kWRegMask`. */
  const WRegMask: nat := 0xFFFF_FFFF

  /** `static_cast<s64>(imm16) << shift`, as a 64-bit pattern. */
  function ShiftedImm(imm16: nat, hw: nat): nat
  {
    Shl(imm16, 16 * hw, XRegBits)
  }

  /** The previous value of Rd as the form reads it: all of X, or the low half for W. */
  function PrevValue(prev: nat, is64: bool): nat
  {
    if is64 then prev else prev % Two32
  }

  /** MOVN: `~imm`, cut to 32 bits for W forms. */
  function Movn(is64: bool, imm: nat): nat
  {
    var v := Not(imm, XRegBits);
    if is64 then v else And(v, WRegMask)
  }

  /** MOVK: BitInsert of the immediate into the previous value at the shift. */
  function Movk(is64: bool, hw: nat, imm16: nat, prev: nat): nat
    requires imm16 < 0x1_0000 && hw < 4 && prev < Two64 && (is64 || hw < 2)
  {
    WPrevBelow(prev, is64);
    Written(PrevValue(prev, is64), imm16, 16 * hw, 16, RegBits(is64))
  }

  /**
   * The value VisitMoveWideImmediate writes to Rd, given Rd's previous
   * X value; nothing when a W form has hw >= 2 (the VIXL_ASSERT).
   */
  function MoveWide(op: MoveWideOp, is64: bool, hw: nat, imm16: nat, prev: nat): (r: Option<nat>)
    requires imm16 < 0x1_0000 && hw < 4 && prev < Two64
    ensures r.None? <==> !is64 && hw >= 2
  {
    if !is64 && hw >= 2 then None
    else
      match op
      case MOVN => Some(Movn(is64, ShiftedImm(imm16, hw)))
      case MOVK => Some(Movk(is64, hw, imm16, prev))
      case MOVZ => Some(ShiftedImm(imm16, hw))
  }

  const Two32: nat := 0x1_0000_0000
  const Two64: nat := 0x1_0000_0000_0000_0000

  lemma WPrevBelow(prev: nat, is64: bool)
    requires prev < Two64
    ensures Pow2(RegBits(is64)) == (if is64 then Two64 else Two32)
    ensures PrevValue(prev, is64) < Pow2(RegBits(is64))
    ensures 0x1_0000 <= Pow2(RegBits(is64)) && Pow2(16) == 0x1_0000
  {
    Pow2Words();
  }

  /** a < n gives a * p < p * n. */
  lemma MulBelow(a: nat, n: nat, p: nat)
    requires a < n && p > 0
    ensures a * p < p * n
  {
    MulLe(a + 1, n, p);
    assert (a + 1) * p == a * p + p;
  }

  /** An n-bit value shifted left by k inside a word of at least k + n bits loses no bit. */
  lemma ShiftFits(a: nat, k: nat, n: nat, w: nat)
    requires a < Pow2(n) && k + n <= w
    ensures a * Pow2(k) < Pow2(k + n)
    ensures Shl(a, k, w) == a * Pow2(k)
  {
    var p := Pow2(k);
    MulBelow(a, Pow2(n), p);
    Pow2Add(k, n);
    Pow2Mono(k + n, w);
    ModSmall(a * p, Pow2(w));
  }

  /** `~x & Mask(k)` for a k-bit x inside a w-bit word is `Mask(k) - x`. */
  lemma NotThenCut(x: nat, w: nat, k: nat)
    requires k <= w && x < Pow2(k)
    ensures And(Not(x, w), Mask(k)) == Mask(k) - x
  {
    Pow2Mono(k, w);
    var n := Not(x, w);
    NotIsComplement(x, w);
    AndMask(n, k);
    ComplementLow(n, x, w, k);
  }

  lemma MulPred(q: int, p: int)
    ensures (q - 1) * p == q * p - p
  {
  }

  /** The low k bits of `Mask(w) - x`, for a k-bit x. */
  lemma ComplementLow(n: nat, x: nat, w: nat, k: nat)
    requires k <= w && x < Pow2(k) && n == Mask(w) - x
    ensures n % Pow2(k) == Mask(k) - x
  {
    var p, q := Pow2(k), Pow2(w - k);
    Pow2Add(w - k, k);
    assert Pow2(w) == q * p;
    MulPred(q, p);
    DivUnique(n, p, q - 1, p - 1 - x);
  }

  /** The shifted immediate loses no bit: it is imm16 * 2^(16 * hw), below 2^(16 * hw + 16). */
  lemma ShiftedImmValue(imm16: nat, hw: nat)
    requires imm16 < 0x1_0000 && hw < 4
    ensures ShiftedImm(imm16, hw) == imm16 * Pow2(16 * hw)
    ensures ShiftedImm(imm16, hw) < Pow2(16 * hw + 16)
  {
    Pow2Words();
    ShiftFits(imm16, 16 * hw, 16, XRegBits);
  }

  /** MOVZ: the immediate at its halfword, every other bit zero. */
  lemma MovzValue(is64: bool, hw: nat, imm16: nat, prev: nat)
    requires imm16 < 0x1_0000 && hw < 4 && prev < Two64 && (is64 || hw < 2)
    ensures MoveWide(MOVZ, is64, hw, imm16, prev) == Some(imm16 * Pow2(16 * hw))
    ensures imm16 * Pow2(16 * hw) < Pow2(RegBits(is64))
  {
    ShiftedImmValue(imm16, hw);
    Pow2Mono(16 * hw + 16, RegBits(is64));
  }

  /** MOVN: all ones of the register width minus the shifted immediate, that is its complement. */
  lemma MovnValue(is64: bool, hw: nat, imm16: nat, prev: nat)
    requires imm16 < 0x1_0000 && hw < 4 && prev < Two64 && (is64 || hw < 2)
    ensures MoveWide(MOVN, is64, hw, imm16, prev) == Some(Mask(RegBits(is64)) - imm16 * Pow2(16 * hw))
  {
    MovnOfShifted(is64, hw, imm16);
    assert MoveWide(MOVN, is64, hw, imm16, prev) == Some(Movn(is64, ShiftedImm(imm16, hw)));
  }

  lemma MovnOfShifted(is64: bool, hw: nat, imm16: nat)
    requires imm16 < 0x1_0000 && hw < 4 && (is64 || hw < 2)
    ensures Movn(is64, ShiftedImm(imm16, hw)) == Mask(RegBits(is64)) - imm16 * Pow2(16 * hw)
  {
    var imm := ShiftedImm(imm16, hw);
    ShiftedImmValue(imm16, hw);
    Pow2Mono(16 * hw + 16, RegBits(is64));
    MovnComplement(is64, imm);
  }

  /** `Movn` on an immediate of the register width is its complement in that width. */
  lemma MovnComplement(is64: bool, imm: nat)
    requires imm < Pow2(RegBits(is64))
    ensures Movn(is64, imm) == Mask(RegBits(is64)) - imm
  {
    Pow2Words();
    if is64 {
      NotIsComplement(imm, XRegBits);
    } else {
      NotThenCut(imm, XRegBits, WRegBits);
    }
  }

  /** Inserting a halfword: the word stays in range and the halfword reads back. */
  lemma InsertHalfword(kept: nat, imm16: nat, position: nat, w: nat)
    requires kept < Pow2(w) && imm16 < Pow2(16) <= Pow2(w) && position + 16 <= w && 32 <= w
    ensures Written(kept, imm16, position, 16, w) < Pow2(w)
    ensures ReadField(Written(kept, imm16, position, 16, w), position, 16, w) == imm16
  {
    ReadAfterWrite(kept, imm16, position, 16, w);
    ModSmall(imm16, Pow2(16));
  }

  /** MOVK: the immediate reads back from its halfword, and every other bit of the old value is kept. */
  lemma MovkValue(is64: bool, hw: nat, imm16: nat, prev: nat, i: nat)
    requires imm16 < 0x1_0000 && hw < 4 && prev < Two64 && (is64 || hw < 2)
    ensures var r := MoveWide(MOVK, is64, hw, imm16, prev).value;
      && r < Pow2(RegBits(is64))
      && ReadField(r, 16 * hw, 16, RegBits(is64)) == imm16
      && (!(16 * hw <= i < 16 * hw + 16) ==> Bit(r, i) == Bit(PrevValue(prev, is64), i))
  {
    WPrevBelow(prev, is64);
    InsertHalfword(PrevValue(prev, is64), imm16, 16 * hw, RegBits(is64));
    if !(16 * hw <= i < 16 * hw + 16) {
      WriteKeepsOutside(PrevValue(prev, is64), imm16, 16 * hw, 16, RegBits(is64), i);
    }
  }
}
