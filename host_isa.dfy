/**
 * Per-ISA instruction alignment for the backend.  The ISA is the raw
 * `uint8_t` enum code, so codes outside the enum reach the default case
 * just as kNone does.
 */
module HostIsa {
  import Bits

  const None: nat := 0
  const Arm: nat := 1
  const Arm64: nat := 2
  const X86: nat := 3
  const X86_64: nat := 4
  const Riscv32: nat := 5
  const Riscv64: nat := 6
  const LoongArch: nat := 7

  /** Code alignment: the first instruction of a method. */
  const ArmAlignment: nat := 8
  const Arm64Alignment: nat := 16
  const X86Alignment: nat := 16

  const Thumb2InstructionAlignment: nat := 2
  const Arm32InstructionAlignment: nat := 4
  const Arm64InstructionAlignment: nat := 4
  const Riscv32InstructionAlignment: nat := 4
  const Riscv64InstructionAlignment: nat := 4
  const LoongArchInstructionAlignment: nat := 4
  const X86InstructionAlignment: nat := 1
  const X86_64InstructionAlignment: nat := 1

  /** GetInstructionSetInstructionAlignment: 0 (after the debug assertion) for kNone and unknown codes. */
  function InstructionAlignment(isa: nat): (r: nat)
  {
    if isa == Arm then Arm32InstructionAlignment
    else if isa == Arm64 then Arm64InstructionAlignment
    else if isa == X86 then X86InstructionAlignment
    else if isa == X86_64 then X86_64InstructionAlignment
    else if isa == Riscv32 then Riscv32InstructionAlignment
    else if isa == Riscv64 then Riscv64InstructionAlignment
    else if isa == LoongArch then LoongArchInstructionAlignment
    else 0
  }

  /** The fixed-width ISAs align to 4 bytes, x86 to 1, and only kNone and unknown codes give 0. */
  lemma AlignmentByIsa(isa: nat)
    ensures InstructionAlignment(isa) == 4 <==> isa in {Arm, Arm64, Riscv32, Riscv64, LoongArch}
    ensures InstructionAlignment(isa) == 1 <==> isa in {X86, X86_64}
    ensures InstructionAlignment(isa) == 0 <==> isa == None || isa > LoongArch
  {
  }

  /** Every alignment the switch returns is a power of two. */
  lemma AlignmentIsPow2(isa: nat)
    requires InstructionAlignment(isa) != 0
    ensures Bits.IsPow2(InstructionAlignment(isa))
  {
    Bits.Pow2Small();
    assert Bits.Pow2(0) == 1;
    if InstructionAlignment(isa) == 4 {
      assert 2 < 4 && 4 == Bits.Pow2(2);
    } else {
      assert 0 < 1 && 1 == Bits.Pow2(0);
    }
  }

  /** For Arm, Arm64 and x86 the code alignment is a multiple of the instruction alignment. */
  lemma CodeAlignmentCoversInstructions()
    ensures ArmAlignment % InstructionAlignment(Arm) == 0
    ensures Arm64Alignment % InstructionAlignment(Arm64) == 0
    ensures X86Alignment % InstructionAlignment(X86) == 0
  {
  }
}
