/**
 * Scratch registers of the RISC-V assembler.
 *
 * The assembler keeps two 32-bit masks of registers free for scratch use,
 * one for core (X) registers and one for floating-point (F) registers.
 * A ScratchRegisterScope hands registers out and takes them back by
 * clearing and setting bits, and restores both masks when it ends.
 */
module RiscvScratch {
  import opened Bits

  const MaskBits: nat := 32
  const NumberOfXRegisters: nat := 32
  const NumberOfFRegisters: nat := 32

  /** TMP is T6 (x31), TMP2 is T5 (x30), FTMP is FT11 (f31). */
  const T5: nat := 30
  const T6: nat := 31
  const FT11: nat := 31
  const Tmp: nat := T6
  const Tmp2: nat := T5
  const FTmp: nat := FT11

  /** `1u << reg` on a 32-bit word. */
  function RegBit(reg: nat): nat
  {
    Shl(1, reg, MaskBits)
  }

  /** The masks the assembler starts with: (1u << TMP) | (1u << TMP2) and 1u << FTMP. */
  function InitialCoreMask(): nat
  {
    Or(RegBit(Tmp), RegBit(Tmp2))
  }

  function InitialFpMask(): nat
  {
    RegBit(FTmp)
  }

  // ---------------------------------------------------------------------
  // Counting leading zeros and population

  /** CLZ of the low w bits: zeros above the highest set bit, counted from bit w - 1. */
  function Clz(m: nat, w: nat): nat
  {
    if w == 0 then 0 else if Bit(m, w - 1) then 0 else 1 + Clz(m, w - 1)
  }

  /** POPCOUNT: the number of set bits. */
  function PopCount(m: nat): nat
  {
    if m == 0 then 0 else m % 2 + PopCount(m / 2)
  }

  lemma {:induction false} ClzFindsHighest(m: nat, w: nat)
    requires 0 < m < Pow2(w)
    ensures Clz(m, w) < w
    ensures Bit(m, w - 1 - Clz(m, w))
    ensures forall j :: w - 1 - Clz(m, w) < j < w ==> !Bit(m, j)
  {
    var p := Pow2(w - 1);
    if !Bit(m, w - 1) {
      var q := m / p;
      DivMod(m, p);
      assert m >= q * p;
      if q >= 2 {
        MulLe(2, q, p);
      }
      assert q == 0;
      assert m < p;
      ClzFindsHighest(m, w - 1);
    }
  }

  lemma {:induction false} Pow2Bit(k: nat, i: nat)
    ensures Bit(Pow2(k), i) == (i == k)
  {
    MulPow2Bit(1, k, i);
    if k <= i && i - k > 0 {
      BitSucc(1, i - k - 1);
      BitOfZero(i - k - 1);
    }
  }

  lemma RegBitIsPow2(reg: nat)
    requires reg < MaskBits
    ensures RegBit(reg) == Pow2(reg) && Pow2(reg) < Pow2(MaskBits)
  {
    Pow2Less(reg, MaskBits);
    assert 1 * Pow2(reg) == Pow2(reg);
    ModSmall(Pow2(reg), Pow2(MaskBits));
  }

  /** Adding a bit that is clear sets exactly that bit. */
  lemma {:induction false} AddPow2Bits(x: nat, r: nat, i: nat)
    requires !Bit(x, r)
    ensures Bit(x + Pow2(r), i) == (Bit(x, i) || i == r)
  {
    var c := x % 2;
    var y := x / 2;
    assert x == 2 * y + c;
    if r == 0 {
      BitZero(x);
      BitOfTwice(y, c, i);
      BitOfTwice(y, 1, i);
    } else {
      assert x + Pow2(r) == 2 * (y + Pow2(r - 1)) + c;
      BitOfTwice(y + Pow2(r - 1), c, i);
      BitOfTwice(y, c, i);
      BitOfTwice(y, c, r);
      if i > 0 {
        AddPow2Bits(y, r - 1, i - 1);
      }
    }
  }

  /** Setting a clear bit adds one to the population. */
  lemma {:induction false} AddPow2Count(x: nat, r: nat)
    requires !Bit(x, r)
    ensures PopCount(x + Pow2(r)) == PopCount(x) + 1
  {
    var c := x % 2;
    var y := x / 2;
    assert PopCount(x) == c + PopCount(y);
    if r == 0 {
      BitZero(x);
      assert x + Pow2(r) == 2 * y + 1;
      DivUnique(x + Pow2(r), 2, y, 1);
    } else {
      BitSucc(x, r - 1);
      assert x + Pow2(r) == 2 * (y + Pow2(r - 1)) + c;
      DivUnique(x + Pow2(r), 2, y + Pow2(r - 1), c);
      AddPow2Count(y, r - 1);
    }
  }

  lemma WordBits(m: nat)
    requires m < Pow2(MaskBits)
    ensures forall i: nat :: MaskBits <= i ==> !Bit(m, i)
  {
    forall i: nat | MaskBits <= i
      ensures !Bit(m, i)
    {
      NoBitAbove(m, MaskBits, i);
    }
  }

  // ---------------------------------------------------------------------
  // The mask operations

  datatype Allocation = Allocation(reg: nat, mask: nat)

  /**
   * AllocateXRegister / AllocateFRegister: CHECK_NE(mask, 0); take
   * reg = (32 - 1) - CLZ(mask), the highest free register, and clear it.
   */
  function Allocate(mask: nat): (a: Allocation)
    requires 0 < mask < Pow2(MaskBits)
    ensures a.reg < MaskBits && Bit(mask, a.reg)
    ensures forall j :: a.reg < j < MaskBits ==> !Bit(mask, j)
    ensures a.mask < Pow2(MaskBits)
    ensures forall i: nat :: Bit(a.mask, i) == (Bit(mask, i) && i != a.reg)
  {
    ClzFindsHighest(mask, MaskBits);
    var reg := (MaskBits - 1) - Clz(mask, MaskBits);
    ClearBit(mask, reg);
    Allocation(reg, And(mask, Not(RegBit(reg), MaskBits)))
  }

  /** FreeXRegister / FreeFRegister: CHECK that the bit is clear, then set it. */
  function Free(mask: nat, reg: nat): (r: nat)
    requires mask < Pow2(MaskBits) && reg < MaskBits
    requires And(RegBit(reg), mask) == 0
    ensures r < Pow2(MaskBits) && !Bit(mask, reg)
    ensures forall i: nat :: Bit(r, i) == (Bit(mask, i) || i == reg)
    ensures r == mask + Pow2(reg)
  {
    SetClearBit(mask, reg);
    Or(mask, RegBit(reg))
  }

  lemma SetClearBit(mask: nat, reg: nat)
    requires mask < Pow2(MaskBits) && reg < MaskBits
    requires And(RegBit(reg), mask) == 0
    ensures !Bit(mask, reg)
    ensures Or(mask, RegBit(reg)) == mask + Pow2(reg) < Pow2(MaskBits)
    ensures forall i: nat :: Bit(Or(mask, RegBit(reg)), i) == (Bit(mask, i) || i == reg)
  {
    RegBitIsPow2(reg);
    AndBit(RegBit(reg), mask, reg);
    Pow2Bit(reg, reg);
    SetBit(mask, reg);
    AndComm(RegBit(reg), mask);
    OrDisjoint(mask, RegBit(reg));
  }

  lemma SetBit(mask: nat, reg: nat)
    requires mask < Pow2(MaskBits) && reg < MaskBits
    ensures Or(mask, RegBit(reg)) < Pow2(MaskBits)
    ensures forall i: nat :: Bit(Or(mask, RegBit(reg)), i) == (Bit(mask, i) || i == reg)
  {
    RegBitIsPow2(reg);
    forall i: nat
      ensures Bit(Or(mask, RegBit(reg)), i) == (Bit(mask, i) || i == reg)
    {
      OrBit(mask, RegBit(reg), i);
      Pow2Bit(reg, i);
    }
    OrBelow(mask, RegBit(reg), MaskBits);
  }

  lemma ClearBit(mask: nat, reg: nat)
    requires mask < Pow2(MaskBits) && reg < MaskBits
    ensures And(mask, Not(RegBit(reg), MaskBits)) < Pow2(MaskBits)
    ensures forall i: nat :: Bit(And(mask, Not(RegBit(reg), MaskBits)), i) == (Bit(mask, i) && i != reg)
  {
    RegBitIsPow2(reg);
    forall i: nat
      ensures Bit(And(mask, Not(RegBit(reg), MaskBits)), i) == (Bit(mask, i) && i != reg)
    {
      AndBit(mask, Not(RegBit(reg), MaskBits), i);
      NotBit(RegBit(reg), MaskBits, i);
      Pow2Bit(reg, i);
      if MaskBits <= i {
        NoBitAbove(mask, MaskBits, i);
      }
    }
    AndBelow(mask, Not(RegBit(reg), MaskBits), MaskBits);
  }

  /** IncludeXRegister / IncludeFRegister: set the bit, whether or not it was set. */
  function Include(mask: nat, reg: nat): (r: nat)
    requires mask < Pow2(MaskBits) && reg < MaskBits
    ensures r < Pow2(MaskBits)
    ensures forall i: nat :: Bit(r, i) == (Bit(mask, i) || i == reg)
  {
    SetBit(mask, reg);
    Or(mask, RegBit(reg))
  }

  /** ExcludeXRegister / ExcludeFRegister: clear the bit, whether or not it was set. */
  function Exclude(mask: nat, reg: nat): (r: nat)
    requires mask < Pow2(MaskBits) && reg < MaskBits
    ensures r < Pow2(MaskBits)
    ensures forall i: nat :: Bit(r, i) == (Bit(mask, i) && i != reg)
  {
    ClearBit(mask, reg);
    And(mask, Not(RegBit(reg), MaskBits))
  }

  // ---------------------------------------------------------------------
  // What the operations promise together

  /** Freeing the register just allocated gives the mask back. */
  lemma FreeUndoesAllocate(mask: nat)
    requires 0 < mask < Pow2(MaskBits)
    ensures var a := Allocate(mask);
      And(RegBit(a.reg), a.mask) == 0 && Free(a.mask, a.reg) == mask
  {
    var a := Allocate(mask);
    NoCommonBit(a.mask, a.reg);
    var f := Free(a.mask, a.reg);
    assert forall i: nat :: Bit(f, i) == Bit(mask, i);
    BitsEqual(f, mask, MaskBits);
  }

  /** A mask without bit `reg` shares no bit with `1u << reg`. */
  lemma NoCommonBit(mask: nat, reg: nat)
    requires reg < MaskBits && !Bit(mask, reg)
    ensures And(RegBit(reg), mask) == 0
  {
    RegBitIsPow2(reg);
    forall i: nat | i < reg + 1
      ensures !Bit(And(RegBit(reg), mask), i)
    {
      AndBit(RegBit(reg), mask, i);
      Pow2Bit(reg, i);
    }
    Pow2Gt(reg);
    AndBelow(RegBit(reg), mask, reg + 1);
    ZeroIffNoBit(And(RegBit(reg), mask), reg + 1);
  }

  /** Allocation takes exactly one register out of the count; freeing puts it back. */
  lemma AllocateCount(mask: nat)
    requires 0 < mask < Pow2(MaskBits)
    ensures PopCount(Allocate(mask).mask) == PopCount(mask) - 1
  {
    var a := Allocate(mask);
    FreeUndoesAllocate(mask);
    AddPow2Count(a.mask, a.reg);
  }

  lemma FreeCount(mask: nat, reg: nat)
    requires mask < Pow2(MaskBits) && reg < MaskBits
    requires And(RegBit(reg), mask) == 0
    ensures PopCount(Free(mask, reg)) == PopCount(mask) + 1
  {
    var r := Free(mask, reg);
    assert r == mask + Pow2(reg) && !Bit(mask, reg);
    AddPow2Count(mask, reg);
  }

  /** The initial core mask holds exactly T6 and T5; the FP mask is below 2^32. */
  lemma InitialMasks()
    ensures 0 < InitialCoreMask() < Pow2(MaskBits) && InitialFpMask() < Pow2(MaskBits)
    ensures forall i: nat :: Bit(InitialCoreMask(), i) == (i == T6 || i == T5)
  {
    RegBitIsPow2(FTmp);
    SetBit(RegBit(T6), T5);
    RegBitIsPow2(T6);
    forall i: nat
      ensures Bit(InitialCoreMask(), i) == (i == T6 || i == T5)
    {
      Pow2Bit(T6, i);
    }
    Pow2Bit(T6, T6);
    if InitialCoreMask() == 0 {
      BitOfZero(T6);
    }
  }

  /** Bit i of 2^T5 is set iff i is T5, and 2^T5 is a 32-bit word. */
  lemma Tmp2Mask()
    ensures 0 < Pow2(T5) < Pow2(MaskBits)
    ensures forall i: nat :: Bit(Pow2(T5), i) == (i == T5)
  {
    RegBitIsPow2(T5);
    forall i: nat
      ensures Bit(Pow2(T5), i) == (i == T5)
    {
      Pow2Bit(T5, i);
    }
  }

  /** From the initial core mask the first register handed out is T6, then T5, then none is left. */
  lemma InitialAllocations()
    ensures 0 < InitialCoreMask() < Pow2(MaskBits)
    ensures Allocate(InitialCoreMask()).reg == T6
    ensures Allocate(InitialCoreMask()).mask == Pow2(T5)
    ensures Allocate(Pow2(T5)) == Allocation(T5, 0)
  {
    FirstAllocation();
    SecondAllocation();
  }

  lemma FirstAllocation()
    ensures 0 < InitialCoreMask() < Pow2(MaskBits)
    ensures Allocate(InitialCoreMask()) == Allocation(T6, Pow2(T5))
  {
    InitialMasks();
    AllocateTop(InitialCoreMask());
  }

  lemma AllocateTop(m: nat)
    requires 0 < m < Pow2(MaskBits)
    requires forall i: nat :: Bit(m, i) == (i == T6 || i == T5)
    ensures Allocate(m) == Allocation(T6, Pow2(T5))
  {
    Tmp2Mask();
    var a := Allocate(m);
    assert a.reg == T6;
    assert forall i: nat :: i < MaskBits ==> Bit(a.mask, i) == Bit(Pow2(T5), i);
    BitsEqual(a.mask, Pow2(T5), MaskBits);
  }

  lemma SecondAllocation()
    ensures 0 < Pow2(T5) < Pow2(MaskBits)
    ensures Allocate(Pow2(T5)) == Allocation(T5, 0)
  {
    Tmp2Mask();
    var b := Allocate(Pow2(T5));
    assert b.reg == T5;
    assert forall i: nat :: i < MaskBits ==> !Bit(b.mask, i);
    ZeroIffNoBit(b.mask, MaskBits);
  }

  // ---------------------------------------------------------------------
  // The assembler's masks and the scope over them

  class Riscv64Assembler {
    var availableCore: nat
    var availableFp: nat

    predicate Valid()
      reads this
    {
      availableCore < Pow2(MaskBits) && availableFp < Pow2(MaskBits)
    }

    constructor()
      ensures Valid() && availableCore == InitialCoreMask() && availableFp == InitialFpMask()
    {
      InitialMasks();
      availableCore := InitialCoreMask();
      availableFp := InitialFpMask();
    }
  }

  class ScratchRegisterScope {
    const assembler: Riscv64Assembler
    const oldCore: nat
    const oldFp: nat

    /** The scope saves both masks when it opens. */
    constructor(assembler: Riscv64Assembler)
      ensures this.assembler == assembler
      ensures oldCore == assembler.availableCore && oldFp == assembler.availableFp
    {
      this.assembler := assembler;
      oldCore := assembler.availableCore;
      oldFp := assembler.availableFp;
    }

    /** The destructor: both masks return to their values at construction. */
    method Close()
      modifies assembler
      ensures assembler.availableCore == oldCore && assembler.availableFp == oldFp
    {
      assembler.availableCore := oldCore;
      assembler.availableFp := oldFp;
    }

    method AllocateXRegister() returns (reg: nat)
      requires assembler.Valid() && assembler.availableCore != 0
      modifies assembler
      ensures assembler.Valid() && reg < NumberOfXRegisters
      ensures Allocate(old(assembler.availableCore)) == Allocation(reg, assembler.availableCore)
      ensures assembler.availableFp == old(assembler.availableFp)
    {
      var a := Allocate(assembler.availableCore);
      assembler.availableCore := a.mask;
      reg := a.reg;
    }

    method FreeXRegister(reg: nat)
      requires assembler.Valid() && reg < NumberOfXRegisters
      requires And(RegBit(reg), assembler.availableCore) == 0
      modifies assembler
      ensures assembler.Valid()
      ensures assembler.availableCore == Free(old(assembler.availableCore), reg)
      ensures assembler.availableFp == old(assembler.availableFp)
    {
      assembler.availableCore := Free(assembler.availableCore, reg);
    }

    function AvailableXRegisters(): nat
      reads assembler
    {
      PopCount(assembler.availableCore)
    }

    method IncludeXRegister(reg: nat)
      requires assembler.Valid() && reg < NumberOfXRegisters
      modifies assembler
      ensures assembler.Valid()
      ensures assembler.availableCore == Include(old(assembler.availableCore), reg)
      ensures assembler.availableFp == old(assembler.availableFp)
    {
      assembler.availableCore := Include(assembler.availableCore, reg);
    }

    method ExcludeXRegister(reg: nat)
      requires assembler.Valid() && reg < NumberOfXRegisters
      modifies assembler
      ensures assembler.Valid()
      ensures assembler.availableCore == Exclude(old(assembler.availableCore), reg)
      ensures assembler.availableFp == old(assembler.availableFp)
    {
      assembler.availableCore := Exclude(assembler.availableCore, reg);
    }

    method AllocateFRegister() returns (reg: nat)
      requires assembler.Valid() && assembler.availableFp != 0
      modifies assembler
      ensures assembler.Valid() && reg < NumberOfFRegisters
      ensures Allocate(old(assembler.availableFp)) == Allocation(reg, assembler.availableFp)
      ensures assembler.availableCore == old(assembler.availableCore)
    {
      var a := Allocate(assembler.availableFp);
      assembler.availableFp := a.mask;
      reg := a.reg;
    }

    method FreeFRegister(reg: nat)
      requires assembler.Valid() && reg < NumberOfFRegisters
      requires And(RegBit(reg), assembler.availableFp) == 0
      modifies assembler
      ensures assembler.Valid()
      ensures assembler.availableFp == Free(old(assembler.availableFp), reg)
      ensures assembler.availableCore == old(assembler.availableCore)
    {
      assembler.availableFp := Free(assembler.availableFp, reg);
    }

    function AvailableFRegisters(): nat
      reads assembler
    {
      PopCount(assembler.availableFp)
    }

    method IncludeFRegister(reg: nat)
      requires assembler.Valid() && reg < NumberOfFRegisters
      modifies assembler
      ensures assembler.Valid()
      ensures assembler.availableFp == Include(old(assembler.availableFp), reg)
      ensures assembler.availableCore == old(assembler.availableCore)
    {
      assembler.availableFp := Include(assembler.availableFp, reg);
    }

    method ExcludeFRegister(reg: nat)
      requires assembler.Valid() && reg < NumberOfFRegisters
      modifies assembler
      ensures assembler.Valid()
      ensures assembler.availableFp == Exclude(old(assembler.availableFp), reg)
      ensures assembler.availableCore == old(assembler.availableCore)
    {
      assembler.availableFp := Exclude(assembler.availableFp, reg);
    }
  }

  /** A fresh assembler's first scratch core register is TMP (T6). */
  method FirstScratchIsTmp() returns (reg: nat)
    ensures reg == Tmp
  {
    var assembler := new Riscv64Assembler();
    var scope := new ScratchRegisterScope(assembler);
    InitialAllocations();
    reg := scope.AllocateXRegister();
    scope.Close();
  }
}
