/**
 * The mask-based alignment utilities (namespace `ams::util`).
 *
 * `invmask` is `alignment - 1` cast to the unsigned type; AlignUp adds it
 * and clears the low bits, AlignDown only clears them, IsAligned tests
 * them, and GetAlignment isolates the lowest set bit with `value & -value`.
 * Values are w-bit words; pointers are 64-bit addresses.
 */
module UtilsCommon {
  import opened Bits

  const PointerBits: nat := 64

  /** `static_cast<U>(alignment - 1)`: size_t subtraction, truncated to w bits. */
  function InvMask(alignment: nat, w: nat): nat
  {
    if alignment == 0 then Mask(w) else (alignment - 1) % Pow2(w)
  }

  function AlignUp(v: nat, alignment: nat, w: nat): (r: nat)
    requires v < Pow2(w)
  {
    var inv := InvMask(alignment, w);
    And((v + inv) % Pow2(w), Not(inv, w))
  }

  function AlignDown(v: nat, alignment: nat, w: nat): (r: nat)
    requires v < Pow2(w)
  {
    And(v, Not(InvMask(alignment, w), w))
  }

  predicate IsAligned(v: nat, alignment: nat, w: nat)
  {
    And(v, InvMask(alignment, w)) == 0
  }

  /** `value & -value`, defined for unsigned types only. */
  function GetAlignment(v: nat, w: nat): (r: nat)
    requires v < Pow2(w)
    ensures v == 0 ==> r == 0
    ensures v > 0 ==> r == Pow2(TrailingZeros(v)) && v % r == 0 && (v / r) % 2 == 1
  {
    if v > 0 then
      LowestSetBit(v, w);
      TrailingZerosMeaning(v);
      And(v, Neg(v, w))
    else
      And(v, Neg(v, w))
  }

  /** The number of zero bits below the lowest set bit. */
  function TrailingZeros(v: nat): nat
    requires v > 0
  {
    if v % 2 == 1 then 0 else 1 + TrailingZeros(v / 2)
  }

  // ---------------------------------------------------------------------
  // Meaning of the helpers for a power-of-two alignment

  lemma InvMaskOfPow2(k: nat, w: nat)
    requires k <= w
    ensures InvMask(Pow2(k), w) == Mask(k)
  {
    Pow2Mono(k, w);
    ModSmall(Mask(k), Pow2(w));
  }

  /** AlignDown is the greatest multiple of the alignment that is <= v. */
  lemma AlignDownSpec(v: nat, alignment: nat, w: nat)
    requires IsPow2(alignment) && alignment <= Pow2(w) && v < Pow2(w)
    ensures AlignDown(v, alignment, w) % alignment == 0
    ensures AlignDown(v, alignment, w) <= v < AlignDown(v, alignment, w) + alignment
  {
    var k: nat :| k < alignment && alignment == Pow2(k);
    PowLeWidth(k, w);
    InvMaskOfPow2(k, w);
    AndNotMask(v, k, w);
    var r := v - v % alignment;
    assert AlignDown(v, alignment, w) == r;
    DivMod(v, alignment);
    DivUnique(r, alignment, v / alignment, 0);
  }

  /** Without overflow, AlignUp is the least multiple of the alignment that is >= v. */
  lemma AlignUpSpec(v: nat, alignment: nat, w: nat)
    requires IsPow2(alignment) && alignment <= Pow2(w) && v < Pow2(w)
    requires v + alignment - 1 < Pow2(w)
    ensures AlignUp(v, alignment, w) % alignment == 0
    ensures v <= AlignUp(v, alignment, w) < v + alignment
  {
    var k: nat :| k < alignment && alignment == Pow2(k);
    PowLeWidth(k, w);
    InvMaskOfPow2(k, w);
    var u := v + (alignment - 1);
    assert InvMask(alignment, w) == alignment - 1;
    AlignUpIsAlignDown(v, alignment, w, u);
    AlignDownSpec(u, alignment, w);
  }

  lemma AlignUpIsAlignDown(v: nat, alignment: nat, w: nat, u: nat)
    requires u == v + InvMask(alignment, w) < Pow2(w)
    ensures AlignUp(v, alignment, w) == AlignDown(u, alignment, w)
  {
    ModSmall(u, Pow2(w));
  }

  /** IsAligned(v, a) holds iff v is a multiple of a, iff AlignDown leaves v unchanged. */
  lemma IsAlignedSpec(v: nat, alignment: nat, w: nat)
    requires IsPow2(alignment) && alignment <= Pow2(w) && v < Pow2(w)
    ensures IsAligned(v, alignment, w) <==> v % alignment == 0
    ensures IsAligned(v, alignment, w) <==> AlignDown(v, alignment, w) == v
  {
    var k: nat :| k < alignment && alignment == Pow2(k);
    PowLeWidth(k, w);
    InvMaskOfPow2(k, w);
    AndMask(v, k);
    AndNotMask(v, k, w);
  }

  lemma PowLeWidth(k: nat, w: nat)
    requires Pow2(k) <= Pow2(w)
    ensures k <= w
  {
    if k > w {
      Pow2Mono(w + 1, k);
    }
  }

  // ---------------------------------------------------------------------
  // `value & -value` is the lowest set bit

  lemma {:induction false} AndNotSelf(x: nat, w: nat)
    ensures And(x, Not(x, w)) == 0
  {
    if x != 0 && w != 0 && Not(x, w) != 0 {
      AndNotSelf(x / 2, w - 1);
    }
  }

  lemma {:induction false} LowestSetBit(v: nat, w: nat)
    requires 0 < v < Pow2(w)
    ensures And(v, Neg(v, w)) == Pow2(TrailingZeros(v))
  {
    assert w > 0;
    ModSmall(v, Pow2(w));
    ModSmall(Pow2(w) - v, Pow2(w));
    var n := Neg(v, w);
    assert n == Pow2(w) - v;
    if v % 2 == 1 {
      NotIsComplement(v, w);
      var n' := Not(v / 2, w - 1);
      assert Not(v, w) == 2 * n';
      assert n == 2 * n' + 1;
      assert n / 2 == n' && n % 2 == 1;
      AndNotSelf(v / 2, w - 1);
    } else {
      var u := v / 2;
      assert Pow2(w) == 2 * Pow2(w - 1);
      ModSmall(u, Pow2(w - 1));
      ModSmall(Pow2(w - 1) - u, Pow2(w - 1));
      assert n == 2 * Neg(u, w - 1);
      assert n / 2 == Neg(u, w - 1) && n % 2 == 0;
      LowestSetBit(u, w - 1);
    }
  }

  lemma {:induction false} TrailingZerosMeaning(v: nat)
    requires v > 0
    ensures v % Pow2(TrailingZeros(v)) == 0
    ensures (v / Pow2(TrailingZeros(v))) % 2 == 1
  {
    if v % 2 == 0 {
      var t := TrailingZeros(v / 2);
      TrailingZerosMeaning(v / 2);
      DivPow2Succ(v, t);
    }
  }

  // ---------------------------------------------------------------------
  // The pointer specialisations delegate to the uintptr_t versions

  datatype Ptr = Ptr(addr: nat)

  function AlignUpPtr(p: Ptr, alignment: nat): (r: Ptr)
    requires p.addr < Pow2(PointerBits)
    requires IsPow2(alignment) && alignment <= Pow2(PointerBits)
    requires p.addr + alignment - 1 < Pow2(PointerBits)
    ensures r.addr % alignment == 0 && p.addr <= r.addr < p.addr + alignment
  {
    AlignUpSpec(p.addr, alignment, PointerBits);
    Ptr(AlignUp(p.addr, alignment, PointerBits))
  }

  function AlignDownPtr(p: Ptr, alignment: nat): (r: Ptr)
    requires p.addr < Pow2(PointerBits)
    requires IsPow2(alignment) && alignment <= Pow2(PointerBits)
    ensures r.addr % alignment == 0 && r.addr <= p.addr < r.addr + alignment
  {
    AlignDownSpec(p.addr, alignment, PointerBits);
    Ptr(AlignDown(p.addr, alignment, PointerBits))
  }

  predicate IsAlignedPtr(p: Ptr, alignment: nat)
  {
    IsAligned(p.addr, alignment, PointerBits)
  }

  lemma IsAlignedPtrSpec(p: Ptr, alignment: nat)
    requires p.addr < Pow2(PointerBits)
    requires IsPow2(alignment) && alignment <= Pow2(PointerBits)
    ensures IsAlignedPtr(p, alignment) <==> p.addr % alignment == 0
  {
    IsAlignedSpec(p.addr, alignment, PointerBits);
  }
}
