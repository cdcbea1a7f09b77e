/**
 * BitField<position, bits, T>: a field of `bits` bits at bit `position`
 * inside an unsigned storage word of `width` = 8 * sizeof(T) bits.
 * Assigning a value rewrites only the bits under the field's mask;
 * reading masks and shifts them back down.
 */
module BitFields {
  import opened Bits

  /**
   * The shape the template admits: T unsigned with bits > 0, and shift
   * counts below the width.  T is also at least as wide as `int` (32 bits),
   * so `~(T)0`, `val << position` and the mask are computed in T itself
   * rather than in a promoted `int`; every field in the runtime stores a u64.
   */
  predicate WellFormed(position: nat, bits: nat, width: nat)
  {
    0 < bits <= width && position < width && 32 <= width
  }

  /** `((~T(0)) >> (width - bits)) << position`, truncated to T. */
  function FieldMask(position: nat, bits: nat, width: nat): (r: nat)
    requires WellFormed(position, bits, width)
    ensures r < Pow2(width)
    ensures forall i: nat :: Bit(r, i) == (position <= i < width && i < position + bits)
  {
    var ones := Not(0, width);
    var low := Shr(ones, width - bits);
    forall i: nat ensures Bit(Shl(low, position, width), i) == (position <= i < width && i < position + bits) {
      ShlBit(low, position, width, i);
      if position <= i {
        ShrBit(ones, width - bits, i - position);
        NotBit(0, width, i - position + width - bits);
        BitOfZero(i - position + width - bits);
      }
    }
    BelowFromBits(Shl(low, position, width), width);
    Shl(low, position, width)
  }

  /** The storage after `field = val`: bits outside the mask kept, bits inside from `val << position`. */
  function Written(storage: nat, val: nat, position: nat, bits: nat, width: nat): (r: nat)
    requires WellFormed(position, bits, width)
    requires storage < Pow2(width) && val < Pow2(width)
    ensures r < Pow2(width)
  {
    var mask := FieldMask(position, bits, width);
    var keep := And(storage, Not(mask, width));
    var put := And(Shl(val, position, width), mask);
    AndBelow(storage, Not(mask, width), width);
    AndComm(Shl(val, position, width), mask);
    AndBelow(mask, Shl(val, position, width), width);
    OrBelow(keep, put, width);
    Or(keep, put)
  }

  /** `(T)((storage & mask) >> position)`. */
  function ReadField(storage: nat, position: nat, bits: nat, width: nat): (r: nat)
    requires WellFormed(position, bits, width)
  {
    Shr(And(storage, FieldMask(position, bits, width)), position)
  }

  /** The field's width inside the word: `bits`, cut short when the field runs past the top. */
  function FieldWidth(position: nat, bits: nat, width: nat): (r: nat)
    requires WellFormed(position, bits, width)
    ensures 0 < r <= bits && position + r <= width
  {
    if position + bits <= width then bits else width - position
  }

  /** Bit j of a read is bit position+j of the storage, for j inside the field. */
  lemma ReadBits(storage: nat, position: nat, bits: nat, width: nat)
    requires WellFormed(position, bits, width)
    ensures forall j: nat ::
      Bit(ReadField(storage, position, bits, width), j) ==
      (j < FieldWidth(position, bits, width) && Bit(storage, position + j))
  {
    var mask := FieldMask(position, bits, width);
    forall j: nat ensures Bit(ReadField(storage, position, bits, width), j) ==
      (j < FieldWidth(position, bits, width) && Bit(storage, position + j))
    {
      ShrBit(And(storage, mask), position, j);
      AndBit(storage, mask, j + position);
    }
  }

  /** A read is always below 2^bits. */
  lemma ReadBound(storage: nat, position: nat, bits: nat, width: nat)
    requires WellFormed(position, bits, width)
    ensures ReadField(storage, position, bits, width) < Pow2(bits)
  {
    ReadBits(storage, position, bits, width);
    BelowFromBits(ReadField(storage, position, bits, width), bits);
  }

  /** Bit i of the storage after a write: the value's bit inside the mask, the old bit outside. */
  lemma WrittenBits(storage: nat, val: nat, position: nat, bits: nat, width: nat)
    requires WellFormed(position, bits, width)
    requires storage < Pow2(width) && val < Pow2(width)
    ensures forall i: nat ::
      Bit(Written(storage, val, position, bits, width), i) ==
      if Bit(FieldMask(position, bits, width), i) then Bit(val, i - position) else Bit(storage, i)
  {
    var mask := FieldMask(position, bits, width);
    var keep := And(storage, Not(mask, width));
    var put := And(Shl(val, position, width), mask);
    forall i: nat ensures Bit(Written(storage, val, position, bits, width), i) ==
      if Bit(mask, i) then Bit(val, i - position) else Bit(storage, i)
    {
      OrBit(keep, put, i);
      AndBit(storage, Not(mask, width), i);
      NotBit(mask, width, i);
      AndBit(Shl(val, position, width), mask, i);
      ShlBit(val, position, width, i);
      if i >= width {
        NoBitAbove(storage, width, i);
      }
    }
  }

  /** Reading after `field = val` gives val modulo 2^bits (the field's width inside the word). */
  lemma ReadAfterWrite(storage: nat, val: nat, position: nat, bits: nat, width: nat)
    requires WellFormed(position, bits, width)
    requires storage < Pow2(width) && val < Pow2(width)
    ensures ReadField(Written(storage, val, position, bits, width), position, bits, width)
      == val % Pow2(FieldWidth(position, bits, width))
  {
    var k := FieldWidth(position, bits, width);
    var s' := Written(storage, val, position, bits, width);
    var r := ReadField(s', position, bits, width);
    ReadBits(s', position, bits, width);
    WrittenBits(storage, val, position, bits, width);
    ReadBound(s', position, bits, width);
    Pow2Mono(bits, width);
    forall j | 0 <= j < width ensures Bit(r, j) == Bit(val % Pow2(k), j) {
      if j < k {
        ModLowBit(val, k, j);
      } else {
        NoBitAbove(val % Pow2(k), k, j);
      }
    }
    Pow2Mono(k, width);
    BitsEqual(r, val % Pow2(k), width);
  }

  /** A write changes no storage bit outside the mask. */
  lemma WriteKeepsOutside(storage: nat, val: nat, position: nat, bits: nat, width: nat, i: nat)
    requires WellFormed(position, bits, width)
    requires storage < Pow2(width) && val < Pow2(width)
    requires !(position <= i < position + bits)
    ensures Bit(Written(storage, val, position, bits, width), i) == Bit(storage, i)
  {
    WrittenBits(storage, val, position, bits, width);
  }

  /** Writing the same value twice leaves the same storage as writing it once. */
  lemma WriteIdempotent(storage: nat, val: nat, position: nat, bits: nat, width: nat)
    requires WellFormed(position, bits, width)
    requires storage < Pow2(width) && val < Pow2(width)
    ensures Written(Written(storage, val, position, bits, width), val, position, bits, width)
      == Written(storage, val, position, bits, width)
  {
    var once := Written(storage, val, position, bits, width);
    var twice := Written(once, val, position, bits, width);
    WrittenBits(storage, val, position, bits, width);
    WrittenBits(once, val, position, bits, width);
    BitsEqual(twice, once, width);
  }

  /** A BitField object: only `storage` changes, through assignment. */
  class BitField {
    const position: nat
    const bits: nat
    const width: nat
    var storage: nat

    ghost predicate Valid()
      reads this
    {
      WellFormed(position, bits, width) && storage < Pow2(width)
    }

    /** The defaulted constructor leaves the storage indeterminate: it is a parameter here. */
    constructor (position: nat, bits: nat, width: nat, initial: nat)
      requires WellFormed(position, bits, width) && initial < Pow2(width)
      ensures Valid()
      ensures this.position == position && this.bits == bits && this.width == width
      ensures storage == initial
    {
      this.position := position;
      this.bits := bits;
      this.width := width;
      storage := initial;
    }

    /** `operator=(T val)`. */
    method Assign(val: nat)
      requires Valid() && val < Pow2(width)
      modifies this
      ensures Valid()
      ensures storage == Written(old(storage), val, position, bits, width)
      ensures Get() == val % Pow2(FieldWidth(position, bits, width))
    {
      var mask := FieldMask(position, bits, width);
      storage := Or(And(storage, Not(mask, width)), And(Shl(val, position, width), mask));
      assert storage == Written(old(storage), val, position, bits, width);
      ReadAfterWrite(old(storage), val, position, bits, width);
    }

    /** `operator T()`: the field's bits, shifted down. */
    function Get(): (r: nat)
      requires Valid()
      reads this
      ensures r < Pow2(bits)
      ensures forall j: nat :: Bit(r, j) == (j < FieldWidth(position, bits, width) && Bit(storage, position + j))
    {
      ReadBits(storage, position, bits, width);
      ReadBound(storage, position, bits, width);
      ReadField(storage, position, bits, width)
    }
  }
}
