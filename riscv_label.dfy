/**
 * The assembler's `Label`: one signed 32-bit word `position` that encodes
 * three states.  Zero means unused; a positive value is a linked label
 * (branches wait on it) holding `pos + sizeof(void*)`; a negative value is
 * a bound label holding `-pos - sizeof(void*)`.  The arithmetic mixes
 * `int` with the 64-bit `size_t` of `sizeof`, and the result is stored
 * back in an `int`, so each step wraps to 32 bits (Int32 below).
 */
module RiscvLabel {
  import opened Bits

  const PointerSize: int := 8
  const Two31: int := 0x8000_0000
  const Two32: int := 0x1_0000_0000

  predicate IsInt32(x: int)
  {
    -Two31 <= x < Two31
  }

  /** Truncation of an integer to a signed 32-bit value. */
  function Int32(x: int): (r: int)
    ensures IsInt32(r)
    ensures exists q :: x == q * Two32 + r
  {
    var r := (x + Two31) % Two32 - Two31;
    assert x == ((x + Two31) / Two32) * Two32 + r;
    r
  }

  lemma Int32OfInt32(x: int)
    requires IsInt32(x)
    ensures Int32(x) == x
  {
    DivUnique(x + Two31, Two32, 0, x + Two31);
  }

  /** Int32 depends only on its argument modulo 2^32. */
  lemma Int32Shift(x: int, q: int)
    ensures Int32(x + q * Two32) == Int32(x)
  {
    var r := (x + Two31) % Two32;
    var d := (x + Two31) / Two32;
    assert x + Two31 == d * Two32 + r;
    DivUnique(x + q * Two32 + Two31, Two32, d + q, r);
  }

  /** What a label is, as the three states its raw word encodes. */
  datatype LabelState = Unused | Linked(linkPosition: int) | Bound(boundPosition: int)

  /** The state a raw word stands for, with the offset undone as Position() does. */
  function StateOf(raw: int): LabelState
  {
    if raw == 0 then Unused
    else if raw < 0 then Bound(Int32(-raw - PointerSize))
    else Linked(Int32(raw - PointerSize))
  }

  /** The word BindTo stores. */
  function BoundWord(p: int): int
  {
    Int32(-p - PointerSize)
  }

  /** The word LinkTo stores. */
  function LinkedWord(p: int): int
  {
    Int32(p + PointerSize)
  }

  /**
   * BindTo's closing CHECK(IsBound()) holds exactly for the positions
   * -7 .. 2^31 - 8; every other 32-bit position wraps to a word that is not
   * negative.
   */
  lemma BindCheckHolds(p: int)
    requires IsInt32(p)
    ensures BoundWord(p) < 0 <==> -PointerSize < p <= Two31 - PointerSize
  {
    if -PointerSize < p <= Two31 - PointerSize {
      Int32OfInt32(-p - PointerSize);
    } else if p <= -PointerSize {
      Int32OfInt32(-p - PointerSize);
    } else {
      Int32Shift(-p - PointerSize + Two32, -1);
      Int32OfInt32(-p - PointerSize + Two32);
    }
  }

  /** LinkTo's closing CHECK(IsLinked()) holds exactly for the positions -7 .. 2^31 - 9. */
  lemma LinkCheckHolds(p: int)
    requires IsInt32(p)
    ensures LinkedWord(p) > 0 <==> -PointerSize < p < Two31 - PointerSize
  {
    if -PointerSize < p < Two31 - PointerSize {
      Int32OfInt32(p + PointerSize);
    } else if p <= -PointerSize {
      Int32OfInt32(p + PointerSize);
    } else {
      Int32Shift(p + PointerSize - Two32, 1);
      Int32OfInt32(p + PointerSize - Two32);
    }
  }

  /** Binding to p and reading the position back gives p. */
  lemma {:induction false} BoundRoundTrip(p: int)
    requires IsInt32(p) && BoundWord(p) < 0
    ensures StateOf(BoundWord(p)) == Bound(p)
  {
    var raw := BoundWord(p);
    var q :| -p - PointerSize == q * Two32 + raw;
    assert -raw - PointerSize == p + q * Two32;
    Int32Shift(p, q);
    Int32OfInt32(p);
  }

  /** Linking to p and reading the position back gives p. */
  lemma {:induction false} LinkedRoundTrip(p: int)
    requires IsInt32(p) && LinkedWord(p) > 0
    ensures StateOf(LinkedWord(p)) == Linked(p)
  {
    var raw := LinkedWord(p);
    var q :| p + PointerSize == q * Two32 + raw;
    assert raw - PointerSize == p + (-q) * Two32;
    Int32Shift(p, -q);
    Int32OfInt32(p);
  }

  class Label {
    var position: int

    predicate Valid()
      reads this
    {
      IsInt32(position)
    }

    function State(): LabelState
      reads this
    {
      StateOf(position)
    }

    /** A new label is unused. */
    constructor()
      ensures Valid() && position == 0 && State() == Unused
    {
      position := 0;
    }

    /** The move constructor takes src's word and leaves src unused. */
    constructor Move(src: Label)
      requires src.Valid()
      modifies src
      ensures Valid() && position == old(src.position) && State() == old(src.State())
      ensures src.position == 0 && src.State() == Unused
    {
      position := src.position;
      src.position := 0;
    }

    predicate IsBound()
      reads this
    {
      position < 0
    }

    predicate IsUnused()
      reads this
    {
      position == 0
    }

    predicate IsLinked()
      reads this
    {
      position > 0
    }

    /** The position of a bound or linked label (CHECK: not unused). */
    function Position(): (r: int)
      reads this
      requires !IsUnused()
      ensures IsInt32(r)
      ensures IsBound() ==> State() == Bound(r)
      ensures IsLinked() ==> State() == Linked(r)
    {
      if IsBound() then Int32(-position - PointerSize) else Int32(position - PointerSize)
    }

    /** The position of a linked label (CHECK: linked). */
    function LinkPosition(): (r: int)
      reads this
      requires IsLinked()
      ensures State() == Linked(r)
    {
      Int32(position - PointerSize)
    }

    method Reinitialize()
      modifies this
      ensures position == 0 && State() == Unused
    {
      position := 0;
    }

    /** CHECK(!IsBound()) before, CHECK(IsBound()) after. */
    method BindTo(p: int)
      requires Valid() && !IsBound() && IsInt32(p)
      requires BoundWord(p) < 0
      modifies this
      ensures Valid() && position == BoundWord(p)
      ensures IsBound() && State() == Bound(p) && Position() == p
    {
      position := Int32(-p - PointerSize);
      BoundRoundTrip(p);
    }

    /** CHECK(!IsBound()) before, CHECK(IsLinked()) after. */
    method LinkTo(p: int)
      requires Valid() && !IsBound() && IsInt32(p)
      requires LinkedWord(p) > 0
      modifies this
      ensures Valid() && position == LinkedWord(p)
      ensures IsLinked() && State() == Linked(p) && Position() == p && LinkPosition() == p
    {
      position := Int32(p + PointerSize);
      LinkedRoundTrip(p);
    }
  }
}
