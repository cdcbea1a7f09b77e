/**
 * The modulo-based alignment helpers of the runtime.
 *
 * `AlignDown(value, size)` subtracts `value % size`; `AlignUp` does the
 * same and then adds `size` back unless the remainder was zero.  The value
 * type T is an unsigned word of `w` bits, so the final addition wraps.
 * Neither helper needs `size` to be a power of two.
 */
module Alignment {
  import opened Bits

  /** AlignDown: the greatest multiple of `size` that is <= v. */
  function AlignDown(v: nat, size: nat): (r: nat)
    requires size > 0
    ensures r % size == 0
    ensures r <= v < r + size
  {
    var m := v % size;
    DivUnique(v - m, size, v / size, 0);
    v - m
  }

  /** AlignUp on a w-bit word: round down, then add `size` unless already aligned. */
  function AlignUp(v: nat, size: nat, w: nat): (r: nat)
    requires size > 0 && v < Pow2(w)
    ensures r < Pow2(w)
  {
    var m := v % size;
    var down := v - m;
    if m == 0 then down else (down + size) % Pow2(w)
  }

  /** When `v + size` fits in the word, AlignUp is the least multiple of size >= v. */
  lemma AlignUpIsLeastMultiple(v: nat, size: nat, w: nat)
    requires size > 0 && v < Pow2(w) && v + size <= Pow2(w)
    ensures AlignUp(v, size, w) % size == 0
    ensures v <= AlignUp(v, size, w) < v + size
  {
    var down := AlignDown(v, size);
    if v % size != 0 {
      ModSmall(down + size, Pow2(w));
      DivUnique(down + size, size, v / size + 1, 0);
    }
  }

  /** Both helpers return an already aligned value unchanged. */
  lemma AlignedIsFixed(v: nat, size: nat, w: nat)
    requires size > 0 && v < Pow2(w) && v % size == 0
    ensures AlignDown(v, size) == v && AlignUp(v, size, w) == v
  {
  }

  /** Both helpers are idempotent (AlignUp as long as the first call did not wrap). */
  lemma {:induction false} AlignIdempotent(v: nat, size: nat, w: nat)
    requires size > 0 && v < Pow2(w) && v + size <= Pow2(w)
    ensures AlignDown(AlignDown(v, size), size) == AlignDown(v, size)
    ensures AlignUp(AlignUp(v, size, w), size, w) == AlignUp(v, size, w)
  {
    AlignUpIsLeastMultiple(v, size, w);
    AlignedIsFixed(AlignDown(v, size), size, w);
    AlignedIsFixed(AlignUp(v, size, w), size, w);
  }

  /** The helpers are not restricted to powers of two: a 24-byte alignment. */
  lemma NonPowerOfTwoSize()
    ensures AlignUp(50, 24, 64) == 72 && AlignDown(50, 24) == 48
  {
    assert 50 % 24 == 2;
    assert Pow2(64) > 72 by {
      Pow2Gt(64);
    }
    ModSmall(72, Pow2(64));
  }
}
