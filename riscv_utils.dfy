/**
 * Integer range and rounding helpers of the RISC-V assembler.
 *
 * A value of the C++ type T is an `int` in the range of a `width`-bit
 * signed or unsigned integer.  IsInt/IsUint test whether a value fits in
 * fewer bits, MaxInt/MinInt give the bounds of an n-bit integer, and
 * RoundDown/RoundUp round to a power of two with `x & -n`.
 */
module RiscvUtils {
  import opened Bits
  import CommonFuncs

  /** The values of a `width`-bit two's-complement integer. */
  predicate InSigned(v: int, width: nat)
    requires width > 0
  {
    -(Pow2(width - 1) as int) <= v < Pow2(width - 1)
  }

  /** `MaxInt<T>(bits)`: the largest n-bit value, signed or unsigned. */
  function MaxInt(bits: nat, width: nat, signed: bool): (r: int)
    requires bits <= width
    requires signed ==> bits > 0
    ensures signed ==> r == Pow2(bits - 1) - 1
    ensures !signed ==> r == Pow2(bits) - 1
  {
    if bits == width then
      (if signed then Pow2(width - 1) - 1 else Pow2(width) - 1)
    else if signed then
      (if bits == 1 then 0 else MaxInt(bits - 1, width, false))
    else
      Pow2(bits) - 1
  }

  /** `MinInt<T>(bits)`: the smallest n-bit value, signed or unsigned. */
  function MinInt(bits: nat, width: nat, signed: bool): (r: int)
    requires bits <= width
    requires signed ==> bits > 0
    ensures signed ==> r == -(Pow2(bits - 1) as int)
    ensures !signed ==> r == 0
  {
    if bits == width then
      (if signed then -(Pow2(width - 1) as int) else 0)
    else if signed then
      (if bits == 1 then -1 else -1 - MaxInt(bits, width, true))
    else
      0
  }

  /**
   * `IsInt<kBits>(value)` on a signed `width`-bit type: trivially true when
   * all bits are used, else `-limit <= value < limit` with limit = 2^(kBits-1).
   * The run-time overload `IsInt(N, value)` computes the same predicate.
   */
  function IsInt(kBits: nat, width: nat, value: int): (r: bool)
    requires 0 < kBits <= width && InSigned(value, width)
    ensures r <==> MinInt(kBits, width, true) <= value <= MaxInt(kBits, width, true)
  {
    if kBits == width then true
    else -(Pow2(kBits - 1) as int) <= value < Pow2(kBits - 1)
  }

  /**
   * `IsUint<kBits>(value)`: non-negative and, unless all bits are used,
   * at most `GetIntLimit(kBits) * 2 - 1` once viewed as unsigned.
   */
  function IsUint(kBits: nat, width: nat, value: int): (r: bool)
    requires 0 < kBits <= width
    requires -(Pow2(width) as int) < value < Pow2(width)
    ensures r <==> 0 <= value <= MaxInt(kBits, width, false)
  {
    0 <= value && (kBits == width || value <= Pow2(kBits - 1) * 2 - 1)
  }

  /** An n-bit integer fits in every wider integer. */
  lemma {:induction false} IsIntWiden(k: nat, width: nat, value: int)
    requires 0 < k < width && InSigned(value, width)
    requires IsInt(k, width, value)
    ensures IsInt(k + 1, width, value)
  {
    Pow2Mono(k - 1, k);
  }

  /** `IsPowerOfTwo(x)`: `(x & (x - 1)) == 0` on a `width`-bit unsigned word, which admits 0. */
  predicate IsPowerOfTwo(x: nat, width: nat)
  {
    And(x, (x + Pow2(width) - 1) % Pow2(width)) == 0
  }

  /** The bit test holds exactly for 0 and the powers of two. */
  lemma PowerOfTwoSpec(x: nat, width: nat)
    requires x < Pow2(width)
    ensures IsPowerOfTwo(x, width) <==> x == 0 || IsPow2(x)
  {
    if x > 0 {
      DivUnique(x + Pow2(width) - 1, Pow2(width), 1, x - 1);
      AndPred(x);
      if exists k: nat :: x == Pow2(k) {
        var k: nat :| x == Pow2(k);
        Pow2Gt(k);
      }
    }
  }

  lemma AndSelf(m: nat)
    ensures And(m, m) == m
  {
  }

  lemma {:induction false} AndPred(x: nat)
    requires x > 0
    ensures And(x, x - 1) == 0 <==> exists k: nat :: x == Pow2(k)
  {
    if x == 1 {
      assert x == Pow2(0);
    } else if x % 2 == 1 {
      var m := x / 2;
      assert And(x, x - 1) == 2 * And(m, m);
      AndSelf(m);
    } else {
      var m := x / 2;
      assert x - 1 == 2 * (m - 1) + 1;
      assert And(x, x - 1) == 2 * And(m, m - 1);
      AndPred(m);
      if exists k: nat :: m == Pow2(k) {
        var k: nat :| m == Pow2(k);
        assert x == Pow2(k + 1);
      }
      if exists k: nat :: x == Pow2(k) {
        var k: nat :| x == Pow2(k);
        assert k > 0;
        assert m == Pow2(k - 1);
        assert exists j: nat :: m == Pow2(j);
      }
    }
  }

  /** `RoundDown(x, n)` = `x & -n` under `DCHECK(IsPowerOfTwo(n))`: the greatest multiple of n <= x. */
  function RoundDown(x: nat, n: nat, width: nat): (r: nat)
    requires x < Pow2(width) && n < Pow2(width)
    requires IsPowerOfTwo(n, width)
    ensures n == 0 ==> r == 0
    ensures n > 0 ==> r % n == 0 && r <= x < r + n
  {
    PowerOfTwoSpec(n, width);
    if n > 0 then
      var k: nat :| k < n && n == Pow2(k);
      PowLe(k, width);
      CommonFuncs.RoundDownPow2(x, k, width);
      DivMod(x, n);
      CommonFuncs.RoundDown(x, n, width)
    else
      assert Neg(0, width) == 0 by {
        DivUnique(Pow2(width), Pow2(width), 1, 0);
      }
      CommonFuncs.RoundDown(x, n, width)
  }

  lemma PowLe(k: nat, w: nat)
    requires Pow2(k) < Pow2(w)
    ensures k <= w
  {
    if k > w {
      Pow2Mono(w, k);
    }
  }

  /** `RoundUp(x, n)` = `RoundDown(x + n - 1, n)`, the sum wrapping at the word size. */
  function RoundUp(x: nat, n: nat, width: nat): (r: nat)
    requires x < Pow2(width) && n < Pow2(width)
    requires IsPowerOfTwo(n, width)
    ensures n > 0 && x + n - 1 < Pow2(width) ==> r % n == 0 && x <= r < x + n
  {
    var y := (x + n + Pow2(width) - 1) % Pow2(width);
    if n > 0 && x + n - 1 < Pow2(width) then
      DivUnique(x + n + Pow2(width) - 1, Pow2(width), 1, x + n - 1);
      DivMod(x + n - 1, n);
      RoundDown(y, n, width)
    else
      RoundDown(y, n, width)
  }
}
