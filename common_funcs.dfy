/**
 * The shared helpers of the runtime: the operators that
 * DECLARE_ENUM_FLAG_OPERATORS defines for a flag enum, string suffix
 * tests, a container search from a start position, and power-of-two
 * rounding without a power-of-two check.
 *
 * An enum value is its underlying unsigned integer of `w` bits.
 */
module CommonFuncs {
  import opened Bits

  // ---------------------------------------------------------------------
  // DECLARE_ENUM_FLAG_OPERATORS

  /** `a | b` on the underlying type: a bit is set iff it is set in a or in b. */
  function EnumOr(a: nat, b: nat, w: nat): (r: nat)
    requires a < Pow2(w) && b < Pow2(w)
    ensures r < Pow2(w)
    ensures forall i: nat :: Bit(r, i) == (Bit(a, i) || Bit(b, i))
  {
    OrBits(a, b);
    OrBelow(a, b, w);
    Or(a, b)
  }

  /** `a & b` on the underlying type: a bit is set iff it is set in both. */
  function EnumAnd(a: nat, b: nat, w: nat): (r: nat)
    requires a < Pow2(w) && b < Pow2(w)
    ensures r < Pow2(w)
    ensures forall i: nat :: Bit(r, i) == (Bit(a, i) && Bit(b, i))
  {
    AndBits(a, b);
    And(a, b)
  }

  /** `a ^ b` on the underlying type: a bit is set iff exactly one operand has it. */
  function EnumXor(a: nat, b: nat, w: nat): (r: nat)
    requires a < Pow2(w) && b < Pow2(w)
    ensures forall i: nat :: Bit(r, i) == (Bit(a, i) != Bit(b, i))
  {
    XorBits(a, b);
    Xor(a, b)
  }

  /** `a << b`, cast back to the enum: bit i of the result is bit i-b of a. */
  function EnumShl(a: nat, b: nat, w: nat): (r: nat)
    requires a < Pow2(w) && b < w
    ensures forall i: nat :: Bit(r, i) == (b <= i < w && Bit(a, i - b))
  {
    forall i: nat ensures Bit(Shl(a, b, w), i) == (b <= i < w && Bit(a, i - b)) {
      ShlBit(a, b, w, i);
    }
    Shl(a, b, w)
  }

  /** `a >> b`: bit i of the result is bit i+b of a. */
  function EnumShr(a: nat, b: nat, w: nat): (r: nat)
    requires a < Pow2(w) && b < w
    ensures forall i: nat :: Bit(r, i) == Bit(a, i + b)
  {
    forall i: nat ensures Bit(Shr(a, b), i) == Bit(a, i + b) {
      ShrBit(a, b, i);
    }
    Shr(a, b)
  }

  /** `~key` on the underlying type: every one of the w bits flipped. */
  function EnumNot(key: nat, w: nat): (r: nat)
    requires key < Pow2(w)
    ensures r < Pow2(w)
    ensures forall i :: 0 <= i < w ==> Bit(r, i) == !Bit(key, i)
  {
    NotBits(key, w);
    Not(key, w)
  }

  predicate True(key: nat)
  {
    key != 0
  }

  predicate False(key: nat)
  {
    key == 0
  }

  /** True(k) holds iff some flag bit is set, and False is its negation. */
  lemma TrueIffSomeFlag(key: nat, w: nat)
    requires key < Pow2(w)
    ensures True(key) <==> exists i :: 0 <= i < w && Bit(key, i)
    ensures False(key) <==> !True(key)
  {
    ZeroIffNoBit(key, w);
  }

  datatype FlagOp = OrOp | AndOp | XorOp | ShlOp | ShrOp

  /** A flag variable of enum type updated by the compound assignment operators. */
  class FlagVar {
    var value: nat
    const width: nat

    ghost predicate Valid()
      reads this
    {
      value < Pow2(width)
    }

    constructor (v: nat, w: nat)
      requires v < Pow2(w)
      ensures Valid() && value == v && width == w
    {
      value := v;
      width := w;
    }

    /** `a op= b` assigns `a op b` to a and returns a. */
    method CompoundAssign(op: FlagOp, b: nat) returns (r: nat)
      requires Valid() && b < Pow2(width)
      requires (op == ShlOp || op == ShrOp) ==> b < width
      modifies this
      ensures Valid() && r == value
      ensures op == OrOp ==> value == EnumOr(old(value), b, width)
      ensures op == AndOp ==> value == EnumAnd(old(value), b, width)
      ensures op == XorOp ==> value == EnumXor(old(value), b, width)
      ensures op == ShlOp ==> value == EnumShl(old(value), b, width)
      ensures op == ShrOp ==> value == EnumShr(old(value), b, width)
    {
      match op {
        case OrOp => value := EnumOr(value, b, width);
        case AndOp => value := EnumAnd(value, b, width);
        case XorOp =>
          XorBelow(value, b, width);
          value := EnumXor(value, b, width);
        case ShlOp => value := EnumShl(value, b, width);
        case ShrOp =>
          DivBounds(value, Pow2(b));
          value := EnumShr(value, b, width);
      }
      r := value;
    }
  }

  lemma XorBelow(a: nat, b: nat, w: nat)
    requires a < Pow2(w) && b < Pow2(w)
    ensures Xor(a, b) < Pow2(w)
  {
    XorBound(a, b, w);
  }

  lemma {:induction false} XorBound(a: nat, b: nat, w: nat)
    requires a < Pow2(w) && b < Pow2(w)
    ensures Xor(a, b) < Pow2(w)
  {
    if a != 0 && b != 0 {
      XorBound(a / 2, b / 2, w - 1);
    }
  }

  // ---------------------------------------------------------------------
  // Strings and containers

  /** EndWith: the suffix fits and equals the last |suffix| characters. */
  predicate EndWith(str: string, suffix: string)
  {
    |str| >= |suffix| && str[|str| - |suffix|..] == suffix
  }

  /** EndWith(str, suffix) holds iff str is some prefix followed by suffix. */
  lemma EndWithIffConcat(str: string, suffix: string)
    ensures EndWith(str, suffix) <==> exists prefix: string :: str == prefix + suffix
  {
    if EndWith(str, suffix) {
      var prefix := str[..|str| - |suffix|];
      assert str == prefix + suffix;
    }
    if exists prefix: string :: str == prefix + suffix {
      var prefix: string :| str == prefix + suffix;
      assert str[|str| - |suffix|..] == suffix;
    }
  }

  /** std::find from `start`: the first index >= start holding `value`, or |s|. */
  function Find<T(==)>(s: seq<T>, value: T, start: nat): (r: nat)
    requires start <= |s|
    ensures start <= r <= |s|
    ensures r < |s| ==> s[r] == value
    ensures forall i :: start <= i < r ==> s[i] != value
    decreases |s| - start
  {
    if start == |s| then |s|
    else if s[start] == value then start
    else Find(s, value, start + 1)
  }

  /** ContainsElement requires start_pos < size and searches from start_pos on. */
  function ContainsElement<T(==)>(container: seq<T>, value: T, start_pos: nat): (r: bool)
    requires start_pos < |container|
    ensures r <==> exists i :: start_pos <= i < |container| && container[i] == value
  {
    Find(container, value, start_pos) != |container|
  }

  // ---------------------------------------------------------------------
  // RoundDown / RoundUp (x & -n), with no power-of-two check

  function RoundDown(x: nat, n: nat, w: nat): (r: nat)
    requires x < Pow2(w)
    ensures r <= x
  {
    And(x, Neg(n, w))
  }

  function RoundUp(x: nat, n: nat, w: nat): (r: nat)
    requires x < Pow2(w)
  {
    RoundDown((x + n + Pow2(w) - 1) % Pow2(w), n, w)
  }

  /** For n = 2^k, RoundDown(x, n) is the greatest multiple of n that is <= x. */
  lemma RoundDownPow2(x: nat, k: nat, w: nat)
    requires k <= w && x < Pow2(w)
    ensures RoundDown(x, Pow2(k), w) == x - x % Pow2(k)
    ensures RoundDown(x, Pow2(k), w) % Pow2(k) == 0
  {
    NegPow2(k, w);
    if k == w {
      ModSmall(x, Pow2(w));
    } else {
      AndNotMask(x, k, w);
    }
    DivMod(x, Pow2(k));
    DivUnique(x - x % Pow2(k), Pow2(k), x / Pow2(k), 0);
  }

  /** For n = 2^k and no overflow, RoundUp(x, n) is the least multiple of n >= x. */
  lemma RoundUpPow2(x: nat, k: nat, w: nat)
    requires k <= w && x + Pow2(k) - 1 < Pow2(w)
    ensures RoundUp(x, Pow2(k), w) % Pow2(k) == 0
    ensures x <= RoundUp(x, Pow2(k), w) < x + Pow2(k)
  {
    var y := x + Pow2(k) - 1;
    DivUnique(x + Pow2(k) + Pow2(w) - 1, Pow2(w), 1, y);
    RoundDownPow2(y, k, w);
    DivMod(y, Pow2(k));
  }

  /** Without the power-of-two check a wrong n gives a non-multiple: RoundDown(7, 3) on a byte is 5. */
  lemma RoundDownNonPow2()
    ensures RoundDown(7, 3, 8) == 5
  {
    assert Neg(3, 8) == 253;
  }
}
