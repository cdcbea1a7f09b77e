/**
 * Unsigned machine words as natural numbers.
 *
 * The runtime manipulates u8..u64 values with the C++ operators `&`, `|`,
 * `^`, `~`, `<<` and `>>`.  Here a w-bit word is a `nat` below `Pow2(w)`,
 * the bitwise operators are defined bit by bit, and the lemmas below give
 * each operator its per-bit meaning and its arithmetic meaning on masks.
 */
module Bits {

  function Pow2(n: nat): (r: nat)
    ensures r >= 1
  {
    if n == 0 then 1 else 2 * Pow2(n - 1)
  }

  /** The all-ones mask of the low `w` bits. */
  function Mask(w: nat): nat
  {
    Pow2(w) - 1
  }

  /** Bit `i` of `x`. */
  predicate Bit(x: nat, i: nat)
  {
    (x / Pow2(i)) % 2 == 1
  }

  function And(a: nat, b: nat): (r: nat)
    ensures r <= a && r <= b
  {
    if a == 0 || b == 0 then 0
    else 2 * And(a / 2, b / 2) + (if a % 2 == 1 && b % 2 == 1 then 1 else 0)
  }

  function Or(a: nat, b: nat): (r: nat)
    ensures a <= r && b <= r && r <= a + b
  {
    if a == 0 then b
    else if b == 0 then a
    else 2 * Or(a / 2, b / 2) + (if a % 2 == 1 || b % 2 == 1 then 1 else 0)
  }

  function Xor(a: nat, b: nat): (r: nat)
    ensures r <= a + b
  {
    if a == 0 then b
    else if b == 0 then a
    else 2 * Xor(a / 2, b / 2) + (if a % 2 != b % 2 then 1 else 0)
  }

  /** `~a` on a w-bit word: every one of the low w bits flipped. */
  function Not(a: nat, w: nat): (r: nat)
    ensures r < Pow2(w)
  {
    if w == 0 then 0 else 2 * Not(a / 2, w - 1) + (1 - a % 2)
  }

  /** `a << k` on a w-bit word (bits shifted past the top are lost). */
  function Shl(a: nat, k: nat, w: nat): nat
  {
    (a * Pow2(k)) % Pow2(w)
  }

  /** `a >> k` (logical shift). */
  function Shr(a: nat, k: nat): nat
  {
    DivBounds(a, Pow2(k));
    a / Pow2(k)
  }

  /** Two's complement negation on a w-bit word: `-a`. */
  function Neg(a: nat, w: nat): nat
  {
    (Pow2(w) - a % Pow2(w)) % Pow2(w)
  }

  predicate IsPow2(n: nat)
  {
    exists k: nat :: k < n && n == Pow2(k)
  }

  // ---------------------------------------------------------------------
  // Arithmetic helpers

  lemma Pow2Add(a: nat, b: nat)
    ensures Pow2(a + b) == Pow2(a) * Pow2(b)
  {
    if a > 0 {
      Pow2Add(a - 1, b);
    }
  }

  lemma Pow2Mono(a: nat, b: nat)
    requires a <= b
    ensures Pow2(a) <= Pow2(b)
  {
    if a < b {
      Pow2Mono(a, b - 1);
    }
  }

  /** Small field widths as numbers. */
  lemma Pow2Small()
    ensures Pow2(2) == 4 && Pow2(6) == 64
  {
    assert Pow2(2) == 4;
    Pow2Add(2, 2);
    Pow2Add(4, 2);
  }

  /** The word sizes as numbers. */
  lemma Pow2Words()
    ensures Pow2(8) == 0x100 && Pow2(16) == 0x1_0000
    ensures Pow2(32) == 0x1_0000_0000 && Pow2(64) == 0x1_0000_0000_0000_0000
  {
    Pow2Byte();
    Pow2Double(8, 0x100);
    Pow2Double(16, 0x1_0000);
    Pow2Double(32, 0x1_0000_0000);
  }

  lemma Pow2Byte()
    ensures Pow2(8) == 0x100
  {
    assert Pow2(2) == 4;
    Pow2Add(2, 2);
    Pow2Add(4, 4);
  }

  lemma Pow2Double(n: nat, p: nat)
    requires Pow2(n) == p
    ensures Pow2(n + n) == p * p
  {
    Pow2Add(n, n);
  }

  lemma Pow2Gt(n: nat)
    ensures n < Pow2(n)
  {
    if n > 0 {
      Pow2Gt(n - 1);
    }
  }

  lemma MulLe(a: int, b: int, d: int)
    requires a <= b && d > 0
    ensures a * d <= b * d
  {
  }

  lemma DivUnique(x: int, d: int, q: int, r: int)
    requires d > 0 && 0 <= r < d && x == q * d + r
    ensures x / d == q && x % d == r
  {
    var q0, r0 := x / d, x % d;
    assert x == q0 * d + r0;
    if q0 < q {
      MulLe(q0 + 1, q, d);
      assert false;
    } else if q < q0 {
      MulLe(q + 1, q0, d);
      assert false;
    }
  }

  lemma DivMod(x: int, d: int)
    requires d > 0
    ensures x == (x / d) * d + x % d && 0 <= x % d < d
  {
  }

  lemma DivBounds(a: nat, d: nat)
    requires d > 0
    ensures 0 <= a / d <= a
  {
    var q := a / d;
    DivMod(a, d);
    if q < 0 {
      MulLe(q, -1, d);
      assert false;
    }
    if d > 1 {
      MulLe(1, d, q + 1);
    }
  }

  lemma ModSmall(a: nat, m: nat)
    requires a < m
    ensures a % m == a && a / m == 0
  {
    DivUnique(a, m, 0, a);
  }

  lemma DivTwice(x: nat, m: nat)
    requires m > 0
    ensures x / (2 * m) == (x / 2) / m
    ensures x % (2 * m) == 2 * ((x / 2) % m) + x % 2
  {
    var q, r := (x / 2) / m, (x / 2) % m;
    assert x / 2 == q * m + r;
    assert x == q * (2 * m) + (2 * r + x % 2);
    DivUnique(x, 2 * m, q, 2 * r + x % 2);
  }

  lemma DivPow2Succ(x: nat, i: nat)
    ensures x / Pow2(i + 1) == (x / 2) / Pow2(i)
    ensures x % Pow2(i + 1) == 2 * ((x / 2) % Pow2(i)) + x % 2
  {
    DivTwice(x, Pow2(i));
  }

  // ---------------------------------------------------------------------
  // Bits of a number

  lemma BitZero(x: nat)
    ensures Bit(x, 0) == (x % 2 == 1)
  {
  }

  lemma BitSucc(x: nat, i: nat)
    ensures Bit(x, i + 1) == Bit(x / 2, i)
  {
    DivPow2Succ(x, i);
  }

  lemma BitOfTwice(y: nat, c: nat, i: nat)
    requires c < 2
    ensures Bit(2 * y + c, 0) == (c == 1)
    ensures i > 0 ==> Bit(2 * y + c, i) == Bit(y, i - 1)
  {
    assert (2 * y + c) / 2 == y;
    if i > 0 {
      BitSucc(2 * y + c, i - 1);
    }
  }

  lemma {:induction false} BitAbove(x: nat, i: nat)
    requires x < Pow2(i)
    ensures !Bit(x, i)
  {
    ModSmall(x, Pow2(i));
  }

  lemma {:induction false} BitOfZero(i: nat)
    ensures !Bit(0, i)
  {
    ModSmall(0, Pow2(i));
  }

  /** Two numbers with the same bits are equal. */
  lemma {:induction false} BitsEqual(a: nat, b: nat, w: nat)
    requires a < Pow2(w) && b < Pow2(w)
    requires forall i :: 0 <= i < w ==> Bit(a, i) == Bit(b, i)
    ensures a == b
  {
    if w == 0 {
      return;
    }
    BitZero(a);
    BitZero(b);
    assert a % 2 == b % 2;
    forall i | 0 <= i < w - 1
      ensures Bit(a / 2, i) == Bit(b / 2, i)
    {
      BitSucc(a, i);
      BitSucc(b, i);
    }
    BitsEqual(a / 2, b / 2, w - 1);
  }

  lemma DivOfDiv(x: nat, a: nat, b: nat)
    requires a > 0 && b > 0
    ensures x / (a * b) == (x / a) / b
  {
    var q, r := (x / a) / b, (x / a) % b;
    assert x / a == q * b + r;
    assert x == (x / a) * a + x % a;
    assert x == q * (a * b) + (r * a + x % a);
    assert r * a + x % a < a * b by {
      assert r <= b - 1;
      assert r * a <= (b - 1) * a;
    }
    DivUnique(x, a * b, q, r * a + x % a);
  }

  // ---------------------------------------------------------------------
  // Per-bit meaning of the operators

  lemma {:induction false} AndBit(a: nat, b: nat, i: nat)
    ensures Bit(And(a, b), i) == (Bit(a, i) && Bit(b, i))
  {
    if a == 0 || b == 0 {
      BitOfZero(i);
    } else {
      var c := if a % 2 == 1 && b % 2 == 1 then 1 else 0;
      assert And(a, b) == 2 * And(a / 2, b / 2) + c;
      BitOfTwice(And(a / 2, b / 2), c, i);
      if i == 0 {
        BitZero(a);
        BitZero(b);
      } else {
        BitSucc(a, i - 1);
        BitSucc(b, i - 1);
        AndBit(a / 2, b / 2, i - 1);
      }
    }
  }

  lemma {:induction false} OrBit(a: nat, b: nat, i: nat)
    ensures Bit(Or(a, b), i) == (Bit(a, i) || Bit(b, i))
  {
    if a == 0 || b == 0 {
      BitOfZero(i);
    } else {
      var c := if a % 2 == 1 || b % 2 == 1 then 1 else 0;
      assert Or(a, b) == 2 * Or(a / 2, b / 2) + c;
      BitOfTwice(Or(a / 2, b / 2), c, i);
      if i == 0 {
        BitZero(a);
        BitZero(b);
      } else {
        BitSucc(a, i - 1);
        BitSucc(b, i - 1);
        OrBit(a / 2, b / 2, i - 1);
      }
    }
  }

  lemma {:induction false} XorBit(a: nat, b: nat, i: nat)
    ensures Bit(Xor(a, b), i) == (Bit(a, i) != Bit(b, i))
  {
    if a == 0 || b == 0 {
      BitOfZero(i);
    } else {
      var c := if a % 2 != b % 2 then 1 else 0;
      assert Xor(a, b) == 2 * Xor(a / 2, b / 2) + c;
      BitOfTwice(Xor(a / 2, b / 2), c, i);
      if i == 0 {
        BitZero(a);
        BitZero(b);
      } else {
        BitSucc(a, i - 1);
        BitSucc(b, i - 1);
        XorBit(a / 2, b / 2, i - 1);
      }
    }
  }

  lemma {:induction false} NotBit(a: nat, w: nat, i: nat)
    ensures Bit(Not(a, w), i) == (i < w && !Bit(a, i))
  {
    if w == 0 {
      BitOfZero(i);
    } else {
      BitOfTwice(Not(a / 2, w - 1), 1 - a % 2, i);
      if i == 0 {
        BitZero(a);
      } else {
        BitSucc(a, i - 1);
        NotBit(a / 2, w - 1, i - 1);
      }
    }
  }

  lemma {:induction false} MaskBit(k: nat, i: nat)
    ensures Bit(Mask(k), i) == (i < k)
  {
    if k == 0 {
      BitOfZero(i);
    } else {
      assert Mask(k) == 2 * Mask(k - 1) + 1;
      BitOfTwice(Mask(k - 1), 1, i);
      if i > 0 {
        MaskBit(k - 1, i - 1);
      }
    }
  }

  /** Bit i of `x >> k` is bit i+k of x. */
  lemma {:induction false} ShrBit(x: nat, k: nat, i: nat)
    ensures Bit(Shr(x, k), i) == Bit(x, i + k)
  {
    Pow2Add(i, k);
    DivOfDiv(x, Pow2(k), Pow2(i));
    assert Pow2(k) * Pow2(i) == Pow2(i + k);
  }

  /** Bit i of `x << k` (w-bit word) is bit i-k of x when k <= i < w. */
  lemma {:induction false} ShlBit(x: nat, k: nat, w: nat, i: nat)
    ensures Bit(Shl(x, k, w), i) == (k <= i < w && Bit(x, i - k))
  {
    var y := x * Pow2(k);
    if i < w {
      ModLowBit(y, w, i);
      MulPow2Bit(x, k, i);
    } else {
      Pow2Mono(w, i);
      BitAbove(Shl(x, k, w), i);
    }
  }

  /** Reducing modulo 2^w keeps the bits below w. */
  lemma {:induction false} ModLowBit(y: nat, w: nat, i: nat)
    requires i < w
    ensures Bit(y % Pow2(w), i) == Bit(y, i)
  {
    if i == 0 {
      assert Pow2(w) == 2 * Pow2(w - 1);
      ModOfMod(y, 2, Pow2(w - 1));
      BitZero(y % Pow2(w));
      BitZero(y);
    } else {
      DivPow2Succ(y, w - 1);
      assert y % Pow2(w) == 2 * ((y / 2) % Pow2(w - 1)) + y % 2;
      BitOfTwice((y / 2) % Pow2(w - 1), y % 2, i);
      ModLowBit(y / 2, w - 1, i - 1);
      BitSucc(y, i - 1);
    }
  }

  lemma ModOfMod(y: nat, a: nat, b: nat)
    requires a > 0 && b > 0
    ensures (y % (a * b)) % a == y % a
  {
    var q, r := y / (a * b), y % (a * b);
    assert y == q * (a * b) + r;
    assert y == (q * b) * a + r;
    DivUnique(y, a, (q * b) + r / a, r % a);
  }

  lemma {:induction false} MulPow2Bit(x: nat, k: nat, i: nat)
    ensures Bit(x * Pow2(k), i) == (k <= i && Bit(x, i - k))
  {
    if k == 0 {
    } else if i == 0 {
      assert x * Pow2(k) == 2 * (x * Pow2(k - 1));
      BitOfTwice(x * Pow2(k - 1), 0, 0);
    } else {
      assert x * Pow2(k) == 2 * (x * Pow2(k - 1));
      BitOfTwice(x * Pow2(k - 1), 0, i);
      MulPow2Bit(x, k - 1, i - 1);
    }
  }

  // ---------------------------------------------------------------------
  // Arithmetic meaning of masking

  /** `x & Mask(k)` keeps the low k bits: it is `x % 2^k`. */
  lemma {:induction false} AndMask(x: nat, k: nat)
    ensures And(x, Mask(k)) == x % Pow2(k)
  {
    if k == 0 || x == 0 {
    } else {
      assert Mask(k) == 2 * Mask(k - 1) + 1;
      assert Mask(k) / 2 == Mask(k - 1) && Mask(k) % 2 == 1;
      AndMask(x / 2, k - 1);
      DivPow2Succ(x, k - 1);
    }
  }

  /** `x & ~Mask(k)` clears the low k bits: it is `x - x % 2^k`. */
  lemma {:induction false} AndNotMask(x: nat, k: nat, w: nat)
    requires k <= w && x < Pow2(w)
    ensures And(x, Not(Mask(k), w)) == x - x % Pow2(k)
  {
    if k == 0 {
      NotZero(w);
      AndMask(x, w);
      ModSmall(x, Pow2(w));
    } else if x != 0 {
      var n := Not(Mask(k), w);
      var n' := Not(Mask(k - 1), w - 1);
      assert Mask(k) / 2 == Mask(k - 1) && Mask(k) % 2 == 1;
      assert n == 2 * n';
      if n' == 0 {
        NotMaskZero(k, w);
        ModSmall(x, Pow2(k));
      } else {
        assert n / 2 == n' && n % 2 == 0;
        assert And(x, n) == 2 * And(x / 2, n');
        AndNotMask(x / 2, k - 1, w - 1);
        DivPow2Succ(x, k - 1);
      }
    }
  }

  lemma {:induction false} NotZero(w: nat)
    ensures Not(0, w) == Mask(w)
  {
    if w > 0 {
      NotZero(w - 1);
    }
  }

  lemma {:induction false} NotMaskZero(k: nat, w: nat)
    requires 0 < k <= w && Not(Mask(k - 1), w - 1) == 0
    ensures k == w
  {
    if k < w {
      NotBit(Mask(k - 1), w - 1, k - 1);
      MaskBit(k - 1, k - 1);
      BitOfZero(k - 1);
    }
  }

  /** Two numbers with no common bit are OR-ed by adding them. */
  lemma {:induction false} OrDisjoint(a: nat, b: nat)
    requires And(a, b) == 0
    ensures Or(a, b) == a + b
  {
    if a != 0 && b != 0 {
      assert !(a % 2 == 1 && b % 2 == 1);
      OrDisjoint(a / 2, b / 2);
    }
  }

  /** `Not` on a word is `Mask(w) - a`. */
  lemma {:induction false} NotIsComplement(a: nat, w: nat)
    requires a < Pow2(w)
    ensures Not(a, w) == Mask(w) - a
  {
    if w > 0 {
      NotIsComplement(a / 2, w - 1);
    }
  }

  /** `-2^k` on a w-bit word is the mask that clears the low k bits. */
  lemma NegPow2(k: nat, w: nat)
    requires k <= w
    ensures Neg(Pow2(k), w) == (if k == w then 0 else Not(Mask(k), w))
  {
    var p, m := Pow2(k), Pow2(w);
    if k < w {
      Pow2Less(k, w);
      ModSmall(p, m);
      ModSmall(m - p, m);
      assert Neg(p, w) == m - p;
      NotIsComplement(Mask(k), w);
    } else {
      DivUnique(m, m, 1, 0);
    }
  }

  lemma {:induction false} Pow2Less(a: nat, b: nat)
    requires a < b
    ensures Pow2(a) < Pow2(b)
  {
    Pow2Mono(a, b - 1);
  }

  lemma AndComm(a: nat, b: nat)
    ensures And(a, b) == And(b, a)
  {
  }

  lemma AndBelow(a: nat, b: nat, w: nat)
    requires a < Pow2(w)
    ensures And(a, b) < Pow2(w)
  {
  }

  lemma {:induction false} OrBelow(a: nat, b: nat, w: nat)
    requires a < Pow2(w) && b < Pow2(w)
    ensures Or(a, b) < Pow2(w)
  {
    if a != 0 && b != 0 {
      OrBelow(a / 2, b / 2, w - 1);
    }
  }

  // ---------------------------------------------------------------------
  // All bits at once

  lemma OrBits(a: nat, b: nat)
    ensures forall i: nat :: Bit(Or(a, b), i) == (Bit(a, i) || Bit(b, i))
  {
    forall i: nat ensures Bit(Or(a, b), i) == (Bit(a, i) || Bit(b, i)) {
      OrBit(a, b, i);
    }
  }

  lemma AndBits(a: nat, b: nat)
    ensures forall i: nat :: Bit(And(a, b), i) == (Bit(a, i) && Bit(b, i))
  {
    forall i: nat ensures Bit(And(a, b), i) == (Bit(a, i) && Bit(b, i)) {
      AndBit(a, b, i);
    }
  }

  lemma XorBits(a: nat, b: nat)
    ensures forall i: nat :: Bit(Xor(a, b), i) == (Bit(a, i) != Bit(b, i))
  {
    forall i: nat ensures Bit(Xor(a, b), i) == (Bit(a, i) != Bit(b, i)) {
      XorBit(a, b, i);
    }
  }

  lemma NotBits(a: nat, w: nat)
    ensures forall i: nat :: Bit(Not(a, w), i) == (i < w && !Bit(a, i))
  {
    forall i: nat ensures Bit(Not(a, w), i) == (i < w && !Bit(a, i)) {
      NotBit(a, w, i);
    }
  }

  /** A number is zero iff none of its bits is set. */
  lemma {:induction false} ZeroIffNoBit(x: nat, w: nat)
    requires x < Pow2(w)
    ensures x == 0 <==> forall i :: 0 <= i < w ==> !Bit(x, i)
  {
    if forall i :: 0 <= i < w ==> !Bit(x, i) {
      forall i | 0 <= i < w ensures Bit(x, i) == Bit(0, i) {
        BitOfZero(i);
      }
      BitsEqual(x, 0, w);
    }
    if x == 0 {
      forall i | 0 <= i < w ensures !Bit(x, i) {
        BitOfZero(i);
      }
    }
  }

  /** A w-bit number has no bit at or above w. */
  lemma NoBitAbove(x: nat, w: nat, i: nat)
    requires x < Pow2(w) && w <= i
    ensures !Bit(x, i)
  {
    Pow2Mono(w, i);
    BitAbove(x, i);
  }

  /** A number with no bit at or above w is below 2^w. */
  lemma BelowFromBits(x: nat, w: nat)
    requires forall i: nat :: w <= i ==> !Bit(x, i)
    ensures x < Pow2(w)
  {
    var m := if x < w then w else x;
    Pow2Gt(x);
    Pow2Mono(x, m);
    Pow2Mono(w, m);
    var y := x % Pow2(w);
    forall i | 0 <= i < m ensures Bit(x, i) == Bit(y, i) {
      if i < w {
        ModLowBit(x, w, i);
      } else {
        NoBitAbove(y, w, i);
      }
    }
    BitsEqual(x, y, m);
  }
}
