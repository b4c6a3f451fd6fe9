/** Unsigned arithmetic and bitwise operators of C, as functions on natural numbers.

    The firmware aligns sizes with masks and keeps a priority stack in a bitmap.
    The lemmas here tie those bit tricks to division, remainder and sets of bits. */
module Bits {

  /** Values of 32 and 64 bits lie below these. */
  const U32: nat := 0x1_0000_0000
  const U64: nat := 0x1_0000_0000_0000_0000

  /** Unsigned 64-bit subtraction (`size_t`). */
  function Minus64(a: nat, b: nat): (d: nat)
    requires a < U64 && b < U64
    ensures d < U64
  {
    if a >= b then a - b else U64 + a - b
  }

  function Min(a: nat, b: nat): nat { if a < b then a else b }

  function Pow2(n: nat): (p: nat)
    ensures p >= 1
  {
    if n == 0 then 1 else 2 * Pow2(n - 1)
  }

  /** `x & y` */
  function And(x: nat, y: nat): nat
    decreases x
  {
    if x == 0 || y == 0 then 0
    else 2 * And(x / 2, y / 2) + (if x % 2 == 1 && y % 2 == 1 then 1 else 0)
  }

  /** `x | y` */
  function Or(x: nat, y: nat): nat
    decreases x + y
  {
    if x == 0 then y else if y == 0 then x
    else 2 * Or(x / 2, y / 2) + (if x % 2 == 1 || y % 2 == 1 then 1 else 0)
  }

  /** `~y` on an unsigned type of `width` bits */
  function Not(width: nat, y: nat): nat
    requires y < Pow2(width)
  {
    Pow2(width) - 1 - y
  }

  /** `x << n` and `x >> n` */
  function Shl(x: nat, n: nat): nat
    decreases n
  {
    if n == 0 then x else Shl(2 * x, n - 1)
  }

  function Shr(x: nat, n: nat): nat
    decreases n
  {
    if n == 0 then x else Shr(x / 2, n - 1)
  }

  /** Bit `i` of `x`, the least significant one being bit 0. */
  predicate Bit(x: nat, i: nat)
    decreases i
  {
    if i == 0 then x % 2 == 1 else Bit(x / 2, i - 1)
  }

  /** The index of the right-most set bit (`__builtin_ctz`, undefined on 0). */
  function Ctz(x: nat): nat
    requires x != 0
  {
    if x % 2 == 1 then 0 else 1 + Ctz(x / 2)
  }

  /** The `is_power_of_2` macro. */
  predicate IsPowerOfTwo(x: nat) {
    x != 0 && And(x, x - 1) == 0
  }

  lemma {:induction false} AndSelfPositive(x: nat)
    ensures And(x, x) == x
  {
    if x != 0 { AndSelfPositive(x / 2); }
  }

  /** A power of two above one halves to a power of two. */
  lemma PowerOfTwoHalves(b: nat)
    requires IsPowerOfTwo(b) && b > 1
    ensures b % 2 == 0 && IsPowerOfTwo(b / 2)
  {
    AndSelfPositive(b / 2);
    assert (b - 1) / 2 == b / 2 - (1 - b % 2);
  }

  /** Masking with `b - 1` is the remainder by a power of two `b`. */
  lemma {:induction false} MaskIsMod(x: nat, b: nat)
    requires IsPowerOfTwo(b)
    ensures And(x, b - 1) == x % b
    decreases b
  {
    if b > 1 {
      PowerOfTwoHalves(b);
      var c := b / 2;
      MaskIsMod(x / 2, c);
      assert (b - 1) / 2 == c - 1 && (b - 1) % 2 == 1;
      ModDouble(x, c);
    }
  }

  lemma ModDouble(x: nat, c: nat)
    requires c > 0
    ensures x % (2 * c) == 2 * ((x / 2) % c) + x % 2
  {
    var q, r := (x / 2) / c, (x / 2) % c;
    assert x == 2 * (c * q + r) + x % 2;
    assert x == (2 * c) * q + (2 * r + x % 2);
    ModUnique(x, 2 * c, q, 2 * r + x % 2);
  }

  lemma MulStep(m: nat, q: nat, q': nat)
    ensures q < q' ==> m * q + m <= m * q'
  {
    if q < q' {
      var d: nat := q' - q - 1;
      assert m * (q + 1 + d) == m * q + m + m * d;
    }
  }

  lemma ModUnique(x: nat, m: nat, q: nat, r: nat)
    requires m > 0 && r < m && x == m * q + r
    ensures x % m == r && x / m == q
  {
    var q', r' := x / m, x % m;
    assert x == m * q' + r';
    MulStep(m, q, q');
    MulStep(m, q', q);
  }

  /** Division as repeated subtraction. */
  lemma DivDrop(x: nat, b: nat)
    requires 0 < b <= x
    ensures x / b == (x - b) / b + 1 && x % b == (x - b) % b
  {
    assert x - b == b * ((x - b) / b) + (x - b) % b;
    ModUnique(x, b, (x - b) / b + 1, (x - b) % b);
  }

  lemma DivSmall(x: nat, b: nat)
    requires x < b
    ensures x / b == 0 && x % b == x
  {
    ModUnique(x, b, 0, x);
  }

  /** Clearing the low bits with `~(b - 1)` rounds down to a multiple of `b`. */
  lemma {:induction false} ClearIsRoundDown(width: nat, x: nat, b: nat)
    requires IsPowerOfTwo(b) && b <= Pow2(width) && x < Pow2(width)
    ensures And(x, Not(width, b - 1)) == x - x % b
    decreases b
  {
    if b == 1 {
      AndFull(width, x);
    } else if width > 0 {
      PowerOfTwoHalves(b);
      var c := b / 2;
      ClearIsRoundDown(width - 1, x / 2, c);
      assert Not(width, b - 1) / 2 == Not(width - 1, c - 1);
      assert Not(width, b - 1) % 2 == 0;
      ModDouble(x, c);
    }
  }

  lemma {:induction false} AndFull(width: nat, x: nat)
    requires x < Pow2(width)
    ensures And(x, Not(width, 0)) == x
  {
    if width > 0 && x != 0 {
      AndFull(width - 1, x / 2);
      assert Not(width, 0) / 2 == Not(width - 1, 0) && Not(width, 0) % 2 == 1;
    }
  }

  lemma {:induction false} ZeroHasNoBits(i: nat)
    ensures !Bit(0, i)
  {
    if i != 0 { ZeroHasNoBits(i - 1); }
  }

  lemma {:induction false} OrBit(x: nat, y: nat, i: nat)
    ensures Bit(Or(x, y), i) == (Bit(x, i) || Bit(y, i))
    decreases i
  {
    if x == 0 || y == 0 {
      ZeroHasNoBits(i);
    } else if i != 0 {
      OrBit(x / 2, y / 2, i - 1);
    }
  }

  lemma {:induction false} Pow2Bit(n: nat, i: nat)
    ensures Bit(Pow2(n), i) <==> i == n
    decreases i
  {
    if n == 0 {
      if i != 0 { ZeroHasNoBits(i - 1); }
    } else if i != 0 {
      Pow2Bit(n - 1, i - 1);
    }
  }

  /** `Ctz` is the least set bit. */
  lemma {:induction false} CtzIsLeast(x: nat, i: nat)
    requires x != 0
    ensures Bit(x, Ctz(x))
    ensures Bit(x, i) ==> Ctz(x) <= i
    decreases x
  {
    if x % 2 == 0 { CtzIsLeast(x / 2, if i == 0 then 0 else i - 1); }
  }

  /** `x & (x - 1)` removes exactly the right-most set bit. */
  lemma {:induction false} ClearLowest(x: nat, i: nat)
    requires x != 0
    ensures Bit(And(x, x - 1), i) <==> Bit(x, i) && i != Ctz(x)
    decreases x
  {
    if x % 2 == 1 {
      assert (x - 1) / 2 == x / 2;
      AndSelfPositive(x / 2);
      if x == 1 { ZeroHasNoBits(i); if i != 0 { ZeroHasNoBits(i - 1); } }
    } else {
      assert (x - 1) / 2 == x / 2 - 1;
      if x / 2 == 1 {
        ZeroHasNoBits(i);
        ClearLowest(1, if i == 0 then 0 else i - 1);
      } else {
        ClearLowest(x / 2, if i == 0 then 0 else i - 1);
      }
    }
  }

  lemma OrNonZero(x: nat, y: nat)
    requires x != 0 || y != 0
    ensures Or(x, y) != 0
    decreases x + y
  {
    if x != 0 && y != 0 && x % 2 == 0 && y % 2 == 0 { OrNonZero(x / 2, y / 2); }
  }

  lemma {:induction false} OrBound(x: nat, y: nat, n: nat)
    requires x < Pow2(n) && y < Pow2(n)
    ensures Or(x, y) < Pow2(n)
    decreases n
  {
    if n != 0 { OrBound(x / 2, y / 2, n - 1); }
  }

  lemma {:induction false} AndAtMost(x: nat, y: nat)
    ensures And(x, y) <= x
    decreases x
  {
    if x != 0 && y != 0 { AndAtMost(x / 2, y / 2); }
  }

  lemma Pow2Shift8(n: nat)
    ensures Pow2(n + 8) == 256 * Pow2(n)
  {
    assert Pow2(n + 2) == 4 * Pow2(n);
    assert Pow2(n + 4) == 4 * Pow2(n + 2);
    assert Pow2(n + 6) == 4 * Pow2(n + 4);
  }

  lemma Pow2Of32()
    ensures Pow2(32) == 0x1_0000_0000
  {
    Pow2Shift8(0); Pow2Shift8(8); Pow2Shift8(16); Pow2Shift8(24);
  }

  lemma Pow2Of64()
    ensures Pow2(64) == 0x1_0000_0000_0000_0000
  {
    Pow2Of32();
    Pow2Shift8(32); Pow2Shift8(40); Pow2Shift8(48); Pow2Shift8(56);
  }

  lemma {:induction false} Pow2Monotone(m: nat, n: nat)
    requires m < n
    ensures 2 * Pow2(m) <= Pow2(n)
    decreases n - m
  {
    if m + 1 < n { Pow2Monotone(m + 1, n); }
  }

  lemma {:induction false} ShlDouble(x: nat, n: nat)
    ensures Shl(2 * x, n) == 2 * Shl(x, n)
    decreases n
  {
    if n != 0 { ShlDouble(2 * x, n - 1); }
  }

  /** Shifting right and left again clears the low bits. */
  lemma {:induction false} ShiftBack(x: nat, n: nat)
    ensures Shl(Shr(x, n), n) <= x
    decreases n
  {
    if n != 0 {
      ShiftBack(x / 2, n - 1);
      ShlDouble(Shr(x / 2, n - 1), n - 1);
    }
  }

  lemma {:induction false} ShlMonotone(x: nat, y: nat, n: nat)
    requires x < y
    ensures Shl(x, n) < Shl(y, n)
    decreases n
  {
    if n != 0 { ShlMonotone(2 * x, 2 * y, n - 1); }
  }
}
