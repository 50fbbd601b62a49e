/**
 JavaScript's bitwise operators on numbers, over mathematical integers (ECMA-262, sections 7.1.6,
 7.1.7, 13.9 and 13.12): operands are taken modulo 2^32, shift counts modulo 32, and the result is a
 signed 32-bit number except for `>>>`. The lemmas turn masks and shifts into division and remainder.
 */
module Js32 {

  const TWO_31: int := 0x8000_0000
  const TWO_32: int := 0x1_0000_0000

  function Pow2(k: nat): (p: nat)
    ensures p > 0
  {
    if k == 0 then 1 else 2 * Pow2(k - 1)
  }

  function ToUint32(x: int): (u: nat)
    ensures u < TWO_32
  {
    x % TWO_32
  }

  function ToInt32(x: int): int {
    if x % TWO_32 >= TWO_31 then x % TWO_32 - TWO_32 else x % TWO_32
  }

  /** Bit by bit, on unsigned operands. */
  function AndBits(a: nat, b: nat): nat {
    if a == 0 || b == 0 then 0
    else 2 * AndBits(a / 2, b / 2) + (if a % 2 == 1 && b % 2 == 1 then 1 else 0)
  }

  function OrBits(a: nat, b: nat): nat {
    if a == 0 then b else if b == 0 then a
    else 2 * OrBits(a / 2, b / 2) + (if a % 2 == 1 || b % 2 == 1 then 1 else 0)
  }

  function And(a: int, b: int): int {
    ToInt32(AndBits(ToUint32(a), ToUint32(b)))
  }

  function Or(a: int, b: int): int {
    ToInt32(OrBits(ToUint32(a), ToUint32(b)))
  }

  function Not(a: int): int {
    -ToInt32(a) - 1
  }

  function Shl(a: int, s: nat): int {
    ToInt32(ToUint32(a) * Pow2(s % 32))
  }

  function Ushr(a: int, s: nat): int {
    ToUint32(a) / Pow2(s % 32)
  }

  // ----- Division and remainder

  lemma DivModUnique(a: int, d: int, q: int, r: int)
    requires 0 <= r < d && a == q * d + r
    ensures a / d == q && a % d == r
  {
    var k := a / d - q;
    assert k * d == r - a % d;
    if k >= 1 {
      MulMonotone(1, k, d);
    } else if k <= -1 {
      MulMonotone(k, -1, d);
    }
  }

  lemma MulMonotone(x: int, y: int, d: nat)
    requires x <= y
    ensures x * d <= y * d
  {
    assert (y - x) * d >= 0;
  }

  /** Adding whole multiples of d changes the quotient and not the remainder. */
  lemma AddMultiple(a: int, k: int, d: int)
    requires d > 0
    ensures (a + k * d) % d == a % d && (a + k * d) / d == a / d + k
  {
    assert a + k * d == (a / d + k) * d + a % d;
    DivModUnique(a + k * d, d, a / d + k, a % d);
  }

  lemma ModOfMod(a: int, d: int, k: int)
    requires d > 0 && k > 0
    ensures k * d > 0 && a % (k * d) % d == a % d
  {
    assert k * d > 0 by { MulMonotone(1, k, d); }
    var m := k * d;
    assert a == (a / m) * m + a % m;
    calc {
      a % m;
      a - (a / m) * (k * d);
      a + (-(a / m) * k) * d;
    }
    AddMultiple(a, -(a / m) * k, d);
  }

  lemma SmallMod(a: int, d: int)
    requires 0 <= a < d
    ensures a % d == a && a / d == 0
  {
    DivModUnique(a, d, 0, a);
  }

  lemma DoubleMod(a: nat, m: int)
    requires m > 0
    ensures a % (2 * m) == 2 * (a / 2 % m) + a % 2
  {
    var h := a / 2;
    assert a == 2 * h + a % 2;
    assert h == (h / m) * m + h % m;
    assert a == (h / m) * (2 * m) + (2 * (h % m) + a % 2);
    DivModUnique(a, 2 * m, h / m, 2 * (h % m) + a % 2);
  }

  // ----- Powers of two

  lemma {:induction false} Pow2Add(i: nat, j: nat)
    ensures Pow2(i + j) == Pow2(i) * Pow2(j)
  {
    if i > 0 {
      Pow2Add(i - 1, j);
      assert Pow2(i) * Pow2(j) == 2 * (Pow2(i - 1) * Pow2(j));
    }
  }

  lemma {:induction false} Pow2Monotone(i: nat, j: nat)
    requires i <= j
    ensures Pow2(i) <= Pow2(j)
  {
    if i < j { Pow2Monotone(i, j - 1); }
  }

  lemma Pow2Values()
    ensures Pow2(0) == 1 && Pow2(5) == 32 && Pow2(8) == 256 && Pow2(16) == 0x1_0000
    ensures Pow2(24) == 0x100_0000 && Pow2(31) == TWO_31 && Pow2(32) == TWO_32
  {
    assert Pow2(8) == 256;
    Pow2Add(8, 8);
    Pow2Add(8, 16);
    Pow2Add(8, 24);
    assert Pow2(32) == 2 * Pow2(31);
  }

  // ----- Masks

  /** Masking with 2^k - 1 keeps the remainder. */
  lemma {:induction false} AndLow(a: nat, k: nat)
    ensures AndBits(a, Pow2(k) - 1) == a % Pow2(k)
  {
    if k > 0 {
      hide AndBits;
      var h := Pow2(k - 1);
      assert Pow2(k) == 2 * h;
      hide Pow2;
      AndLow(a / 2, k - 1);
      DoubleMod(a, h);
    }
  }

  /** Masking n-bit numbers with 2^n - 2^k clears the low k bits. */
  lemma {:induction false} AndHigh(a: nat, k: nat, n: nat)
    requires k <= n && a < Pow2(n)
    ensures Pow2(k) <= Pow2(n)
    ensures AndBits(a, Pow2(n) - Pow2(k)) == a - a % Pow2(k)
  {
    Pow2Monotone(k, n);
    hide AndBits;
    if k == 0 {
      AndLow(a, n);
      SmallMod(a, Pow2(n));
    } else {
      var p, q := Pow2(k - 1), Pow2(n - 1);
      assert Pow2(k) == 2 * p && Pow2(n) == 2 * q;
      hide Pow2;
      AndHigh(a / 2, k - 1, n - 1);
      DoubleMod(a, p);
    }
  }

  /** Numbers with no bit in common are joined by addition. */
  lemma {:induction false} OrDisjoint(hi: nat, lo: nat, k: nat)
    requires hi % Pow2(k) == 0 && lo < Pow2(k)
    ensures OrBits(hi, lo) == hi + lo
  {
    if hi != 0 && lo != 0 {
      assert k > 0;
      DoubleMod(hi, Pow2(k - 1));
      OrDisjoint(hi / 2, lo / 2, k - 1);
    }
  }

  /** `x & (2^k - 1)` for k below 32, on any number. */
  lemma AndLowJs(x: int, k: nat)
    requires k < 32
    ensures And(x, Pow2(k) - 1) == x % Pow2(k)
  {
    hide AndBits, Pow2;
    Pow2Values();
    Pow2Monotone(k, 31);
    InRange(Pow2(k) - 1);
    AndLow(ToUint32(x), k);
    Pow2Add(32 - k, k);
    ModOfMod(x, Pow2(k), Pow2(32 - k));
    InRange(x % Pow2(k));
  }

  /** Numbers that are already 31 bits pass both conversions unchanged. */
  lemma InRange(v: int)
    requires 0 <= v < TWO_31
    ensures ToUint32(v) == v && ToInt32(v) == v
  {
  }

  lemma Unsigned(v: int)
    requires 0 <= v < TWO_32
    ensures ToUint32(v) == v && ToUint32(ToInt32(v)) == v
  {
  }

  lemma NotUnsigned(x: int)
    ensures ToUint32(Not(x)) == TWO_32 - 1 - ToUint32(x)
  {
  }

  /** Taking one off before or after the conversion to signed is the same modulo 2^32. */
  lemma SignedMinusOne(v: int)
    requires 0 < v < TWO_32
    ensures ToUint32(ToInt32(v) - 1) == v - 1
  {
  }

  lemma UshrZero(x: int)
    ensures Ushr(x, 0) == ToUint32(x)
  {
  }

  /** A conversion to signed and back is a remainder by 2^32. */
  lemma SignedAndBack(x: int)
    ensures ToUint32(ToInt32(x)) == x % TWO_32
  {
  }

  /** `hi | lo` for operands with no bit in common. */
  lemma OrDisjointJs(hi: int, lo: int, k: nat)
    requires ToUint32(hi) % Pow2(k) == 0 && ToUint32(lo) < Pow2(k)
    requires ToUint32(hi) + ToUint32(lo) < TWO_32
    ensures ToUint32(Or(hi, lo)) == ToUint32(hi) + ToUint32(lo)
  {
    hide OrBits, Pow2, ToInt32;
    OrDisjoint(ToUint32(hi), ToUint32(lo), k);
    SignedAndBack(OrBits(ToUint32(hi), ToUint32(lo)));
  }

  /** `x & mask` where mask has its high bits set, down to bit k. */
  lemma AndHighJs(x: int, mask: int, k: nat)
    requires k <= 32 && ToUint32(mask) == TWO_32 - Pow2(k)
    ensures ToUint32(And(x, mask)) == ToUint32(x) - ToUint32(x) % Pow2(k)
  {
    hide AndBits, Pow2, ToInt32;
    Pow2Values();
    AndHigh(ToUint32(x), k, 32);
    SignedAndBack(AndBits(ToUint32(x), ToUint32(mask)));
  }
}
