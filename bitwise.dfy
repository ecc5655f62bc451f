// ConsoleApp/Algorithm/Bitwise.cs: bit tricks on C# `int`. The bits of an `int` are those
// of its two's-complement pattern (`Pattern`, a number below 2^32); shift counts are taken
// modulo 32 and results wrap, as in C#.

module Bitwise {
  import opened CSharp
  import ULong

  /** Bit `k` of `x`; there are none from 32 on. */
  predicate Bit(x: int32, k: nat) {
    BitOf(Pattern(x), k)
  }

  /** `1 << n` has exactly one bit, at `n % 32`. */
  lemma OneAt(n: int)
    ensures Pattern(ShiftLeft(1, n)) == Pow2(n % 32)
    ensures Pow2(31) == Two31 && (n % 32 < 31 ==> Pow2(n % 32) < Two31)
  {
    var m := n % 32;
    Pow32();
    Pow2Add(31, 1);
    if m < 31 {
      ULong.Pow2Mono(m, 31);
    }
  }

  /** The digits of `Pow2(m)` for `m < 32`, in the terms of `Bit`. */
  lemma OneBits(n: int, k: nat)
    ensures Bit(ShiftLeft(1, n), k) <==> k == n % 32
  {
    OneAt(n);
    ULong.BitOfPow2(n % 32, k);
  }

  /** `Set(value, index)`: `value | (1 << index)`. */
  function Set(value: int32, index: int32): int32 {
    Or(value, ShiftLeft(1, index as int))
  }

  /** `Set` turns bit `index % 32` on and keeps every other bit. */
  lemma SetBits(value: int32, index: int32)
    ensures forall k: nat :: Bit(Set(value, index), k) <==> Bit(value, k) || k == index as int % 32
  {
    forall k: nat
      ensures Bit(Set(value, index), k) <==> Bit(value, k) || k == index as int % 32
    {
      OrBitAt(Pattern(value), Pattern(ShiftLeft(1, index as int)), k);
      OneBits(index as int, k);
    }
  }

  /** `Reset(value, index)` as written: `value & (0 << index)`, which masks with 0. */
  function ResetAsWritten(value: int32, index: int32): (r: int32)
    ensures r == 0
  {
    AndSmall(value, 0);
    And(value, ShiftLeft(0, index as int))
  }

  /** Resetting bit 0 of 3 also clears bit 1, which should have stayed. */
  lemma ResetClearsOthers()
    ensures Bit(3, 1) && !Bit(ResetAsWritten(3, 0), 1)
  {
    ZeroBits(1);
  }

  /** C#'s `~x` on `int`: every one of the 32 bits flips. */
  function Not(x: int32): (r: int32)
    ensures Pattern(r) == Two32 - 1 - Pattern(x)
  {
    (-(x as int) - 1) as int32
  }

  lemma NotBits(x: int32, k: nat)
    ensures Bit(Not(x), k) <==> k < 32 && !Bit(x, k)
  {
    Pow32();
    XorBitsLowMask(Pattern(x), 32);
    XorBitAt(Pattern(x), Pow2(32) - 1, k);
    ULong.BitOfLowMask(32, k);
    if k >= 32 {
      ULong.BitOfHigh(Pattern(x), 32, k);
    }
  }

  /** `Reset` as documented: `value & ~(1 << index)`. */
  function Reset(value: int32, index: int32): int32 {
    And(value, Not(ShiftLeft(1, index as int)))
  }

  /** The corrected `Reset` clears bit `index % 32` and keeps every other bit. */
  lemma ResetBits(value: int32, index: int32)
    ensures forall k: nat :: Bit(Reset(value, index), k) <==> Bit(value, k) && k != index as int % 32
  {
    var mask := Not(ShiftLeft(1, index as int));
    forall k: nat
      ensures Bit(Reset(value, index), k) <==> Bit(value, k) && k != index as int % 32
    {
      AndBitAt(Pattern(value), Pattern(mask), k);
      NotBits(ShiftLeft(1, index as int), k);
      OneBits(index as int, k);
      if k >= 32 {
        Pow32();
        ULong.BitOfHigh(Pattern(value), 32, k);
      }
    }
  }

  /** `Get(value, index)`: `value & (1 << index)`. */
  function Get(value: int32, index: int32): int32 {
    And(value, ShiftLeft(1, index as int))
  }

  /** `Get` is non-zero exactly when bit `index` is set, and then it is that bit alone. */
  lemma GetBit(value: int32, index: int32)
    ensures Get(value, index) != 0 <==> Bit(value, index as int % 32)
    ensures forall k: nat :: Bit(Get(value, index), k) <==> Bit(value, k) && k == index as int % 32
  {
    var r := Get(value, index);
    forall k: nat
      ensures Bit(r, k) <==> Bit(value, k) && k == index as int % 32
    {
      AndBitAt(Pattern(value), Pattern(ShiftLeft(1, index as int)), k);
      OneBits(index as int, k);
    }
    ULong.NonZero(Pattern(r));
    var m := index as int % 32;
    if Bit(value, m) {
      assert BitOf(Pattern(r), m);
      ZeroBits(m);
    }
    if r != 0 {
      assert Pattern(r) != 0;
      var k: nat :| BitOf(Pattern(r), k);
      assert Bit(r, k);
    }
  }

  /** `value & 1` is the remainder of the pattern modulo 2, which is that of `value`. */
  lemma LowBit(value: int32)
    ensures And(value, 1) as int == value as int % 2
  {
    var u := Pattern(value);
    AndBitsBound(u / 2, 0);
    assert AndBits(u, 1) == 2 * AndBits(u / 2, 0) + (if u % 2 == 1 then 1 else 0);
    assert u % 2 == value as int % 2 by {
      assert u == value as int || u == value as int + 2 * 0x8000_0000;
    }
  }

  /** `IsEven(value)`: `(value & 1) == 0`. */
  predicate IsEven(value: int32) {
    And(value, 1) == 0
  }

  /** `IsOdd(value)`: `(value & 1) == 1`. */
  predicate IsOdd(value: int32) {
    And(value, 1) == 1
  }

  /** Exactly one of the two holds, and `IsEven` means divisible by 2, negative values
      included. */
  lemma Parity(value: int32)
    ensures IsEven(value) <==> !IsOdd(value)
    ensures IsEven(value) <==> value as int % 2 == 0
  {
    LowBit(value);
  }

  /** An `int` is negative exactly when bit 31 of its pattern is set. */
  lemma SignBit(x: int32)
    ensures x < 0 <==> Bit(x, 31)
  {
    var u := Pattern(x);
    ULong.BitOfDiv(u, 31, 0);
    Pow32();
    Pow2Add(31, 1);
    ULong.DivUnique(u, Pow2(31), if x < 0 then 1 else 0, if x < 0 then x as int + Two31 else x as int);
  }

  /** `IsOppositeSigns(x, y)`: `(x ^ y) < 0`. */
  predicate IsOppositeSigns(x: int32, y: int32) {
    Xor(x, y) < 0
  }

  lemma OppositeSigns(x: int32, y: int32)
    ensures IsOppositeSigns(x, y) <==> (x < 0) != (y < 0)
  {
    SignBit(x);
    SignBit(y);
    SignBit(Xor(x, y));
    XorBitAt(Pattern(x), Pattern(y), 31);
  }

  /** `Swap(ref x, ref y)`: three exclusive-or assignments; the new values are returned. */
  method Swap(x: int32, y: int32) returns (x': int32, y': int32)
    ensures x' == y && y' == x
  {
    x', y' := x, y;
    x' := Xor(x', y');
    y' := Xor(y', x');
    x' := Xor(x', y');
    XorCommute(y, Xor(x, y));
    XorCancel(x, y);
  }

  /** `Power2(n)`: `1 << n`. */
  function Power2(n: int32): int32 {
    ShiftLeft(1, n as int)
  }

  /** `Power2(n)` is 2^n for `0 <= n < 31` and wraps to the lowest `int` for 31. */
  lemma Power2Value(n: int32)
    ensures 0 <= n < 31 ==> Power2(n) as int == Pow2(n as int)
    ensures n == 31 ==> Power2(n) as int == -Two31
  {
    var r := Power2(n);
    OneAt(n as int);
    if 0 <= n < 32 {
      ULong.DivUnique(n as int, 32, 0, n as int);
      assert Pattern(r) == Pow2(n as int);
    }
  }

  /** `Log2(value)`: halves `value` until it is no longer positive. For a positive
      `value` that is the binary logarithm rounded down. */
  function Log2(value: int32): (r: int32)
    ensures r >= 0 && (value <= 1 ==> r == 0)
    ensures value >= 1 ==> Pow2(r as int) <= value as int < Pow2(r as int + 1)
    decreases value
  {
    var half := ShiftRight(value, 1);
    assert half as int == value as int / 2;
    if half > 0 then
      var l := Log2(half);
      Below30(l as int, half as int);
      l + 1
    else 0
  }

  /** A logarithm of a number below 2^30 is below 30. */
  lemma Below30(l: nat, half: int)
    requires Pow2(l) <= half < 0x4000_0000
    ensures l < 30
  {
    Pow32();
    Pow2Add(30, 2);
    if 30 < l {
      ULong.Pow2Mono(30, l);
    }
  }

  /** x^n over the unbounded integers. */
  function Power(x: int, n: nat): int {
    if n == 0 then 1 else x * Power(x, n - 1)
  }

  lemma {:induction false} PowerAdd(x: int, m: nat, n: nat)
    ensures Power(x, m + n) == Power(x, m) * Power(x, n)
  {
    if m > 0 {
      PowerAdd(x, m - 1, n);
    }
  }

  /** `BinaryExponentiation(x, y)`: squares the power for `y / 2` and multiplies by `x`
      when `y` is odd; the products wrap. */
  function BinaryExponentiation(x: int32, y: int32): int32
    decreases Abs(y as int)
  {
    if y == 0 then 1
    else
      var e := BinaryExponentiation(x, Div(y as int, 2) as int32);
      if And(y, 1) == 1 then Mul(Mul(e, e), x) else Mul(e, e)
  }

  /** The result is x^|y|, wrapped to 32 bits: a negative exponent counts as its absolute
      value. */
  lemma {:induction false} Exponentiation(x: int32, y: int32)
    ensures BinaryExponentiation(x, y) == Wrap(Power(x as int, Abs(y as int)))
    decreases Abs(y as int)
  {
    if y != 0 {
      var h := Div(y as int, 2) as int32;
      Exponentiation(x, h);
      var p := Power(x as int, Abs(h as int));
      OddBit(y);
      Halves(x as int, Abs(y as int));
      Squares(p, x);
    }
  }

  /** `y & 1` is 1 exactly when `|y|` is odd. */
  lemma OddBit(y: int32)
    ensures And(y, 1) == 1 <==> Abs(y as int) % 2 == 1
  {
    LowBit(y);
    assert y as int % 2 == Abs(y as int) % 2 by {
      assert y as int == Abs(y as int) || y as int + Abs(y as int) == 0;
    }
  }

  /** x^n is the square of x^(n / 2), times x when n is odd. */
  lemma Halves(x: int, n: nat)
    ensures n % 2 == 0 ==> Power(x, n) == Power(x, n / 2) * Power(x, n / 2)
    ensures n % 2 == 1 ==> Power(x, n) == Power(x, n / 2) * Power(x, n / 2) * x
  {
    var m := n / 2;
    PowerAdd(x, m, m);
    PowerAdd(x, 2 * m, n % 2);
    assert Power(x, 1) == x * Power(x, 0);
  }

  /** Squaring, and multiplying by `x`, commute with wrapping. */
  lemma Squares(p: int, x: int32)
    ensures Mul(Wrap(p), Wrap(p)) == Wrap(p * p)
    ensures Mul(Mul(Wrap(p), Wrap(p)), x) == Wrap(p * p * x as int)
  {
    WrapTimes(p, p);
    WrapTimes(p * p, x as int);
  }

  /** Wrapping the left factor of a product does not change the wrapped product. */
  lemma WrapTimes(a: int, b: int)
    ensures Wrap(Wrap(a) as int * Wrap(b) as int) == Wrap(a * b)
    ensures Wrap(Wrap(a) as int * b) == Wrap(a * b)
  {
    var e := Wrap(a) as int;
    assert Wrap(e * b) == Wrap(a * b) by {
      assert e * b == b * e;
      WrapMul(b, a);
      assert b * a == a * b;
    }
    WrapMul(e, b);
  }
}
