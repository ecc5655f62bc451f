/** C#'s `ulong`, the type of a bitboard: a number below 2^64 whose bit operations are
    defined on its binary digits (`BitOf`), with shifts whose count is taken modulo 64 and
    a subtraction that wraps around. */
module ULong {
  import opened CSharp

  const Two64: int := 0x1_0000_0000_0000_0000

  type ulong = x: int | 0 <= x < Two64

  lemma Pow64()
    ensures Pow2(64) == Two64
  {
    Pow32();
    Pow2Add(32, 32);
  }

  // ------------------------------------------------ binary digits of naturals

  /** Two numbers with the same binary digits are equal. */
  lemma {:induction false} BitsEqual(a: nat, b: nat)
    requires forall k: nat :: BitOf(a, k) == BitOf(b, k)
    ensures a == b
    decreases a + b
  {
    if a != 0 || b != 0 {
      assert BitOf(a, 0) == BitOf(b, 0);
      forall k: nat
        ensures BitOf(a / 2, k) == BitOf(b / 2, k)
      {
        assert BitOf(a, k + 1) == BitOf(b, k + 1);
      }
      BitsEqual(a / 2, b / 2);
    }
  }

  /** A number below 2^n has no digit at position n or above. */
  lemma {:induction false} BitOfHigh(u: nat, n: nat, k: nat)
    requires u < Pow2(n) && k >= n
    ensures !BitOf(u, k)
  {
    if n == 0 {
      ZeroBits(k);
    } else {
      BitOfHigh(u / 2, n - 1, k - 1);
    }
  }

  /** A number with no digit at position n or above is below 2^n. */
  lemma {:induction false} BitsBelow(u: nat, n: nat)
    requires forall k: nat :: k >= n ==> !BitOf(u, k)
    ensures u < Pow2(n)
    decreases n
  {
    if n == 0 {
      forall k: nat
        ensures BitOf(u, k) == BitOf(0, k)
      {
        ZeroBits(k);
      }
      BitsEqual(u, 0);
    } else {
      forall k: nat | k >= n - 1
        ensures !BitOf(u / 2, k)
      {
        assert !BitOf(u, k + 1);
      }
      BitsBelow(u / 2, n - 1);
    }
  }

  /** 2^n has exactly one digit, at position n. */
  lemma {:induction false} BitOfPow2(n: nat, k: nat)
    ensures BitOf(Pow2(n), k) <==> k == n
  {
    if k > 0 {
      if n == 0 {
        ZeroBits(k - 1);
      } else {
        BitOfPow2(n - 1, k - 1);
      }
    }
  }

  /** 2^n - 1 has exactly the digits below n. */
  lemma {:induction false} BitOfLowMask(n: nat, k: nat)
    ensures BitOf(Pow2(n) - 1, k) <==> k < n
  {
    if n == 0 {
      ZeroBits(k);
    } else if k > 0 {
      BitOfLowMask(n - 1, k - 1);
    }
  }

  /** Multiplying by 2^n moves every digit up by n. */
  lemma {:induction false} BitOfMul(u: nat, n: nat, k: nat)
    ensures BitOf(u * Pow2(n), k) <==> k >= n && BitOf(u, k - n)
  {
    if n > 0 {
      var v := u * Pow2(n - 1);
      assert u * Pow2(n) == 2 * v;
      if k > 0 {
        assert BitOf(2 * v, k) == BitOf(v, k - 1);
        BitOfMul(u, n - 1, k - 1);
      }
    }
  }

  lemma DivUnique(u: nat, d: nat, q: nat, r: nat)
    requires d > 0 && u == d * q + r && r < d
    ensures u / d == q && u % d == r
  {
    var q', r' := u / d, u % d;
    assert d * (q' - q) == r - r';
    if q' > q {
      MulAtLeast(d, q' - q);
    } else if q' < q {
      MulAtLeast(d, q - q');
    }
  }

  lemma MulAtLeast(d: nat, x: nat)
    requires x >= 1
    ensures d * x >= d
  {
  }

  lemma DivAtMost(u: nat, d: nat)
    requires d > 0
    ensures 0 <= u / d <= u
  {
    DivNonNegative(u, d);
    assert u == d * (u / d) + u % d;
    if u / d > 0 {
      MulAtLeast(u / d, d);
    }
  }

  lemma {:induction false} Pow2Mono(m: nat, n: nat)
    requires m < n
    ensures Pow2(m) < Pow2(n)
  {
    if m < n - 1 {
      Pow2Mono(m, n - 1);
    }
  }

  /** Halving and then dividing by p is dividing by 2p. */
  lemma DivTwice(u: nat, p: nat)
    requires p > 0
    ensures (u / 2) / p == u / (2 * p)
    ensures (u % (2 * p)) / 2 == (u / 2) % p
    ensures (u % (2 * p)) % 2 == u % 2
  {
    var q, r := (u / 2) / p, (u / 2) % p;
    assert u / 2 == p * q + r;
    assert u == (2 * p) * q + (2 * r + u % 2);
    DivUnique(u, 2 * p, q, 2 * r + u % 2);
    DivUnique(2 * r + u % 2, 2, r, u % 2);
  }

  /** Dividing by 2^n moves every digit down by n. */
  lemma {:induction false} BitOfDiv(u: nat, n: nat, k: nat)
    ensures u / Pow2(n) >= 0 && BitOf(u / Pow2(n), k) == BitOf(u, k + n)
  {
    DivNonNegative(u, Pow2(n));
    if n > 0 {
      DivTwice(u, Pow2(n - 1));
      BitOfDiv(u / 2, n - 1, k);
    }
  }

  /** Reducing modulo 2^n keeps exactly the digits below n. */
  lemma {:induction false} BitOfMod(u: nat, n: nat, k: nat)
    ensures BitOf(u % Pow2(n), k) <==> k < n && BitOf(u, k)
  {
    if n == 0 {
      ZeroBits(k);
    } else {
      DivTwice(u, Pow2(n - 1));
      if k > 0 {
        BitOfMod(u / 2, n - 1, k - 1);
      }
    }
  }

  /** Placing `x` above an `n`-digit number `m`: the low digits are those of `m`, the others
      those of `x`. */
  lemma {:induction false} BitOfConcat(x: nat, n: nat, m: nat, k: nat)
    requires m < Pow2(n)
    ensures BitOf(x * Pow2(n) + m, k) <==> if k < n then BitOf(m, k) else BitOf(x, k - n)
  {
    if n == 0 {
    } else {
      var y := x * Pow2(n - 1);
      assert x * Pow2(n) + m == 2 * (y + m / 2) + m % 2;
      if k > 0 {
        assert BitOf(2 * (y + m / 2) + m % 2, k) == BitOf(y + m / 2, k - 1);
        BitOfConcat(x, n - 1, m / 2, k - 1);
      } else {
        assert (2 * (y + m / 2) + m % 2) % 2 == m % 2;
      }
    }
  }

  /** 2^hi - 2^lo has exactly the digits from lo up to, but not including, hi. */
  lemma BitOfRange(lo: nat, hi: nat, k: nat)
    requires lo <= hi
    ensures Pow2(lo) <= Pow2(hi) && (BitOf(Pow2(hi) - Pow2(lo), k) <==> lo <= k < hi)
  {
    if lo < hi {
      Pow2Mono(lo, hi);
    }
    Pow2Add(hi - lo, lo);
    assert Pow2(hi) - Pow2(lo) == (Pow2(hi - lo) - 1) * Pow2(lo);
    BitOfMul(Pow2(hi - lo) - 1, lo, k);
    if k >= lo {
      BitOfLowMask(hi - lo, k - lo);
    }
  }

  /** Masking with 2^n - 1 keeps the low n digits: the remainder modulo 2^n. */
  lemma LowMask(u: nat, n: nat)
    ensures AndBits(u, Pow2(n) - 1) == u % Pow2(n)
  {
    forall k: nat
      ensures BitOf(AndBits(u, Pow2(n) - 1), k) == BitOf(u % Pow2(n), k)
    {
      AndBitAt(u, Pow2(n) - 1, k);
      BitOfLowMask(n, k);
      BitOfMod(u, n, k);
    }
    BitsEqual(AndBits(u, Pow2(n) - 1), u % Pow2(n));
  }

  /** Masking with 2^hi - 2^lo keeps the digits from lo up to hi, in place. */
  lemma BandMask(u: nat, lo: nat, hi: nat)
    requires lo <= hi
    ensures Pow2(lo) <= Pow2(hi) && AndBits(u, Pow2(hi) - Pow2(lo)) == u % Pow2(hi) / Pow2(lo) * Pow2(lo)
  {
    BitOfRange(lo, hi, 0);
    var mask := Pow2(hi) - Pow2(lo);
    var r := u % Pow2(hi);
    DivNonNegative(r, Pow2(lo));
    var v := r / Pow2(lo);
    var w := BandValue(v, lo);
    forall k: nat
      ensures BitOf(AndBits(u, mask), k) == BitOf(w, k)
    {
      BandDigit(u, lo, hi, k);
    }
    BitsEqual(AndBits(u, mask), w);
  }

  /** `v * 2^lo`, as a natural number. */
  function BandValue(v: nat, lo: nat): (w: nat)
    ensures w == v * Pow2(lo)
  {
    MulNonNegative(v, Pow2(lo));
    v * Pow2(lo)
  }

  lemma MulNonNegative(a: nat, b: nat)
    ensures a * b >= 0
  {
    if a > 0 && b > 0 {
      MulAtLeast(a, b);
    }
  }

  /** One digit of `BandMask`. */
  lemma BandDigit(u: nat, lo: nat, hi: nat, k: nat)
    requires lo <= hi && Pow2(lo) <= Pow2(hi) && u % Pow2(hi) / Pow2(lo) >= 0
    ensures BitOf(AndBits(u, Pow2(hi) - Pow2(lo)), k) == BitOf(BandValue(u % Pow2(hi) / Pow2(lo), lo), k)
  {
    var v := u % Pow2(hi) / Pow2(lo);
    AndBitAt(u, Pow2(hi) - Pow2(lo), k);
    BitOfRange(lo, hi, k);
    BitOfMul(v, lo, k);
    if k >= lo {
      BitOfDiv(u % Pow2(hi), lo, k - lo);
    }
    BitOfMod(u, hi, k);
  }

  /** Or-ing a number below 2^n into a multiple of 2^n adds it. */
  lemma OrConcat(x: nat, n: nat, m: nat)
    requires m < Pow2(n)
    ensures OrBits(x * Pow2(n), m) == x * Pow2(n) + m
  {
    forall k: nat
      ensures BitOf(OrBits(x * Pow2(n), m), k) == BitOf(x * Pow2(n) + m, k)
    {
      OrBitAt(x * Pow2(n), m, k);
      BitOfConcat(x, n, m, k);
      BitOfMul(x, n, k);
      if k >= n {
        BitOfHigh(m, n, k);
      }
    }
    BitsEqual(OrBits(x * Pow2(n), m), x * Pow2(n) + m);
  }

  // ------------------------------------------------------------ operations

  function UAnd(a: ulong, b: ulong): ulong {
    AndBitsBound(a, b);
    AndBits(a, b)
  }

  function UOr(a: ulong, b: ulong): ulong {
    Pow64();
    OrBitsBound(a, b, 64);
    OrBits(a, b)
  }

  function UXor(a: ulong, b: ulong): ulong {
    Pow64();
    XorBitsBound(a, b, 64);
    XorBits(a, b)
  }

  /** `~a`. */
  function UNot(a: ulong): ulong {
    Two64 - 1 - a
  }

  /** `a << n`: the count is taken modulo 64 and bits shifted past 63 are lost. */
  function UShl(a: ulong, n: int): ulong {
    (a * Pow2(n % 64)) % Two64
  }

  /** `a >> n`: the count is taken modulo 64. */
  function UShr(a: ulong, n: int): ulong {
    DivAtMost(a, Pow2(n % 64));
    a / Pow2(n % 64)
  }

  /** `a * b`, keeping the low 64 bits. */
  function UMul(a: ulong, b: ulong): ulong {
    (a * b) % Two64
  }

  /** `a - b`, wrapping around below zero. */
  function USub(a: ulong, b: ulong): ulong {
    (a - b) % Two64
  }

  // ------------------------------------------------ the digits they produce

  lemma UHigh(a: ulong, k: nat)
    requires k >= 64
    ensures !BitOf(a, k)
  {
    Pow64();
    BitOfHigh(a, 64, k);
  }

  lemma UAndAt(a: ulong, b: ulong, k: nat)
    ensures BitOf(UAnd(a, b), k) <==> BitOf(a, k) && BitOf(b, k)
  {
    AndBitAt(a, b, k);
  }

  lemma UOrAt(a: ulong, b: ulong, k: nat)
    ensures BitOf(UOr(a, b), k) <==> BitOf(a, k) || BitOf(b, k)
  {
    OrBitAt(a, b, k);
  }

  lemma UXorAt(a: ulong, b: ulong, k: nat)
    ensures BitOf(UXor(a, b), k) <==> BitOf(a, k) != BitOf(b, k)
  {
    XorBitAt(a, b, k);
  }

  /** `^` on 64-bit words is commutative and associative, has 0 as its unit and cancels
      itself. */
  lemma UXorAlgebra(a: ulong, b: ulong, c: ulong)
    ensures UXor(a, b) == UXor(b, a)
    ensures UXor(UXor(a, b), c) == UXor(a, UXor(b, c))
    ensures UXor(a, 0) == a && UXor(a, a) == 0
  {
    XorBitsCommute(a, b);
    XorBitsSelf(a);
    forall k: nat
      ensures BitOf(UXor(UXor(a, b), c), k) == BitOf(UXor(a, UXor(b, c)), k)
      ensures BitOf(UXor(a, 0), k) == BitOf(a, k)
    {
      XorBitAt(UXor(a, b), c, k);
      XorBitAt(a, b, k);
      XorBitAt(a, UXor(b, c), k);
      XorBitAt(b, c, k);
      XorBitAt(a, 0, k);
      ZeroBits(k);
    }
    BitsEqual(UXor(UXor(a, b), c), UXor(a, UXor(b, c)));
    BitsEqual(UXor(a, 0), a);
  }

  /** A bitboard is non-zero exactly when it has a set bit. */
  lemma NonZero(a: nat)
    ensures a != 0 <==> exists k: nat :: BitOf(a, k)
  {
    if a != 0 {
      var k := LowBit(a);
      assert BitOf(a, k);
      assert exists j: nat :: BitOf(a, j);
    } else {
      forall k: nat
        ensures !BitOf(a, k)
      {
        ZeroBits(k);
      }
    }
  }

  /** The position of some set bit of a non-zero number. */
  function LowBit(a: nat): (k: nat)
    requires a != 0
    ensures BitOf(a, k)
    decreases a
  {
    if a % 2 == 1 then 0 else LowBit(a / 2) + 1
  }

  lemma UNotAt(a: ulong, k: nat)
    ensures BitOf(UNot(a), k) <==> k < 64 && !BitOf(a, k)
  {
    Pow64();
    XorBitsLowMask(a, 64);
    XorBitAt(a, Pow2(64) - 1, k);
    BitOfLowMask(64, k);
    if k >= 64 {
      BitOfHigh(a, 64, k);
    }
  }

  lemma UShlAt(a: ulong, n: int, k: nat)
    ensures BitOf(UShl(a, n), k) <==> k < 64 && k >= n % 64 && BitOf(a, k - n % 64)
  {
    Pow64();
    BitOfMod(a * Pow2(n % 64), 64, k);
    BitOfMul(a, n % 64, k);
  }

  lemma UShrAt(a: ulong, n: int, k: nat)
    ensures BitOf(UShr(a, n), k) == BitOf(a, k + n % 64)
  {
    BitOfDiv(a, n % 64, k);
  }

  /** A subtraction that does not go below zero does not wrap. */
  lemma USubExact(a: ulong, b: ulong)
    requires b <= a
    ensures USub(a, b) == a - b
  {
    DivUnique(a - b, Two64, 0, a - b);
  }

  /** The single-square bitboard 2^i. */
  lemma UPow2(i: nat)
    requires i < 64
    ensures Pow2(i) < Two64
  {
    Pow64();
    Pow2Mono(i, 64);
  }
}
