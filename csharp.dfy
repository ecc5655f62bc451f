/** The parts of C#'s integer and string semantics that the modelled program relies on:
    32-bit two's-complement `int` with unchecked wrap-around, truncating division, bit
    operations on the two's-complement pattern, exceptions as values, and the few
    `string`/`char` library calls the program makes (ASCII behaviour only). */
module CSharp {

  /** C#'s `int`. */
  newtype int32 = x: int | -0x8000_0000 <= x < 0x8000_0000

  /** C#'s `uint`. */
  newtype uint32 = x: int | 0 <= x < 0x1_0000_0000

  const Two31: int := 0x8000_0000
  const Two32: int := 0x1_0000_0000

  /** The exceptions the modelled code can raise. */
  datatype Exception = IndexOutOfRange | NullReference | DivideByZero | Argument | Overflow

  /** The result of a call that either returns a value or throws. */
  datatype Outcome<T> = Returns(value: T) | Throws(error: Exception)

  datatype Option<T> = None | Some(value: T)

  // ---------------------------------------------------------------- integers

  function Pow2(n: nat): (r: nat)
    ensures r >= 1
  {
    if n == 0 then 1 else 2 * Pow2(n - 1)
  }

  function Abs(x: int): nat { if x < 0 then -x else x }

  /** Unchecked arithmetic: the exact result taken modulo 2^32 and read back as signed. */
  function Wrap(x: int): (r: int32)
    ensures (r as int - x) % Two32 == 0
    ensures -Two31 <= x < Two31 ==> r as int == x
  {
    var u := x % Two32;
    if u < Two31 then u as int32 else (u - Two32) as int32
  }

  /** Two exact results that agree modulo 2^32 wrap to the same `int`. */
  lemma WrapCongruent(x: int, y: int)
    requires (x - y) % Two32 == 0
    ensures Wrap(x) == Wrap(y)
  {
    var k := (x - y) / Two32;
    assert x == y + k * Two32;
  }

  /** Wrapping an operand first does not change a wrapped product. */
  lemma WrapMul(a: int, b: int)
    ensures Wrap(a * (Wrap(b) as int)) == Wrap(a * b)
  {
    var k := (Wrap(b) as int - b) / Two32;
    assert Wrap(b) as int == b + k * Two32;
    assert a * (Wrap(b) as int) == a * b + (a * k) * Two32;
    WrapCongruent(a * (Wrap(b) as int), a * b);
  }

  /** Wrapping an operand first does not change a wrapped sum. */
  lemma WrapAdd(a: int, b: int)
    ensures Wrap(a + (Wrap(b) as int)) == Wrap(a + b)
  {
    WrapCongruent(a + (Wrap(b) as int), a + b);
  }

  function Add(a: int32, b: int32): int32 { Wrap(a as int + b as int) }

  /** Adding wrapped numbers wraps their exact sum. */
  lemma WrapSum(a: int, b: int)
    ensures Add(Wrap(a), Wrap(b)) == Wrap(a + b)
  {
    WrapAdd(Wrap(a) as int, b);
    WrapAdd(b, a);
    assert Wrap(a) as int + b == b + Wrap(a) as int;
  }

  /** Unchecked addition is associative. */
  lemma AddAssoc(a: int32, b: int32, c: int32)
    ensures Add(a, Add(b, c)) == Add(Add(a, b), c)
  {
    var x, y, z := a as int, b as int, c as int;
    var bc, ab := Wrap(y + z) as int, Wrap(x + y) as int;
    assert x + bc - (x + y + z) == bc - (y + z);
    WrapCongruent(x + bc, x + y + z);
    assert ab + z - (x + y + z) == ab - (x + y);
    WrapCongruent(ab + z, x + y + z);
  }
  function Sub(a: int32, b: int32): int32 { Wrap(a as int - b as int) }
  function Mul(a: int32, b: int32): int32 { Wrap(a as int * b as int) }

  /** C#'s integer `/`: the quotient truncated toward zero. */
  function Div(a: int, b: int): (q: int)
    requires b != 0
    ensures Abs(q) == Abs(a) / Abs(b)
    ensures q != 0 ==> ((q < 0) <==> ((a < 0) != (b < 0)))
  {
    var d := Abs(a) / Abs(b);
    assert d >= 0 by { DivNonNegative(Abs(a), Abs(b)); }
    if (a < 0) == (b < 0) then d else -d
  }

  lemma DivNonNegative(x: nat, y: nat)
    requires y > 0
    ensures x / y >= 0
  {
    var q := x / y;
    assert x == y * q + x % y;
    MulSign(y, q + 1);
  }

  /** Multiplying by a positive number moves a number away from zero. */
  lemma MulSign(d: int, k: int)
    requires d >= 1
    ensures k >= 0 ==> d * k >= k
    ensures k <= 0 ==> d * k <= k
  {
  }

  /** C#'s integer `%`: the remainder that goes with `Div`, carrying the sign of `a`. */
  function Rem(a: int, b: int): (r: int)
    requires b != 0
    ensures Abs(r) < Abs(b)
    ensures r != 0 ==> ((r < 0) <==> (a < 0))
  {
    if a < 0 then -(Abs(a) % Abs(b)) else Abs(a) % Abs(b)
  }

  /** `Div` and `Rem` put `a` back together: `a == b * (a / b) + a % b` in C#. */
  lemma DivRem(a: int, b: int)
    requires b != 0
    ensures a == b * Div(a, b) + Rem(a, b)
  {
    var q, r := Abs(a) / Abs(b), Abs(a) % Abs(b);
    assert Abs(a) == Abs(b) * q + r;
    if a < 0 && b < 0 {
      assert b * q == 0 - Abs(b) * q by { assert b + Abs(b) == 0; }
    } else if a < 0 {
      assert b * -q == -(Abs(b) * q);
    } else if b < 0 {
      assert b * -q == Abs(b) * q by { assert b + Abs(b) == 0; }
    }
  }

  // ------------------------------------------------------ bits of an int

  /** The two's-complement bit pattern of an `int`, as a number below 2^32. */
  function Pattern(x: int32): (u: nat)
    ensures u < Two32
    ensures x >= 0 ==> u == x as int
    ensures x < 0 ==> u == x as int + Two32
  {
    (x as int) % Two32
  }

  /** Bit k (counting from 0) of a non-negative number. */
  predicate BitOf(u: nat, k: nat) {
    if k == 0 then u % 2 == 1 else BitOf(u / 2, k - 1)
  }

  function XorBits(a: nat, b: nat): nat
    decreases a + b
  {
    if a == 0 && b == 0 then 0 else 2 * XorBits(a / 2, b / 2) + (if a % 2 == b % 2 then 0 else 1)
  }

  function AndBits(a: nat, b: nat): nat
    decreases a + b
  {
    if a == 0 && b == 0 then 0 else 2 * AndBits(a / 2, b / 2) + (if a % 2 == 1 && b % 2 == 1 then 1 else 0)
  }

  function OrBits(a: nat, b: nat): nat
    decreases a + b
  {
    if a == 0 && b == 0 then 0 else 2 * OrBits(a / 2, b / 2) + (if a % 2 == 1 || b % 2 == 1 then 1 else 0)
  }

  lemma {:induction false} XorBitAt(a: nat, b: nat, k: nat)
    ensures BitOf(XorBits(a, b), k) == (BitOf(a, k) != BitOf(b, k))
    decreases a + b
  {
    if a == 0 && b == 0 {
      ZeroBits(k);
    } else if k > 0 {
      XorBitAt(a / 2, b / 2, k - 1);
    }
  }

  lemma {:induction false} AndBitAt(a: nat, b: nat, k: nat)
    ensures BitOf(AndBits(a, b), k) == (BitOf(a, k) && BitOf(b, k))
    decreases a + b
  {
    if a == 0 && b == 0 {
      ZeroBits(k);
    } else if k > 0 {
      AndBitAt(a / 2, b / 2, k - 1);
    }
  }

  lemma {:induction false} OrBitAt(a: nat, b: nat, k: nat)
    ensures BitOf(OrBits(a, b), k) == (BitOf(a, k) || BitOf(b, k))
    decreases a + b
  {
    if a == 0 && b == 0 {
      ZeroBits(k);
    } else if k > 0 {
      OrBitAt(a / 2, b / 2, k - 1);
    }
  }

  lemma {:induction false} ZeroBits(k: nat)
    ensures !BitOf(0, k)
  {
    if k > 0 {
      ZeroBits(k - 1);
    }
  }

  lemma {:induction false} XorBitsBound(a: nat, b: nat, n: nat)
    requires a < Pow2(n) && b < Pow2(n)
    ensures XorBits(a, b) < Pow2(n)
    decreases a + b
  {
    if a != 0 || b != 0 {
      XorBitsBound(a / 2, b / 2, n - 1);
    }
  }

  lemma {:induction false} AndBitsBound(a: nat, b: nat)
    ensures AndBits(a, b) <= a && AndBits(a, b) <= b
    decreases a + b
  {
    if a != 0 || b != 0 {
      AndBitsBound(a / 2, b / 2);
    }
  }

  lemma {:induction false} OrBitsBound(a: nat, b: nat, n: nat)
    requires a < Pow2(n) && b < Pow2(n)
    ensures OrBits(a, b) < Pow2(n)
    decreases a + b
  {
    if a != 0 || b != 0 {
      OrBitsBound(a / 2, b / 2, n - 1);
    }
  }

  /** The defining step of `XorBits`, also when both arguments are zero. */
  lemma XorBitsStep(a: nat, b: nat)
    ensures XorBits(a, b) == 2 * XorBits(a / 2, b / 2) + (if a % 2 == b % 2 then 0 else 1)
  {
    if a == 0 && b == 0 {
      assert XorBits(0, 0) == 0;
    }
  }

  lemma {:induction false} XorBitsCancel(a: nat, b: nat)
    ensures XorBits(XorBits(a, b), b) == a
    decreases a + b
  {
    if a != 0 || b != 0 {
      var x, h := XorBits(a, b), XorBits(a / 2, b / 2);
      var r := if a % 2 == b % 2 then 0 else 1;
      assert x == 2 * h + r;
      assert x / 2 == h && x % 2 == r;
      XorBitsCancel(a / 2, b / 2);
      XorBitsStep(x, b);
    }
  }

  lemma {:induction false} XorBitsCommute(a: nat, b: nat)
    ensures XorBits(a, b) == XorBits(b, a)
    decreases a + b
  {
    if a != 0 || b != 0 {
      XorBitsCommute(a / 2, b / 2);
    }
  }

  lemma {:induction false} OrBitsCommute(a: nat, b: nat)
    ensures OrBits(a, b) == OrBits(b, a)
    decreases a + b
  {
    if a != 0 || b != 0 {
      OrBitsCommute(a / 2, b / 2);
    }
  }

  lemma {:induction false} XorBitsSelf(a: nat)
    ensures XorBits(a, a) == 0
    decreases a
  {
    if a != 0 {
      XorBitsSelf(a / 2);
    }
  }

  lemma Pow32()
    ensures Pow2(32) == Two32
  {
    assert Pow2(8) == 256;
    assert Pow2(16) == 65536 by { assert Pow2(16) == 256 * Pow2(8) by { Pow2Add(8, 8); } }
    assert Pow2(32) == Pow2(16) * Pow2(16) by { Pow2Add(16, 16); }
  }

  lemma {:induction false} Pow2Add(m: nat, n: nat)
    ensures Pow2(m + n) == Pow2(m) * Pow2(n)
    decreases m
  {
    if m > 0 {
      Pow2Add(m - 1, n);
    }
  }

  /** Exclusive or with a mask of `k` ones complements a `k`-bit number. */
  lemma {:induction false} XorBitsLowMask(a: nat, k: nat)
    requires a < Pow2(k)
    ensures XorBits(a, Pow2(k) - 1) == Pow2(k) - 1 - a
  {
    if k > 0 {
      var q := Pow2(k - 1);
      assert Pow2(k) == 2 * q;
      assert a / 2 < q;
      XorBitsLowMask(a / 2, k - 1);
      assert (2 * q - 1) / 2 == q - 1 && (2 * q - 1) % 2 == 1;
      assert XorBits(a, 2 * q - 1) == 2 * XorBits(a / 2, q - 1) + (if a % 2 == 1 then 0 else 1);
    }
  }

  /** The `int` whose bit pattern is `u`. */
  function FromPattern(u: nat): (x: int32)
    requires u < Two32
    ensures Pattern(x) == u
  {
    if u < Two31 then u as int32 else (u - Two32) as int32
  }

  lemma PatternInjective(x: int32, y: int32)
    requires Pattern(x) == Pattern(y)
    ensures x == y
  {
  }

  /** C#'s `x ^ y` on `int`. */
  function Xor(x: int32, y: int32): (r: int32)
    ensures Pattern(r) == XorBits(Pattern(x), Pattern(y))
  {
    Pow32();
    XorBitsBound(Pattern(x), Pattern(y), 32);
    FromPattern(XorBits(Pattern(x), Pattern(y)))
  }

  /** C#'s `x & y` on `int`. */
  function And(x: int32, y: int32): (r: int32)
    ensures Pattern(r) == AndBits(Pattern(x), Pattern(y))
  {
    AndBitsBound(Pattern(x), Pattern(y));
    FromPattern(AndBits(Pattern(x), Pattern(y)))
  }

  /** `&` with a non-negative mask is a number between 0 and the mask. */
  lemma AndSmall(x: int32, mask: int32)
    requires 0 <= mask
    ensures 0 <= And(x, mask) <= mask
  {
    AndBitsBound(Pattern(x), mask as int);
  }

  /** C#'s `x | y` on `int`. */
  function Or(x: int32, y: int32): (r: int32)
    ensures Pattern(r) == OrBits(Pattern(x), Pattern(y))
  {
    Pow32();
    OrBitsBound(Pattern(x), Pattern(y), 32);
    FromPattern(OrBits(Pattern(x), Pattern(y)))
  }

  /** C#'s `x << n` on `int`: the count is taken modulo 32 and the result wraps. */
  function ShiftLeft(x: int32, n: int): int32 {
    Wrap(x as int * Pow2(n % 32))
  }

  /** C#'s `x >> n` on `int`: an arithmetic shift, rounding toward negative infinity. */
  function ShiftRight(x: int32, n: int): int32 {
    QuotientRange(x as int, Pow2(n % 32));
    (x as int / Pow2(n % 32)) as int32
  }

  /** Euclidean division by a positive number moves a number toward zero, or from a
      negative number to at most -1. */
  lemma QuotientRange(x: int, d: int)
    requires d >= 1
    ensures x >= 0 ==> 0 <= x / d <= x
    ensures x < 0 ==> x <= x / d < 0
  {
    var q, r := x / d, x % d;
    assert x == d * q + r && 0 <= r < d;
    MulSign(d, q);
    MulSign(d, q + 1);
    MulSign(d, x);
    MulSign(d, x - q);
  }

  /** Exclusive or undoes itself: the step the XOR swap idiom relies on. */
  lemma XorCancel(x: int32, y: int32)
    ensures Xor(Xor(x, y), y) == x
    ensures Xor(Xor(x, y), x) == y
  {
    XorBitsCancel(Pattern(x), Pattern(y));
    XorBitsCommute(Pattern(x), Pattern(y));
    XorBitsCancel(Pattern(y), Pattern(x));
    PatternInjective(Xor(Xor(x, y), y), x);
    PatternInjective(Xor(Xor(x, y), x), y);
  }

  lemma XorCommute(x: int32, y: int32)
    ensures Xor(x, y) == Xor(y, x)
  {
    XorBitsCommute(Pattern(x), Pattern(y));
    PatternInjective(Xor(x, y), Xor(y, x));
  }

  lemma XorSelf(x: int32)
    ensures Xor(x, x) == 0
  {
    XorBitsSelf(Pattern(x));
    PatternInjective(Xor(x, x), 0);
  }

  // ---------------------------------------------------------------- text

  predicate IsDigit(c: char) { '0' <= c <= '9' }
  predicate IsUpper(c: char) { 'A' <= c <= 'Z' }
  predicate IsLower(c: char) { 'a' <= c <= 'z' }

  /** `char.ToLower`, for ASCII letters. */
  function ToLower(c: char): (r: char)
    ensures !IsUpper(r)
    ensures IsUpper(c) ==> IsLower(r)
    ensures !IsUpper(c) ==> r == c
  {
    if IsUpper(c) then (c as int + 32) as char else c
  }

  /** `char.ToUpper`, for ASCII letters. */
  function ToUpper(c: char): (r: char)
    ensures !IsLower(r)
    ensures IsLower(c) ==> IsUpper(r)
    ensures !IsLower(c) ==> r == c
  {
    if IsLower(c) then (c as int - 32) as char else c
  }

  function ToLowerString(s: string): (r: string)
    ensures |r| == |s| && forall i :: 0 <= i < |s| ==> r[i] == ToLower(s[i])
  {
    if s == [] then [] else [ToLower(s[0])] + ToLowerString(s[1..])
  }

  /** `char.IsWhiteSpace`: the Unicode white-space characters, the separators of
      categories Zs, Zl and Zp together with U+0009 to U+000D, U+0085 and U+00A0. */
  predicate IsWhiteSpace(c: char) {
    ('\U{0009}' <= c <= '\U{000D}') || c == ' ' || c == '\U{0085}' || c == '\U{00A0}' ||
    c == '\U{1680}' || ('\U{2000}' <= c <= '\U{200A}') || c == '\U{2028}' || c == '\U{2029}' ||
    c == '\U{202F}' || c == '\U{205F}' || c == '\U{3000}'
  }

  /** The white space `int.TryParse` allows around a number by default: U+0009 to U+000D
      and the space, the ASCII part of `char.IsWhiteSpace`. */
  predicate IsNumberSpace(c: char) {
    ('\U{0009}' <= c <= '\U{000D}') || c == ' '
  }

  /** Drops the leading characters that are `blank`. */
  function TrimStart(s: string, blank: char -> bool): (r: string)
    ensures |r| <= |s|
    ensures r == [] || !blank(r[0])
  {
    if s != [] && blank(s[0]) then TrimStart(s[1..], blank) else s
  }

  /** Drops the trailing characters that are `blank`. */
  function TrimEnd(s: string, blank: char -> bool): (r: string)
    ensures |r| <= |s|
    ensures r == [] || !blank(r[|r| - 1])
  {
    if s != [] && blank(s[|s| - 1]) then TrimEnd(s[..|s| - 1], blank) else s
  }

  /** `string.Trim()`: every `char.IsWhiteSpace` character is dropped from both ends. */
  function Trim(s: string): string {
    TrimEnd(TrimStart(s, IsWhiteSpace), IsWhiteSpace)
  }

  /** Text that neither starts nor ends with white space is its own trim. */
  lemma TrimNoBlank(s: string)
    requires s == [] || (!IsWhiteSpace(s[0]) && !IsWhiteSpace(s[|s| - 1]))
    ensures Trim(s) == s
  {
    assert TrimStart(s, IsWhiteSpace) == s;
  }

  /** Lower-casing keeps a character that is no white space clear of white space. */
  lemma LowerNotBlank(c: char)
    requires !IsWhiteSpace(c)
    ensures !IsWhiteSpace(ToLower(c))
  {
  }

  /** `string.IndexOf(char)`: the first position of `c`, or -1. */
  function IndexOf(s: string, c: char): (r: int)
    ensures -1 <= r < |s|
    ensures r == -1 <==> c !in s
    ensures r >= 0 ==> s[r] == c && c !in s[..r]
  {
    if s == [] then -1
    else if s[0] == c then 0
    else var k := IndexOf(s[1..], c); if k == -1 then -1 else k + 1
  }

  /** `string.Split(char)`: the pieces between separators, empty pieces included. */
  function Split(s: string, sep: char): (parts: seq<string>)
    ensures |parts| >= 1
    ensures forall i :: 0 <= i < |parts| ==> sep !in parts[i]
  {
    if s == [] then [""]
    else
      var rest := Split(s[1..], sep);
      if s[0] == sep then [""] + rest else [[s[0]] + rest[0]] + rest[1..]
  }

  function DigitChar(d: nat): char
    requires d < 10
  {
    ('0' as int + d) as char
  }

  /** The decimal text of a non-negative number, without leading zeros. */
  function NatToString(n: nat): (s: string)
    ensures |s| >= 1 && forall i :: 0 <= i < |s| ==> IsDigit(s[i])
    ensures |s| > 1 ==> s[0] != '0'
  {
    if n < 10 then [DigitChar(n)] else NatToString(n / 10) + [DigitChar(n % 10)]
  }

  /** `int.ToString()`. */
  function IntToString(x: int): string {
    if x < 0 then "-" + NatToString(-x) else NatToString(x)
  }

  /** The value of a string of decimal digits. */
  function DigitsValue(s: string): nat
  {
    if s == [] then 0 else 10 * DigitsValue(s[..|s| - 1]) + DigitValue(s[|s| - 1])
  }

  function DigitValue(c: char): nat
  {
    if IsDigit(c) then c as int - '0' as int else 0
  }

  /** Reading back the decimal text of `n` gives `n`. */
  lemma {:induction false} NatToStringValue(n: nat)
    ensures DigitsValue(NatToString(n)) == n
  {
    if n >= 10 {
      NatToStringValue(n / 10);
      var s := NatToString(n);
      assert s[..|s| - 1] == NatToString(n / 10);
    }
  }

  /** `int.TryParse(s, out v)` with the default number style: optional surrounding white
      space, an optional sign, then one or more decimal digits whose value fits an `int`. */
  function TryParse(s: string): (r: Option<int32>)
  {
    var t := TrimEnd(TrimStart(s, IsNumberSpace), IsNumberSpace);
    var negative := |t| > 0 && t[0] == '-';
    var digits := if |t| > 0 && (t[0] == '-' || t[0] == '+') then t[1..] else t;
    if |digits| == 0 || exists i :: 0 <= i < |digits| && !IsDigit(digits[i]) then None
    else
      var v: int := if negative then -(DigitsValue(digits) as int) else DigitsValue(digits);
      if -Two31 <= v < Two31 then Some(v as int32) else None
  }
}
