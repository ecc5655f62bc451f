// ConsoleApp/Algorithm/Recursion.cs: recursive functions on C# `int` and `string`. Sums and
// products are unchecked, so they wrap (`Add`, `Mul`); `/` and `%` truncate (`Div`, `Rem`)
// where an operand can be negative. Each function is compared with an independent
// description over the unbounded integers or the decimal text of a number.

module Recursion {
  import opened CSharp
  import ULong

  // ------------------------------------------------------------ counting text

  /** Words separated by single spaces. */
  function Join(words: seq<string>): string
    requires |words| >= 1
  {
    if |words| == 1 then words[0] else words[0] + " " + Join(words[1..])
  }

  lemma {:induction false} JoinLast(words: seq<string>, w: string)
    requires |words| >= 1
    ensures Join(words + [w]) == Join(words) + " " + w
  {
    if |words| > 1 {
      assert (words + [w])[1..] == words[1..] + [w];
      JoinLast(words[1..], w);
    }
  }

  /** The decimal texts of `n, n - 1, ..., 0`, or of `0, 1, ..., n`. */
  function Numbers(n: nat, descending: bool): (r: seq<string>)
    ensures |r| == n + 1
  {
    seq(n + 1, i requires 0 <= i <= n => IntToString(if descending then n - i else i))
  }

  /** `FromValueToOne(value)`: the value, a space, and the rest down to 0. */
  function FromValueToOne(value: int32): string
    decreases value
  {
    if value > 0 then IntToString(value as int) + " " + FromValueToOne(value - 1) else "0"
  }

  /** `FromOneToValue(value)`: the numbers up to `value - 1`, a space, and the value. */
  function FromOneToValue(value: int32): string
    decreases value
  {
    if value > 0 then FromOneToValue(value - 1) + " " + IntToString(value as int) else "0"
  }

  /** Both list the numbers from 0 to `value` (just "0" when `value` is not positive),
      separated by spaces: one counting down, the other up. */
  lemma Counting(value: int32)
    ensures value > 0 ==> FromValueToOne(value) == Join(Numbers(value as nat, true))
    ensures value > 0 ==> FromOneToValue(value) == Join(Numbers(value as nat, false))
    ensures value <= 0 ==> FromValueToOne(value) == "0" == FromOneToValue(value)
  {
    if value > 0 {
      CountingDown(value);
      CountingUp(value);
    }
  }

  lemma {:induction false} CountingDown(value: int32)
    requires value > 0
    ensures FromValueToOne(value) == Join(Numbers(value as nat, true))
    decreases value
  {
    var n := value as nat;
    NumbersDown(n);
    var w := Numbers(n, true);
    assert w[1..] == Numbers(n - 1, true);
    if value > 1 {
      CountingDown(value - 1);
    } else {
      assert Numbers(0, true) == ["0"];
    }
  }

  lemma {:induction false} CountingUp(value: int32)
    requires value > 0
    ensures FromOneToValue(value) == Join(Numbers(value as nat, false))
    decreases value
  {
    var n := value as nat;
    NumbersUp(n);
    if value > 1 {
      CountingUp(value - 1);
    } else {
      assert Numbers(0, false) == ["0"];
    }
    JoinLast(Numbers(n - 1, false), IntToString(n));
  }

  lemma NumbersDown(n: nat)
    requires n >= 1
    ensures Numbers(n, true) == [IntToString(n)] + Numbers(n - 1, true)
  {
    var a, b := Numbers(n, true), [IntToString(n)] + Numbers(n - 1, true);
    forall i | 0 <= i <= n
      ensures a[i] == b[i]
    {
      if i > 0 {
        assert b[i] == Numbers(n - 1, true)[i - 1];
      }
    }
  }

  lemma NumbersUp(n: nat)
    requires n >= 1
    ensures Numbers(n, false) == Numbers(n - 1, false) + [IntToString(n)]
  {
    var a, b := Numbers(n, false), Numbers(n - 1, false) + [IntToString(n)];
    forall i | 0 <= i <= n
      ensures a[i] == b[i]
    {
      if i < n {
        assert b[i] == Numbers(n - 1, false)[i];
      }
    }
  }

  // ---------------------------------------------------------------- sums

  /** `SumOfFirstNNumber(value)`: `value` plus the sum below it. */
  function SumOfFirstNNumber(value: int32): int32
    decreases value
  {
    if value > 0 then Add(value, SumOfFirstNNumber(value - 1)) else 0
  }

  /** The sum is n(n + 1)/2, wrapped to 32 bits, and 0 for a value that is not positive. */
  lemma {:induction false} Triangle(value: int32)
    ensures value <= 0 ==> SumOfFirstNNumber(value) == 0
    ensures value > 0 ==> SumOfFirstNNumber(value) == Wrap(value as int * (value as int + 1) / 2)
    decreases value
  {
    if value > 0 {
      var v := value as int;
      var below := (v - 1) * v / 2;
      Triangle(value - 1);
      assert SumOfFirstNNumber(value - 1) == Wrap(below);
      WrapAdd(v, below);
      TriangleStep(v);
    }
  }

  lemma TriangleStep(v: int)
    ensures v + (v - 1) * v / 2 == v * (v + 1) / 2
  {
    assert v * (v + 1) == (v - 1) * v + 2 * v;
  }

  // ---------------------------------------------------------------- digits

  /** `DigitSeperator(value)`: each decimal digit preceded by a space. */
  function DigitSeperator(value: int32): string
    decreases value
  {
    if value > 0 then DigitSeperator(value / 10) + " " + IntToString(value as int % 10) else ""
  }

  /** `s` with a space before every character. */
  function Spaced(s: string): (r: string)
    ensures |r| == 2 * |s|
  {
    seq(2 * |s|, i requires 0 <= i < 2 * |s| => if i % 2 == 0 then ' ' else s[i / 2])
  }

  /** For a positive value, the result is its decimal text with a space before each digit. */
  lemma {:induction false} Separated(value: int32)
    requires value > 0
    ensures DigitSeperator(value) == Spaced(NatToString(value as nat))
    decreases value
  {
    var v := value as nat;
    var t := NatToString(v);
    var d := IntToString(v % 10);
    assert d == [DigitChar(v % 10)];
    if value >= 10 {
      Separated(value / 10);
      var s := NatToString(v / 10);
      assert t == s + d;
      SpacedLast(s, d[0]);
    } else {
      assert t == d;
      assert DigitSeperator(value) == " " + d;
    }
  }

  lemma SpacedLast(s: string, c: char)
    ensures Spaced(s + [c]) == Spaced(s) + " " + [c]
  {
    var a, b := Spaced(s + [c]), Spaced(s) + " " + [c];
    forall i | 0 <= i < |a|
      ensures a[i] == b[i]
    {
      if i < 2 * |s| {
        assert i / 2 < |s|;
      } else {
        assert i / 2 == |s|;
      }
    }
  }

  /** `DigitCountOfValue(value)`: one more than the count of `value / 10`. */
  function DigitCountOfValue(value: int32): (r: int32)
    ensures 0 <= r && (value > 0 ==> r <= value)
    decreases value
  {
    if value > 0 then 1 + DigitCountOfValue(value / 10) else 0
  }

  /** `DigitSumOfValue(value)`: the last digit plus the sum of the others. */
  function DigitSumOfValue(value: int32): (r: int32)
    ensures 0 <= r && (value > 0 ==> r <= value)
    decreases value
  {
    if value > 0 then value % 10 + DigitSumOfValue(value / 10) else 0
  }

  /** The sum of the digits of a decimal text. */
  function DigitTotal(s: string): nat {
    if s == [] then 0 else DigitTotal(s[..|s| - 1]) + DigitValue(s[|s| - 1])
  }

  /** For a positive value these are the number of digits of its decimal text and their
      sum; for any other value both are 0. */
  lemma {:induction false} Digits(value: int32)
    ensures value > 0 ==> DigitCountOfValue(value) as int == |NatToString(value as nat)|
    ensures value > 0 ==> DigitSumOfValue(value) as int == DigitTotal(NatToString(value as nat))
    ensures value <= 0 ==> DigitCountOfValue(value) == 0 && DigitSumOfValue(value) == 0
    decreases value
  {
    if value > 0 {
      var v := value as nat;
      var t := NatToString(v);
      assert t[..|t| - 1] == if v < 10 then [] else NatToString(v / 10);
      assert DigitValue(t[|t| - 1]) == v % 10;
      Digits(value / 10);
    }
  }

  /** `DigitSumOfRange(start, end)`: the digit sums of `start` up to `end - 1`. */
  function DigitSumOfRange(start: int32, end: int32): int32
    decreases end as int - start as int
  {
    if start < end then Add(DigitSumOfValue(start), DigitSumOfRange(start + 1, end)) else 0
  }

  /** A range split in two sums to the (wrapped) total of the parts. */
  lemma {:induction false} DigitSumSplit(start: int32, middle: int32, end: int32)
    requires start <= middle <= end
    ensures DigitSumOfRange(start, end) == Add(DigitSumOfRange(start, middle), DigitSumOfRange(middle, end))
    decreases middle as int - start as int
  {
    if start < middle {
      DigitSumSplit(start + 1, middle, end);
      AddAssoc(DigitSumOfValue(start), DigitSumOfRange(start + 1, middle), DigitSumOfRange(middle, end));
    } else {
      assert Add(0, DigitSumOfRange(middle, end)) == DigitSumOfRange(middle, end);
    }
  }

  // ------------------------------------------------------ evens and odds

  /** The text one number contributes to a listing: the number and a space when `kept`. */
  function Listed(x: int32, kept: bool): string {
    if kept then IntToString(x as int) + " " else ""
  }

  /** `EvensInRange(start, end)`: each even number of `start..end - 1`, followed by a
      space. */
  function EvensInRange(start: int32, end: int32): string
    decreases end as int - start as int
  {
    if start < end then Listed(start, Rem(start as int, 2) == 0) + EvensInRange(start + 1, end) else ""
  }

  /** `OddsInRange(start, end)` as written: keeps `start` when `start % 2 == 1`, which C#'s
      remainder makes false for every negative odd number. */
  function OddsInRangeAsWritten(start: int32, end: int32): string
    decreases end as int - start as int
  {
    if start < end then Listed(start, Rem(start as int, 2) == 1) + OddsInRangeAsWritten(start + 1, end) else ""
  }

  /** `OddsInRange(start, end)` with the test `start % 2 != 0`. */
  function OddsInRange(start: int32, end: int32): string
    decreases end as int - start as int
  {
    if start < end then Listed(start, Rem(start as int, 2) != 0) + OddsInRange(start + 1, end) else ""
  }

  /** Joining texts does not depend on the grouping. */
  lemma Regrouped(x: string, y: string, z: string)
    ensures x + (y + z) == (x + y) + z
  {
  }

  /** The listed text of a range is that of its first part followed by that of the rest. */
  lemma {:induction false} EvensSplit(start: int32, middle: int32, end: int32)
    requires start <= middle <= end
    ensures EvensInRange(start, end) == EvensInRange(start, middle) + EvensInRange(middle, end)
    decreases middle as int - start as int
  {
    if start < middle {
      var next := start + 1;
      EvensSplit(next, middle, end);
      var head, a, b := Listed(start, Rem(start as int, 2) == 0), EvensInRange(next, middle), EvensInRange(middle, end);
      assert EvensInRange(start, end) == head + (a + b);
      assert EvensInRange(start, middle) == head + a;
      Regrouped(head, a, b);
    }
  }

  lemma {:induction false} OddsSplit(start: int32, middle: int32, end: int32)
    requires start <= middle <= end
    ensures OddsInRange(start, end) == OddsInRange(start, middle) + OddsInRange(middle, end)
    decreases middle as int - start as int
  {
    if start < middle {
      var next := start + 1;
      OddsSplit(next, middle, end);
      var head, a, b := Listed(start, Rem(start as int, 2) != 0), OddsInRange(next, middle), OddsInRange(middle, end);
      assert OddsInRange(start, end) == head + (a + b);
      assert OddsInRange(start, middle) == head + a;
      Regrouped(head, a, b);
    }
  }

  /** A single number is listed by `EvensInRange` exactly when it is even, and by
      `OddsInRange` exactly when it is odd, negative numbers included. */
  lemma Single(x: int32)
    requires x < 0x7fff_ffff
    ensures EvensInRange(x, x + 1) == (if x as int % 2 == 0 then IntToString(x as int) + " " else "")
    ensures OddsInRange(x, x + 1) == (if x as int % 2 == 1 then IntToString(x as int) + " " else "")
  {
    Parity(x as int);
    assert EvensInRange(x + 1, x + 1) == "" == OddsInRange(x + 1, x + 1);
  }

  /** C#'s `x % 2` is 0 exactly for even `x`. */
  lemma Parity(x: int)
    ensures Rem(x, 2) == 0 <==> x % 2 == 0
  {
    RemZero(x, 2);
  }

  /** `d` is a factor of `v`. */
  predicate Factor(d: int, v: int) {
    d > 0 && v % d == 0
  }

  /** No number from `lo` up to below `hi` is a factor of `v`. */
  predicate NoFactorIn(v: int, lo: int, hi: int) {
    forall d | lo <= d < hi :: !Factor(d, v)
  }

  /** C#'s `%` by a positive `d` is 0 exactly when `d` is a factor. */
  lemma RemZero(v: int, d: int)
    requires d > 0
    ensures Rem(v, d) == 0 <==> Factor(d, v)
  {
    if v < 0 {
      var q, r := -v / d, -v % d;
      assert -v == d * q + r;
      if r == 0 {
        ModUnique(v, d, -q, 0);
      }
      if v % d == 0 {
        ModUnique(-v, d, -(v / d), 0);
      }
    }
  }

  /** The Euclidean remainder is the unique `r` in `0..d - 1` with `u == d * q + r`. */
  lemma ModUnique(u: int, d: int, q: int, r: int)
    requires d > 0 && u == d * q + r && 0 <= r < d
    ensures u % d == r
  {
    var q', r' := u / d, u % d;
    assert d * (q' - q) == r - r';
    if q' > q {
      ULong.MulAtLeast(d, q' - q);
    } else if q' < q {
      ULong.MulAtLeast(d, q - q');
    }
  }

  /** As written, the odd number -1 is left out of the listing of `-1..0`. */
  lemma OddsMissNegatives()
    ensures OddsInRangeAsWritten(-1, 0) == ""
    ensures OddsInRange(-1, 0) == "-1 "
  {
    assert Rem(-1, 2) == -1;
    assert NatToString(1) == "1";
  }

  // ---------------------------------------------------------------- primes

  /** The inner `IsPrime(value, k)` as written: no `k` from here up to below `value / 2`
      divides `value`. */
  function PrimeFromAsWritten(value: int32, k: int32): bool
    requires k >= 2
    decreases Div(value as int, 2) - k as int
  {
    if (k as int) < Div(value as int, 2) then Rem(value as int, k as int) != 0 && PrimeFromAsWritten(value, k + 1)
    else true
  }

  /** `IsPrime(value)` as written. */
  function IsPrimeAsWritten(value: int32): bool {
    PrimeFromAsWritten(value, 2)
  }

  /** As written, the test tries only the divisors from 2 up to below `value / 2`. */
  lemma {:induction false} PrimeFromMeaning(value: int32, k: int32)
    requires k >= 2
    ensures PrimeFromAsWritten(value, k) <==> NoFactorIn(value as int, k as int, Div(value as int, 2))
    decreases Div(value as int, 2) - k as int
  {
    if (k as int) < Div(value as int, 2) {
      RemZero(value as int, k as int);
      PrimeFromMeaning(value, k + 1);
    }
  }

  /** 4 passes the test as written, although 2 is a factor: 2 is not below 4 / 2. */
  lemma FourPasses()
    ensures IsPrimeAsWritten(4) && Factor(2, 4)
  {
  }

  /** The corrected inner test: no `k` from here up to `value / 2` divides `value`. */
  function PrimeFrom(value: int32, k: int32): bool
    requires k >= 2
    decreases Div(value as int, 2) - k as int
  {
    if (k as int) <= Div(value as int, 2) then Rem(value as int, k as int) != 0 && PrimeFrom(value, k + 1)
    else true
  }

  /** The corrected `IsPrime`: below 2 nothing is prime. */
  function IsPrime(value: int32): bool {
    value >= 2 && PrimeFrom(value, 2)
  }

  lemma {:induction false} PrimeFromNoDivisor(value: int32, k: int32)
    requires k >= 2 && value >= 2
    ensures PrimeFrom(value, k) <==> NoFactorIn(value as int, k as int, value as int / 2 + 1)
    decreases Div(value as int, 2) - k as int
  {
    if (k as int) <= value as int / 2 {
      RemZero(value as int, k as int);
      PrimeFromNoDivisor(value, k + 1);
    }
  }

  /** The corrected test holds exactly for the primes: at least 2, and no factor
      strictly between 1 and the value. */
  lemma IsPrimeMeaning(value: int32)
    ensures IsPrime(value) <==> value >= 2 && NoFactorIn(value as int, 2, value as int)
  {
    if value >= 2 {
      var v := value as int;
      PrimeFromNoDivisor(value, 2);
      forall d | v / 2 < d < v
        ensures !Factor(d, v)
      {
        LargeFactor(v, d);
      }
    }
  }

  /** No factor of `v` lies strictly between `v / 2` and `v`. */
  lemma LargeFactor(v: int, d: int)
    requires 0 < v / 2 < d < v
    ensures !Factor(d, v)
  {
  }

  // ---------------------------------------------------------- strings

  /** `IsPalindrome(value)`: the ends agree and the inside is a palindrome. */
  predicate IsPalindrome(value: string)
    decreases |value|
  {
    if |value| > 1 then value[0] == value[|value| - 1] && IsPalindrome(value[1..|value| - 1]) else true
  }

  /** `Reverse(value)`: the last character, then the rest reversed. */
  function Reverse(value: string): (r: string)
    ensures |r| == |value|
  {
    if |value| > 0 then [value[|value| - 1]] + Reverse(value[..|value| - 1]) else ""
  }

  /** Position `i` of the reverse holds the character `i` places from the end. */
  lemma {:induction false} ReverseAt(value: string, i: int)
    requires 0 <= i < |value|
    ensures Reverse(value)[i] == value[|value| - 1 - i]
    decreases |value|
  {
    if i > 0 {
      ReverseAt(value[..|value| - 1], i - 1);
    }
  }

  /** Reversing twice gives the text back. */
  lemma ReverseTwice(value: string)
    ensures Reverse(Reverse(value)) == value
  {
    var r := Reverse(value);
    forall i | 0 <= i < |value|
      ensures Reverse(r)[i] == value[i]
    {
      ReverseAt(r, i);
      ReverseAt(value, |value| - 1 - i);
    }
  }

  /** A palindrome is a text equal to its reverse. */
  lemma Palindrome(value: string)
    ensures IsPalindrome(value) <==> value == Reverse(value)
  {
    if IsPalindrome(value) {
      PalindromeMirrors(value);
    }
    if value == Reverse(value) {
      ReverseMirrored(value);
      MirrorIsPalindrome(value);
    }
  }

  /** Each character of a palindrome equals the one as far from the other end. */
  lemma {:induction false} PalindromeAt(value: string, i: int)
    requires IsPalindrome(value) && 0 <= i < |value|
    ensures value[i] == value[|value| - 1 - i]
    decreases |value|
  {
    var n := |value|;
    if 0 < i < n - 1 {
      var inner := value[1..n - 1];
      PalindromeAt(inner, i - 1);
      assert value[i] == inner[i - 1] && value[n - 1 - i] == inner[n - 2 - i];
    }
  }

  lemma PalindromeMirrors(value: string)
    requires IsPalindrome(value)
    ensures value == Reverse(value)
  {
    forall i | 0 <= i < |value|
      ensures Reverse(value)[i] == value[i]
    {
      ReverseAt(value, i);
      PalindromeAt(value, i);
    }
  }

  /** Each character equals the one as far from the other end. */
  ghost predicate Mirrored(value: string) {
    forall i | 0 <= i < |value| :: value[i] == value[|value| - 1 - i]
  }

  lemma {:induction false} MirrorIsPalindrome(value: string)
    requires Mirrored(value)
    ensures IsPalindrome(value)
    decreases |value|
  {
    var n := |value|;
    if n > 1 {
      var inner := value[1..n - 1];
      assert value[0] == value[n - 1];
      forall i | 0 <= i < |inner|
        ensures inner[i] == inner[|inner| - 1 - i]
      {
        assert inner[i] == value[i + 1] && inner[|inner| - 1 - i] == value[n - 1 - (i + 1)];
      }
      MirrorIsPalindrome(inner);
    }
  }

  /** A text equal to its reverse is mirrored. */
  lemma ReverseMirrored(value: string)
    requires value == Reverse(value)
    ensures Mirrored(value)
  {
    forall i | 0 <= i < |value|
      ensures value[i] == value[|value| - 1 - i]
    {
      ReverseAt(value, i);
    }
  }

  // ---------------------------------------------------------- products

  /** n! over the unbounded integers. */
  function Fact(n: nat): nat {
    if n == 0 then 1 else n * Fact(n - 1)
  }

  /** `Factorial(value)`: `value` times the factorial below it, down to 1. */
  function Factorial(value: int32): int32
    decreases value
  {
    if value > 1 then Mul(value, Factorial(value - 1)) else 1
  }

  /** The result is `value!` wrapped to 32 bits, and 1 for a value below 2. */
  lemma {:induction false} FactorialValue(value: int32)
    ensures value >= 0 ==> Factorial(value) == Wrap(Fact(value as nat))
    ensures value < 0 ==> Factorial(value) == 1
    decreases value
  {
    if value > 1 {
      FactorialValue(value - 1);
      WrapMul(value as int, Fact(value as nat - 1));
    }
  }

  // --------------------------------------------------------- Fibonacci

  /** The Fibonacci numbers over the unbounded integers. */
  function Fib(n: nat): nat {
    if n < 2 then n else Fib(n - 1) + Fib(n - 2)
  }

  /** `Fibonacci(value)`: 0 for 0, 1 for 1 and 2 (and below 0), then the sum of the two
      before. */
  function Fibonacci(value: int32): int32
    decreases value
  {
    if value > 2 then Add(Fibonacci(value - 1), Fibonacci(value - 2))
    else if value == 0 then 0
    else 1
  }

  /** The result is the Fibonacci number wrapped to 32 bits. */
  lemma {:induction false} FibonacciValue(value: int32)
    requires value >= 0
    ensures Fibonacci(value) == Wrap(Fib(value as nat))
    decreases value
  {
    if value > 2 {
      FibonacciValue(value - 1);
      FibonacciValue(value - 2);
      WrapSum(Fib(value as nat - 1), Fib(value as nat - 2));
    }
  }

  /** `FibonacciSum(value)`: the Fibonacci numbers from 0 to `value`, added. */
  function FibonacciSum(value: int32): int32
    decreases value as int + 1
  {
    if value > -1 then Add(Fibonacci(value), FibonacciSum(value - 1)) else 0
  }

  /** The sum of the first Fibonacci numbers is one less than a later one:
      F(0) + ... + F(n) == F(n + 2) - 1, wrapped to 32 bits. */
  lemma {:induction false} FibonacciSumValue(value: int32)
    requires value >= 0
    ensures FibonacciSum(value) == Wrap(Fib(value as nat + 2) - 1)
    decreases value
  {
    var n := value as nat;
    FibonacciValue(value);
    if value > 0 {
      FibonacciSumValue(value - 1);
      AddWrapped(Fibonacci(value), FibonacciSum(value - 1), Fib(n), Fib(n + 1) - 1);
      assert FibonacciSum(value) == Add(Fibonacci(value), FibonacciSum(value - 1));
      assert Fib(n + 2) == Fib(n) + Fib(n + 1);
    } else {
      assert FibonacciSum(value) == Add(0, 0);
    }
  }

  /** Adding two wrapped numbers wraps the exact sum. */
  lemma AddWrapped(x: int32, y: int32, a: int, b: int)
    requires x == Wrap(a) && y == Wrap(b)
    ensures Add(x, y) == Wrap(a + b)
  {
    WrapSum(a, b);
  }

  /** `FibonacciArray(value)`: the Fibonacci numbers from 0 to `value`, each after a space. */
  function FibonacciArray(value: int32): string
    decreases value as int + 1
  {
    if value > -1 then FibonacciArray(value - 1) + " " + IntToString(Fibonacci(value) as int) else ""
  }

  /** The texts of `Fibonacci(0)` to `Fibonacci(n)`. */
  function FibonacciTexts(n: nat): (r: seq<string>)
    requires n < 0x8000_0000
    ensures |r| == n + 1
  {
    seq(n + 1, i requires 0 <= i <= n => IntToString(Fibonacci(i as int32) as int))
  }

  lemma TextsLast(n: nat, last: string)
    requires 0 < n < 0x8000_0000 && last == IntToString(Fibonacci(n as int32) as int)
    ensures FibonacciTexts(n) == FibonacciTexts(n - 1) + [last]
  {
    var a, b := FibonacciTexts(n), FibonacciTexts(n - 1) + [last];
    forall i | 0 <= i < n + 1
      ensures a[i] == b[i]
    {
      if i < n {
        assert b[i] == FibonacciTexts(n - 1)[i];
      }
    }
  }

  /** One more text after a listing of the others. */
  lemma ListingStep(listing: string, before: seq<string>, last: string)
    requires |before| >= 1 && listing == " " + Join(before)
    ensures listing + " " + last == " " + Join(before + [last])
  {
    JoinLast(before, last);
  }

  /** The listing is a space followed by the numbers joined by spaces. */
  lemma {:induction false} FibonacciListing(value: int32)
    requires value >= 0
    ensures FibonacciArray(value) == " " + Join(FibonacciTexts(value as nat))
    decreases value
  {
    var n := value as nat;
    if value > 0 {
      var last := IntToString(Fibonacci(value) as int);
      FibonacciListing(value - 1);
      TextsLast(n, last);
      ListingStep(FibonacciArray(value - 1), FibonacciTexts(n - 1), last);
    } else {
      assert FibonacciTexts(0) == [IntToString(Fibonacci(0) as int)];
    }
  }

  // ------------------------------------------------------ divisors

  /** `d` divides `a`: some multiple of `d` is `a`. */
  ghost predicate Divides(d: int, a: int) {
    exists q: int :: a == d * q
  }

  /** `GreatCommonDivisor(x, y)`: Euclid's algorithm with C#'s remainder. `x % y` throws
      OverflowException for the lowest `int` and -1; of all argument pairs, exactly
      (lowest, -1) and (-1, lowest) reach that step. */
  function GreatCommonDivisor(x: int32, y: int32): (r: Outcome<int32>)
    ensures r.Throws? <==> (x as int == -Two31 && y == -1) || (x == -1 && y as int == -Two31)
    ensures r.Throws? ==> r.error == Overflow
    ensures r.Returns? && (x != 0 || y != 0) ==> r.value != 0
    ensures x >= 0 && y >= 0 ==> r.Returns? && r.value >= 0
    decreases Abs(y as int)
  {
    if y == 0 then Returns(x)
    else if x as int == -Two31 && y == -1 then Throws(Overflow)
    else
      RemByLowest(x, y);
      GreatCommonDivisor(y, Rem(x as int, y as int) as int32)
  }

  /** The remainder by the lowest `int` is the dividend itself, or 0 for the lowest `int`;
      the remainder by -1 is 0. */
  lemma RemByLowest(x: int32, y: int32)
    requires y != 0
    ensures y as int == -Two31 ==> Rem(x as int, y as int) == if x as int == -Two31 then 0 else x as int
    ensures y == -1 ==> Rem(x as int, y as int) == 0
  {
    if y as int == -Two31 && x as int != -Two31 {
      assert Abs(x as int) < Two31;
      assert Abs(x as int) % Two31 == Abs(x as int);
    }
  }

  /** A number dividing `y` divides `x` exactly when it divides `x % y`. */
  lemma RemainderDivisors(x: int, y: int, d: int)
    requires y != 0 && Divides(d, y)
    ensures Divides(d, x) <==> Divides(d, Rem(x, y))
  {
    DivRem(x, y);
    var k :| y == d * k;
    var m := Div(x, y);
    if Divides(d, x) {
      var q :| x == d * q;
      assert Rem(x, y) == d * (q - k * m) by {
        assert y * m == d * (k * m);
      }
    }
    if Divides(d, Rem(x, y)) {
      var q :| Rem(x, y) == d * q;
      assert x == d * (k * m + q) by {
        assert y * m == d * (k * m);
      }
    }
  }

  /** The result divides both arguments, and every common divisor divides it: it is a
      greatest common divisor, for arguments of any sign. */
  lemma {:induction false} CommonDivisor(x: int32, y: int32, d: int)
    ensures var r := GreatCommonDivisor(x, y);
      r.Returns? ==> Divides(r.value as int, x as int) && Divides(r.value as int, y as int)
    ensures var r := GreatCommonDivisor(x, y);
      r.Returns? && Divides(d, x as int) && Divides(d, y as int) ==> Divides(d, r.value as int)
    decreases Abs(y as int)
  {
    var r := GreatCommonDivisor(x, y);
    if r.Throws? {
      return;
    }
    var g := r.value as int;
    if y == 0 {
      assert x as int == g * 1 && y as int == g * 0;
    } else {
      var r := Rem(x as int, y as int);
      CommonDivisor(y, r as int32, d);
      RemainderDivisors(x as int, y as int, g);
      if Divides(d, x as int) && Divides(d, y as int) {
        RemainderDivisors(x as int, y as int, d);
      }
    }
  }

  /** `LeastCommonMultiple(x, y)`: `(x * y) / GreatCommonDivisor(y, x % y)`. `x % 0` throws,
      and so do `x % y` and the quotient when they take the lowest `int` by -1, and the
      divisor call when it throws. */
  function LeastCommonMultiple(x: int32, y: int32): (r: Outcome<int32>)
    ensures y == 0 ==> r == Throws(DivideByZero)
    ensures x as int == -Two31 && y == -1 ==> r == Throws(Overflow)
  {
    if y == 0 then Throws(DivideByZero)
    else if x as int == -Two31 && y == -1 then Throws(Overflow)
    else
      match GreatCommonDivisor(y, Rem(x as int, y as int) as int32)
      case Throws(e) => Throws(e)
      case Returns(g) =>
        var p := Mul(x, y);
        if p as int == -Two31 && g == -1 then Throws(Overflow)
        else Returns(Div(p as int, g as int) as int32)
  }

  /** For positive arguments whose product fits an `int`, the result is a common multiple
      whose product with the greatest common divisor is `x * y`. */
  lemma LeastCommonMultipleValue(x: int32, y: int32)
    requires x > 0 && y > 0 && x as int * y as int < Two31
    ensures LeastCommonMultiple(x, y).Returns?
    ensures var l := LeastCommonMultiple(x, y).value as int;
      l * GreatCommonDivisor(x, y).value as int == x as int * y as int && Divides(x as int, l) && Divides(y as int, l)
  {
    var g := GreatCommonDivisor(x, y).value as int;
    CommonDivisor(x, y, 0);
    var p := x as int * y as int;
    assert Mul(x, y) as int == p;
    assert GreatCommonDivisor(x, y) == GreatCommonDivisor(y, Rem(x as int, y as int) as int32);
    assert g > 0;
    QuotientByDivisor(x as int, y as int, g);
    assert LeastCommonMultiple(x, y) == Returns(Div(p, g) as int32);
  }

  /** For a positive common divisor `g` of positive `x` and `y`, `x * y / g` times `g` is
      `x * y`, and it is a multiple of both. */
  lemma QuotientByDivisor(x: int, y: int, g: int)
    requires x > 0 && y > 0 && g > 0 && Divides(g, x) && Divides(g, y)
    ensures Div(x * y, g) * g == x * y && Divides(x, Div(x * y, g)) && Divides(y, Div(x * y, g))
  {
    var a :| x == g * a;
    var b :| y == g * b;
    var p := x * y;
    LcmAlgebra(g, a, b, x, y);
    DivExact(p, g, a * y);
    var l := a * y;
    assert l == x * b && l == y * a;
  }

  /** With `x == g * a` and `y == g * b`, `a * y` is `x * y / g` and a multiple of both. */
  lemma LcmAlgebra(g: int, a: int, b: int, x: int, y: int)
    requires x == g * a && y == g * b
    ensures x * y == g * (a * y) && (a * y) * g == x * y && a * y == x * b && a * y == y * a
  {
  }

  /** Truncating division of an exact multiple by a positive divisor. */
  lemma DivExact(p: int, g: int, q: int)
    requires g > 0 && p == g * q && p > 0
    ensures Div(p, g) == q
  {
    assert q > 0 by {
      if q <= 0 {
        MulSign(g, q);
      }
    }
    ULong.DivUnique(p, g, q, 0);
  }

  /** Multiplication regrouped: `(m * a) * f == m * (a * f)`. */
  lemma Regroup(m: int, a: int, f: int)
    ensures (m * a) * f == m * (a * f)
  {
  }

  // --------------------------------------------------- number systems

  /** `DecimalToBinary(value)`: the binary digits of `value / 2`, then `value % 2`. */
  function DecimalToBinary(value: int32): string
    decreases value
  {
    if value > 0 then DecimalToBinary(value / 2) + IntToString(value as int % 2) else ""
  }

  /** `DecimalToHex(value)`: the hexadecimal digits of `value / 16`, then the digit for
      `value % 16` (`'0'` to `'9'`, then `'A'` to `'F'`). */
  function DecimalToHex(value: int32): string
    decreases value
  {
    if value > 0 then
      var d := value as int % 16;
      DecimalToHex(value / 16) + [(48 + (if d > 9 then d + 7 else d)) as char]
    else ""
  }

  /** The value of a digit in base 16 (and so in base 2): `'0'` to `'9'`, `'A'` to `'F'`. */
  function HexDigitValue(c: char): nat {
    if '0' <= c <= '9' then c as int - '0' as int
    else if 'A' <= c <= 'F' then c as int - 'A' as int + 10
    else 0
  }

  /** Reads a text of digits back in `base`. */
  function ValueIn(s: string, base: nat): nat {
    if s == [] then 0 else base * ValueIn(s[..|s| - 1], base) + HexDigitValue(s[|s| - 1])
  }

  /** Every character of `s` is one of `digits`. */
  predicate Over(s: string, digits: string) {
    forall i | 0 <= i < |s| :: s[i] in digits
  }

  lemma OverLast(s: string, c: char, digits: string)
    requires Over(s, digits) && c in digits
    ensures Over(s + [c], digits)
  {
    assert forall i | 0 <= i < |s| :: (s + [c])[i] == s[i];
  }

  /** The binary text reads back to the value and starts with 1; a value that is not
      positive gives the empty text. */
  lemma {:induction false} Binary(value: int32)
    ensures value > 0 ==> ValueIn(DecimalToBinary(value), 2) == value as int && DecimalToBinary(value)[0] == '1'
    ensures value <= 0 ==> DecimalToBinary(value) == ""
    decreases value
  {
    if value > 0 {
      var v := value as int;
      Binary(value / 2);
      var b, a := DecimalToBinary(value), DecimalToBinary(value / 2);
      var c := DigitChar(v % 2);
      BinaryLast(value);
      assert b[..|b| - 1] == a;
      assert HexDigitValue(c) == v % 2;
      assert ValueIn(b, 2) == 2 * ValueIn(a, 2) + v % 2;
      assert b[0] == if a == [] then c else a[0];
    }
  }

  /** The binary text of a positive value is that of its half and one more digit. */
  lemma BinaryLast(value: int32)
    requires value > 0
    ensures DecimalToBinary(value) == DecimalToBinary(value / 2) + [DigitChar(value as int % 2)]
    ensures DigitChar(value as int % 2) in "01"
  {
    var c := DigitChar(value as int % 2);
    assert IntToString(value as int % 2) == [c];
  }

  /** The binary text uses only 0 and 1. */
  lemma {:induction false} BinaryOver(value: int32)
    ensures Over(DecimalToBinary(value), "01")
    decreases value
  {
    if value > 0 {
      BinaryOver(value / 2);
      BinaryLast(value);
      OverLast(DecimalToBinary(value / 2), DigitChar(value as int % 2), "01");
    }
  }

  /** The hexadecimal text reads back to the value, does not start with 0 and uses only
      the digits 0 to 9 and A to F; a value that is not positive gives the empty text. */
  lemma {:induction false} Hexadecimal(value: int32)
    ensures value > 0 ==> ValueIn(DecimalToHex(value), 16) == value as int && DecimalToHex(value)[0] != '0'
    ensures Over(DecimalToHex(value), "0123456789ABCDEF")
    ensures value <= 0 ==> DecimalToHex(value) == ""
    decreases value
  {
    if value > 0 {
      var v := value as int;
      Hexadecimal(value / 16);
      var h, a := DecimalToHex(value), DecimalToHex(value / 16);
      var d := v % 16;
      var c := (48 + (if d > 9 then d + 7 else d)) as char;
      assert h == a + [c];
      assert h[..|h| - 1] == a;
      HexDigit(d);
      OverLast(a, c, "0123456789ABCDEF");
    }
  }

  /** The digit written for `d < 16` reads back as `d`. */
  lemma HexDigit(d: int)
    requires 0 <= d < 16
    ensures var c := (48 + (if d > 9 then d + 7 else d)) as char;
      HexDigitValue(c) == d && c in "0123456789ABCDEF" && (d > 0 ==> c != '0')
  {
    var c := (48 + (if d > 9 then d + 7 else d)) as char;
    assert c == "0123456789ABCDEF"[d];
  }

  // ------------------------------------------------- choosing and arranging

  /** The number of ways to choose `k` of `n`, by Pascal's rule over the unbounded
      integers. */
  function Choose(n: nat, k: nat): nat
    requires k <= n
  {
    if k == 0 || k == n then 1 else Choose(n - 1, k) + Choose(n - 1, k - 1)
  }

  /** `Combination(n, k)`: 1 at the edges, -1 out of range, otherwise Pascal's rule. */
  function Combination(n: int32, k: int32): int32
    decreases n
  {
    if k == 0 || k == n then 1
    else if k < 0 || k > n then -1
    else Add(Combination(n - 1, k), Combination(n - 1, k - 1))
  }

  /** In range the result is the binomial coefficient, wrapped to 32 bits; out of range
      it is -1. */
  lemma CombinationValue(n: int32, k: int32)
    ensures 0 <= k <= n ==> Combination(n, k) == Wrap(Choose(n as nat, k as nat))
    ensures (k < 0 || k > n) && k != 0 && k != n ==> Combination(n, k) == -1
  {
    if 0 <= k <= n {
      CombinationInRange(n, k);
    }
  }

  lemma {:induction false} CombinationInRange(n: int32, k: int32)
    requires 0 <= k <= n
    ensures Combination(n, k) == Wrap(Choose(n as nat, k as nat))
    decreases n
  {
    if 0 < k < n {
      var a, b := Choose((n - 1) as nat, k as nat), Choose((n - 1) as nat, (k - 1) as nat);
      CombinationInRange(n - 1, k);
      CombinationInRange(n - 1, k - 1);
      WrapSum(a, b);
      PascalStep(n as nat, k as nat);
      assert Combination(n, k) == Add(Wrap(a), Wrap(b)) == Wrap(a + b);
    }
  }

  lemma PascalStep(n: nat, k: nat)
    requires 0 < k < n
    ensures Choose(n, k) == Choose(n - 1, k) + Choose(n - 1, k - 1)
  {
  }

  /** The binomial coefficient is n! / (k! (n - k)!). */
  lemma {:induction false} ChooseFactorials(n: nat, k: nat)
    requires k <= n
    ensures Choose(n, k) * (Fact(k) * Fact(n - k)) == Fact(n)
  {
    if 0 < k < n {
      ChooseFactorials(n - 1, k);
      ChooseFactorials(n - 1, k - 1);
      PascalAlgebra(n, k, Choose(n - 1, k), Choose(n - 1, k - 1), Fact(k), Fact(k - 1), Fact(n - 1 - k), Fact(n - k), Fact(n - 1));
    }
  }

  /** The arithmetic of one step of Pascal's rule on factorials. */
  lemma PascalAlgebra(n: int, k: int, a: int, b: int, fk: int, fk1: int, fm: int, fnk: int, f: int)
    requires fk == k * fk1 && fnk == (n - k) * fm
    requires a * (fk * fm) == f && b * (fk1 * fnk) == f
    ensures (a + b) * (fk * fnk) == n * f
  {
    assert (a + b) * (fk * fnk) == a * (fk * fnk) + b * (fk * fnk);
    assert a * (fk * fnk) == (n - k) * (a * (fk * fm));
    assert b * (fk * fnk) == k * (b * (fk1 * fnk));
  }

  /** n (n - 1) ... (n - k + 1) over the unbounded integers. */
  function Falling(n: int, k: nat): int
    decreases k
  {
    if k == 0 then 1 else n * Falling(n - 1, k - 1)
  }

  /** `Permutation(n, k)`: 1 for `k == 0`, -1 out of range, otherwise `n` times the
      arrangements of `k - 1` of `n - 1`. */
  function Permutation(n: int32, k: int32): int32
    decreases k
  {
    if k == 0 then 1
    else if k < 0 || k > n then -1
    else Mul(n, Permutation(n - 1, k - 1))
  }

  /** In range the result is n! / (n - k)!, wrapped to 32 bits; out of range it is -1. */
  lemma {:induction false} PermutationValue(n: int32, k: int32)
    ensures 0 <= k <= n ==> Permutation(n, k) == Wrap(Falling(n as int, k as nat))
    ensures 0 <= k <= n ==> Falling(n as int, k as nat) * Fact(n as nat - k as nat) == Fact(n as nat)
    ensures k != 0 && (k < 0 || k > n) ==> Permutation(n, k) == -1
    decreases k
  {
    if 0 < k <= n {
      PermutationValue(n - 1, k - 1);
      WrapMul(n as int, Falling(n as int - 1, k as nat - 1));
      Regroup(n as int, Falling(n as int - 1, k as nat - 1), Fact(n as nat - k as nat));
    }
  }
}
