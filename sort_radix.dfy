// ConsoleApp/Algorithm/Sorting/RadixSort.cs: one pass per decimal digit of the largest
// entry, least significant first. Each pass compares every entry with every later one by
// the current digit, `(values[i] / k) % 10` with C#'s truncating operators, and exchanges
// the two when they are out of order.
//
// That pass orders the entries by the digit but does not keep the order that the earlier
// passes set up among entries with the same digit, so the result need not be sorted:
// `Unsorted` exhibits `[21, 22, 12]`, which ends as `[12, 22, 21]`. `Sort` runs the same
// passes with a stable pass, an insertion by digit, and sorts every array of non-negative
// entries.

module RadixSort {
  import opened CSharp
  import opened SortOrder
  import ULong
  import InsertionSort

  /** The digit of `v` that the pass with divisor `k` looks at: C#'s `(v / k) % 10`. */
  function Digit(v: int32, k: int): int
    requires k > 0
  {
    Rem(Div(v as int, k), 10)
  }

  /** The part of `v` below the divisor `k`: C#'s `v % k`. */
  function Low(v: int32, k: int): int
    requires k > 0
  {
    Rem(v as int, k)
  }

  /** `a` may stand before `b` in the requested order. */
  predicate KeyBefore(a: int, b: int, descending: bool) {
    if descending then a >= b else a <= b
  }

  /** The key a pass with divisor `k` sorts by. */
  function DigitKey(k: int): int32 -> int
    requires k > 0
  {
    v => Digit(v, k)
  }

  /** The exchange test of the pass: key `a` belongs after key `b`. */
  predicate OutOfOrder(a: int, b: int, descending: bool) {
    if descending then a < b else a > b
  }

  // ------------------------------------------------------------ the pass as written

  /** The inner loop of a pass, from `j` on: exchanges `s[i]` with each later entry whose
      key belongs before its own. */
  function Scan(s: seq<int32>, i: int, j: int, key: int32 -> int, descending: bool): (r: seq<int32>)
    requires 0 <= i < j <= |s|
    ensures |r| == |s|
    decreases |s| - j
  {
    if j == |s| then s
    else Scan(if OutOfOrder(key(s[i]), key(s[j]), descending) then s[i := s[j]][j := s[i]] else s, i, j + 1, key, descending)
  }

  /** The outer loop of a pass, from `i` on. */
  function Sweep(s: seq<int32>, i: int, key: int32 -> int, descending: bool): (r: seq<int32>)
    requires 0 <= i <= |s|
    ensures |r| == |s|
    decreases |s| - i
  {
    if i == |s| then s else Sweep(Scan(s, i, i + 1, key, descending), i + 1, key, descending)
  }

  /** Ordered by `key`. */
  ghost predicate SortedBy(s: seq<int32>, key: int32 -> int, descending: bool) {
    forall p, q | 0 <= p < q < |s| :: KeyBefore(key(s[p]), key(s[q]), descending)
  }

  /** The entries before `i` are ordered by `key` and each may stand before every later
      entry. */
  ghost predicate Settled(s: seq<int32>, i: int, key: int32 -> int, descending: bool) {
    forall p, q | 0 <= p < q < |s| && p < i :: KeyBefore(key(s[p]), key(s[q]), descending)
  }

  /** What the inner loop achieves: the settled prefix stays settled, and `s[i]` ends with
      a key that may stand before the key of every later entry. */
  lemma {:induction false} ScanSettles(s: seq<int32>, i: int, j: int, key: int32 -> int, descending: bool)
    requires 0 <= i < j <= |s| && Settled(s, i, key, descending)
    requires forall q | i < q < j :: KeyBefore(key(s[i]), key(s[q]), descending)
    ensures Settled(Scan(s, i, j, key, descending), i + 1, key, descending)
    decreases |s| - j
  {
    if j < |s| {
      var t := if OutOfOrder(key(s[i]), key(s[j]), descending) then s[i := s[j]][j := s[i]] else s;
      assert Scan(s, i, j, key, descending) == Scan(t, i, j + 1, key, descending);
      ScanStep(s, t, i, j, key, descending);
      ScanSettles(t, i, j + 1, key, descending);
    } else {
      assert Scan(s, i, j, key, descending) == s;
    }
  }

  /** The inner loop only exchanges entries. */
  lemma {:induction false} ScanPermutes(s: seq<int32>, i: int, j: int, key: int32 -> int, descending: bool)
    requires 0 <= i < j <= |s|
    ensures multiset(Scan(s, i, j, key, descending)) == multiset(s)
    decreases |s| - j
  {
    if j < |s| {
      var t := if OutOfOrder(key(s[i]), key(s[j]), descending) then s[i := s[j]][j := s[i]] else s;
      assert Scan(s, i, j, key, descending) == Scan(t, i, j + 1, key, descending);
      SwapPermutes(s, i, j);
      assert multiset(t) == multiset(s);
      ScanPermutes(t, i, j + 1, key, descending);
    }
  }

  /** One comparison of the inner loop keeps the settled prefix and extends the entries
      that `s[i]` may precede by one. */
  lemma ScanStep(s: seq<int32>, t: seq<int32>, i: int, j: int, key: int32 -> int, descending: bool)
    requires 0 <= i < j < |s| && Settled(s, i, key, descending)
    requires forall q | i < q < j :: KeyBefore(key(s[i]), key(s[q]), descending)
    requires t == if OutOfOrder(key(s[i]), key(s[j]), descending) then s[i := s[j]][j := s[i]] else s
    ensures Settled(t, i, key, descending)
    ensures forall q | i < q < j + 1 :: KeyBefore(key(t[i]), key(t[q]), descending)
  {
  }

  /** A pass orders the entries by `key` and keeps them. */
  lemma {:induction false} SweepOrders(s: seq<int32>, i: int, key: int32 -> int, descending: bool)
    requires 0 <= i <= |s| && Settled(s, i, key, descending)
    ensures SortedBy(Sweep(s, i, key, descending), key, descending)
    ensures multiset(Sweep(s, i, key, descending)) == multiset(s)
    decreases |s| - i
  {
    if i < |s| {
      ScanSettles(s, i, i + 1, key, descending);
      ScanPermutes(s, i, i + 1, key, descending);
      SweepOrders(Scan(s, i, i + 1, key, descending), i + 1, key, descending);
    }
  }

  /** One pass with divisor `k` as the source writes it; `i < j` always, so the
      exclusive-or exchange is safe. */
  method Pass(values: array<int32>, k: int32, descending: bool)
    requires k > 0
    modifies values
    ensures values[..] == Sweep(old(values[..]), 0, DigitKey(k as int), descending)
  {
    ghost var s := values[..];
    ghost var key := DigitKey(k as int);
    for i := 0 to values.Length
      invariant Sweep(values[..], i, key, descending) == Sweep(s, 0, key, descending)
    {
      Compare(values, i, k, descending);
    }
  }

  /** The inner loop of `Pass` for entry `i`: compares it with every later entry by the
      digit of divisor `k`, exchanging the two when they are out of order. */
  method Compare(values: array<int32>, i: int, k: int32, descending: bool)
    requires 0 <= i < values.Length && k > 0
    modifies values
    ensures values[..] == Scan(old(values[..]), i, i + 1, DigitKey(k as int), descending)
  {
    ghost var t := values[..];
    ghost var key := DigitKey(k as int);
    for j := i + 1 to values.Length
      invariant Scan(values[..], i, j, key, descending) == Scan(t, i, i + 1, key, descending)
    {
      var f := Rem(Div(values[i] as int, k as int), 10);
      var g := Rem(Div(values[j] as int, k as int), 10);
      assert f == key(values[i]) && g == key(values[j]);
      if if descending then f < g else f > g {
        Exchange(values, i, j);
      }
    }
  }

  // ------------------------------------------------------------ the passes

  /** The largest entry. */
  ghost function Max(s: seq<int32>): (m: int32)
    requires |s| > 0
    ensures m in s && forall i | 0 <= i < |s| :: s[i] <= m
  {
    if |s| == 1 then s[0]
    else
      var m := Max(s[..|s| - 1]);
      assert forall i | 0 <= i < |s| - 1 :: s[i] == s[..|s| - 1][i];
      if m < s[|s| - 1] then s[|s| - 1] else m
  }

  /** The first loop: the largest entry; the source reads `values[0]` first. */
  method Maximum(values: array<int32>) returns (maxValue: int32)
    requires values.Length > 0
    ensures maxValue == Max(values[..])
  {
    maxValue := values[0];
    for i := 1 to values.Length
      invariant maxValue == Max(values[..i])
    {
      assert values[..i + 1][..i] == values[..i];
      if maxValue < values[i] {
        maxValue := values[i];
      }
    }
    assert values[..] == values[..values.Length];
  }

  /** The passes as written, while `m` (the largest entry, divided by 10 after each
      pass) is not 0, with divisor `k`. */
  function Radix(s: seq<int32>, m: int, k: int, descending: bool): (r: seq<int32>)
    requires k > 0
    ensures |r| == |s|
    decreases Abs(m)
  {
    if m == 0 then s else Radix(Sweep(s, 0, DigitKey(k), descending), Div(m, 10), 10 * k, descending)
  }

  /** The passes keep the entries, and the last one leaves them ordered by its digit. */
  lemma {:induction false} RadixOrders(s: seq<int32>, m: int, k: int, descending: bool)
    requires k > 0
    ensures multiset(Radix(s, m, k, descending)) == multiset(s)
    ensures m != 0 ==> exists kl | kl >= k :: SortedBy(Radix(s, m, k, descending), DigitKey(kl), descending)
    decreases Abs(m)
  {
    if m != 0 {
      var t := Sweep(s, 0, DigitKey(k), descending);
      SweepOrders(s, 0, DigitKey(k), descending);
      RadixOrders(t, Div(m, 10), 10 * k, descending);
      if Div(m, 10) == 0 {
        assert Radix(s, m, k, descending) == t;
      }
    }
  }

  /** The sort as the source writes it, returning whether it threw: an empty array
      throws at `values[0]` before any write. The last `k *= 10` may wrap, after the last
      pass. */
  method SortAsWritten(values: array<int32>, descending: bool) returns (thrown: bool)
    modifies values
    ensures thrown <==> values.Length == 0
    ensures thrown ==> values[..] == old(values[..])
    ensures !thrown ==> values[..] == Radix(old(values[..]), Max(old(values[..])) as int, 1, descending)
  {
    if values.Length == 0 {
      return true;
    }
    thrown := false;
    var maxValue := Maximum(values);
    ghost var m0 := Abs(maxValue as int);
    var k: int32 := 1;
    ghost var kk := 1;
    while maxValue != 0
      invariant kk > 0 && kk * Abs(maxValue as int) <= m0 <= Two31
      invariant maxValue != 0 ==> k as int == kk
      invariant Radix(values[..], maxValue as int, kk, descending) == Radix(old(values[..]), Max(old(values[..])) as int, 1, descending)
      decreases Abs(maxValue as int)
    {
      Pass(values, k, descending);
      Scale(kk, maxValue as int, m0);
      maxValue := Div(maxValue as int, 10) as int32;
      k := Mul(k, 10);
      kk := kk * 10;
    }
  }

  /** While `m` is not 0, the next divisor `10 * k` is at most the largest entry, so
      `k *= 10` does not wrap. */
  lemma Scale(k: int, m: int, m0: int)
    requires k > 0 && m != 0 && k * Abs(m) <= m0 <= Two31
    ensures 10 * k * Abs(Div(m, 10)) <= m0
    ensures Div(m, 10) != 0 ==> 10 * k < Two31
    ensures -Two31 <= Div(m, 10) < Two31
  {
    var q := Abs(Div(m, 10));
    assert 10 * q <= Abs(m);
    MulMono(k, 10 * q, Abs(m));
    if q != 0 {
      MulMono(10 * k, 1, q);
      assert (10 * k) % 10 == 0 && Two31 % 10 == 8;
    }
  }

  /** Multiplying by a positive number keeps the order. */
  lemma MulMono(k: int, a: int, b: int)
    requires k > 0 && a <= b
    ensures k * a <= k * b
  {
    if a < b {
      MulGap(k, a, b);
    }
  }

  /** Sorting `[21, 22, 12]` ascending as written leaves `[12, 22, 21]`: the tens pass
      exchanges 21 and 12, and 22 and 21 have the same tens digit. */
  method Unsorted() returns (after: seq<int32>)
    ensures after == [12, 22, 21] && !Sorted(after, false)
  {
    var values := new int32[3] [21, 22, 12];
    ghost var s: seq<int32> := [21, 22, 12];
    assert values[..] == s;
    var _ := SortAsWritten(values, false);
    after := values[..];
    MaxOfExample(s);
    RadixExample(s);
    assert after[1] > after[2];
  }

  lemma MaxOfExample(s: seq<int32>)
    requires s == [21, 22, 12]
    ensures Max(s) == 22
  {
    assert s[..2][..1] == [21] && s[..2] == [21, 22];
  }

  /** The two passes on `[21, 22, 12]`: the units pass changes nothing, the tens pass
      exchanges the first and the last entry. */
  lemma RadixExample(s: seq<int32>)
    requires s == [21, 22, 12]
    ensures Radix(s, 22, 1, false) == [12, 22, 21]
  {
    UnitsExample();
    TensExample();
    assert Div(22, 10) == 2 && Div(2, 10) == 0;
  }

  lemma UnitsExample()
    ensures Sweep([21, 22, 12], 0, DigitKey(1), false) == [21, 22, 12]
  {
    var units := DigitKey(1);
    assert units(21) == 1 && units(22) == 2 && units(12) == 2;
    assert Scan([21, 22, 12], 0, 1, units, false) == [21, 22, 12];
    assert Scan([21, 22, 12], 1, 2, units, false) == [21, 22, 12];
  }

  lemma TensExample()
    ensures Sweep([21, 22, 12], 0, DigitKey(10), false) == [12, 22, 21]
  {
    var tens := DigitKey(10);
    assert tens(21) == 2 && tens(22) == 2 && tens(12) == 1;
    assert Scan([21, 22, 12], 0, 1, tens, false) == [12, 22, 21];
    assert Scan([12, 22, 21], 1, 2, tens, false) == [12, 22, 21];
  }

  // ------------------------------------------------------------ the corrected sort

  /** The key after the passes with divisors below `k`: the part of an entry below `k`. */
  function LowKey(k: int): int32 -> int
    requires k > 0
  {
    v => Low(v, k)
  }

  /** No negative entries. */
  predicate NonNegative(s: seq<int32>) {
    forall i | 0 <= i < |s| :: s[i] >= 0
  }

  /** For a non-negative `v`, the part below `10 * k` is the digit at `k` followed by the
      part below `k`. */
  lemma LowSplit(v: int32, k: int)
    requires v >= 0 && k > 0
    ensures Low(v, 10 * k) == Digit(v, k) * k + Low(v, k) && 0 <= Low(v, k) < k
  {
    var x := v as int;
    assert Low(v, k) == x % k && Digit(v, k) == (x / k) % 10 && Low(v, 10 * k) == x % (10 * k);
    NatSplit(x, k);
  }

  /** Dividing by `k` and then by 10 divides by `10 * k`, and the remainder is the
      digit at `k` followed by the remainder by `k`. */
  lemma NatSplit(x: nat, k: int)
    requires k > 0
    ensures x / (10 * k) == (x / k) / 10
    ensures x % (10 * k) == (x / k) % 10 * k + x % k
    ensures x / (10 * k) != 0 ==> 10 * k <= x
  {
    var q, r := x / k, x % k;
    var a, b := q / 10, q % 10;
    Regroup(x, k, q, r, a, b);
    ULong.DivUnique(x, 10 * k, a, b * k + r);
    if 10 * k > x {
      ULong.DivUnique(x, 10 * k, 0, x);
    }
  }

  /** `x == k * q + r` with `q == 10 * a + b` is `x == (10 * k) * a + (b * k + r)`, and the
      last part is below `10 * k`. */
  lemma Regroup(x: int, k: int, q: int, r: int, a: int, b: int)
    requires k > 0 && x == k * q + r && 0 <= r < k && q == 10 * a + b && 0 <= b < 10
    ensures x == (10 * k) * a + (b * k + r) && 0 <= b * k + r < 10 * k
  {
    Distribute(k, a, b);
    MulSign(k, b);
    MulGap(k, b, 10);
  }

  lemma Distribute(k: int, a: int, b: int)
    ensures k * (10 * a + b) == (10 * k) * a + k * b
  {
  }

  /** Comparing two numbers `d * k + l` with `0 <= l < k` by `d` and then by `l` compares
      the numbers. */
  lemma Lexicographic(dx: int, lx: int, dy: int, ly: int, k: int, descending: bool)
    requires k > 0 && 0 <= lx < k && 0 <= ly < k
    ensures KeyBefore(dx, dy, descending) && KeyBefore(lx, ly, descending) ==>
      KeyBefore(dx * k + lx, dy * k + ly, descending)
    ensures OutOfOrder(dy, dx, descending) ==> KeyBefore(dx * k + lx, dy * k + ly, descending)
  {
    if dx < dy {
      MulGap(k, dx, dy);
    } else if dy < dx {
      MulGap(k, dy, dx);
    }
  }

  /** A larger factor gives a product larger by at least `k`. */
  lemma MulGap(k: int, a: int, b: int)
    requires k > 0 && a < b
    ensures a * k + k <= b * k
  {
    var g := b - a;
    assert b * k == (a + g) * k == a * k + g * k;
    MulSign(g, k);
  }

  /** Sorts an array of non-negative entries: the passes of the source with a stable pass. */
  method Sort(values: array<int32>, descending: bool) returns (thrown: bool)
    requires NonNegative(values[..])
    modifies values
    ensures thrown <==> values.Length == 0
    ensures thrown ==> values[..] == old(values[..])
    ensures !thrown ==> Sorted(values[..], descending)
    ensures !thrown ==> multiset(values[..]) == multiset(old(values[..]))
  {
    if values.Length == 0 {
      return true;
    }
    thrown := false;
    var maxValue := Maximum(values);
    ghost var m0 := maxValue as int;
    var k: int32 := 1;
    ghost var kk := 1;
    Unsplit(values[..], descending);
    assert AtMost(values[..], m0);
    while maxValue != 0
      invariant kk > 0 && maxValue >= 0 && maxValue as int == m0 / kk && m0 < Two31
      invariant maxValue != 0 ==> k as int == kk
      invariant NonNegative(values[..]) && SortedBy(values[..], LowKey(kk), descending)
      invariant AtMost(values[..], m0)
      invariant multiset(values[..]) == multiset(old(values[..]))
      decreases maxValue
    {
      ghost var before := values[..];
      StablePass(values, k, descending);
      SameAtMost(before, values[..], m0);
      assert 10 * k as int == kk * 10;
      maxValue := Div(maxValue as int, 10) as int32;
      NatSplit(m0, kk);
      k := Mul(k, 10);
      kk := kk * 10;
    }
    Finished(values[..], kk, m0, descending);
  }

  /** Every part below 1 is 0: any array is ordered by it. */
  lemma Unsplit(s: seq<int32>, descending: bool)
    ensures SortedBy(s, LowKey(1), descending)
  {
    assert forall v: int32 :: LowKey(1)(v) == 0;
  }

  /** Once `k` is above every entry, ordered by the part below `k` is sorted. */
  lemma Finished(s: seq<int32>, k: int, m: int, descending: bool)
    requires k > 0 && m / k == 0 && 0 <= m && NonNegative(s) && SortedBy(s, LowKey(k), descending)
    requires AtMost(s, m)
    ensures Sorted(s, descending)
  {
    assert m < k;
    forall i | 0 <= i < |s|
      ensures LowKey(k)(s[i]) == s[i] as int
    {
      ULong.DivUnique(s[i] as int, k, 0, s[i] as int);
    }
  }

  /** A stable pass by the digit at `k`: an insertion by digit. An array ordered by the
      part below `k` ends ordered by the part below `10 * k`. */
  method StablePass(values: array<int32>, k: int32, descending: bool)
    requires k > 0 && NonNegative(values[..]) && SortedBy(values[..], LowKey(k as int), descending)
    modifies values
    ensures NonNegative(values[..]) && SortedBy(values[..], LowKey(10 * k as int), descending)
    ensures multiset(values[..]) == multiset(old(values[..]))
  {
    ghost var s := values[..];
    if values.Length < 2 {
      assert SortedBy(values[..], LowKey(10 * k as int), descending);
      return;
    }
    var i := 1;
    while i < values.Length
      invariant 1 <= i <= values.Length
      invariant SortedBy(values[..i], LowKey(10 * k as int), descending)
      invariant multiset(values[..i]) == multiset(s[..i]) && values[i..] == s[i..]
    {
      ghost var before := values[..];
      Lower(s, before, i, LowKey(k as int), descending);
      Place(values, i, k, descending);
      Placed(s, before, values[..], i);
      i := i + 1;
    }
    assert values[..] == values[..i] && s == s[..i];
    SameNonNegative(s, values[..]);
  }

  /** Rearranging entries keeps them non-negative. */
  lemma SameNonNegative(s: seq<int32>, t: seq<int32>)
    requires multiset(s) == multiset(t) && NonNegative(s)
    ensures NonNegative(t)
  {
    forall i | 0 <= i < |t|
      ensures t[i] >= 0
    {
      assert t[i] in multiset(s);
    }
  }

  /** No entry above `m`. */
  ghost predicate AtMost(s: seq<int32>, m: int) {
    forall i | 0 <= i < |s| :: s[i] as int <= m
  }

  /** Rearranging entries keeps them at most `m`. */
  lemma SameAtMost(s: seq<int32>, t: seq<int32>, m: int)
    requires multiset(s) == multiset(t) && AtMost(s, m)
    ensures AtMost(t, m)
  {
    forall i | 0 <= i < |t|
      ensures t[i] as int <= m
    {
      assert t[i] in multiset(s);
    }
  }

  /** Every entry before `i` came from `s[..i]`, which `s[i]` may follow by `key`. */
  lemma Lower(s: seq<int32>, t: seq<int32>, i: int, key: int32 -> int, descending: bool)
    requires 0 <= i < |s| == |t| && SortedBy(s, key, descending)
    requires multiset(t[..i]) == multiset(s[..i]) && t[i..] == s[i..]
    ensures t[i] == s[i] && (NonNegative(s) ==> NonNegative(t))
    ensures forall q | 0 <= q < i :: KeyBefore(key(t[q]), key(t[i]), descending)
  {
    assert t[i] == t[i..][0];
    forall q | 0 <= q < i
      ensures KeyBefore(key(t[q]), key(t[i]), descending)
    {
      assert t[q] == t[..i][q];
      assert t[q] in multiset(s[..i]);
      var p :| 0 <= p < i && s[..i][p] == t[q];
    }
    if NonNegative(s) {
      forall q | 0 <= q < |t|
        ensures t[q] >= 0
      {
        if q < i {
          assert t[q] == t[..i][q] && t[q] in multiset(s[..i]);
        } else {
          assert t[q] == t[i..][q - i];
        }
      }
    }
  }

  /** After `Place`, the prefix up to `i` holds the entries of `s[..i + 1]`. */
  lemma Placed(s: seq<int32>, t: seq<int32>, u: seq<int32>, i: int)
    requires 0 <= i < |s| == |t| == |u|
    requires multiset(t[..i]) == multiset(s[..i]) && t[i..] == s[i..]
    requires multiset(u) == multiset(t) && u[i + 1..] == t[i + 1..]
    ensures multiset(u[..i + 1]) == multiset(s[..i + 1]) && u[i + 1..] == s[i + 1..]
  {
    assert t[i + 1..] == s[i + 1..] by {
      assert t[i + 1..] == t[i..][1..] && s[i + 1..] == s[i..][1..];
    }
    SameFront(u, t, i + 1);
    assert t[i] == t[i..][0] && s[i] == s[i..][0];
    assert t[..i + 1] == t[..i] + [t[i]] && s[..i + 1] == s[..i] + [s[i]];
  }

  /** Two sequences with the same entries and the same tail have the same entries in front
      of it. */
  lemma SameFront(u: seq<int32>, t: seq<int32>, n: int)
    requires 0 <= n <= |u| == |t| && multiset(u) == multiset(t) && u[n..] == t[n..]
    ensures multiset(u[..n]) == multiset(t[..n])
  {
    SplitAt(u, n);
    SplitAt(t, n);
    var c := multiset(u[n..]);
    assert multiset(u[..n]) == multiset(u) - c;
    assert multiset(t[..n]) == multiset(t) - c;
  }

  lemma SplitAt(u: seq<int32>, n: int)
    requires 0 <= n <= |u|
    ensures multiset(u) == multiset(u[..n]) + multiset(u[n..])
  {
    assert u == u[..n] + u[n..];
  }

  /** What the stable pass knows before it inserts `s[i]`: the entries are non-negative,
      those before `i` are ordered by the part below `10 * k`, and by the part below `k`
      each may stand before `s[i]`. */
  ghost predicate Insertable(s: seq<int32>, i: int, k: int, descending: bool)
    requires 0 <= i < |s| && k > 0
  {
    NonNegative(s) && SortedBy(s[..i], LowKey(10 * k), descending) &&
    forall q | 0 <= q < i :: KeyBefore(Low(s[q], k), Low(s[i], k), descending)
  }

  /** The inner loop of the stable pass: moves `values[i]` down past the entries whose
      digit belongs after its own. */
  method Place(values: array<int32>, i: int, k: int32, descending: bool)
    requires 1 <= i < values.Length && k > 0 && Insertable(values[..], i, k as int, descending)
    modifies values
    ensures SortedBy(values[..i + 1], LowKey(10 * k as int), descending)
    ensures multiset(values[..]) == multiset(old(values[..]))
    ensures values[i + 1..] == old(values[i + 1..])
  {
    var value := values[i];
    var j := i - 1;
    ghost var start := values[..];
    var digit := DigitKey(k as int);
    while j >= 0 && OutOfOrder(digit(values[j]), digit(value), descending)
      invariant -1 <= j < i
      invariant values[..] == InsertionSort.Shifted(start, j, i)
      invariant forall q | j < q < i :: OutOfOrder(digit(start[q]), digit(value), descending)
    {
      InsertionSort.ShiftStep(start, j, i);
      values[j + 1] := values[j];
      j := j - 1;
    }
    values[j + 1] := value;
    Inserted(start, values[..], i, j, k as int, descending);
  }

  /** Where the insertion by digit stops, the prefix is ordered by the part below `10 * k`
      and the entries are kept. */
  lemma Inserted(start: seq<int32>, t: seq<int32>, i: int, j: int, k: int, descending: bool)
    requires -1 <= j < i < |start| && k > 0 && Insertable(start, i, k, descending)
    requires t == InsertionSort.Shifted(start, j, i)[j + 1 := start[i]]
    requires forall q | j < q < i :: OutOfOrder(DigitKey(k)(start[q]), DigitKey(k)(start[i]), descending)
    requires j >= 0 ==> !OutOfOrder(DigitKey(k)(start[j]), DigitKey(k)(start[i]), descending)
    ensures SortedBy(t[..i + 1], LowKey(10 * k), descending)
    ensures multiset(t) == multiset(start) && t[i + 1..] == start[i + 1..]
  {
    Fits(start, i, j, k, descending);
    PlacedByKey(start, t, i, j, LowKey(10 * k), descending);
    InsertionSort.PlacedPermutes(start, t, i, j);
    assert t[i + 1..] == start[i + 1..];
  }

  /** Where the insertion by digit stops, the entry fits by the part below `10 * k`. */
  lemma Fits(start: seq<int32>, i: int, j: int, k: int, descending: bool)
    requires -1 <= j < i < |start| && k > 0 && NonNegative(start)
    requires forall q | 0 <= q < i :: KeyBefore(Low(start[q], k), Low(start[i], k), descending)
    requires forall q | j < q < i :: OutOfOrder(Digit(start[q], k), Digit(start[i], k), descending)
    requires j >= 0 ==> !OutOfOrder(Digit(start[j], k), Digit(start[i], k), descending)
    ensures forall q | j < q < i :: KeyBefore(LowKey(10 * k)(start[i]), LowKey(10 * k)(start[q]), descending)
    ensures j >= 0 ==> KeyBefore(LowKey(10 * k)(start[j]), LowKey(10 * k)(start[i]), descending)
  {
    var x := start[i];
    LowSplit(x, k);
    forall q | j < q < i
      ensures KeyBefore(LowKey(10 * k)(x), LowKey(10 * k)(start[q]), descending)
    {
      LowSplit(start[q], k);
      Lexicographic(Digit(x, k), Low(x, k), Digit(start[q], k), Low(start[q], k), k, descending);
    }
    if j >= 0 {
      LowSplit(start[j], k);
      Lexicographic(Digit(start[j], k), Low(start[j], k), Digit(x, k), Low(x, k), k, descending);
    }
  }

  /** An entry inserted after `j` that `start[j]` may precede and that may precede the
      entries shifted up keeps `t[..i + 1]` ordered by `key`. */
  lemma PlacedByKey(start: seq<int32>, t: seq<int32>, i: int, j: int, key: int32 -> int, descending: bool)
    requires -1 <= j < i < |start|
    requires SortedBy(start[..i], key, descending)
    requires t == InsertionSort.Shifted(start, j, i)[j + 1 := start[i]]
    requires forall q | j < q < i :: KeyBefore(key(start[i]), key(start[q]), descending)
    requires j >= 0 ==> KeyBefore(key(start[j]), key(start[i]), descending)
    ensures SortedBy(t[..i + 1], key, descending)
  {
    var x := start[i];
    assert forall q | 0 <= q <= j :: t[q] == start[q];
    assert forall q | j + 1 < q <= i :: t[q] == start[q - 1];
    forall p, q | 0 <= p < q <= i
      ensures KeyBefore(key(t[p]), key(t[q]), descending)
    {
      if q <= j {
        assert start[..i][p] == t[p] && start[..i][q] == t[q];
      } else if q == j + 1 {
        if p < j {
          assert start[..i][p] == t[p] && start[..i][j] == start[j];
        }
      } else if p != j + 1 {
        var p' := if p <= j then p else p - 1;
        assert start[..i][p'] == t[p] && start[..i][q - 1] == t[q];
      }
    }
  }
}
