// ConsoleApp/Algorithm/Sorting/CountingSort.cs: sorts a C# `uint[]` by counting the
// occurrences of every value from 0 to the largest one and writing the values back in
// order, upwards from index 0, or downwards when descending.
//
// Descending, the source starts writing at index `maxValue - 1` (a `uint`) instead of
// `values.Length - 1`. An index past the end throws, and so does the wrap from 0 to
// 0xFFFFFFFF after the last index, so the descending sort throws unless the largest value
// equals the length. `SortAsWritten` models that start; `Sort` starts at the last index.
//
// Both throw before writing anything when the count array `new int[maxValue + 1]` cannot
// be made: past .NET's `Array.MaxLength` (0x7FFFFFC7 entries) the allocation throws, and
// for 0xFFFFFFFF the length wraps to 0, so the tally's first write throws.

module CountingSort {
  import opened CSharp

  /** .NET's `Array.MaxLength`: the most entries an array of `int` can have. */
  const MaxArrayLength := 0x7FFF_FFC7

  /** Some entry is so large that `new int[maxValue + 1]` throws. */
  predicate CountTooLong(s: seq<uint32>) {
    exists i | 0 <= i < |s| :: s[i] as int >= MaxArrayLength
  }

  /** Every entry may stand before every later one: ascending, or descending. */
  predicate Ordered(s: seq<uint32>, descending: bool) {
    forall i, j | 0 <= i < j < |s| :: if descending then s[i] >= s[j] else s[i] <= s[j]
  }

  /** `m` is the largest entry of `s`. */
  ghost predicate IsMaximum(m: int, s: seq<uint32>) {
    (exists i | 0 <= i < |s| :: s[i] as int == m) && forall i | 0 <= i < |s| :: s[i] as int <= m
  }

  /** `n` copies of `v` (none when `n` is not positive). */
  ghost function Repeat(v: uint32, n: int): (r: seq<uint32>)
    ensures |r| == if n < 0 then 0 else n
  {
    seq(if n < 0 then 0 else n, _ => v)
  }

  /** The values `0..n-1` in ascending order, each as often as `count` says. */
  ghost function Expand(count: seq<int>, n: nat): seq<uint32>
    requires n <= |count| <= Two32
  {
    if n == 0 then [] else Expand(count, n - 1) + Repeat((n - 1) as uint32, count[n - 1])
  }

  /** `s` read from its end. */
  ghost function Reverse(s: seq<uint32>): (r: seq<uint32>)
    ensures |r| == |s|
  {
    if |s| == 0 then [] else [s[|s| - 1]] + Reverse(s[..|s| - 1])
  }

  /** A value occurs in `Expand(count, n)` as often as `count` says, when it is below `n`. */
  lemma {:induction false} ExpandCounts(count: seq<int>, n: nat, v: uint32)
    requires n <= |count| <= Two32
    ensures multiset(Expand(count, n))[v] == if v as int < n && count[v] > 0 then count[v] else 0
  {
    if n > 0 {
      ExpandCounts(count, n - 1, v);
      var r := Repeat((n - 1) as uint32, count[n - 1]);
      RepeatCounts((n - 1) as uint32, count[n - 1]);
      assert multiset(Expand(count, n)) == multiset(Expand(count, n - 1)) + multiset(r);
    }
  }

  /** `Repeat(v, m)` holds `v` only. */
  lemma {:induction false} RepeatCounts(v: uint32, m: int)
    ensures multiset(Repeat(v, m))[v] == |Repeat(v, m)|
    ensures forall w: uint32 | w != v :: multiset(Repeat(v, m))[w] == 0
  {
    if m > 0 {
      RepeatCounts(v, m - 1);
      assert Repeat(v, m) == Repeat(v, m - 1) + [v];
    }
  }

  /** One more copy of `v` after `e + Repeat(v, m - 1)`. */
  lemma RepeatSnoc(e: seq<uint32>, v: uint32, m: int)
    requires m > 0
    ensures e + Repeat(v, m) == e + Repeat(v, m - 1) + [v]
  {
    assert Repeat(v, m) == Repeat(v, m - 1) + [v];
  }

  /** `Expand` lists its values in ascending order, all below `n`. */
  lemma {:induction false} ExpandOrdered(count: seq<int>, n: nat)
    requires n <= |count| <= Two32
    ensures Ordered(Expand(count, n), false)
    ensures forall i | 0 <= i < |Expand(count, n)| :: Expand(count, n)[i] as int < n
  {
    if n > 0 {
      ExpandOrdered(count, n - 1);
      var e, r := Expand(count, n - 1), Repeat((n - 1) as uint32, count[n - 1]);
      assert Expand(count, n) == e + r;
      forall i, j | 0 <= i < j < |e + r|
        ensures (e + r)[i] <= (e + r)[j]
      {
        if j < |e| {
          assert (e + r)[i] == e[i] && (e + r)[j] == e[j];
        } else if i < |e| {
          assert (e + r)[i] == e[i];
        }
      }
    }
  }

  /** `Expand(count, i)` begins `Expand(count, n)` for `i <= n`. */
  lemma {:induction false} ExpandPrefix(count: seq<int>, i: nat, n: nat)
    requires i <= n <= |count| <= Two32
    ensures |Expand(count, i)| <= |Expand(count, n)|
    ensures Expand(count, n)[..|Expand(count, i)|] == Expand(count, i)
    decreases n - i
  {
    if i < n {
      ExpandPrefix(count, i, n - 1);
      var e := Expand(count, n - 1);
      assert Expand(count, n)[..|e|] == e;
    }
  }

  /** Entry `i` of `Reverse(s)` is entry `|s| - 1 - i` of `s`. */
  lemma {:induction false} ReverseAt(s: seq<uint32>)
    ensures forall i | 0 <= i < |s| :: Reverse(s)[i] == s[|s| - 1 - i]
  {
    if |s| > 0 {
      ReverseAt(s[..|s| - 1]);
    }
  }

  /** Reading a sequence backwards keeps its entries. */
  lemma {:induction false} ReverseCounts(s: seq<uint32>)
    ensures multiset(Reverse(s)) == multiset(s)
  {
    if |s| > 0 {
      var front := s[..|s| - 1];
      ReverseCounts(front);
      assert s == front + [s[|s| - 1]];
    }
  }

  /** Reading an ascending sequence backwards gives a descending one with the same
      entries. */
  lemma ReverseOrdered(s: seq<uint32>)
    requires Ordered(s, false)
    ensures Ordered(Reverse(s), true)
    ensures multiset(Reverse(s)) == multiset(s)
  {
    ReverseAt(s);
    ReverseCounts(s);
  }

  /** The entries of `values` counted: when every value is at most `maxValue`, the
      expansion of the counts has the entries of `values`. */
  lemma ExpandAll(values: seq<uint32>, count: seq<int>, maxValue: uint32)
    requires |count| == maxValue as int + 1 <= Two32
    requires forall v | 0 <= v <= maxValue :: count[v] == multiset(values)[v]
    requires forall i | 0 <= i < |values| :: values[i] <= maxValue
    ensures multiset(Expand(count, |count|)) == multiset(values)
    ensures |Expand(count, |count|)| == |values|
  {
    var e := Expand(count, |count|);
    forall v: uint32
      ensures multiset(e)[v] == multiset(values)[v]
    {
      ExpandCounts(count, |count|, v);
      if v > maxValue {
        assert v !in multiset(values);
      }
    }
    assert multiset(e) == multiset(values);
    assert |multiset(e)| == |multiset(values)|;
  }

  /** A sequence has one largest entry. */
  lemma MaximumUnique(s: seq<uint32>, m: int, n: int)
    requires IsMaximum(m, s)
    ensures IsMaximum(n, s) <==> m == n
  {
    if IsMaximum(n, s) {
      var i :| 0 <= i < |s| && s[i] as int == m;
      var j :| 0 <= j < |s| && s[j] as int == n;
    }
  }

  /** The descending write-back as written starts at `maxValue - 1`, which is the last
      index exactly when the largest entry equals the length. */
  lemma FirstIndexAsWritten(s: seq<uint32>, maxValue: uint32, first: uint32)
    requires 0 < |s| < Two31 && IsMaximum(maxValue as int, s) && first == Down(maxValue)
    ensures first as int != |s| - 1 <==> !IsMaximum(|s|, s)
  {
    MaximumUnique(s, maxValue as int, |s|);
  }

  /** The first loop: the largest entry; the source reads `values[0]` first. */
  method Maximum(values: array<uint32>) returns (maxValue: uint32)
    requires values.Length > 0
    ensures IsMaximum(maxValue as int, values[..])
  {
    maxValue := values[0];
    for i := 1 to values.Length
      invariant exists k | 0 <= k < i :: values[k] == maxValue
      invariant forall k | 0 <= k < i :: values[k] <= maxValue
    {
      if maxValue < values[i] {
        maxValue := values[i];
      }
    }
  }

  /** The second loop: `count[v]` is the number of entries equal to `v`. */
  method Tally(values: array<uint32>, maxValue: uint32) returns (count: array<int>)
    requires maxValue as int + 1 <= MaxArrayLength
    requires forall i | 0 <= i < values.Length :: values[i] <= maxValue
    ensures fresh(count) && count.Length == maxValue as int + 1
    ensures forall v | 0 <= v <= maxValue :: count[v] == multiset(values[..])[v]
  {
    count := new int[maxValue as int + 1];
    forall v | 0 <= v < count.Length {
      count[v] := 0;
    }
    for i := 0 to values.Length
      invariant forall v | 0 <= v <= maxValue :: count[v] == multiset(values[..i])[v]
    {
      assert values[..i + 1] == values[..i] + [values[i]];
      count[values[i]] := count[values[i]] + 1;
    }
    assert values[..] == values[..values.Length];
  }

  /** The first two loops: the counts of a non-empty array whose largest entry is below
      `MaxArrayLength`, which expand to its entries in ascending order. */
  method Counted(values: array<uint32>, maxValue: uint32) returns (count: array<int>)
    requires 0 < values.Length < Two31 && maxValue as int < MaxArrayLength && IsMaximum(maxValue as int, values[..])
    ensures fresh(count) && count.Length == maxValue as int + 1
    ensures forall v | 0 <= v < count.Length :: count[v] >= 0
    ensures |Expand(count[..], count.Length)| == values.Length
    ensures multiset(Expand(count[..], count.Length)) == multiset(values[..])
    ensures Ordered(Expand(count[..], count.Length), false)
  {
    count := Tally(values, maxValue);
    ExpandAll(values[..], count[..], maxValue);
    ExpandOrdered(count[..], count.Length);
  }

  /** The write-back loop, ascending: `k` runs up from 0. */
  method FillUp(values: array<uint32>, count: array<int>)
    requires count.Length <= Two32 && |Expand(count[..], count.Length)| == values.Length
    requires forall v | 0 <= v < count.Length :: count[v] >= 0
    modifies values, count
    ensures values[..] == Expand(old(count[..]), count.Length)
  {
    ghost var c := count[..];
    var k := 0;
    for i := 0 to count.Length
      invariant k == |Expand(c, i)| <= values.Length && values[..k] == Expand(c, i)
      invariant count[i..] == c[i..]
    {
      ExpandPrefix(c, i + 1, count.Length);
      assert count[i] == c[i];
      assert Expand(c, i) + Repeat(i as uint32, 0) == Expand(c, i);
      while count[i] != 0
        invariant 0 <= count[i] <= c[i]
        invariant k + count[i] <= values.Length
        invariant values[..k] == Expand(c, i) + Repeat(i as uint32, c[i] - count[i])
        invariant k == |Expand(c, i)| + c[i] - count[i]
        invariant count[i + 1..] == c[i + 1..]
      {
        values[k] := i as uint32;
        count[i] := count[i] - 1;
        RepeatSnoc(Expand(c, i), i as uint32, c[i] - count[i]);
        k := k + 1;
      }
      assert count[i + 1..] == c[i + 1..];
    }
    assert values[..] == values[..k];
  }

  /** `k - 1` on a `uint`: 0 wraps to 0xFFFFFFFF. */
  function Down(k: uint32): uint32 {
    if k == 0 then 0xFFFF_FFFF else k - 1
  }

  /** The write-back loop, descending: `k` runs down from `start`, and an index past the
      end throws. It returns whether it threw: exactly when `start` is not the last index. */
  method FillDown(values: array<uint32>, count: array<int>, start: uint32) returns (thrown: bool)
    requires 0 < values.Length < Two31 && count.Length <= Two32 && |Expand(count[..], count.Length)| == values.Length
    requires forall v | 0 <= v < count.Length :: count[v] >= 0
    modifies values, count
    ensures thrown <==> start as int != values.Length - 1
    ensures !thrown ==> values[..] == Reverse(Expand(old(count[..]), count.Length))
  {
    ghost var c := count[..];
    var k := start;
    thrown := false;
    for i := 0 to count.Length
      invariant |Expand(c, i)| <= values.Length
      invariant Descent(values[..], start as int, k, Expand(c, i))
      invariant forall j | i <= j < count.Length :: count[j] == c[j]
    {
      ExpandPrefix(c, i + 1, count.Length);
      k, thrown := PourDown(values, count, i, k, c, start as int);
      if thrown {
        return;
      }
    }
    Descended(values[..], start as int, k, Expand(c, count.Length));
  }

  /** The inner loop of `FillDown` for the value `i`: writes its copies from `k` down. */
  method PourDown(values: array<uint32>, count: array<int>, i: int, k0: uint32, ghost c: seq<int>, ghost start: int)
    returns (k: uint32, thrown: bool)
    requires 0 <= i < count.Length == |c| <= Two32 && 0 <= start < Two32
    requires 0 <= count[i] == c[i] && |Expand(c, i)| + c[i] <= values.Length < Two31
    requires Descent(values[..], start, k0, Expand(c, i))
    modifies values, count
    ensures thrown ==> start != values.Length - 1
    ensures !thrown ==> Descent(values[..], start, k, Expand(c, i + 1)) && count[i] == 0
    ensures forall j | 0 <= j < count.Length && j != i :: count[j] == old(count[j])
  {
    k, thrown := k0, false;
    assert Expand(c, i) + Repeat(i as uint32, 0) == Expand(c, i);
    while count[i] != 0
      invariant 0 <= count[i] <= c[i]
      invariant Descent(values[..], start, k, Expand(c, i) + Repeat(i as uint32, c[i] - count[i]))
      invariant forall j | 0 <= j < count.Length && j != i :: count[j] == old(count[j])
    {
      ghost var done := Expand(c, i) + Repeat(i as uint32, c[i] - count[i]);
      if k as int >= values.Length {
        Overrun(values[..], start, k, done);
        thrown := true;
        return;
      }
      ghost var s := values[..];
      values[k] := i as uint32;
      count[i] := count[i] - 1;
      DescentStep(s, values[..], start, k, done, i as uint32);
      RepeatSnoc(Expand(c, i), i as uint32, c[i] - count[i]);
      k := Down(k);
    }
  }

  /** The state of the descending loop after writing `done`: `k` is `start` less the
      number written, modulo 2^32; every write landed, so `start` is in range and not
      below the last write; and from the last index, the writes fill the end of the array
      with `done` read backwards. */
  ghost predicate Descent(values: seq<uint32>, start: int, k: uint32, done: seq<uint32>) {
    k as int == (start - |done|) % Two32 &&
    (|done| > 0 ==> start < |values| && |done| <= start + 1) &&
    (start == |values| - 1 ==> |done| <= |values| && values[|values| - |done|..] == Reverse(done))
  }

  lemma DescentStep(s: seq<uint32>, t: seq<uint32>, start: int, k: uint32, done: seq<uint32>, x: uint32)
    requires 0 <= start < Two32 && |s| < Two31 && Descent(s, start, k, done) && |done| < |s|
    requires k as int < |s| && t == s[k := x]
    ensures Descent(t, start, Down(k), done + [x])
  {
    if start == |s| - 1 {
      assert k as int == |s| - 1 - |done|;
      assert (done + [x])[..|done|] == done;
      assert t[|t| - |done| - 1..] == [x] + s[|s| - |done|..];
    }
  }

  /** A write past the end means `start` was not the last index. */
  lemma Overrun(s: seq<uint32>, start: int, k: uint32, done: seq<uint32>)
    requires 0 <= start < Two32 && Descent(s, start, k, done) && |done| < |s| <= k as int
    ensures start != |s| - 1
  {
  }

  /** Writing every entry without a throw means `start` was the last index. */
  lemma Descended(s: seq<uint32>, start: int, k: uint32, done: seq<uint32>)
    requires Descent(s, start, k, done) && |done| == |s| > 0
    ensures start == |s| - 1 && s == Reverse(done)
  {
    assert s[0..] == s;
  }

  /** Sorts the array, descending starting at the last index, and returns whether it
      threw. An empty array throws at `values[0]`; an entry of at least `MaxArrayLength`
      makes `new int[maxValue + 1]` throw (or, for 0xFFFFFFFF, wrap to an empty `count`
      that the tally overruns); neither writes to the array. */
  method Sort(values: array<uint32>, descending: bool) returns (thrown: bool)
    requires values.Length < Two31
    modifies values
    ensures thrown <==> values.Length == 0 || CountTooLong(old(values[..]))
    ensures thrown ==> values[..] == old(values[..])
    ensures !thrown ==> Ordered(values[..], descending)
    ensures !thrown ==> multiset(values[..]) == multiset(old(values[..]))
  {
    if values.Length == 0 {
      return true;
    }
    var maxValue := Maximum(values);
    if maxValue as int >= MaxArrayLength {
      return true;
    }
    thrown := false;
    var count := Counted(values, maxValue);
    ghost var e := Expand(count[..], count.Length);
    if descending {
      var _ := FillDown(values, count, (values.Length - 1) as uint32);
      ReverseOrdered(e);
    } else {
      FillUp(values, count);
    }
  }

  /** The sort as the source writes it: descending, the first index is `maxValue - 1`.
      It returns whether it threw: on an empty array, on an entry too large for the count
      array, or, when
      descending, unless the largest entry equals the length. */
  method SortAsWritten(values: array<uint32>, descending: bool) returns (thrown: bool)
    requires values.Length < Two31
    modifies values
    ensures values.Length == 0 || CountTooLong(old(values[..])) ==> values[..] == old(values[..])
    ensures thrown <==> values.Length == 0 || CountTooLong(old(values[..])) ||
                        (descending && !IsMaximum(values.Length, old(values[..])))
    ensures !thrown ==> Ordered(values[..], descending) && multiset(values[..]) == multiset(old(values[..]))
  {
    if values.Length == 0 {
      return true;
    }
    var maxValue := Maximum(values);
    if maxValue as int >= MaxArrayLength {
      return true;
    }
    ghost var start := values[..];
    var count := Counted(values, maxValue);
    ghost var e := Expand(count[..], count.Length);
    thrown := false;
    if descending {
      var first := Down(maxValue);
      thrown := FillDown(values, count, first);
      ReverseOrdered(e);
      FirstIndexAsWritten(start, maxValue, first);
    } else {
      FillUp(values, count);
    }
  }

  /** Sorting `[1, 1]` descending as written throws. */
  method DescendingThrows() returns (thrown: bool)
    ensures thrown
  {
    var values := new uint32[2] [1, 1];
    assert values[..] == [1, 1];
    thrown := SortAsWritten(values, true);
    assert !(exists i | 0 <= i < 2 :: [1, 1][i] as int == 2);
  }
}
