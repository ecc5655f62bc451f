// The three searches written as loops over a C# `int[]`:
// ConsoleApp/Algorithm/Searching/LinearSearch.cs, JumpSearch.cs and FibonacciSearch.cs.
// Each returns an index holding `value` or -1 and leaves the array as it is. Jump and
// Fibonacci search compare with `<`, so they expect an ascending array.

module LinearSearch {
  import opened CSharp

  /** The first index holding `value`, or -1 when there is none. */
  method Search(values: array<int32>, value: int32) returns (r: int)
    ensures r == -1 <==> value !in values[..]
    ensures r != -1 ==> 0 <= r < values.Length && values[r] == value && value !in values[..r]
  {
    for i := 0 to values.Length
      invariant value !in values[..i]
    {
      if values[i] == value {
        return i;
      }
      assert values[..i + 1] == values[..i] + [values[i]];
    }
    assert values[..] == values[..values.Length];
    return -1;
  }
}

module JumpSearch {
  import opened CSharp
  import opened SortOrder

  /** `(int)Math.Sqrt(n)`: the largest `r` with `r * r <= n`. */
  function FloorSqrt(n: nat): (r: nat)
    ensures r * r <= n < (r + 1) * (r + 1)
  {
    if n < 4 then (if n == 0 then 0 else 1)
    else
      var h := 2 * FloorSqrt(n / 4);
      Doubled(n, h / 2);
      if (h + 1) * (h + 1) <= n then h + 1 else h
  }

  /** From a square root `r` of `n / 4`, `2 * r` is at most the square root of `n` and
      `2 * r + 2` above it. */
  lemma Doubled(n: nat, r: nat)
    requires r * r <= n / 4 < (r + 1) * (r + 1)
    ensures (2 * r) * (2 * r) <= n < (2 * r + 2) * (2 * r + 2)
  {
    assert (2 * r) * (2 * r) == 4 * (r * r);
    assert (2 * r + 2) * (2 * r + 2) == 4 * ((r + 1) * (r + 1));
  }

  /** The square root of a positive length is positive, so the jumps advance. */
  lemma SqrtPositive(n: nat)
    requires n > 0
    ensures FloorSqrt(n) >= 1
  {
  }

  /** Jumps through the array in blocks of `FloorSqrt(values.Length)` entries; where a
      block starts above `value`, looks through the block before it; at the end looks
      through the last block. */
  method Search(values: array<int32>, value: int32) returns (r: int)
    ensures r == -1 || (0 <= r < values.Length && values[r] == value)
    ensures Sorted(values[..], false) && value in values[..] ==> r != -1
  {
    var m := FloorSqrt(values.Length);
    if values.Length > 0 {
      SqrtPositive(values.Length);
    }
    var i := 0;
    while i < values.Length
      invariant 0 <= i && (i > 0 ==> m <= i < values.Length + m)
      invariant Sorted(values[..], false) && value in values[..] && i > 0 ==> values[i - m] <= value
      decreases values.Length - i
    {
      if value < values[i] {
        var lo := if i - m > 0 then i - m else 0;
        var j := ScanBlock(values, value, lo, i);
        if j != -1 {
          return j;
        }
        if Sorted(values[..], false) {
          Gap(values[..], value, lo, i);
        }
      }
      i := i + m;
    }
    var lo := if values.Length - m > 0 then values.Length - m else 0;
    if Sorted(values[..], false) && value in values[..] {
      Tail(values[..], value, lo, i - m);
    }
    r := ScanBlock(values, value, lo, values.Length);
  }

  /** The inner loops: the first index of `lo..hi-1` holding `value`, or -1. */
  method ScanBlock(values: array<int32>, value: int32, lo: int, hi: int) returns (r: int)
    requires 0 <= lo <= hi <= values.Length
    ensures r == -1 <==> value !in values[lo..hi]
    ensures r != -1 ==> lo <= r < hi && values[r] == value
  {
    for j := lo to hi
      invariant value !in values[lo..j]
    {
      if values[j] == value {
        return j;
      }
      assert values[lo..j + 1] == values[lo..j] + [values[j]];
    }
    return -1;
  }

  /** A block `lo..hi-1` that starts at most `value` (or at 0) and ends before an entry
      above it: an ascending array that holds `value` holds it in the block. */
  lemma Gap(s: seq<int32>, value: int32, lo: int, hi: int)
    requires Sorted(s, false) && 0 <= lo <= hi < |s| && value < s[hi]
    requires lo == hi ==> lo == 0
    requires lo < hi && value in s ==> s[lo] <= value
    ensures value in s ==> value in s[lo..hi]
  {
    if value in s {
      var p :| 0 <= p < |s| && s[p] == value;
      if p < lo {
        assert Before(s[p], s[lo], false);
        assert s[lo..hi][0] == value;
      } else {
        Earlier(s, p, hi);
        assert s[lo..hi][p - lo] == value;
      }
    }
  }

  /** When the last block start `b` is at most `value`, an ascending array that holds
      `value` holds it from `lo <= b` on. */
  lemma Tail(s: seq<int32>, value: int32, lo: int, b: int)
    requires Sorted(s, false) && 0 <= lo <= b < |s| && s[b] <= value && value in s
    ensures value in s[lo..]
  {
    var p :| 0 <= p < |s| && s[p] == value;
    if p < lo {
      assert Before(s[p], s[lo], false) && Before(s[lo], s[b], false);
      assert s[lo..][0] == value;
    } else {
      assert s[lo..][p - lo] == value;
    }
  }
}

module FibonacciSearch {
  import opened CSharp
  import opened SortOrder

  /** The Fibonacci numbers, from `Fib(-1) == 1` and `Fib(0) == 0`. */
  ghost function Fib(k: int): nat
    requires k >= -1
    decreases k + 1
  {
    if k == -1 then 1 else if k == 0 then 0 else Fib(k - 1) + Fib(k - 2)
  }

  /** `Fib(k)` is positive from 1 on, and above 1 exactly from 3 on. */
  lemma {:induction false} FibGrows(k: int)
    requires k >= 1
    ensures Fib(k) >= 1 && (Fib(k) > 1 <==> k >= 3)
    decreases k
  {
    if k > 2 {
      FibGrows(k - 1);
      if k > 3 {
        FibGrows(k - 2);
      }
    }
  }

  /** `fi1`, `fi2`, `fi` are the Fibonacci numbers at `k - 2`, `k - 1` and `k`. */
  ghost predicate Consecutive(fi1: int, fi2: int, fi: int, k: int) {
    k >= 1 && fi1 == Fib(k - 2) && fi2 == Fib(k - 1) && fi == Fib(k)
  }

  /** The step of the first loop moves one place up the sequence, and `fi` grows. */
  lemma Grows(fi1: int, fi2: int, fi: int, k: int)
    requires k >= 2 && Consecutive(fi1, fi2, fi, k)
    ensures Consecutive(fi2, fi, fi2 + fi, k + 1) && fi2 >= 1
  {
    FibGrows(k - 1);
  }

  /** While `fi > 1`, the probe `offset + fi1` is past `offset`, and the two steps of the
      second loop move one and two places down the sequence. */
  lemma Shrinks(fi1: int, fi2: int, fi: int, k: int)
    requires Consecutive(fi1, fi2, fi, k) && fi > 1
    ensures k >= 3 && fi1 >= 1 && fi2 >= 1
    ensures Consecutive(fi2 - fi1, fi1, fi2, k - 1)
    ensures Consecutive(fi1 - (fi2 - fi1), fi2 - fi1, fi1, k - 2)
  {
    FibGrows(k);
    FibGrows(k - 1);
    if k > 3 {
      FibGrows(k - 2);
    }
  }

  /** When the second loop ends, `fi` is 1, and `fi1` is 0 unless the last step went two
      places down. */
  lemma Ends(fi1: int, fi2: int, fi: int, k: int)
    requires Consecutive(fi1, fi2, fi, k) && fi <= 1
    ensures fi == 1 && (k != 1 ==> fi1 == 0)
  {
    FibGrows(k);
  }

  /** Where an ascending array may still hold `value`: not at or before `offset`, and,
      once a probe has found an entry above `value`, not from `top` on. */
  ghost predicate Window(s: seq<int32>, value: int32, offset: int, top: int, cut: bool) {
    (forall p | 0 <= p <= offset && p < |s| :: s[p] != value) &&
    (cut ==> forall p | top <= p < |s| && 0 <= p :: s[p] != value)
  }

  /** Splits the array at Fibonacci numbers: `fi1`, `fi2`, `fi` are three consecutive
      ones, the window is `offset + 1..offset + fi`, and each probe at `offset + fi1`
      keeps the upper or the lower part. On an empty array the last check reads
      `values[^1]` and throws. */
  method Search(values: array<int32>, value: int32) returns (r: Outcome<int>)
    ensures r.Throws? <==> values.Length == 0
    ensures r.Throws? ==> r.error == IndexOutOfRange
    ensures r.Returns? ==> r.value == -1 || (0 <= r.value < values.Length && values[r.value] == value)
    ensures r.Returns? && Sorted(values[..], false) && value in values[..] ==> r.value != -1
  {
    var fi1 := 0;
    var fi2 := 1;
    var fi := fi1 + fi2;
    var offset := -1;
    ghost var k := 2;
    while fi < values.Length
      invariant k >= 2 && Consecutive(fi1, fi2, fi, k)
      invariant values.Length == 0 ==> fi == 1
      decreases values.Length - fi
    {
      Grows(fi1, fi2, fi, k);
      fi1 := fi2;
      fi2 := fi;
      fi := fi1 + fi2;
      k := k + 1;
    }
    ghost var cut := false;
    while fi > 1
      invariant Consecutive(fi1, fi2, fi, k)
      invariant values.Length == 0 ==> fi == 1
      invariant -1 <= offset < values.Length
      invariant k == 1 ==> cut
      invariant !cut ==> offset + fi >= values.Length - 1
      invariant Sorted(values[..], false) ==> Window(values[..], value, offset, offset + fi, cut)
      decreases k
    {
      Shrinks(fi1, fi2, fi, k);
      var index := if offset + fi1 < values.Length - 1 then offset + fi1 else values.Length - 1;
      if values[index] == value {
        return Returns(index);
      } else if values[index] < value {
        if Sorted(values[..], false) {
          Above(values[..], value, offset, offset + fi, cut, index);
        }
        fi := fi2;
        fi2 := fi1;
        fi1 := fi - fi2;
        offset := index;
        k := k - 1;
      } else {
        if Sorted(values[..], false) {
          Below(values[..], value, offset, offset + fi, cut, index, offset + fi1);
        }
        fi := fi1;
        fi2 := fi2 - fi1;
        fi1 := fi - fi2;
        k := k - 2;
        cut := true;
      }
    }
    Ends(fi1, fi2, fi, k);
    if Sorted(values[..], false) {
      Closed(values[..], value, offset, fi1, fi, cut);
    }
    if values.Length == 0 {
      return Throws(IndexOutOfRange);
    }
    if fi1 == 0 && values[values.Length - 1] == value {
      return Returns(values.Length - 1);
    }
    return Returns(-1);
  }

  /** When the loop ends, an ascending array that holds `value` holds it last, and the
      window was never closed, so `fi1` is 0. */
  lemma Closed(s: seq<int32>, value: int32, offset: int, fi1: int, fi: int, cut: bool)
    requires Sorted(s, false) && fi == 1 && -1 <= offset < |s|
    requires !cut ==> offset + fi >= |s| - 1 && fi1 == 0
    requires Window(s, value, offset, offset + fi, cut)
    ensures value in s ==> fi1 == 0 && s[|s| - 1] == value
  {
    if value in s {
      var p :| 0 <= p < |s| && s[p] == value;
      assert offset < p;
      assert !cut;
    }
  }

  /** A probe below `value` moves the window past it. */
  lemma Above(s: seq<int32>, value: int32, offset: int, top: int, cut: bool, index: int)
    requires Sorted(s, false) && Window(s, value, offset, top, cut)
    requires 0 <= index < |s| && s[index] < value
    ensures Window(s, value, index, top, cut)
  {
    forall p | 0 <= p <= index
      ensures s[p] != value
    {
      assert Before(s[p], s[index], false);
    }
  }

  /** A probe above `value` closes the window at every `top >= index`. */
  lemma Below(s: seq<int32>, value: int32, offset: int, top: int, cut: bool, index: int, top': int)
    requires Sorted(s, false) && Window(s, value, offset, top, cut)
    requires 0 <= index < |s| && s[index] > value && index <= top'
    ensures Window(s, value, offset, top', true)
  {
    forall p | top' <= p < |s|
      ensures s[p] != value
    {
      assert Before(s[index], s[p], false);
    }
  }
}
