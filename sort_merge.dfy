// ConsoleApp/Algorithm/Sorting/MergeSort.cs: sorts the two halves of a range recursively,
// then merges them through two temporary arrays.

module MergeSort {
  import opened CSharp
  import opened SortOrder

  /** Sorts the whole array in the requested order. */
  method Sort(values: array<int32>, descending: bool)
    modifies values
    ensures Sorted(values[..], descending)
    ensures multiset(values[..]) == multiset(old(values[..]))
  {
    SortRange(values, 0, values.Length - 1, descending);
    assert values[..] == values[0..values.Length];
  }

  /** `Sort(values, left, right, descending)`: sorts `values[left..right]`, both ends
      included. The middle `(left + right - 1) / 2` lies in `left..right-1`, so both halves
      are shorter than the range. */
  method SortRange(values: array<int32>, left: int, right: int, descending: bool)
    requires 0 <= left <= right + 1 <= values.Length
    modifies values
    ensures Sorted(values[left..right + 1], descending)
    ensures multiset(values[..]) == multiset(old(values[..]))
    ensures SameOutside(values[..], old(values[..]), left, right + 1)
    decreases right - left
  {
    if left >= right {
      return;
    }
    var middle := (left + right - 1) / 2;
    SortRange(values, left, middle, descending);
    ghost var low := values[..];
    SortRange(values, middle + 1, right, descending);
    Halves(low, values[..], left, middle, right, descending);
    Merge(values, left, middle, right, descending);
  }

  /** Sorting the upper half leaves the lower half as it was. */
  lemma Halves(low: seq<int32>, both: seq<int32>, left: int, middle: int, right: int, descending: bool)
    requires 0 <= left <= middle < right < |low|
    requires Sorted(low[left..middle + 1], descending)
    requires SameOutside(both, low, middle + 1, right + 1)
    ensures Sorted(both[left..middle + 1], descending)
  {
    assert both[left..middle + 1] == low[left..middle + 1];
  }

  /** `Merge`: merges the sorted runs `values[left..middle]` and `values[middle+1..right]`
      into a sorted `values[left..right]`. */
  method Merge(values: array<int32>, left: int, middle: int, right: int, descending: bool)
    requires 0 <= left <= middle < right < values.Length
    requires Sorted(values[left..middle + 1], descending) && Sorted(values[middle + 1..right + 1], descending)
    modifies values
    ensures Sorted(values[left..right + 1], descending)
    ensures multiset(values[..]) == multiset(old(values[..]))
    ensures SameOutside(values[..], old(values[..]), left, right + 1)
  {
    ghost var start := values[..];
    var leftSubArray := Copy(values, left, middle + 1);
    var rightSubArray := Copy(values, middle + 1, right + 1);
    var l, r, k := Interleave(values, leftSubArray, rightSubArray, left, descending);
    Merged(start, values[..], left, middle, right, leftSubArray[..], rightSubArray[..], l, r, k, descending);
  }

  /** The copy of `values[lo..hi-1]` into a new array. */
  method Copy(values: array<int32>, lo: int, hi: int) returns (part: array<int32>)
    requires 0 <= lo <= hi <= values.Length
    ensures fresh(part) && part[..] == values[lo..hi]
  {
    part := new int32[hi - lo];
    for i := 0 to part.Length
      invariant part[..i] == values[lo..lo + i]
    {
      part[i] := values[lo + i];
    }
  }

  /** The three merge loops: while both runs have entries left, writes the one that may
      stand first; then the rest of the lower run; then the rest of the upper run. */
  method Interleave(values: array<int32>, lows: array<int32>, highs: array<int32>, left: int, descending: bool)
    returns (l: int, r: int, k: int)
    requires lows != values && highs != values
    requires 0 <= left && left + lows.Length + highs.Length <= values.Length
    requires Sorted(lows[..], descending) && Sorted(highs[..], descending)
    modifies values
    ensures l == lows.Length && r == highs.Length
    ensures Merging(values[..], left, k, lows[..], highs[..], l, r, descending)
    ensures SameOutside(values[..], old(values[..]), left, left + lows.Length + highs.Length)
  {
    ghost var s0 := values[..];
    l, r, k := MergeBoth(values, lows, highs, left, descending);
    ghost var s1 := values[..];
    l, k := TakeLows(values, lows, highs, left, l, r, k, descending);
    ghost var s2 := values[..];
    r, k := TakeHighs(values, lows, highs, left, l, r, k, descending);
    OutsideTrans(values[..], s2, s1, s0, left, left + lows.Length + highs.Length);
  }

  /** Agreeing outside a range is transitive. */
  lemma OutsideTrans(s3: seq<int32>, s2: seq<int32>, s1: seq<int32>, s0: seq<int32>, lo: int, hi: int)
    requires SameOutside(s3, s2, lo, hi) && SameOutside(s2, s1, lo, hi) && SameOutside(s1, s0, lo, hi)
    ensures SameOutside(s3, s0, lo, hi)
  {
  }

  /** The first merge loop: while both runs have entries left, writes the one that may
      stand first. */
  method MergeBoth(values: array<int32>, lows: array<int32>, highs: array<int32>, left: int, descending: bool)
    returns (l: int, r: int, k: int)
    requires lows != values && highs != values
    requires 0 <= left && left + lows.Length + highs.Length <= values.Length
    requires Sorted(lows[..], descending) && Sorted(highs[..], descending)
    modifies values
    ensures l == lows.Length || r == highs.Length
    ensures Merging(values[..], left, k, lows[..], highs[..], l, r, descending)
    ensures SameOutside(values[..], old(values[..]), left, left + lows.Length + highs.Length)
  {
    l, r, k := 0, 0, left;
    while l < lows.Length && r < highs.Length
      invariant Merging(values[..], left, k, lows[..], highs[..], l, r, descending)
      invariant SameOutside(values[..], old(values[..]), left, left + lows.Length + highs.Length)
    {
      ghost var s := values[..];
      if descending != (lows[l] < highs[r]) {
        values[k] := lows[l];
        PutLow(s, values[..], left, k, lows[..], highs[..], l, r, descending);
        l := l + 1;
      } else {
        values[k] := highs[r];
        PutHigh(s, values[..], left, k, lows[..], highs[..], l, r, descending);
        r := r + 1;
      }
      k := k + 1;
    }
  }

  /** The second merge loop: copies what is left of the lower run. */
  method TakeLows(values: array<int32>, lows: array<int32>, highs: array<int32>, left: int, l0: int, r: int, k0: int, descending: bool)
    returns (l: int, k: int)
    requires lows != values && highs != values && Sorted(lows[..], descending)
    requires Merging(values[..], left, k0, lows[..], highs[..], l0, r, descending)
    requires l0 == lows.Length || r == highs.Length
    requires left + lows.Length + highs.Length <= values.Length
    modifies values
    ensures l == lows.Length
    ensures Merging(values[..], left, k, lows[..], highs[..], l, r, descending)
    ensures SameOutside(values[..], old(values[..]), left, left + lows.Length + highs.Length)
  {
    l, k := l0, k0;
    while l < lows.Length
      invariant Merging(values[..], left, k, lows[..], highs[..], l, r, descending)
      invariant r == highs.Length || l == lows.Length
      invariant SameOutside(values[..], old(values[..]), left, left + lows.Length + highs.Length)
    {
      ghost var s := values[..];
      values[k] := lows[l];
      PutLow(s, values[..], left, k, lows[..], highs[..], l, r, descending);
      l := l + 1;
      k := k + 1;
    }
  }

  /** The third merge loop: copies what is left of the upper run. */
  method TakeHighs(values: array<int32>, lows: array<int32>, highs: array<int32>, left: int, l: int, r0: int, k0: int, descending: bool)
    returns (r: int, k: int)
    requires lows != values && highs != values && Sorted(highs[..], descending)
    requires Merging(values[..], left, k0, lows[..], highs[..], l, r0, descending) && l == lows.Length
    requires left + lows.Length + highs.Length <= values.Length
    modifies values
    ensures r == highs.Length
    ensures Merging(values[..], left, k, lows[..], highs[..], l, r, descending)
    ensures SameOutside(values[..], old(values[..]), left, left + lows.Length + highs.Length)
  {
    r, k := r0, k0;
    while r < highs.Length
      invariant Merging(values[..], left, k, lows[..], highs[..], l, r, descending)
      invariant SameOutside(values[..], old(values[..]), left, left + lows.Length + highs.Length)
    {
      ghost var s := values[..];
      values[k] := highs[r];
      PutHigh(s, values[..], left, k, lows[..], highs[..], l, r, descending);
      r := r + 1;
      k := k + 1;
    }
  }

  /** The merge loops have written `s[left..k-1]` from the first `l` entries of the lower
      run and the first `r` of the upper one, in order, and its last entry may stand before
      the next entry of either run. */
  ghost predicate Merging(s: seq<int32>, left: int, k: int, lows: seq<int32>, highs: seq<int32>, l: int, r: int, descending: bool) {
    0 <= l <= |lows| && 0 <= r <= |highs| && 0 <= left && k == left + l + r && k <= |s| &&
    Sorted(s[left..k], descending) && multiset(s[left..k]) == multiset(lows[..l]) + multiset(highs[..r]) &&
    (k > left && l < |lows| ==> Before(s[k - 1], lows[l], descending)) &&
    (k > left && r < |highs| ==> Before(s[k - 1], highs[r], descending))
  }

  /** Writing the next entry of the lower run at `k`, when it may stand before the next
      entry of the upper run, keeps the merge in order. */
  lemma PutLow(s: seq<int32>, t: seq<int32>, left: int, k: int, lows: seq<int32>, highs: seq<int32>, l: int, r: int, descending: bool)
    requires Merging(s, left, k, lows, highs, l, r, descending) && k < |s| && Sorted(lows, descending)
    requires l < |lows| && (r < |highs| ==> Before(lows[l], highs[r], descending))
    requires t == s[k := lows[l]]
    ensures Merging(t, left, k + 1, lows, highs, l + 1, r, descending)
  {
    assert t[left..k + 1] == s[left..k] + [lows[l]];
    SortedSnoc(s[left..k], lows[l], descending);
    assert lows[..l + 1] == lows[..l] + [lows[l]];
  }

  /** Writing the next entry of the upper run at `k`, when it may stand before the next
      entry of the lower run, keeps the merge in order. */
  lemma PutHigh(s: seq<int32>, t: seq<int32>, left: int, k: int, lows: seq<int32>, highs: seq<int32>, l: int, r: int, descending: bool)
    requires Merging(s, left, k, lows, highs, l, r, descending) && k < |s| && Sorted(highs, descending)
    requires r < |highs| && (l < |lows| ==> Before(highs[r], lows[l], descending))
    requires t == s[k := highs[r]]
    ensures Merging(t, left, k + 1, lows, highs, l, r + 1, descending)
  {
    assert t[left..k + 1] == s[left..k] + [highs[r]];
    SortedSnoc(s[left..k], highs[r], descending);
    assert highs[..r + 1] == highs[..r] + [highs[r]];
  }

  /** An entry that may stand after the last of a sorted sequence extends it. */
  lemma SortedSnoc(a: seq<int32>, x: int32, descending: bool)
    requires Sorted(a, descending) && (|a| > 0 ==> Before(a[|a| - 1], x, descending))
    ensures Sorted(a + [x], descending)
  {
    var b := a + [x];
    forall p, q | 0 <= p < q < |b|
      ensures Before(b[p], b[q], descending)
    {
      if q < |a| {
        assert b[p] == a[p] && b[q] == a[q];
      } else if p < |a| - 1 {
        assert b[p] == a[p] && Before(a[p], a[|a| - 1], descending);
      }
    }
  }

  /** When both runs are used up, the range is sorted and holds the entries of both. */
  lemma Merged(start: seq<int32>, s: seq<int32>, left: int, middle: int, right: int, lows: seq<int32>, highs: seq<int32>, l: int, r: int, k: int, descending: bool)
    requires 0 <= left <= middle < right < |start|
    requires lows == start[left..middle + 1] && highs == start[middle + 1..right + 1]
    requires Merging(s, left, k, lows, highs, l, r, descending) && l == |lows| && r == |highs|
    requires SameOutside(s, start, left, right + 1)
    ensures Sorted(s[left..right + 1], descending)
    ensures multiset(s) == multiset(start)
  {
    assert lows[..|lows|] == lows && highs[..|highs|] == highs;
    assert start[left..right + 1] == lows + highs;
    WholePermutes(s, start, left, right + 1);
  }
}
