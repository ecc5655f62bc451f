// ConsoleApp/Algorithm/Sorting/QuickSort.cs: Lomuto partitioning around the last entry
// of the range, then the two sides recursively; ascending only.
//
// The source exchanges entries with the three exclusive-or assignments, also when both
// indexes are the same, and that sets the entry to 0. `PartitionAsWritten` models the
// partition as written and `ZeroedEntry` exhibits the loss; `Partition`, which the sort
// uses, exchanges entries by plain assignment.

module QuickSort {
  import opened CSharp
  import opened SortOrder

  /** Sorts the whole array ascending. */
  method Sort(values: array<int32>)
    modifies values
    ensures Sorted(values[..], false)
    ensures multiset(values[..]) == multiset(old(values[..]))
  {
    SortRange(values, 0, values.Length - 1);
    assert values[..] == values[0..values.Length];
  }

  /** `Sort(values, left, right)`: sorts `values[left..right]`, both ends included. */
  method SortRange(values: array<int32>, left: int, right: int)
    requires 0 <= left <= right + 1 <= values.Length
    modifies values
    ensures Sorted(values[left..right + 1], false)
    ensures multiset(values[..]) == multiset(old(values[..]))
    ensures SameOutside(values[..], old(values[..]), left, right + 1)
    decreases right - left
  {
    if left >= right {
      return;
    }
    var v := Partition(values, left, right);
    ghost var parted := values[..];
    SortRange(values, left, v - 1);
    ghost var low := values[..];
    SortRange(values, v + 1, right);
    Combine(parted, low, values[..], left, v, right);
  }

  /** The two recursive calls on the sides of a partitioned range leave the range sorted. */
  lemma Combine(parted: seq<int32>, low: seq<int32>, done: seq<int32>, left: int, v: int, right: int)
    requires 0 <= left <= v <= right < |parted| && PivotAt(parted, left, right, v)
    requires SameOutside(low, parted, left, v) && multiset(low) == multiset(parted) && Sorted(low[left..v], false)
    requires SameOutside(done, low, v + 1, right + 1) && multiset(done) == multiset(low) && Sorted(done[v + 1..right + 1], false)
    ensures Sorted(done[left..right + 1], false)
  {
    var pivot := parted[v];
    forall k | left <= k < v
      ensures done[k] <= pivot
    {
      Member(low, parted, left, v, k);
    }
    forall k | v < k <= right
      ensures done[k] > pivot
    {
      Member(done, low, v + 1, right + 1, k);
    }
    var whole := done[left..right + 1];
    forall p, q | 0 <= p < q < |whole|
      ensures whole[p] <= whole[q]
    {
      if q < v - left {
        assert whole[p] == low[left..v][p] && whole[q] == low[left..v][q];
      } else if p > v - left {
        assert whole[p] == done[v + 1..right + 1][p - (v - left) - 1];
        assert whole[q] == done[v + 1..right + 1][q - (v - left) - 1];
      }
    }
  }

  /** `Partition`: moves the entries at most `values[right]` to the front of the range,
      puts that pivot after them and returns its index. */
  method Partition(values: array<int32>, left: int, right: int) returns (index: int)
    requires 0 <= left < right < values.Length
    modifies values
    ensures left <= index <= right && PivotAt(values[..], left, right, index)
    ensures multiset(values[..]) == multiset(old(values[..]))
    ensures SameOutside(values[..], old(values[..]), left, right + 1)
  {
    var pivot := values[right];
    index := left - 1;
    for i := left to right
      invariant Parted(values[..], left, right, index, i, pivot)
      invariant multiset(values[..]) == multiset(old(values[..]))
      invariant SameOutside(values[..], old(values[..]), left, right + 1)
    {
      if values[i] <= pivot {
        index := index + 1;
        ghost var before := values[..];
        Swap(values, index, i);
        PartedStep(before, values[..], left, right, index, i, pivot);
      }
    }
    index := index + 1;
    ghost var before := values[..];
    Swap(values, index, right);
    PartedLast(before, values[..], left, right, index, pivot);
  }

  /** `s[index]` stands between the entries of `s[left..right]` at most it and those above
      it. */
  ghost predicate PivotAt(s: seq<int32>, left: int, right: int, index: int)
    requires 0 <= left <= index <= right < |s|
  {
    (forall k | left <= k < index :: s[k] <= s[index]) &&
    (forall k | index < k <= right :: s[k] > s[index])
  }

  /** The loop of `Partition` has looked at `s[left..i-1]`: those at most the pivot are at
      `left..index`, those above it at `index+1..i-1`. */
  ghost predicate Parted(s: seq<int32>, left: int, right: int, index: int, i: int, pivot: int32) {
    0 <= left && left - 1 <= index < i <= right < |s| && s[right] == pivot &&
    (forall k | left <= k <= index :: s[k] <= pivot) &&
    (forall k | index < k < i :: s[k] > pivot)
  }

  /** An entry at most the pivot joins the front part by an exchange. */
  lemma PartedStep(s: seq<int32>, t: seq<int32>, left: int, right: int, index: int, i: int, pivot: int32)
    requires Parted(s, left, right, index - 1, i, pivot) && i < right && s[i] <= pivot
    requires t == s[index := s[i]][i := s[index]]
    ensures Parted(t, left, right, index, i + 1, pivot) && SameOutside(t, s, left, right + 1)
  {
    assert forall k | 0 <= k < |s| && k != index && k != i :: t[k] == s[k];
  }

  /** The last exchange puts the pivot between the two parts. */
  lemma PartedLast(s: seq<int32>, t: seq<int32>, left: int, right: int, index: int, pivot: int32)
    requires Parted(s, left, right, index - 1, right, pivot)
    requires t == s[index := s[right]][right := s[index]]
    ensures left <= index <= right && PivotAt(t, left, right, index) && SameOutside(t, s, left, right + 1)
  {
  }

  /** The partition as the source writes it, with `XorSwap` for every exchange. The first
      entry of the range, when it is not above the pivot, is exchanged with itself. */
  method PartitionAsWritten(values: array<int32>, left: int, right: int) returns (index: int)
    requires 0 <= left < right < values.Length
    modifies values
    ensures left <= index <= right
    ensures old(values[left]) <= old(values[right]) ==> values[left] == 0
  {
    var pivot := values[right];
    index := left - 1;
    ghost var first := values[left];
    for i := left to right
      invariant left - 1 <= index < i <= right
      invariant i == left ==> values[left] == first
      invariant i > left && first <= pivot ==> left <= index && values[left] == 0
    {
      if values[i] <= pivot {
        index := index + 1;
        XorSwap(values, index, i);
        assert values[left] == values[..][left];
      }
    }
    index := index + 1;
    XorSwap(values, index, right);
  }

  /** Partitioning `[1, 2]` as written leaves a 0 in an array that held none. */
  method ZeroedEntry() returns (after: seq<int32>)
    ensures 0 in after && 0 !in [1, 2]
  {
    var values := new int32[2] [1, 2];
    var _ := PartitionAsWritten(values, 0, 1);
    after := values[..];
    assert after[0] == 0;
  }
}
