// The three quadratic sorts: ConsoleApp/Algorithm/Sorting/BubbleSort.cs,
// InsertionSort.cs and SelectionSort.cs. Each sorts a C# `int[]` in place, ascending, or
// descending when the flag is set.

module BubbleSort {
  import opened CSharp
  import opened SortOrder

  /** For every `i`, compares `values[i]` with each later entry and exchanges the two when
      they are out of order, so that `values[i]` is final after pass `i`. */
  method Sort(values: array<int32>, descending: bool)
    modifies values
    ensures Sorted(values[..], descending)
    ensures multiset(values[..]) == multiset(old(values[..]))
  {
    for i := 0 to values.Length
      invariant Settled(values[..], i, descending)
      invariant multiset(values[..]) == multiset(old(values[..]))
    {
      Pass(values, i, descending);
    }
  }

  /** The entries before `i` are in order and each may stand before every later entry. */
  predicate Settled(s: seq<int32>, i: int, descending: bool) {
    forall p, q | 0 <= p < q < |s| && p < i :: Before(s[p], s[q], descending)
  }

  /** The inner loop of pass `i`: leaves at `values[i]` an entry that may stand before all
      later ones. */
  method Pass(values: array<int32>, i: int, descending: bool)
    requires 0 <= i < values.Length && Settled(values[..], i, descending)
    modifies values
    ensures Settled(values[..], i + 1, descending)
    ensures multiset(values[..]) == multiset(old(values[..]))
  {
    for j := i + 1 to values.Length
      invariant Settled(values[..], i, descending)
      invariant forall q | i < q < j :: Before(values[i], values[q], descending)
      invariant multiset(values[..]) == multiset(old(values[..]))
    {
      if descending != (values[i] > values[j]) {
        ghost var before := values[..];
        Exchange(values, i, j);
        Exchanged(before, values[..], i, j, descending);
      }
    }
  }

  /** Exchanging an out-of-order pair `i < j` keeps the settled prefix and puts at `i` an
      entry that may stand before everything from `i + 1` to `j`. */
  lemma Exchanged(s: seq<int32>, t: seq<int32>, i: int, j: int, descending: bool)
    requires 0 <= i < j < |s| && t == s[i := s[j]][j := s[i]]
    requires descending != (s[i] > s[j])
    requires Settled(s, i, descending)
    requires forall q | i < q < j :: Before(s[i], s[q], descending)
    ensures Settled(t, i, descending)
    ensures forall q | i < q <= j :: Before(t[i], t[q], descending)
  {
  }
}

module InsertionSort {
  import opened CSharp
  import opened SortOrder

  /** Takes each entry in turn and shifts the larger (or, descending, smaller) entries of
      the sorted prefix one place up until its slot is found. */
  method Sort(values: array<int32>, descending: bool)
    modifies values
    ensures Sorted(values[..], descending)
    ensures multiset(values[..]) == multiset(old(values[..]))
  {
    var i := 1;
    while i < values.Length
      invariant 1 <= i && (values.Length == 0 || i <= values.Length)
      invariant Sorted(values[..if i <= values.Length then i else 0], descending)
      invariant multiset(values[..]) == multiset(old(values[..]))
    {
      Insert(values, i, descending);
      i := i + 1;
    }
  }

  /** Pass `i`: moves `values[i]` down into the sorted prefix `values[..i]`. */
  method Insert(values: array<int32>, i: int, descending: bool)
    requires 1 <= i < values.Length && Sorted(values[..i], descending)
    modifies values
    ensures Sorted(values[..i + 1], descending)
    ensures multiset(values[..]) == multiset(old(values[..]))
  {
    var value := values[i];
    var j := i - 1;
    ghost var start := values[..];
    while j >= 0 && (if descending then values[j] < value else values[j] > value)
      invariant -1 <= j < i
      invariant values[..] == Shifted(start, j, i)
      invariant forall k | j < k < i :: !Before(start[k], value, descending)
    {
      ShiftStep(start, j, i);
      values[j + 1] := values[j];
      j := j - 1;
    }
    values[j + 1] := value;
    PlacedSorted(start, values[..], i, j, descending);
    PlacedPermutes(start, values[..], i, j);
  }

  /** The array while `values[i]` is on its way down: the entries `j + 1..i-1` have moved
      up one place, and `j + 1` still holds its old entry. */
  ghost function Shifted(start: seq<int32>, j: int, i: int): (s: seq<int32>)
    requires -1 <= j < i < |start|
    ensures |s| == |start|
  {
    start[..j + 2] + start[j + 1..i] + start[i + 1..]
  }

  lemma ShiftStep(start: seq<int32>, j: int, i: int)
    requires 0 <= j < i < |start|
    ensures Shifted(start, j, i)[j] == start[j]
    ensures Shifted(start, j, i)[j + 1 := start[j]] == Shifted(start, j - 1, i)
  {
    var s, t := Shifted(start, j, i), Shifted(start, j - 1, i);
    assert forall k | 0 <= k <= j + 1 :: s[k] == start[k];
    assert forall k | j + 1 < k <= i :: s[k] == start[k - 1] && t[k] == start[k - 1];
    assert forall k | i < k < |start| :: s[k] == start[k] && t[k] == start[k];
    assert forall k | 0 <= k <= j :: t[k] == start[k];
  }

  /** Where the loop stops, `values[i]` fits: after it comes what was shifted up, before
      it what was not. */
  lemma PlacedSorted(start: seq<int32>, t: seq<int32>, i: int, j: int, descending: bool)
    requires -1 <= j < i < |start| && Sorted(start[..i], descending)
    requires t == Shifted(start, j, i)[j + 1 := start[i]]
    requires forall k | j < k < i :: !Before(start[k], start[i], descending)
    requires j >= 0 ==> Before(start[j], start[i], descending)
    ensures Sorted(t[..i + 1], descending)
  {
    assert forall k | 0 <= k <= j :: t[k] == start[k];
    assert forall k | j + 1 < k <= i :: t[k] == start[k - 1];
    forall p, q | 0 <= p < q <= i
      ensures Before(t[p], t[q], descending)
    {
      if q <= j {
        assert start[..i][p] == t[p] && start[..i][q] == t[q];
      } else if q == j + 1 {
        if p < j {
          assert start[..i][p] == t[p] && start[..i][j] == start[j];
        }
      } else if p != j + 1 {
        var p' := if p <= j then p else p - 1;
        assert start[..i][p'] == t[p] && start[..i][q - 1] == t[q];
      }
    }
  }

  /** ... and the entries are those the array held before the pass. */
  lemma PlacedPermutes(start: seq<int32>, t: seq<int32>, i: int, j: int)
    requires -1 <= j < i < |start|
    requires t == Shifted(start, j, i)[j + 1 := start[i]]
    ensures multiset(t) == multiset(start)
  {
    var front, back, rest := start[..j + 1], start[j + 1..i], start[i + 1..];
    assert t == front + [start[i]] + back + rest;
    assert start == front + back + [start[i]] + rest;
  }
}

module SelectionSort {
  import opened CSharp
  import opened SortOrder

  /** For every `i` but the last, finds the smallest (or, descending, largest) entry of
      `values[i..]` and exchanges it with `values[i]` when it is elsewhere. */
  method Sort(values: array<int32>, descending: bool)
    modifies values
    ensures Sorted(values[..], descending)
    ensures multiset(values[..]) == multiset(old(values[..]))
  {
    var i := 0;
    while i < values.Length - 1
      invariant 0 <= i <= values.Length
      invariant values.Length > 0 ==> i <= values.Length - 1
      invariant forall p, q | 0 <= p < q < values.Length && p < i :: Before(values[p], values[q], descending)
      invariant multiset(values[..]) == multiset(old(values[..]))
    {
      var index := Extreme(values, i, descending);
      if index != i {
        Exchange(values, i, index);
      }
      i := i + 1;
    }
  }

  /** The inner loop: the position of an entry of `values[i..]` that may stand before all
      the others, the first such one in a scan from `i`. */
  method Extreme(values: array<int32>, i: int, descending: bool) returns (index: int)
    requires 0 <= i < values.Length
    ensures i <= index < values.Length
    ensures forall q | i <= q < values.Length :: Before(values[index], values[q], descending)
  {
    index := i;
    for j := i + 1 to values.Length
      invariant i <= index < j
      invariant forall q | i <= q < j :: Before(values[index], values[q], descending)
    {
      if if descending then values[j] > values[index] else values[j] < values[index] {
        index := j;
      }
    }
  }
}
