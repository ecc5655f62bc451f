// The two recursive searches over a C# `int[]`: ConsoleApp/Algorithm/Searching/BinarySearch.cs
// and TernarySearch.cs. Each looks for `value` in the index range `left..right` (both ends
// included) and returns an index holding it or -1. The array is only read, so it is a
// sequence here. Both compare with `<`, so both expect an ascending array.

module BinarySearch {
  import opened CSharp
  import opened SortOrder

  /** `Search(values, value)`: the whole array. */
  function Search(values: seq<int32>, value: int32): (r: int)
    ensures r == -1 || (0 <= r < |values| && values[r] == value)
  {
    SearchRange(values, value, 0, |values| - 1)
  }

  /** `Search(values, value, left, right)`: probes the middle of the range and goes on in
      the half that can still hold `value`. */
  function SearchRange(values: seq<int32>, value: int32, left: int, right: int): (r: int)
    requires 0 <= left <= right + 1 <= |values|
    ensures r == -1 || (left <= r <= right && values[r] == value)
    decreases right - left
  {
    if right < left then -1
    else
      var middle := (left + right) / 2;
      if values[middle] == value then middle
      else if value < values[middle] then SearchRange(values, value, left, middle - 1)
      else SearchRange(values, value, middle + 1, right)
  }

  /** In an ascending array the search finds `value` whenever it is in the range. */
  lemma {:induction false} RangeFinds(values: seq<int32>, value: int32, left: int, right: int, p: int)
    requires 0 <= left <= p <= right < |values| && Sorted(values, false) && values[p] == value
    ensures SearchRange(values, value, left, right) != -1
    decreases right - left
  {
    var middle := (left + right) / 2;
    if values[middle] != value {
      if value < values[middle] {
        Earlier(values, p, middle);
        RangeFinds(values, value, left, middle - 1, p);
      } else {
        Earlier(values, middle, p);
        RangeFinds(values, value, middle + 1, right, p);
      }
    }
  }

  /** In an ascending array, -1 means that `value` is absent. */
  lemma Finds(values: seq<int32>, value: int32)
    requires Sorted(values, false)
    ensures Search(values, value) == -1 <==> value !in values
  {
    if value in values {
      var p :| 0 <= p < |values| && values[p] == value;
      RangeFinds(values, value, 0, |values| - 1, p);
    }
  }
}

module TernarySearch {
  import opened CSharp
  import opened SortOrder

  /** `Search(values, value)`: the whole array. */
  function Search(values: seq<int32>, value: int32): (r: int)
    ensures r == -1 || (0 <= r < |values| && values[r] == value)
  {
    SearchRange(values, value, 0, |values| - 1)
  }

  /** The two probes split `left..right` into three parts: `left <= middle1 <= middle2 <=
      right`. */
  lemma Probes(left: int, right: int)
    requires 0 <= left <= right
    ensures left <= left + (right - left) / 3 <= right - (right - left) / 3 <= right
  {
  }

  /** `Search(values, value, left, right)`: probes the two points a third of the way in. */
  function SearchRange(values: seq<int32>, value: int32, left: int, right: int): (r: int)
    requires 0 <= left <= right + 1 <= |values|
    ensures r == -1 || (left <= r <= right && values[r] == value)
    decreases right - left, 1
  {
    if right < left then -1
    else
      Probes(left, right);
      Probe(values, value, left, right, left + (right - left) / 3, right - (right - left) / 3)
  }

  /** The comparisons with the probes at `middle1` and `middle2`, which go on in the part
      of `left..right` that can still hold `value`. */
  function Probe(values: seq<int32>, value: int32, left: int, right: int, middle1: int, middle2: int): (r: int)
    requires 0 <= left <= middle1 <= middle2 <= right < |values|
    ensures r == -1 || (left <= r <= right && values[r] == value)
    decreases right - left, 0
  {
    if values[middle1] == value then middle1
    else if values[middle2] == value then middle2
    else if value < values[middle1] then SearchRange(values, value, left, middle1 - 1)
    else if value < values[middle2] then SearchRange(values, value, middle1 + 1, middle2 - 1)
    else SearchRange(values, value, middle2 + 1, right)
  }

  /** In an ascending array the search finds `value` whenever it is in the range. */
  lemma {:induction false} RangeFinds(values: seq<int32>, value: int32, left: int, right: int, p: int)
    requires 0 <= left <= p <= right < |values| && Sorted(values, false) && values[p] == value
    ensures SearchRange(values, value, left, right) != -1
    decreases right - left
  {
    var middle1 := left + (right - left) / 3;
    var middle2 := right - (right - left) / 3;
    Probes(left, right);
    ProbeFinds(values, value, left, right, middle1, middle2, p);
  }

  lemma {:induction false} ProbeFinds(values: seq<int32>, value: int32, left: int, right: int, middle1: int, middle2: int, p: int)
    requires 0 <= left <= middle1 <= middle2 <= right < |values| && Sorted(values, false)
    requires left <= p <= right && values[p] == value
    ensures Probe(values, value, left, right, middle1, middle2) != -1
    decreases right - left, 0
  {
    if values[middle1] != value && values[middle2] != value {
      if value < values[middle1] {
        Earlier(values, p, middle1);
        RangeFinds(values, value, left, middle1 - 1, p);
      } else if value < values[middle2] {
        Earlier(values, middle1, p);
        Earlier(values, p, middle2);
        RangeFinds(values, value, middle1 + 1, middle2 - 1, p);
      } else {
        Earlier(values, middle2, p);
        RangeFinds(values, value, middle2 + 1, right, p);
      }
    }
  }

  /** In an ascending array, -1 means that `value` is absent. */
  lemma Finds(values: seq<int32>, value: int32)
    requires Sorted(values, false)
    ensures Search(values, value) == -1 <==> value !in values
  {
    if value in values {
      var p :| 0 <= p < |values| && values[p] == value;
      RangeFinds(values, value, 0, |values| - 1, p);
    }
  }
}
