// ConsoleApp/Algorithm/Sorting/HeapSort.cs: builds a heap whose root is the entry that
// belongs last (the largest ascending, the smallest descending), then repeatedly moves the
// root behind the heap and sifts the new root down.

module HeapSort {
  import opened CSharp
  import opened SortOrder

  /** The parent of node `k` in a heap stored in an array. */
  function Parent(k: int): int { (k - 1) / 2 }

  /** Every parent in `lo..` whose child lies below `last` may stand after that child: the
      heap order, from node `lo` on. */
  ghost predicate HeapFrom(s: seq<int32>, lo: int, last: int, descending: bool) {
    forall k | 0 < k < last && k < |s| && lo <= Parent(k) :: Before(s[k], s[Parent(k)], descending)
  }

  /** Sorts the array in the requested order. */
  method Sort(values: array<int32>, descending: bool)
    modifies values
    ensures Sorted(values[..], descending)
    ensures multiset(values[..]) == multiset(old(values[..]))
  {
    var n := values.Length;
    var i := n / 2 - 1;
    Leaves(values[..], n, descending);
    while i >= 0
      invariant -1 <= i <= n / 2 - 1
      invariant HeapFrom(values[..], i + 1, n, descending)
      invariant multiset(values[..]) == multiset(old(values[..]))
    {
      Heapify(values, n, i, descending);
      i := i - 1;
    }
    i := n - 1;
    while i > 0
      invariant if n == 0 then i == -1 else 0 <= i < n
      invariant Extracted(values[..], i, descending)
      invariant multiset(values[..]) == multiset(old(values[..]))
    {
      ghost var s0 := values[..];
      Exchange(values, i, 0);
      ghost var s1 := values[..];
      ExtractReady(s0, s1, i, descending);
      Heapify(values, i, 0, descending);
      ExtractStep(s0, s1, values[..], i, descending);
      i := i - 1;
    }
    Finished(values[..], i, descending);
  }

  /** When the heap is down to one entry, or the array is empty, everything is sorted. */
  lemma Finished(s: seq<int32>, i: int, descending: bool)
    requires i <= 0 && Extracted(s, i, descending)
    ensures Sorted(s, descending)
  {
    if i == 0 {
      assert s == [s[0]] + s[1..];
      var t := s[1..];
      forall p, q | 0 <= p < q < |s|
        ensures Before(s[p], s[q], descending)
      {
        if p > 0 {
          assert s[p] == t[p - 1] && s[q] == t[q - 1];
        } else if q > 1 {
          assert s[1] == t[0] && s[q] == t[q - 1];
        }
      }
    } else {
      assert s == s[i + 1..];
    }
  }

  /** The state of the second loop at `i`: a heap in `s[..i + 1]`, sorted entries after
      it, and the root of the heap may stand before the first of them. */
  ghost predicate Extracted(s: seq<int32>, i: int, descending: bool) {
    0 <= i + 1 <= |s| && HeapFrom(s, 0, i + 1, descending) && Sorted(s[i + 1..], descending) &&
    (0 <= i && i + 1 < |s| ==> Before(s[0], s[i + 1], descending))
  }

  /** Nodes from `n / 2` on have no children below `n`: every array is a heap from there. */
  lemma Leaves(s: seq<int32>, n: int, descending: bool)
    requires 0 <= n
    ensures HeapFrom(s, n / 2, n, descending)
  {
    forall k | 0 < k < n
      ensures Parent(k) < n / 2
    {
      assert 2 * Parent(k) <= k - 1 && 2 * (n / 2) >= n - 1;
    }
  }

  /** One round of the second loop: the root moves to `i`, behind the heap and before the
      sorted entries, and the heap shrinks to `s2[..i]`. */
  lemma ExtractStep(s0: seq<int32>, s1: seq<int32>, s2: seq<int32>, i: int, descending: bool)
    requires 0 < i < |s0| && Extracted(s0, i, descending)
    requires s1 == s0[i := s0[0]][0 := s0[i]]
    requires |s2| == |s1| && HeapFrom(s2, 0, i, descending) && SiftFrame(s2, s1, i, 0)
    requires RootFrom(s2, s1, i, 0)
    ensures Extracted(s2, i - 1, descending)
  {
    RootLast(s0, i + 1, descending);
    assert s2[i..] == [s0[0]] + s0[i + 1..];
    assert Before(s2[0], s0[0], descending);
  }

  /** After the exchange, the nodes after the root below `i` are still a heap. */
  lemma ExtractReady(s0: seq<int32>, s1: seq<int32>, i: int, descending: bool)
    requires 0 < i < |s0| && Extracted(s0, i, descending)
    requires s1 == s0[i := s0[0]][0 := s0[i]]
    ensures HeapFrom(s1, 1, i, descending)
  {
    assert s1 == s0[0 := s0[i]][i := s0[0]];
    ExchangeBelow(s0, s1, i + 1, 0, i, descending);
  }

  /** Outside `root` and the nodes `2 * root + 1..last-1`, `t` is `s`. */
  ghost predicate SiftFrame(t: seq<int32>, s: seq<int32>, last: int, root: int) {
    |t| == |s| && forall k | 0 <= k < |t| && k != root && !(2 * root + 1 <= k < last) :: t[k] == s[k]
  }

  /** The new root is the old root or one of its children. */
  ghost predicate RootFrom(t: seq<int32>, s: seq<int32>, last: int, root: int)
    requires 0 <= root < |t| == |s|
  {
    t[root] == s[root] ||
    (2 * root + 1 < last && 2 * root + 1 < |s| && t[root] == s[2 * root + 1]) ||
    (2 * root + 2 < last && 2 * root + 2 < |s| && t[root] == s[2 * root + 2])
  }

  /** The root of a heap may stand after every entry of the heap. */
  lemma RootLast(s: seq<int32>, last: int, descending: bool)
    requires 0 < last <= |s| && HeapFrom(s, 0, last, descending)
    ensures forall k | 0 <= k < last :: Before(s[k], s[0], descending)
  {
    forall k | 0 <= k < last
      ensures Before(s[k], s[0], descending)
    {
      RootAbove(s, last, k, descending);
    }
  }

  lemma {:induction false} RootAbove(s: seq<int32>, last: int, k: int, descending: bool)
    requires 0 <= k < last <= |s| && HeapFrom(s, 0, last, descending)
    ensures Before(s[k], s[0], descending)
    decreases k
  {
    if k > 0 {
      RootAbove(s, last, Parent(k), descending);
    }
  }

  /** `Heapify(values, last, root, descending)`: sifts `values[root]` down the heap stored
      in `values[..last]` until both children may stand before it. */
  method Heapify(values: array<int32>, last: int, root: int, descending: bool)
    requires 0 <= root < last <= values.Length
    requires HeapFrom(values[..], root + 1, last, descending)
    modifies values
    ensures HeapFrom(values[..], root, last, descending)
    ensures multiset(values[..]) == multiset(old(values[..]))
    ensures SiftFrame(values[..], old(values[..]), last, root)
    ensures RootFrom(values[..], old(values[..]), last, root)
    decreases last - root
  {
    var index := root;
    var left := 2 * root + 1;
    var right := 2 * root + 2;
    if left < last && (descending != (values[index] < values[left])) {
      index := left;
    }
    if right < last && (descending != (values[index] < values[right])) {
      index := right;
    }
    ghost var s0 := values[..];
    Chosen(s0, last, root, index, descending);
    if index != root {
      Exchange(values, root, index);
      ghost var s1 := values[..];
      ExchangeBelow(s0, s1, last, root, index, descending);
      Heapify(values, last, index, descending);
      Sifted(s0, s1, values[..], last, root, index, descending);
    }
  }

  /** What the two comparisons establish: `index` is the root or a child of it, and no
      child may stand after `s[index]`. */
  ghost predicate Choice(s: seq<int32>, last: int, root: int, index: int, descending: bool)
    requires 0 <= root < |s| && last <= |s|
  {
    (index == root || index == 2 * root + 1 || index == 2 * root + 2) && 0 <= index < last &&
    Before(s[root], s[index], descending) &&
    (2 * root + 1 < last ==> Before(s[2 * root + 1], s[index], descending)) &&
    (2 * root + 2 < last ==> Before(s[2 * root + 2], s[index], descending))
  }

  lemma Chosen(s: seq<int32>, last: int, root: int, index: int, descending: bool)
    requires 0 <= root < last <= |s|
    requires index == (
      var i1 := if 2 * root + 1 < last && (descending != (s[root] < s[2 * root + 1])) then 2 * root + 1 else root;
      if 2 * root + 2 < last && (descending != (s[i1] < s[2 * root + 2])) then 2 * root + 2 else i1)
    ensures Choice(s, last, root, index, descending)
  {
  }

  /** Exchanging node `root` with a later node `index` keeps the heap order among the
      nodes after `index` below `last`, and among those after the root below `index`. */
  lemma ExchangeBelow(s0: seq<int32>, s1: seq<int32>, last: int, root: int, index: int, descending: bool)
    requires 0 <= root < index < last <= |s0| && HeapFrom(s0, root + 1, last, descending)
    requires s1 == s0[root := s0[index]][index := s0[root]]
    ensures HeapFrom(s1, index + 1, last, descending)
    ensures root == 0 ==> HeapFrom(s1, 1, index, descending)
  {
    forall k | 0 < k < last && index + 1 <= Parent(k)
      ensures s1[k] == s0[k] && s1[Parent(k)] == s0[Parent(k)]
    {
    }
    if root == 0 {
      forall k | 0 < k < index && 1 <= Parent(k)
        ensures s1[k] == s0[k] && s1[Parent(k)] == s0[Parent(k)]
      {
      }
    }
  }

  /** Exchanging the root with its chosen child and sifting that child down leaves a heap
      from the root on. */
  lemma Sifted(s0: seq<int32>, s1: seq<int32>, s2: seq<int32>, last: int, root: int, index: int, descending: bool)
    requires 0 <= root < last <= |s0| && HeapFrom(s0, root + 1, last, descending)
    requires Choice(s0, last, root, index, descending) && index != root
    requires s1 == s0[root := s0[index]][index := s0[root]]
    requires |s2| == |s1| && HeapFrom(s2, index, last, descending)
    requires SiftFrame(s2, s1, last, index) && RootFrom(s2, s1, last, index)
    ensures HeapFrom(s2, root, last, descending)
    ensures SiftFrame(s2, s0, last, root) && RootFrom(s2, s0, last, root)
  {
    forall k | 0 < k < last && root <= Parent(k) < index
      ensures Before(s2[k], s2[Parent(k)], descending)
    {
      if Parent(k) > root {
        assert k < 2 * index + 1 && k != index && Parent(k) != index;
        assert s2[k] == s0[k] && s2[Parent(k)] == s0[Parent(k)];
      } else if k == index {
        assert s2[root] == s0[index];
        assert 2 * index + 1 < last ==> Parent(2 * index + 1) == index;
        assert 2 * index + 2 < last ==> Parent(2 * index + 2) == index;
      } else {
        assert s2[root] == s0[index] && s2[k] == s0[k];
      }
    }
  }
}
