// What the sorting algorithms under ConsoleApp/Algorithm/Sorting share: the order a
// `descending` flag asks for, what "sorted" means, and the in-place exchange
// `values[i] ^= values[j]; values[j] ^= values[i]; values[i] ^= values[j];` that most of
// them use to swap two entries.

module SortOrder {
  import opened CSharp

  /** `x` may stand before `y` in the requested order. */
  predicate Before(x: int32, y: int32, descending: bool) {
    if descending then x >= y else x <= y
  }

  /** Every entry may stand before every later one. */
  predicate Sorted(s: seq<int32>, descending: bool) {
    forall i, j | 0 <= i < j < |s| :: Before(s[i], s[j], descending)
  }

  /** In an ascending array a smaller entry stands earlier. */
  lemma Earlier(s: seq<int32>, i: int, j: int)
    requires Sorted(s, false) && 0 <= i < |s| && 0 <= j < |s|
    ensures s[i] < s[j] ==> i < j
  {
    if j < i {
      assert Before(s[j], s[i], false);
    }
  }

  /** Exchanging two entries keeps the multiset of entries. */
  lemma SwapPermutes(s: seq<int32>, i: int, j: int)
    requires 0 <= i < |s| && 0 <= j < |s|
    ensures multiset(s[i := s[j]][j := s[i]]) == multiset(s)
  {
    if i != j {
      var t := s[i := s[j]];
      assert multiset(t) == multiset(s) - multiset{s[i]} + multiset{s[j]};
      assert multiset(t[j := s[i]]) == multiset(t) - multiset{s[j]} + multiset{s[i]};
    }
  }

  /** The three exclusive-or assignments that exchange `a[i]` and `a[j]`. They exchange the
      two entries when `i != j`; when `i == j` the first one already sets the entry to 0. */
  method XorSwap(a: array<int32>, i: int, j: int)
    requires 0 <= i < a.Length && 0 <= j < a.Length
    modifies a
    ensures i != j ==> a[..] == old(a[..])[i := old(a[j])][j := old(a[i])]
    ensures i == j ==> a[..] == old(a[..])[i := 0]
  {
    ghost var x, y, before := a[i], a[j], a[..];
    a[i] := Xor(a[i], a[j]);
    a[j] := Xor(a[j], a[i]);
    a[i] := Xor(a[i], a[j]);
    if i != j {
      XorCommute(y, Xor(x, y));
      XorCancel(x, y);
      assert a[..] == before[i := y][j := x];
    } else {
      XorSelf(x);
      XorSelf(0);
    }
  }

  /** `XorSwap` on two different entries keeps the multiset of entries. */
  method Exchange(a: array<int32>, i: int, j: int)
    requires 0 <= i < a.Length && 0 <= j < a.Length && i != j
    modifies a
    ensures a[..] == old(a[..])[i := old(a[j])][j := old(a[i])]
    ensures multiset(a[..]) == multiset(old(a[..]))
  {
    SwapPermutes(a[..], i, j);
    XorSwap(a, i, j);
  }

  /** Exchanges two entries through a temporary, which is also right when `i == j`. */
  method Swap(a: array<int32>, i: int, j: int)
    requires 0 <= i < a.Length && 0 <= j < a.Length
    modifies a
    ensures a[..] == old(a[..])[i := old(a[j])][j := old(a[i])]
    ensures multiset(a[..]) == multiset(old(a[..]))
  {
    SwapPermutes(a[..], i, j);
    a[i], a[j] := a[j], a[i];
  }

  /** `values` and `was` agree outside `lo..hi-1`. */
  ghost predicate SameOutside(values: seq<int32>, was: seq<int32>, lo: int, hi: int) {
    |values| == |was| && forall k | 0 <= k < |values| && (k < lo || hi <= k) :: values[k] == was[k]
  }

  /** Two arrays with the same entries that agree outside a range have the same entries
      inside it. */
  lemma RangePermutes(s: seq<int32>, t: seq<int32>, lo: int, hi: int)
    requires 0 <= lo <= hi <= |s| && SameOutside(s, t, lo, hi) && multiset(s) == multiset(t)
    ensures multiset(s[lo..hi]) == multiset(t[lo..hi])
  {
    var front, back := s[..lo], s[hi..];
    assert front == t[..lo] && back == t[hi..];
    assert s == front + s[lo..hi] + back;
    assert t == front + t[lo..hi] + back;
    calc {
      multiset(s[lo..hi]);
      multiset(s) - multiset(front) - multiset(back);
      multiset(t) - multiset(front) - multiset(back);
      multiset(t[lo..hi]);
    }
  }

  /** An entry of a range whose entries are those of another range is one of those. */
  lemma Member(s: seq<int32>, t: seq<int32>, lo: int, hi: int, k: int)
    requires 0 <= lo <= k < hi <= |s| && SameOutside(s, t, lo, hi) && multiset(s) == multiset(t)
    ensures exists m | lo <= m < hi :: t[m] == s[k]
  {
    RangePermutes(s, t, lo, hi);
    assert s[k] == s[lo..hi][k - lo];
    assert s[k] in multiset(t[lo..hi]);
    var m :| 0 <= m < hi - lo && t[lo..hi][m] == s[k];
    assert t[lo + m] == s[k];
  }

  /** Two arrays that agree outside a range and have the same entries inside it have the
      same entries. */
  lemma WholePermutes(s: seq<int32>, t: seq<int32>, lo: int, hi: int)
    requires 0 <= lo <= hi <= |s| && SameOutside(s, t, lo, hi) && multiset(s[lo..hi]) == multiset(t[lo..hi])
    ensures multiset(s) == multiset(t)
  {
    var front, back := s[..lo], s[hi..];
    assert front == t[..lo] && back == t[hi..];
    assert s == front + s[lo..hi] + back;
    assert t == front + t[lo..hi] + back;
  }
}
