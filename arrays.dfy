// ConsoleApp/Algorithm/Array.cs: the array helpers of class `Arrays`. The minimum, the
// maximum, the two sorts and the reversal work on a copy and leave the caller's array as
// it is (none of them names it in `modifies`); `Permutation` exchanges entries of the
// caller's array while it runs and puts each one back.

module Arrays {
  import opened CSharp
  import opened SortOrder
  import Recursion
  import Bubble = BubbleSort
  import Searching = BinarySearch

  /** `values.CopyTo(copy, 0)` into a new array, or `values.Clone()`. */
  method Copy<T>(values: array<T>) returns (copy: array<T>)
    ensures fresh(copy) && copy[..] == values[..]
  {
    copy := new T[values.Length](i requires 0 <= i < values.Length reads values => values[i]);
  }

  // --------------------------------------------------------- extremes

  /** `SmallestValue(values)`: 0 for an empty array, otherwise the least entry. */
  method SmallestValue(values: array<int32>) returns (x: int32)
    ensures values.Length == 0 ==> x == 0
    ensures values.Length > 0 ==> x in values[..] && forall k | 0 <= k < values.Length :: x <= values[k]
  {
    if values.Length == 0 {
      return 0;
    }
    x := values[0];
    for i := 1 to values.Length
      invariant x in values[..i]
      invariant forall k | 0 <= k < i :: x <= values[k]
    {
      if values[i] < x {
        x := values[i];
      }
    }
    assert values[..] == values[..values.Length];
  }

  /** `GreatestValue(values)`: 0 for an empty array, otherwise the greatest entry. */
  method GreatestValue(values: array<int32>) returns (x: int32)
    ensures values.Length == 0 ==> x == 0
    ensures values.Length > 0 ==> x in values[..] && forall k | 0 <= k < values.Length :: values[k] <= x
  {
    if values.Length == 0 {
      return 0;
    }
    x := values[0];
    for i := 1 to values.Length
      invariant x in values[..i]
      invariant forall k | 0 <= k < i :: values[k] <= x
    {
      if values[i] > x {
        x := values[i];
      }
    }
    assert values[..] == values[..values.Length];
  }

  // ---------------------------------------------------------- sorting

  /** The last `t` entries are in order, and none is below an entry before it. */
  ghost predicate Top(s: seq<int32>, t: int) {
    forall p, q | 0 <= p < q < |s| && |s| - t <= q :: s[p] <= s[q]
  }

  /** Once the last `|s| - 1` entries are in place, all of them are. */
  lemma TopSorted(s: seq<int32>, t: int)
    requires Top(s, t) && t >= |s| - 1
    ensures Sorted(s, false)
  {
  }

  /** Neighbours in order make the whole sequence ascending. */
  lemma Adjacent(s: seq<int32>)
    requires forall p | 0 <= p < |s| - 1 :: s[p] <= s[p + 1]
    ensures Sorted(s, false)
  {
    forall p, q | 0 <= p < q < |s|
      ensures Before(s[p], s[q], false)
    {
      Chain(s, p, q);
    }
  }

  lemma {:induction false} Chain(s: seq<int32>, p: int, q: int)
    requires forall k | 0 <= k < |s| - 1 :: s[k] <= s[k + 1]
    requires 0 <= p <= q < |s|
    ensures s[p] <= s[q]
    decreases q - p
  {
    if p < q {
      Chain(s, p + 1, q);
    }
  }

  /** One pass of the inner `for` loop of `OrderbyAscending`: exchanges each neighbour pair
      that is out of order and counts the exchanges. The greatest entry not yet in place
      moves up to its place; no exchange at all means the array was already ascending. */
  method Pass(ordered: array<int32>, ghost t: int) returns (changed: int)
    requires 0 <= t && Top(ordered[..], t)
    modifies ordered
    ensures Top(ordered[..], t + 1)
    ensures multiset(ordered[..]) == multiset(old(ordered[..]))
    ensures changed >= 0
    ensures changed == 0 ==> ordered[..] == old(ordered[..]) && Sorted(ordered[..], false)
    ensures Sorted(old(ordered[..]), false) ==> changed == 0
  {
    var n := ordered.Length;
    ghost var o := ordered[..];
    changed := 0;
    var i := 0;
    while i < n - 1
      invariant Passing(ordered[..], o, t, i, changed)
      invariant multiset(ordered[..]) == multiset(o)
    {
      ghost var s, c := ordered[..], changed;
      if ordered[i] > ordered[i + 1] {
        Swap(ordered, i, i + 1);
        changed := changed + 1;
      }
      PassStep(s, ordered[..], o, t, i, c, changed);
      i := i + 1;
    }
    PassDone(ordered[..], o, t, i, changed);
  }

  /** The state of a pass before position `i`, started from `o` with the last `t` entries
      in place: `s[i]` is the greatest entry so far, the entry at `|s| - t - 1` is final
      once reached, and without an exchange so far nothing has changed and the entries up
      to `i` are in order. */
  ghost predicate Passing(s: seq<int32>, o: seq<int32>, t: int, i: int, changed: int) {
    |o| == |s| && 0 <= t && 0 <= i && (|s| > 0 ==> i <= |s| - 1) && (|s| == 0 ==> i == 0) &&
    Top(s, t) && Climbing(s, t, i) && Unchanged(s, o, i, changed)
  }

  /** `s[i]` is the greatest of `s[..i + 1]`, and the entry at `|s| - t - 1`, once reached,
      is the greatest of those before it. */
  ghost predicate Climbing(s: seq<int32>, t: int, i: int) {
    var m := |s| - t - 1;
    (0 <= i < |s| ==> forall q | 0 <= q < i :: s[q] <= s[i]) &&
    (0 <= m <= i && m < |s| ==> forall p | 0 <= p < m :: s[p] <= s[m])
  }

  /** Without an exchange so far nothing has changed and the entries up to `i` are in
      order; an ascending start makes no exchange. */
  ghost predicate Unchanged(s: seq<int32>, o: seq<int32>, i: int, changed: int) {
    changed >= 0 &&
    (changed == 0 ==> s == o && forall p | 0 <= p < i && p + 1 < |s| :: s[p] <= s[p + 1]) &&
    (Sorted(o, false) ==> changed == 0)
  }

  /** One step of the pass keeps its state. */
  lemma PassStep(s: seq<int32>, s': seq<int32>, o: seq<int32>, t: int, i: int, c: int, c': int)
    requires Passing(s, o, t, i, c) && i < |s| - 1
    requires s[i] > s[i + 1] ==> s' == s[i := s[i + 1]][i + 1 := s[i]] && c' == c + 1
    requires s[i] <= s[i + 1] ==> s' == s && c' == c
    ensures Passing(s', o, t, i + 1, c')
  {
    var n := |s|;
    if s[i] > s[i + 1] {
      assert i + 1 < n - t;
      if c == 0 {
        assert !Before(o[i], o[i + 1], false);
      }
      forall p, q | 0 <= p < q < n && n - t <= q
        ensures s'[p] <= s'[q]
      {
        assert s'[q] == s[q];
        if p == i {
          assert s'[p] == s[i + 1];
        } else if p == i + 1 {
          assert s'[p] == s[i];
        }
      }
    }
  }

  /** At the end of the pass one more entry is in place. */
  lemma PassDone(s: seq<int32>, o: seq<int32>, t: int, i: int, changed: int)
    requires Passing(s, o, t, i, changed) && !(i < |s| - 1)
    ensures Top(s, t + 1)
    ensures changed == 0 ==> s == o && Sorted(s, false)
    ensures Sorted(o, false) ==> changed == 0
  {
    if changed == 0 {
      Adjacent(s);
    }
  }

  /** `OrderbyAscending(values)`: copies the array, then repeats passes of neighbour
      exchanges until a pass exchanges nothing. */
  method OrderbyAscending(values: array<int32>) returns (ordered: array<int32>)
    ensures Sorted(ordered[..], false)
    ensures multiset(ordered[..]) == multiset(values[..])
  {
    ordered := Copy(values);
    var changed := -1;
    ghost var t := 0;
    while changed != 0
      invariant 0 <= t && Top(ordered[..], t)
      invariant multiset(ordered[..]) == multiset(values[..])
      invariant changed == 0 ==> Sorted(ordered[..], false)
      invariant changed != 0 ==> t <= ordered.Length
      decreases ordered.Length + 1 - t
    {
      ghost var before := ordered[..];
      changed := Pass(ordered, t);
      if t >= |before| - 1 {
        TopSorted(before, t);
      }
      t := t + 1;
    }
  }

  /** `BubbleSort(values)`: sorts a clone of the array with the bubble sort of
      `Algorithm.Sorting.BubbleSort`, ascending. */
  method BubbleSort(values: array<int32>) returns (shadow: array<int32>)
    ensures Sorted(shadow[..], false)
    ensures multiset(shadow[..]) == multiset(values[..])
  {
    shadow := Copy(values);
    Bubble.Sort(shadow, false);
  }

  // --------------------------------------------------------- searching

  /** `BinarySearch(values, item)`: the recursive halving search of
      `Algorithm.Searching.BinarySearch`, from `0` to `values.Length - 1`. */
  function BinarySearch(values: seq<int32>, item: int32): (r: int)
    ensures r == -1 || (0 <= r < |values| && values[r] == item)
    ensures Sorted(values, false) ==> (r == -1 <==> item !in values)
  {
    if Sorted(values, false) then
      Searching.Finds(values, item);
      Searching.Search(values, item)
    else Searching.Search(values, item)
  }

  // --------------------------------------------------------- reversing

  /** `Reverse(values)`: a copy whose halves are exchanged entry by entry. */
  method Reverse<T>(values: array<T>) returns (shadow: array<T>)
    ensures shadow.Length == values.Length
    ensures forall i | 0 <= i < values.Length :: shadow[i] == values[values.Length - 1 - i]
  {
    shadow := Copy(values);
    var n := shadow.Length;
    for i := 0 to n / 2
      invariant shadow.Length == n
      invariant forall k | 0 <= k < i :: shadow[k] == values[n - 1 - k] && shadow[n - 1 - k] == values[k]
      invariant forall k | i <= k < n - i :: shadow[k] == values[k]
    {
      var temp := shadow[i];
      shadow[i] := shadow[n - 1 - i];
      shadow[n - 1 - i] := temp;
    }
  }

  // ------------------------------------------------------ permutations

  /** `s` with the entries at `k` and `i` exchanged. */
  function Exchanged<T>(s: seq<T>, k: int, i: int): (r: seq<T>)
    requires 0 <= k < |s| && 0 <= i < |s|
    ensures |r| == |s| && r[k] == s[i] && r[i] == s[k]
  {
    s[k := s[i]][i := s[k]]
  }

  /** The arrangements the recursion lists from position `k` on: the array itself when `k`
      is the last position, otherwise those of each branch. */
  function Arrangements<T>(s: seq<T>, k: nat): seq<seq<T>>
    decreases |s| - k, 1, 0
  {
    if k == |s| - 1 then [s] else Branches(s, k, |s|)
  }

  /** The branches `k..i-1` of the loop: for each `j`, the arrangements from `k + 1` on of
      the array with the entries at `k` and `j` exchanged. */
  function Branches<T>(s: seq<T>, k: nat, i: int): seq<seq<T>>
    requires i <= |s|
    decreases |s| - k, 0, i
  {
    if i <= k then [] else Branches(s, k, i - 1) + Arrangements(Exchanged(s, k, i - 1), k + 1)
  }

  /** The inner `Permutation(values, k, m)` with `m == values.Length - 1`: lists the
      arrangements from `k` on and puts the array back as it was. */
  method Permute<T>(a: array<T>, k: nat) returns (list: seq<seq<T>>)
    modifies a
    ensures a[..] == old(a[..])
    ensures list == Arrangements(old(a[..]), k)
    decreases a.Length - k
  {
    ghost var s := a[..];
    list := [];
    if k == a.Length - 1 {
      list := [a[..]];
    } else if k < a.Length {
      for i := k to a.Length
        invariant a[..] == s
        invariant list == Branches(s, k, i)
      {
        a[k], a[i] := a[i], a[k];
        assert a[..] == Exchanged(s, k, i);
        var sub := Permute(a, k + 1);
        list := list + sub;
        a[k], a[i] := a[i], a[k];
        assert a[..] == s;
      }
    }
  }

  /** `Permutation(values, k)`. A negative `k` reads `values[k]` and throws, except on an
      empty array with `k == -1`, where `k == m` lists the empty arrangement. */
  method Permutation<T>(a: array<T>, k: int) returns (r: Outcome<seq<seq<T>>>)
    modifies a
    ensures a[..] == old(a[..])
    ensures k >= 0 ==> r == Returns(Arrangements(old(a[..]), k))
    ensures k == -1 && a.Length == 0 ==> r == Returns([[]])
    ensures k < 0 && !(k == -1 && a.Length == 0) ==> r == Throws(IndexOutOfRange)
  {
    if k >= 0 {
      var list := Permute(a, k);
      return Returns(list);
    } else if k == -1 && a.Length == 0 {
      assert a[..] == [];
      return Returns([a[..]]);
    }
    return Throws(IndexOutOfRange);
  }

  /** From position `k` of a sequence of `n` entries the recursion lists (n - k)!
      arrangements; from past the end it lists none. */
  lemma {:induction false} ArrangementsCount<T>(s: seq<T>, k: nat)
    ensures |Arrangements(s, k)| == if k < |s| then Recursion.Fact(|s| - k) else 0
    decreases |s| - k, 1, 0
  {
    if k < |s| - 1 {
      BranchesCount(s, k, |s|);
    }
  }

  lemma {:induction false} BranchesCount<T>(s: seq<T>, k: nat, i: int)
    requires k < |s| - 1 && k <= i <= |s|
    ensures |Branches(s, k, i)| == (i - k) * Recursion.Fact(|s| - k - 1)
    decreases |s| - k, 0, i
  {
    if i > k {
      BranchesCount(s, k, i - 1);
      ArrangementsCount(Exchanged(s, k, i - 1), k + 1);
      MulStep(i - 1 - k, Recursion.Fact(|s| - k - 1));
    }
  }

  lemma MulStep(x: int, f: int)
    ensures (x + 1) * f == x * f + f
  {
  }

  /** `p` holds the entries of `s` and agrees with it before position `k`. */
  ghost predicate Keeps<T>(p: seq<T>, s: seq<T>, k: int) {
    |p| == |s| && 0 <= k <= |s| && multiset(p) == multiset(s) && p[..k] == s[..k]
  }

  /** Every listed arrangement holds the entries of the array, and keeps the entries
      before `k` in place. */
  lemma ArrangementsPermute<T>(s: seq<T>, k: nat)
    requires k <= |s|
    ensures forall p | p in Arrangements(s, k) :: Keeps(p, s, k)
  {
    forall p | p in Arrangements(s, k)
      ensures Keeps(p, s, k)
    {
      ArrangementKeeps(s, k, p);
    }
  }

  lemma {:induction false} ArrangementKeeps<T>(s: seq<T>, k: nat, p: seq<T>)
    requires k <= |s| && p in Arrangements(s, k)
    ensures Keeps(p, s, k)
    decreases |s| - k, 1, 0
  {
    if k != |s| - 1 {
      BranchKeeps(s, k, |s|, p);
    }
  }

  lemma {:induction false} BranchKeeps<T>(s: seq<T>, k: nat, i: int, p: seq<T>)
    requires k <= |s| && i <= |s| && p in Branches(s, k, i)
    ensures Keeps(p, s, k)
    decreases |s| - k, 0, i
  {
    var e := Exchanged(s, k, i - 1);
    var left, right := Branches(s, k, i - 1), Arrangements(e, k + 1);
    assert Branches(s, k, i) == left + right;
    if p in left {
      BranchKeeps(s, k, i - 1, p);
    } else {
      ArrangementKeeps(e, k + 1, p);
      ExchangedPermutes(s, k, i - 1);
      KeepsLess(p, e, s, k);
    }
  }

  /** What keeps the entries before `k + 1` of an exchanged array keeps those before `k`
      of the original. */
  lemma KeepsLess<T>(p: seq<T>, e: seq<T>, s: seq<T>, k: int)
    requires Keeps(p, e, k + 1) && Keeps(e, s, k)
    ensures Keeps(p, s, k)
  {
    assert p[..k] == p[..k + 1][..k] && e[..k] == e[..k + 1][..k];
  }

  /** Exchanging position `k` with a later one keeps the entries and the prefix before
      `k`. */
  lemma ExchangedPermutes<T>(s: seq<T>, k: int, i: int)
    requires 0 <= k <= i < |s|
    ensures Keeps(Exchanged(s, k, i), s, k)
  {
    var t := s[k := s[i]];
    assert multiset(t) == multiset(s) - multiset{s[k]} + multiset{s[i]};
    assert multiset(t[i := s[k]]) == multiset(t) - multiset{t[i]} + multiset{s[k]};
  }
}
