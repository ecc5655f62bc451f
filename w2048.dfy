// ConsoleApp/2048/W2048.cs: the 2048 game on a 4x4 board of `int` tiles (0 is an empty
// cell). A move in one of four directions works line by line: `Merge` joins equal tiles,
// `Slide` pushes the tiles to the side the move goes to, and a move that changed something
// places a new 2 on an empty cell.
//
// A line is read through `FindIndex(i, j, direction)`: cell `j` of line `i`, counted from
// the side the tiles move to. The line functions below work on such a four-cell line as a
// `seq<int>`, and the board functions put lines back into the sixteen cells.

module W2048 {
  import opened CSharp
  import ULong

  // ---------------------------------------------------------------- lines of the board

  /** The four directions `Move` is called with: left -1, right 1, up -4, down 4. */
  predicate IsDirection(d: int) {
    d == -1 || d == 1 || d == -4 || d == 4
  }

  /** Board index of cell `j` of line `i`, for a valid direction. */
  function Index(i: int, j: int, d: int): int
    requires IsDirection(d)
  {
    if d == -1 then i * 4 + j
    else if d == 1 then i * 4 + 3 - j
    else if d == -4 then j * 4 + i
    else (3 - j) * 4 + i
  }

  /** `FindIndex`: the index of cell `j` of line `i`, or an `ArgumentException` for any
      other direction. */
  function FindIndex(i: int, j: int, d: int): (r: Outcome<int>)
    ensures r.Returns? <==> IsDirection(d)
    ensures r.Throws? ==> r.error == Argument
    ensures r.Returns? && 0 <= i < 4 && 0 <= j < 4 ==> 0 <= r.value < 16
  {
    if IsDirection(d) then Returns(Index(i, j, d)) else Throws(Argument)
  }

  /** The line a board index lies on, for direction `d`. */
  function LineOf(idx: int, d: int): (i: int)
    requires IsDirection(d)
    ensures 0 <= idx < 16 ==> 0 <= i < 4
  {
    if d == -1 || d == 1 then idx / 4 else idx % 4
  }

  /** The place of a board index within its line, for direction `d`. */
  function PlaceOf(idx: int, d: int): (j: int)
    requires IsDirection(d)
    ensures 0 <= idx < 16 ==> 0 <= j < 4
  {
    if d == -1 then idx % 4
    else if d == 1 then 3 - idx % 4
    else if d == -4 then idx / 4
    else 3 - idx / 4
  }

  /** One half of the bijection: a cell of a line is a board index that reads back as
      that line and place. */
  lemma {:induction false} IndexInverse(i: int, j: int, d: int)
    requires 0 <= i < 4 && 0 <= j < 4 && IsDirection(d)
    ensures 0 <= Index(i, j, d) < 16
    ensures LineOf(Index(i, j, d), d) == i && PlaceOf(Index(i, j, d), d) == j
  {
    if d == -1 {
      ULong.DivUnique(i * 4 + j, 4, i, j);
    } else if d == 1 {
      ULong.DivUnique(i * 4 + 3 - j, 4, i, 3 - j);
    } else if d == -4 {
      ULong.DivUnique(j * 4 + i, 4, j, i);
    } else {
      ULong.DivUnique((3 - j) * 4 + i, 4, 3 - j, i);
    }
  }

  /** The other half: every board index is exactly one cell of one line. */
  lemma {:induction false} IndexOnto(idx: int, d: int)
    requires 0 <= idx < 16 && IsDirection(d)
    ensures Index(LineOf(idx, d), PlaceOf(idx, d), d) == idx
  {
  }

  /** `FindIndex` is a bijection from (line, place) to the sixteen cells, per direction. */
  lemma {:induction false} FindIndexBijection(d: int)
    requires IsDirection(d)
    ensures forall i, j :: 0 <= i < 4 && 0 <= j < 4 ==>
      FindIndex(i, j, d).Returns? && 0 <= FindIndex(i, j, d).value < 16 &&
      LineOf(FindIndex(i, j, d).value, d) == i && PlaceOf(FindIndex(i, j, d).value, d) == j
    ensures forall idx :: 0 <= idx < 16 ==>
      FindIndex(LineOf(idx, d), PlaceOf(idx, d), d) == Returns(idx)
  {
    forall i, j | 0 <= i < 4 && 0 <= j < 4 {
      IndexInverse(i, j, d);
    }
    forall idx | 0 <= idx < 16 {
      IndexOnto(idx, d);
    }
  }

  /** The four cells of line `i`, starting from the side the tiles move to. */
  function LineAt(board: seq<int>, i: int, d: int): (line: seq<int>)
    requires |board| == 16 && 0 <= i < 4 && IsDirection(d)
  {
    [board[Index(i, 0, d)], board[Index(i, 1, d)], board[Index(i, 2, d)], board[Index(i, 3, d)]]
  }

  /** The board with the first `n` cells of line `i` replaced by those of `line`. */
  function SetLine(board: seq<int>, i: int, d: int, line: seq<int>, n: int): (r: seq<int>)
    requires |board| == 16 && 0 <= i < 4 && IsDirection(d) && |line| == 4 && 0 <= n <= 4
    ensures |r| == 16
  {
    if n == 0 then board else SetLine(board, i, d, line, n - 1)[Index(i, n - 1, d) := line[n - 1]]
  }

  // ---------------------------------------------------------------- line specifications

  /** The tiles of a line, in order, without the empty cells. */
  function NonZeros(s: seq<int>): (t: seq<int>)
    ensures |t| <= |s|
  {
    if s == [] then [] else if s[0] == 0 then NonZeros(s[1..]) else [s[0]] + NonZeros(s[1..])
  }

  function Zeros(n: nat): (z: seq<int>)
    ensures |z| == n && forall k :: 0 <= k < n ==> z[k] == 0
  {
    seq(n, _ => 0)
  }

  /** The line after a slide: its tiles first, in order, then the empty cells. */
  function Compact(s: seq<int>): seq<int> {
    NonZeros(s) + Zeros(|s| - |NonZeros(s)|)
  }

  /** The standard 2048 rule on a line's tiles: each pair of equal neighbours, taken from
      the front, becomes one tile of twice the value; a tile joins at most once. */
  function Collapse(t: seq<int>): (c: seq<int>)
    ensures |c| <= |t|
  {
    if |t| >= 2 && t[0] == t[1] then [2 * t[0]] + Collapse(t[2..])
    else if t == [] then []
    else [t[0]] + Collapse(t[1..])
  }

  /** The first place at or after `k` holding a tile, or `|s|`. */
  function NextTile(s: seq<int>, k: nat): (n: nat)
    requires k <= |s|
    ensures k <= n <= |s| && (n < |s| ==> s[n] != 0)
    decreases |s| - k
  {
    if k == |s| || s[k] != 0 then k else NextTile(s, k + 1)
  }

  /** `Merge` with a `break` after the first tile met: from place `j` on, each tile joins
      the next tile behind it when the two are equal. Returns the new line and the number
      of joins. */
  function MergeFrom(s: seq<int>, j: nat): (r: (seq<int>, nat))
    ensures |r.0| == |s|
    decreases |s| - j
  {
    if j + 1 >= |s| then (s, 0)
    else if s[j] == 0 then MergeFrom(s, j + 1)
    else
      var k := NextTile(s, j + 1);
      if k < |s| && s[k] == s[j] then
        var r := MergeFrom(s[j := 2 * s[j]][k := 0], j + 2);
        (r.0, r.1 + 1)
      else MergeFrom(s, j + 1)
  }

  /** What one line becomes in a move: merged, then slid. */
  function Shifted(s: seq<int>): seq<int> {
    Compact(MergeFrom(s, 0).0)
  }

  function Sum(s: seq<int>): int {
    if s == [] then 0 else s[0] + Sum(s[1..])
  }

  /** Number of places below `n` where two lines differ. */
  function Differences(a: seq<int>, b: seq<int>, n: nat): (c: nat)
    requires n <= |a| && n <= |b|
    ensures c <= n
  {
    if n == 0 then 0 else Differences(a, b, n - 1) + (if a[n - 1] != b[n - 1] then 1 else 0)
  }

  // ---------------------------------------------------------------- the source's Merge

  /** The inner loop of `Merge` as written: tile `f` is compared with every later tile
      `k`, with no `break`, so it also joins a tile behind a different one, and joins
      again after its value has doubled. Returns the line, the joins and the loop's `j`. */
  function SweepAsWritten(s: seq<int>, f: nat, j: nat, k: nat): (r: (seq<int>, nat, nat))
    requires f < |s|
    ensures |r.0| == |s| && r.2 >= j
    decreases |s| - k
  {
    if k >= |s| then (s, 0, j)
    else if s[k] == 0 then SweepAsWritten(s, f, j, k + 1)
    else if s[f] == s[k] then
      var r := SweepAsWritten(s[f := 2 * s[f]][k := 0], f, j + 1, k + 1);
      (r.0, r.1 + 1, r.2)
    else SweepAsWritten(s, f, j, k + 1)
  }

  /** The outer loop of `Merge` as written, from place `j`. */
  function MergeAsWritten(s: seq<int>, j: nat): (r: (seq<int>, nat))
    ensures |r.0| == |s|
    decreases |s| - j
  {
    if j + 1 >= |s| then (s, 0)
    else if s[j] == 0 then MergeAsWritten(s, j + 1)
    else
      var w := SweepAsWritten(s, j, j, j + 1);
      var r := MergeAsWritten(w.0, w.2 + 1);
      (r.0, w.1 + r.1)
  }

  // ---------------------------------------------------------------- facts about lines

  lemma {:induction false} NonZerosAppend(a: seq<int>, b: seq<int>)
    ensures NonZeros(a + b) == NonZeros(a) + NonZeros(b)
  {
    if a != [] {
      assert (a + b)[0] == a[0] && (a + b)[1..] == a[1..] + b;
      NonZerosAppend(a[1..], b);
    } else {
      assert a + b == b;
    }
  }

  /** Every entry of `NonZeros(s)` is a tile. */
  lemma {:induction false} NonZerosAreTiles(s: seq<int>)
    ensures forall k :: 0 <= k < |NonZeros(s)| ==> NonZeros(s)[k] != 0
  {
    if s != [] {
      NonZerosAreTiles(s[1..]);
    }
  }

  /** Empty cells contribute nothing. */
  lemma {:induction false} NonZerosOfEmpty(s: seq<int>)
    requires forall k :: 0 <= k < |s| ==> s[k] == 0
    ensures NonZeros(s) == []
  {
    if s != [] {
      NonZerosOfEmpty(s[1..]);
    }
  }

  /** A line of tiles only is its own `NonZeros`. */
  lemma {:induction false} NonZerosOfTiles(s: seq<int>)
    requires forall k :: 0 <= k < |s| ==> s[k] != 0
    ensures NonZeros(s) == s
  {
    if s != [] {
      NonZerosOfTiles(s[1..]);
    }
  }

  /** Skipping a run of empty cells does not change the tiles that follow. */
  lemma {:induction false} NonZerosSkip(s: seq<int>, a: nat, b: nat)
    requires a <= b <= |s| && forall m :: a <= m < b ==> s[m] == 0
    ensures NonZeros(s[a..]) == NonZeros(s[b..])
  {
    assert s[a..] == s[a..b] + s[b..];
    NonZerosAppend(s[a..b], s[b..]);
    NonZerosOfEmpty(s[a..b]);
  }

  /** The places strictly between `k` and `NextTile(s, k)` are empty. */
  lemma {:induction false} NextTileSkips(s: seq<int>, k: nat)
    requires k <= |s|
    ensures forall m :: k <= m < NextTile(s, k) ==> s[m] == 0
    decreases |s| - k
  {
    if k < |s| && s[k] == 0 {
      NextTileSkips(s, k + 1);
    }
  }

  /** A slide keeps the tiles in order and puts every empty cell behind them. */
  lemma {:induction false} CompactSpec(s: seq<int>)
    ensures |Compact(s)| == |s|
    ensures NonZeros(Compact(s)) == NonZeros(s)
    ensures forall a, b :: 0 <= a < b < |s| && Compact(s)[a] == 0 ==> Compact(s)[b] == 0
  {
    var t := NonZeros(s);
    NonZerosAppend(t, Zeros(|s| - |t|));
    NonZerosAreTiles(s);
    NonZerosOfTiles(t);
    NonZerosOfEmpty(Zeros(|s| - |t|));
  }

  /** Sliding twice is sliding once. */
  lemma {:induction false} CompactIdempotent(s: seq<int>)
    ensures Compact(Compact(s)) == Compact(s)
  {
    CompactSpec(s);
  }

  lemma {:induction false} SumAppend(a: seq<int>, b: seq<int>)
    ensures Sum(a + b) == Sum(a) + Sum(b)
  {
    if a != [] {
      assert (a + b)[0] == a[0] && (a + b)[1..] == a[1..] + b;
      SumAppend(a[1..], b);
    } else {
      assert a + b == b;
    }
  }

  lemma {:induction false} SumUpdate(s: seq<int>, k: nat, x: int)
    requires k < |s|
    ensures Sum(s[k := x]) == Sum(s) - s[k] + x
  {
    if k > 0 {
      assert s[k := x][1..] == s[1..][k - 1 := x];
      SumUpdate(s[1..], k - 1, x);
    }
  }

  /** Joining two equal tiles `j` and `k` keeps the sum of the line. */
  lemma {:induction false} JoinSum(s: seq<int>, j: nat, k: nat)
    requires j < k < |s| && s[j] == s[k]
    ensures Sum(s[j := 2 * s[j]][k := 0]) == Sum(s)
  {
    SumUpdate(s, j, 2 * s[j]);
    SumUpdate(s[j := 2 * s[j]], k, 0);
  }

  lemma {:induction false} CountUpdate(s: seq<int>, k: nat, x: int)
    requires k < |s|
    ensures |NonZeros(s[k := x])| ==
      |NonZeros(s)| - (if s[k] != 0 then 1 else 0) + (if x != 0 then 1 else 0)
  {
    if k > 0 {
      assert s[k := x][1..] == s[1..][k - 1 := x];
      CountUpdate(s[1..], k - 1, x);
    }
  }

  // ---------------------------------------------------------------- what a merge does

  /** A line of at most one tile does not collapse. */
  lemma {:induction false} CollapseShort(t: seq<int>)
    requires |t| <= 1
    ensures Collapse(t) == t
  {
    if |t| == 1 {
      assert t[1..] == [];
    }
  }

  /** `NonZeros` of a line from place `j`: the tile at `j`, if any, then the rest. */
  lemma {:induction false} NonZerosFrom(s: seq<int>, j: nat)
    requires j < |s|
    ensures NonZeros(s[j..]) == (if s[j] == 0 then [] else [s[j]]) + NonZeros(s[j + 1..])
  {
    assert s[j..][0] == s[j] && s[j..][1..] == s[j + 1..];
  }

  /** `NonZeros` of a line up to place `j + 1`. */
  lemma {:induction false} NonZerosUpTo(s: seq<int>, j: nat)
    requires j < |s|
    ensures NonZeros(s[..j + 1]) == NonZeros(s[..j]) + (if s[j] == 0 then [] else [s[j]])
  {
    assert s[..j + 1] == s[..j] + [s[j]];
    NonZerosAppend(s[..j], [s[j]]);
    assert [s[j]][1..] == [];
  }

  /** Collapsing a line that starts with two equal tiles. */
  lemma {:induction false} CollapsePair(v: int, rest: seq<int>)
    ensures Collapse([v, v] + rest) == [2 * v] + Collapse(rest)
  {
    assert ([v, v] + rest)[2..] == rest;
  }

  /** Collapsing a line whose first tile differs from the next one. */
  lemma {:induction false} CollapseSingle(v: int, rest: seq<int>)
    requires rest == [] || rest[0] != v
    ensures Collapse([v] + rest) == [v] + Collapse(rest)
  {
    assert ([v] + rest)[1..] == rest;
  }

  /** After joining `j` and `k`, the line up to `j + 1` holds the joined tile last. */
  lemma {:induction false} JoinFront(s: seq<int>, j: nat, k: nat, t: seq<int>)
    requires j < k < |s| && s[j] != 0 && t == s[j := 2 * s[j]][k := 0]
    requires forall x :: j < x < k ==> s[x] == 0
    ensures NonZeros(t[..j + 2]) == NonZeros(s[..j]) + [2 * s[j]]
  {
    assert t[..j + 2] == s[..j] + [2 * s[j], 0];
    NonZerosAppend(s[..j], [2 * s[j], 0]);
    assert [2 * s[j], 0][1..] == [0] && [0][1..] == [];
  }

  /** After joining `j` and `k`, the line from `j + 2` holds the tiles behind `k`. */
  lemma {:induction false} JoinBack(s: seq<int>, j: nat, k: nat, t: seq<int>)
    requires j < k < |s| && t == s[j := 2 * s[j]][k := 0]
    requires forall x :: j < x < k ==> s[x] == 0
    ensures NonZeros(t[j + 2..]) == NonZeros(s[k + 1..])
  {
    NonZerosSkip(t, j + 2, k + 1);
    assert t[k + 1..] == s[k + 1..];
  }

  /** The tiles from `j` on, when the first two of them are `j` and `k`. */
  lemma {:induction false} JoinTiles(s: seq<int>, j: nat, k: nat)
    requires j < k < |s| && s[j] != 0 && s[k] == s[j]
    requires forall x :: j < x < k ==> s[x] == 0
    ensures NonZeros(s[j..]) == [s[j], s[j]] + NonZeros(s[k + 1..])
  {
    NonZerosFrom(s, j);
    NonZerosSkip(s, j + 1, k);
    NonZerosFrom(s, k);
  }

  /** The step of `MergeFrom` that joins tile `j` with the equal tile `k` behind it. */
  lemma {:induction false} JoinStep(s: seq<int>, j: nat, k: nat, t: seq<int>, m: seq<int>)
    requires j < k < |s| && s[j] != 0 && s[k] == s[j] && t == s[j := 2 * s[j]][k := 0]
    requires forall x :: j < x < k ==> s[x] == 0
    requires NonZeros(m) == NonZeros(t[..j + 2]) + Collapse(NonZeros(t[j + 2..]))
    ensures NonZeros(m) == NonZeros(s[..j]) + Collapse(NonZeros(s[j..]))
  {
    JoinFront(s, j, k, t);
    JoinBack(s, j, k, t);
    JoinTiles(s, j, k);
    JoinGlue(NonZeros(m), NonZeros(s[..j]), s[j], NonZeros(s[k + 1..]), NonZeros(s[j..]));
  }

  lemma {:induction false} JoinGlue(merged: seq<int>, front: seq<int>, v: int, rest: seq<int>, tiles: seq<int>)
    requires merged == (front + [2 * v]) + Collapse(rest)
    requires tiles == [v, v] + rest
    ensures merged == front + Collapse(tiles)
  {
    CollapsePair(v, rest);
  }

  /** The tiles from `j` on, when tile `j` is followed by the tiles from `k` on. */
  lemma {:induction false} KeepTiles(s: seq<int>, j: nat, k: nat)
    requires j < k <= |s| && s[j] != 0
    requires forall x :: j < x < k ==> s[x] == 0
    ensures NonZeros(s[j..]) == [s[j]] + NonZeros(s[j + 1..])
    ensures NonZeros(s[j + 1..]) == NonZeros(s[k..])
    ensures k < |s| && s[k] != 0 ==> NonZeros(s[k..])[0] == s[k]
    ensures k == |s| ==> NonZeros(s[k..]) == []
  {
    NonZerosFrom(s, j);
    NonZerosSkip(s, j + 1, k);
    if k < |s| {
      NonZerosFrom(s, k);
    } else {
      assert s[k..] == [];
    }
  }

  /** The step of `MergeFrom` that leaves tile `j` as it is: nothing or a different tile
      lies behind it. */
  lemma {:induction false} KeepStep(s: seq<int>, j: nat, k: nat, m: seq<int>)
    requires j < k <= |s| && s[j] != 0 && (k < |s| ==> s[k] != 0 && s[k] != s[j])
    requires forall x :: j < x < k ==> s[x] == 0
    requires NonZeros(m) == NonZeros(s[..j + 1]) + Collapse(NonZeros(s[j + 1..]))
    ensures NonZeros(m) == NonZeros(s[..j]) + Collapse(NonZeros(s[j..]))
  {
    NonZerosUpTo(s, j);
    KeepTiles(s, j, k);
    CollapseSingle(s[j], NonZeros(s[j + 1..]));
  }

  /** A merge keeps the tiles before place `j` and collapses those from `j` on: the
      standard 2048 rule. */
  lemma {:induction false} MergeNonZeros(s: seq<int>, j: nat)
    requires j <= |s|
    ensures NonZeros(MergeFrom(s, j).0) == NonZeros(s[..j]) + Collapse(NonZeros(s[j..]))
    decreases |s| - j
  {
    if j + 1 >= |s| {
      assert s == s[..j] + s[j..];
      NonZerosAppend(s[..j], s[j..]);
      CollapseShort(NonZeros(s[j..]));
    } else if s[j] == 0 {
      MergeNonZeros(s, j + 1);
      NonZerosUpTo(s, j);
      NonZerosFrom(s, j);
    } else {
      var k := NextTile(s, j + 1);
      NextTileSkips(s, j + 1);
      if k < |s| && s[k] == s[j] {
        MergeNonZeros(s[j := 2 * s[j]][k := 0], j + 2);
        JoinStep(s, j, k, s[j := 2 * s[j]][k := 0], MergeFrom(s, j).0);
      } else {
        MergeNonZeros(s, j + 1);
        KeepStep(s, j, k, MergeFrom(s, j).0);
      }
    }
  }

  /** Each join takes one tile off the line. */
  lemma {:induction false} MergeCount(s: seq<int>, j: nat)
    ensures |NonZeros(MergeFrom(s, j).0)| + MergeFrom(s, j).1 == |NonZeros(s)|
    decreases |s| - j
  {
    if j + 1 >= |s| {
    } else if s[j] == 0 {
      MergeCount(s, j + 1);
    } else {
      var k := NextTile(s, j + 1);
      if k < |s| && s[k] == s[j] {
        MergeCount(s[j := 2 * s[j]][k := 0], j + 2);
        CountUpdate(s, j, 2 * s[j]);
        CountUpdate(s[j := 2 * s[j]], k, 0);
      } else {
        MergeCount(s, j + 1);
      }
    }
  }

  /** A merge without joins leaves the line as it was. */
  lemma {:induction false} MergeNone(s: seq<int>, j: nat)
    requires MergeFrom(s, j).1 == 0
    ensures MergeFrom(s, j).0 == s
    decreases |s| - j
  {
    if j + 1 >= |s| {
    } else if s[j] == 0 {
      MergeNone(s, j + 1);
    } else {
      var k := NextTile(s, j + 1);
      if !(k < |s| && s[k] == s[j]) {
        MergeNone(s, j + 1);
      }
    }
  }

  /** A merge keeps the sum of the line's tiles. */
  lemma {:induction false} MergeSum(s: seq<int>, j: nat)
    ensures Sum(MergeFrom(s, j).0) == Sum(s)
    decreases |s| - j
  {
    if j + 1 >= |s| {
    } else if s[j] == 0 {
      MergeSum(s, j + 1);
    } else {
      var k := NextTile(s, j + 1);
      if k < |s| && s[k] == s[j] {
        MergeSum(s[j := 2 * s[j]][k := 0], j + 2);
        JoinSum(s, j, k);
      } else {
        MergeSum(s, j + 1);
      }
    }
  }

  /** One step of `MergeFrom` that joins tile `j` with tile `k`. */
  lemma {:induction false} MergeJoins(s: seq<int>, j: nat, k: nat)
    requires j + 1 < |s| && s[j] != 0 && k == NextTile(s, j + 1) && k < |s| && s[k] == s[j]
    ensures MergeFrom(s, j).0 == MergeFrom(s[j := 2 * s[j]][k := 0], j + 2).0
    ensures MergeFrom(s, j).1 == MergeFrom(s[j := 2 * s[j]][k := 0], j + 2).1 + 1
  {
  }

  /** One step of `MergeFrom` that leaves tile `j`, or the empty cell `j`, as it is. */
  lemma {:induction false} MergeKeeps(s: seq<int>, j: nat)
    requires j + 1 < |s|
    requires s[j] != 0 ==> NextTile(s, j + 1) == |s| || s[NextTile(s, j + 1)] != s[j]
    ensures MergeFrom(s, j) == MergeFrom(s, j + 1)
  {
  }

  /** A moved line is the collapsed tiles followed by empty cells. */
  lemma {:induction false} ShiftedSpec(s: seq<int>)
    ensures Shifted(s) == Collapse(NonZeros(s)) + Zeros(|s| - |Collapse(NonZeros(s))|)
    ensures Sum(Shifted(s)) == Sum(s)
  {
    MergeNonZeros(s, 0);
    assert s[..0] == [] && s[0..] == s;
    MergeSum(s, 0);
    var m := MergeFrom(s, 0).0;
    SumAppend(NonZeros(m), Zeros(|m| - |NonZeros(m)|));
    SumOfTiles(m);
    SumOfEmpty(Zeros(|m| - |NonZeros(m)|));
  }

  lemma {:induction false} SumOfTiles(s: seq<int>)
    ensures Sum(NonZeros(s)) == Sum(s)
  {
    if s != [] {
      SumOfTiles(s[1..]);
      if s[0] != 0 {
        assert ([s[0]] + NonZeros(s[1..]))[1..] == NonZeros(s[1..]);
      }
    }
  }

  lemma {:induction false} SumOfEmpty(s: seq<int>)
    requires forall k :: 0 <= k < |s| ==> s[k] == 0
    ensures Sum(s) == 0
  {
    if s != [] {
      SumOfEmpty(s[1..]);
    }
  }

  // ---------------------------------------------------------------- the as-written merge

  lemma {:induction false} SweepSum(s: seq<int>, f: nat, j: nat, k: nat)
    requires f < k
    requires f < |s|
    ensures Sum(SweepAsWritten(s, f, j, k).0) == Sum(s)
    decreases |s| - k
  {
    if k >= |s| {
    } else if s[k] == 0 {
      SweepSum(s, f, j, k + 1);
    } else if s[f] == s[k] {
      SweepSum(s[f := 2 * s[f]][k := 0], f, j + 1, k + 1);
      JoinSum(s, f, k);
    } else {
      SweepSum(s, f, j, k + 1);
    }
  }

  /** The source's `Merge` keeps the sum of the line's tiles too. */
  lemma {:induction false} MergeAsWrittenSum(s: seq<int>, j: nat)
    ensures Sum(MergeAsWritten(s, j).0) == Sum(s)
    decreases |s| - j
  {
    if j + 1 >= |s| {
    } else if s[j] == 0 {
      MergeAsWrittenSum(s, j + 1);
    } else {
      var w := SweepAsWritten(s, j, j, j + 1);
      SweepSum(s, j, j, j + 1);
      MergeAsWrittenSum(w.0, w.2 + 1);
    }
  }

  /** As written, `Merge` joins the two 2s of [2, 4, 2, 0] across the 4, and joins the
      first tile of [2, 2, 4, 0] twice; the standard rule leaves the first line alone and
      makes [4, 4] of the second. */
  lemma {:induction false} MergeAsWrittenJoinsAcross()
    ensures MergeAsWritten([2, 4, 2, 0], 0).0 == [4, 4, 0, 0]
    ensures MergeFrom([2, 4, 2, 0], 0).0 == [2, 4, 2, 0]
    ensures MergeAsWritten([2, 2, 4, 0], 0).0 == [8, 0, 0, 0]
    ensures Shifted([2, 2, 4, 0]) == [4, 4, 0, 0]
  {
    var a := [2, 4, 2, 0];
    assert SweepAsWritten(a, 0, 0, 1) == SweepAsWritten(a, 0, 0, 2);
    assert a[0 := 4][2 := 0] == [4, 4, 0, 0];
    assert SweepAsWritten(a, 0, 0, 2) == ([4, 4, 0, 0], 1, 1);
    assert MergeAsWritten([4, 4, 0, 0], 2) == ([4, 4, 0, 0], 0);
    assert NextTile(a, 1) == 1;
    assert MergeFrom(a, 0) == MergeFrom(a, 1);
    assert NextTile(a, 2) == 2;
    assert MergeFrom(a, 1) == MergeFrom(a, 2);
    assert NextTile(a, 3) == 4;
    var b := [2, 2, 4, 0];
    assert b[0 := 4][1 := 0] == [4, 0, 4, 0];
    assert [4, 0, 4, 0][0 := 8][2 := 0] == [8, 0, 0, 0];
    assert SweepAsWritten(b, 0, 0, 1) == ([8, 0, 0, 0], 2, 2);
    assert NextTile(b, 1) == 1;
    assert b[0 := 4][1 := 0] == [4, 0, 4, 0];
    assert MergeFrom([4, 0, 4, 0], 2) == ([4, 0, 4, 0], 0);
    assert NonZeros([4, 0, 4, 0]) == [4, 4];
  }

  // ---------------------------------------------------------------- lines back into the board

  /** A cell of a partly written line: the new value below place `n`, the old one above. */
  lemma {:induction false} SetLineAt(b: seq<int>, i: int, d: int, line: seq<int>, n: int, k: int)
    requires |b| == 16 && 0 <= i < 4 && IsDirection(d) && |line| == 4 && 0 <= n <= 4 && 0 <= k < 4
    ensures 0 <= Index(i, k, d) < 16
    ensures SetLine(b, i, d, line, n)[Index(i, k, d)] == if k < n then line[k] else b[Index(i, k, d)]
  {
    if n > 0 {
      SetLineAt(b, i, d, line, n - 1, k);
    }
  }

  /** A cell off line `i` keeps its value. */
  lemma {:induction false} SetLineOff(b: seq<int>, i: int, d: int, line: seq<int>, n: int, idx: int)
    requires |b| == 16 && 0 <= i < 4 && IsDirection(d) && |line| == 4 && 0 <= n <= 4
    requires 0 <= idx < 16 && LineOf(idx, d) != i
    ensures SetLine(b, i, d, line, n)[idx] == b[idx]
  {
    if n > 0 {
      IndexInverse(i, n - 1, d);
      SetLineOff(b, i, d, line, n - 1, idx);
    }
  }

  /** Two boards that agree on the cells of line `i` and off it are the same. */
  lemma {:induction false} SameBoard(x: seq<int>, y: seq<int>, i: int, d: int)
    requires |x| == 16 && |y| == 16 && 0 <= i < 4 && IsDirection(d)
    requires forall k :: 0 <= k < 4 ==> x[Index(i, k, d)] == y[Index(i, k, d)]
    requires forall idx :: 0 <= idx < 16 && LineOf(idx, d) != i ==> x[idx] == y[idx]
    ensures x == y
  {
    forall idx | 0 <= idx < 16
      ensures x[idx] == y[idx]
    {
      IndexOnto(idx, d);
      if LineOf(idx, d) == i {
        assert x[Index(i, PlaceOf(idx, d), d)] == y[Index(i, PlaceOf(idx, d), d)];
      }
    }
  }

  /** Changing one cell of a written line is writing the changed line. */
  lemma {:induction false} SetLineUpdate(b: seq<int>, i: int, d: int, line: seq<int>, k: int, x: int)
    requires |b| == 16 && 0 <= i < 4 && IsDirection(d) && |line| == 4 && 0 <= k < 4
    ensures 0 <= Index(i, k, d) < 16
    ensures SetLine(b, i, d, line, 4)[Index(i, k, d) := x] == SetLine(b, i, d, line[k := x], 4)
  {
    IndexInverse(i, k, d);
    var written := SetLine(b, i, d, line, 4)[Index(i, k, d) := x];
    var next := SetLine(b, i, d, line[k := x], 4);
    forall k' | 0 <= k' < 4
      ensures written[Index(i, k', d)] == next[Index(i, k', d)]
    {
      SetLineAt(b, i, d, line, 4, k');
      SetLineAt(b, i, d, line[k := x], 4, k');
      IndexInverse(i, k', d);
    }
    forall idx | 0 <= idx < 16 && LineOf(idx, d) != i
      ensures written[idx] == next[idx]
    {
      SetLineOff(b, i, d, line, 4, idx);
      SetLineOff(b, i, d, line[k := x], 4, idx);
    }
    SameBoard(written, next, i, d);
  }

  /** Writing line `i` with what it holds changes nothing. */
  lemma {:induction false} SetLineSame(b: seq<int>, i: int, d: int)
    requires |b| == 16 && 0 <= i < 4 && IsDirection(d)
    ensures SetLine(b, i, d, LineAt(b, i, d), 4) == b
  {
    var line := LineAt(b, i, d);
    var written := SetLine(b, i, d, line, 4);
    forall k | 0 <= k < 4
      ensures written[Index(i, k, d)] == b[Index(i, k, d)]
    {
      SetLineAt(b, i, d, line, 4, k);
    }
    forall idx | 0 <= idx < 16 && LineOf(idx, d) != i
      ensures written[idx] == b[idx]
    {
      SetLineOff(b, i, d, line, 4, idx);
    }
    SameBoard(written, b, i, d);
  }

  /** A written line reads back. */
  lemma {:induction false} LineAtSet(b: seq<int>, i: int, d: int, line: seq<int>)
    requires |b| == 16 && 0 <= i < 4 && IsDirection(d) && |line| == 4
    ensures LineAt(SetLine(b, i, d, line, 4), i, d) == line
  {
    SetLineAt(b, i, d, line, 4, 0);
    SetLineAt(b, i, d, line, 4, 1);
    SetLineAt(b, i, d, line, 4, 2);
    SetLineAt(b, i, d, line, 4, 3);
  }

  /** Writing line `i` leaves every other line as it was. */
  lemma {:induction false} LineAtOther(b: seq<int>, i: int, d: int, line: seq<int>, i': int)
    requires |b| == 16 && 0 <= i < 4 && IsDirection(d) && |line| == 4 && 0 <= i' < 4 && i' != i
    ensures LineAt(SetLine(b, i, d, line, 4), i', d) == LineAt(b, i', d)
  {
    forall k | 0 <= k < 4
      ensures SetLine(b, i, d, line, 4)[Index(i', k, d)] == b[Index(i', k, d)]
    {
      IndexInverse(i', k, d);
      SetLineOff(b, i, d, line, 4, Index(i', k, d));
    }
  }

  /** The second of two writes of the same line wins. */
  lemma {:induction false} SetLineTwice(b: seq<int>, i: int, d: int, first: seq<int>, second: seq<int>)
    requires |b| == 16 && 0 <= i < 4 && IsDirection(d) && |first| == 4 && |second| == 4
    ensures SetLine(SetLine(b, i, d, first, 4), i, d, second, 4) == SetLine(b, i, d, second, 4)
  {
    var once := SetLine(b, i, d, first, 4);
    var twice := SetLine(once, i, d, second, 4);
    var direct := SetLine(b, i, d, second, 4);
    forall k | 0 <= k < 4
      ensures twice[Index(i, k, d)] == direct[Index(i, k, d)]
    {
      SetLineAt(once, i, d, second, 4, k);
      SetLineAt(b, i, d, second, 4, k);
    }
    forall idx | 0 <= idx < 16 && LineOf(idx, d) != i
      ensures twice[idx] == direct[idx]
    {
      SetLineOff(once, i, d, second, 4, idx);
      SetLineOff(b, i, d, first, 4, idx);
      SetLineOff(b, i, d, second, 4, idx);
    }
    SameBoard(twice, direct, i, d);
  }

  // ---------------------------------------------------------------- a whole move

  /** The board after lines 0..n-1 have been merged and slid. */
  function Moved(b: seq<int>, d: int, n: int): (r: seq<int>)
    requires |b| == 16 && IsDirection(d) && 0 <= n <= 4
    ensures |r| == 16
  {
    if n == 0 then b else SetLine(Moved(b, d, n - 1), n - 1, d, Shifted(LineAt(b, n - 1, d)), 4)
  }

  /** Some line below `n` changes in the move. */
  predicate Changed(b: seq<int>, d: int, n: int)
    requires |b| == 16 && IsDirection(d) && 0 <= n <= 4
  {
    n > 0 && (Changed(b, d, n - 1) || Shifted(LineAt(b, n - 1, d)) != LineAt(b, n - 1, d))
  }

  /** A line that changes, when some line below `n` does. */
  lemma {:induction false} ChangedLine(b: seq<int>, d: int, n: int) returns (i: int)
    requires |b| == 16 && IsDirection(d) && 0 <= n <= 4 && Changed(b, d, n)
    ensures 0 <= i < n && Shifted(LineAt(b, i, d)) != LineAt(b, i, d)
  {
    if Shifted(LineAt(b, n - 1, d)) != LineAt(b, n - 1, d) {
      i := n - 1;
    } else {
      i := ChangedLine(b, d, n - 1);
    }
  }

  /** Lines not reached yet are as they were. */
  lemma {:induction false} MovedKeeps(b: seq<int>, d: int, n: int, i: int)
    requires |b| == 16 && IsDirection(d) && 0 <= n <= i < 4
    ensures LineAt(Moved(b, d, n), i, d) == LineAt(b, i, d)
  {
    if n > 0 {
      var line := Shifted(LineAt(b, n - 1, d));
      var before := Moved(b, d, n - 1);
      assert Moved(b, d, n) == SetLine(before, n - 1, d, line, 4);
      MovedKeeps(b, d, n - 1, i);
      LineAtOther(before, n - 1, d, line, i);
    }
  }

  /** Lines already done hold their moved value. */
  lemma {:induction false} MovedDone(b: seq<int>, d: int, n: int, i: int)
    requires |b| == 16 && IsDirection(d) && 0 <= i < n <= 4
    ensures LineAt(Moved(b, d, n), i, d) == Shifted(LineAt(b, i, d))
  {
    if i == n - 1 {
      LineAtSet(Moved(b, d, i), i, d, Shifted(LineAt(b, i, d)));
    } else {
      MovedDone(b, d, n - 1, i);
      LineAtOther(Moved(b, d, n - 1), n - 1, d, Shifted(LineAt(b, n - 1, d)), i);
    }
  }

  /** After a move, every line is its own line merged and slid. */
  lemma {:induction false} MovedLines(b: seq<int>, d: int)
    requires |b| == 16 && IsDirection(d)
    ensures forall i :: 0 <= i < 4 ==> LineAt(Moved(b, d, 4), i, d) == Shifted(LineAt(b, i, d))
  {
    forall i | 0 <= i < 4
      ensures LineAt(Moved(b, d, 4), i, d) == Shifted(LineAt(b, i, d))
    {
      MovedDone(b, d, 4, i);
    }
  }

  /** Without a changed line, the first `n` steps leave the board alone. */
  lemma {:induction false} UnchangedMoves(b: seq<int>, d: int, n: int)
    requires |b| == 16 && IsDirection(d) && 0 <= n <= 4 && !Changed(b, d, n)
    ensures Moved(b, d, n) == b
  {
    if n > 0 {
      UnchangedMoves(b, d, n - 1);
      SetLineSame(b, n - 1, d);
    }
  }

  /** The board changes exactly when one of its lines does. */
  lemma {:induction false} MovedChanges(b: seq<int>, d: int)
    requires |b| == 16 && IsDirection(d)
    ensures Moved(b, d, 4) != b <==> Changed(b, d, 4)
  {
    if Changed(b, d, 4) {
      var i := ChangedLine(b, d, 4);
      MovedDone(b, d, 4, i);
    } else {
      UnchangedMoves(b, d, 4);
    }
  }

  // ---------------------------------------------------------------- when a line changes

  lemma {:induction false} DifferencesNone(a: seq<int>, b: seq<int>, n: nat)
    requires n <= |a| && n <= |b|
    ensures Differences(a, b, n) == 0 <==> forall k :: 0 <= k < n ==> a[k] == b[k]
  {
    if n > 0 {
      DifferencesNone(a, b, n - 1);
    }
  }

  /** A line that keeps its length through `NonZeros` has no empty cell. */
  lemma {:induction false} NonZerosFull(s: seq<int>)
    requires |NonZeros(s)| == |s|
    ensures NonZeros(s) == s
  {
    if s != [] {
      NonZerosFull(s[1..]);
    }
  }

  /** A collapse that keeps the length joins nothing. */
  lemma {:induction false} CollapseFull(t: seq<int>)
    requires |Collapse(t)| == |t|
    ensures Collapse(t) == t
  {
    if !(|t| >= 2 && t[0] == t[1]) && t != [] {
      CollapseFull(t[1..]);
    }
  }

  /** The first collapsed tile is a tile. */
  lemma {:induction false} CollapseFront(t: seq<int>)
    requires t != [] && t[0] != 0
    ensures Collapse(t) != [] && Collapse(t)[0] != 0
  {
  }

  /** A move changes a line exactly when `Merge` joins something or `Slide` moves a cell:
      the count `Move` adds up for the line is positive exactly when the line changes. */
  lemma {:induction false} LineCount(s: seq<int>)
    requires |s| == 4
    ensures MergeFrom(s, 0).1 + Differences(MergeFrom(s, 0).0, Compact(MergeFrom(s, 0).0), 4) > 0
      <==> Shifted(s) != s
  {
    var m := MergeFrom(s, 0);
    CompactSpec(m.0);
    DifferencesNone(m.0, Compact(m.0), 4);
    if m.1 > 0 {
      MergeCount(s, 0);
      assert |NonZeros(Shifted(s))| < |NonZeros(s)|;
    } else {
      MergeNone(s, 0);
      if Compact(s) == s {
        assert Differences(m.0, Compact(m.0), 4) == 0;
      } else {
        var k :| 0 <= k < 4 && Compact(s)[k] != s[k];
      }
    }
  }

  /** A line that changes in a move ends with an empty cell. */
  lemma {:induction false} ChangedLineEndsEmpty(s: seq<int>)
    requires |s| == 4 && Shifted(s) != s
    ensures Shifted(s)[3] == 0
  {
    ShiftedSpec(s);
    var c := Collapse(NonZeros(s));
    if |c| == 4 {
      NonZerosFull(s);
      CollapseFull(NonZeros(s));
    }
  }

  /** A line holding a tile still starts with one after the move. */
  lemma {:induction false} FrontStays(s: seq<int>)
    requires |s| == 4 && NonZeros(s) != []
    ensures Shifted(s)[0] != 0
  {
    ShiftedSpec(s);
    NonZerosAreTiles(s);
    CollapseFront(NonZeros(s));
  }

  // ---------------------------------------------------------------- the new tile

  /** The empty cells at the far end of lines 0..n-1, in line order: where `PutRandomTwo`
      may place the new 2. */
  function EmptyEnds(b: seq<int>, d: int, n: int): seq<int>
    requires |b| == 16 && IsDirection(d) && 0 <= n <= 4
  {
    if n == 0 then []
    else EmptyEnds(b, d, n - 1) + (if b[Index(n - 1, 3, d)] == 0 then [Index(n - 1, 3, d)] else [])
  }

  /** A cell is a candidate exactly when it is empty and lies at the far end of a line. */
  lemma {:induction false} EmptyEndsSpec(b: seq<int>, d: int, n: int, c: int)
    requires |b| == 16 && IsDirection(d) && 0 <= n <= 4
    ensures c in EmptyEnds(b, d, n) <==>
      0 <= c < 16 && b[c] == 0 && LineOf(c, d) < n && PlaceOf(c, d) == 3
  {
    if n > 0 {
      EmptyEndsSpec(b, d, n - 1, c);
      IndexInverse(n - 1, 3, d);
      if 0 <= c < 16 {
        IndexOnto(c, d);
      }
    }
  }

  /** What `PutRandomTwo` does: with no candidate the board stays as it is, otherwise one
      candidate, whichever the random draw picks, becomes 2. */
  predicate Spawned(before: seq<int>, after: seq<int>, d: int)
    requires |before| == 16 && IsDirection(d)
  {
    if EmptyEnds(before, d, 4) == [] then after == before
    else exists c :: c in EmptyEnds(before, d, 4) && 0 <= c < 16 && after == before[c := 2]
  }

  /** After a move that changed the board there is always a candidate: a changed line
      ends with an empty cell. */
  lemma {:induction false} SpawnAlways(b: seq<int>, d: int)
    requires |b| == 16 && IsDirection(d) && Moved(b, d, 4) != b
    ensures EmptyEnds(Moved(b, d, 4), d, 4) != []
  {
    MovedChanges(b, d);
    var i := ChangedLine(b, d, 4);
    MovedDone(b, d, 4, i);
    ChangedLineEndsEmpty(LineAt(b, i, d));
    IndexInverse(i, 3, d);
    EmptyEndsSpec(Moved(b, d, 4), d, 4, Index(i, 3, d));
  }

  /** The cell `PutRandomTwo` tries for line `i` as written: `Math.Abs(4 / direction) * i
      + Math.Abs(direction) * 3`. */
  function SpawnCellAsWritten(d: int, i: int): int
    requires d != 0
  {
    Abs(Div(4, d)) * i + Abs(d) * 3
  }

  /** As written, the candidates are the far end of the lines for left and up, but the
      front, where the tiles pile up, for right and down. */
  lemma {:induction false} SpawnCellsAsWritten(d: int, i: int)
    requires IsDirection(d) && 0 <= i < 4
    ensures d < 0 ==> SpawnCellAsWritten(d, i) == Index(i, 3, d)
    ensures d > 0 ==> SpawnCellAsWritten(d, i) == Index(i, 0, d)
  {
  }

  /** The first line of the board below, read from the right, slides. */
  lemma SlidesRight()
    ensures Shifted([4, 0, 0, 2]) == [4, 2, 0, 0]
  {
    assert NextTile([4, 0, 0, 2], 1) == 3;
    assert MergeFrom([4, 0, 0, 2], 0) == MergeFrom([4, 0, 0, 2], 1);
    assert MergeFrom([4, 0, 0, 2], 1) == ([4, 0, 0, 2], 0);
    assert NonZeros([4, 0, 0, 2]) == [4, 2];
  }

  /** Moving this board right changes it, yet every cell the source tries afterwards holds
      a tile, so no 2 appears; the far ends hold an empty cell. */
  lemma {:induction false} SpawnAsWrittenMisses(b: seq<int>)
    requires b == [2, 0, 0, 4, 2, 4, 8, 16, 4, 8, 16, 32, 8, 16, 32, 64]
    ensures Moved(b, 1, 4) != b
    ensures forall i :: 0 <= i < 4 ==> Moved(b, 1, 4)[SpawnCellAsWritten(1, i)] != 0
    ensures EmptyEnds(Moved(b, 1, 4), 1, 4) != []
  {
    MovedLines(b, 1);
    var first := LineAt(b, 0, 1);
    assert first == [4, 0, 0, 2];
    SlidesRight();
    assert LineAt(Moved(b, 1, 4), 0, 1) != first;
    forall i | 0 <= i < 4
      ensures Moved(b, 1, 4)[SpawnCellAsWritten(1, i)] != 0
    {
      SpawnCellsAsWritten(1, i);
      var line := LineAt(b, i, 1);
      assert line[0] != 0;
      assert NonZeros(line) != [];
      FrontStays(line);
    }
    SpawnAlways(b, 1);
  }

  /** One line of `Move`: `Merge` then `Slide` on line `i` of the board after lines
      0..i-1 moves the board one line further, and the two counts add up to a positive
      number exactly when the line changes. */
  lemma {:induction false} MoveStep(b: seq<int>, d: int, i: int, before: seq<int>, middle: seq<int>,
                                    after: seq<int>, merged: int, slid: int)
    requires |b| == 16 && IsDirection(d) && 0 <= i < 4
    requires before == Moved(b, d, i) && LineAt(before, i, d) == LineAt(b, i, d)
    requires middle == SetLine(before, i, d, MergeFrom(LineAt(before, i, d), 0).0, 4)
    requires merged == MergeFrom(LineAt(before, i, d), 0).1
    requires after == SetLine(middle, i, d, Compact(LineAt(middle, i, d)), 4)
    requires slid == Differences(LineAt(middle, i, d), Compact(LineAt(middle, i, d)), 4)
    ensures after == Moved(b, d, i + 1)
    ensures merged >= 0 && slid >= 0
    ensures merged + slid > 0 <==> Shifted(LineAt(b, i, d)) != LineAt(b, i, d)
  {
    var line := LineAt(b, i, d);
    var m := MergeFrom(line, 0).0;
    LineAtSet(before, i, d, m);
    SetLineTwice(before, i, d, m, Compact(m));
    LineCount(line);
  }

  /** An empty board with a 2 put on two different cells holds two tiles, both 2. */
  lemma {:induction false} TwoTiles(empty: seq<int>, c: int, c': int, b: seq<int>)
    requires empty == Zeros(16) && 0 <= c < 16 && 0 <= c' < 16 && c != c'
    requires b == empty[c := 2][c' := 2]
    ensures |NonZeros(b)| == 2
    ensures forall k :: 0 <= k < 16 ==> b[k] == 0 || b[k] == 2
  {
    NonZerosOfEmpty(empty);
    CountUpdate(empty, c, 2);
    CountUpdate(empty[c := 2], c', 2);
  }

  /** Writing a tile into the first empty cell after `tiles`. */
  lemma {:induction false} PlaceTile(tiles: seq<int>, x: int, m: int)
    requires m >= 1
    ensures (tiles + Zeros(m))[|tiles| := x] == (tiles + [x]) + Zeros(m - 1)
  {
  }

  // ---------------------------------------------------------------- the board as text

  /** One cell of `Board`: the number, then a space. */
  function CellText(x: int): string {
    IntToString(x) + " "
  }

  /** The first `n` cells of row `i`. */
  function CellsText(b: seq<int>, i: int, n: int): string
    requires |b| == 16 && 0 <= i < 4 && 0 <= n <= 4
  {
    if n == 0 then "" else CellsText(b, i, n - 1) + CellText(b[i * 4 + n - 1])
  }

  /** The first `n` rows, each ended by a line break. */
  function RowsText(b: seq<int>, n: int): string
    requires |b| == 16 && 0 <= n <= 4
  {
    if n == 0 then "" else RowsText(b, n - 1) + (CellsText(b, n - 1, 4) + "\n")
  }

  lemma {:induction false} CellsStep(b: seq<int>, i: int, j: int, rows: string)
    requires |b| == 16 && 0 <= i < 4 && 0 <= j < 4
    ensures rows + CellsText(b, i, j + 1) == (rows + CellsText(b, i, j)) + CellText(b[i * 4 + j])
  {
    var front, cell := CellsText(b, i, j), CellText(b[i * 4 + j]);
    assert CellsText(b, i, j + 1) == front + cell;
    Associative(rows, front, cell);
  }

  lemma Associative(a: string, b: string, c: string)
    ensures a + (b + c) == (a + b) + c
  {
  }

  lemma {:induction false} RowsStep(b: seq<int>, i: int)
    requires |b| == 16 && 0 <= i < 4
    ensures RowsText(b, i + 1) == (RowsText(b, i) + CellsText(b, i, 4)) + "\n"
  {
  }

  function Breaks(s: string): nat {
    if s == [] then 0 else (if s[0] == '\n' then 1 else 0) + Breaks(s[1..])
  }

  lemma {:induction false} BreaksAppend(a: string, b: string)
    ensures Breaks(a + b) == Breaks(a) + Breaks(b)
  {
    if a != [] {
      assert (a + b)[0] == a[0] && (a + b)[1..] == a[1..] + b;
      BreaksAppend(a[1..], b);
    } else {
      assert a + b == b;
    }
  }

  lemma {:induction false} NoBreaks(s: string)
    requires forall k :: 0 <= k < |s| ==> s[k] != '\n'
    ensures Breaks(s) == 0
  {
    if s != [] {
      NoBreaks(s[1..]);
    }
  }

  /** A number and its space hold no line break. */
  lemma CellHasNoBreak(x: int)
    ensures Breaks(CellText(x)) == 0
  {
    var t := CellText(x);
    forall k | 0 <= k < |t|
      ensures t[k] != '\n'
    {
      if x < 0 {
        assert t == "-" + NatToString(-x) + " ";
      } else {
        assert t == NatToString(x) + " ";
      }
    }
    NoBreaks(t);
  }

  lemma {:induction false} CellsHaveNoBreak(b: seq<int>, i: int, n: int)
    requires |b| == 16 && 0 <= i < 4 && 0 <= n <= 4
    ensures Breaks(CellsText(b, i, n)) == 0
  {
    if n > 0 {
      CellsHaveNoBreak(b, i, n - 1);
      CellHasNoBreak(b[i * 4 + n - 1]);
      BreaksAppend(CellsText(b, i, n - 1), CellText(b[i * 4 + n - 1]));
    }
  }

  /** `Board` has one line per row: `n` rows hold `n` line breaks, and the text ends with one. */
  lemma {:induction false} RowsLines(b: seq<int>, n: int)
    requires |b| == 16 && 0 <= n <= 4
    ensures Breaks(RowsText(b, n)) == n
    ensures n > 0 ==> RowsText(b, n)[|RowsText(b, n)| - 1] == '\n'
  {
    if n > 0 {
      RowsLines(b, n - 1);
      CellsHaveNoBreak(b, n - 1, 4);
      BreaksAppend(CellsText(b, n - 1, 4), "\n");
      BreaksAppend(RowsText(b, n - 1), CellsText(b, n - 1, 4) + "\n");
    }
  }

  // ---------------------------------------------------------------- the game

  /** `W2048`: sixteen cells, row by row, and the number of moves made. */
  class Game {
    const squares: array<int>
    var moves: int

    ghost predicate Valid() {
      squares.Length == 16
    }

    /** A new game: an empty board with two tiles, both 2, one in the right column and
        one in the bottom row. */
    constructor ()
      ensures Valid() && fresh(squares) && moves == 0
      ensures |NonZeros(squares[..])| == 2
      ensures forall k :: 0 <= k < 16 ==> squares[k] == 0 || squares[k] == 2
    {
      squares := new int[16](_ => 0);
      moves := 0;
      new;
      ghost var empty := squares[..];
      assert empty == Zeros(16);
      EmptyEndsSpec(empty, -1, 4, 3);
      PutRandomTwo(-1);
      ghost var first := squares[..];
      ghost var c :| c in EmptyEnds(empty, -1, 4) && 0 <= c < 16 && first == empty[c := 2];
      EmptyEndsSpec(first, -4, 4, 12);
      EmptyEndsSpec(first, -4, 4, 13);
      PutRandomTwo(-4);
      ghost var c' :| c' in EmptyEnds(first, -4, 4) && 0 <= c' < 16 && squares[..] == first[c' := 2];
      EmptyEndsSpec(first, -4, 4, c');
      TwoTiles(empty, c, c', squares[..]);
    }

    /** The indexer: the cell's value, or -1 outside 0..15. */
    function Get(index: int): (r: int)
      requires Valid()
      reads squares
      ensures 0 <= index < 16 ==> r == squares[index]
      ensures !(0 <= index < 16) ==> r == -1
    {
      if index < 0 || 15 < index then -1 else squares[index]
    }

    /** `Board`: the rows top to bottom, each cell's number followed by a space and each
        row by a line break. */
    method Board() returns (board: string)
      requires Valid()
      ensures board == RowsText(squares[..], 4)
    {
      board := "";
      for i := 0 to 4
        invariant board == RowsText(squares[..], i)
      {
        board := AppendRow(board, i);
        RowsStep(squares[..], i);
        board := board + "\n";
      }
    }

    /** The inner loop of `Board`: the cells of row `i` appended to `board`. */
    method AppendRow(board: string, i: int) returns (r: string)
      requires Valid() && 0 <= i < 4
      ensures r == board + CellsText(squares[..], i, 4)
    {
      r := board;
      for j := 0 to 4
        invariant r == board + CellsText(squares[..], i, j)
      {
        CellsStep(squares[..], i, j, board);
        r := r + CellText(squares[i * 4 + j]);
      }
    }

    /** `Has2048`: some cell holds 2048. */
    method Has2048() returns (b: bool)
      requires Valid()
      ensures b <==> 2048 in squares[..]
    {
      for i := 0 to 16
        invariant forall k :: 0 <= k < i ==> squares[k] != 2048
      {
        if squares[i] == 2048 {
          return true;
        }
      }
      return false;
    }

    /** `PutRandomTwo`: the empty cells at the far end of the four lines are collected in
        line order, and when there is one, a 2 goes on the one the random draw picks (a
        choice here). */
    method PutRandomTwo(d: int)
      requires Valid() && IsDirection(d)
      modifies squares
      ensures Spawned(old(squares[..]), squares[..], d)
    {
      var empty: seq<int> := [];
      for i := 0 to 4
        invariant empty == EmptyEnds(squares[..], d, i)
      {
        var index := Index(i, 3, d);
        if squares[index] == 0 {
          empty := empty + [index];
        }
      }
      if |empty| > 0 {
        var k :| 0 <= k < |empty|;
        ghost var before := squares[..];
        EmptyEndsSpec(before, d, 4, empty[k]);
        squares[empty[k]] := 2;
        assert empty[k] in EmptyEnds(before, d, 4) && squares[..] == before[empty[k] := 2];
      }
    }

    /** `Slide`: line `i` is read, put through `OrderByZero` and written back cell by cell;
        the result counts the cells that changed. A line number outside 0..3 does nothing. */
    method Slide(i: int, d: int) returns (count: int)
      requires Valid() && IsDirection(d)
      modifies squares
      ensures 0 <= i < 4 ==>
        squares[..] == SetLine(old(squares[..]), i, d, Compact(LineAt(old(squares[..]), i, d)), 4)
      ensures 0 <= i < 4 ==>
        count == Differences(LineAt(old(squares[..]), i, d), Compact(LineAt(old(squares[..]), i, d)), 4)
      ensures !(0 <= i < 4) ==> squares[..] == old(squares[..]) && count == 0
    {
      if i < 0 || i > 3 {
        return 0;
      }
      var values := ReadLine(i, d);
      values := OrderByZero(values);
      count := WriteLine(i, d, values);
    }

    /** The first loop of `Slide`: line `i` copied into a new array. */
    method ReadLine(i: int, d: int) returns (values: array<int>)
      requires Valid() && 0 <= i < 4 && IsDirection(d)
      ensures fresh(values) && values[..] == LineAt(squares[..], i, d)
    {
      values := new int[4];
      for j := 0 to 4
        invariant forall k :: 0 <= k < j ==> values[k] == squares[Index(i, k, d)]
      {
        values[j] := squares[Index(i, j, d)];
      }
    }

    /** The second loop of `Slide`: every cell of line `i` that differs from `values` is
        overwritten and counted. */
    method WriteLine(i: int, d: int, values: array<int>) returns (count: int)
      requires Valid() && 0 <= i < 4 && IsDirection(d) && values.Length == 4 && values != squares
      modifies squares
      ensures squares[..] == SetLine(old(squares[..]), i, d, values[..], 4)
      ensures count == Differences(LineAt(old(squares[..]), i, d), values[..], 4)
    {
      count := 0;
      ghost var b := squares[..];
      ghost var line := LineAt(b, i, d);
      ghost var vals := values[..];
      for j := 0 to 4
        invariant values[..] == vals
        invariant squares[..] == SetLine(b, i, d, vals, j)
        invariant count == Differences(line, vals, j)
      {
        SetLineAt(b, i, d, vals, j, j);
        var index := Index(i, j, d);
        assert squares[index] == line[j] && values[j] == vals[j];
        if squares[index] != values[j] {
          squares[index] := values[j];
          count := count + 1;
        } else {
          assert squares[..][index := vals[j]] == squares[..];
        }
      }
    }

    /** `Merge` with a `break` after the first tile met behind tile `j`: that tile joins
        `j` when the two are equal. The result counts the joins. A line number outside
        0..3 does nothing. */
    method Merge(i: int, d: int) returns (count: int)
      requires Valid() && IsDirection(d)
      modifies squares
      ensures 0 <= i < 4 ==>
        squares[..] == SetLine(old(squares[..]), i, d, MergeFrom(LineAt(old(squares[..]), i, d), 0).0, 4)
      ensures 0 <= i < 4 ==> count == MergeFrom(LineAt(old(squares[..]), i, d), 0).1
      ensures !(0 <= i < 4) ==> squares[..] == old(squares[..]) && count == 0
    {
      if i < 0 || i > 3 {
        return 0;
      }
      ghost var b := squares[..];
      ghost var line := LineAt(b, i, d);
      ghost var target := MergeFrom(line, 0);
      SetLineSame(b, i, d);
      count := 0;
      var j := 0;
      while j < 3
        invariant 0 <= j <= 4 && |line| == 4
        invariant squares[..] == SetLine(b, i, d, line, 4)
        invariant MergeFrom(line, j).0 == target.0 && MergeFrom(line, j).1 + count == target.1
        decreases 4 - j
      {
        SetLineAt(b, i, d, line, 4, j);
        var f := Index(i, j, d);
        if squares[f] != 0 {
          var k := Behind(b, line, i, d, j);
          if k < 4 && squares[f] == squares[Index(i, k, d)] {
            Join(b, line, i, d, j, k);
            MergeJoins(line, j, k);
            line := line[j := 2 * line[j]][k := 0];
            j := j + 1;
            count := count + 1;
          } else {
            MergeKeeps(line, j);
          }
        } else {
          MergeKeeps(line, j);
        }
        j := j + 1;
      }
    }

    /** The body of the inner loop of `Merge` for two equal tiles: `j` doubles, `k` empties. */
    method Join(ghost b: seq<int>, ghost line: seq<int>, i: int, d: int, j: int, k: int)
      requires Valid() && 0 <= i < 4 && IsDirection(d) && |b| == 16 && |line| == 4 && 0 <= j < k < 4
      requires squares[..] == SetLine(b, i, d, line, 4)
      modifies squares
      ensures squares[..] == SetLine(b, i, d, line[j := 2 * line[j]][k := 0], 4)
    {
      var f := Index(i, j, d);
      var s := Index(i, k, d);
      SetLineAt(b, i, d, line, 4, j);
      SetLineUpdate(b, i, d, line, j, 2 * line[j]);
      squares[f] := squares[f] * 2;
      SetLineUpdate(b, i, d, line[j := 2 * line[j]], k, 0);
      squares[s] := 0;
    }

    /** The inner loop of `Merge`, stopped at the first tile: the place of the first tile
        behind place `j` of line `i`, or 4. */
    method Behind(ghost b: seq<int>, ghost line: seq<int>, i: int, d: int, j: int) returns (k: int)
      requires Valid() && 0 <= i < 4 && IsDirection(d) && |b| == 16 && |line| == 4 && 0 <= j < 3
      requires squares[..] == SetLine(b, i, d, line, 4)
      ensures k == NextTile(line, j + 1)
      ensures k < 4 ==> 0 <= Index(i, k, d) < 16 && squares[Index(i, k, d)] == line[k]
    {
      k := j + 1;
      SetLineAt(b, i, d, line, 4, k);
      while k < 4 && squares[Index(i, k, d)] == 0
        invariant j + 1 <= k <= 4
        invariant NextTile(line, j + 1) == NextTile(line, k)
        invariant k < 4 ==> 0 <= Index(i, k, d) < 16 && squares[Index(i, k, d)] == line[k]
        decreases 4 - k
      {
        k := k + 1;
        if k < 4 {
          SetLineAt(b, i, d, line, 4, k);
        }
      }
    }

    /** `Move`: every line is merged and slid; when some cell changed, a 2 is placed and
        the move is counted. */
    method Move(d: int) returns (r: bool)
      requires Valid() && IsDirection(d)
      modifies this, squares
      ensures r <==> Moved(old(squares[..]), d, 4) != old(squares[..])
      ensures r ==> moves == old(moves) + 1 && Spawned(Moved(old(squares[..]), d, 4), squares[..], d)
      ensures r ==> EmptyEnds(Moved(old(squares[..]), d, 4), d, 4) != []
      ensures !r ==> squares[..] == old(squares[..]) && moves == old(moves)
    {
      ghost var b := squares[..];
      var count := MoveLines(d);
      MovedChanges(b, d);
      if count > 0 {
        SpawnAlways(b, d);
        PutRandomTwo(d);
        moves := moves + 1;
        return true;
      }
      UnchangedMoves(b, d, 4);
      return false;
    }

    /** The loop of `Move`: `Merge` then `Slide` on each line; the counts add up to a
        positive number exactly when some line changed. */
    method MoveLines(d: int) returns (count: int)
      requires Valid() && IsDirection(d)
      modifies squares
      ensures squares[..] == Moved(old(squares[..]), d, 4)
      ensures count >= 0 && (count > 0 <==> Changed(old(squares[..]), d, 4))
    {
      count := 0;
      ghost var b := squares[..];
      for i := 0 to 4
        invariant squares[..] == Moved(b, d, i)
        invariant count >= 0 && (count > 0 <==> Changed(b, d, i))
      {
        ghost var before := squares[..];
        MovedKeeps(b, d, i, i);
        var merged := Merge(i, d);
        ghost var middle := squares[..];
        var slid := Slide(i, d);
        MoveStep(b, d, i, before, middle, squares[..], merged, slid);
        count := count + merged;
        count := count + slid;
      }
    }

    method MoveLeft() returns (r: bool)
      requires Valid()
      modifies this, squares
      ensures r <==> Moved(old(squares[..]), -1, 4) != old(squares[..])
      ensures r ==> moves == old(moves) + 1 && Spawned(Moved(old(squares[..]), -1, 4), squares[..], -1)
      ensures !r ==> squares[..] == old(squares[..]) && moves == old(moves)
    {
      r := Move(-1);
    }

    method MoveRight() returns (r: bool)
      requires Valid()
      modifies this, squares
      ensures r <==> Moved(old(squares[..]), 1, 4) != old(squares[..])
      ensures r ==> moves == old(moves) + 1 && Spawned(Moved(old(squares[..]), 1, 4), squares[..], 1)
      ensures !r ==> squares[..] == old(squares[..]) && moves == old(moves)
    {
      r := Move(1);
    }

    method MoveUp() returns (r: bool)
      requires Valid()
      modifies this, squares
      ensures r <==> Moved(old(squares[..]), -4, 4) != old(squares[..])
      ensures r ==> moves == old(moves) + 1 && Spawned(Moved(old(squares[..]), -4, 4), squares[..], -4)
      ensures !r ==> squares[..] == old(squares[..]) && moves == old(moves)
    {
      r := Move(-4);
    }

    method MoveDown() returns (r: bool)
      requires Valid()
      modifies this, squares
      ensures r <==> Moved(old(squares[..]), 4, 4) != old(squares[..])
      ensures r ==> moves == old(moves) + 1 && Spawned(Moved(old(squares[..]), 4, 4), squares[..], 4)
      ensures !r ==> squares[..] == old(squares[..]) && moves == old(moves)
    {
      r := Move(4);
    }

    /** `OrderByZero`: a new array holding the tiles of `a` in order, then zeros. Each
        tile goes to the first empty cell of the new array. */
    static method OrderByZero(a: array<int>) returns (shadow: array<int>)
      ensures fresh(shadow) && shadow[..] == Compact(a[..])
    {
      shadow := new int[a.Length](_ => 0);
      assert shadow[..] == NonZeros(a[..0]) + Zeros(a.Length);
      for i := 0 to a.Length
        invariant shadow.Length == a.Length
        invariant shadow[..] == NonZeros(a[..i]) + Zeros(a.Length - |NonZeros(a[..i])|)
      {
        ghost var tiles := NonZeros(a[..i]);
        NonZerosUpTo(a[..], i);
        assert a[..][..i] == a[..i] && a[..][..i + 1] == a[..i + 1];
        if a[i] != 0 {
          NonZerosAreTiles(a[..i]);
          var j := 0;
          while shadow[j] != 0
            invariant 0 <= j <= |tiles|
            decreases |tiles| - j
          {
            j := j + 1;
          }
          shadow[j] := a[i];
          PlaceTile(tiles, a[i], a.Length - |tiles|);
        }
      }
      assert a[..a.Length] == a[..];
    }
  }
}
