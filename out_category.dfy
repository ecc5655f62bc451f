// ConsoleApp/Algorithm/OutCategory.cs: number words, blood-group compatibility, the largest
// island of a grid, the Ulam sequence and the smallest multiple of 1..n.

module OutCategory {
  import opened CSharp
  import Recursion
  import ULong

  // ------------------------------------------------------------- NumberToEnglish

  /** The switch at the end of `NumberToEnglish`: the word for 0..20, the tens, 100 and
      1000, and "" for anything else. */
  function Word(value: int32): string {
    match value
    case 0 => "zero"
    case 1 => "one"
    case 2 => "two"
    case 3 => "three"
    case 4 => "four"
    case 5 => "five"
    case 6 => "six"
    case 7 => "seven"
    case 8 => "eight"
    case 9 => "nine"
    case 10 => "ten"
    case 11 => "eleven"
    case 12 => "twelve"
    case 13 => "thirteen"
    case 14 => "fourteen"
    case 15 => "fifteen"
    case 16 => "sixteen"
    case 17 => "seventeen"
    case 18 => "eighteen"
    case 19 => "nineteen"
    case 20 => "twenty"
    case 30 => "thirty"
    case 40 => "forty"
    case 50 => "fifty"
    case 60 => "sixty"
    case 70 => "seventy"
    case 80 => "eighty"
    case 90 => "ninety"
    case 100 => "hundred"
    case 1000 => "thousand"
    case _ => ""
  }

  /** The numbers the switch has a word for. */
  predicate IsKey(k: int32) {
    0 <= k <= 20 || (20 < k < 100 && k % 10 == 0) || k == 100 || k == 1000
  }

  /** `NumberToEnglish(value)`: thousands, then hundreds, then tens and units, each part
      spelled by a recursive call and joined by spaces. */
  function NumberToEnglish(value: int32): string
    decreases value
  {
    if value > 1000 then
      NumberToEnglish(value / 1000) + " " + NumberToEnglish(1000) + " " + NumberToEnglish(value % 1000)
    else if value > 100 && value < 1000 then
      NumberToEnglish(value / 100) + " " + NumberToEnglish(100) + " " + NumberToEnglish(value % 100)
    else if value > 20 && value % 10 != 0 then
      NumberToEnglish(value / 10 * 10) + " " + NumberToEnglish(value % 10)
    else Word(value)
  }

  /** The numbers whose words `NumberToEnglish` prints, in order: the same recursion,
      keeping each switch key instead of its word. */
  function Tokens(value: int32): (r: seq<int32>)
    ensures |r| >= 1
    decreases value
  {
    if value > 1000 then Tokens(value / 1000) + [1000] + Tokens(value % 1000)
    else if value > 100 && value < 1000 then Tokens(value / 100) + [100] + Tokens(value % 100)
    else if value > 20 && value % 10 != 0 then Tokens(value / 10 * 10) + Tokens(value % 10)
    else [value]
  }

  /** The words of `tokens` joined by single spaces. */
  function Spell(tokens: seq<int32>): string
    requires |tokens| >= 1
  {
    if |tokens| == 1 then Word(tokens[0]) else Word(tokens[0]) + " " + Spell(tokens[1..])
  }

  lemma {:induction false} SpellAppend(a: seq<int32>, b: seq<int32>)
    requires |a| >= 1 && |b| >= 1
    ensures Spell(a + b) == Spell(a) + " " + Spell(b)
    decreases |a|
  {
    var w := Word(a[0]) + " ";
    if |a| == 1 {
      assert (a + b)[0] == a[0] && (a + b)[1..] == b;
    } else {
      assert (a + b)[0] == a[0] && (a + b)[1..] == a[1..] + b;
      SpellAppend(a[1..], b);
      var p, q := Spell(a[1..]), Spell(b);
      assert Spell(a + b) == w + ((p + " ") + q);
      Recursion.Regrouped(p, " ", q);
      Recursion.Regrouped(w, p, " " + q);
      Recursion.Regrouped(w + p, " ", q);
    }
  }

  /** The text is the words of the tokens, separated by single spaces. */
  lemma {:induction false} SpelledText(value: int32)
    ensures NumberToEnglish(value) == Spell(Tokens(value))
    decreases value
  {
    if value > 1000 {
      SpelledText(value / 1000);
      SpelledText(value % 1000);
      SpellAppend(Tokens(value / 1000), [1000]);
      SpellAppend(Tokens(value / 1000) + [1000], Tokens(value % 1000));
    } else if value > 100 && value < 1000 {
      SpelledText(value / 100);
      SpelledText(value % 100);
      SpellAppend(Tokens(value / 100), [100]);
      SpellAppend(Tokens(value / 100) + [100], Tokens(value % 100));
    } else if value > 20 && value % 10 != 0 {
      SpelledText(value / 10 * 10);
      SpelledText(value % 10);
      SpellAppend(Tokens(value / 10 * 10), Tokens(value % 10));
    }
  }

  /** From 0 on, every token is a switch key, so no word is empty. */
  lemma {:induction false} TokensAreKeys(value: int32)
    requires value >= 0
    ensures forall t | t in Tokens(value) :: IsKey(t) && Word(t) != ""
    decreases value
  {
    if value > 1000 {
      TokensAreKeys(value / 1000);
      TokensAreKeys(value % 1000);
    } else if value > 100 && value < 1000 {
      TokensAreKeys(value / 100);
      TokensAreKeys(value % 100);
    } else if value > 20 && value % 10 != 0 {
      TokensAreKeys(value / 10 * 10);
      TokensAreKeys(value % 10);
    } else {
      KeyWord(value);
    }
  }

  /** Every switch key has a non-empty word, and `Key` reads it back. */
  lemma KeyWord(k: int32)
    requires IsKey(k)
    ensures Word(k) != "" && Key(Word(k)) == k
  {
    if k < 4 {
      KeysZeroToThree(k);
    } else if k < 8 {
      KeysFourToSeven(k);
    } else if k < 12 {
      KeysEightToEleven(k);
    } else if k < 16 {
      KeysTwelveToFifteen(k);
    } else if k <= 20 {
      KeysSixteenToTwenty(k);
    } else if k <= 50 {
      KeysTwentyToFifty(k);
    } else if k < 100 {
      KeysSixtyToNinety(k);
    } else {
      KeysHundredThousand(k);
    }
  }

  lemma KeysZeroToThree(k: int32)
    requires 0 <= k < 4
    ensures Word(k) != "" && Key(Word(k)) == k
  {
  }

  lemma KeysFourToSeven(k: int32)
    requires 4 <= k < 8
    ensures Word(k) != "" && Key(Word(k)) == k
  {
  }

  lemma KeysEightToEleven(k: int32)
    requires 8 <= k < 12
    ensures Word(k) != "" && Key(Word(k)) == k
  {
  }

  lemma KeysTwelveToFifteen(k: int32)
    requires 12 <= k < 16
    ensures Word(k) != "" && Key(Word(k)) == k
  {
  }

  lemma KeysSixteenToTwenty(k: int32)
    requires 16 <= k <= 20
    ensures Word(k) != "" && Key(Word(k)) == k
  {
  }

  lemma KeysTwentyToFifty(k: int32)
    requires IsKey(k) && 20 < k <= 50
    ensures Word(k) != "" && Key(Word(k)) == k
  {
  }

  lemma KeysSixtyToNinety(k: int32)
    requires IsKey(k) && 50 < k < 100
    ensures Word(k) != "" && Key(Word(k)) == k
  {
  }

  lemma KeysHundredThousand(k: int32)
    requires k == 100 || k == 1000
    ensures Word(k) != "" && Key(Word(k)) == k
  {
  }

  /** The inverse of the switch: the number a word names, or -1. The words are looked up
      by their length first. */
  function Key(word: string): int32 {
    match |word|
    case 3 =>
      if word == "one" then 1 else if word == "two" then 2 else if word == "six" then 6
      else if word == "ten" then 10 else -1
    case 4 =>
      if word == "zero" then 0 else if word == "four" then 4 else if word == "five" then 5
      else if word == "nine" then 9 else -1
    case 5 =>
      if word == "three" then 3 else if word == "seven" then 7 else if word == "eight" then 8
      else if word == "forty" then 40 else if word == "fifty" then 50
      else if word == "sixty" then 60 else -1
    case 6 =>
      if word == "eleven" then 11 else if word == "twelve" then 12
      else if word == "twenty" then 20 else if word == "thirty" then 30
      else if word == "eighty" then 80 else if word == "ninety" then 90 else -1
    case 7 =>
      if word == "fifteen" then 15 else if word == "sixteen" then 16
      else if word == "seventy" then 70 else if word == "hundred" then 100 else -1
    case 8 =>
      if word == "thirteen" then 13 else if word == "fourteen" then 14
      else if word == "eighteen" then 18 else if word == "nineteen" then 19
      else if word == "thousand" then 1000 else -1
    case 9 => if word == "seventeen" then 17 else -1
    case _ => -1
  }

  /** A reader of number words, left to right: `total` holds whole thousands and
      `current` the part below them. */
  datatype Reading = Reading(total: int, current: int)

  function Step(r: Reading, token: int32): Reading {
    if token == 100 then Reading(r.total, if r.current == 0 then 100 else r.current * 100)
    else if token == 1000 then
      Reading(if r.total + r.current == 0 then 1000 else (r.total + r.current) * 1000, 0)
    else Reading(r.total, r.current + token as int)
  }

  function Read(tokens: seq<int32>, r: Reading): Reading {
    if tokens == [] then r else Read(tokens[1..], Step(r, tokens[0]))
  }

  /** The number a sequence of tokens reads as. */
  function Value(tokens: seq<int32>): int {
    var r := Read(tokens, Reading(0, 0));
    r.total + r.current
  }

  lemma {:induction false} ReadAppend(a: seq<int32>, b: seq<int32>, r: Reading)
    ensures Read(a + b, r) == Read(b, Read(a, r))
    decreases |a|
  {
    if a == [] {
      assert a + b == b;
    } else {
      assert (a + b)[0] == a[0] && (a + b)[1..] == a[1..] + b;
      ReadAppend(a[1..], b, Step(r, a[0]));
    }
  }

  /** Below 100 the tokens only add to `current`. */
  lemma ReadTens(z: int32, r: Reading)
    requires 0 <= z < 100
    ensures Read(Tokens(z), r) == Reading(r.total, r.current + z as int)
  {
    if z > 20 && z % 10 != 0 {
      ReadPair(z, r);
    } else {
      Single(z);
      ReadOne(z, r);
    }
  }

  /** A two-digit number off the tens reads as its tens token and its units token. */
  lemma ReadPair(z: int32, r: Reading)
    requires 20 < z < 100 && z % 10 != 0
    ensures Read(Tokens(z), r) == Reading(r.total, r.current + z as int)
  {
    var t, u := z / 10 * 10, z % 10;
    TensSplit(z);
    assert Tokens(z) == [t] + [u];
    ReadOne(t, r);
    ReadOne(u, Reading(r.total, r.current + t as int));
    ReadAppend([t], [u], r);
  }

  /** A token other than 100 and 1000 adds its value to `current`. */
  lemma ReadOne(t: int32, r: Reading)
    requires 0 <= t < 100
    ensures Read([t], r) == Reading(r.total, r.current + t as int)
  {
    assert [t][1..] == [];
  }

  /** A number the recursion does not split is its own token. */
  lemma Single(value: int32)
    requires value <= 100 && !(value > 20 && value % 10 != 0)
    ensures Tokens(value) == [value]
  {
  }

  /** The tens and units of a two-digit number are single tokens. */
  lemma TensSplit(z: int32)
    requires 20 < z < 100
    ensures Tokens(z / 10 * 10) == [z / 10 * 10] && Tokens(z % 10) == [z % 10]
    ensures (z / 10 * 10) as int + (z % 10) as int == z as int
    ensures 20 <= z / 10 * 10 < 100 && 0 <= z % 10 < 10
  {
    var q, u := (z / 10) as int, (z % 10) as int;
    assert 2 <= q < 10 && 0 <= u < 10;
    ULong.DivUnique(q * 10, 10, q, 0);
  }

  /** Below 1000, starting from `current == 0`, the tokens read as the number itself. */
  lemma ReadHundreds(y: int32, total: int)
    requires 0 <= y < 1000
    ensures Read(Tokens(y), Reading(total, 0)) == Reading(total, y as int)
  {
    if y > 100 {
      var d, rest := y / 100, y % 100;
      assert Tokens(y) == [d] + [100] + Tokens(rest);
      ReadAppend([d] + [100], Tokens(rest), Reading(total, 0));
      ReadAppend([d], [100], Reading(total, 0));
      ReadTens(rest, Reading(total, d as int * 100));
    } else if y < 100 {
      ReadTens(y, Reading(total, 0));
    }
  }

  /** Reading the tokens of a number from 0 on gives the number back. */
  lemma {:induction false} ReadsBack(value: int32)
    requires value >= 0
    ensures Value(Tokens(value)) == value as int
    decreases value
  {
    if value > 1000 {
      var high, low := value / 1000, value % 1000;
      ReadsBack(high);
      var r := Read(Tokens(high), Reading(0, 0));
      ReadAppend(Tokens(high) + [1000], Tokens(low), Reading(0, 0));
      ReadAppend(Tokens(high), [1000], Reading(0, 0));
      assert Read(Tokens(high) + [1000], Reading(0, 0)) == Reading(high as int * 1000, 0);
      ReadHundreds(low, high as int * 1000);
    } else if value < 1000 {
      ReadHundreds(value, 0);
    }
  }

  /** Every number from 0 on is spelled by non-empty switch words, and reading those words
      back through `Key` and `Value` gives the number. */
  lemma Spelled(value: int32)
    requires value >= 0
    ensures NumberToEnglish(value) == Spell(Tokens(value))
    ensures forall t | t in Tokens(value) :: Word(t) != "" && Key(Word(t)) == t
    ensures Value(Tokens(value)) == value as int
  {
    SpelledText(value);
    TokensAreKeys(value);
    forall t | t in Tokens(value)
      ensures Key(Word(t)) == t
    {
      KeyWord(t);
    }
    ReadsBack(value);
  }

  /** The switch keys are spelled by their own word; negative numbers by nothing. */
  lemma FixedWords(value: int32)
    ensures IsKey(value) ==> NumberToEnglish(value) == Word(value)
    ensures value < 0 ==> NumberToEnglish(value) == ""
  {
  }

  // ---------------------------------------------------------------- CanGiveBlood

  /** The Rh rule: the same sign, or a negative donor for a positive recipient. */
  predicate CheckRh(from: char, to: char) {
    from == to || (from == '-' && to == '+')
  }

  /** `string.Replace(pattern, replacement)`: every occurrence of `pattern`, left to right, replaced. */
  function Replace(s: string, pattern: string, replacement: string): string
    requires |pattern| > 0
    decreases |s|
  {
    if |s| < |pattern| then s
    else if s[..|pattern|] == pattern then replacement + Replace(s[|pattern|..], pattern, replacement)
    else [s[0]] + Replace(s[1..], pattern, replacement)
  }

  /** `CanGiveBlood(from, to)` as written. A blood type is a group followed by one sign
      character. `from[..^1]` on an empty string throws, and so does `Replace` with an
      empty pattern, which happens for an A or B donor and a recipient without a group. */
  function CanGiveBloodAsWritten(from: string, to: string): (r: Outcome<bool>)
    ensures |from| == 0 || |to| == 0 ==> r == Throws(Argument)
  {
    if |from| == 0 || |to| == 0 then Throws(Argument)
    else
      var donor, recipient := from[..|from| - 1], to[..|to| - 1];
      if donor == recipient then Returns(CheckRh(from[|from| - 1], to[|to| - 1]))
      else if donor == "AB" then Returns(false)
      else if donor == "A" || donor == "B" then
        if recipient == "" then Throws(Argument)
        else if Replace("AB", recipient, "") == donor then Returns(false)
        else Returns(CheckRh(from[|from| - 1], to[|to| - 1]))
      else Returns(CheckRh(from[|from| - 1], to[|to| - 1]))
  }

  /** `CanGiveBlood` with the A and B branch corrected: such a donor gives, apart from its
      own group, only to AB. */
  function CanGiveBlood(from: string, to: string): (r: Outcome<bool>)
    ensures |from| == 0 || |to| == 0 ==> r == Throws(Argument)
  {
    if |from| == 0 || |to| == 0 then Throws(Argument)
    else
      var donor, recipient := from[..|from| - 1], to[..|to| - 1];
      if donor == recipient then Returns(CheckRh(from[|from| - 1], to[|to| - 1]))
      else if donor == "AB" then Returns(false)
      else if donor == "A" || donor == "B" then
        if recipient != "AB" then Returns(false)
        else Returns(CheckRh(from[|from| - 1], to[|to| - 1]))
      else Returns(CheckRh(from[|from| - 1], to[|to| - 1]))
  }

  /** The ABO groups and the two signs. */
  predicate IsGroup(g: string) { g == "O" || g == "A" || g == "B" || g == "AB" }

  predicate IsBloodType(t: string) {
    |t| >= 1 && IsGroup(t[..|t| - 1]) && (t[|t| - 1] == '+' || t[|t| - 1] == '-')
  }

  /** The ABO rule: O gives to everyone, AB receives from everyone, and otherwise only
      the same group. */
  predicate GroupsMatch(donor: string, recipient: string) {
    donor == recipient || donor == "O" || recipient == "AB"
  }

  /** `"AB".Replace(g, "")` for the four groups. */
  lemma ReplaceGroups()
    ensures Replace("AB", "A", "") == "B" && Replace("AB", "B", "") == "A"
    ensures Replace("AB", "AB", "") == "" && Replace("AB", "O", "") == "AB"
  {
    assert "AB"[..1] == "A" && "AB"[1..] == "B" && "AB"[..2] == "AB" && "AB"[..2] != "B";
    assert "AB"[..1] != "B" && "AB"[..1] != "O" && "AB"[1..][..1] == "B" && "AB"[1..][1..] == "";
    assert "AB"[1..][..1] != "A" && "AB"[1..][..1] != "O" && "AB"[2..] == "";
  }

  /** Both versions: the same group is decided by the Rh rule alone, and an AB donor gives
      only to AB. */
  lemma SameGroupAndAB(from: string, to: string)
    requires |from| >= 1 && |to| >= 1
    ensures from[..|from| - 1] == to[..|to| - 1] ==>
      CanGiveBloodAsWritten(from, to) == CanGiveBlood(from, to) == Returns(CheckRh(from[|from| - 1], to[|to| - 1]))
    ensures from[..|from| - 1] == "AB" && to[..|to| - 1] != "AB" ==>
      CanGiveBloodAsWritten(from, to) == CanGiveBlood(from, to) == Returns(false)
  {
  }

  /** For well-formed blood types, the corrected version is the ABO rule together with
      the Rh rule. */
  lemma Compatible(from: string, to: string)
    requires IsBloodType(from) && IsBloodType(to)
    ensures CanGiveBlood(from, to) ==
      Returns(GroupsMatch(from[..|from| - 1], to[..|to| - 1]) && CheckRh(from[|from| - 1], to[|to| - 1]))
  {
  }

  /** As written, an A+ donor is accepted for an O+ recipient, which the ABO rule
      forbids; B gives to O the same way. */
  lemma AGivesToO()
    ensures CanGiveBloodAsWritten("A+", "O+") == Returns(true)
    ensures CanGiveBlood("A+", "O+") == Returns(false) && !GroupsMatch("A", "O")
  {
    ReplaceGroups();
    assert "A+"[..1] == "A" && "O+"[..1] == "O";
  }

  /** As written, the version agrees with the ABO rule everywhere except for an A or B
      donor and an O recipient. */
  lemma AsWrittenOtherwiseAgrees(from: string, to: string)
    requires IsBloodType(from) && IsBloodType(to)
    requires !((from[..|from| - 1] == "A" || from[..|from| - 1] == "B") && to[..|to| - 1] == "O")
    ensures CanGiveBloodAsWritten(from, to) == CanGiveBlood(from, to)
  {
    ReplaceGroups();
  }

  // --------------------------------------------------------------- LargestIsland

  /** Every row as long as the one before it. */
  predicate Rectangular(grid: seq<seq<int32>>) {
    forall i | 1 <= i < |grid| :: |grid[i]| == |grid[i - 1]|
  }

  /** `checkedSquares` has one mark per cell of `grid`. */
  predicate Shaped(grid: seq<seq<int32>>, marks: array2<bool>) {
    marks.Length0 == |grid| && forall i | 0 <= i < |grid| :: |grid[i]| == marks.Length1
  }

  /** All cells of a marks array. */
  ghost function Cells(marks: array2<bool>): set<(int, int)> {
    set i, j | 0 <= i < marks.Length0 && 0 <= j < marks.Length1 :: (i, j)
  }

  /** The marked cells. */
  ghost function Taken(marks: array2<bool>): set<(int, int)>
    reads marks
  {
    set i, j | 0 <= i < marks.Length0 && 0 <= j < marks.Length1 && marks[i, j] :: (i, j)
  }

  /** The land cells of the grid. */
  ghost function Land(grid: seq<seq<int32>>): set<(int, int)> {
    set i, j | 0 <= i < |grid| && 0 <= j < |grid[i]| && grid[i][j] != 0 :: (i, j)
  }

  lemma SubsetSize<T>(a: set<T>, b: set<T>)
    requires a <= b
    ensures |a| <= |b| && (a != b ==> |a| < |b|)
  {
    assert b == a + (b - a);
    if a != b {
      var x :| x in b - a;
    }
  }

  /** A land cell of the grid. */
  predicate IsLand(grid: seq<seq<int32>>, p: (int, int)) {
    0 <= p.0 < |grid| && 0 <= p.1 < |grid[p.0]| && grid[p.0][p.1] != 0
  }

  /** Two different cells that touch by a side or a corner: the eight `(v, h)` steps. */
  predicate Adjacent(p: (int, int), q: (int, int)) {
    p != q && -1 <= q.0 - p.0 <= 1 && -1 <= q.1 - p.1 <= 1
  }

  /** A walk over land from one cell to a touching one. */
  ghost predicate IsPath(grid: seq<seq<int32>>, path: seq<(int, int)>) {
    |path| >= 1 &&
    (forall k | 0 <= k < |path| :: IsLand(grid, path[k])) &&
    (forall k | 0 <= k < |path| - 1 :: Adjacent(path[k], path[k + 1]))
  }

  /** A walk over land leads from `a` to `b`. */
  ghost predicate Connected(grid: seq<seq<int32>>, a: (int, int), b: (int, int)) {
    exists path :: IsPath(grid, path) && path[0] == a && path[|path| - 1] == b
  }

  /** The island of a cell: the land cells a walk over land reaches from it. */
  ghost function Component(grid: seq<seq<int32>>, c: (int, int)): set<(int, int)> {
    set p | p in Land(grid) && Connected(grid, c, p)
  }

  /** Marks made of whole islands: no marked cell touches unmarked land. */
  ghost predicate Closed(grid: seq<seq<int32>>, cells: set<(int, int)>) {
    forall p | p in cells :: Surrounded(grid, p, cells)
  }

  lemma LandCell(grid: seq<seq<int32>>, p: (int, int))
    ensures p in Land(grid) <==> IsLand(grid, p)
  {
    if IsLand(grid, p) {
      assert (p.0, p.1) in Land(grid);
    }
  }

  /** A land cell reaches itself. */
  lemma ConnectedSelf(grid: seq<seq<int32>>, a: (int, int))
    requires IsLand(grid, a)
    ensures Connected(grid, a, a)
  {
    assert IsPath(grid, [a]);
  }

  /** A walk leads only over land. */
  lemma ConnectedLand(grid: seq<seq<int32>>, a: (int, int), b: (int, int))
    requires Connected(grid, a, b)
    ensures IsLand(grid, a) && IsLand(grid, b)
  {
  }

  /** One step from a land cell onto the start of a walk. */
  lemma ConnectedStep(grid: seq<seq<int32>>, a: (int, int), b: (int, int), c: (int, int))
    requires IsLand(grid, a) && Adjacent(a, b) && Connected(grid, b, c)
    ensures Connected(grid, a, c)
  {
    var path :| IsPath(grid, path) && path[0] == b && path[|path| - 1] == c;
    var longer := [a] + path;
    assert forall k | 0 <= k < |path| :: longer[k + 1] == path[k];
    assert IsPath(grid, longer);
  }

  /** A walk read backwards. */
  lemma {:induction false} ConnectedBack(grid: seq<seq<int32>>, a: (int, int), b: (int, int))
    requires Connected(grid, a, b)
    ensures Connected(grid, b, a)
  {
    var path :| IsPath(grid, path) && path[0] == a && path[|path| - 1] == b;
    var n := |path|;
    var back := seq(n, k requires 0 <= k < n => path[n - 1 - k]);
    forall k | 0 <= k < n - 1
      ensures Adjacent(back[k], back[k + 1])
    {
      assert Adjacent(path[n - 2 - k], path[n - 1 - k]);
    }
    assert IsPath(grid, back);
  }

  /** Two walks one after the other. */
  lemma {:induction false} ConnectedTrans(grid: seq<seq<int32>>, a: (int, int), b: (int, int), c: (int, int))
    requires Connected(grid, a, b) && Connected(grid, b, c)
    ensures Connected(grid, a, c)
  {
    var p :| IsPath(grid, p) && p[0] == a && p[|p| - 1] == b;
    var q :| IsPath(grid, q) && q[0] == b && q[|q| - 1] == c;
    var walk := p + q[1..];
    forall k | 0 <= k < |walk| - 1
      ensures Adjacent(walk[k], walk[k + 1])
    {
      if k < |p| - 1 {
        assert walk[k] == p[k] && walk[k + 1] == p[k + 1];
      } else {
        assert walk[k] == q[k - |p| + 1] && walk[k + 1] == q[k - |p| + 2];
      }
    }
    assert forall k | 0 <= k < |walk| :: walk[k] == if k < |p| then p[k] else q[k - |p| + 1];
    assert IsPath(grid, walk);
  }

  /** Connected cells have the same island. */
  lemma SameComponent(grid: seq<seq<int32>>, a: (int, int), b: (int, int))
    requires Connected(grid, a, b)
    ensures Component(grid, a) == Component(grid, b)
  {
    ConnectedBack(grid, a, b);
    forall p | Connected(grid, b, p)
      ensures Connected(grid, a, p)
    {
      ConnectedTrans(grid, a, b, p);
    }
    forall p | Connected(grid, a, p)
      ensures Connected(grid, b, p)
    {
      ConnectedTrans(grid, b, a, p);
    }
  }

  /** A land cell belongs to its island, and the island is land. */
  lemma ComponentSize(grid: seq<seq<int32>>, c: (int, int))
    requires IsLand(grid, c)
    ensures c in Component(grid, c) && Component(grid, c) <= Land(grid)
    ensures 1 <= |Component(grid, c)| <= |Land(grid)|
  {
    ConnectedSelf(grid, c);
    LandCell(grid, c);
    SubsetSize({c}, Component(grid, c));
    SubsetSize(Component(grid, c), Land(grid));
  }

  /** A walk that starts inside whole islands stays inside them. */
  lemma {:induction false} ClosedWalk(grid: seq<seq<int32>>, cells: set<(int, int)>, path: seq<(int, int)>)
    requires Closed(grid, cells) && IsPath(grid, path) && path[0] in cells
    ensures path[|path| - 1] in cells
    decreases |path|
  {
    if |path| > 1 {
      var rest := path[1..];
      assert path[1] in cells by {
        assert Adjacent(path[0], path[1]) && IsLand(grid, path[1]);
      }
      assert IsPath(grid, rest) by {
        assert forall k | 0 <= k < |rest| :: rest[k] == path[k + 1];
      }
      ClosedWalk(grid, cells, rest);
    }
  }

  /** An island meets whole islands only if it is one of them. */
  lemma ClosedApart(grid: seq<seq<int32>>, cells: set<(int, int)>, c: (int, int), p: (int, int))
    requires Closed(grid, cells) && c !in cells && Connected(grid, c, p)
    ensures p !in cells
  {
    if p in cells {
      ConnectedBack(grid, c, p);
      var path :| IsPath(grid, path) && path[0] == p && path[|path| - 1] == c;
      ClosedWalk(grid, cells, path);
    }
  }

  /** A walk that starts among the new marks and keeps off the old ones ends among the
      new marks, when the new marks touch no unmarked land. */
  lemma {:induction false} FreshWalk(grid: seq<seq<int32>>, before: set<(int, int)>, after: set<(int, int)>, path: seq<(int, int)>)
    requires IsPath(grid, path) && path[0] in after
    requires forall k | 0 <= k < |path| :: path[k] !in before
    requires Spreads(grid, after - before, after)
    ensures path[|path| - 1] in after
    decreases |path|
  {
    if |path| > 1 {
      var rest := path[1..];
      assert path[1] in after by {
        assert path[0] in after - before && Adjacent(path[0], path[1]) && IsLand(grid, path[1]);
      }
      assert IsPath(grid, rest) by {
        assert forall k | 0 <= k < |rest| :: rest[k] == path[k + 1];
      }
      assert forall k | 0 <= k < |rest| :: rest[k] == path[k + 1];
      FreshWalk(grid, before, after, rest);
    }
  }

  /** The island `Check` marks: started on unmarked land next to whole islands, it marks
      exactly the island of its cell. */
  lemma IslandMarked(grid: seq<seq<int32>>, before: set<(int, int)>, after: set<(int, int)>, c: (int, int))
    requires Closed(grid, before) && IsLand(grid, c) && c !in before && before <= after && c in after
    requires Reached(grid, c, after - before) && Spreads(grid, after - before, after)
    ensures after - before == Component(grid, c)
    ensures Closed(grid, after)
  {
    forall p | p in Component(grid, c)
      ensures p in after - before
    {
      var path :| IsPath(grid, path) && path[0] == c && path[|path| - 1] == p;
      forall k | 0 <= k < |path|
        ensures path[k] !in before
      {
        var front := path[..k + 1];
        assert forall i | 0 <= i < |front| :: front[i] == path[i];
        assert IsPath(grid, front);
        ClosedApart(grid, before, c, path[k]);
      }
      FreshWalk(grid, before, after, path);
    }
    forall p | p in after - before
      ensures p in Component(grid, c)
    {
      ConnectedLand(grid, c, p);
      LandCell(grid, p);
    }
  }

  /** Every new mark is land a walk reaches from cell `c`. */
  ghost predicate Reached(grid: seq<seq<int32>>, c: (int, int), added: set<(int, int)>) {
    forall p | p in added :: Connected(grid, c, p)
  }

  /** No new mark touches land left unmarked. */
  ghost predicate Spreads(grid: seq<seq<int32>>, added: set<(int, int)>, all: set<(int, int)>) {
    forall p | p in added :: Surrounded(grid, p, all)
  }

  /** The land around cell `p` is marked. */
  ghost predicate Surrounded(grid: seq<seq<int32>>, p: (int, int), all: set<(int, int)>) {
    forall q | Adjacent(p, q) && IsLand(grid, q) :: q in all
  }

  /** The land neighbours of `c` up to step `(v, h)`, in the order of the two loops, are
      marked. */
  ghost predicate NeighboursBefore(grid: seq<seq<int32>>, c: (int, int), v: int, h: int, all: set<(int, int)>) {
    forall q | Adjacent(c, q) && IsLand(grid, q) && Earlier(q.0 - c.0, q.1 - c.1, v, h) :: q in all
  }

  predicate Earlier(dv: int, dh: int, v: int, h: int) {
    dv < v || (dv == v && dh < h)
  }

  /** What the loops of `Check` on cell `c` keep: the new marks are reached from `c`, those
      besides `c` touch no unmarked land, and the neighbours before step `(v, h)` are marked. */
  ghost predicate Grown(grid: seq<seq<int32>>, c: (int, int), before: set<(int, int)>, all: set<(int, int)>, v: int, h: int) {
    Reached(grid, c, all - before) && Spreads(grid, all - before - {c}, all) && NeighboursBefore(grid, c, v, h, all)
  }

  /** `Check(map, checkedSquares, i, j)`: nothing for a cell off the grid, of water or
      already marked; otherwise marks the cell and adds what the checks of its eight
      neighbours mark. The result is the number of cells it marks; each of them is land a
      walk reaches from cell `(i, j)`, and none of them touches land left unmarked. */
  method Check(grid: seq<seq<int32>>, marks: array2<bool>, i: int, j: int) returns (size: int)
    requires Shaped(grid, marks)
    modifies marks
    ensures old(Taken(marks)) <= Taken(marks)
    ensures size == |Taken(marks)| - |old(Taken(marks))|
    ensures 0 <= i < |grid| && 0 <= j < |grid[i]| && grid[i][j] != 0 ==> marks[i, j]
    ensures IsLand(grid, (i, j)) ==> (i, j) in Taken(marks)
    ensures Reached(grid, (i, j), Taken(marks) - old(Taken(marks)))
    ensures Spreads(grid, Taken(marks) - old(Taken(marks)), Taken(marks))
    decreases |Cells(marks)| - |Taken(marks)|, 0
  {
    if i < 0 || i >= |grid| {
      return 0;
    }
    if j < 0 || j >= |grid[i]| {
      return 0;
    }
    if grid[i][j] == 0 || marks[i, j] {
      return 0;
    }
    ghost var before := Taken(marks);
    ghost var c := (i, j);
    marks[i, j] := true;
    assert Taken(marks) == before + {c};
    SubsetSize(Taken(marks), Cells(marks));
    GrownFirst(grid, c, before);
    var more := Around(grid, marks, i, j, before);
    size := 1 + more;
    GrownLast(grid, c, before, Taken(marks));
  }

  /** The two loops of `Check` over the eight steps `(v, h)` around a cell it has just
      marked: the count of what the checks of the neighbours mark, and every land
      neighbour marked. */
  method Around(grid: seq<seq<int32>>, marks: array2<bool>, i: int, j: int, ghost before: set<(int, int)>) returns (size: int)
    requires Shaped(grid, marks) && IsLand(grid, (i, j)) && (i, j) !in before
    requires before + {(i, j)} <= Taken(marks) && Grown(grid, (i, j), before, Taken(marks), -1, -1)
    modifies marks
    ensures old(Taken(marks)) <= Taken(marks)
    ensures size == |Taken(marks)| - |old(Taken(marks))|
    ensures Grown(grid, (i, j), before, Taken(marks), 2, -1)
    decreases |Cells(marks)| - |Taken(marks)|, 2
  {
    ghost var c := (i, j);
    ghost var start := Taken(marks);
    SubsetSize(start, Cells(marks));
    size := 0;
    var v := -1;
    while v < 2
      invariant -1 <= v <= 2
      invariant start <= Taken(marks) && size == |Taken(marks)| - |start|
      invariant Grown(grid, c, before, Taken(marks), v, -1)
    {
      var h := -1;
      while h < 2
        invariant -1 <= h <= 2
        invariant start <= Taken(marks) && size == |Taken(marks)| - |start|
        invariant Grown(grid, c, before, Taken(marks), v, h)
      {
        if v != 0 || h != 0 {
          SubsetSize(start, Taken(marks));
          var more := Visit(grid, marks, i, j, v, h, before);
          size := size + more;
        } else {
          GrownSelf(grid, c, before, Taken(marks), h);
        }
        h := h + 1;
      }
      GrownRow(grid, c, before, Taken(marks), v);
      v := v + 1;
    }
  }

  /** One step `(v, h)` of the loops of `Check`: the check of that neighbour. */
  method Visit(grid: seq<seq<int32>>, marks: array2<bool>, i: int, j: int, v: int, h: int, ghost before: set<(int, int)>)
    returns (more: int)
    requires Shaped(grid, marks) && IsLand(grid, (i, j)) && -1 <= v <= 1 && -1 <= h <= 1 && (v != 0 || h != 0)
    requires before + {(i, j)} <= Taken(marks) && Grown(grid, (i, j), before, Taken(marks), v, h)
    modifies marks
    ensures old(Taken(marks)) <= Taken(marks)
    ensures more == |Taken(marks)| - |old(Taken(marks))|
    ensures Grown(grid, (i, j), before, Taken(marks), v, h + 1)
    decreases |Cells(marks)| - |Taken(marks)|, 1
  {
    ghost var mid := Taken(marks);
    SubsetSize(mid, Cells(marks));
    more := Check(grid, marks, i + v, j + h);
    NeighbourMarked(grid, (i, j), v, h, (i + v, j + h), before, mid, Taken(marks));
  }

  lemma GrownFirst(grid: seq<seq<int32>>, c: (int, int), before: set<(int, int)>)
    requires IsLand(grid, c) && c !in before
    ensures Grown(grid, c, before, before + {c}, -1, -1)
  {
    ConnectedSelf(grid, c);
    assert before + {c} - before == {c};
  }

  /** The step `(0, 0)` is the cell itself, which is no neighbour. */
  lemma GrownSelf(grid: seq<seq<int32>>, c: (int, int), before: set<(int, int)>, all: set<(int, int)>, h: int)
    requires h == 0 && Grown(grid, c, before, all, 0, h)
    ensures Grown(grid, c, before, all, 0, h + 1)
  {
  }

  /** After the last step of a row, the neighbours of every earlier row are marked. */
  lemma GrownRow(grid: seq<seq<int32>>, c: (int, int), before: set<(int, int)>, all: set<(int, int)>, v: int)
    requires Grown(grid, c, before, all, v, 2)
    ensures Grown(grid, c, before, all, v + 1, -1)
  {
  }

  /** After the last row every neighbour is marked, so no new mark touches unmarked land. */
  lemma GrownLast(grid: seq<seq<int32>>, c: (int, int), before: set<(int, int)>, all: set<(int, int)>)
    requires Grown(grid, c, before, all, 2, -1) && c in all
    ensures Reached(grid, c, all - before) && Spreads(grid, all - before, all)
  {
    forall q | Adjacent(c, q) && IsLand(grid, q)
      ensures q in all
    {
      assert Earlier(q.0 - c.0, q.1 - c.1, 2, -1);
    }
    assert Surrounded(grid, c, all);
  }

  /** The marks after one neighbour's check keep what the marks before it promised. */
  lemma NeighbourMarked(grid: seq<seq<int32>>, c: (int, int), v: int, h: int, n: (int, int), before: set<(int, int)>,
      mid: set<(int, int)>, after: set<(int, int)>)
    requires IsLand(grid, c) && -1 <= v <= 1 && -1 <= h <= 1 && (v != 0 || h != 0) && n == (c.0 + v, c.1 + h)
    requires before + {c} <= mid <= after && Grown(grid, c, before, mid, v, h)
    requires IsLand(grid, n) ==> n in after
    requires Reached(grid, n, after - mid) && Spreads(grid, after - mid, after)
    ensures Grown(grid, c, before, after, v, h + 1)
  {
    forall p | p in after - mid
      ensures Connected(grid, c, p)
    {
      ConnectedStep(grid, c, n, p);
    }
    forall p | p in after - before - {c}
      ensures Surrounded(grid, p, after)
    {
      if p in mid {
        assert Surrounded(grid, p, mid);
      }
    }
  }

  /** The largest island of the marked cells has `largest` cells, or there are none and
      `largest` is 0. */
  ghost predicate LargestAmong(grid: seq<seq<int32>>, cells: set<(int, int)>, largest: int) {
    (forall c | c in cells :: |Component(grid, c)| <= largest) &&
    (cells == {} ==> largest == 0) &&
    (cells != {} ==> exists c | c in cells :: |Component(grid, c)| == largest)
  }

  /** `LargestIsland(map)`: -1 for an empty or ragged grid; otherwise the number of cells
      of its largest island of cells joined by sides or corners, 0 when it has no land. */
  method LargestIsland(grid: seq<seq<int32>>) returns (largest: int)
    ensures largest == -1 <==> |grid| == 0 || !Rectangular(grid)
    ensures largest != -1 ==> 0 <= largest <= |Land(grid)|
    ensures largest != -1 ==> (largest > 0 <==> Land(grid) != {})
    ensures largest != -1 ==> forall c | IsLand(grid, c) :: |Component(grid, c)| <= largest
    ensures largest > 0 ==> exists c | IsLand(grid, c) :: |Component(grid, c)| == largest
  {
    if |grid| < 1 {
      return -1;
    }
    for i := 1 to |grid|
      invariant forall k | 1 <= k < i :: |grid[k]| == |grid[k - 1]|
    {
      if |grid[i]| != |grid[i - 1]| {
        return -1;
      }
    }
    largest := 0;
    var marks := new bool[|grid|, |grid[0]|]((_, _) => false);
    assert Taken(marks) == {};
    assert Shaped(grid, marks) by {
      forall k | 0 <= k < |grid|
        ensures |grid[k]| == |grid[0]|
      {
        SameWidth(grid, k);
      }
    }
    assert Covered(grid, Taken(marks), 0, 0);
    for i := 0 to |grid|
      invariant Shaped(grid, marks)
      invariant Taken(marks) <= Land(grid) && Closed(grid, Taken(marks))
      invariant LargestAmong(grid, Taken(marks), largest)
      invariant Covered(grid, Taken(marks), i, 0)
    {
      largest := CheckRow(grid, marks, i, largest);
    }
    AllCovered(grid, Taken(marks));
    IslandsFound(grid, Taken(marks), largest);
  }

  /** The inner loop of `LargestIsland`: a `Check` from every cell of row `i`, keeping
      the largest count. */
  method CheckRow(grid: seq<seq<int32>>, marks: array2<bool>, i: int, largest: int) returns (larger: int)
    requires Shaped(grid, marks) && 0 <= i < |grid|
    requires Taken(marks) <= Land(grid) && Closed(grid, Taken(marks))
    requires LargestAmong(grid, Taken(marks), largest) && Covered(grid, Taken(marks), i, 0)
    modifies marks
    ensures Taken(marks) <= Land(grid) && Closed(grid, Taken(marks))
    ensures LargestAmong(grid, Taken(marks), larger) && Covered(grid, Taken(marks), i + 1, 0)
  {
    larger := largest;
    for j := 0 to |grid[i]|
      invariant Taken(marks) <= Land(grid) && Closed(grid, Taken(marks))
      invariant LargestAmong(grid, Taken(marks), larger)
      invariant Covered(grid, Taken(marks), i, j)
    {
      ghost var before := Taken(marks);
      larger := CheckCell(grid, marks, i, j, larger);
      CoveredStep(grid, before, Taken(marks), i, j);
    }
    NextRow(grid, Taken(marks), i);
  }

  /** The body of the inner loop of `LargestIsland`: a `Check` from cell `(i, j)`, and the
      larger of its count and `largest`. */
  method CheckCell(grid: seq<seq<int32>>, marks: array2<bool>, i: int, j: int, largest: int) returns (larger: int)
    requires Shaped(grid, marks)
    requires Taken(marks) <= Land(grid) && Closed(grid, Taken(marks)) && LargestAmong(grid, Taken(marks), largest)
    modifies marks
    ensures old(Taken(marks)) <= Taken(marks) && (IsLand(grid, (i, j)) ==> (i, j) in Taken(marks))
    ensures Taken(marks) <= Land(grid) && Closed(grid, Taken(marks)) && LargestAmong(grid, Taken(marks), larger)
  {
    ghost var before := Taken(marks);
    var size := Check(grid, marks, i, j);
    IslandStep(grid, before, Taken(marks), (i, j), size, largest);
    larger := largest;
    if size > larger {
      larger := size;
    }
  }

  /** One `Check` from the loop of `LargestIsland`: the marks stay whole islands of land,
      and the larger of `largest` and the count is the largest island among them. */
  lemma IslandStep(grid: seq<seq<int32>>, before: set<(int, int)>, after: set<(int, int)>, c: (int, int), size: int, largest: int)
    requires before <= Land(grid) && Closed(grid, before) && LargestAmong(grid, before, largest)
    requires before <= after && size == |after| - |before|
    requires IsLand(grid, c) ==> c in after
    requires Reached(grid, c, after - before) && Spreads(grid, after - before, after)
    ensures after <= Land(grid) && Closed(grid, after)
    ensures LargestAmong(grid, after, if size > largest then size else largest)
  {
    if after - before == {} {
      assert after == before;
      return;
    }
    var p :| p in after - before;
    ConnectedLand(grid, c, p);
    assert c !in before by {
      if c in before {
        var path :| IsPath(grid, path) && path[0] == c && path[|path| - 1] == p;
        ClosedWalk(grid, before, path);
      }
    }
    IslandMarked(grid, before, after, c);
    NewLand(grid, before, after, c);
    DifferenceSize(before, after);
    forall q | q in after - before
      ensures |Component(grid, q)| == size
    {
      SameComponent(grid, c, q);
    }
    LargestGrows(grid, before, after, c, size, largest);
  }

  lemma DifferenceSize<T>(a: set<T>, b: set<T>)
    requires a <= b
    ensures |b - a| == |b| - |a|
  {
    assert b == a + (b - a);
  }

  /** The new marks are land. */
  lemma NewLand(grid: seq<seq<int32>>, before: set<(int, int)>, after: set<(int, int)>, c: (int, int))
    requires before <= Land(grid) && Reached(grid, c, after - before)
    ensures after <= Land(grid)
  {
    forall q | q in after
      ensures q in Land(grid)
    {
      if q !in before {
        ConnectedLand(grid, c, q);
        LandCell(grid, q);
      }
    }
  }

  /** Marks grown by one island of `size` cells: the larger of `largest` and `size` is the
      largest island among them. */
  lemma LargestGrows(grid: seq<seq<int32>>, before: set<(int, int)>, after: set<(int, int)>, c: (int, int), size: int, largest: int)
    requires LargestAmong(grid, before, largest) && before <= after && c in after - before
    requires forall q | q in after - before :: |Component(grid, q)| == size
    ensures LargestAmong(grid, after, if size > largest then size else largest)
  {
    if size <= largest && before != {} {
      var w :| w in before && |Component(grid, w)| == largest;
      assert w in after;
    }
  }

  /** Once every land cell is marked, the largest island among the marks is the largest
      island of the grid. */
  lemma IslandsFound(grid: seq<seq<int32>>, cells: set<(int, int)>, largest: int)
    requires cells == Land(grid) && LargestAmong(grid, cells, largest)
    ensures 0 <= largest <= |Land(grid)| && (largest > 0 <==> Land(grid) != {})
    ensures forall c | IsLand(grid, c) :: |Component(grid, c)| <= largest
    ensures largest > 0 ==> exists c | IsLand(grid, c) :: |Component(grid, c)| == largest
  {
    forall c | IsLand(grid, c)
      ensures |Component(grid, c)| <= largest
    {
      LandCell(grid, c);
    }
    if cells != {} {
      var c :| c in cells && |Component(grid, c)| == largest;
      LandCell(grid, c);
      ComponentSize(grid, c);
    }
  }

  /** The land cells before column `j` of row `i`, in row order, are marked. */
  ghost predicate Covered(grid: seq<seq<int32>>, cells: set<(int, int)>, i: int, j: int) {
    forall q | IsLand(grid, q) && (q.0 < i || (q.0 == i && q.1 < j)) :: q in cells
  }

  lemma CoveredStep(grid: seq<seq<int32>>, before: set<(int, int)>, after: set<(int, int)>, i: int, j: int)
    requires Covered(grid, before, i, j) && before <= after && (IsLand(grid, (i, j)) ==> (i, j) in after)
    ensures Covered(grid, after, i, j + 1)
  {
  }

  lemma NextRow(grid: seq<seq<int32>>, cells: set<(int, int)>, i: int)
    requires 0 <= i < |grid| && Covered(grid, cells, i, |grid[i]|)
    ensures Covered(grid, cells, i + 1, 0)
  {
  }

  lemma AllCovered(grid: seq<seq<int32>>, cells: set<(int, int)>)
    requires Covered(grid, cells, |grid|, 0) && cells <= Land(grid)
    ensures cells == Land(grid)
  {
    forall q | q in Land(grid)
      ensures q in cells
    {
      LandCell(grid, q);
    }
  }

  /** In a rectangular grid every row is as long as the first. */
  lemma {:induction false} SameWidth(grid: seq<seq<int32>>, k: int)
    requires Rectangular(grid) && 0 <= k < |grid|
    ensures |grid[k]| == |grid[0]|
  {
    if k > 0 {
      SameWidth(grid, k - 1);
    }
  }

  // ---------------------------------------------------------------- UlamSequence

  /** The number of `j` with `i < j < m` and `s[i] + s[j] == n`. */
  function Row(s: seq<int>, n: int, i: int, m: int): nat
    requires 0 <= i < |s| && m <= |s|
    decreases m
  {
    if m <= i + 1 then 0 else Row(s, n, i, m - 1) + (if s[i] + s[m - 1] == n then 1 else 0)
  }

  /** The number of pairs `i < j` with `i < k` and `s[i] + s[j] == n`. */
  function Pairs(s: seq<int>, n: int, k: int): nat
    requires 0 <= k <= |s|
  {
    if k == 0 then 0 else Pairs(s, n, k - 1) + Row(s, n, k - 1, |s|)
  }

  /** In how many ways `n` is the sum of two entries of `s` at different places. */
  function Representations(s: seq<int>, n: int): nat {
    Pairs(s, n, |s|)
  }

  ghost predicate Increasing(s: seq<int>) {
    forall p, q | 0 <= p < q < |s| :: s[p] < s[q]
  }

  /** The Ulam sequence: 1, 2, and then each entry the least number above the one before
      it that is the sum of two earlier entries in exactly one way. */
  ghost predicate IsUlam(s: seq<int>) {
    (|s| >= 1 ==> s[0] == 1) && (|s| >= 2 ==> s[1] == 2) &&
    forall k | 2 <= k < |s| :: Next(s[..k], s[k])
  }

  /** `x` is the entry that follows `s`. */
  ghost predicate Next(s: seq<int>, x: int)
    requires |s| >= 1
  {
    s[|s| - 1] < x && Representations(s, x) == 1 &&
    forall m | s[|s| - 1] < m < x :: Representations(s, m) != 1
  }

  /** The nested loops of `UlamSequence`: they count the pairs summing to `next`. */
  method CountSums(list: seq<int>, next: int) returns (count: int)
    ensures count == Representations(list, next)
  {
    count := 0;
    for i := 0 to |list|
      invariant count == Pairs(list, next, i)
    {
      for j := i + 1 to |list|
        invariant count == Pairs(list, next, i) + Row(list, next, i, j)
      {
        if list[i] + list[j] == next {
          count := count + 1;
        }
      }
    }
  }

  /** `UlamSequence(value)`: the first `value` Ulam numbers, none for `value < 1`. The
      candidate `next` climbs by one and is kept when it has exactly one representation. */
  method UlamSequence(value: int32) returns (list: seq<int>)
    ensures |list| == if value < 1 then 0 else value as int
    ensures IsUlam(list) && Increasing(list)
  {
    list := [];
    if value < 1 {
      return;
    }
    list := list + [1];
    if value == 1 {
      return;
    }
    list := list + [2];
    if value == 2 {
      return;
    }
    var next := list[|list| - 1] + 1;
    while |list| < value as int
      invariant 2 <= |list| <= value as int
      invariant IsUlam(list) && Increasing(list) && list[0] == 1
      invariant list[|list| - 1] < next <= list[|list| - 1] + list[|list| - 2]
      invariant forall m | list[|list| - 1] < m < next :: Representations(list, m) != 1
      decreases value as int - |list|, list[|list| - 1] + list[|list| - 2] - next
    {
      var count := CountSums(list, next);
      if count == 1 {
        Extend(list, next);
        list := list + [next];
      } else {
        OnlyOneWay(list);
      }
      next := next + 1;
    }
  }

  /** Appending the entry that follows keeps the sequence an increasing Ulam sequence. */
  lemma Extend(list: seq<int>, next: int)
    requires |list| >= 2 && IsUlam(list) && Increasing(list) && list[0] == 1
    requires Next(list, next)
    ensures IsUlam(list + [next]) && Increasing(list + [next])
    ensures (list + [next])[|list| - 1] >= 1
  {
    var s := list + [next];
    assert s[..|list|] == list;
    forall k | 2 <= k < |list|
      ensures s[..k] == list[..k]
    {
    }
    assert list[|list| - 1] >= list[0];
  }

  /** The sum of the last two entries of an increasing sequence is made in exactly one
      way: every other pair has a smaller sum. */
  lemma OnlyOneWay(s: seq<int>)
    requires |s| >= 2 && Increasing(s)
    ensures Representations(s, s[|s| - 1] + s[|s| - 2]) == 1
  {
    var n, last := s[|s| - 1] + s[|s| - 2], |s| - 1;
    NoPairs(s, n, last - 1);
    RowNone(s, n, last - 1, last);
    assert Row(s, n, last - 1, |s|) == Row(s, n, last - 1, last) + 1;
    assert Row(s, n, last, |s|) == 0;
    assert Pairs(s, n, |s|) == Pairs(s, n, last - 1) + Row(s, n, last - 1, |s|) + Row(s, n, last, |s|);
  }

  /** No pair starting before `k <= |s| - 2` reaches the sum of the last two entries. */
  lemma {:induction false} NoPairs(s: seq<int>, n: int, k: int)
    requires |s| >= 2 && Increasing(s) && n == s[|s| - 1] + s[|s| - 2] && 0 <= k <= |s| - 2
    ensures Pairs(s, n, k) == 0
  {
    if k > 0 {
      NoPairs(s, n, k - 1);
      RowNone(s, n, k - 1, |s|);
    }
  }

  /** A row whose pairs all miss `n` counts nothing. */
  lemma {:induction false} RowNone(s: seq<int>, n: int, i: int, m: int)
    requires |s| >= 2 && Increasing(s) && n == s[|s| - 1] + s[|s| - 2]
    requires 0 <= i < |s| && m <= |s| && (i < |s| - 2 || m <= |s| - 1)
    ensures Row(s, n, i, m) == 0
    decreases m
  {
    if m > i + 1 {
      RowNone(s, n, i, m - 1);
      if m - 1 < |s| - 1 {
        assert s[i] < s[|s| - 2] && s[m - 1] <= s[|s| - 2];
      } else {
        assert s[i] < s[|s| - 2];
      }
    }
  }

  // -------------------------------------------------------------- SmallestNumber

  /** Euclid's algorithm on unbounded naturals. */
  function Gcd(x: nat, y: nat): (r: nat)
    ensures x > 0 || y > 0 ==> r > 0
    decreases y
  {
    if y == 0 then x else Gcd(y, x % y)
  }

  /** The greatest common divisor of two numbers, not both 0, divides both and is
      positive. */
  lemma {:induction false} GcdDivides(x: nat, y: nat)
    requires x > 0 || y > 0
    ensures Gcd(x, y) >= 1 && Recursion.Divides(Gcd(x, y), x) && Recursion.Divides(Gcd(x, y), y)
    decreases y
  {
    var g := Gcd(x, y);
    if y == 0 {
      assert x == g * 1 && y == g * 0;
    } else {
      var q, r := x / y, x % y;
      assert x == y * q + r;
      GcdDivides(y, r);
      var a :| y == g * a;
      var b :| r == g * b;
      Recombine(g, a, b, q);
      assert x == g * (a * q + b);
    }
  }

  /** A multiple of `g` times `q` plus a multiple of `g` is a multiple of `g`. */
  lemma Recombine(g: int, a: int, b: int, q: int)
    ensures (g * a) * q + g * b == g * (a * q + b)
  {
    calc {
      (g * a) * q + g * b;
      g * (a * q) + g * b;
      g * (a * q + b);
    }
  }

  /** On non-negative `int`s the model's `GreatCommonDivisor` is Euclid's algorithm. */
  lemma {:induction false} GcdAgrees(x: int32, y: int32)
    requires x >= 0 && y >= 0
    ensures Recursion.GreatCommonDivisor(x, y).Returns?
    ensures Recursion.GreatCommonDivisor(x, y).value as int == Gcd(x as nat, y as nat)
    decreases y
  {
    if y != 0 {
      assert Rem(x as int, y as int) == x as int % y as int;
      GcdAgrees(y, Rem(x as int, y as int) as int32);
    }
  }

  /** The exact value of the loop: the least common multiple of 1..n, built up by
      multiplying in `i / gcd(num, i)` for each `i`. */
  function LeastMultiple(n: nat): (r: nat)
    ensures r >= 1
  {
    if n == 0 then 1
    else
      var m := LeastMultiple(n - 1);
      var g := Gcd(m, n);
      Factor(m, n);
      m * (n / g)
  }

  /** The factor `n / g` of a step is positive, and `g * (n / g)` is `n` again. */
  lemma Factor(m: nat, n: nat)
    requires m >= 1 && n >= 1
    ensures var g := Gcd(m, n); g >= 1 && n / g >= 1 && g * (n / g) == n && m * (n / g) >= m
  {
    var g := Gcd(m, n);
    GcdDivides(m, n);
    var q :| n == g * q;
    assert q != 0;
    ULong.DivUnique(n, g, q, 0);
    ULong.MulAtLeast(m, q);
  }

  /** Each step multiplies by a positive factor `i / gcd` with `gcd * factor == i`. */
  lemma MultipleStep(n: nat)
    requires n >= 1
    ensures var m, g := LeastMultiple(n - 1), Gcd(LeastMultiple(n - 1), n);
      g >= 1 && g * (n / g) == n && LeastMultiple(n) == m * (n / g) >= m
  {
    Factor(LeastMultiple(n - 1), n);
  }

  /** `LeastMultiple(n)` is positive and a multiple of every number from 1 to `n`. */
  lemma {:induction false} MultipleOfAll(n: nat)
    ensures LeastMultiple(n) >= 1
    ensures forall k | 1 <= k <= n :: Recursion.Divides(k, LeastMultiple(n))
  {
    if n > 0 {
      MultipleOfAll(n - 1);
      MultipleStep(n);
      var m, g := LeastMultiple(n - 1), Gcd(LeastMultiple(n - 1), n);
      GcdDivides(m, n);
      forall k | 1 <= k <= n
        ensures Recursion.Divides(k, LeastMultiple(n))
      {
        StillDivides(k, n, m, g);
      }
    }
  }

  /** Scaling both arguments scales their greatest common divisor. */
  lemma {:induction false} GcdScale(c: nat, x: nat, y: nat)
    requires c > 0
    ensures Gcd(c * x, c * y) == c * Gcd(x, y)
    decreases y
  {
    if y > 0 {
      assert c * x == (c * y) * (x / y) + c * (x % y) by {
        assert x == y * (x / y) + x % y;
      }
      assert c * (x % y) < c * y;
      ULong.DivUnique(c * x, c * y, x / y, c * (x % y));
      GcdScale(c, y, x % y);
    }
  }

  /** A common divisor of `x` and `y` divides their greatest common divisor. */
  lemma {:induction false} DividesGcd(d: int, x: nat, y: nat)
    requires Recursion.Divides(d, x) && Recursion.Divides(d, y)
    ensures Recursion.Divides(d, Gcd(x, y))
    decreases y
  {
    if y > 0 {
      var a :| x == d * a;
      var b :| y == d * b;
      assert x % y == d * (a - b * (x / y)) by {
        assert x % y == x - y * (x / y);
        assert y * (x / y) == d * (b * (x / y));
      }
      DividesGcd(d, y, x % y);
    }
  }

  /** Euclid's lemma: a divisor of `a * k` that has no common factor with `a` divides `k`. */
  lemma CoprimeDivides(a: nat, b: nat, k: nat)
    requires Gcd(a, b) == 1 && Recursion.Divides(b, a * k)
    ensures Recursion.Divides(b, k)
  {
    if k == 0 {
      assert k == b * 0;
    } else {
      GcdScale(k, a, b);
      assert Recursion.Divides(b, k * a) by {
        assert k * a == a * k;
      }
      assert Recursion.Divides(b, k * b) by {
        assert k * b == b * k;
      }
      DividesGcd(b, k * a, k * b);
    }
  }

  /** `m` and `n` are their greatest common divisor times two factors with no common
      factor left. */
  lemma Cofactors(m: nat, n: nat) returns (a: nat, b: nat)
    requires m >= 1 && n >= 1
    ensures var g := Gcd(m, n); g >= 1 && m == g * a && n == g * b && n / g == b && Gcd(a, b) == 1
  {
    var g := Gcd(m, n);
    GcdDivides(m, n);
    var a' :| m == g * a';
    var b' :| n == g * b';
    PositiveFactor(g, a', m);
    PositiveFactor(g, b', n);
    a, b := a', b';
    ULong.DivUnique(n, g, b, 0);
    CoprimeCofactors(g, a, b, m, n);
  }

  /** A factor of a positive number by a positive factor is positive. */
  lemma PositiveFactor(g: nat, a: int, m: nat)
    requires g >= 1 && m >= 1 && m == g * a
    ensures a >= 1
  {
    if a <= 0 {
      MulSign(g, a);
    }
  }

  /** Dividing out the greatest common divisor leaves no common factor. */
  lemma CoprimeCofactors(g: nat, a: nat, b: nat, m: nat, n: nat)
    requires g >= 1 && g == Gcd(m, n) && m == g * a && n == g * b
    ensures Gcd(a, b) == 1
  {
    GcdScale(g, a, b);
    var c := Gcd(a, b);
    assert g * c == g * 1;
    Cancel(g, c, 1);
  }

  /** With `m == g * a`, `n == g * b` and `a`, `b` without a common factor, a common
      multiple `m * k == n * j` of `m` and `n` is a multiple of `m * b`. */
  lemma CommonMultiple(g: nat, a: nat, b: nat, m: nat, n: nat, big: int, k: int, j: int)
    requires g >= 1 && m == g * a && n == g * b && Gcd(a, b) == 1
    requires big == m * k && big == n * j
    ensures Recursion.Divides(m * b, big)
  {
    CancelCommon(g, a, b, m, n, k, j);
    ProductDivides(a, b, k, j);
    CoprimeDivides(a, b, Abs(k));
    var t :| Abs(k) == b * t;
    MultipleOfProduct(m, b, k, t, big);
  }

  /** `m * k == n * j` with the common factor `g` taken out. */
  lemma CancelCommon(g: nat, a: nat, b: nat, m: nat, n: nat, k: int, j: int)
    requires g >= 1 && m == g * a && n == g * b && m * k == n * j
    ensures a * k == b * j
  {
    assert g * (a * k) == m * k;
    assert g * (b * j) == n * j;
    Cancel(g, a * k, b * j);
  }

  /** From `a * k == b * j`, `b` divides `a * |k|`. */
  lemma ProductDivides(a: nat, b: nat, k: int, j: int)
    requires a * k == b * j
    ensures Recursion.Divides(b, a * Abs(k))
  {
    if k < 0 {
      assert a * Abs(k) == b * -j;
    } else {
      assert a * Abs(k) == b * j;
    }
  }

  /** `m * k` with `|k| == b * t` is a multiple of `m * b`. */
  lemma MultipleOfProduct(m: nat, b: nat, k: int, t: int, big: int)
    requires big == m * k && Abs(k) == b * t
    ensures Recursion.Divides(m * b, big)
  {
    var q := if k < 0 then -t else t;
    assert k == b * q;
    Recursion.Regroup(m, b, q);
    assert big == (m * b) * q;
  }

  /** A positive factor cancels. */
  lemma Cancel(g: int, x: int, y: int)
    requires g >= 1 && g * x == g * y
    ensures x == y
  {
  }

  /** `m * (n / gcd(m, n))` divides every common multiple of `m` and `n`. */
  lemma StepDivides(m: nat, n: nat, big: int)
    requires m >= 1 && n >= 1
    requires Recursion.Divides(m, big) && Recursion.Divides(n, big)
    ensures Recursion.Divides(m * (n / Gcd(m, n)), big)
  {
    var a, b := Cofactors(m, n);
    var k :| big == m * k;
    var j :| big == n * j;
    CommonMultiple(Gcd(m, n), a, b, m, n, big, k, j);
  }

  /** `LeastMultiple(n)` divides every common multiple of 1..n. */
  lemma {:induction false} LeastMultipleDivides(n: nat, big: int)
    requires forall k | 1 <= k <= n :: Recursion.Divides(k, big)
    ensures Recursion.Divides(LeastMultiple(n), big)
  {
    if n == 0 {
      assert big == 1 * big;
    } else {
      LeastMultipleDivides(n - 1, big);
      StepDivides(LeastMultiple(n - 1), n, big);
    }
  }

  /** No positive number below `LeastMultiple(n)` is divisible by all of 1..n: the value
      `SmallestNumber` computes is the least such number. */
  lemma LeastMultipleIsLeast(n: nat, big: int)
    requires big >= 1
    requires forall k | 1 <= k <= n :: Recursion.Divides(k, big)
    ensures big >= LeastMultiple(n)
  {
    LeastMultipleDivides(n, big);
    var t :| big == LeastMultiple(n) * t;
    if t <= 0 {
      MulSign(LeastMultiple(n), t);
    }
    ULong.MulAtLeast(LeastMultiple(n), t);
  }

  /** After the step for `n`, every `k <= n` still divides: `n` through `g * factor`,
      and the others through `m`. */
  lemma StillDivides(k: nat, n: nat, m: nat, g: nat)
    requires 1 <= k <= n && g >= 1 && g * (n / g) == n
    requires Recursion.Divides(g, m) && (k < n ==> Recursion.Divides(k, m))
    ensures Recursion.Divides(k, m * (n / g))
  {
    var f := n / g;
    if k == n {
      var a :| m == g * a;
      assert m * f == n * a by {
        assert m * f == a * (g * f);
      }
    } else {
      var c :| m == k * c;
      assert m * f == k * (c * f);
    }
  }

  /** `SmallestNumber(value)`: 0 below 1; otherwise starts from 1 and, for each `i` up to
      `value`, multiplies by `i / gcd(num, i)` in wrapping `int` arithmetic. While the
      exact value fits an `int`, the result is that exact value. */
  method SmallestNumber(value: int32) returns (num: int32)
    ensures value < 1 ==> num == 0
    ensures value >= 1 && LeastMultiple(value as nat) < Two31 ==> num as int == LeastMultiple(value as nat)
  {
    if value < 1 {
      return 0;
    }
    num := 1;
    for i := 1 to value as int + 1
      invariant LeastMultiple(i - 1) < Two31 ==> num as int == LeastMultiple(i - 1)
    {
      ghost var before := num;
      var gcd := Recursion.GreatCommonDivisor(num, i as int32).value;
      var factor := if gcd > 1 then Quotient(i as int32, gcd) else i as int32;
      num := Mul(num, factor);
      ExactStep(i, before, gcd, factor);
    }
  }

  /** `i / gcd` for a positive divisor, which stays within `int`. */
  function Quotient(i: int32, gcd: int32): (q: int32)
    requires i >= 1 && gcd > 1
    ensures q as int == i as int / gcd as int
  {
    assert i as int / gcd as int <= i as int by {
      DivNonNegative(i as int, gcd as int);
      assert i as int == gcd as int * (i as int / gcd as int) + i as int % gcd as int;
      MulSign(gcd as int, i as int / gcd as int);
    }
    Div(i as int, gcd as int) as int32
  }

  /** One turn of the loop: while the exact value fits an `int`, so did the one before it,
      the `int` arithmetic agrees with it, and the new `num` is the new exact value. */
  lemma ExactStep(i: int, before: int32, gcd: int32, factor: int32)
    requires 1 <= i < Two31
    requires LeastMultiple(i - 1) < Two31 ==> before as int == LeastMultiple(i - 1)
    requires gcd == Recursion.GreatCommonDivisor(before, i as int32).value
    requires factor == if gcd > 1 then Quotient(i as int32, gcd) else i as int32
    ensures LeastMultiple(i) < Two31 ==> Mul(before, factor) as int == LeastMultiple(i)
  {
    if LeastMultiple(i) < Two31 {
      MultipleOfAll(i - 1);
      MultipleStep(i);
      var m := LeastMultiple(i - 1);
      GcdAgrees(before, i as int32);
      var g := Gcd(m, i);
      assert factor as int == i / g by {
        if g == 1 {
          assert i / 1 == i;
        }
      }
    }
  }
}
