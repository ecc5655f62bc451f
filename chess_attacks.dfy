// Which squares a side attacks (ConsoleApp/Chess/MoveGenerator.cs, GenerateOpponentAttacks
// and IsAttacked, and the blocked-ray step that GenerateSlidingMoves shares with them).
//
// The source reads the board's piece bitboards and occupied squares; here they are passed
// in, so that the board, which calls these after every move, can be declared after them.

module Attacks {
  import opened CSharp
  import opened ULong
  import opened Bitboard
  import opened PrecomputedMoveData
  import Piece

  // ------------------------------------------------------------ blocked rays

  /** The direction opposite to `d`: the directions come in pairs 0/1, 2/3, 4/5 and 6/7. */
  function Opposite(d: int): int {
    if d % 2 == 0 then d + 1 else d - 1
  }

  /** `u` comes before `t` on a ray in direction `d`: the odd directions run up the square
      numbers, the even ones down. */
  predicate Before(d: int, u: int, t: int) {
    if d % 2 == 1 then u < t else u > t
  }

  /** A slider on `square` reaches `t` in direction `d`: `t` is on the ray and no occupied
      square comes before it. The first occupied square is reached itself. */
  ghost predicate Reaches(square: int, d: int, t: int, occupied: ulong)
    requires 0 <= d < 8
  {
    OnRay(square, d, t) && forall u: nat :: OnRay(square, d, u) && Before(d, u, t) ==> !BitOf(occupied, u)
  }

  /** The ray from `square` in `direction`, cut after its first occupied square: the ray of
      the nearest blocker is taken out with `^`. Going down the board the nearest blocker is
      the highest one, going up the lowest. */
  function SlidingAttack(tables: Tables, square: int, direction: int, occupied: ulong): ulong
    requires tables.Valid() && IsSquare(square) && 0 <= direction < 8
  {
    var pattern := tables.RayPatterns[square][direction];
    var blocker := UAnd(pattern, occupied);
    if blocker == 0 then pattern
    else
      var nearest := if direction % 2 == 0 then BitScanReverse(blocker) else BitScanForward(blocker);
      UXor(pattern, tables.RayPatterns[nearest][direction])
  }

  /** The cut ray holds exactly the squares a slider reaches: the empty squares up to the
      first occupied one, and that one. */
  lemma SlidingAttackExact(tables: Tables, square: int, direction: int, occupied: ulong, t: nat)
    requires tables.Valid() && IsSquare(square) && 0 <= direction < 8
    ensures BitOf(SlidingAttack(tables, square, direction, occupied), t) <==> Reaches(square, direction, t, occupied)
  {
    var pattern := tables.RayPatterns[square][direction];
    var blocker := UAnd(pattern, occupied);
    assert RayRow(square, tables.RayPatterns[square]);
    forall u: nat
      ensures BitOf(blocker, u) <==> OnRay(square, direction, u) && BitOf(occupied, u)
    {
      UAndAt(pattern, occupied, u);
    }
    if blocker == 0 {
      forall u: nat
        ensures !BitOf(blocker, u)
      {
        ZeroBits(u);
      }
    } else {
      var b := if direction % 2 == 0 then BitScanReverse(blocker) else BitScanForward(blocker);
      assert RayRow(b, tables.RayPatterns[b]);
      UXorAt(pattern, tables.RayPatterns[b][direction], t);
      RayNesting(square, direction, b, t);
      if OnRay(square, direction, t) && !Before(direction, b, t) {
        forall u: nat | OnRay(square, direction, u) && Before(direction, u, t)
          ensures !BitOf(occupied, u)
        {
          assert !BitOf(blocker, u);
        }
      }
    }
  }

  /** The ray from `square` in direction `d` passes `t` exactly when the ray from `t` in the
      opposite direction passes `square`. */
  lemma RayReversed(square: int, d: int, t: int)
    requires IsSquare(square) && 0 <= d < 8
    ensures 0 <= Opposite(d) < 8 && (d < 4 <==> Opposite(d) < 4)
    ensures OnRay(square, d, t) <==> IsSquare(t) && OnRay(t, Opposite(d), square)
  {
    if IsSquare(t) {
      if d < 4 {
        OnRayStraight(square, d, t);
        OnRayStraight(t, Opposite(d), square);
      } else {
        OnRayDiagonal(square, d, t);
        OnRayDiagonal(t, Opposite(d), square);
      }
    }
  }

  /** Along a ray, the squares between `square` and `t` are the squares between `t` and
      `square` on the opposite ray. */
  lemma BetweenReversed(square: int, d: int, t: int, u: int)
    requires IsSquare(square) && IsSquare(t) && 0 <= d < 8 && OnRay(square, d, t)
    ensures OnRay(square, d, u) && Before(d, u, t) <==> OnRay(t, Opposite(d), u) && Before(Opposite(d), u, square)
  {
    if IsSquare(u) {
      if d < 4 {
        OnRayStraight(square, d, t);
        OnRayStraight(square, d, u);
        OnRayStraight(t, Opposite(d), u);
      } else {
        OnRayDiagonal(square, d, t);
        OnRayDiagonal(square, d, u);
        OnRayDiagonal(t, Opposite(d), u);
      }
    }
  }

  /** A slider on `square` reaches `t` exactly when a slider on `t` reaches `square` in the
      opposite direction: the squares between them are the same. */
  lemma ReachesReversed(square: int, d: int, t: int, occupied: ulong)
    requires IsSquare(square) && 0 <= d < 8
    ensures 0 <= Opposite(d) < 8
    ensures Reaches(square, d, t, occupied) <==> IsSquare(t) && Reaches(t, Opposite(d), square, occupied)
  {
    RayReversed(square, d, t);
    if OnRay(square, d, t) {
      forall u: nat
        ensures OnRay(square, d, u) && Before(d, u, t) <==> OnRay(t, Opposite(d), u) && Before(Opposite(d), u, square)
      {
        BetweenReversed(square, d, t, u);
      }
    }
  }

  // ------------------------------------------------------------ attacked squares

  /** A pawn (colour index `c`), king or knight on `s` attacks `t`. */
  ghost predicate Hits(kind: int, c: int, s: int, t: int) {
    if kind == Piece.Pawn then PawnAttack(s, c, t)
    else if kind == Piece.King then KingStep(s, t)
    else KnightJump(s, t)
  }

  /** Some piece of `kind` standing on a square of `pieces` attacks `t`. */
  ghost predicate StepAttacked(kind: int, c: int, pieces: ulong, t: int) {
    exists s :: IsSquare(s) && BitOf(pieces, s) && Hits(kind, c, s, t)
  }

  /** Some slider standing on a square of `a` or `b` reaches `t` in one of the directions
      `first` to `last - 1`. */
  ghost predicate SlideAttacked(a: ulong, b: ulong, first: int, last: int, occupied: ulong, t: int)
    requires 0 <= first <= last <= 8
  {
    exists s :: IsSquare(s) && (BitOf(a, s) || BitOf(b, s)) && SlidesTo(s, first, last, t, occupied)
  }

  ghost predicate SlidesTo(s: int, first: int, last: int, t: int, occupied: ulong)
    requires 0 <= first <= last <= 8
  {
    exists d :: first <= d < last && Reaches(s, d, t, occupied)
  }

  /** Square `t` is attacked by the side of colour `colour`: a pawn, king or knight of that
      colour attacks it, or a bishop or queen reaches it along a diagonal, or a rook or queen
      along a rank or file, over empty squares. */
  ghost predicate Attacked(pieces: seq<ulong>, occupied: ulong, colour: int, t: int)
    requires |pieces| == 16 && (colour == Piece.White || colour == Piece.Black)
  {
    var c := colour / 8;
    StepAttacked(Piece.Pawn, c, pieces[Piece.Pawn + colour], t) ||
    StepAttacked(Piece.King, c, pieces[Piece.King + colour], t) ||
    StepAttacked(Piece.Knight, c, pieces[Piece.Knight + colour], t) ||
    SlideAttacked(pieces[Piece.Bishop + colour], pieces[Piece.Queen + colour], 4, 8, occupied, t) ||
    SlideAttacked(pieces[Piece.Rook + colour], pieces[Piece.Queen + colour], 0, 4, occupied, t)
  }

  /** The table entry of a pawn (colour index `c`), king or knight on `square`. */
  function StepPattern(tables: Tables, kind: int, c: int, square: int): ulong
    requires tables.Valid() && IsSquare(square) && 0 <= c < 2
  {
    if kind == Piece.Pawn then tables.PawnCapturePatterns[square][c]
    else if kind == Piece.King then tables.KingPatterns[square]
    else tables.KnightPatterns[square]
  }

  lemma StepPatternExact(tables: Tables, kind: int, c: int, square: int, t: nat)
    requires tables.Valid() && IsSquare(square) && 0 <= c < 2
    ensures BitOf(StepPattern(tables, kind, c, square), t) <==> Hits(kind, c, square, t)
  {
    assert CaptureRow(square, tables.PawnCapturePatterns[square]);
  }

  /** One of the first three loops of `GenerateOpponentAttacks`: `bitboard |= pattern` for
      every square of `pieces`. */
  method AddStepAttacks(tables: Tables, bitboard: ulong, kind: int, c: int, pieces: ulong) returns (result: ulong)
    requires tables.Valid() && 0 <= c < 2
    ensures forall t: nat :: BitOf(result, t) <==> BitOf(bitboard, t) || StepAttacked(kind, c, pieces, t)
  {
    result := bitboard;
    var squares := Enumerate(pieces);
    SquaresExact(pieces);
    for i := 0 to |squares|
      invariant forall t: nat :: BitOf(result, t) <==>
        BitOf(bitboard, t) || exists k :: 0 <= k < i && Hits(kind, c, squares[k], t)
    {
      var square := squares[i];
      assert square in squares;
      var pattern := StepPattern(tables, kind, c, square);
      StepAdded(tables, result, kind, c, square);
      StepsAdded(bitboard, result, UOr(result, pattern), kind, c, squares, i);
      result := UOr(result, pattern);
    }
    StepEnumerated(kind, c, pieces);
  }

  /** One turn of the loop of `AddStepAttacks`: or-ing in a table entry adds its squares. */
  lemma StepAdded(tables: Tables, result: ulong, kind: int, c: int, square: int)
    requires tables.Valid() && IsSquare(square) && 0 <= c < 2
    ensures forall t: nat :: BitOf(UOr(result, StepPattern(tables, kind, c, square)), t) <==>
      BitOf(result, t) || Hits(kind, c, square, t)
  {
    forall t: nat
      ensures BitOf(UOr(result, StepPattern(tables, kind, c, square)), t) <==> BitOf(result, t) || Hits(kind, c, square, t)
    {
      UOrAt(result, StepPattern(tables, kind, c, square), t);
      StepPatternExact(tables, kind, c, square, t);
    }
  }

  /** One turn of the loop of `AddStepAttacks`: the squares `squares[i]` attacks join those
      the squares before it attack. */
  lemma StepsAdded(bitboard: ulong, before: ulong, result: ulong, kind: int, c: int, squares: seq<int>, i: int)
    requires 0 <= i < |squares|
    requires forall t: nat :: BitOf(before, t) <==> BitOf(bitboard, t) || exists k :: 0 <= k < i && Hits(kind, c, squares[k], t)
    requires forall t: nat :: BitOf(result, t) <==> BitOf(before, t) || Hits(kind, c, squares[i], t)
    ensures forall t: nat :: BitOf(result, t) <==> BitOf(bitboard, t) || exists k :: 0 <= k < i + 1 && Hits(kind, c, squares[k], t)
  {
    forall t: nat
      ensures BitOf(result, t) <==> BitOf(bitboard, t) || exists k :: 0 <= k < i + 1 && Hits(kind, c, squares[k], t)
    {
      if exists k :: 0 <= k < i + 1 && Hits(kind, c, squares[k], t) {
        var k :| 0 <= k < i + 1 && Hits(kind, c, squares[k], t);
        if k < i {
          assert BitOf(before, t);
        }
      }
    }
  }

  /** The squares of `pieces`, taken one by one, attack what the set of pieces attacks. */
  lemma StepEnumerated(kind: int, c: int, pieces: ulong)
    ensures forall t: nat :: (exists k :: 0 <= k < |Squares(pieces)| && Hits(kind, c, Squares(pieces)[k], t)) <==>
      StepAttacked(kind, c, pieces, t)
  {
    var squares := Squares(pieces);
    SquaresExact(pieces);
    forall t: nat
      ensures (exists k :: 0 <= k < |squares| && Hits(kind, c, squares[k], t)) <==> StepAttacked(kind, c, pieces, t)
    {
      if StepAttacked(kind, c, pieces, t) {
        var s :| IsSquare(s) && BitOf(pieces, s) && Hits(kind, c, s, t);
        assert s in squares;
        var k :| 0 <= k < |squares| && squares[k] == s;
      }
      if exists k :: 0 <= k < |squares| && Hits(kind, c, squares[k], t) {
        var k :| 0 <= k < |squares| && Hits(kind, c, squares[k], t);
        assert squares[k] in squares;
      }
    }
  }

  /** The inner loop of the last two loops of `GenerateOpponentAttacks`: the cut rays from
      `square` in the directions `first` to `last - 1`, or-ed into `bitboard`. */
  method AddRays(tables: Tables, bitboard: ulong, square: int, first: int, last: int, occupied: ulong)
    returns (result: ulong)
    requires tables.Valid() && IsSquare(square) && 0 <= first <= last <= 8
    ensures forall t: nat :: BitOf(result, t) <==> BitOf(bitboard, t) || SlidesTo(square, first, last, t, occupied)
  {
    result := bitboard;
    for directionIndex := first to last
      invariant forall t: nat :: BitOf(result, t) <==>
        BitOf(bitboard, t) || exists d :: first <= d < directionIndex && Reaches(square, d, t, occupied)
    {
      var pattern := SlidingAttack(tables, square, directionIndex, occupied);
      forall t: nat
        ensures BitOf(UOr(result, pattern), t) <==> BitOf(result, t) || Reaches(square, directionIndex, t, occupied)
      {
        UOrAt(result, pattern, t);
        SlidingAttackExact(tables, square, directionIndex, occupied, t);
      }
      result := UOr(result, pattern);
    }
  }

  /** The last two loops of `GenerateOpponentAttacks`: for every square of `a | b`, the cut
      rays of the directions `first` to `last - 1`. */
  method AddSlidingAttacks(tables: Tables, bitboard: ulong, a: ulong, b: ulong, first: int, last: int, occupied: ulong)
    returns (result: ulong)
    requires tables.Valid() && 0 <= first <= last <= 8
    ensures forall t: nat :: BitOf(result, t) <==> BitOf(bitboard, t) || SlideAttacked(a, b, first, last, occupied, t)
  {
    result := bitboard;
    var sliders := UOr(a, b);
    var squares := Enumerate(sliders);
    SquaresExact(sliders);
    for i := 0 to |squares|
      invariant forall t: nat :: BitOf(result, t) <==>
        BitOf(bitboard, t) || exists k :: 0 <= k < i && SlidesTo(squares[k], first, last, t, occupied)
    {
      var square := squares[i];
      assert square in squares;
      ghost var before := result;
      result := AddRays(tables, result, square, first, last, occupied);
      SlidersAdded(bitboard, before, result, squares, i, first, last, occupied);
    }
    SlideEnumerated(a, b, first, last, occupied);
  }

  /** One turn of the loop of `AddSlidingAttacks`: the rays of `squares[i]` join those of
      the squares before it. */
  lemma SlidersAdded(bitboard: ulong, before: ulong, result: ulong, squares: seq<int>, i: int, first: int, last: int, occupied: ulong)
    requires 0 <= i < |squares| && 0 <= first <= last <= 8
    requires forall t: nat :: BitOf(before, t) <==>
      BitOf(bitboard, t) || exists k :: 0 <= k < i && SlidesTo(squares[k], first, last, t, occupied)
    requires forall t: nat :: BitOf(result, t) <==> BitOf(before, t) || SlidesTo(squares[i], first, last, t, occupied)
    ensures forall t: nat :: BitOf(result, t) <==>
      BitOf(bitboard, t) || exists k :: 0 <= k < i + 1 && SlidesTo(squares[k], first, last, t, occupied)
  {
    forall t: nat
      ensures BitOf(result, t) <==> BitOf(bitboard, t) || exists k :: 0 <= k < i + 1 && SlidesTo(squares[k], first, last, t, occupied)
    {
      if exists k :: 0 <= k < i + 1 && SlidesTo(squares[k], first, last, t, occupied) {
        var k :| 0 <= k < i + 1 && SlidesTo(squares[k], first, last, t, occupied);
        if k < i {
          assert BitOf(before, t);
        }
      }
    }
  }

  /** The squares of `a | b`, taken one by one, attack what the sliders attack. */
  lemma SlideEnumerated(a: ulong, b: ulong, first: int, last: int, occupied: ulong)
    requires 0 <= first <= last <= 8
    ensures forall t: nat :: (exists k :: 0 <= k < |Squares(UOr(a, b))| && SlidesTo(Squares(UOr(a, b))[k], first, last, t, occupied)) <==>
      SlideAttacked(a, b, first, last, occupied, t)
  {
    var squares := Squares(UOr(a, b));
    SquaresExact(UOr(a, b));
    forall t: nat
      ensures (exists k :: 0 <= k < |squares| && SlidesTo(squares[k], first, last, t, occupied)) <==>
        SlideAttacked(a, b, first, last, occupied, t)
    {
      if SlideAttacked(a, b, first, last, occupied, t) {
        var s :| IsSquare(s) && (BitOf(a, s) || BitOf(b, s)) && SlidesTo(s, first, last, t, occupied);
        UOrAt(a, b, s);
        assert s in squares;
        var k :| 0 <= k < |squares| && squares[k] == s;
      }
      if exists k :: 0 <= k < |squares| && SlidesTo(squares[k], first, last, t, occupied) {
        var k :| 0 <= k < |squares| && SlidesTo(squares[k], first, last, t, occupied);
        assert squares[k] in squares;
        UOrAt(a, b, squares[k]);
      }
    }
  }

  /** Every square the side not to move attacks: the squares its pawns, king and knights
      attack and the rays of its sliders up to the first occupied square. The pawn patterns
      are read for the colour index opposite to the side to move. */
  method GenerateOpponentAttacks(tables: Tables, pieces: array<ulong>, occupied: ulong, colourToMove: int)
    returns (bitboard: ulong)
    requires tables.Valid() && pieces.Length == 16
    requires colourToMove == Piece.White || colourToMove == Piece.Black
    ensures forall t: nat :: BitOf(bitboard, t) <==> Attacked(pieces[..], occupied, Piece.OpponentOf(colourToMove), t)
  {
    bitboard := 0;
    var colour := Piece.OpponentOf(colourToMove);
    var c := Piece.OtherIndex(colourToMove / 8);
    forall t: nat
      ensures !BitOf(0, t)
    {
      ZeroBits(t);
    }
    bitboard := AddStepAttacks(tables, bitboard, Piece.Pawn, c, pieces[Piece.WithColour(Piece.Pawn, colour)]);
    bitboard := AddStepAttacks(tables, bitboard, Piece.King, c, pieces[Piece.WithColour(Piece.King, colour)]);
    bitboard := AddStepAttacks(tables, bitboard, Piece.Knight, c, pieces[Piece.WithColour(Piece.Knight, colour)]);
    bitboard := AddSlidingAttacks(tables, bitboard, pieces[Piece.WithColour(Piece.Bishop, colour)],
      pieces[Piece.WithColour(Piece.Queen, colour)], 4, 8, occupied);
    bitboard := AddSlidingAttacks(tables, bitboard, pieces[Piece.WithColour(Piece.Rook, colour)],
      pieces[Piece.WithColour(Piece.Queen, colour)], 0, 4, occupied);
  }

  // ------------------------------------------------------------ seen from the square

  /** Pawn attacks, king steps and knight jumps look the same from both ends, a pawn's with
      the colour index swapped. */
  lemma HitsSymmetric(kind: int, c: int, s: int, t: int)
    requires IsSquare(s) && IsSquare(t) && 0 <= c < 2
    ensures Hits(kind, 1 - c, t, s) <==> Hits(kind, c, s, t)
  {
    Coords(s);
    Coords(t);
  }

  /** Two bitboards meet exactly when they share a square. */
  lemma AndNonZero(p: ulong, q: ulong)
    ensures UAnd(p, q) != 0 <==> exists s: nat :: BitOf(p, s) && BitOf(q, s)
  {
    var x := UAnd(p, q);
    NonZero(x);
    if x != 0 {
      var s: nat :| BitOf(x, s);
      UAndAt(p, q, s);
    }
    if exists s: nat :: BitOf(p, s) && BitOf(q, s) {
      var s: nat :| BitOf(p, s) && BitOf(q, s);
      UAndAt(p, q, s);
    }
  }

  /** The pattern of `square` for the other colour index (pawns) or for any (king, knight)
      meets `pieces` exactly when one of those pieces attacks `square`. */
  lemma StepSeen(tables: Tables, kind: int, c: int, pieces: ulong, square: int)
    requires tables.Valid() && IsSquare(square) && 0 <= c < 2
    ensures UAnd(StepPattern(tables, kind, 1 - c, square), pieces) != 0 <==> StepAttacked(kind, c, pieces, square)
  {
    var pattern := StepPattern(tables, kind, 1 - c, square);
    AndNonZero(pattern, pieces);
    if UAnd(pattern, pieces) != 0 {
      var s: nat :| BitOf(pattern, s) && BitOf(pieces, s);
      StepPatternExact(tables, kind, 1 - c, square, s);
      HitsSymmetric(kind, c, s, square);
    }
    if StepAttacked(kind, c, pieces, square) {
      var s :| IsSquare(s) && BitOf(pieces, s) && Hits(kind, c, s, square);
      StepPatternExact(tables, kind, 1 - c, square, s);
      HitsSymmetric(kind, c, s, square);
    }
  }

  /** The cut ray from `square` in direction `d` meets a piece of `a` or `b`. */
  ghost predicate RayMeets(square: int, d: int, a: ulong, b: ulong, occupied: ulong)
    requires 0 <= d < 8
  {
    exists s :: IsSquare(s) && (BitOf(a, s) || BitOf(b, s)) && Reaches(square, d, s, occupied)
  }

  lemma RaySeen(tables: Tables, square: int, d: int, a: ulong, b: ulong, occupied: ulong)
    requires tables.Valid() && IsSquare(square) && 0 <= d < 8
    ensures UAnd(SlidingAttack(tables, square, d, occupied), UOr(a, b)) != 0 <==> RayMeets(square, d, a, b, occupied)
  {
    var pattern := SlidingAttack(tables, square, d, occupied);
    AndNonZero(pattern, UOr(a, b));
    if UAnd(pattern, UOr(a, b)) != 0 {
      var s: nat :| BitOf(pattern, s) && BitOf(UOr(a, b), s);
      SlidingAttackExact(tables, square, d, occupied, s);
      UOrAt(a, b, s);
      assert IsSquare(s) && (BitOf(a, s) || BitOf(b, s)) && Reaches(square, d, s, occupied);
    }
    if RayMeets(square, d, a, b, occupied) {
      var s :| IsSquare(s) && (BitOf(a, s) || BitOf(b, s)) && Reaches(square, d, s, occupied);
      SlidingAttackExact(tables, square, d, occupied, s);
      UOrAt(a, b, s);
      assert BitOf(pattern, s) && BitOf(UOr(a, b), s);
    }
  }

  /** The cut ray from `square` in direction `d` meets a piece of colour `colour` that
      slides that way: a rook or queen along a rank or file, a bishop or queen along a
      diagonal. */
  ghost predicate SeesSlider(pieces: seq<ulong>, colour: int, square: int, d: int, occupied: ulong)
    requires |pieces| == 16 && (colour == Piece.White || colour == Piece.Black) && 0 <= d < 8
  {
    RayMeets(square, d, pieces[(if d < 4 then Piece.Rook else Piece.Bishop) + colour], pieces[Piece.Queen + colour], occupied)
  }

  /** A rook or queen (`first` 0) or a bishop or queen (`first` 4) of colour `colour`
      reaches `square` exactly when the cut ray from `square` meets one in one of the four
      directions from `first`. */
  lemma SlideSeen(pieces: seq<ulong>, colour: int, first: int, occupied: ulong, square: int)
    requires |pieces| == 16 && (colour == Piece.White || colour == Piece.Black) && IsSquare(square)
    requires first == 0 || first == 4
    ensures SlideAttacked(pieces[(if first == 0 then Piece.Rook else Piece.Bishop) + colour], pieces[Piece.Queen + colour],
        first, first + 4, occupied, square) <==>
      exists d :: first <= d < first + 4 && SeesSlider(pieces, colour, square, d, occupied)
  {
    var a := pieces[(if first == 0 then Piece.Rook else Piece.Bishop) + colour];
    var b := pieces[Piece.Queen + colour];
    if SlideAttacked(a, b, first, first + 4, occupied, square) {
      var s :| IsSquare(s) && (BitOf(a, s) || BitOf(b, s)) && SlidesTo(s, first, first + 4, square, occupied);
      var d :| first <= d < first + 4 && Reaches(s, d, square, occupied);
      ReachesReversed(s, d, square, occupied);
      RayReversed(s, d, square);
      assert RayMeets(square, Opposite(d), a, b, occupied);
      assert SeesSlider(pieces, colour, square, Opposite(d), occupied);
    }
    if exists d :: first <= d < first + 4 && SeesSlider(pieces, colour, square, d, occupied) {
      var d :| first <= d < first + 4 && SeesSlider(pieces, colour, square, d, occupied);
      assert RayMeets(square, d, a, b, occupied);
      var s :| IsSquare(s) && (BitOf(a, s) || BitOf(b, s)) && Reaches(square, d, s, occupied);
      ReachesReversed(square, d, s, occupied);
      RayReversed(square, d, s);
      assert SlidesTo(s, first, first + 4, square, occupied);
    }
  }

  /** `Attacked`, in the order `IsAttacked` looks: pawns, knights, the eight rays, king. */
  lemma AttackedSeen(pieces: seq<ulong>, occupied: ulong, colour: int, square: int)
    requires |pieces| == 16 && (colour == Piece.White || colour == Piece.Black) && IsSquare(square)
    ensures Attacked(pieces, occupied, colour, square) <==>
      StepAttacked(Piece.Pawn, colour / 8, pieces[Piece.Pawn + colour], square) ||
      StepAttacked(Piece.Knight, colour / 8, pieces[Piece.Knight + colour], square) ||
      (exists d :: 0 <= d < 8 && SeesSlider(pieces, colour, square, d, occupied)) ||
      StepAttacked(Piece.King, colour / 8, pieces[Piece.King + colour], square)
  {
    SlideSeen(pieces, colour, 0, occupied, square);
    SlideSeen(pieces, colour, 4, occupied, square);
  }

  /** The loop of `IsAttacked` over the eight directions: whether some cut ray from `square`
      meets a piece of colour `colour` that slides along it. */
  method RaysMeetSliders(tables: Tables, pieces: array<ulong>, occupied: ulong, colour: int, square: int)
    returns (seen: bool)
    requires tables.Valid() && pieces.Length == 16 && IsSquare(square)
    requires colour == Piece.White || colour == Piece.Black
    ensures seen <==> exists d :: 0 <= d < 8 && SeesSlider(pieces[..], colour, square, d, occupied)
  {
    var queens := pieces[Piece.WithColour(Piece.Queen, colour)];
    for directionIndex := 0 to 8
      invariant forall d :: 0 <= d < directionIndex ==> !SeesSlider(pieces[..], colour, square, d, occupied)
    {
      var pattern := SlidingAttack(tables, square, directionIndex, occupied);
      var sliders := pieces[Piece.WithColour(if directionIndex < 4 then Piece.Rook else Piece.Bishop, colour)];
      RaySeen(tables, square, directionIndex, sliders, queens, occupied);
      if UAnd(pattern, UOr(sliders, queens)) != 0 {
        assert SeesSlider(pieces[..], colour, square, directionIndex, occupied);
        return true;
      }
    }
    return false;
  }

  /** Whether the side of colour `colour` attacks `square`, looked at from the square: the
      pawn pattern of the other colour index, the knight pattern, the cut rays in all eight
      directions (rook or queen along ranks and files, bishop or queen along diagonals) and
      the king pattern, each against that side's pieces. */
  method IsAttacked(tables: Tables, pieces: array<ulong>, occupied: ulong, colour: int, square: int)
    returns (attacked: bool)
    requires tables.Valid() && pieces.Length == 16 && IsSquare(square)
    requires colour == Piece.White || colour == Piece.Black
    ensures attacked <==> Attacked(pieces[..], occupied, colour, square)
  {
    var c := colour / 8;
    AttackedSeen(pieces[..], occupied, colour, square);
    assert c == 0 || c == 1;
    var pawns := pieces[Piece.WithColour(Piece.Pawn, colour)];
    StepSeen(tables, Piece.Pawn, c, pawns, square);
    if UAnd(tables.PawnCapturePatterns[square][Piece.OtherIndex(c)], pawns) != 0 {
      return true;
    }
    var knights := pieces[Piece.WithColour(Piece.Knight, colour)];
    StepSeen(tables, Piece.Knight, c, knights, square);
    if UAnd(tables.KnightPatterns[square], knights) != 0 {
      return true;
    }
    var sliding := RaysMeetSliders(tables, pieces, occupied, colour, square);
    if sliding {
      return true;
    }
    var king := pieces[Piece.WithColour(Piece.King, colour)];
    StepSeen(tables, Piece.King, c, king, square);
    if UAnd(tables.KingPatterns[square], king) != 0 {
      return true;
    }
    return false;
  }
}
