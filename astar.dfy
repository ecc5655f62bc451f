// ConsoleApp/Algorithm/AStarPathFinding.cs: A* search on a grid of '0' (walkable) and '1'
// (blocked) cells with the eight neighbours of a cell, straight steps costing 10 and
// diagonal ones 14.
//
// `Nodes[x, y]` holds the only node at (x, y), so a node is named here by its cell, and a
// `Parent` reference by the parent's cell. A node's mutable part (`GCost`, `HCost`,
// `Parent`) lives in an array indexed like `Nodes`.

module AStar {
  import opened CSharp

  datatype Cell = Cell(x: int, y: int)

  /** The part of a `Node` that `FindPath` changes. */
  datatype Node = Node(gCost: int, hCost: int, parent: Option<Cell>)

  function FCost(n: Node): int { n.gCost + n.hCost }

  function Min(a: int, b: int): int { if a < b then a else b }

  function Max(a: int, b: int): int { if a < b then b else a }

  // ----------------------------------------------------------------- GetDistance

  /** `GetDistance(A, B)`: diagonal steps, costing 14, while both coordinates differ, then
      straight steps costing 10. */
  function Distance(a: Cell, b: Cell): int {
    Steps(a.x - b.x, a.y - b.y)
  }

  /** The cost of a move by `dx` columns and `dy` rows. */
  function Steps(dx: int, dy: int): int {
    14 * Min(Abs(dx), Abs(dy)) + 10 * Abs(Abs(dx) - Abs(dy))
  }

  /** The same cost as 10 per step along the longer side and 4 more per diagonal, or as
      6 times the larger difference plus 4 times both. */
  lemma StepsForms(dx: int, dy: int)
    ensures Steps(dx, dy) == 10 * Max(Abs(dx), Abs(dy)) + 4 * Min(Abs(dx), Abs(dy))
    ensures Steps(dx, dy) == 6 * Max(Abs(dx), Abs(dy)) + 4 * (Abs(dx) + Abs(dy))
  {
  }

  /** The distance is symmetric, never negative, and 0 exactly between a cell and itself. */
  lemma DistanceMetric(a: Cell, b: Cell)
    ensures Distance(a, b) == Distance(b, a) >= 0
    ensures Distance(a, b) == 0 <==> a == b
  {
  }

  /** Going through a third cell is never shorter, so the estimate `HCost` never
      overestimates a path of single steps. */
  lemma Triangle(a: Cell, b: Cell, c: Cell)
    ensures Distance(a, c) <= Distance(a, b) + Distance(b, c)
  {
    var x1, y1, x2, y2, x3, y3 := a.x - b.x, a.y - b.y, b.x - c.x, b.y - c.y, a.x - c.x, a.y - c.y;
    DistanceForm(a, b);
    DistanceForm(b, c);
    DistanceForm(a, c);
    SumBelow(x1, x2, x3);
    SumBelow(y1, y2, y3);
    MaxBelow(Abs(x1), Abs(y1), Abs(x2), Abs(y2), Abs(x3), Abs(y3));
    Combine(Distance(a, b), Distance(b, c), Distance(a, c),
      Max(Abs(x1), Abs(y1)), Max(Abs(x2), Abs(y2)), Max(Abs(x3), Abs(y3)),
      Abs(x1) + Abs(y1), Abs(x2) + Abs(y2), Abs(x3) + Abs(y3));
  }

  /** The distance as 6 times the larger difference plus 4 times both. */
  lemma DistanceForm(a: Cell, b: Cell)
    ensures Distance(a, b) == 6 * Max(Abs(a.x - b.x), Abs(a.y - b.y)) + 4 * (Abs(a.x - b.x) + Abs(a.y - b.y))
  {
    StepsForms(a.x - b.x, a.y - b.y);
  }

  lemma Combine(s1: int, s2: int, s3: int, m1: int, m2: int, m3: int, t1: int, t2: int, t3: int)
    requires s1 == 6 * m1 + 4 * t1 && s2 == 6 * m2 + 4 * t2 && s3 == 6 * m3 + 4 * t3
    requires m3 <= m1 + m2 && t3 <= t1 + t2
    ensures s3 <= s1 + s2
  {
  }

  lemma SumBelow(u: int, v: int, w: int)
    requires w == u + v
    ensures Abs(w) <= Abs(u) + Abs(v)
  {
  }

  lemma MaxBelow(a1: int, b1: int, a2: int, b2: int, a3: int, b3: int)
    requires a3 <= a1 + a2 && b3 <= b1 + b2
    ensures Max(a3, b3) <= Max(a1, b1) + Max(a2, b2)
  {
  }

  /** One of the eight neighbours of a cell. */
  predicate Adjacent(a: Cell, b: Cell) {
    a != b && -1 <= a.x - b.x <= 1 && -1 <= a.y - b.y <= 1
  }

  /** A step to a neighbour costs 10 straight and 14 diagonally. */
  lemma NeighbourCost(a: Cell, b: Cell)
    requires Adjacent(a, b)
    ensures Distance(a, b) == (if a.x == b.x || a.y == b.y then 10 else 14)
  {
  }

  // ------------------------------------------------------------------ the grid

  /** What the constructor accepts: at least one row, all rows as long as the first, and
      only '0' and '1'. */
  ghost predicate WellFormed(rows: seq<string>) {
    |rows| > 0 && (forall i | 0 <= i < |rows| :: |rows[i]| == |rows[0]|) &&
    forall i, j | 0 <= i < |rows| && 0 <= j < |rows[i]| :: rows[i][j] == '0' || rows[i][j] == '1'
  }

  function Line(c: Cell): string {
    "[ " + IntToString(c.x) + ", " + IntToString(c.y) + " ]"
  }

  /** The lines of a path after its start, one per cell, the last marked END. */
  function Body(cells: seq<Cell>): string
    requires |cells| >= 1
  {
    if |cells| == 1 then Line(cells[0]) + " END" else Line(cells[0]) + "\n" + Body(cells[1..])
  }

  lemma BodyCons(c: Cell, cells: seq<Cell>)
    requires |cells| >= 1
    ensures Body([c] + cells) == Line(c) + "\n" + Body(cells)
  {
    assert ([c] + cells)[1..] == cells;
  }

  lemma Regroup<T>(a: seq<T>, b: seq<T>, c: seq<T>)
    ensures (a + b) + c == a + (b + c)
  {
  }

  /** The text `GetPath` returns for a route from the start to the end, without the
      timing line. */
  function PathText(route: seq<Cell>): string
    requires |route| >= 2
  {
    Line(route[0]) + " START\n" + Body(route[1..]) + "\n\n  > " + IntToString(|route| - 1) + " Moves"
  }

  class AStarPathFinding {
    const rows: seq<string>
    const width: int
    const height: int
    const nodes: array2<Node>
    var open: seq<Cell>
    var closed: set<Cell>
    var found: bool
    var startNode: Option<Cell>
    var endNode: Option<Cell>

    ghost predicate Valid()
    {
      WellFormed(rows) && width == |rows[0]| && height == |rows| &&
      nodes.Length0 == width && nodes.Length1 == height
    }

    predicate InRange(c: Cell)
    {
      0 <= c.x < width && 0 <= c.y < height
    }

    /** `Nodes[x, y].Walkable`: the cell holds '0'. */
    predicate Walkable(c: Cell)
      requires Valid() && InRange(c)
    {
      rows[c.y][c.x] == '0'
    }

    function At(c: Cell): Node
      requires Valid() && InRange(c)
      reads nodes
    {
      nodes[c.x, c.y]
    }

    /** A node reached from a closed neighbour: walkable, with that neighbour as parent and
        at least one step's cost more than it. */
    ghost predicate Reached(c: Cell)
      requires Valid() && InRange(c)
      reads this`closed, nodes
    {
      Walkable(c) && At(c).parent.Some? &&
      var p := At(c).parent.value;
      p in closed && InRange(p) && Adjacent(p, c) && At(c).gCost >= At(p).gCost + 10
    }

    /** A cell of the search tree grown from `s`: the start, or reached from a closed
        neighbour. */
    ghost predicate Good(s: Cell, c: Cell)
      requires Valid()
      reads this`closed, nodes
    {
      InRange(c) && (c == s || Reached(c))
    }

    /** The search tree grown from `s`: open and closed nodes are on the grid, apart, and
        reached from a closed node, except the start, which has no parent. */
    ghost predicate Tree(s: Cell)
      reads this`open, this`closed, nodes
    {
      Valid() && InRange(s) && At(s).parent == None &&
      (forall x, y | 0 <= x < width && 0 <= y < height :: nodes[x, y].gCost >= 0) &&
      (forall c | c in open :: c !in closed) &&
      forall c {:trigger Good(s, c)} | c in closed || c in open :: Good(s, c)
    }

    /** Every cell of the grid. */
    ghost function Cells(): set<Cell>
    {
      set x, y | 0 <= x < width && 0 <= y < height :: Cell(x, y)
    }

    /** `route` goes from `a` to `b` through neighbouring cells of the grid, every cell
        after the first walkable. */
    ghost predicate IsRoute(route: seq<Cell>, a: Cell, b: Cell)
      requires Valid()
    {
      |route| >= 1 && route[0] == a && route[|route| - 1] == b &&
      (forall i | 0 <= i < |route| :: InRange(route[i])) &&
      forall i | 1 <= i < |route| :: Adjacent(route[i - 1], route[i]) && Walkable(route[i])
    }

    /** Some route leads from `a` to `b`. */
    ghost predicate Connected(a: Cell, b: Cell)
      requires Valid()
    {
      exists route :: IsRoute(route, a, b)
    }

    /** Every walkable neighbour of a closed cell is open or closed. */
    ghost predicate Bounded()
      requires Valid()
      reads this`open, this`closed
    {
      forall c, n | c in closed && InRange(n) && Adjacent(c, n) && Walkable(n) :: n in open || n in closed
    }

    /** After a search that found the end, the parents lead back from the end to the
        start. */
    ghost predicate Consistent()
      reads this`found, this`startNode, this`endNode, this`open, this`closed, nodes
    {
      Valid() &&
      (found ==> startNode.Some? && endNode.Some? && Tree(startNode.value) && endNode.value in closed)
    }

    /** `AStarPathFinding(rows)` once the rows are checked. */
    constructor (rows: seq<string>)
      requires WellFormed(rows)
      ensures this.rows == rows && Valid() && Consistent() && !found
      ensures startNode == None && endNode == None && open == [] && closed == {}
    {
      this.rows := rows;
      width := |rows[0]|;
      height := |rows|;
      nodes := new Node[|rows[0]|, |rows|]((_, _) => Node(0, 0, None));
      open := [];
      closed := {};
      found := false;
      startNode := None;
      endNode := None;
    }

    /** `GetDistance`. */
    function GetDistance(a: Cell, b: Cell): int {
      Distance(a, b)
    }

    /** `FindPath(startX, startY, endX, endY)`: resets every node, then, when both cells
        are on the grid, expands the open node with the least `FCost` (ties to the least
        `HCost`, then to the earliest) until the end node is closed or nothing is open. */
    method FindPath(startX: int, startY: int, endX: int, endY: int)
      requires Valid()
      modifies this, nodes
      ensures Valid() && Consistent()
      ensures !(InRange(Cell(startX, startY)) && InRange(Cell(endX, endY))) ==>
        !found && startNode == None && endNode == None && open == [] && closed == {}
      ensures InRange(Cell(startX, startY)) && InRange(Cell(endX, endY)) ==>
        startNode == Some(Cell(startX, startY)) && endNode == Some(Cell(endX, endY)) &&
        Tree(Cell(startX, startY)) && (found <==> Cell(endX, endY) in closed) &&
        (!found ==> open == []) && (startX == endX && startY == endY ==> found) &&
        (found <==> Connected(Cell(startX, startY), Cell(endX, endY)))
    {
      open := [];
      closed := {};
      ResetNodes();
      found := false;
      startNode := None;
      endNode := None;
      if startX < 0 || startX > width - 1 || endX < 0 || endX > width - 1 {
        return;
      }
      if startY < 0 || startY > height - 1 || endY < 0 || endY > height - 1 {
        return;
      }
      var s, e := Cell(startX, startY), Cell(endX, endY);
      startNode := Some(s);
      endNode := Some(e);
      open := [s];
      assert Good(s, s);
      Search(s, e);
    }

    /** The loop of `FindPath`, from the open list holding just the start. */
    method Search(s: Cell, e: Cell)
      requires Tree(s) && InRange(e) && open == [s] && closed == {} && !found
      requires startNode == Some(s) && endNode == Some(e)
      modifies this`open, this`closed, this`found, nodes
      ensures Tree(s) && (found <==> e in closed) && (!found ==> open == []) && (s == e ==> found)
      ensures found <==> Connected(s, e)
    {
      while |open| > 0
        invariant Tree(s) && !found && Bounded()
        invariant Distinct(open) && e !in closed
        invariant if closed == {} then open == [s] else s in closed
        invariant closed <= Cells()
        decreases |Cells() - closed|
      {
        Turn(s, e);
        if found {
          FoundRoute(s, e);
          return;
        }
      }
      if Connected(s, e) {
        var route :| IsRoute(route, s, e);
        RouteClosed(s, route, e);
      }
    }

    /** A closed end is reached by the route along the parents. */
    lemma FoundRoute(s: Cell, e: Cell)
      requires Tree(s) && e in closed
      ensures Connected(s, e)
    {
      assert Good(s, e);
      WalkSteps(s, e);
      assert IsRoute(Walk(s, e), s, e);
    }

    /** With nothing open, a route from a closed start stays among the closed cells. */
    lemma {:induction false} RouteClosed(s: Cell, route: seq<Cell>, b: Cell)
      requires Valid() && Bounded() && open == [] && s in closed && IsRoute(route, s, b)
      ensures b in closed
      decreases |route|
    {
      if |route| > 1 {
        var before := route[..|route| - 1];
        var a := route[|route| - 2];
        assert IsRoute(before, s, a) by {
          forall i | 1 <= i < |before|
            ensures Adjacent(before[i - 1], before[i]) && Walkable(before[i])
          {
            assert before[i - 1] == route[i - 1] && before[i] == route[i];
          }
        }
        RouteClosed(s, before, a);
        assert Adjacent(a, b) && InRange(b) && Walkable(b);
      }
    }

    /** One turn of the loop: the cheapest open node is closed; if it is the end node the
        search has found it, otherwise its neighbours are relaxed. */
    method Turn(s: Cell, e: Cell)
      requires Tree(s) && !found && |open| > 0 && Distinct(open) && e !in closed
      requires (if closed == {} then open == [s] else s in closed) && closed <= Cells()
      requires Bounded()
      modifies this`open, this`closed, this`found, nodes
      ensures Tree(s) && Distinct(open) && s in closed && closed <= Cells()
      ensures !found ==> Bounded()
      ensures |Cells() - closed| < |Cells() - old(closed)|
      ensures found <==> e in closed
    {
      OnGrid(s);
      var best := Cheapest();
      var current := open[best];
      assert closed == {} ==> current == s;
      InCells(current);
      ghost var before, waiting := closed, open;
      Close(s, current);
      Grows(before, current);
      if current == e {
        found := true;
        return;
      }
      ghost var rest := open;
      Expand(s, e, current);
      Rebound(waiting, before, rest, current);
    }

    /** Closing `current` and opening its walkable neighbours keeps every walkable
        neighbour of a closed cell open or closed. */
    lemma Rebound(waiting: seq<Cell>, before: set<Cell>, rest: seq<Cell>, current: Cell)
      requires Valid() && closed == before + {current}
      requires forall c, n | c in before && InRange(n) && Adjacent(c, n) && Walkable(n) :: n in waiting || n in before
      requires forall c | c in waiting && c != current :: c in rest
      requires forall c | c in rest :: c in open
      requires forall n | InRange(n) && Adjacent(current, n) && Walkable(n) && n !in closed :: n in open
      ensures Bounded()
    {
      forall c, n | c in closed && InRange(n) && Adjacent(c, n) && Walkable(n)
        ensures n in open || n in closed
      {
        if c != current && n != current {
          assert n in waiting || n in before;
        }
      }
    }

    /** Open and closed cells are on the grid. */
    lemma OnGrid(s: Cell)
      requires Tree(s)
      ensures forall c | c in open || c in closed :: InRange(c)
    {
      forall c | c in open || c in closed
        ensures InRange(c)
      {
        assert Good(s, c);
      }
    }

    /** Open and closed cells are on the grid and walkable, except the start; no open cell
        is closed. */
    lemma Explored(s: Cell)
      requires Tree(s)
      ensures forall c | c in open || c in closed :: InRange(c) && (c == s || Walkable(c))
      ensures forall c | c in open :: c !in closed
    {
      forall c | c in open || c in closed
        ensures InRange(c) && (c == s || Walkable(c))
      {
        assert Good(s, c);
      }
    }

    /** The two loops over the neighbours of `current`. */
    method Expand(ghost s: Cell, e: Cell, current: Cell)
      requires Tree(s) && s in closed && current in closed && InRange(current) && Distinct(open)
      modifies this`open, nodes
      ensures Tree(s) && Distinct(open)
      ensures forall c | c in old(open) :: c in open
      ensures forall n | InRange(n) && Adjacent(current, n) && Walkable(n) && n !in closed :: n in open
    {
      for x := -1 to 2
        invariant Tree(s) && Distinct(open)
        invariant forall c | c in old(open) :: c in open
        invariant forall n | InRange(n) && Adjacent(current, n) && Walkable(n) && n !in closed && n.x < current.x + x ::
          n in open
      {
        for y := -1 to 2
          invariant Tree(s) && Distinct(open)
          invariant forall c | c in old(open) :: c in open
          invariant forall n | InRange(n) && Adjacent(current, n) && Walkable(n) && n !in closed && n.x < current.x + x ::
            n in open
          invariant forall n | InRange(n) && Adjacent(current, n) && Walkable(n) && n !in closed &&
            n.x == current.x + x && n.y < current.y + y :: n in open
        {
          if x != 0 || y != 0 {
            Relax(s, e, current, Cell(current.x + x, current.y + y));
          }
        }
      }
    }

    /** `foreach (var node in Nodes) node.Reset()`. */
    method ResetNodes()
      requires Valid()
      modifies nodes
      ensures forall x, y | 0 <= x < width && 0 <= y < height :: nodes[x, y] == Node(0, 0, None)
    {
      for x := 0 to width
        invariant forall a, b | 0 <= a < x && 0 <= b < height :: nodes[a, b] == Node(0, 0, None)
      {
        for y := 0 to height
          invariant forall a, b | 0 <= a < x && 0 <= b < height :: nodes[a, b] == Node(0, 0, None)
          invariant forall b | 0 <= b < y :: nodes[x, b] == Node(0, 0, None)
        {
          nodes[x, y] := Node(0, 0, None);
        }
      }
    }

    /** The index of the first open node with the least `FCost`, and among those the
        least `HCost`: no open node is better, and every earlier one is worse. */
    method Cheapest() returns (best: int)
      requires Valid() && |open| > 0 && forall c | c in open :: InRange(c)
      ensures 0 <= best < |open|
      ensures forall k | 0 <= k < |open| :: !Better(open[k], open[best])
      ensures forall k | 0 <= k < best :: Better(open[best], open[k])
    {
      best := 0;
      for i := 1 to |open|
        invariant 0 <= best < i
        invariant forall k | 0 <= k < i :: !Better(open[k], open[best])
        invariant forall k | 0 <= k < best :: Better(open[best], open[k])
      {
        if Better(open[i], open[best]) {
          best := i;
        }
      }
    }

    /** The comparison of the selection loop. */
    predicate Better(a: Cell, b: Cell)
      requires Valid() && InRange(a) && InRange(b)
      reads nodes
    {
      FCost(At(a)) < FCost(At(b)) || (FCost(At(a)) == FCost(At(b)) && At(a).hCost < At(b).hCost)
    }

    /** `OpenNodes.Remove(currentNode); ClosedNodes.Add(currentNode)`. */
    method Close(ghost s: Cell, current: Cell)
      requires Tree(s) && current in open && Distinct(open)
      modifies this`open, this`closed
      ensures Tree(s) && Distinct(open) && closed == old(closed) + {current}
      ensures current !in old(closed) && open == RemoveFirst(old(open), current)
      ensures forall c | c in old(open) && c != current :: c in open
    {
      RemoveDistinct(open, current);
      open := RemoveFirst(open, current);
      closed := closed + {current};
      forall c | c in closed || c in open
        ensures Good(s, c)
      {
        assert c in old(closed) || c in old(open);
        assert old(Good(s, c));
      }
    }

    /** Whether the neighbour `next` of `current` gets `current` as its parent: it is on the
        grid, walkable and not closed, and either not open or reached more cheaply. */
    predicate Improves(current: Cell, next: Cell)
      requires Valid() && InRange(current)
      reads this`open, this`closed, nodes
    {
      InRange(next) && Walkable(next) && next !in closed &&
      (At(current).gCost + Distance(current, next) < At(next).gCost || next !in open)
    }

    /** The body of the neighbour loops for one neighbour of `current`: off the grid,
        blocked or closed cells are skipped; otherwise a cheaper route through `current`,
        or a node not yet open, takes `current` as parent and is opened. */
    method Relax(ghost s: Cell, e: Cell, current: Cell, next: Cell)
      requires Tree(s) && s in closed && current in closed && InRange(current)
      requires Adjacent(current, next) && Distinct(open)
      modifies this`open, nodes
      ensures Tree(s) && Distinct(open)
      ensures old(Improves(current, next)) ==>
        At(next) == Node(old(At(current).gCost) + Distance(current, next), Distance(next, e), Some(current)) &&
        open == old(open) + (if next in old(open) then [] else [next])
      ensures !old(Improves(current, next)) ==> open == old(open) && (InRange(next) ==> At(next) == old(At(next)))
      ensures forall x, y | 0 <= x < width && 0 <= y < height && (x != next.x || y != next.y) ::
        nodes[x, y] == old(nodes[x, y])
    {
      if next.x < 0 || next.x > width - 1 || next.y < 0 || next.y > height - 1 {
        return;
      }
      if !Walkable(next) || next in closed {
        return;
      }
      var newCost := At(current).gCost + GetDistance(current, next);
      if newCost < At(next).gCost || next !in open {
        Adopt(s, e, current, next);
      }
    }

    /** `newNode` takes `currentNode` as its parent, with the costs through it, and is
        opened if it was not open. */
    method Adopt(ghost s: Cell, e: Cell, current: Cell, next: Cell)
      requires Tree(s) && s in closed && current in closed && InRange(current)
      requires Adjacent(current, next) && Distinct(open) && InRange(next) && Walkable(next) && next !in closed
      modifies this`open, nodes
      ensures Tree(s) && Distinct(open)
      ensures At(next) == Node(old(At(current).gCost) + Distance(current, next), Distance(next, e), Some(current))
      ensures open == old(open) + (if next in old(open) then [] else [next])
      ensures forall x, y | 0 <= x < width && 0 <= y < height && (x != next.x || y != next.y) ::
        nodes[x, y] == old(nodes[x, y])
    {
      var newCost := At(current).gCost + GetDistance(current, next);
      NeighbourCost(current, next);
      assert next != s;
      nodes[next.x, next.y] := Node(newCost, GetDistance(next, e), Some(current));
      if next !in open {
        open := open + [next];
      }
      forall c | c in closed || c in open
        ensures Good(s, c)
      {
        if c != next {
          assert old(Good(s, c));
          if c != s {
            assert old(At(c)).parent.value != next;
          }
        }
      }
    }

    lemma InCells(c: Cell)
      requires InRange(c)
      ensures c in Cells()
    {
      assert c == Cell(c.x, c.y);
    }

    /** Each turn closes one more cell of the grid. */
    lemma Grows(before: set<Cell>, current: Cell)
      requires current !in before && closed == before + {current} && closed <= Cells()
      ensures |Cells() - closed| < |Cells() - before|
    {
      assert Cells() - before == (Cells() - closed) + {current};
    }

    /** The route the parents give from the start `s` to a closed cell `c`. */
    ghost function Walk(s: Cell, c: Cell): (route: seq<Cell>)
      requires Tree(s) && c in closed && Good(s, c)
      reads this`open, this`closed, nodes
      ensures |route| >= 1 && route[0] == s && route[|route| - 1] == c
      decreases At(c).gCost
    {
      if c == s then [s] else assert Good(s, c); Walk(s, At(c).parent.value) + [c]
    }

    /** One step back along the parents. */
    lemma WalkStep(s: Cell, c: Cell)
      requires Tree(s) && c in closed && Good(s, c) && c != s
      ensures At(c).parent.Some? && At(c).parent.value in closed
      ensures At(At(c).parent.value).gCost < At(c).gCost
      ensures Walk(s, c) == Walk(s, At(c).parent.value) + [c]
    {
      assert Good(s, c);
    }

    /** The route is a walk through neighbouring cells, all walkable after the start. */
    lemma {:induction false} WalkSteps(s: Cell, c: Cell)
      requires Tree(s) && c in closed && Good(s, c)
      ensures var route := Walk(s, c);
        (forall i | 0 <= i < |route| :: InRange(route[i])) &&
        (forall i | 1 <= i < |route| :: Adjacent(route[i - 1], route[i]) && Walkable(route[i]))
      decreases At(c).gCost
    {
      assert Good(s, c);
      if c != s {
        WalkStep(s, c);
        var p := At(c).parent.value;
        WalkSteps(s, p);
        var r := Walk(s, p);
        var route := r + [c];
        assert Walk(s, c) == route;
        forall i | 0 <= i < |route|
          ensures InRange(route[i])
        {
          if i < |r| {
            assert route[i] == r[i];
          }
        }
        forall i | 1 <= i < |route|
          ensures Adjacent(route[i - 1], route[i]) && Walkable(route[i])
        {
          if i < |r| {
            assert route[i] == r[i] && route[i - 1] == r[i - 1];
          } else {
            assert route[i - 1] == p && route[i] == c;
          }
        }
      }
    }

    /** `GetPath()`: the message when no path was found; otherwise the cells from the start
        to the end along the parents. When the start is the end, the end has no parent and
        the loop dereferences null. */
    method GetPath() returns (r: Outcome<string>)
      requires Consistent()
      ensures !found ==> r == Returns("No paths found to end")
      ensures found && startNode == endNode ==> r == Throws(NullReference)
      ensures found && startNode != endNode ==>
        |Walk(startNode.value, endNode.value)| >= 2 &&
        r == Returns(PathText(Walk(startNode.value, endNode.value)))
    {
      if !found {
        return Returns("No paths found to end");
      }
      var s, e := startNode.value, endNode.value;
      if s == e {
        return Throws(NullReference);
      }
      var path := Trace(s, e);
      return Returns(path);
    }

    /** One turn of the loop of `GetPath`: a step back to the parent. */
    lemma TraceStep(s: Cell, e: Cell, node: Cell, after: seq<Cell>, path: string)
      requires Tree(s) && e in closed && Good(s, e) && node in closed && Good(s, node) && node != s
      requires Walk(s, node) + after == Walk(s, e) && |after| >= 1 && path == Body(after)
      ensures var p := At(node).parent.value;
        p in closed && Good(s, p) && At(p).gCost < At(node).gCost &&
        Walk(s, p) + ([node] + after) == Walk(s, e) && Line(node) + "\n" + path == Body([node] + after)
    {
      WalkStep(s, node);
      var p := At(node).parent.value;
      assert Good(s, p);
      Regroup(Walk(s, p), [node], after);
      BodyCons(node, after);
    }

    /** The loop of `GetPath` and the text around it. */
    method Trace(s: Cell, e: Cell) returns (path: string)
      requires Tree(s) && e in closed && Good(s, e) && e != s
      ensures |Walk(s, e)| >= 2 && path == PathText(Walk(s, e))
    {
      var moves := 1;
      path := Line(e) + " END";
      WalkStep(s, e);
      var node := At(e).parent.value;
      ghost var after := [e];
      while node != s
        invariant node in closed && Good(s, node) && Walk(s, node) + after == Walk(s, e)
        invariant |after| >= 1 && path == Body(after) && moves == |after|
        decreases At(node).gCost
      {
        TraceStep(s, e, node, after, path);
        path := Line(node) + "\n" + path;
        after := [node] + after;
        node := At(node).parent.value;
        moves := moves + 1;
      }
      assert Walk(s, e) == [s] + after;
      assert Walk(s, e)[1..] == after;
      path := Line(s) + " START\n" + path + "\n\n  > " + IntToString(moves) + " Moves";
    }
  }

  predicate Distinct<T(==)>(s: seq<T>) {
    forall i, j | 0 <= i < j < |s| :: s[i] != s[j]
  }

  /** `List.Remove(x)`: drops the first occurrence of `x`. */
  function RemoveFirst<T(==)>(s: seq<T>, x: T): seq<T> {
    if s == [] then [] else if s[0] == x then s[1..] else [s[0]] + RemoveFirst(s[1..], x)
  }

  /** From a list without repetitions `Remove` takes out exactly `x`. */
  lemma {:induction false} RemoveDistinct<T>(s: seq<T>, x: T)
    requires Distinct(s) && x in s
    ensures var r := RemoveFirst(s, x); Distinct(r) && (forall y :: y in r <==> y in s && y != x)
  {
    assert Distinct(s[1..]);
    if s[0] != x {
      RemoveDistinct(s[1..], x);
      assert s[0] !in RemoveFirst(s[1..], x);
    } else {
      assert x !in s[1..];
    }
  }

  /** `new AStarPathFinding(rows)`: throws `ArgumentException` for no rows, a row of another
      length than the first, or a character other than '0' and '1'. */
  method Create(rows: seq<string>) returns (r: Outcome<AStarPathFinding>)
    ensures !WellFormed(rows) <==> r == Throws(Argument)
    ensures r.Returns? ==> fresh(r.value) && r.value.rows == rows && r.value.Valid() && !r.value.found
  {
    if |rows| == 0 {
      return Throws(Argument);
    }
    for i := 1 to |rows|
      invariant forall k | 0 <= k < i :: |rows[k]| == |rows[0]|
    {
      if |rows[i]| != |rows[0]| {
        return Throws(Argument);
      }
    }
    for i := 0 to |rows|
      invariant forall a, b | 0 <= a < i && 0 <= b < |rows[a]| :: rows[a][b] == '0' || rows[a][b] == '1'
    {
      for j := 0 to |rows[i]|
        invariant forall a, b | 0 <= a < i && 0 <= b < |rows[a]| :: rows[a][b] == '0' || rows[a][b] == '1'
        invariant forall b | 0 <= b < j :: rows[i][b] == '0' || rows[i][b] == '1'
      {
        if rows[i][j] != '1' && rows[i][j] != '0' {
          return Throws(Argument);
        }
      }
    }
    var finder := new AStarPathFinding(rows);
    return Returns(finder);
  }
}
