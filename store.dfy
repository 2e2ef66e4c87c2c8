/** The maze store: the generated grid, the player's cell, and the two
    timestamps of a game. Moving the player goes through open walls only,
    so the player always stays on the grid, and every cell, the exit among
    them, can be reached from the start by some sequence of updateXPosition
    and updateYPosition calls. */
module Store {
  import opened Grid
  import opened Graph
  import opened Generator

  /** The side a horizontal move request asks for: its sign picks left or
      right, and zero asks for no move. */
  function HorizontalSide(x: int): (d: Direction)
    ensures d in {Left, Right, Null}
    ensures (d == Left) <==> (x < 0)
    ensures (d == Right) <==> (x > 0)
    ensures (d == Null) <==> (x == 0)
  {
    if x < 0 then Left else if x > 0 then Right else Null
  }

  /** The side a vertical move request asks for: negative is up (top),
      positive is down (bottom), zero is no move. */
  function VerticalSide(y: int): (d: Direction)
    ensures d in {Top, Bottom, Null}
    ensures (d == Top) <==> (y < 0)
    ensures (d == Bottom) <==> (y > 0)
    ensures (d == Null) <==> (y == 0)
  {
    if y < 0 then Top else if y > 0 then Bottom else Null
  }

  /** Where the player in cell `p`, whose walls are `border`, ends up after
      asking to move through side `d`: the wall on that side must be open. */
  function Move(p: Pos, border: Border, d: Direction): (q: Pos)
    ensures q == p || (d != Null && !border.Get(d) && Adjacent(p, q))
  {
    if d != Null && !border.Get(d) then Step(p, d) else p
  }

  /** updateXPosition's cases: a negative request through an open left
      wall decrements x, a positive one through an open right wall
      increments x, anything else stays put; y never changes. */
  lemma HorizontalMove(p: Pos, border: Border, x: int)
    ensures var q := Move(p, border, HorizontalSide(x));
      q.y == p.y &&
      (q.x == p.x - 1 <==> x < 0 && !border.left) &&
      (q.x == p.x + 1 <==> x > 0 && !border.right) &&
      (q == p <==> x == 0 || (x < 0 && border.left) || (x > 0 && border.right))
  {
  }

  /** updateYPosition's cases: a negative request through an open top wall
      decrements y, a positive one through an open bottom wall increments
      y, anything else stays put; x never changes. */
  lemma VerticalMove(p: Pos, border: Border, y: int)
    ensures var q := Move(p, border, VerticalSide(y));
      q.x == p.x &&
      (q.y == p.y - 1 <==> y < 0 && !border.top) &&
      (q.y == p.y + 1 <==> y > 0 && !border.bottom) &&
      (q == p <==> y == 0 || (y < 0 && border.top) || (y > 0 && border.bottom))
  {
  }

  /** A move request: one call of updateXPosition or updateYPosition with
      a signed distance. */
  datatype Request = Horizontal(dx: int) | Vertical(dy: int)

  function Side(r: Request): Direction {
    match r
    case Horizontal(dx) => HorizontalSide(dx)
    case Vertical(dy) => VerticalSide(dy)
  }

  /** A request that asks for side `d`. */
  function RequestFor(d: Direction): (r: Request)
    requires d != Null
    ensures Side(r) == d
  {
    match d
    case Top => Vertical(-1)
    case Bottom => Vertical(1)
    case Left => Horizontal(-1)
    case Right => Horizontal(1)
  }

  /** A move from a cell of a grid whose outer walls are closed stays on the grid. */
  lemma MoveStaysInside(arr: array2<Cell>, size: int, p: Pos, d: Direction)
    requires BoundaryClosed(arr, size) && InBounds(p, size)
    ensures InBounds(Move(p, arr[p.y, p.x].border, d), size)
  {
  }

  /** A move either stays put or crosses an open wall of the grid. */
  lemma MoveFollowsOpenWall(arr: array2<Cell>, size: int, p: Pos, d: Direction)
    requires BoundaryClosed(arr, size) && InBounds(p, size)
    ensures var q := Move(p, arr[p.y, p.x].border, d);
      q == p || {p, q} in OpenPairs(arr, size)
  {
    var q := Move(p, arr[p.y, p.x].border, d);
    if q != p {
      assert Pos(p.y, p.x) == p && d in Sides;
    }
  }

  /** A move can be undone: after crossing a wall, asking for the reverse
      side leads back, since the wall is open from both sides. */
  lemma MoveBack(arr: array2<Cell>, size: int, p: Pos, d: Direction)
    requires Symmetric(arr, size) && BoundaryClosed(arr, size) && InBounds(p, size)
    requires Move(p, arr[p.y, p.x].border, d) != p
    ensures var q := Move(p, arr[p.y, p.x].border, d);
      Move(q, arr[q.y, q.x].border, ReverseDirection(d)) == p
  {
    assert p == Pos(p.y, p.x);
  }

  /** Two equal pairs of distinct cells list the same cells, in one order or the other. */
  lemma PairCases(a: Pos, b: Pos, p: Pos, q: Pos)
    requires p != q && {a, b} == {p, q}
    ensures (a == p && b == q) || (a == q && b == p)
  {
    assert a in {p, q} && b in {p, q};
  }

  /** An open wall of an in-bounds cell facing an in-bounds neighbour is
      crossed by the request for its side, and back by the request for
      the reverse side. */
  lemma CrossOpenWall(arr: array2<Cell>, size: int, p: Pos, d: Direction)
    requires Symmetric(arr, size) && InBounds(p, size)
    requires d != Null && InBounds(Step(p, d), size) && !arr[p.y, p.x].border.Get(d)
    ensures var q := Step(p, d);
      Move(p, arr[p.y, p.x].border, Side(RequestFor(d))) == q
      && Move(q, arr[q.y, q.x].border, Side(RequestFor(ReverseDirection(d)))) == p
  {
    assert p == Pos(p.y, p.x);
  }

  /** Every open wall of the grid can be crossed from either of its cells
      by one request. */
  lemma OpenWallCrossing(arr: array2<Cell>, size: int, a: Pos, b: Pos)
    requires Symmetric(arr, size) && BoundaryClosed(arr, size)
    requires {a, b} in OpenPairs(arr, size)
    ensures InBounds(a, size) && InBounds(b, size)
    ensures exists r :: Move(a, arr[a.y, a.x].border, Side(r)) == b
  {
    var i, j, d :| 0 <= i < size && 0 <= j < size && d in Sides
                  && InBounds(Step(Pos(i, j), d), size) && !arr[i, j].border.Get(d)
                  && {a, b} == {Pos(i, j), Step(Pos(i, j), d)};
    var p, q := Pos(i, j), Step(Pos(i, j), d);
    PairCases(a, b, p, q);
    assert InBounds(a, size) && InBounds(b, size);
    CrossOpenWall(arr, size, p, d);
    if a == p {
      assert Move(a, arr[a.y, a.x].border, Side(RequestFor(d))) == b;
    } else {
      assert Move(a, arr[a.y, a.x].border, Side(RequestFor(ReverseDirection(d)))) == b;
    }
  }

  /** The cell the player reaches from `p` by the requests `rs`, one after the other. */
  function Walk(arr: array2<Cell>, size: int, p: Pos, rs: seq<Request>): (q: Pos)
    reads arr
    requires BoundaryClosed(arr, size) && InBounds(p, size)
    ensures InBounds(q, size)
    decreases |rs|
  {
    if rs == [] then p
    else
      MoveStaysInside(arr, size, p, Side(rs[0]));
      Walk(arr, size, Move(p, arr[p.y, p.x].border, Side(rs[0])), rs[1..])
  }

  /** Some sequence of requests leads the player from `p` to `q`. */
  ghost predicate CanReach(arr: array2<Cell>, size: int, p: Pos, q: Pos)
    reads arr
    requires BoundaryClosed(arr, size) && InBounds(p, size)
  {
    exists rs :: Walk(arr, size, p, rs) == q
  }

  /** Every walk follows open walls: where it ends is reachable from where
      it starts along the open pairs of the grid. */
  lemma {:induction false} WalkFollowsOpenWalls(arr: array2<Cell>, size: int, p: Pos, rs: seq<Request>)
    requires BoundaryClosed(arr, size) && InBounds(p, size)
    ensures Reachable(OpenPairs(arr, size), p, Walk(arr, size, p, rs))
    decreases |rs|
  {
    if rs == [] {
      ReachableSelf(OpenPairs(arr, size), p);
    } else {
      var q := Move(p, arr[p.y, p.x].border, Side(rs[0]));
      MoveStaysInside(arr, size, p, Side(rs[0]));
      MoveFollowsOpenWall(arr, size, p, Side(rs[0]));
      WalkFollowsOpenWalls(arr, size, q, rs[1..]);
      if q != p {
        ReachablePrepend(OpenPairs(arr, size), p, q, Walk(arr, size, q, rs[1..]));
      }
    }
  }

  /** A walk whose first request is `r` continues from where `r` leads. */
  lemma WalkFirst(arr: array2<Cell>, size: int, p: Pos, r: Request, rs: seq<Request>)
    requires BoundaryClosed(arr, size) && InBounds(p, size)
    ensures InBounds(Move(p, arr[p.y, p.x].border, Side(r)), size)
    ensures Walk(arr, size, p, [r] + rs) == Walk(arr, size, Move(p, arr[p.y, p.x].border, Side(r)), rs)
  {
    MoveStaysInside(arr, size, p, Side(r));
    assert ([r] + rs)[1..] == rs;
  }

  /** Conversely, every cell reachable along open pairs is the end of some walk. */
  lemma {:induction false} PathGivesWalk(arr: array2<Cell>, size: int, path: seq<Pos>, p: Pos, q: Pos)
    requires Symmetric(arr, size) && BoundaryClosed(arr, size) && InBounds(p, size)
    requires IsPath(OpenPairs(arr, size), path, p, q)
    ensures CanReach(arr, size, p, q)
    decreases |path|
  {
    if |path| == 1 {
      assert Walk(arr, size, p, []) == q;
    } else {
      var g := OpenPairs(arr, size);
      assert {path[0], path[1]} in g;
      OpenWallCrossing(arr, size, p, path[1]);
      var r :| Move(p, arr[p.y, p.x].border, Side(r)) == path[1];
      PathTail(g, path, p, q);
      PathGivesWalk(arr, size, path[1..], path[1], q);
      var rs :| Walk(arr, size, path[1], rs) == q;
      WalkFirst(arr, size, p, r, rs);
    }
  }

  /** The cells a walk from `p` can end in are exactly those reachable from
      `p` along open walls. */
  lemma WalkReachesExactly(arr: array2<Cell>, size: int, p: Pos, q: Pos)
    requires Symmetric(arr, size) && BoundaryClosed(arr, size) && InBounds(p, size)
    ensures CanReach(arr, size, p, q) <==> Reachable(OpenPairs(arr, size), p, q)
  {
    if CanReach(arr, size, p, q) {
      var rs :| Walk(arr, size, p, rs) == q;
      WalkFollowsOpenWalls(arr, size, p, rs);
    }
    if Reachable(OpenPairs(arr, size), p, q) {
      var path :| IsPath(OpenPairs(arr, size), path, p, q);
      PathGivesWalk(arr, size, path, p, q);
    }
  }

  /** A grid whose open walls link every cell to `start` lets the player
      reach every cell from `start`, the exit among them. */
  lemma SolvableFromStart(arr: array2<Cell>, size: int, start: Pos)
    requires Symmetric(arr, size) && BoundaryClosed(arr, size) && InBounds(start, size)
    requires SpanningTree(arr, size, start)
    ensures forall p :: p in AllCells(size) ==> CanReach(arr, size, start, p)
  {
    forall p | p in AllCells(size)
      ensures CanReach(arr, size, start, p)
    {
      WalkReachesExactly(arr, size, start, p);
    }
  }

  /** A square grid whose cells carry their own ids, with matching walls on
      both sides of every inner wall and every outer wall closed. */
  ghost predicate WellFormed(arr: array2<Cell>, size: int)
    reads arr
  {
    size >= 1 && Square(arr, size) && IdsMatch(arr) &&
    Symmetric(arr, size) && BoundaryClosed(arr, size)
  }

  /** IDate: when the game started and ended. */
  datatype Date = Date(start: int, end: int)

  class MazeStore {
    /** The side length of the square maze (mazeSize of the app). */
    const size: nat
    const cellsArray: array2<Cell>
    /** The cell the player stands in. */
    var currentCellIndexes: Pos
    var date: Date

    /** The store after construction: a well-formed grid with the player inside it. */
    ghost predicate Valid()
      reads this, cellsArray
    {
      WellFormed(cellsArray, size) && InBounds(currentCellIndexes, size)
    }

    /** Generates the maze and puts the player in the start corner; the
        exit is the opposite corner, and the open walls form a spanning tree
        of the grid, so by SolvableFromStart every cell, the exit among them,
        can be reached by a sequence of moves. */
    constructor (size: nat, rand: nat -> nat)
      requires size >= 1
      ensures Valid() && fresh(cellsArray) && this.size == size
      ensures currentCellIndexes == StartPositions(size)[GetRandom(rand, 0, 0, 3)]
      ensures ExitFlags(cellsArray, size, ExitOf(currentCellIndexes, size))
      ensures SpanningTree(cellsArray, size, currentCellIndexes)
      ensures date == Date(0, 0)
    {
      var arr, start := Generate(size, rand);
      assert WellFormed(arr, size);
      this.size := size;
      cellsArray := arr;
      currentCellIndexes := start;
      date := Date(0, 0);
    }

    /** currentCell: the cell the player stands in; its id names the player's position. */
    function CurrentCell(): (c: Cell)
      reads this, cellsArray
      requires Valid()
      ensures c.id == IdOf(currentCellIndexes)
    {
      cellsArray[currentCellIndexes.y, currentCellIndexes.x]
    }

    /** numberOfCells: the number of cells of the grid. */
    function NumberOfCells(): (n: nat)
      ensures n == |AllCells(size)|
    {
      CardAllCells(size);
      size * size
    }

    /** updateXPosition: a negative request moves one cell left and a
        positive one one cell right, each only through an open wall. */
    method UpdateXPosition(x: int)
      requires Valid()
      modifies this`currentCellIndexes
      ensures Valid()
      ensures currentCellIndexes == Move(old(currentCellIndexes), old(CurrentCell()).border, HorizontalSide(x))
    {
      MoveStaysInside(cellsArray, size, currentCellIndexes, HorizontalSide(x));
      if x < 0 {
        if !CurrentCell().border.left {
          currentCellIndexes := currentCellIndexes.(x := currentCellIndexes.x - 1);
        }
      }
      if x > 0 {
        if !CurrentCell().border.right {
          currentCellIndexes := currentCellIndexes.(x := currentCellIndexes.x + 1);
        }
      }
    }

    /** updateYPosition: a negative request moves one cell up and a
        positive one one cell down, each only through an open wall. */
    method UpdateYPosition(y: int)
      requires Valid()
      modifies this`currentCellIndexes
      ensures Valid()
      ensures currentCellIndexes == Move(old(currentCellIndexes), old(CurrentCell()).border, VerticalSide(y))
    {
      MoveStaysInside(cellsArray, size, currentCellIndexes, VerticalSide(y));
      if y < 0 {
        if !CurrentCell().border.top {
          currentCellIndexes := currentCellIndexes.(y := currentCellIndexes.y - 1);
        }
      }
      if y > 0 {
        if !CurrentCell().border.bottom {
          currentCellIndexes := currentCellIndexes.(y := currentCellIndexes.y + 1);
        }
      }
    }

    /** setStartDate: records when the game started and keeps its end. */
    method SetStartDate(d: int)
      modifies this`date
      ensures date == Date(d, old(date).end)
      ensures Valid() == old(Valid())
    {
      date := date.(start := d);
    }

    /** setEndDate: records when the game ended and keeps its start. */
    method SetEndDate(d: int)
      modifies this`date
      ensures date == Date(old(date).start, d)
      ensures Valid() == old(Valid())
    {
      date := date.(end := d);
    }
  }
}
