/** The maze generator of the MazeStore constructor: fill the grid with
    closed cells, pick a start corner, mark the opposite corner as exit, and
    carve a perfect maze with an iterative randomized depth-first
    backtracker. */
module Generator {
  import opened Grid
  import opened Graph
  import opened Neighbours

  /** getRandom(lo, hi): draw number `k` of the random source `rand`,
      brought into the inclusive range [lo, hi]. */
  function GetRandom(rand: nat -> nat, k: nat, lo: int, hi: int): (r: int)
    requires lo <= hi
    ensures lo <= r <= hi
  {
    lo + rand(k) % (hi - lo + 1)
  }

  /** `rand` makes getRandom(0, his[k]) return vs[k] at every draw k of a run. */
  ghost predicate Reproduces(rand: nat -> nat, his: seq<nat>, vs: seq<nat>)
    requires |his| == |vs|
  {
    forall k :: 0 <= k < |vs| ==> GetRandom(rand, k, 0, his[k]) == vs[k]
  }

  /** A whole run of draws is the outcome of one random source: whatever
      in-range values the constructor picks, draw after draw (the start
      corner with hi = 3, then each neighbour with hi = nears.length - 1),
      some `rand` makes getRandom return exactly those values. So a property
      proved for every `rand` holds for every run. */
  lemma GetRandomCoversRun(his: seq<nat>, vs: seq<nat>)
    requires |his| == |vs|
    requires forall k :: 0 <= k < |vs| ==> vs[k] <= his[k]
    ensures exists rand: nat -> nat :: Reproduces(rand, his, vs)
  {
    var rand: nat -> nat := (k: nat) => if k < |vs| then vs[k] else 0;
    forall k | 0 <= k < |vs|
      ensures GetRandom(rand, k, 0, his[k]) == vs[k]
    {
      assert rand(k) == vs[k] < his[k] + 1;
    }
    assert Reproduces(rand, his, vs);
  }

  /** startPositions: the four corners of the grid. */
  function StartPositions(size: int): (corners: seq<Pos>)
    requires size >= 1
    ensures |corners| == 4
    ensures forall p :: p in corners <==> IsCorner(p, size)
  {
    [Pos(0, 0), Pos(0, size - 1), Pos(size - 1, 0), Pos(size - 1, size - 1)]
  }

  /** exitPosition: row size - 1 when the start is in row 0 and row 0
      otherwise; the same for the column. */
  function ExitOf(start: Pos, size: int): Pos {
    Pos(if start.y == 0 then size - 1 else 0, if start.x == 0 then size - 1 else 0)
  }

  /** The exit is the corner diagonally opposite the start; the two
      coincide only in the one-cell grid. */
  lemma ExitOpposite(start: Pos, size: int)
    requires IsCorner(start, size)
    ensures IsCorner(ExitOf(start, size), size)
    ensures ExitOf(start, size) == Pos(size - 1 - start.y, size - 1 - start.x)
    ensures ExitOf(start, size) == start <==> size == 1
  {
  }

  /** The fill loop: arr[x][y] gets a closed cell with id `${x}r${y}e`. */
  method Fill(size: nat) returns (arr: array2<Cell>)
    ensures fresh(arr) && Square(arr, size)
    ensures forall i, j :: 0 <= i < size && 0 <= j < size ==> arr[i, j] == NewCell(i, j)
  {
    arr := new Cell[size, size];
    for x := 0 to size
      invariant forall i, j :: 0 <= i < x && 0 <= j < size ==> arr[i, j] == NewCell(i, j)
    {
      for y := 0 to size
        invariant forall i, j :: 0 <= i < x && 0 <= j < size ==> arr[i, j] == NewCell(i, j)
        invariant forall j :: 0 <= j < y ==> arr[x, j] == NewCell(x, j)
      {
        arr[x, y] := NewCell(x, y);
      }
    }
  }

  /** A freshly filled grid: every wall closed, ids by index, no exit. */
  lemma FilledGrid(arr: array2<Cell>, size: nat)
    requires Square(arr, size)
    requires forall i, j :: 0 <= i < size && 0 <= j < size ==> arr[i, j] == NewCell(i, j)
    ensures IdsMatch(arr)
    ensures forall i, j, d :: 0 <= i < size && 0 <= j < size && d != Null ==> arr[i, j].border.Get(d)
    ensures forall i, j, k, l ::
      (0 <= i < size && 0 <= j < size && 0 <= k < size && 0 <= l < size && (i, j) != (k, l)) ==>
        arr[i, j].id != arr[k, l].id
  {
  }

  /** removeWall: walk over every cell and apply Carve to it, i.e. clear
      side `direction` of the cell with prevCell's id and the reverse side
      of the cell with nextCell's id. */
  method RemoveWall(arr: array2<Cell>, prevCell: Cell, nextCell: Cell, direction: Direction)
    modifies arr
    ensures forall i, j :: 0 <= i < arr.Length0 && 0 <= j < arr.Length1 ==>
      arr[i, j] == Carve(old(arr[i, j]), prevCell.id, nextCell.id, direction)
  {
    var reversedDirection := ReverseDirection(direction);
    for r := 0 to arr.Length0
      invariant forall i, j :: 0 <= i < arr.Length0 && 0 <= j < arr.Length1 ==>
        arr[i, j] == if i < r then Carve(old(arr[i, j]), prevCell.id, nextCell.id, direction) else old(arr[i, j])
    {
      for l := 0 to arr.Length1
        invariant forall i, j :: 0 <= i < arr.Length0 && 0 <= j < arr.Length1 ==>
          arr[i, j] == if i < r || (i == r && j < l) then Carve(old(arr[i, j]), prevCell.id, nextCell.id, direction)
                       else old(arr[i, j])
      {
        var cell := arr[r, l];
        if cell.id == prevCell.id {
          if direction != Null {
            cell := cell.(border := cell.border.Clear(direction));
          }
        }
        if cell.id == nextCell.id {
          if reversedDirection != Null {
            cell := cell.(border := cell.border.Clear(reversedDirection));
          }
        }
        arr[r, l] := cell;
      }
    }
  }

  /** With distinct ids, removeWall opens exactly side `direction` of the
      cell at `prev` and the reverse side of the cell at `next`. */
  lemma RemoveWallOpensTwoSides(before: Cell, after: Cell, p: Pos, prev: Pos, next: Pos, direction: Direction, side: Direction)
    requires before.id == IdOf(p) && after == Carve(before, IdOf(prev), IdOf(next), direction) && side != Null
    ensures after.border.Get(side) ==
      (before.border.Get(side) && !(p == prev && side == direction) && !(p == next && side == ReverseDirection(direction)))
    ensures after.id == before.id && after.isExit == before.isExit
  {
  }

  // The ghost bookkeeping of the backtracker: the set `visited` of visited
  // positions beside the list of visited ids, and the set `tree` of cell
  // pairs whose shared wall has been removed.

  /** A wall of an in-bounds cell is open exactly when the pair of cells it
      separates is in `tree`. */
  ghost predicate WallsMatch(arr: array2<Cell>, size: int, tree: set<set<Pos>>)
    reads arr
    requires Square(arr, size)
  {
    forall i, j, d :: 0 <= i < size && 0 <= j < size && d != Null ==>
      (!arr[i, j].border.Get(d) <==> {Pos(i, j), Step(Pos(i, j), d)} in tree)
  }

  /** Only the cell at `exit` is marked as exit. */
  ghost predicate ExitFlags(arr: array2<Cell>, size: int, exit: Pos)
    reads arr
  {
    forall i, j {:trigger arr[i, j]} :: 0 <= i < size && 0 <= j < size && 0 <= i < arr.Length0 && 0 <= j < arr.Length1 ==>
      arr[i, j].isExit == (Pos(i, j) == exit)
  }

  /** `e` is the pair of cells on the two sides of one wall. */
  ghost predicate IsLink(e: set<Pos>) {
    exists p, d :: d != Null && e == {p, Step(p, d)}
  }

  /** The visited ids are those of the visited positions, without duplicates. */
  ghost predicate Visits(visited: set<Pos>, visitedCells: seq<Id>, size: int, start: Pos) {
    start in visited
    && (forall p :: p in visited ==> InBounds(p, size))
    && (forall p :: p in visited <==> IdOf(p) in visitedCells)
    && |visited| == |visitedCells|
    && (forall a, b :: 0 <= a < b < |visitedCells| ==> visitedCells[a] != visitedCells[b])
  }

  /** The generator stands on the top of a non-empty stack of visited cells. */
  ghost predicate StackShape(stack: seq<Near>, generatorPosition: Near, visited: set<Pos>) {
    |stack| > 0 && generatorPosition == stack[|stack| - 1]
    && forall k :: 0 <= k < |stack| ==> stack[k].At() in visited
  }

  /** The removed walls join visited cells, one fewer than there are
      visited cells, and lead from the start to every visited cell. */
  ghost predicate TreeShape(tree: set<set<Pos>>, visited: set<Pos>, start: Pos) {
    (forall e :: e in tree ==> IsLink(e) && e <= visited)
    && |tree| == |visited| - 1
    && forall p :: p in visited ==> Reachable(tree, start, p)
  }

  ghost function StackCells(stack: seq<Near>): set<Pos> {
    set k | 0 <= k < |stack| :: stack[k].At()
  }

  /** Every visited cell that is off the stack has no unvisited neighbour. */
  ghost predicate Finished(visited: set<Pos>, stack: seq<Near>, size: int) {
    forall p, d :: p in visited && p !in StackCells(stack) && d != Null && InBounds(Step(p, d), size) ==>
      Step(p, d) in visited
  }

  lemma StackCellsPush(stack: seq<Near>, n: Near)
    ensures StackCells(stack + [n]) == StackCells(stack) + {n.At()}
  {
    var pushed := stack + [n];
    forall p | p in StackCells(pushed)
      ensures p in StackCells(stack) + {n.At()}
    {
      var k :| 0 <= k < |pushed| && pushed[k].At() == p;
      if k < |stack| {
        assert pushed[k] == stack[k];
      }
    }
    forall p | p in StackCells(stack)
      ensures p in StackCells(pushed)
    {
      var k :| 0 <= k < |stack| && stack[k].At() == p;
      assert pushed[k] == stack[k];
    }
    assert pushed[|stack|] == n;
  }

  /** Removing the wall between a visited cell `prev` and its unvisited
      neighbour `n` adds a new pair and keeps the tree spanning the visited
      cells, now with `n`. */
  lemma {:induction false} PushTree(tree: set<set<Pos>>, visited: set<Pos>, start: Pos, prev: Pos, d: Direction, n: Pos)
    requires TreeShape(tree, visited, start)
    requires prev in visited && n !in visited && d != Null && n == Step(prev, d)
    ensures {prev, n} !in tree
    ensures TreeShape(tree + {{prev, n}}, visited + {n}, start)
  {
    var visited' := visited + {n};
    var edge := {prev, n};
    var tree' := tree + {edge};
    // The new pair is new: n is in it and no old pair holds n.
    assert n in edge;
    assert edge !in tree;
    assert IsLink(edge);
    forall p | p in visited'
      ensures Reachable(tree', start, p)
    {
      if p == n {
        ReachableMonotone(tree, tree', start, prev);
        ReachableExtend(tree', start, prev, n);
      } else {
        ReachableMonotone(tree, tree', start, p);
      }
    }
  }

  /** Pushing a cell keeps every cell below it finished. */
  lemma PushFinished(visited: set<Pos>, stack: seq<Near>, size: int, next: Near)
    requires Finished(visited, stack, size)
    ensures Finished(visited + {next.At()}, stack + [next], size)
  {
    StackCellsPush(stack, next);
  }

  /** A move into the unvisited neighbour `next` of the top cell keeps the
      bookkeeping: the visited list grows by the new id, the stack by the
      new position, and the removed walls by the pair {top, next}. */
  lemma {:induction false} PushKeeps(
    visited: set<Pos>, visitedCells: seq<Id>, stack: seq<Near>, generatorPosition: Near,
    tree: set<set<Pos>>, size: int, start: Pos, next: Near)
    requires Visits(visited, visitedCells, size, start)
    requires StackShape(stack, generatorPosition, visited)
    requires TreeShape(tree, visited, start)
    requires Finished(visited, stack, size)
    requires next.direction != Null && next.At() == Step(generatorPosition.At(), next.direction)
    requires InBounds(next.At(), size) && next.At() !in visited
    ensures Visits(visited + {next.At()}, visitedCells + [IdOf(next.At())], size, start)
    ensures StackShape(stack + [next], next, visited + {next.At()})
    ensures TreeShape(tree + {{generatorPosition.At(), next.At()}}, visited + {next.At()}, start)
    ensures Finished(visited + {next.At()}, stack + [next], size)
    ensures {generatorPosition.At(), next.At()} !in tree
  {
    var n := next.At();
    var visitedCells' := visitedCells + [IdOf(n)];
    assert stack[|stack| - 1] == generatorPosition;
    PushTree(tree, visited, start, generatorPosition.At(), next.direction, n);
    forall a, b | 0 <= a < b < |visitedCells'|
      ensures visitedCells'[a] != visitedCells'[b]
    {
      if b == |visitedCells| {
        assert visitedCells[a] in visitedCells;
      }
    }
    StackCellsPush(stack, next);
    PushFinished(visited, stack, size, next);
  }

  /** Backtracking from a top cell whose neighbours are all visited keeps
      the stack non-empty while cells remain unvisited: an empty stack would
      leave the visited cells closed under neighbours, hence all cells. */
  lemma {:induction false} PopKeeps(
    visited: set<Pos>, visitedCells: seq<Id>, stack: seq<Near>, generatorPosition: Near, size: nat, start: Pos)
    requires Visits(visited, visitedCells, size, start)
    requires StackShape(stack, generatorPosition, visited)
    requires Finished(visited, stack, size)
    requires forall d :: d != Null && InBounds(Step(generatorPosition.At(), d), size) ==>
      Step(generatorPosition.At(), d) in visited
    requires |visitedCells| < size * size
    ensures |stack| > 1
    ensures StackShape(stack[..|stack| - 1], stack[..|stack| - 1][|stack| - 2], visited)
    ensures Finished(visited, stack[..|stack| - 1], size)
  {
    var popped := stack[..|stack| - 1];
    assert stack == popped + [generatorPosition];
    StackCellsPush(popped, generatorPosition);
    if |popped| == 0 {
      assert StackCells(popped) == {};
      assert Closed(visited, size);
      ClosedContainsAll(visited, size, start);
      CardAllCells(size);
      SubsetCard(AllCells(size), visited);
    }
  }

  /** Every candidate diff keeps is an in-bounds, unvisited neighbour of
      the top cell, one step away through the side it is labelled with. */
  lemma ChosenNeighbour(arr: array2<Cell>, size: int, visitedCells: seq<Id>, visited: set<Pos>,
                        prev: Pos, start: Pos, n: Near)
    requires Square(arr, size) && IdsMatch(arr) && size >= 2 && InBounds(prev, size)
    requires Visits(visited, visitedCells, size, start)
    requires n in Diff(arr, visitedCells, GetNear(prev, size))
    ensures n.direction != Null && n.At() == Step(prev, n.direction)
    ensures InBounds(n.At(), size) && n.At() !in visited
    ensures arr[n.y, n.x].id == IdOf(n.At())
  {
  }

  /** An empty diff means every in-bounds neighbour of the top cell is visited. */
  lemma NoneUnvisited(arr: array2<Cell>, size: int, visitedCells: seq<Id>, visited: set<Pos>,
                      prev: Pos, start: Pos)
    requires Square(arr, size) && IdsMatch(arr) && size >= 2 && InBounds(prev, size)
    requires Visits(visited, visitedCells, size, start)
    requires Diff(arr, visitedCells, GetNear(prev, size)) == []
    ensures forall d :: d != Null && InBounds(Step(prev, d), size) ==> Step(prev, d) in visited
  {
    forall d | d != Null && InBounds(Step(prev, d), size)
      ensures Step(prev, d) in visited
    {
      assert NearOf(prev, d) in GetNear(prev, size);
    }
  }

  /** One step of the walk's carving: removeWall between the cells at
      `prev` and its neighbour through `direction` keeps the ids and the
      exit flag, and adds exactly their pair to the open walls. */
  method OpenLink(arr: array2<Cell>, prevCell: Cell, nextCell: Cell, direction: Direction,
                  ghost size: int, ghost exit: Pos, ghost tree: set<set<Pos>>, ghost prev: Pos)
    requires Square(arr, size) && IdsMatch(arr) && ExitFlags(arr, size, exit)
    requires WallsMatch(arr, size, tree)
    requires direction != Null
    requires prevCell.id == IdOf(prev) && nextCell.id == IdOf(Step(prev, direction))
    modifies arr
    ensures IdsMatch(arr) && ExitFlags(arr, size, exit)
    ensures WallsMatch(arr, size, tree + {{prev, Step(prev, direction)}})
  {
    RemoveWall(arr, prevCell, nextCell, direction);
    var next := Step(prev, direction);
    forall i, j, d | 0 <= i < size && 0 <= j < size && d != Null
      ensures !arr[i, j].border.Get(d) <==> {Pos(i, j), Step(Pos(i, j), d)} in tree + {{prev, next}}
    {
      RemoveWallOpensTwoSides(old(arr[i, j]), arr[i, j], Pos(i, j), prev, next, direction, d);
      SamePair(Pos(i, j), d, prev, direction);
    }
  }

  /** Links between in-bounds cells. */
  ghost predicate InnerLinks(tree: set<set<Pos>>, size: int) {
    forall e :: e in tree ==> IsLink(e) && forall p :: p in e ==> InBounds(p, size)
  }

  /** Walls that match a set of pairs are symmetric. */
  lemma WallsMatchSymmetric(arr: array2<Cell>, size: int, tree: set<set<Pos>>)
    requires Square(arr, size) && WallsMatch(arr, size, tree)
    ensures Symmetric(arr, size)
  {
    forall i, j, d | 0 <= i < size && 0 <= j < size && d != Null && InBounds(Step(Pos(i, j), d), size)
      ensures arr[i, j].border.Get(d) ==
        arr[Step(Pos(i, j), d).y, Step(Pos(i, j), d).x].border.Get(ReverseDirection(d))
    {
      var p, q := Pos(i, j), Step(Pos(i, j), d);
      assert Step(q, ReverseDirection(d)) == p;
      assert Pos(q.y, q.x) == q;
      assert {q, p} == {p, q};
    }
  }

  /** Walls that match links between in-bounds cells are closed at the boundary. */
  lemma WallsMatchBoundary(arr: array2<Cell>, size: int, tree: set<set<Pos>>)
    requires Square(arr, size) && WallsMatch(arr, size, tree) && InnerLinks(tree, size)
    ensures BoundaryClosed(arr, size)
  {
    forall i, j, d | 0 <= i < size && 0 <= j < size && d != Null && !InBounds(Step(Pos(i, j), d), size)
      ensures arr[i, j].border.Get(d)
    {
      var q := Step(Pos(i, j), d);
      assert q in {Pos(i, j), q};
    }
  }

  lemma OpenPairsInTree(arr: array2<Cell>, size: int, tree: set<set<Pos>>)
    requires Square(arr, size) && WallsMatch(arr, size, tree)
    ensures OpenPairs(arr, size) <= tree
  {
    forall e | e in OpenPairs(arr, size)
      ensures e in tree
    {
      var i, j, d :| 0 <= i < size && 0 <= j < size && d in Sides
                    && InBounds(Step(Pos(i, j), d), size) && !arr[i, j].border.Get(d)
                    && e == {Pos(i, j), Step(Pos(i, j), d)};
    }
  }

  lemma TreeInOpenPairs(arr: array2<Cell>, size: int, tree: set<set<Pos>>)
    requires Square(arr, size) && WallsMatch(arr, size, tree) && InnerLinks(tree, size)
    ensures tree <= OpenPairs(arr, size)
  {
    forall e | e in tree
      ensures e in OpenPairs(arr, size)
    {
      var p, d :| d != Null && e == {p, Step(p, d)};
      assert p in e && Step(p, d) in e;
      assert Pos(p.y, p.x) == p;
      assert d in Sides;
    }
  }

  /** The open pairs of walls that match links between in-bounds cells are those links. */
  lemma WallsMatchOpenPairs(arr: array2<Cell>, size: int, tree: set<set<Pos>>)
    requires Square(arr, size) && WallsMatch(arr, size, tree) && InnerLinks(tree, size)
    ensures OpenPairs(arr, size) == tree
  {
    OpenPairsInTree(arr, size, tree);
    TreeInOpenPairs(arr, size, tree);
  }

  /** The open walls form a spanning tree of the grid graph: size² - 1
      pairs of cells are open and every cell is reachable from `start`
      through open walls. */
  ghost predicate SpanningTree(arr: array2<Cell>, size: int, start: Pos)
    reads arr
    requires Square(arr, size)
  {
    |OpenPairs(arr, size)| == size * size - 1 &&
    forall p :: p in AllCells(size) ==> Reachable(OpenPairs(arr, size), start, p)
  }

  /** When every cell is visited the removed walls form a spanning tree:
      size² - 1 open pairs through which every cell is reachable from the
      start. */
  lemma {:induction false} AllVisitedSpanningTree(
    arr: array2<Cell>, size: nat, tree: set<set<Pos>>, visited: set<Pos>, visitedCells: seq<Id>, start: Pos)
    requires Square(arr, size) && WallsMatch(arr, size, tree)
    requires Visits(visited, visitedCells, size, start) && TreeShape(tree, visited, start)
    requires |visitedCells| >= size * size
    ensures Symmetric(arr, size) && BoundaryClosed(arr, size)
    ensures SpanningTree(arr, size, start)
  {
    forall p | p in visited
      ensures p in AllCells(size)
    {
      AllCellsInBounds(size, p);
    }
    CardAllCells(size);
    SubsetFull(visited, AllCells(size));
    assert InnerLinks(tree, size);
    WallsMatchSymmetric(arr, size, tree);
    WallsMatchBoundary(arr, size, tree);
    WallsMatchOpenPairs(arr, size, tree);
  }

  lemma UnitSquare(n: nat)
    ensures n <= 1 ==> n * n == n
  {
    if n == 1 {
      assert n * n == 1;
    }
  }

  /** The constructor's generation part: returns the grid and the start
      position. The exit is the corner opposite the start, and the walls
      form a spanning tree of the grid graph: they are symmetric, closed at
      the boundary, size² - 1 pairs of cells are open and every cell is
      reachable from the start through open walls. */
  method Generate(size: nat, rand: nat -> nat) returns (arr: array2<Cell>, start: Pos)
    requires size >= 1
    ensures fresh(arr) && Square(arr, size)
    ensures start == StartPositions(size)[GetRandom(rand, 0, 0, 3)] && IsCorner(start, size)
    ensures IdsMatch(arr)
    ensures ExitFlags(arr, size, ExitOf(start, size))
    ensures Symmetric(arr, size) && BoundaryClosed(arr, size)
    ensures SpanningTree(arr, size, start)
  {
    arr := Fill(size);
    FilledGrid(arr, size);

    start := StartPositions(size)[GetRandom(rand, 0, 0, 3)];
    var exit := ExitOf(start, size);
    ExitOpposite(start, size);
    arr[exit.y, exit.x] := arr[exit.y, exit.x].(isExit := true);

    Backtrack(arr, size, start, exit, rand);
  }

  /** The generation loop: a randomized depth-first walk from `start` that
      removes the wall into each newly visited cell and backtracks along
      the stack at dead ends, until every cell is visited. */
  method Backtrack(arr: array2<Cell>, size: nat, start: Pos, ghost exit: Pos, rand: nat -> nat)
    requires Square(arr, size) && InBounds(start, size)
    requires IdsMatch(arr) && ExitFlags(arr, size, exit)
    requires forall i, j, d :: 0 <= i < size && 0 <= j < size && d != Null ==> arr[i, j].border.Get(d)
    modifies arr
    ensures IdsMatch(arr) && ExitFlags(arr, size, exit)
    ensures Symmetric(arr, size) && BoundaryClosed(arr, size)
    ensures SpanningTree(arr, size, start)
  {
    var generatorPosition := Near(start.y, start.x, Null);
    var startPos := arr[generatorPosition.y, generatorPosition.x];
    var visitedCells := [startPos.id];
    var stack := [generatorPosition];
    var draws: nat := 1;
    ghost var visited := {start};
    ghost var tree: set<set<Pos>> := {};
    ReachableSelf(tree, start);
    assert stack[0].At() == start;
    assert StackCells(stack) == {start};

    while |visitedCells| < size * size
      invariant IdsMatch(arr) && ExitFlags(arr, size, exit) && WallsMatch(arr, size, tree)
      invariant Visits(visited, visitedCells, size, start)
      invariant StackShape(stack, generatorPosition, visited)
      invariant TreeShape(tree, visited, start)
      invariant Finished(visited, stack, size)
      decreases size * size - |visitedCells|, |stack|
    {
      var prevCell := arr[generatorPosition.y, generatorPosition.x];
      ghost var prev := generatorPosition.At();
      UnitSquare(size);
      var nears := Diff(arr, visitedCells, GetNear(generatorPosition.At(), size));
      if |nears| != 0 {
        ghost var top := generatorPosition;
        generatorPosition := nears[GetRandom(rand, draws, 0, |nears| - 1)];
        draws := draws + 1;
        ChosenNeighbour(arr, size, visitedCells, visited, prev, start, generatorPosition);
        var nextCell := arr[generatorPosition.y, generatorPosition.x];
        var direction := generatorPosition.direction;
        PushKeeps(visited, visitedCells, stack, top, tree, size, start, generatorPosition);
        OpenLink(arr, prevCell, nextCell, direction, size, exit, tree, prev);
        stack := stack + [generatorPosition];
        visitedCells := visitedCells + [nextCell.id];
        tree := tree + {{prev, generatorPosition.At()}};
        visited := visited + {generatorPosition.At()};
      } else {
        NoneUnvisited(arr, size, visitedCells, visited, prev, start);
        PopKeeps(visited, visitedCells, stack, generatorPosition, size, start);
        stack := stack[..|stack| - 1];
        generatorPosition := stack[|stack| - 1];
      }
    }
    AllVisitedSpanningTree(arr, size, tree, visited, visitedCells, start);
  }
}
