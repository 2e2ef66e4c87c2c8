# Maze store: a verified Dafny model

This project models the maze store of a small browser maze game,
`src/stores/MazeStore.ts`. The store does two things:

- **Generator.** Its constructor builds a square `size × size` grid of cells.
  Each cell has four wall flags (`left`, `top`, `right`, `bottom`), an id
  `${i}r${j}e` and an `isExit` flag. The constructor then:
  - closes every wall;
  - picks one of the four corners at random as the start;
  - marks the diagonally opposite corner as the exit;
  - carves a maze with an iterative randomized depth-first backtracker. The
    backtracker keeps a list of visited ids and a stack of positions.
- **Position tracker.** `updateXPosition` and `updateYPosition` move the
  player one cell in the direction given by the sign of their argument, but
  only through an open wall. `currentCell` is the cell the player stands in.
  `numberOfCells` is `size²`. `setStartDate` and `setEndDate` record the two
  timestamps of a game.

The model proves that the generated maze is perfect:

- walls are symmetric and every outer wall stays closed;
- exactly `size² − 1` pairs of neighbouring cells are open;
- every cell is reachable from the start through open walls.

So the open walls form a spanning tree of the grid graph. The model also
proves that the backtracker's stack never runs empty while cells remain
unvisited.

For the tracker, it proves that:

- the player never leaves the grid;
- a move either leaves the position unchanged (the request is zero or the
  wall on that side is present) or crosses exactly one open wall;
- every move that changes the position can be undone;
- the cells some sequence of `updateXPosition`/`updateYPosition` calls can
  reach are exactly the cells reachable through open walls. Together with
  the spanning tree this means every cell, the exit included, can be reached
  from the start.

Layout:

- `grid.dfy` (module `Grid`): cells, borders, directions, `reverseDirection`,
  the per-cell effect of `removeWall`, and the grid-level properties.
- `graph.dfy` (module `Graph`): the set of all cells and its size, sets closed
  under neighbours, and reachability along open pairs.
- `neighbours.dfy` (module `Neighbours`): `getNear` and `diff`.
- `generator.dfy` (module `Generator`): `getRandom`, the start corners, the
  exit, the fill loop, `removeWall`, and the generation loop with its
  invariants.
- `store.dfy` (module `Store`): move requests, walks, and the `MazeStore`
  class.

Modelling choices:

- **Grid.** The grid is an `array2<Cell>` indexed `[row, column]`, that is
  `[y, x]`, as every access after the fill loop indexes it. The fill loop
  writes `arr[x][y]` with id `${x}r${y}e`; the model does the same, and
  because the grid is square and all new cells are alike this is the same
  grid.
- **Ids.** The string id `${i}r${j}e` is modelled as the pair `Id(i, j)`. The
  string encoding is injective on integer pairs, so id comparisons mean the
  same thing.
- **Randomness.** `getRandom(lo, hi)` is a parameter `rand: nat -> nat`. Draw
  number `k` gives `lo + rand(k) % (hi − lo + 1)`. Draw 0 picks the start
  corner; draws 1, 2, … pick the neighbours. Every whole run of in-range
  choices, draw after draw, is reproduced by one single `rand`
  (`GetRandomCoversRun`), so the properties proved for every `rand` hold for
  every run.
- **Move requests.** `updateXPosition` and `updateYPosition` take a signed
  number, and only its sign matters. A sequence of such calls is modelled by
  `Walk` over `Request` values.
- **Ghost state.** The generation loop carries two pieces of ghost state
  beside its real state: a set `visited` of positions that mirrors the
  visited id list, and a set `tree` of the cell pairs whose wall has been
  removed. Neither changes what the loop computes.
- **Loop split.** The constructor's generation is split into `Generate`
  (fill, start, exit) and `Backtrack` (the `while` loop). `OpenLink` is one
  carving step of that loop: `removeWall` plus the proof that it opens
  exactly one new pair.

## Model

| member | source | states |
|---|---|---|
| `Generator.GetRandom` | src/stores/MazeStore.ts:91-94 | the chosen value lies in the inclusive range [lo, hi] |
| `Generator.GetRandomCoversRun` | src/stores/MazeStore.ts:91-94 | for any run of draws `vs` with each `vs[k]` in [0, his[k]], one random source makes draw k of getRandom(0, his[k]) return `vs[k]` for every k, so the model covers every run of random choices |
| `Generator.StartPositions` | src/stores/MazeStore.ts:85-90 | exactly four positions, and a position is among them iff it is a corner of the grid |
| `Generator.ExitOpposite` | src/stores/MazeStore.ts:96-103 | the exit rule `ExitOf` (row size − 1 when the start is in row 0, else row 0; the same for the column) applied to a corner start gives a corner, it is (size−1−start.y, size−1−start.x), the corner diagonally opposite the start, and it equals the start only when size is 1 |
| `Generator.Fill` | src/stores/MazeStore.ts:66-80 | the new grid is size × size and the cell at [i, j] has all four walls closed, id (i, j) and no exit flag |
| `Generator.FilledGrid` | src/stores/MazeStore.ts:66-80 | after the fill loop the ids match the indices, every wall is closed and the ids are pairwise distinct |
| `Grid.NewCell` | src/stores/MazeStore.ts:69-78 | a new cell carries id (i, j), is not the exit, and every side has a wall |
| `Grid.Border.Clear` | src/stores/MazeStore.ts:168-175 | clearing `border[d]` makes side d open and keeps the other three flags |
| `Grid.IdOfInjective` | src/stores/MazeStore.ts:76 | the id `${x}r${y}e`, modelled as `IdOf`, names one position only: two positions have the same id iff they are equal |
| `Grid.Step` | src/stores/MazeStore.ts:118-121 | a real side leads to a cell sharing a wall; left and right keep the row, top and bottom keep the column |
| `Grid.StepInjective` | src/stores/MazeStore.ts:118-121 | two different sides of a cell lead to two different cells |
| `Grid.ReverseDirection` | src/stores/MazeStore.ts:151-163 | maps 'null' and only 'null' to 'null', and stepping through d and then through its reverse returns to the start cell |
| `Grid.ReverseDirectionInvolution` | src/stores/MazeStore.ts:151-163 | reverseDirection is its own inverse and changes every real side |
| `Grid.SamePair` | src/stores/MazeStore.ts:150-179 | the pair of cells behind side d of p is the pair behind side e of q iff (p, d) = (q, e) or p is q's neighbour through e and d is e reversed |
| `Grid.Carve` | src/stores/MazeStore.ts:164-178 | removeWall's effect on one cell: id and exit flag are kept; a wall is open afterwards iff it was open or it is side `direction` of the cell with prevCell's id or the reverse side of the cell with nextCell's id |
| `Grid.CarveNullChangesNothing` | src/stores/MazeStore.ts:164-176 | with a 'null' direction removeWall changes no cell |
| `Generator.RemoveWall` | src/stores/MazeStore.ts:150-179 | the in-place double loop leaves every cell of the grid equal to Carve of its old value |
| `Generator.RemoveWallOpensTwoSides` | src/stores/MazeStore.ts:164-178 | with ids matching positions, exactly side `direction` of prev and the reverse side of next are cleared, and nothing else changes |
| `Generator.OpenLink` | src/stores/MazeStore.ts:190-193 | one carving step keeps ids and the exit flag and opens exactly the pair {prev, next} |
| `Neighbours.GetNear` | src/stores/MazeStore.ts:111-144 | for size ≥ 2 and an in-bounds cell, a candidate is returned iff it is the in-bounds neighbour one step away through the side it is labelled with |
| `Neighbours.GetNearCount` | src/stores/MazeStore.ts:111-144 | a corner has 2 candidates, another boundary cell 3 and an inner cell 4, all through different sides |
| `Neighbours.GetNearSingleCell` | src/stores/MazeStore.ts:111-144 | in the one-cell grid getNear names two cells outside the grid, so it must not be called there |
| `Neighbours.Diff` | src/stores/MazeStore.ts:145-149 | diff keeps exactly the candidates whose cell id is not in the visited list, in the order they were given, and never more than it was given |
| `Generator.ChosenNeighbour` | src/stores/MazeStore.ts:186-193 | every candidate diff keeps is an in-bounds, unvisited neighbour of the generator position through its labelled side |
| `Generator.NoneUnvisited` | src/stores/MazeStore.ts:186-189 | an empty diff means every in-bounds neighbour of the generator position is visited |
| `Generator.StackCellsPush` | src/stores/MazeStore.ts:194 | pushing a position adds exactly its cell to the cells on the stack |
| `Generator.PushTree` | src/stores/MazeStore.ts:189-192 | removing the wall between the current cell and its unvisited neighbour adds a pair not removed before, and the removed walls still join every visited cell, the neighbour now among them, to the start, one pair fewer than cells |
| `Generator.PushKeeps` | src/stores/MazeStore.ts:189-195 | a move to an unvisited neighbour adds its id to the visited list once, pushes it, adds one new pair to the removed walls, and keeps every loop invariant |
| `Generator.PopKeeps` | src/stores/MazeStore.ts:196-198 | at a dead end with cells still unvisited, the stack holds more than one entry, so the pop leaves a non-empty stack whose top is the new generator position |
| `Generator.Backtrack` | src/stores/MazeStore.ts:181-200 | the loop terminates, keeps ids and the single exit, and leaves symmetric walls, a closed boundary and a spanning tree of open walls |
| `Generator.WallsMatchSymmetric` | src/stores/MazeStore.ts:186-200 | walls that are open exactly on removed pairs are symmetric |
| `Generator.WallsMatchBoundary` | src/stores/MazeStore.ts:186-200 | walls removed only between in-bounds cells leave every outer wall closed |
| `Generator.OpenPairsInTree` | src/stores/MazeStore.ts:186-200 | every open pair of the grid is a removed pair |
| `Generator.TreeInOpenPairs` | src/stores/MazeStore.ts:186-200 | every removed pair between in-bounds cells is open in the grid |
| `Generator.WallsMatchOpenPairs` | src/stores/MazeStore.ts:186-200 | the open pairs of the grid are exactly the removed pairs |
| `Generator.AllVisitedSpanningTree` | src/stores/MazeStore.ts:186-200 | once size² cells are visited, the walls are symmetric, the boundary is closed, size² − 1 pairs are open and every cell is reachable from the start |
| `Generator.Generate` | src/stores/MazeStore.ts:59-203 | the constructor's grid is size × size with matching ids, the start is the randomly drawn corner, only the opposite corner is the exit, and the open walls form a spanning tree |
| `Graph.CardAllCells` | src/stores/MazeStore.ts:255-257 | a size × size grid has size² cells |
| `Graph.AllCellsInBounds` | src/stores/MazeStore.ts:255-257 | a position is a cell of the grid iff it is in bounds |
| `Graph.SubsetFull` | src/stores/MazeStore.ts:186 | a subset with at least as many elements as its superset is the whole superset, so size² visited cells are all cells |
| `Graph.ClosedContainsAll` | src/stores/MazeStore.ts:186-200 | the grid is connected: a set of cells closed under neighbours that holds one cell holds every cell |
| `Graph.ReachableExtend` | src/stores/MazeStore.ts:189-194 | a path to b followed by the open pair {b, c} is a path to c |
| `Graph.ReachablePrepend` | src/stores/MazeStore.ts:208-231 | an open pair {a, b} followed by a path from b is a path from a |
| `Graph.ReachableMonotone` | src/stores/MazeStore.ts:189-194 | removing more walls keeps every path |
| `Graph.PathTail` | src/stores/MazeStore.ts:208-231 | a path of two or more cells goes on from its second cell |
| `Store.HorizontalSide` | src/stores/MazeStore.ts:208-219 | a negative request asks for left, a positive one for right, and zero for no move |
| `Store.VerticalSide` | src/stores/MazeStore.ts:220-231 | a negative request asks for top, a positive one for bottom, and zero for no move |
| `Store.Move` | src/stores/MazeStore.ts:208-231 | the step both move methods share: the player either stays put or, through a real side whose wall is open, moves to a cell sharing that wall |
| `Store.HorizontalMove` | src/stores/MazeStore.ts:208-219 | a negative request through an open left wall decrements x, a positive one through an open right wall increments x, anything else stays put, and y never changes |
| `Store.VerticalMove` | src/stores/MazeStore.ts:220-231 | a negative request through an open top wall decrements y, a positive one through an open bottom wall increments y, anything else stays put, and x never changes |
| `Store.RequestFor` | src/stores/MazeStore.ts:208-231 | every side is asked for by some move request |
| `Store.MoveStaysInside` | src/stores/MazeStore.ts:208-231 | with the outer walls closed, a move never leaves the grid |
| `Store.MoveFollowsOpenWall` | src/stores/MazeStore.ts:208-231 | a move either stays put or crosses exactly one open wall of the grid |
| `Store.MoveBack` | src/stores/MazeStore.ts:208-231 | after crossing a wall, the request for the reverse side leads back, because walls are symmetric |
| `Store.CrossOpenWall` | src/stores/MazeStore.ts:208-231 | an open wall between two cells is crossed by the request for its side, and crossed back by the request for the reverse side |
| `Store.OpenWallCrossing` | src/stores/MazeStore.ts:208-231 | every open wall can be crossed from either of its two cells by one request |
| `Store.Walk` | src/stores/MazeStore.ts:208-231 | a sequence of move requests from an in-bounds cell ends in an in-bounds cell |
| `Store.WalkFirst` | src/stores/MazeStore.ts:208-231 | a sequence of requests continues from where its first request leads |
| `Store.WalkFollowsOpenWalls` | src/stores/MazeStore.ts:208-231 | where a sequence of updateXPosition/updateYPosition calls ends is reachable from where it starts through open walls |
| `Store.PathGivesWalk` | src/stores/MazeStore.ts:208-231 | every cell at the end of a path of open walls is the end of some walk |
| `Store.WalkReachesExactly` | src/stores/MazeStore.ts:208-231 | a cell is the end of some walk iff it is reachable through open walls |
| `Store.SolvableFromStart` | src/stores/MazeStore.ts:186-231 | in a maze whose open walls span the grid from the start, every cell, the exit among them, is where some sequence of updateXPosition/updateYPosition calls from the start ends |
| `Store.MazeStore.constructor` | src/stores/MazeStore.ts:59-203 | the store holds a well-formed grid with the player on the drawn start corner, only the opposite corner as exit, a spanning tree of open walls, and dates (0, 0) |
| `Store.MazeStore.CurrentCell` | src/stores/MazeStore.ts:248-250 | the cell the player stands in carries the id of the player's position |
| `Store.MazeStore.NumberOfCells` | src/stores/MazeStore.ts:255-257 | the number of cells of the grid, size² |
| `Store.MazeStore.UpdateXPosition` | src/stores/MazeStore.ts:208-219 | the new position is the horizontal move from the old one through the old current cell's walls, and the store stays well-formed with the player on the grid |
| `Store.MazeStore.UpdateYPosition` | src/stores/MazeStore.ts:220-231 | the new position is the vertical move from the old one through the old current cell's walls, and the store stays well-formed with the player on the grid |
| `Store.MazeStore.SetStartDate` | src/stores/MazeStore.ts:232-234 | only the start date changes, to the given value, and the store stays well-formed |
| `Store.MazeStore.SetEndDate` | src/stores/MazeStore.ts:235-237 | only the end date changes, to the given value, and the store stays well-formed |

## Left out

- MobX reactivity (`makeAutoObservable`, line 60) is not modelled. The store is a plain class whose methods update its fields.
- The `AppStore` link is not modelled. `size` is a constructor parameter, and it must be at least 1: with size 0 the source indexes a cell that does not exist when it marks the exit.
- `userPosition` and `userSize` are not modelled. They are pixel layout computed from the app's constants.
- `getRandom` is not modelled; it is a parameter `rand`. Its distribution, and whether the same seed gives the same maze, are out of scope.
- `NumberOfCells`: `Math.pow(size, 2)` is modelled as the integer `size * size`. Floating point is left out.
- The `startPosition` field is declared but never assigned in the source, so it is not modelled.
- `src/pages/Maze/Maze.tsx` is not part of this model. It renders the grid, and its key handler calls `updateXPosition`/`updateYPosition` on a user store that is not part of this model either. `Walk` models a sequence of calls to this store's move methods, not key presses.
- Requests and timestamps are JavaScript numbers; the model uses `int`. Only the sign of a request matters. A fractional request moves like an integer of the same sign, and NaN or -0 acts like 0, so no move. Timestamps are stored unchanged.
- The move methods return nothing and report no "moved" flag, as in the code. A blocked or zero move is a silent no-op.
- `Generator.Backtrack`: acyclicity of the carved walls is not stated as a separate property. It follows from connectivity together with exactly size² − 1 open pairs.
- `Store.MazeStore.constructor`: the constructor does not restate reachability by `updateXPosition`/`updateYPosition` calls. `Store.SolvableFromStart` derives it from the spanning-tree property the constructor ensures.
