/** The data model of the maze store: cells with four wall flags, cell ids,
    coordinates, the side labels of neighbouring cells, and the grid-level
    properties a generated maze has. */
module Grid {

  /** NearDirection: the side through which a neighbouring cell is reached.
      `Null` labels the generator's start position, which was reached from nowhere. */
  datatype Direction = Top | Bottom | Right | Left | Null

  /** The four real sides. */
  const Sides: set<Direction> := {Top, Bottom, Right, Left}

  /** IBorder: one flag per side; `true` means the wall is present. */
  datatype Border = Border(left: bool, top: bool, right: bool, bottom: bool)
  {
    /** The flag `border[d]` of side `d`. */
    function Get(d: Direction): bool
      requires d != Null
    {
      match d
      case Top => top
      case Bottom => bottom
      case Right => right
      case Left => left
    }

    /** `border[d] = false`: side `d` opens and the other three flags are kept. */
    function Clear(d: Direction): (b: Border)
      requires d != Null
      ensures forall side :: side != Null ==> b.Get(side) == (side != d && Get(side))
    {
      match d
      case Top => this.(top := false)
      case Bottom => this.(bottom := false)
      case Right => this.(right := false)
      case Left => this.(left := false)
    }
  }

  const AllWalls: Border := Border(true, true, true, true)

  /** The cell id, written `${i}r${j}e` for the cell stored at arr[i][j]:
      the pair of indices that string encodes. */
  datatype Id = Id(first: int, second: int)

  /** ICell. */
  datatype Cell = Cell(border: Border, id: Id, isExit: bool)

  /** ICellIndexes: `x` is the column and `y` the row; the cell at (x, y) is arr[y][x]. */
  datatype Pos = Pos(y: int, x: int)

  /** NearCellIndexes: a position labelled with the side it was reached through. */
  datatype Near = Near(y: int, x: int, direction: Direction)
  {
    function At(): Pos { Pos(y, x) }
  }

  /** The id of the cell stored at position `p`, that is at arr[p.y][p.x]. */
  function IdOf(p: Pos): Id { Id(p.y, p.x) }

  /** Two positions share an id only when they are the same position, so
      comparing ids, as removeWall and diff do, compares positions. */
  lemma IdOfInjective(p: Pos, q: Pos)
    ensures IdOf(p) == IdOf(q) <==> p == q
  {
  }

  predicate InBounds(p: Pos, size: int) {
    0 <= p.y < size && 0 <= p.x < size
  }

  predicate IsCorner(p: Pos, size: int) {
    size >= 1 && (p.y == 0 || p.y == size - 1) && (p.x == 0 || p.x == size - 1)
  }

  /** Two cells that share a wall. */
  predicate Adjacent(p: Pos, q: Pos) {
    (p.y == q.y && (q.x == p.x - 1 || q.x == p.x + 1)) ||
    (p.x == q.x && (q.y == p.y - 1 || q.y == p.y + 1))
  }

  /** The cell one step from `p` through side `d` (top: y - 1, bottom: y + 1,
      left: x - 1, right: x + 1); `Null` stays put. */
  function Step(p: Pos, d: Direction): (q: Pos)
    ensures d != Null ==> Adjacent(p, q)
    ensures d in {Left, Right} ==> q.y == p.y
    ensures d in {Top, Bottom} ==> q.x == p.x
  {
    match d
    case Top => p.(y := p.y - 1)
    case Bottom => p.(y := p.y + 1)
    case Left => p.(x := p.x - 1)
    case Right => p.(x := p.x + 1)
    case Null => p
  }

  /** Two different sides of a cell lead to two different cells. */
  lemma StepInjective(p: Pos, d: Direction, e: Direction)
    requires d != Null && e != Null && Step(p, d) == Step(p, e)
    ensures d == e
  {
  }

  /** The pair of cells a side separates is the same pair seen from the
      other cell through the reverse side, and from no other side. */
  lemma SamePair(p: Pos, d: Direction, q: Pos, e: Direction)
    requires d != Null && e != Null
    ensures ({p, Step(p, d)} == {q, Step(q, e)}) <==>
      ((p == q && d == e) || (p == Step(q, e) && d == ReverseDirection(e)))
  {
    if {p, Step(p, d)} == {q, Step(q, e)} {
      assert p in {q, Step(q, e)} && Step(p, d) in {q, Step(q, e)};
      if p == q {
        StepInjective(p, d, e);
      } else {
        assert Step(Step(q, e), ReverseDirection(e)) == q;
        StepInjective(p, d, ReverseDirection(e));
      }
    }
  }

  /** reverseDirection: the side of the neighbour that faces back. */
  function ReverseDirection(d: Direction): (r: Direction)
    ensures (r == Null) <==> (d == Null)
    ensures forall p :: Step(Step(p, d), r) == p
  {
    match d
    case Bottom => Top
    case Left => Right
    case Right => Left
    case Top => Bottom
    case Null => Null
  }

  lemma ReverseDirectionInvolution(d: Direction)
    ensures ReverseDirection(ReverseDirection(d)) == d
    ensures d != Null ==> ReverseDirection(d) != d
  {
  }

  /** The cell the fill loop stores at arr[i][j]: every wall present, not the exit. */
  function NewCell(i: int, j: int): (c: Cell)
    ensures c.id == Id(i, j) && !c.isExit
    ensures forall side :: side != Null ==> c.border.Get(side)
  {
    Cell(AllWalls, Id(i, j), false)
  }

  /** What removeWall does to one cell `c` of the grid it walks over: the
      cell whose id is `prevId` loses its wall on side `direction`, the cell
      whose id is `nextId` loses the reverse wall, and a `Null` direction
      changes nothing. */
  function Carve(c: Cell, prevId: Id, nextId: Id, direction: Direction): (r: Cell)
    ensures r.id == c.id && r.isExit == c.isExit
    ensures forall side :: side != Null ==>
      r.border.Get(side) ==
        (c.border.Get(side)
         && !(c.id == prevId && side == direction)
         && !(c.id == nextId && side == ReverseDirection(direction)))
  {
    var reversed := ReverseDirection(direction);
    var afterPrev := if c.id == prevId && direction != Null then c.(border := c.border.Clear(direction)) else c;
    if afterPrev.id == nextId && reversed != Null then afterPrev.(border := afterPrev.border.Clear(reversed))
    else afterPrev
  }

  /** A `Null` direction leaves every cell as it was. */
  lemma CarveNullChangesNothing(c: Cell, prevId: Id, nextId: Id)
    ensures Carve(c, prevId, nextId, Null) == c
  {
  }

  // Properties of a whole grid, stored row by row as arr[y, x].

  ghost predicate Square(arr: array2<Cell>, size: int) {
    arr.Length0 == size && arr.Length1 == size
  }

  /** The cell at arr[i, j] carries the id `${i}r${j}e`. */
  ghost predicate IdsMatch(arr: array2<Cell>)
    reads arr
  {
    forall i, j :: 0 <= i < arr.Length0 && 0 <= j < arr.Length1 ==> arr[i, j].id == Id(i, j)
  }

  /** The wall of a cell facing a neighbour is open exactly when the
      neighbour's wall facing back is open. */
  ghost predicate Symmetric(arr: array2<Cell>, size: int)
    reads arr
  {
    Square(arr, size) &&
    forall i, j, d ::
      0 <= i < size && 0 <= j < size && d != Null && InBounds(Step(Pos(i, j), d), size) ==>
        arr[i, j].border.Get(d) ==
          arr[Step(Pos(i, j), d).y, Step(Pos(i, j), d).x].border.Get(ReverseDirection(d))
  }

  /** Every wall facing outside the grid is present. */
  ghost predicate BoundaryClosed(arr: array2<Cell>, size: int)
    reads arr
  {
    Square(arr, size) &&
    forall i, j, d ::
      0 <= i < size && 0 <= j < size && d != Null && !InBounds(Step(Pos(i, j), d), size) ==>
        arr[i, j].border.Get(d)
  }

  /** The unordered pairs of adjacent cells whose shared wall is open. */
  ghost function OpenPairs(arr: array2<Cell>, size: int): set<set<Pos>>
    reads arr
    requires Square(arr, size)
  {
    set i, j, d | 0 <= i < size && 0 <= j < size && d in Sides
                  && InBounds(Step(Pos(i, j), d), size) && !arr[i, j].border.Get(d)
      :: {Pos(i, j), Step(Pos(i, j), d)}
  }
}
