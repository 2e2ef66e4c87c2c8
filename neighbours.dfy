/** The two helpers the generator uses to choose where to go next: the
    neighbours of a position (getNear) and those of them not yet visited
    (diff). */
module Neighbours {
  import opened Grid

  /** The neighbour of `p` through side `d`, labelled with `d`. */
  function NearOf(p: Pos, d: Direction): Near {
    Near(Step(p, d).y, Step(p, d).x, d)
  }

  /** getNear: the horizontal neighbours first (left and right inside,
      only right in column 0, only left in the last column), then the
      vertical ones (top and bottom inside, only bottom in row 0, only top
      in the last row). */
  function GetNear(p: Pos, size: int): (nears: seq<Near>)
    ensures size >= 2 && InBounds(p, size) ==>
      forall n :: n in nears <==> n.direction != Null && n == NearOf(p, n.direction) && InBounds(n.At(), size)
  {
    var up := Near(p.y - 1, p.x, Top);
    var down := Near(p.y + 1, p.x, Bottom);
    var left := Near(p.y, p.x - 1, Left);
    var right := Near(p.y, p.x + 1, Right);
    var horizontal :=
      if p.x != 0 && p.x != size - 1 then [left, right]
      else if p.x == 0 then [right]
      else [left];
    var vertical :=
      if p.y != 0 && p.y != size - 1 then [up, down]
      else if p.y == 0 then [down]
      else [up];
    horizontal + vertical
  }

  /** Corners have two neighbours, the other boundary cells three and the
      inner cells four, each through a different side. */
  lemma GetNearCount(p: Pos, size: int)
    requires size >= 2 && InBounds(p, size)
    ensures IsCorner(p, size) ==> |GetNear(p, size)| == 2
    ensures !IsCorner(p, size) && (p.x in {0, size - 1} || p.y in {0, size - 1}) ==> |GetNear(p, size)| == 3
    ensures 0 < p.x < size - 1 && 0 < p.y < size - 1 ==> |GetNear(p, size)| == 4
    ensures forall a, b :: 0 <= a < b < |GetNear(p, size)| ==>
      GetNear(p, size)[a].direction != GetNear(p, size)[b].direction
  {
  }

  /** In a one-cell grid getNear names two cells outside the grid; the
      generator never asks, since its only cell is visited from the start. */
  lemma GetNearSingleCell()
    ensures forall n :: n in GetNear(Pos(0, 0), 1) ==> !InBounds(n.At(), 1)
    ensures |GetNear(Pos(0, 0), 1)| == 2
  {
  }

  /** `r` lists some of the elements of `s`, in the order they have in `s`. */
  ghost predicate Subsequence<T>(r: seq<T>, s: seq<T>)
    decreases |s|
  {
    r == [] || (s != [] && ((r[0] == s[0] && Subsequence(r[1..], s[1..])) || Subsequence(r, s[1..])))
  }

  /** diff: the candidates in `nears`, in order, whose cell id is not in `visited`. */
  function Diff(arr: array2<Cell>, visited: seq<Id>, nears: seq<Near>): (r: seq<Near>)
    reads arr
    requires forall n :: n in nears ==> 0 <= n.y < arr.Length0 && 0 <= n.x < arr.Length1
    ensures |r| <= |nears|
    ensures Subsequence(r, nears)
    ensures forall n :: n in r <==> n in nears && arr[n.y, n.x].id !in visited
  {
    if nears == [] then []
    else
      var rest := Diff(arr, visited, nears[1..]);
      if arr[nears[0].y, nears[0].x].id !in visited then [nears[0]] + rest else rest
  }
}
