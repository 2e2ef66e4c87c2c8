/** The grid as a graph: its set of cells, how many there are, sets of cells
    closed under taking neighbours, and reachability along a set of open
    wall pairs. */
module Graph {
  import opened Grid

  /** The cells of the first `rows` rows of a grid that is `cols` wide. */
  ghost function Rows(rows: int, cols: int): set<Pos> {
    set y, x | 0 <= y < rows && 0 <= x < cols :: Pos(y, x)
  }

  /** Row `y`, cut to its first `cols` cells. */
  ghost function Row(y: int, cols: int): set<Pos> {
    set x | 0 <= x < cols :: Pos(y, x)
  }

  /** Every cell of a `size × size` grid. */
  ghost function AllCells(size: int): set<Pos> {
    Rows(size, size)
  }

  lemma AllCellsInBounds(size: int, p: Pos)
    ensures p in AllCells(size) <==> InBounds(p, size)
  {
    if InBounds(p, size) {
      assert p == Pos(p.y, p.x);
    }
  }

  lemma {:induction false} RowCard(y: int, cols: nat)
    ensures |Row(y, cols)| == cols
  {
    if cols == 0 {
      assert Row(y, cols) == {};
    } else {
      RowCard(y, cols - 1);
      assert Row(y, cols) == Row(y, cols - 1) + {Pos(y, cols - 1)};
    }
  }

  lemma {:induction false} RowsCard(rows: nat, cols: nat)
    ensures |Rows(rows, cols)| == rows * cols
  {
    if rows == 0 {
      assert Rows(rows, cols) == {};
    } else {
      RowsCard(rows - 1, cols);
      RowCard(rows - 1, cols);
      assert Rows(rows, cols) == Rows(rows - 1, cols) + Row(rows - 1, cols);
      assert Rows(rows - 1, cols) * Row(rows - 1, cols) == {};
      assert rows * cols == (rows - 1) * cols + cols;
    }
  }

  /** numberOfCells: a `size × size` grid has size² cells. */
  lemma CardAllCells(size: nat)
    ensures |AllCells(size)| == size * size
  {
    RowsCard(size, size);
  }

  lemma SubsetCard<T>(a: set<T>, b: set<T>)
    requires a <= b
    ensures |a| <= |b|
  {
    assert b == a + (b - a);
  }

  /** A subset at least as large as its superset is the whole superset. */
  lemma SubsetFull<T>(a: set<T>, b: set<T>)
    requires a <= b && |a| >= |b|
    ensures a == b
  {
    if a != b {
      var e :| e in b && e !in a;
      SubsetCard(a, b - {e});
    }
  }

  /** Every in-bounds neighbour of a member of `s` is in `s`. */
  ghost predicate Closed(s: set<Pos>, size: int) {
    forall p, d :: p in s && d != Null && InBounds(Step(p, d), size) ==> Step(p, d) in s
  }

  lemma {:induction false} ClosedAlongRow(s: set<Pos>, size: int, y: int, from: int, to: int)
    requires Closed(s, size) && 0 <= y < size && 0 <= from < size && 0 <= to < size
    requires Pos(y, from) in s
    ensures Pos(y, to) in s
    decreases if to < from then from - to else to - from
  {
    if to > from {
      ClosedAlongRow(s, size, y, from, to - 1);
      assert Step(Pos(y, to - 1), Right) == Pos(y, to);
    } else if to < from {
      ClosedAlongRow(s, size, y, from, to + 1);
      assert Step(Pos(y, to + 1), Left) == Pos(y, to);
    }
  }

  lemma {:induction false} ClosedAlongColumn(s: set<Pos>, size: int, x: int, from: int, to: int)
    requires Closed(s, size) && 0 <= x < size && 0 <= from < size && 0 <= to < size
    requires Pos(from, x) in s
    ensures Pos(to, x) in s
    decreases if to < from then from - to else to - from
  {
    if to > from {
      ClosedAlongColumn(s, size, x, from, to - 1);
      assert Step(Pos(to - 1, x), Bottom) == Pos(to, x);
    } else if to < from {
      ClosedAlongColumn(s, size, x, from, to + 1);
      assert Step(Pos(to + 1, x), Top) == Pos(to, x);
    }
  }

  /** The grid is connected: a set of cells that holds one cell and is
      closed under neighbours holds every cell. */
  lemma ClosedContainsAll(s: set<Pos>, size: int, c: Pos)
    requires Closed(s, size) && c in s && InBounds(c, size)
    ensures AllCells(size) <= s
  {
    forall p | p in AllCells(size)
      ensures p in s
    {
      AllCellsInBounds(size, p);
      ClosedAlongRow(s, size, c.y, c.x, p.x);
      ClosedAlongColumn(s, size, p.x, c.y, p.y);
    }
  }

  /** `path` walks from `a` to `b`, each step along a pair in `g`. */
  ghost predicate IsPath(g: set<set<Pos>>, path: seq<Pos>, a: Pos, b: Pos) {
    |path| > 0 && path[0] == a && path[|path| - 1] == b &&
    forall k :: 0 <= k < |path| - 1 ==> {path[k], path[k + 1]} in g
  }

  ghost predicate Reachable(g: set<set<Pos>>, a: Pos, b: Pos) {
    exists path :: IsPath(g, path, a, b)
  }

  lemma ReachableSelf(g: set<set<Pos>>, a: Pos)
    ensures Reachable(g, a, a)
  {
    assert IsPath(g, [a], a, a);
  }

  /** A path to `b` extends by a pair {b, c} to a path to `c`. */
  lemma ReachableExtend(g: set<set<Pos>>, a: Pos, b: Pos, c: Pos)
    requires Reachable(g, a, b) && {b, c} in g
    ensures Reachable(g, a, c)
  {
    var path :| IsPath(g, path, a, b);
    var longer := path + [c];
    forall k | 0 <= k < |longer| - 1
      ensures {longer[k], longer[k + 1]} in g
    {
      if k < |path| - 1 {
        assert longer[k] == path[k] && longer[k + 1] == path[k + 1];
      }
    }
    assert IsPath(g, longer, a, c);
  }

  /** A path from `b` extends backwards by a pair {a, b} to a path from `a`. */
  lemma ReachablePrepend(g: set<set<Pos>>, a: Pos, b: Pos, c: Pos)
    requires {a, b} in g && Reachable(g, b, c)
    ensures Reachable(g, a, c)
  {
    var path :| IsPath(g, path, b, c);
    var longer := [a] + path;
    forall k | 0 <= k < |longer| - 1
      ensures {longer[k], longer[k + 1]} in g
    {
      if k > 0 {
        assert longer[k] == path[k - 1] && longer[k + 1] == path[k];
      }
    }
    assert IsPath(g, longer, a, c);
  }

  /** A path of two or more cells goes on from its second cell. */
  lemma PathTail(g: set<set<Pos>>, path: seq<Pos>, a: Pos, b: Pos)
    requires IsPath(g, path, a, b) && |path| > 1
    ensures {a, path[1]} in g && IsPath(g, path[1..], path[1], b)
  {
    var rest := path[1..];
    forall k | 0 <= k < |rest| - 1
      ensures {rest[k], rest[k + 1]} in g
    {
      assert rest[k] == path[k + 1] && rest[k + 1] == path[k + 2];
    }
  }

  /** Adding pairs keeps every path. */
  lemma ReachableMonotone(g: set<set<Pos>>, h: set<set<Pos>>, a: Pos, b: Pos)
    requires g <= h && Reachable(g, a, b)
    ensures Reachable(h, a, b)
  {
    var path :| IsPath(g, path, a, b);
    assert IsPath(h, path, a, b);
  }
}
