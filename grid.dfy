/** Cells of the maze grid: positions, the four borders of a node, geometric
    adjacency and the per-node record kept by the maze (class Node of maze.py). */
module Grid {

  datatype Option<T> = None | Some(value: T)

  /** A cell's place in the matrix: `row` is Node.matrix_pos_x, `col` is Node.matrix_pos_y. */
  datatype Pos = Pos(row: int, col: int)

  /** The four sides of a cell, in the order in which neighbours are listed. */
  datatype Dir = Top | Bottom | Left | Right
  {
    function Rank(): nat
    {
      match this
      case Top => 0
      case Bottom => 1
      case Left => 2
      case Right => 3
    }
  }

  /** The four borders of a node; `true` is an open wall (drawn YELLOW), `false` a closed one (drawn BLACK). */
  datatype Borders = Borders(top: bool, bottom: bool, left: bool, right: bool)

  const AllClosed := Borders(false, false, false, false)

  /** The semantic fields of a maze node. Other nodes are referred to by their position. */
  datatype Node = Node(
    visited: bool,
    neighbors: seq<Pos>,
    neighborsConnected: seq<Pos>,
    parent: Option<Pos>,
    pos: Pos,
    borders: Borders)

  predicate InGrid(rows: int, cols: int, p: Pos)
  {
    0 <= p.row < rows && 0 <= p.col < cols
  }

  predicate AllInGrid(rows: int, cols: int, s: seq<Pos>)
  {
    forall q :: q in s ==> InGrid(rows, cols, q)
  }

  function Abs(x: int): nat
  {
    if x < 0 then -x else x
  }

  /** Orthogonal grid adjacency: Manhattan distance one. */
  predicate Adjacent(p: Pos, q: Pos)
  {
    Abs(p.row - q.row) + Abs(p.col - q.col) == 1
  }

  /** The cell on the other side of side `d` of `p`. */
  function Step(p: Pos, d: Dir): Pos
  {
    match d
    case Top => Pos(p.row - 1, p.col)
    case Bottom => Pos(p.row + 1, p.col)
    case Left => Pos(p.row, p.col - 1)
    case Right => Pos(p.row, p.col + 1)
  }

  function Opposite(d: Dir): (e: Dir)
    ensures e != d
  {
    match d
    case Top => Bottom
    case Bottom => Top
    case Left => Right
    case Right => Left
  }

  /** The side of `p` that faces its grid neighbour `q`: the only side whose step reaches `q`. */
  function Toward(p: Pos, q: Pos): (d: Dir)
    requires Adjacent(p, q)
    ensures Step(p, d) == q
    ensures forall e :: Step(p, e) == q ==> e == d
  {
    if q.row < p.row then Top
    else if q.row > p.row then Bottom
    else if q.col < p.col then Left
    else Right
  }

  /** Stepping across a side and back across the opposite side returns to the same cell. */
  lemma StepBack(p: Pos, d: Dir)
    ensures Step(Step(p, d), Opposite(d)) == p
  {
  }

  /** The two sides facing each other across one wall are opposite. */
  lemma TowardSymmetric(p: Pos, q: Pos)
    requires Adjacent(p, q)
    ensures Adjacent(q, p) && Toward(q, p) == Opposite(Toward(p, q))
  {
    assert Step(q, Opposite(Toward(p, q))) == p;
  }

  /** `p` comes before `q` when the matrix is scanned row by row. */
  predicate RowMajorBefore(p: Pos, q: Pos)
  {
    p.row < q.row || (p.row == q.row && p.col < q.col)
  }

  function IsOpen(b: Borders, d: Dir): bool
  {
    match d
    case Top => b.top
    case Bottom => b.bottom
    case Left => b.left
    case Right => b.right
  }

  /** `b` with side `d` opened. */
  function Opened(b: Borders, d: Dir): (r: Borders)
    ensures IsOpen(r, d)
    ensures forall e :: e != d ==> IsOpen(r, e) == IsOpen(b, e)
  {
    match d
    case Top => b.(top := true)
    case Bottom => b.(bottom := true)
    case Left => b.(left := true)
    case Right => b.(right := true)
  }

  /** The potential neighbours of `p` that Maze.define_neighbors lists: the cells above, below,
      left of and right of `p` that lie inside the grid. */
  function GeometricNeighbors(rows: int, cols: int, p: Pos): seq<Pos>
    requires InGrid(rows, cols, p)
  {
    (if p.row > 0 then [Pos(p.row - 1, p.col)] else [])
    + (if p.row < rows - 1 then [Pos(p.row + 1, p.col)] else [])
    + (if p.col > 0 then [Pos(p.row, p.col - 1)] else [])
    + (if p.col < cols - 1 then [Pos(p.row, p.col + 1)] else [])
  }

  /** Exactly the in-grid cells adjacent to `p`; at most four, in the fixed order top, bottom, left, right (so no
      cell is listed twice); two at a corner of a grid of at least 2 x 2, four inside. */
  lemma GeometricNeighborsShape(rows: int, cols: int, p: Pos, ns: seq<Pos>)
    requires InGrid(rows, cols, p) && ns == GeometricNeighbors(rows, cols, p)
    ensures forall q :: q in ns <==> InGrid(rows, cols, q) && Adjacent(p, q)
    ensures |ns| <= 4
    ensures forall i, j :: 0 <= i < j < |ns| ==>
      Adjacent(p, ns[i]) && Adjacent(p, ns[j]) && Toward(p, ns[i]).Rank() < Toward(p, ns[j]).Rank()
    ensures rows >= 2 && cols >= 2 && (p.row == 0 || p.row == rows - 1) && (p.col == 0 || p.col == cols - 1)
      ==> |ns| == 2
    ensures 0 < p.row < rows - 1 && 0 < p.col < cols - 1 ==> |ns| == 4
  {
  }

  /** Every geometric neighbour lies in the grid. */
  lemma GeometricNeighborsInGrid(rows: int, cols: int)
    ensures forall p :: InGrid(rows, cols, p) ==> AllInGrid(rows, cols, GeometricNeighbors(rows, cols, p))
  {
    GeometricNeighborsMembers(rows, cols);
  }

  /** For every cell at once: its geometric neighbours are exactly its in-grid adjacent cells. */
  lemma GeometricNeighborsMembers(rows: int, cols: int)
    ensures forall p, q :: InGrid(rows, cols, p) ==>
      (q in GeometricNeighbors(rows, cols, p) <==> InGrid(rows, cols, q) && Adjacent(p, q))
  {
    forall p | InGrid(rows, cols, p)
      ensures forall q :: q in GeometricNeighbors(rows, cols, p) <==> InGrid(rows, cols, q) && Adjacent(p, q)
    {
      GeometricNeighborsShape(rows, cols, p, GeometricNeighbors(rows, cols, p));
    }
  }

  /** The node as Node._init_ leaves it, once the maze has recorded its position. */
  function InitialNode(p: Pos): Node
  {
    Node(false, [], [], None, p, AllClosed)
  }

  /** Node `n` at `p` once define_neighbors has given it its potential neighbours. */
  function WithNeighbors(rows: int, cols: int, p: Pos, n: Node): Node
    requires InGrid(rows, cols, p)
  {
    n.(neighbors := GeometricNeighbors(rows, cols, p))
  }

  /** Node `n` as the first loop of _reset_maze_state leaves it: not visited, unconnected,
      without parent, walled in on all four sides. */
  function ClearedNode(n: Node): Node
  {
    n.(visited := false, neighborsConnected := [], parent := None, borders := AllClosed)
  }

  /** The node as _reset_maze_state leaves it: not visited, walled in, unconnected,
      listing its geometric neighbours. */
  function FreshNode(rows: int, cols: int, p: Pos): Node
    requires InGrid(rows, cols, p)
  {
    WithNeighbors(rows, cols, p, InitialNode(p))
  }

  /** The neighbours in `ns` that are not in `visited`, in their original order
      (the comprehension of remove_neighbors_visited). */
  function Unvisited(ns: seq<Pos>, visited: set<Pos>): (r: seq<Pos>)
    ensures |r| <= |ns|
    ensures forall q :: q in r <==> q in ns && q !in visited
  {
    if ns == [] then []
    else
      var last := ns[|ns| - 1];
      assert forall q :: q in ns <==> q in ns[..|ns| - 1] || q == last;
      Unvisited(ns[..|ns| - 1], visited) + (if last in visited then [] else [last])
  }

  /** `a` is obtained from `b` by deleting elements. */
  predicate IsSubsequence(a: seq<Pos>, b: seq<Pos>)
    decreases |b|
  {
    if a == [] then true
    else if b == [] then false
    else if a[|a| - 1] == b[|b| - 1] then IsSubsequence(a[..|a| - 1], b[..|b| - 1])
    else IsSubsequence(a, b[..|b| - 1])
  }

  /** Filtering keeps the original order. */
  lemma {:induction false} UnvisitedIsSubsequence(ns: seq<Pos>, visited: set<Pos>)
    ensures IsSubsequence(Unvisited(ns, visited), ns)
  {
    if ns != [] {
      var init, last := ns[..|ns| - 1], ns[|ns| - 1];
      UnvisitedIsSubsequence(init, visited);
      if last !in visited {
        var r := Unvisited(ns, visited);
        assert r[..|r| - 1] == Unvisited(init, visited);
      } else {
        assert ns == init + [last];
        assert Unvisited(ns, visited) == Unvisited(init, visited);
        SubsequenceExtend(Unvisited(init, visited), init, last);
      }
    }
  }

  lemma {:induction false} SubsequenceExtend(a: seq<Pos>, b: seq<Pos>, x: Pos)
    requires IsSubsequence(a, b)
    ensures IsSubsequence(a, b + [x])
  {
    assert (b + [x])[..|b|] == b;
    if a != [] && a[|a| - 1] == x {
      SubsequenceDropLast(a, b);
    }
  }

  lemma {:induction false} SubsequenceDropLast(a: seq<Pos>, b: seq<Pos>)
    requires a != [] && IsSubsequence(a, b)
    ensures IsSubsequence(a[..|a| - 1], b)
    decreases |b|
  {
    var a', b' := a[..|a| - 1], b[..|b| - 1];
    if a[|a| - 1] != b[|b| - 1] {
      SubsequenceDropLast(a, b');
    }
    if a' != [] && a'[|a'| - 1] == b[|b| - 1] {
      SubsequenceDropLast(a', b');
    }
  }

  /** Filtering a second time with more cells visited is filtering once:
      in particular remove_neighbors_visited is idempotent. */
  lemma {:induction false} UnvisitedCompose(ns: seq<Pos>, v: set<Pos>, w: set<Pos>)
    requires v <= w
    ensures Unvisited(Unvisited(ns, v), w) == Unvisited(ns, w)
  {
    if ns != [] {
      var init, last := ns[..|ns| - 1], ns[|ns| - 1];
      UnvisitedCompose(init, v, w);
      var r := Unvisited(ns, v);
      if last !in v {
        assert r[..|r| - 1] == Unvisited(init, v);
      } else {
        assert r == Unvisited(init, v);
      }
    }
  }

  lemma UnvisitedIdempotent(ns: seq<Pos>, visited: set<Pos>)
    ensures Unvisited(Unvisited(ns, visited), visited) == Unvisited(ns, visited)
  {
    UnvisitedCompose(ns, visited, visited);
  }

  /** Every position of a rows x cols grid. */
  function AllCells(rows: int, cols: int): (s: set<Pos>)
    ensures forall p :: p in s <==> InGrid(rows, cols, p)
  {
    var s := set r, c | 0 <= r < rows && 0 <= c < cols :: Pos(r, c);
    assert forall p: Pos :: InGrid(rows, cols, p) ==> Pos(p.row, p.col) in s;
    s
  }

  function RowCells(r: int, cols: int): (s: set<Pos>)
    ensures forall p :: p in s <==> p.row == r && 0 <= p.col < cols
  {
    var s := set c | 0 <= c < cols :: Pos(r, c);
    assert forall p: Pos :: p.row == r && 0 <= p.col < cols ==> Pos(p.row, p.col) in s;
    s
  }

  lemma {:induction false} RowCellsCount(r: int, cols: nat)
    ensures |RowCells(r, cols)| == cols
  {
    if cols > 0 {
      RowCellsCount(r, cols - 1);
      RowCellsSplit(r, cols);
      AddOneCount(RowCells(r, cols), RowCells(r, cols - 1), Pos(r, cols - 1));
    } else {
      assert RowCells(r, cols) == {};
    }
  }

  lemma RowCellsSplit(r: int, cols: int)
    requires cols > 0
    ensures RowCells(r, cols) == RowCells(r, cols - 1) + {Pos(r, cols - 1)}
    ensures Pos(r, cols - 1) !in RowCells(r, cols - 1)
  {
  }

  lemma AddOneCount(s: set<Pos>, a: set<Pos>, x: Pos)
    requires s == a + {x} && x !in a
    ensures |s| == |a| + 1
  {
  }

  /** The grid has exactly rows * cols cells. */
  lemma {:induction false} AllCellsCount(rows: nat, cols: nat)
    ensures |AllCells(rows, cols)| == rows * cols
  {
    if rows > 0 {
      AllCellsCount(rows - 1, cols);
      RowCellsCount(rows - 1, cols);
      AllCellsSplit(rows, cols);
      DisjointUnionCount(AllCells(rows, cols), AllCells(rows - 1, cols), RowCells(rows - 1, cols));
      RowMultiple(rows, cols);
    } else {
      assert AllCells(rows, cols) == {};
    }
  }

  /** The grid is the grid of one row fewer plus its last row, which it does not overlap. */
  lemma AllCellsSplit(rows: int, cols: int)
    requires rows > 0
    ensures AllCells(rows, cols) == AllCells(rows - 1, cols) + RowCells(rows - 1, cols)
    ensures AllCells(rows - 1, cols) * RowCells(rows - 1, cols) == {}
  {
  }

  lemma DisjointUnionCount(s: set<Pos>, a: set<Pos>, b: set<Pos>)
    requires s == a + b && a * b == {}
    ensures |s| == |a| + |b|
  {
  }

  lemma RowMultiple(rows: int, cols: int)
    ensures (rows - 1) * cols + cols == rows * cols
  {
    assert (rows - 1) * cols + cols == (rows - 1 + 1) * cols;
  }

  /** A set of cells closed under grid adjacency: one containing a cell contains every cell
      a walk of orthogonal steps reaches. */
  ghost predicate ClosedUnderAdjacency(rows: int, cols: int, v: set<Pos>)
  {
    forall p, q :: p in v && InGrid(rows, cols, q) && Adjacent(p, q) ==> q in v
  }

  lemma {:induction false} Spread(rows: int, cols: int, v: set<Pos>, p: Pos, q: Pos)
    requires ClosedUnderAdjacency(rows, cols, v)
    requires p in v && InGrid(rows, cols, p) && InGrid(rows, cols, q)
    ensures q in v
    decreases Abs(p.row - q.row) + Abs(p.col - q.col)
  {
    if p != q {
      var s :=
        if p.row < q.row then Pos(p.row + 1, p.col)
        else if p.row > q.row then Pos(p.row - 1, p.col)
        else if p.col < q.col then Pos(p.row, p.col + 1)
        else Pos(p.row, p.col - 1);
      assert Adjacent(p, s) && InGrid(rows, cols, s);
      Spread(rows, cols, v, s, q);
    }
  }

  /** The rectangular grid is connected: a non-empty set of its cells that is closed
      under adjacency is the whole grid. */
  lemma ClosedSetIsWhole(rows: int, cols: int, v: set<Pos>, seed: Pos)
    requires seed in v
    requires forall p :: p in v ==> InGrid(rows, cols, p)
    requires ClosedUnderAdjacency(rows, cols, v)
    ensures v == AllCells(rows, cols)
  {
    forall q | InGrid(rows, cols, q)
      ensures q in v
    {
      Spread(rows, cols, v, seed, q);
    }
  }
}
