/** The node matrix of a Maze as a value: the node at every position, and what each of the
    Maze operations of maze.py does to it. The class in maze.dfy performs these operations in
    place on its array and states its effect through the functions here. */
module NodeMap {
  import opened Grid
  import opened Carving

  /** The node at each position of the matrix. */
  type Nodes = map<Pos, Node>

  /** One node per cell of a rows x cols grid; each records its own position and lists only
      cells of the grid. */
  ghost predicate WellFormed(rows: int, cols: int, g: Nodes)
  {
    g.Keys == AllCells(rows, cols) &&
    forall p :: p in g ==>
      g[p].pos == p && AllInGrid(rows, cols, g[p].neighbors) && AllInGrid(rows, cols, g[p].neighborsConnected)
  }

  /** The positions of the visited nodes. */
  function VisitedIn(g: Nodes): (s: set<Pos>)
    ensures forall p :: p in s <==> p in g && g[p].visited
  {
    set p | p in g && g[p].visited
  }

  /** Each wall between two neighbouring cells is either open on both of its sides or closed on both. */
  ghost predicate SymmetricWalls(g: Nodes)
  {
    forall p, d :: p in g && Step(p, d) in g ==>
      (IsOpen(g[p].borders, d) <==> IsOpen(g[Step(p, d)].borders, Opposite(d)))
  }

  /** No border on the outside of the grid is open. */
  ghost predicate OuterClosed(g: Nodes)
  {
    forall p, d :: p in g && Step(p, d) !in g ==> !IsOpen(g[p].borders, d)
  }

  /** b is in a's neighbors_connected exactly when a is in b's. */
  ghost predicate ConnectedSymmetric(g: Nodes)
  {
    forall p, q :: p in g && q in g ==> (q in g[p].neighborsConnected <==> p in g[q].neighborsConnected)
  }

  /** The open walls: every pair of neighbouring nodes, the cell first in row-major order first,
      whose shared wall is open on the side of the first. */
  ghost function OpenWalls(g: Nodes): set<Edge>
  {
    set p, q | p in g && q in g && RowMajorBefore(p, q) && Adjacent(p, q) && IsOpen(g[p].borders, Toward(p, q)) :: (p, q)
  }

  // ---------------------------------------------------------------- construction and reset

  /** The freshly built matrix: every node as FreshNode describes it. */
  function FreshGrid(rows: int, cols: int): (r: Nodes)
    ensures r.Keys == AllCells(rows, cols)
    ensures forall p :: p in r ==> r[p] == FreshNode(rows, cols, p)
  {
    map p | p in AllCells(rows, cols) :: FreshNode(rows, cols, p)
  }

  /** The fresh matrix holds rows * cols nodes at their own positions; none is visited, every
      wall is closed, nothing is connected, and every node lists its geometric neighbours. */
  lemma FreshGridFacts(rows: nat, cols: nat)
    ensures WellFormed(rows, cols, FreshGrid(rows, cols))
    ensures |FreshGrid(rows, cols).Keys| == rows * cols
    ensures VisitedIn(FreshGrid(rows, cols)) == {}
    ensures SymmetricWalls(FreshGrid(rows, cols)) && OuterClosed(FreshGrid(rows, cols))
    ensures ConnectedSymmetric(FreshGrid(rows, cols))
    ensures forall p, q :: p in FreshGrid(rows, cols) ==>
      (q in FreshGrid(rows, cols)[p].neighbors <==> InGrid(rows, cols, q) && Adjacent(p, q))
    ensures forall p :: p in FreshGrid(rows, cols) ==>
      FreshGrid(rows, cols)[p].borders == AllClosed && FreshGrid(rows, cols)[p].neighborsConnected == [] &&
      FreshGrid(rows, cols)[p].parent == None
  {
    AllCellsCount(rows, cols);
    FreshGridWellFormed(rows, cols);
    FreshGridNeighbors(rows, cols);
  }

  lemma FreshGridWellFormed(rows: int, cols: int)
    ensures WellFormed(rows, cols, FreshGrid(rows, cols))
  {
    GeometricNeighborsInGrid(rows, cols);
  }

  lemma FreshGridNeighbors(rows: int, cols: int)
    ensures forall p, q :: p in FreshGrid(rows, cols) ==>
      (q in FreshGrid(rows, cols)[p].neighbors <==> InGrid(rows, cols, q) && Adjacent(p, q))
  {
    GeometricNeighborsMembers(rows, cols);
  }

  /** define_neighbors: every node lists its geometric neighbours, and nothing else changes. */
  function NeighborsDefined(rows: int, cols: int, g: Nodes): (r: Nodes)
    requires forall p :: p in g ==> InGrid(rows, cols, p)
    ensures r.Keys == g.Keys
    ensures forall p :: p in g ==> r[p] == WithNeighbors(rows, cols, p, g[p])
  {
    map p | p in g :: WithNeighbors(rows, cols, p, g[p])
  }

  /** The first loop of _reset_maze_state: every node unvisited, unconnected, without parent,
      its four borders closed. */
  function Cleared(g: Nodes): (r: Nodes)
    ensures r.Keys == g.Keys
    ensures forall p :: p in g ==> r[p] == ClearedNode(g[p])
  {
    map p | p in g :: ClearedNode(g[p])
  }

  /** Whatever state the carving left, _reset_maze_state restores the freshly built matrix. */
  lemma ResetIsFresh(rows: int, cols: int, g: Nodes)
    requires WellFormed(rows, cols, g)
    ensures NeighborsDefined(rows, cols, Cleared(g)) == FreshGrid(rows, cols)
  {
    var r := NeighborsDefined(rows, cols, Cleared(g));
    assert forall p :: p in r ==> r[p] == FreshGrid(rows, cols)[p];
  }

  /** The nodes as construction creates them, before their neighbours are defined. */
  ghost predicate Blank(rows: int, cols: int, g: Nodes)
  {
    g.Keys == AllCells(rows, cols) && forall p :: p in g ==> g[p] == InitialNode(p)
  }

  /** Construction: defining the neighbours of the blank nodes yields the fresh matrix. */
  lemma BlankDefinedIsFresh(rows: int, cols: int, g: Nodes)
    requires Blank(rows, cols, g)
    ensures NeighborsDefined(rows, cols, g) == FreshGrid(rows, cols)
  {
    var r := NeighborsDefined(rows, cols, g);
    assert forall p :: p in r ==> r[p] == FreshGrid(rows, cols)[p];
  }

  /** Defining the neighbours keeps the matrix well formed. */
  lemma NeighborsDefinedWellFormed(rows: int, cols: int, g: Nodes)
    requires WellFormed(rows, cols, g)
    ensures WellFormed(rows, cols, NeighborsDefined(rows, cols, g))
  {
    GeometricNeighborsInGrid(rows, cols);
  }

  // ---------------------------------------------------------------- add_edge

  /** add_edge(a, b): b's connected list gets a appended, then a's gets b appended. */
  function EdgeAdded(g: Nodes, a: Pos, b: Pos): (r: Nodes)
    requires a in g && b in g
    ensures r.Keys == g.Keys
  {
    var g1 := g[b := g[b].(neighborsConnected := g[b].neighborsConnected + [a])];
    g1[a := g1[a].(neighborsConnected := g1[a].neighborsConnected + [b])]
  }

  /** After add_edge(a, b) each node's connected list is its old list followed by a when it is
      b and then by b when it is a (so a == b gets itself twice); nothing else changes. */
  lemma EdgeAddedAt(g: Nodes, a: Pos, b: Pos, p: Pos)
    requires a in g && b in g && p in g
    ensures EdgeAdded(g, a, b)[p] == g[p].(neighborsConnected :=
      g[p].neighborsConnected + (if p == b then [a] else []) + (if p == a then [b] else []))
  {
  }

  /** add_edge connects its two nodes both ways, and it keeps the connections symmetric. */
  lemma EdgeAddedSymmetric(g: Nodes, a: Pos, b: Pos)
    requires a in g && b in g
    ensures b in EdgeAdded(g, a, b)[a].neighborsConnected && a in EdgeAdded(g, a, b)[b].neighborsConnected
    ensures ConnectedSymmetric(g) ==> ConnectedSymmetric(EdgeAdded(g, a, b))
  {
    EdgeAddedAt(g, a, b, a);
    EdgeAddedAt(g, a, b, b);
    if ConnectedSymmetric(g) {
      var r := EdgeAdded(g, a, b);
      forall p | p in g
        ensures r[p] == g[p].(neighborsConnected :=
          g[p].neighborsConnected + (if p == b then [a] else []) + (if p == a then [b] else []))
      {
        EdgeAddedAt(g, a, b, p);
      }
    }
  }

  // ---------------------------------------------------------------- remove_neighbors_visited

  /** remove_neighbors_visited(node): the node keeps only its neighbours not yet visited. */
  function VisitedRemoved(g: Nodes, node: Pos): (r: Nodes)
    requires node in g
    ensures r.Keys == g.Keys
    ensures forall p :: p in g && p != node ==> r[p] == g[p]
  {
    g[node := g[node].(neighbors := Unvisited(g[node].neighbors, VisitedIn(g)))]
  }

  /** The filter keeps exactly the unvisited neighbours, in their original order; it changes
      nothing but that list, marks no node visited, and a second filter changes nothing. */
  lemma VisitedRemovedFacts(g: Nodes, node: Pos)
    requires node in g
    ensures forall q :: q in VisitedRemoved(g, node)[node].neighbors <==>
      q in g[node].neighbors && !(q in g && g[q].visited)
    ensures IsSubsequence(VisitedRemoved(g, node)[node].neighbors, g[node].neighbors)
    ensures VisitedRemoved(g, node)[node].(neighbors := g[node].neighbors) == g[node]
    ensures VisitedIn(VisitedRemoved(g, node)) == VisitedIn(g)
    ensures VisitedRemoved(VisitedRemoved(g, node), node) == VisitedRemoved(g, node)
  {
    var r := VisitedRemoved(g, node);
    UnvisitedIsSubsequence(g[node].neighbors, VisitedIn(g));
    assert VisitedIn(r) == VisitedIn(g);
    UnvisitedIdempotent(g[node].neighbors, VisitedIn(g));
  }

  // ---------------------------------------------------------------- break_border

  /** break_border(a, b): when b is a grid neighbour of a, open a's side facing b and b's side
      facing a; otherwise change nothing. */
  function BorderBroken(g: Nodes, a: Pos, b: Pos): (r: Nodes)
    requires a in g && b in g
    ensures r.Keys == g.Keys
  {
    if Adjacent(a, b) then
      g[a := g[a].(borders := Opened(g[a].borders, Toward(a, b)))]
       [b := g[b].(borders := Opened(g[b].borders, Toward(b, a)))]
    else g
  }

  /** break_border changes only borders, and a border is open afterwards exactly when it was
      open before or it is one of the two sides of the wall between a and b. */
  lemma BorderBrokenAt(g: Nodes, a: Pos, b: Pos, p: Pos, d: Dir)
    requires a in g && b in g && p in g
    ensures BorderBroken(g, a, b)[p].(borders := g[p].borders) == g[p]
    ensures IsOpen(BorderBroken(g, a, b)[p].borders, d) <==>
      IsOpen(g[p].borders, d) || (Adjacent(a, b) && ((p == a && Step(a, d) == b) || (p == b && Step(b, d) == a)))
  {
    if Adjacent(a, b) {
      TowardSymmetric(a, b);
    }
  }

  /** It does not matter which of the two nodes is passed first. */
  lemma BorderBrokenCommutes(g: Nodes, a: Pos, b: Pos)
    requires a in g && b in g
    ensures BorderBroken(g, a, b) == BorderBroken(g, b, a)
  {
    if Adjacent(a, b) {
      TowardSymmetric(a, b);
      assert a != b;
    }
  }

  /** Breaking a border keeps every wall symmetric and the outside of the grid closed. */
  lemma BorderBrokenKeepsWalls(g: Nodes, a: Pos, b: Pos)
    requires a in g && b in g
    ensures SymmetricWalls(g) ==> SymmetricWalls(BorderBroken(g, a, b))
    ensures OuterClosed(g) ==> OuterClosed(BorderBroken(g, a, b))
  {
    var r := BorderBroken(g, a, b);
    forall p, d | p in g
      ensures IsOpen(r[p].borders, d) <==>
        IsOpen(g[p].borders, d) || (Adjacent(a, b) && ((p == a && Step(a, d) == b) || (p == b && Step(b, d) == a)))
    {
      BorderBrokenAt(g, a, b, p, d);
    }
    if SymmetricWalls(g) {
      forall p, d | p in r && Step(p, d) in r
        ensures IsOpen(r[p].borders, d) <==> IsOpen(r[Step(p, d)].borders, Opposite(d))
      {
        StepBack(p, d);
        if Adjacent(a, b) {
          TowardSymmetric(a, b);
          assert Step(a, Toward(a, b)) == b && Step(b, Toward(b, a)) == a;
        }
      }
    }
  }

  // ---------------------------------------------------------------- visited flag

  /** `current_cell.visited = True`. */
  function Marked(g: Nodes, p: Pos): (r: Nodes)
    requires p in g
    ensures r.Keys == g.Keys
    ensures VisitedIn(r) == VisitedIn(g) + {p}
  {
    g[p := g[p].(visited := true)]
  }

  // ---------------------------------------------------------------- well-formedness is kept

  /** Replacing one node by one with the same position and lists within the grid keeps the
      matrix well formed. */
  lemma UpdateWellFormed(rows: int, cols: int, g: Nodes, p: Pos, n: Node)
    requires WellFormed(rows, cols, g) && p in g
    requires n.pos == p && AllInGrid(rows, cols, n.neighbors) && AllInGrid(rows, cols, n.neighborsConnected)
    ensures WellFormed(rows, cols, g[p := n])
  {
  }

  lemma MarkedWellFormed(rows: int, cols: int, g: Nodes, p: Pos)
    requires WellFormed(rows, cols, g) && p in g
    ensures WellFormed(rows, cols, Marked(g, p))
  {
    UpdateWellFormed(rows, cols, g, p, g[p].(visited := true));
  }

  lemma EdgeAddedWellFormed(rows: int, cols: int, g: Nodes, a: Pos, b: Pos)
    requires WellFormed(rows, cols, g) && a in g && b in g
    ensures WellFormed(rows, cols, EdgeAdded(g, a, b))
  {
    var g1 := g[b := g[b].(neighborsConnected := g[b].neighborsConnected + [a])];
    UpdateWellFormed(rows, cols, g, b, g1[b]);
    UpdateWellFormed(rows, cols, g1, a, g1[a].(neighborsConnected := g1[a].neighborsConnected + [b]));
  }

  lemma VisitedRemovedWellFormed(rows: int, cols: int, g: Nodes, node: Pos)
    requires WellFormed(rows, cols, g) && node in g
    ensures WellFormed(rows, cols, VisitedRemoved(g, node))
  {
    UpdateWellFormed(rows, cols, g, node, VisitedRemoved(g, node)[node]);
  }

  lemma BorderBrokenWellFormed(rows: int, cols: int, g: Nodes, a: Pos, b: Pos)
    requires WellFormed(rows, cols, g) && a in g && b in g
    ensures WellFormed(rows, cols, BorderBroken(g, a, b))
  {
    if Adjacent(a, b) {
      var g1 := g[a := g[a].(borders := Opened(g[a].borders, Toward(a, b)))];
      UpdateWellFormed(rows, cols, g, a, g1[a]);
      UpdateWellFormed(rows, cols, g1, b, g1[b].(borders := Opened(g1[b].borders, Toward(b, a))));
    }
  }

  lemma ClearedWellFormed(rows: int, cols: int, g: Nodes)
    requires WellFormed(rows, cols, g)
    ensures WellFormed(rows, cols, Cleared(g))
  {
  }
}
