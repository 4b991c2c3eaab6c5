/** The invariant of the randomized depth-first carving of Maze.dfs, on the node matrix as a
    value, and the proof that each step of dfs keeps it and that it yields a spanning tree. */
module DepthFirst {
  import opened Grid
  import opened Carving
  import opened NodeMap

  /** Every node is connected to exactly the cells the carves joined it to, in add_edge
      order, and no node has a parent. */
  ghost predicate ConnectedByTree(g: Nodes, tree: seq<Edge>)
  {
    forall p :: p in g ==> g[p].neighborsConnected == ConnectedIn(tree, p) && g[p].parent == None
  }

  /** A border is open exactly where a carve crossed it. */
  ghost predicate OpenByTree(g: Nodes, tree: seq<Edge>)
  {
    forall p, d :: p in g ==> (IsOpen(g[p].borders, d) <==> Joined(tree, p, Step(p, d)))
  }

  /** What the carving has recorded, where `v` is the set of visited cells, `order` the cells in
      the order they were first visited and `tree` the carves made: the visited flags mark
      exactly `v`, which `order` lists; connections and open borders are those of the carves. */
  ghost predicate Carved(rows: int, cols: int, g: Nodes, v: set<Pos>, order: seq<Pos>, tree: seq<Edge>)
  {
    (forall p :: p in v ==> InGrid(rows, cols, p)) &&
    VisitedIn(g) == v &&
    GrownTree(order, tree) && (forall p :: p in order <==> p in v) &&
    ConnectedByTree(g, tree) && OpenByTree(g, tree)
  }

  /** The stack holds visited cells, each carved from the one below it. */
  ghost predicate StackCarved(v: set<Pos>, tree: seq<Edge>, stack: seq<Pos>)
  {
    (forall i :: 0 <= i < |stack| ==> stack[i] in v) &&
    (forall i :: 0 < i < |stack| ==> Joined(tree, stack[i - 1], stack[i]))
  }

  /** A node lists only adjacent cells, and still lists every unvisited adjacent one. */
  ghost predicate ListsUnvisited(g: Nodes, v: set<Pos>)
  {
    (forall p, q :: p in g && q in g[p].neighbors ==> Adjacent(p, q)) &&
    (forall p, q :: p in g && q in g && Adjacent(p, q) && q !in v ==> q in g[p].neighbors)
  }

  /** A visited node that has left the stack lists no neighbour. */
  ghost predicate PoppedEmpty(g: Nodes, v: set<Pos>, stack: seq<Pos>)
  {
    forall p :: p in g && p in v && p !in stack ==> g[p].neighbors == []
  }

  /** The depth-first frontier. */
  ghost predicate Frontier(g: Nodes, v: set<Pos>, tree: seq<Edge>, stack: seq<Pos>)
  {
    StackCarved(v, tree, stack) && ListsUnvisited(g, v) && PoppedEmpty(g, v, stack)
  }

  /** The state of a carving in progress: the matrix is well formed, it records the carving of
      `v`, `order` and `tree`, and `stack` is its depth-first frontier. */
  ghost predicate Search(rows: int, cols: int, g: Nodes, v: set<Pos>, order: seq<Pos>, tree: seq<Edge>, stack: seq<Pos>)
  {
    WellFormed(rows, cols, g) && Carved(rows, cols, g, v, order, tree) && Frontier(g, v, tree, stack)
  }

  /** The finished maze: `tree` is a spanning tree of the grid with rows * cols - 1 carves, listed
      by `order`; every node is visited and lists no neighbour; every node is connected to exactly
      the cells the carves joined it to and its borders are open exactly across those carves;
      walls and connections are symmetric and the outside of the grid is closed. */
  ghost predicate Generated(rows: int, cols: int, g: Nodes, order: seq<Pos>, tree: seq<Edge>)
  {
    WellFormed(rows, cols, g) &&
    SpanningTree(rows, cols, order, tree) && |tree| == rows * cols - 1 &&
    (forall p :: p in g ==> g[p].visited && g[p].neighbors == []) &&
    ConnectedByTree(g, tree) && OpenByTree(g, tree) &&
    SymmetricWalls(g) && OuterClosed(g) && ConnectedSymmetric(g)
  }

  /** A generated maze has exactly rows * cols - 1 open walls: one per carve, no wall twice. */
  lemma OpenWallCount(rows: int, cols: int, g: Nodes, order: seq<Pos>, tree: seq<Edge>)
    requires Generated(rows, cols, g, order, tree)
    ensures |OpenWalls(g)| == rows * cols - 1
  {
    var walls := seq(|tree|, i requires 0 <= i < |tree| => WallOf(tree[i]));
    forall i, j | 0 <= i < j < |walls|
      ensures walls[i] != walls[j]
    {
      TreeEdgesDistinct(order, tree, i, j);
    }
    forall w
      ensures w in walls <==> w in OpenWalls(g)
    {
      if w in walls {
        var i :| 0 <= i < |tree| && walls[i] == w;
        CarvedWallIsOpen(rows, cols, g, order, tree, i);
      }
      if w in OpenWalls(g) {
        var i := OpenWallIsCarved(g, tree, w.0, w.1);
        assert walls[i] == w;
      }
    }
    DistinctCount(walls, OpenWalls(g));
  }

  /** Every carve leaves its wall open. */
  lemma CarvedWallIsOpen(rows: int, cols: int, g: Nodes, order: seq<Pos>, tree: seq<Edge>, i: int)
    requires g.Keys == AllCells(rows, cols) && SpanningTree(rows, cols, order, tree) && OpenByTree(g, tree)
    requires 0 <= i < |tree|
    ensures WallOf(tree[i]) in OpenWalls(g)
  {
    var w := WallOf(tree[i]);
    JoinedEnds(order, tree, tree[i].0, tree[i].1);
    assert Joined(tree, w.0, w.1);
    assert w.0 in g && w.1 in g;
    assert Step(w.0, Toward(w.0, w.1)) == w.1;
  }

  /** Every open wall was opened by a carve. */
  lemma OpenWallIsCarved(g: Nodes, tree: seq<Edge>, p: Pos, q: Pos) returns (i: int)
    requires OpenByTree(g, tree) && (p, q) in OpenWalls(g)
    ensures 0 <= i < |tree| && WallOf(tree[i]) == (p, q)
  {
    assert Step(p, Toward(p, q)) == q;
    assert Joined(tree, p, q);
    i :| 0 <= i < |tree| && (tree[i] == (p, q) || tree[i] == (q, p));
  }

  /** What the carving state says about the dfs loop: visited_cells, the length of `order`,
      is the number of visited nodes; every cell on the stack is visited, and consecutive cells
      on the stack are grid neighbours. */
  lemma SearchFacts(rows: int, cols: int, g: Nodes, v: set<Pos>, order: seq<Pos>, tree: seq<Edge>, stack: seq<Pos>)
    requires Search(rows, cols, g, v, order, tree, stack)
    ensures |order| == |VisitedIn(g)|
    ensures forall i :: 0 <= i < |stack| ==> stack[i] in g && g[stack[i]].visited
    ensures forall i :: 0 < i < |stack| ==> Adjacent(stack[i - 1], stack[i])
  {
    DistinctCount(order, v);
    forall i | 0 < i < |stack|
      ensures Adjacent(stack[i - 1], stack[i])
    {
      JoinedEnds(order, tree, stack[i - 1], stack[i]);
    }
  }

  /** The state dfs starts from: the reset matrix with the start cell visited and on the stack. */
  lemma Start(rows: nat, cols: nat, start: Pos)
    requires InGrid(rows, cols, start)
    ensures Search(rows, cols, Marked(FreshGrid(rows, cols), start), {start}, [start], [], [start])
  {
    var g := Marked(FreshGrid(rows, cols), start);
    StartNodes(rows, cols, start);
    assert ConnectedByTree(g, []);
    assert OpenByTree(g, []);
  }

  /** Each node of the start state is a fresh node, the start cell visited. */
  lemma StartNodes(rows: nat, cols: nat, start: Pos)
    requires InGrid(rows, cols, start)
    ensures WellFormed(rows, cols, Marked(FreshGrid(rows, cols), start))
    ensures forall p :: p in Marked(FreshGrid(rows, cols), start) ==>
      Marked(FreshGrid(rows, cols), start)[p] == FreshNode(rows, cols, p).(visited := p == start)
    ensures ListsUnvisited(Marked(FreshGrid(rows, cols), start), {start})
  {
    var f := FreshGrid(rows, cols);
    var g := Marked(f, start);
    FreshGridWellFormed(rows, cols);
    FreshGridNeighbors(rows, cols);
    assert forall p :: p in g ==> g[p].neighbors == f[p].neighbors;
  }

  /** remove_neighbors_visited on the node on top of the stack keeps the invariant; what is left
      are unvisited grid neighbours of that node, and if none is left the node may be popped. */
  lemma Prune(rows: int, cols: int, g: Nodes, v: set<Pos>, order: seq<Pos>, tree: seq<Edge>, stack: seq<Pos>)
    requires Search(rows, cols, g, v, order, tree, stack) && stack != []
    ensures Search(rows, cols, VisitedRemoved(g, stack[|stack| - 1]), v, order, tree, stack)
    ensures forall q :: q in VisitedRemoved(g, stack[|stack| - 1])[stack[|stack| - 1]].neighbors ==>
      q in g && Adjacent(stack[|stack| - 1], q) && q !in v
    ensures VisitedRemoved(g, stack[|stack| - 1])[stack[|stack| - 1]].neighbors == [] ==>
      Search(rows, cols, VisitedRemoved(g, stack[|stack| - 1]), v, order, tree, stack[..|stack| - 1])
  {
    var top := stack[|stack| - 1];
    var r := VisitedRemoved(g, top);
    VisitedRemovedFacts(g, top);
    PruneKeepsRecord(rows, cols, g, v, order, tree, top);
    assert forall q :: q in g[top].neighbors ==> InGrid(rows, cols, q);
    PruneKeepsLists(g, v, top);
    assert PoppedEmpty(r, v, stack);
    if r[top].neighbors == [] {
      PopKeepsFrontier(r, v, tree, stack);
    }
  }

  lemma PruneKeepsRecord(rows: int, cols: int, g: Nodes, v: set<Pos>, order: seq<Pos>, tree: seq<Edge>, top: Pos)
    requires WellFormed(rows, cols, g) && Carved(rows, cols, g, v, order, tree) && top in g
    ensures WellFormed(rows, cols, VisitedRemoved(g, top))
    ensures Carved(rows, cols, VisitedRemoved(g, top), v, order, tree)
  {
    var r := VisitedRemoved(g, top);
    VisitedRemovedFacts(g, top);
    assert forall q :: q in r[top].neighbors ==> q in g[top].neighbors;
    assert ConnectedByTree(r, tree);
    assert OpenByTree(r, tree);
  }

  lemma PruneKeepsLists(g: Nodes, v: set<Pos>, top: Pos)
    requires ListsUnvisited(g, v) && top in g && VisitedIn(g) == v
    requires forall q :: q in g[top].neighbors ==> q in g
    ensures ListsUnvisited(VisitedRemoved(g, top), v)
    ensures forall q :: q in VisitedRemoved(g, top)[top].neighbors ==> q in g && Adjacent(top, q) && q !in v
  {
    var r := VisitedRemoved(g, top);
    VisitedRemovedFacts(g, top);
    forall p, q | p in r && q in r[p].neighbors
      ensures Adjacent(p, q)
    {
      assert q in g[p].neighbors;
    }
    forall p, q | p in r && q in r && Adjacent(p, q) && q !in v
      ensures q in r[p].neighbors
    {
      assert q in g[p].neighbors && !g[q].visited;
    }
  }

  /** Popping a node that lists no neighbour keeps the frontier. */
  lemma PopKeepsFrontier(g: Nodes, v: set<Pos>, tree: seq<Edge>, stack: seq<Pos>)
    requires Frontier(g, v, tree, stack) && stack != []
    requires stack[|stack| - 1] in g && g[stack[|stack| - 1]].neighbors == []
    ensures Frontier(g, v, tree, stack[..|stack| - 1])
  {
    var top, rest := stack[|stack| - 1], stack[..|stack| - 1];
    assert stack == rest + [top];
    forall p | p in g && p in v && p !in rest
      ensures g[p].neighbors == []
    {
      assert p == top || p !in stack;
    }
  }

  /** The matrix after break_border, add_edge and marking the neighbour visited. */
  function CarveStep(g: Nodes, cur: Pos, next: Pos): (r: Nodes)
    requires cur in g && next in g
    ensures r.Keys == g.Keys
  {
    Marked(EdgeAdded(BorderBroken(g, cur, next), cur, next), next)
  }

  /** A carve visits the neighbour, appends the two cells to each other's connected lists and
      opens the wall between them; nothing else of any node changes. */
  lemma CarveStepAt(g: Nodes, cur: Pos, next: Pos, p: Pos, d: Dir)
    requires cur in g && next in g && p in g && Adjacent(cur, next)
    ensures CarveStep(g, cur, next)[p].visited == (g[p].visited || p == next)
    ensures CarveStep(g, cur, next)[p].neighborsConnected ==
      g[p].neighborsConnected + (if p == next then [cur] else []) + (if p == cur then [next] else [])
    ensures CarveStep(g, cur, next)[p].(visited := g[p].visited, neighborsConnected := g[p].neighborsConnected,
      borders := g[p].borders) == g[p]
    ensures IsOpen(CarveStep(g, cur, next)[p].borders, d) <==>
      IsOpen(g[p].borders, d) || (p == cur && Step(cur, d) == next) || (p == next && Step(next, d) == cur)
  {
    var g1 := BorderBroken(g, cur, next);
    BorderBrokenAt(g, cur, next, p, d);
    EdgeAddedAt(g1, cur, next, p);
  }

  /** One carve from the node on top of the stack to an unvisited grid neighbour keeps the
      invariant, with the neighbour visited, recorded and pushed. */
  lemma Carve(rows: int, cols: int, g: Nodes, v: set<Pos>, order: seq<Pos>, tree: seq<Edge>,
              stack: seq<Pos>, next: Pos)
    requires Search(rows, cols, g, v, order, tree, stack)
    requires stack != [] && next in g && Adjacent(stack[|stack| - 1], next) && next !in v
    ensures Search(rows, cols, CarveStep(g, stack[|stack| - 1], next),
                   v + {next}, order + [next], tree + [(stack[|stack| - 1], next)], stack + [next])
  {
    var cur := stack[|stack| - 1];
    assert cur in v;
    GrownTreeExtend(order, tree, cur, next);
    CarveKeepsWellFormed(rows, cols, g, cur, next);
    CarveKeepsConnected(g, tree, cur, next);
    CarveKeepsOpen(g, tree, cur, next);
    CarveKeepsFrontier(g, v, tree, stack, next);
  }

  lemma CarveKeepsWellFormed(rows: int, cols: int, g: Nodes, cur: Pos, next: Pos)
    requires WellFormed(rows, cols, g) && cur in g && next in g && Adjacent(cur, next)
    ensures WellFormed(rows, cols, CarveStep(g, cur, next))
    ensures VisitedIn(CarveStep(g, cur, next)) == VisitedIn(g) + {next}
  {
    var r := CarveStep(g, cur, next);
    forall p | p in g
      ensures r[p].pos == p && AllInGrid(rows, cols, r[p].neighbors) && AllInGrid(rows, cols, r[p].neighborsConnected)
      ensures r[p].visited == (g[p].visited || p == next)
    {
      CarveStepAt(g, cur, next, p, Top);
    }
  }

  lemma CarveKeepsConnected(g: Nodes, tree: seq<Edge>, cur: Pos, next: Pos)
    requires ConnectedByTree(g, tree) && cur in g && next in g && Adjacent(cur, next)
    ensures ConnectedByTree(CarveStep(g, cur, next), tree + [(cur, next)])
  {
    var r := CarveStep(g, cur, next);
    forall p | p in r
      ensures r[p].neighborsConnected == ConnectedIn(tree + [(cur, next)], p) && r[p].parent == None
    {
      CarveStepAt(g, cur, next, p, Top);
      ConnectedInExtend(tree, (cur, next), p);
    }
  }

  lemma CarveKeepsOpen(g: Nodes, tree: seq<Edge>, cur: Pos, next: Pos)
    requires OpenByTree(g, tree) && cur in g && next in g && Adjacent(cur, next)
    ensures OpenByTree(CarveStep(g, cur, next), tree + [(cur, next)])
  {
    var r := CarveStep(g, cur, next);
    forall p, d | p in r
      ensures IsOpen(r[p].borders, d) <==> Joined(tree + [(cur, next)], p, Step(p, d))
    {
      CarveStepAt(g, cur, next, p, d);
      JoinedExtend(tree, (cur, next), p, Step(p, d));
    }
  }

  lemma CarveKeepsFrontier(g: Nodes, v: set<Pos>, tree: seq<Edge>, stack: seq<Pos>, next: Pos)
    requires Frontier(g, v, tree, stack) && stack != [] && stack[|stack| - 1] in g && next in g
    requires Adjacent(stack[|stack| - 1], next)
    ensures Frontier(CarveStep(g, stack[|stack| - 1], next), v + {next}, tree + [(stack[|stack| - 1], next)], stack + [next])
  {
    var cur := stack[|stack| - 1];
    var r := CarveStep(g, cur, next);
    var e := (cur, next);
    forall p | p in g
      ensures r[p].neighbors == g[p].neighbors
    {
      CarveStepAt(g, cur, next, p, Top);
    }
    forall i | 0 < i < |stack| + 1
      ensures Joined(tree + [e], (stack + [next])[i - 1], (stack + [next])[i])
    {
      JoinedExtend(tree, e, (stack + [next])[i - 1], (stack + [next])[i]);
    }
    assert StackCarved(v + {next}, tree + [e], stack + [next]);
    assert ListsUnvisited(r, v + {next});
    assert PoppedEmpty(r, v + {next}, stack + [next]);
  }

  /** Once the stack is empty, every visited cell has only visited neighbours. */
  lemma EmptyStackClosed(rows: int, cols: int, g: Nodes, v: set<Pos>, order: seq<Pos>, tree: seq<Edge>)
    requires WellFormed(rows, cols, g) && Carved(rows, cols, g, v, order, tree) && Frontier(g, v, tree, [])
    ensures ClosedUnderAdjacency(rows, cols, v)
  {
    forall p, q | p in v && InGrid(rows, cols, q) && Adjacent(p, q)
      ensures q in v
    {
      assert p in g && q in g && p !in [];
    }
  }

  /** When the stack runs empty every cell has been visited: the grid is connected. Hence the
      fallback search of dfs never finds an unvisited cell. */
  lemma EmptyStackAllVisited(rows: int, cols: int, g: Nodes, v: set<Pos>, order: seq<Pos>, tree: seq<Edge>)
    requires Search(rows, cols, g, v, order, tree, [])
    ensures v == AllCells(rows, cols)
  {
    EmptyStackClosed(rows, cols, g, v, order, tree);
    ClosedSetIsWhole(rows, cols, v, order[0]);
  }

  /** Once the stack is empty the carving is finished: it has generated the maze. */
  lemma Finished(rows: nat, cols: nat, g: Nodes, v: set<Pos>, order: seq<Pos>, tree: seq<Edge>)
    requires Search(rows, cols, g, v, order, tree, [])
    ensures Generated(rows, cols, g, order, tree)
  {
    EmptyStackAllVisited(rows, cols, g, v, order, tree);
    AllCellsCount(rows, cols);
    DistinctCount(order, v);
    forall p, d | p in g && Step(p, d) in g
      ensures IsOpen(g[p].borders, d) <==> IsOpen(g[Step(p, d)].borders, Opposite(d))
    {
      StepBack(p, d);
    }
    forall p, d | p in g && Step(p, d) !in g
      ensures !IsOpen(g[p].borders, d)
    {
      if Joined(tree, p, Step(p, d)) {
        JoinedEnds(order, tree, p, Step(p, d));
      }
    }
    forall p, q | p in g && q in g
      ensures q in g[p].neighborsConnected <==> p in g[q].neighborsConnected
    {
      ConnectedInSymmetric(tree, p, q);
    }
  }
}
