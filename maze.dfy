/** Class Maze of maze.py: a num_rows x num_cols matrix of nodes, their potential and
    carved connections, and the randomized depth-first generator. The methods change the
    matrix in place. The grid operations and each pass of dfs state the new matrix as a
    NodeMap function of the old one; DefineRow states its row cell by cell; Dfs, whose outcome
    depends on the random choices, states the properties every outcome has. */
module Mazes {
  import opened Grid
  import opened Carving
  import opened NodeMap
  import opened DepthFirst

  class Maze {
    const numRows: nat
    const numCols: nat
    /** The node matrix; maze[r, c] is the node at row r, column c. */
    const maze: array2<Node>
    const totalNodes: nat
    var mazeCreated: bool

    /** The matrix has num_rows rows of num_cols nodes. */
    predicate Shaped()
    {
      maze.Length0 == numRows && maze.Length1 == numCols
    }

    /** The matrix as a value: the node at every position. */
    ghost function Cells(): (g: Nodes)
      reads maze
      requires Shaped()
      ensures g.Keys == AllCells(numRows, numCols)
      ensures forall p :: p in g ==> g[p] == maze[p.row, p.col]
    {
      map p | p in AllCells(numRows, numCols) :: maze[p.row, p.col]
    }

    /** total_nodes counts the nodes, each node records its own position, and every node it
        lists is a node of the grid. */
    ghost predicate Valid()
      reads maze
    {
      Shaped() && totalNodes == numRows * numCols && WellFormed(numRows, numCols, Cells())
    }

    /** Grid construction: one node per (row, col), counted into total_nodes, then the
        potential neighbours of every node. */
    constructor (rows: nat, cols: nat)
      ensures Valid() && fresh(maze)
      ensures numRows == rows && numCols == cols && !mazeCreated
      ensures Cells() == FreshGrid(rows, cols)
    {
      var m := new Node[rows, cols];
      var total := 0;
      for r := 0 to rows
        invariant total == r * cols
        invariant forall i, j :: 0 <= i < r && 0 <= j < cols ==> m[i, j] == InitialNode(Pos(i, j))
      {
        for c := 0 to cols
          invariant total == r * cols + c
          invariant forall i, j :: 0 <= i < r && 0 <= j < cols ==> m[i, j] == InitialNode(Pos(i, j))
          invariant forall j :: 0 <= j < c ==> m[r, j] == InitialNode(Pos(r, j))
        {
          m[r, c] := InitialNode(Pos(r, c));
          total := total + 1;
        }
      }
      numRows, numCols := rows, cols;
      maze := m;
      totalNodes := total;
      mazeCreated := false;
      new;
      assert Blank(rows, cols, Cells());
      BlankDefinedIsFresh(rows, cols, Cells());
      DefineNeighbors();
      FreshGridWellFormed(rows, cols);
    }

    /** add_edge: neighbor gets node appended to its connected list, then node gets neighbor. */
    method AddEdge(node: Pos, neighbor: Pos)
      requires Shaped() && InGrid(numRows, numCols, node) && InGrid(numRows, numCols, neighbor)
      modifies maze
      ensures Cells() == EdgeAdded(old(Cells()), node, neighbor)
    {
      ghost var before := Cells();
      var b := maze[neighbor.row, neighbor.col];
      maze[neighbor.row, neighbor.col] := b.(neighborsConnected := b.neighborsConnected + [node]);
      var a := maze[node.row, node.col];
      maze[node.row, node.col] := a.(neighborsConnected := a.neighborsConnected + [neighbor]);
      forall p | p in before
        ensures Cells()[p] == EdgeAdded(before, node, neighbor)[p]
      {
        EdgeAddedAt(before, node, neighbor, p);
      }
    }

    /** remove_neighbors_visited: keep only the neighbours of `node` not yet visited, in order. */
    method RemoveNeighborsVisited(node: Pos)
      requires Shaped() && InGrid(numRows, numCols, node)
      requires AllInGrid(numRows, numCols, maze[node.row, node.col].neighbors)
      modifies maze
      ensures Cells() == VisitedRemoved(old(Cells()), node)
    {
      ghost var before := Cells();
      var n := maze[node.row, node.col];
      var kept := UnvisitedOf(n.neighbors);
      maze[node.row, node.col] := n.(neighbors := kept);
      ghost var after := before[node := n.(neighbors := kept)];
      assert after == VisitedRemoved(before, node);
      assert Cells() == after by {
        assert forall p :: p in Cells() ==> Cells()[p] == after[p];
      }
    }

    /** The list comprehension of remove_neighbors_visited: the nodes of `ns` whose visited
        flag is clear, in the order of `ns`. */
    method UnvisitedOf(ns: seq<Pos>) returns (kept: seq<Pos>)
      requires Shaped() && AllInGrid(numRows, numCols, ns)
      ensures kept == Unvisited(ns, VisitedIn(Cells()))
    {
      kept := [];
      for i := 0 to |ns|
        invariant kept == Unvisited(ns[..i], VisitedIn(Cells()))
      {
        var n := ns[i];
        assert ns[..i + 1] == ns[..i] + [n];
        assert n in ns;
        if !maze[n.row, n.col].visited {
          kept := kept + [n];
        }
      }
      assert ns[..|ns|] == ns;
    }

    /** define_neighbors: every node lists its in-grid orthogonal neighbours, top, bottom, left, right. */
    method DefineNeighbors()
      requires Shaped()
      modifies maze
      ensures Cells() == NeighborsDefined(numRows, numCols, old(Cells()))
    {
      ghost var before := Cells();
      for r := 0 to numRows
        invariant forall i, j :: 0 <= i < r && 0 <= j < numCols ==> maze[i, j] == WithNeighbors(numRows, numCols, Pos(i, j), old(maze[i, j]))
        invariant forall i, j :: r <= i < numRows && 0 <= j < numCols ==> maze[i, j] == old(maze[i, j])
      {
        DefineRow(r);
      }
      forall p | p in before
        ensures Cells()[p] == NeighborsDefined(numRows, numCols, before)[p]
      {
        assert maze[p.row, p.col] == WithNeighbors(numRows, numCols, p, old(maze[p.row, p.col]));
      }
    }

    /** The inner loop of define_neighbors: every node of row r lists its neighbours. */
    method DefineRow(r: nat)
      requires Shaped() && r < numRows
      modifies maze
      ensures forall j :: 0 <= j < numCols ==> maze[r, j] == WithNeighbors(numRows, numCols, Pos(r, j), old(maze[r, j]))
      ensures forall i, j :: 0 <= i < numRows && i != r && 0 <= j < numCols ==> maze[i, j] == old(maze[i, j])
    {
      ghost var lists := seq(numCols, j requires 0 <= j < numCols => GeometricNeighbors(numRows, numCols, Pos(r, j)));
      for c := 0 to numCols
        invariant forall j :: 0 <= j < c ==> maze[r, j] == old(maze[r, j]).(neighbors := lists[j])
        invariant forall j :: c <= j < numCols ==> maze[r, j] == old(maze[r, j])
        invariant forall i, j :: 0 <= i < numRows && i != r && 0 <= j < numCols ==> maze[i, j] == old(maze[i, j])
      {
        var node := maze[r, c];
        var ns := NeighborList(r, c);
        assert ns == lists[c];
        maze[r, c] := node.(neighbors := ns);
      }
    }

    /** The list define_neighbors builds for the node at (r, c): the nodes above, below, left
        and right of it that exist, each recorded by its position. */
    method NeighborList(r: nat, c: nat) returns (ns: seq<Pos>)
      requires r < numRows && c < numCols
      ensures ns == GeometricNeighbors(numRows, numCols, Pos(r, c))
    {
      ns := [];
      if r > 0 { ns := ns + [Pos(r - 1, c)]; }
      if r < numRows - 1 { ns := ns + [Pos(r + 1, c)]; }
      if c > 0 { ns := ns + [Pos(r, c - 1)]; }
      if c < numCols - 1 { ns := ns + [Pos(r, c + 1)]; }
    }

    /** break_border: when node2 is right of, left of, below or above node1, open node1's
        border facing node2 and node2's border facing node1; otherwise change nothing. */
    method BreakBorder(node1: Pos, node2: Pos)
      requires Shaped() && InGrid(numRows, numCols, node1) && InGrid(numRows, numCols, node2)
      requires maze[node1.row, node1.col].pos == node1 && maze[node2.row, node2.col].pos == node2
      modifies maze
      ensures Cells() == BorderBroken(old(Cells()), node1, node2)
    {
      ghost var before := Cells();
      var a := maze[node1.row, node1.col];
      var b := maze[node2.row, node2.col];
      var side1, side2, adjacent := Top, Top, true;
      if b.pos.col == a.pos.col + 1 && b.pos.row == a.pos.row {
        side1, side2 := Right, Left;
      } else if b.pos.col == a.pos.col - 1 && b.pos.row == a.pos.row {
        side1, side2 := Left, Right;
      } else if b.pos.row == a.pos.row + 1 && b.pos.col == a.pos.col {
        side1, side2 := Bottom, Top;
      } else if b.pos.row == a.pos.row - 1 && b.pos.col == a.pos.col {
        side1, side2 := Top, Bottom;
      } else {
        adjacent := false;
      }
      assert adjacent <==> Adjacent(node1, node2);
      if adjacent {
        assert side1 == Toward(node1, node2) && side2 == Toward(node2, node1);
        maze[node1.row, node1.col] := a.(borders := Opened(a.borders, side1));
        maze[node2.row, node2.col] := b.(borders := Opened(b.borders, side2));
        ghost var after := before[node1 := a.(borders := Opened(a.borders, side1))]
                                 [node2 := b.(borders := Opened(b.borders, side2))];
        assert Cells() == after by {
          assert forall p :: p in Cells() ==> Cells()[p] == after[p];
        }
      }
    }

    /** `cell.visited = True`, as dfs does to the start cell and to every cell it moves to. */
    method MarkVisited(cell: Pos)
      requires Shaped() && InGrid(numRows, numCols, cell)
      modifies maze
      ensures Cells() == Marked(old(Cells()), cell)
    {
      ghost var before := Cells();
      maze[cell.row, cell.col] := maze[cell.row, cell.col].(visited := true);
      assert Cells() == Marked(before, cell) by {
        assert forall p :: p in Cells() ==> Cells()[p] == Marked(before, cell)[p];
      }
    }

    /** _reset_maze_state: every node unvisited, unconnected, without parent, walled in on all
        four sides, and listing its geometric neighbours again: the matrix as constructed. */
    method ResetMazeState()
      requires Valid()
      modifies maze
      ensures Valid()
      ensures Cells() == FreshGrid(numRows, numCols)
    {
      ghost var before := Cells();
      for r := 0 to numRows
        invariant forall i, j :: 0 <= i < numRows && 0 <= j < numCols ==>
          maze[i, j] == if i < r then ClearedNode(old(maze[i, j])) else old(maze[i, j])
      {
        for c := 0 to numCols
          invariant forall i, j :: 0 <= i < numRows && 0 <= j < numCols ==>
            maze[i, j] == if i < r || (i == r && j < c) then ClearedNode(old(maze[i, j])) else old(maze[i, j])
        {
          var node := maze[r, c];
          maze[r, c] := ClearedNode(node);
        }
      }
      assert Cells() == Cleared(before) by {
        assert forall p :: p in Cells() ==> Cells()[p] == Cleared(before)[p];
      }
      DefineNeighbors();
      ResetIsFresh(numRows, numCols, before);
      FreshGridWellFormed(numRows, numCols);
    }

    /** The search of the dfs fallback branch: the first unvisited node in row-major order, if any. */
    method FindUnvisited() returns (found: Option<Pos>)
      requires Valid()
      ensures found.Some? ==> found.value in Cells() && !Cells()[found.value].visited
      ensures found.Some? ==> forall p :: p in Cells() && RowMajorBefore(p, found.value) ==> Cells()[p].visited
      ensures found.None? <==> VisitedIn(Cells()) == AllCells(numRows, numCols)
    {
      found := None;
      var r := 0;
      while r < numRows
        invariant 0 <= r <= numRows && found.None?
        invariant forall i, j :: 0 <= i < r && 0 <= j < numCols ==> maze[i, j].visited
      {
        var c := 0;
        while c < numCols
          invariant 0 <= c <= numCols && found.None?
          invariant forall j :: 0 <= j < c ==> maze[r, j].visited
        {
          if !maze[r, c].visited {
            assert Pos(r, c) in Cells();
            found := Some(maze[r, c].pos);
            break;
          }
          c := c + 1;
        }
        if found.Some? {
          break;
        }
        r := r + 1;
      }
      if found.None? {
        assert forall p :: p in AllCells(numRows, numCols) ==> p in VisitedIn(Cells());
      }
    }

    /** The maze in the middle of dfs: the matrix is a carving in progress with the given
        record and stack. */
    ghost predicate Searching(v: set<Pos>, order: seq<Pos>, tree: seq<Edge>, stack: seq<Pos>)
      reads maze
    {
      Shaped() && totalNodes == numRows * numCols && Search(numRows, numCols, Cells(), v, order, tree, stack)
    }

    /** dfs: reset the maze, then carve a randomized depth-first spanning tree from a random
        start cell, using the stack of cells on the current path. The random choices are left
        open: the start cell is any cell, and the next cell is any of the current cell's
        unvisited neighbours. The ghost results record the order in which cells were first
        visited and the carves made; the carved tree spans the grid, every node is visited and
        its connections and open borders are exactly those of the carves. */
    method Dfs() returns (ghost order: seq<Pos>, ghost tree: seq<Edge>)
      requires Valid() && numRows > 0 && numCols > 0
      modifies this, maze
      ensures Valid() && mazeCreated && |tree| == totalNodes - 1
      ensures Generated(numRows, numCols, Cells(), order, tree)
      ensures |OpenWalls(Cells())| == totalNodes - 1
    {
      var start := Begin();
      var stack := [start];
      var visitedCells := 1;
      ghost var v := {start};
      order, tree := [start], [];

      while visitedCells < totalNodes || |stack| > 0
        invariant Searching(v, order, tree, stack)
        invariant visitedCells == |order|
        decreases AllCells(numRows, numCols) - v, |stack|
      {
        if stack == [] {
          var found;
          stack, visitedCells, found := Reseed(stack, visitedCells, v, order, tree);
          if !found && visitedCells < totalNodes {
            break;
          }
          if stack == [] {
            break;
          }
        }
        stack, visitedCells, v, order, tree := DfsStep(stack, visitedCells, v, order, tree);
      }

      Finished(numRows, numCols, Cells(), v, order, tree);
      OpenWallCount(numRows, numCols, Cells(), order, tree);
      mazeCreated := true;
    }

    /** The start of dfs: reset the maze, then visit a random cell. */
    method Begin() returns (start: Pos)
      requires Valid() && numRows > 0 && numCols > 0
      modifies maze
      ensures InGrid(numRows, numCols, start) && Cells() == Marked(FreshGrid(numRows, numCols), start)
      ensures Searching({start}, [start], [], [start])
    {
      ResetMazeState();
      var startRow :| 0 <= startRow < numRows;
      var startCol :| 0 <= startCol < numCols;
      assert Pos(startRow, startCol) in Cells();
      start := maze[startRow, startCol].pos;
      MarkVisited(start);
      Start(numRows, numCols, start);
    }

    /** The fallback of dfs for an empty stack: visit and push the first unvisited cell, if there
        is one. Every cell is visited once the stack runs empty, so nothing is found and nothing
        changes. */
    method Reseed(stack: seq<Pos>, visitedCells: nat, ghost v: set<Pos>, ghost order: seq<Pos>, ghost tree: seq<Edge>)
      returns (stack': seq<Pos>, visitedCells': nat, found: bool)
      requires Searching(v, order, tree, []) && stack == []
      modifies maze
      ensures !found && stack' == stack && visitedCells' == visitedCells
      ensures Cells() == old(Cells())
    {
      ghost var g0 := Cells();
      stack', visitedCells', found := stack, visitedCells, false;
      var cell := FindUnvisited();
      if cell.Some? {
        MarkVisited(cell.value);
        stack' := stack' + [cell.value];
        visitedCells' := visitedCells' + 1;
        found := true;
        EmptyStackAllVisited(numRows, numCols, g0, v, order, tree);
      }
    }

    /** One pass of the dfs loop with a non-empty stack: drop the visited neighbours of the cell
        on top; if one is left, carve into any of them and push it, otherwise pop. In both cases
        the record, the stack and the matrix are exactly those of that action. */
    method DfsStep(stack: seq<Pos>, visitedCells: nat, ghost v: set<Pos>, ghost order: seq<Pos>, ghost tree: seq<Edge>)
      returns (stack': seq<Pos>, visitedCells': nat, ghost v': set<Pos>, ghost order': seq<Pos>, ghost tree': seq<Edge>)
      requires Searching(v, order, tree, stack) && stack != [] && visitedCells == |order|
      modifies maze
      ensures Searching(v', order', tree', stack') && visitedCells' == |order'|
      ensures AllCells(numRows, numCols) - v' < AllCells(numRows, numCols) - v || (v' == v && |stack'| < |stack|)
      ensures var top := stack[|stack| - 1];
        top in old(Cells()) &&
        var pruned := VisitedRemoved(old(Cells()), top);
        if pruned[top].neighbors == [] then
          stack' == stack[..|stack| - 1] && visitedCells' == visitedCells &&
          v' == v && order' == order && tree' == tree && Cells() == pruned
        else
          |stack'| == |stack| + 1 &&
          var next := stack'[|stack|];
          next in pruned[top].neighbors && next in pruned && Adjacent(top, next) && next !in v &&
          stack' == stack + [next] && visitedCells' == visitedCells + 1 &&
          v' == v + {next} && order' == order + [next] && tree' == tree + [(top, next)] &&
          Cells() == CarveStep(pruned, top, next)
    {
      var current := stack[|stack| - 1];
      ghost var g0 := Cells();
      RemoveNeighborsVisited(current);
      ghost var g1 := Cells();
      Prune(numRows, numCols, g0, v, order, tree, stack);
      var neighbors := maze[current.row, current.col].neighbors;
      assert neighbors == VisitedRemoved(g0, current)[current].neighbors;
      if |neighbors| > 0 {
        assert neighbors[0] in neighbors;
        var next :| next in neighbors;
        assert next in g1 && Adjacent(current, next) && next !in v;
        assert g1[current].pos == current && g1[next].pos == next;
        BreakBorder(current, next);
        AddEdge(current, next);
        MarkVisited(next);
        Carve(numRows, numCols, g1, v, order, tree, stack, next);
        assert Cells() == CarveStep(g1, current, next);
        stack' := stack + [next];
        visitedCells' := visitedCells + 1;
        v', order', tree' := v + {next}, order + [next], tree + [(current, next)];
        assert next in AllCells(numRows, numCols) - v && next !in AllCells(numRows, numCols) - v';
      } else {
        stack' := stack[..|stack| - 1];
        visitedCells' := visitedCells;
        v', order', tree' := v, order, tree;
      }
    }
  }
}
