# Maze grid and depth-first maze generator

A Dafny model of class `Maze` of `maze.py`, with proofs about it. A `Maze` is a
`num_rows x num_cols` matrix of nodes. Every node records:

- its own matrix position;
- whether depth-first generation has visited it;
- its potential neighbours, i.e. its in-grid orthogonal cells;
- the neighbours it has been connected to;
- a parent link;
- the state of its four borders.

`dfs` resets the matrix and starts from a random cell. It then carves a maze with an explicit
stack: it filters the visited neighbours out of the cell on top of the stack, and then either
moves into a random remaining neighbour or pops. Moving means breaking the border between the
two cells, recording the edge with `add_edge`, visiting the neighbour and pushing it.

The model has five modules:

- `Grid` (grid.dfy): positions, the four sides, geometric adjacency, the node record and the
  neighbour filter on lists.
- `Carving` (carving.dfy): the record of a carve, i.e. the order in which cells were first
  visited and the carved edges. It proves that such a record is a tree connecting all its
  cells.
- `NodeMap` (nodemap.dfy): the node matrix as a value (a map from position to node) and what
  each `Maze` operation does to it.
- `DepthFirst` (depthfirst.dfy): the invariant of the `dfs` loop, and the proofs that the start
  state establishes it, that each step keeps it, that an empty stack means every cell is
  visited, and that the finished state is a spanning tree.
- `Mazes` (maze.dfy): class `Maze` itself. The matrix is an `array2<Node>` that the methods
  update in place, with loops and invariants as in the source. The ghost view `Cells()` gives
  the matrix as a `NodeMap` value.
  - The grid operations, the start of `dfs` and each pass of its loop state their new matrix
    as a `NodeMap` function of the old one.
  - `DefineRow`, the inner loop of `define_neighbors`, states its row cell by cell on the
    array.
  - `Dfs` depends on its random choices, so it states no single new matrix. It states the
    properties every outcome has: a generated maze over the carves it records.

Node objects are referred to by their position (`Pos(row, col)`, the node's
`matrix_pos_x`/`matrix_pos_y`), so neighbour and connection lists are lists of positions.
A border is a boolean: `true` is open (drawn YELLOW), `false` is closed (drawn BLACK).

The random picks of `dfs` are nondeterministic (`:|`): the start row and column, and the
neighbour chosen by `random.choice`. Every property below therefore holds for every outcome of
the random choices.

## Model

| member | source | states |
|---|---|---|
| Mazes.Maze.constructor | maze.py:109-131 | Builds a rows x cols matrix and sets total_nodes to rows * cols. Every node is at its own position, unvisited, walled in on all four sides, unconnected and without parent, and lists its geometric neighbours (the intended behaviour of the misspelt `_init_`). |
| NodeMap.FreshGridFacts | maze.py:119-131 | The constructed matrix holds exactly rows * cols nodes, each recording its own position. None is visited, every wall is closed, nothing is connected, no node has a parent, walls and connections are symmetric, and each node's neighbour list holds exactly its in-grid adjacent cells. |
| NodeMap.BlankDefinedIsFresh | maze.py:119-131 | Defining the neighbours of the nodes as first built (Node._init_ plus the position) gives the fresh matrix. |
| Mazes.Maze.AddEdge | maze.py:133-137 | add_edge(node, neighbor) appends node to neighbor's connected list, then neighbor to node's, and changes nothing else in the matrix. |
| NodeMap.EdgeAddedAt | maze.py:133-137 | After add_edge(a, b), every node's connected list is its old list, followed by a if the node is b, then by b if the node is a. All other fields of every node are unchanged. |
| NodeMap.EdgeAddedSymmetric | maze.py:133-137 | After add_edge(a, b), b is in a's connected list and a is in b's. If connections were symmetric before, they still are. |
| NodeMap.EdgeAddedWellFormed | maze.py:133-137 | add_edge keeps every node at its own position, with all listed cells inside the grid. |
| Mazes.Maze.RemoveNeighborsVisited | maze.py:139-141 | remove_neighbors_visited(node) replaces node's neighbour list by the filtered list and changes nothing else. |
| Mazes.Maze.UnvisitedOf | maze.py:141 | The list comprehension keeps the listed nodes whose visited flag is clear, in their order. |
| Grid.Unvisited | maze.py:141 | The filtered list is no longer than the original, and it contains a cell exactly when the original does and the cell is not visited. |
| Grid.UnvisitedIsSubsequence | maze.py:141 | The filter only deletes entries and keeps the original order. |
| Grid.UnvisitedIdempotent | maze.py:141 | Filtering twice with the same visited cells equals filtering once. |
| NodeMap.VisitedRemovedFacts | maze.py:139-141 | After remove_neighbors_visited, the node lists exactly the cells it listed before that are not visited, in their original order. Nothing else of the node changes and no visited flag changes. Applying it a second time changes nothing. |
| NodeMap.VisitedRemovedWellFormed | maze.py:139-141 | The filter keeps the matrix well formed. |
| Mazes.Maze.DefineNeighbors | maze.py:143-156 | Every node's neighbour list is replaced by its geometric neighbours, and nothing else changes. |
| Mazes.Maze.DefineRow | maze.py:146-156 | The inner loop gives every node of one row its geometric neighbours and leaves the other rows unchanged. |
| Mazes.Maze.NeighborList | maze.py:148-156 | The list built for the node at (r, c) is its cell above, below, left and right, each only if it exists. |
| Grid.GeometricNeighborsShape | maze.py:148-156 | The list holds exactly the in-grid cells adjacent to the node, in the fixed order top, bottom, left, right, so no cell appears twice. It has at most four entries, exactly two at a corner when rows, cols >= 2, and four inside the grid. |
| Grid.GeometricNeighborsMembers | maze.py:148-156 | For every cell of the grid at once, its neighbour list contains exactly the in-grid adjacent cells. |
| NodeMap.NeighborsDefinedWellFormed | maze.py:143-156 | define_neighbors keeps the matrix well formed. |
| Mazes.Maze.BreakBorder | maze.py:158-177 | break_border(node1, node2) takes the four cases of the source in order: node2 right of, left of, below or above node1. In each case it opens node1's border facing node2 and node2's facing node1. If node2 is in none of those places it changes nothing. |
| NodeMap.BorderBrokenAt | maze.py:158-177 | Afterwards a border of any cell is open exactly when it was open before, or the two cells are grid neighbours and it is one of the two sides of the wall between them. No field other than the borders changes. |
| NodeMap.BorderBrokenCommutes | maze.py:158-177 | break_border(a, b) and break_border(b, a) have the same effect. |
| NodeMap.BorderBrokenKeepsWalls | maze.py:158-177 | Breaking a border keeps every wall open on both of its sides or closed on both, and keeps every border on the outside of the grid closed. |
| NodeMap.BorderBrokenWellFormed | maze.py:158-177 | break_border keeps the matrix well formed. |
| Mazes.Maze.ResetMazeState | maze.py:179-193 | Whatever the maze state, after the reset every node is unvisited, unconnected, without parent and walled in, and lists its geometric neighbours again. The matrix is then equal to the freshly constructed one. |
| NodeMap.ResetIsFresh | maze.py:179-193 | Clearing a well-formed matrix and redefining its neighbours gives the freshly constructed matrix. |
| NodeMap.ClearedWellFormed | maze.py:181-192 | The clearing loop keeps the matrix well formed. |
| Mazes.Maze.MarkVisited | maze.py:205 | `visited = True` sets the visited flag of that one node and changes nothing else. |
| NodeMap.MarkedWellFormed | maze.py:205 | Setting a visited flag keeps the matrix well formed. |
| Mazes.Maze.Begin | maze.py:197-207 | dfs resets the maze and visits a random cell of the grid. The matrix is then exactly the freshly constructed one with that one cell visited. It is a depth-first state with that cell as the only visited cell, no carve, and the cell alone on the stack. |
| DepthFirst.Start | maze.py:197-207 | The reset matrix with one cell visited satisfies the loop invariant, with that cell as the visit order, no carves and a one-cell stack. |
| Mazes.Maze.Dfs | maze.py:195-262 | dfs terminates, and it does so for every outcome of the random choices. On exit the matrix is a generated maze (see DepthFirst.Generated under DepthFirst.Finished), total_nodes - 1 carves were made, exactly total_nodes - 1 walls are open, and maze_created is true. |
| DepthFirst.SearchFacts | maze.py:213-251 | In the loop invariant, visited_cells (the length of the visit order) equals the number of visited nodes. Every cell on the stack is visited, and consecutive cells on the stack are grid neighbours. |
| Mazes.Maze.DfsStep | maze.py:234-251 | One loop pass on a non-empty stack filters the top cell's neighbours. If none is left, it pops exactly the top cell: the record and visited_cells are unchanged, and the matrix is the filtered one. Otherwise it carves into one remaining neighbour, an unvisited grid neighbour of the top cell. It pushes that neighbour, adds one to visited_cells, and extends the visit order and the carves by the neighbour and the carve. The matrix is then the filtered one after break_border, add_edge and the visit. Either way the loop invariant holds again and the termination measure drops. |
| DepthFirst.Prune | maze.py:234-235 | Filtering the node on top of the stack keeps the invariant. Every neighbour it still lists is an unvisited grid neighbour of it. If it lists none, the stack may be popped without breaking the invariant. |
| DepthFirst.Carve | maze.py:237-246 | Breaking the border to an unvisited neighbour of the top cell, recording the edge, visiting the neighbour and pushing it keeps the invariant. The neighbour is added to the visit order and the carve to the tree. |
| DepthFirst.CarveStepAt | maze.py:237-243 | One carve changes exactly three things: the neighbour's visited flag, the two connected lists (one entry each) and the two borders between the cells. |
| DepthFirst.PopKeepsFrontier | maze.py:247-249 | Popping a node that lists no neighbour keeps the stack invariant. |
| Mazes.Maze.Reseed | maze.py:214-232 | The fallback for an empty stack visits and pushes the first unvisited cell in row-major order, if there is one. It never finds one: once the stack is empty every cell is visited. So it reports nothing found and changes nothing. |
| Mazes.Maze.FindUnvisited | maze.py:217-226 | The scan finds the first unvisited cell in row-major order, or reports that there is none exactly when every cell of the grid is visited. |
| DepthFirst.EmptyStackAllVisited | maze.py:214-232 | When the stack runs empty every cell of the grid has been visited, because a visited cell off the stack has only visited neighbours and the grid is connected. |
| Grid.ClosedSetIsWhole | maze.py:214-232 | A non-empty set of cells that contains every grid neighbour of each of its cells is the whole grid. |
| DepthFirst.Finished | maze.py:213-262 | When the loop ends the maze is generated. The carves form a spanning tree with rows * cols - 1 carves; every node is visited, lists no neighbour and has no parent; every node is connected exactly to the cells it was carved to, and its borders are open exactly across those carves; walls and connections are symmetric and the outside of the grid is closed. |
| Carving.TreeConnects | maze.py:237-246 | Any two cells of the carve record are joined by a path of carved edges, so the maze is connected. |
| Carving.TreeEdgesDistinct | maze.py:237-246 | No wall is carved twice in either direction, so rows * cols - 1 carves open rows * cols - 1 different walls. |
| Carving.GrownTreeExtend | maze.py:237-246 | Carving from a visited cell into a new adjacent cell keeps the record a tree: each carve reaches a cell that was not yet in it, so no cycle is ever closed. |
| Carving.DistinctCount | maze.py:213 | A list of distinct elements is as long as the set of its elements. This is how visited_cells counts the visited cells, and how the carves count the open walls. |
| DepthFirst.OpenWallCount | maze.py:237-262 | A generated maze has exactly rows * cols - 1 open walls, each wall counted once for its two sides. |
| DepthFirst.CarvedWallIsOpen | maze.py:237-239 | When the carves span the grid and a border is open exactly where a carve crossed it, the wall of every carve is open. |
| DepthFirst.OpenWallIsCarved | maze.py:237-239 | When a border is open exactly where a carve crossed it, every open wall was crossed by some carve. |
| Carving.ConnectedInMembers | maze.py:133-137 | The connected list that a sequence of add_edge calls builds for a cell holds exactly the cells joined to it by one of those calls. |
| Grid.AllCellsCount | maze.py:119-129 | The grid has exactly rows * cols cells, which is the number total_nodes counts. |

## Left out

- Rendering is not modelled: `text`, `NodeBorder.render`, `Node.render`, `Maze.render` and the `pygame.display.update()` calls. They are drawing and display I/O.
- Colours are not modelled. The semantic state they encode is kept: a border is open or closed, and a node is visited or not.
- Screen geometry is not modelled: the pixel position and size of nodes, and the border rectangles built from the floating-point `BORDER_THICKNESS`.
- `dfs` is modelled without the render throttle (`render_counter`, `render_interval`) and without the optional background surface. They only pace the display.
- The `print` warning on the fallback branch is left out. The branch's control flow, including its `break`s, is kept.
- The random distribution is not modelled. `random.randint` and `random.choice` become nondeterministic picks within their ranges, so nothing is said about uniformity.
- The source fixes the grid at `HEIGHT // SIZE` rows by `WIDTH // SIZE` columns (24 x 24). In the model the constructor takes the two dimensions as parameters.
- Mazes.Maze.Dfs: requires at least one row and one column, because `random.randint(0, -1)` raises for an empty grid.
- `Game`, `main`, the font file check and the `background_surface` field are not modelled. They are the event loop, input handling and asset loading, not the maze.
- A node's `parent` field is modelled. `_reset_maze_state` clears it, and no operation of `maze.py` sets it to anything else, so after generation every node still has no parent (part of DepthFirst.Generated). A breadth-first solver that would use it is not part of `maze.py`, and neither is a pursuit AI.
- Node aliasing is not modelled. In the source, a node's lists hold references to other node objects. In the model they hold those nodes' positions, and the matrix holds the nodes by value, so every update goes through the matrix.
- The constructors in `maze.py` are spelt `_init_`, so Python never runs them and `Maze(background)` would fail as written. The model gives the behaviour the code evidently intends, and so does not model that failure.
