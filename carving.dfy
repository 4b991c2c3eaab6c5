/** The record of a depth-first carve: the order in which cells were first visited and
    the (current, chosen) pair of every carve, and what that record says about the
    maze's connectivity. */
module Carving {
  import opened Grid

  /** One carve: the cell on top of the stack and the unvisited neighbour chosen from it. */
  type Edge = (Pos, Pos)

  /** `p` and `q` are the two ends of some carve. */
  predicate Joined(tree: seq<Edge>, p: Pos, q: Pos)
  {
    (p, q) in tree || (q, p) in tree
  }

  /** A tree grown one cell at a time: `order` lists distinct cells, and the i-th carve links a
      cell visited earlier to `order[i + 1]`, the cell visited next. Because every carve reaches
      a cell that was not yet in the tree, no carve ever closes a cycle. */
  ghost predicate GrownTree(order: seq<Pos>, tree: seq<Edge>)
  {
    |order| == |tree| + 1 &&
    (forall i, j :: 0 <= i < j < |order| ==> order[i] != order[j]) &&
    (forall i :: 0 <= i < |tree| ==>
      tree[i].1 == order[i + 1] && tree[i].0 in order[..i + 1] && Adjacent(tree[i].0, tree[i].1))
  }

  /** A grown tree over exactly the cells of a rows x cols grid. */
  ghost predicate SpanningTree(rows: int, cols: int, order: seq<Pos>, tree: seq<Edge>)
  {
    GrownTree(order, tree) && forall p :: p in order <==> InGrid(rows, cols, p)
  }

  /** The neighbours_connected list that the add_edge calls of `tree` build for `p`:
      add_edge(a, b) appends a to b's list and then b to a's. */
  function ConnectedIn(tree: seq<Edge>, p: Pos): seq<Pos>
  {
    if tree == [] then []
    else
      var e := tree[|tree| - 1];
      ConnectedIn(tree[..|tree| - 1], p) + (if e.1 == p then [e.0] else []) + (if e.0 == p then [e.1] else [])
  }

  /** The connected list of `p` holds exactly the cells joined to `p` by a carve. */
  lemma {:induction false} ConnectedInMembers(tree: seq<Edge>, p: Pos, q: Pos)
    ensures q in ConnectedIn(tree, p) <==> Joined(tree, p, q)
  {
    if tree != [] {
      var init, e := tree[..|tree| - 1], tree[|tree| - 1];
      assert tree == init + [e];
      ConnectedInMembers(init, p, q);
    }
  }

  /** A list of distinct elements is as long as the set of its elements. */
  lemma {:induction false} DistinctCount<T>(order: seq<T>, s: set<T>)
    requires forall i, j :: 0 <= i < j < |order| ==> order[i] != order[j]
    requires forall p :: p in order <==> p in s
    ensures |order| == |s|
  {
    if order != [] {
      var init, last := order[..|order| - 1], order[|order| - 1];
      assert order == init + [last];
      forall p: T
        ensures p in init <==> p in s - {last}
      {
        if p in init {
          var i :| 0 <= i < |init| && init[i] == p;
          assert order[i] != order[|order| - 1];
        }
      }
      DistinctCount(init, s - {last});
    }
  }

  /** One more carve joins exactly its own two ends in addition to what was joined before. */
  lemma JoinedExtend(tree: seq<Edge>, e: Edge, p: Pos, q: Pos)
    ensures Joined(tree + [e], p, q) <==> Joined(tree, p, q) || e == (p, q) || e == (q, p)
  {
  }

  /** add_edge(a, b) appends a to b's connected list, then b to a's. */
  lemma ConnectedInExtend(tree: seq<Edge>, e: Edge, p: Pos)
    ensures ConnectedIn(tree + [e], p) ==
      ConnectedIn(tree, p) + (if e.1 == p then [e.0] else []) + (if e.0 == p then [e.1] else [])
  {
    assert (tree + [e])[..|tree|] == tree;
  }

  /** Both ends of a carve of a grown tree are cells of the tree, and they are adjacent. */
  lemma JoinedEnds(order: seq<Pos>, tree: seq<Edge>, p: Pos, q: Pos)
    requires GrownTree(order, tree) && Joined(tree, p, q)
    ensures p in order && q in order && Adjacent(p, q) && Adjacent(q, p)
  {
    var i :| 0 <= i < |tree| && (tree[i] == (p, q) || tree[i] == (q, p));
    assert tree[i].0 in order[..i + 1];
    assert tree[i].1 == order[i + 1];
  }

  /** Being connected is symmetric. */
  lemma ConnectedInSymmetric(tree: seq<Edge>, p: Pos, q: Pos)
    ensures q in ConnectedIn(tree, p) <==> p in ConnectedIn(tree, q)
  {
    ConnectedInMembers(tree, p, q);
    ConnectedInMembers(tree, q, p);
  }

  /** Sequence of cells each joined by a carve to the next. */
  predicate IsTreePath(tree: seq<Edge>, path: seq<Pos>)
  {
    |path| >= 1 && forall k :: 0 < k < |path| ==> Joined(tree, path[k - 1], path[k])
  }

  function Reverse(s: seq<Pos>): (r: seq<Pos>)
    ensures |r| == |s| && forall k :: 0 <= k < |s| ==> r[k] == s[|s| - 1 - k]
  {
    if s == [] then [] else Reverse(s[1..]) + [s[0]]
  }

  /** Every cell of a grown tree is reached from the first cell along carves. */
  lemma {:induction false} TreeReachesAll(order: seq<Pos>, tree: seq<Edge>, i: nat) returns (path: seq<Pos>)
    requires GrownTree(order, tree) && i < |order|
    ensures IsTreePath(tree, path) && path[0] == order[0] && path[|path| - 1] == order[i]
  {
    if i == 0 {
      path := [order[0]];
    } else {
      var e := tree[i - 1];
      assert e.0 in order[..i];
      var j :| 0 <= j < i && order[j] == e.0;
      var prefix := TreeReachesAll(order, tree, j);
      path := prefix + [order[i]];
      assert Joined(tree, path[|path| - 2], path[|path| - 1]);
    }
  }

  /** Any two cells of a grown tree are linked by a path of carves: the carved graph is connected. */
  lemma TreeConnects(order: seq<Pos>, tree: seq<Edge>, p: Pos, q: Pos) returns (path: seq<Pos>)
    requires GrownTree(order, tree) && p in order && q in order
    ensures IsTreePath(tree, path) && path[0] == p && path[|path| - 1] == q
  {
    var i :| 0 <= i < |order| && order[i] == p;
    var j :| 0 <= j < |order| && order[j] == q;
    var toP := TreeReachesAll(order, tree, i);
    var toQ := TreeReachesAll(order, tree, j);
    var back := Reverse(toP);
    path := back + toQ[1..];
    forall k | 0 < k < |path|
      ensures Joined(tree, path[k - 1], path[k])
    {
      if k < |back| {
        assert path[k - 1] == toP[|toP| - k] && path[k] == toP[|toP| - 1 - k];
      } else if k > |back| {
        assert path[k - 1] == toQ[k - |back|] && path[k] == toQ[k - |back| + 1];
      } else {
        assert path[k - 1] == order[0] == toQ[0] && path[k] == toQ[1];
      }
    }
  }

  /** No wall is carved twice, in either direction: the carves of a grown tree are distinct
      walls, so a grown tree over n cells opens exactly n - 1 walls. */
  lemma TreeEdgesDistinct(order: seq<Pos>, tree: seq<Edge>, i: nat, j: nat)
    requires GrownTree(order, tree) && i < j < |tree|
    ensures tree[i] != tree[j] && tree[i] != (tree[j].1, tree[j].0)
  {
    assert tree[i].1 == order[i + 1] && tree[j].1 == order[j + 1];
  }

  /** The wall a carve opens, as the pair of cells it separates, the cell first in row-major
      order first; it does not matter in which direction the carve went. */
  function WallOf(e: Edge): (w: Edge)
    ensures w == e || w == (e.1, e.0)
    ensures e.0 != e.1 ==> RowMajorBefore(w.0, w.1)
  {
    if RowMajorBefore(e.0, e.1) then e else (e.1, e.0)
  }

  /** Recording one more carve from a visited cell to a new adjacent one keeps the tree grown. */
  lemma GrownTreeExtend(order: seq<Pos>, tree: seq<Edge>, from: Pos, to: Pos)
    requires GrownTree(order, tree)
    requires from in order && to !in order && Adjacent(from, to)
    ensures GrownTree(order + [to], tree + [(from, to)])
  {
    var order', tree' := order + [to], tree + [(from, to)];
    forall i | 0 <= i < |tree'|
      ensures tree'[i].1 == order'[i + 1] && tree'[i].0 in order'[..i + 1] && Adjacent(tree'[i].0, tree'[i].1)
    {
      if i < |tree| {
        assert order'[..i + 1] == order[..i + 1];
      } else {
        assert order'[..i + 1] == order;
      }
    }
  }
}
