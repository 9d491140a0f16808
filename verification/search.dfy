/** The cat's escape search, `searchShortestPathToEdge`.

    The game code is an A* search, but no node ever receives a usable
    distance or f value: both are undefined on the start node and NaN on
    every other node, so `distance < shortestDistance` and
    `f < openList[lowInd].f` are always false. The open list is therefore
    always taken from the front and every node keeps the parent that first
    discovered it: the search runs as a breadth-first search, and that is
    what is modelled here. */
module Search {
  import opened Seqs
  import opened Hex
  import opened Board
  import opened Walks

  ghost function AllPositions(g: Dims): (ps: set<Pos>) {
    set x, y | 0 <= x < g.width && 0 <= y < g.height :: Pos(x, y)
  }

  lemma InAllPositions(g: Dims, p: Pos)
    requires IsValidPosition(g, p)
    ensures p in AllPositions(g)
  {
    assert p == Pos(p.x, p.y);
  }

  /** What a breadth-first search knows once every node at distance below
      `bound` has been expanded: `closed` holds the expanded nodes (none of
      them a border cell, the start among them), `dist` the hop distance of
      every discovered node, and every unset neighbour of an expanded node has
      been discovered at most one hop further away. */
  ghost predicate Explored(g: Dims, b: Cells, start: Pos, closed: set<Pos>, dist: map<Pos, nat>, bound: nat) {
    && start in closed && start in dist && dist[start] == 0
    && (forall c :: c in closed ==> c in dist && !IsBorderCell(g, c))
    && (forall c, n {:trigger n in Neighbours(g, c)} :: c in closed && n in Neighbours(g, c) && IsFree(b, n) ==> n in dist && dist[n] <= dist[c] + 1)
    && (forall v :: v in dist && dist[v] < bound ==> v in closed)
  }

  lemma {:induction false} ExploredPrefix(g: Dims, b: Cells, start: Pos, closed: set<Pos>, dist: map<Pos, nat>, bound: nat, w: seq<Pos>, i: nat)
    requires Explored(g, b, start, closed, dist, bound)
    requires IsEscapeWalk(g, b, start, w)
    requires i < |w| && i < bound
    ensures w[i] in dist && dist[w[i]] <= i + 1
    decreases i
  {
    var prev := if i == 0 then start else w[i - 1];
    if i > 0 {
      ExploredPrefix(g, b, start, closed, dist, bound, w, i - 1);
      assert dist[prev] < bound;
    }
    assert prev in closed;
    assert i > 0 ==> Follows(g, w, i);
    assert w[i] in Neighbours(g, prev);
  }

  /** Every escape walk is at least as long as the exploration bound. */
  lemma ExploredWalksAreLong(g: Dims, b: Cells, start: Pos, closed: set<Pos>, dist: map<Pos, nat>, bound: nat, w: seq<Pos>)
    requires Explored(g, b, start, closed, dist, bound)
    requires IsEscapeWalk(g, b, start, w)
    ensures bound <= |w|
  {
    if |w| <= bound {
      ExploredPrefix(g, b, start, closed, dist, bound, w, |w| - 1);
    }
  }

  /** Every node with a parent is an unset cell next to its parent, one hop
      further from the start, and its parent has been expanded. */
  ghost predicate ParentLinks(g: Dims, b: Cells, closed: set<Pos>, parent: map<Pos, Pos>, dist: map<Pos, nat>) {
    forall v {:trigger parent[v]} :: v in parent ==>
      && v in dist && parent[v] in dist && parent[v] in closed
      && IsNeighbour(g, parent[v], v) && IsFree(b, v)
      && dist[v] == dist[parent[v]] + 1
  }

  /** The bookkeeping of the breadth-first search. `open` is the FIFO open
      list, `closed` the expanded nodes, `visited` the nodes ever pushed on
      the open list (the start is never among them: it is put on the list by
      hand and closed before any neighbour is looked at), `parent` the node
      that first discovered each visited node, and the ghost `dist` the hop
      distance of every discovered node from the start. */
  ghost predicate Bookkeeping(g: Dims, b: Cells, start: Pos, open: seq<Pos>, visited: set<Pos>, closed: set<Pos>,
                              parent: map<Pos, Pos>, dist: map<Pos, nat>) {
    && Discovered(g, b, start, visited, closed, dist)
    && OpenList(open, closed, dist)
    && parent.Keys == visited
    && ParentLinks(g, b, closed, parent, dist)
  }

  /** The discovered nodes are the start and the visited nodes; they are all
      on the board, every visited node is an unset cell and no expanded node
      is on the border. */
  ghost predicate Discovered(g: Dims, b: Cells, start: Pos, visited: set<Pos>, closed: set<Pos>, dist: map<Pos, nat>) {
    && start !in visited
    && dist.Keys == visited + {start} && dist[start] == 0
    && closed <= dist.Keys
    && (forall v :: v in dist ==> IsValidPosition(g, v))
    && (forall v :: v in visited ==> IsFree(b, v))
    && (forall c :: c in closed ==> !IsBorderCell(g, c))
  }

  /** Every discovered node is either expanded or waiting, exactly once, on
      the open list. */
  ghost predicate OpenList(open: seq<Pos>, closed: set<Pos>, dist: map<Pos, nat>) {
    && Distinct(open)
    && (forall k :: 0 <= k < |open| ==> open[k] in dist && open[k] !in closed)
    && (forall v :: v in dist ==> v in closed || v in open)
  }

  /** The open list is ordered by distance and holds only the layers at
      distance `lo` and `lo + 1`. */
  ghost predicate Layered(open: seq<Pos>, dist: map<Pos, nat>, lo: nat) {
    && (forall k :: 0 <= k < |open| ==> open[k] in dist && lo <= dist[open[k]] <= lo + 1)
    && (forall i, j :: 0 <= i < j < |open| && open[i] in dist && open[j] in dist ==> dist[open[i]] <= dist[open[j]])
  }

  ghost predicate ClosedWithin(closed: set<Pos>, dist: map<Pos, nat>, hi: nat) {
    forall c :: c in closed ==> c in dist && dist[c] <= hi
  }

  /** Every unset neighbour of a node of `nodes` has been discovered at most
      one hop further from the start. */
  ghost predicate ExpandedNodes(g: Dims, b: Cells, nodes: set<Pos>, dist: map<Pos, nat>) {
    forall c, n {:trigger n in Neighbours(g, c)} ::
      c in nodes && c in dist && n in Neighbours(g, c) && IsFree(b, n) ==> n in dist && dist[n] <= dist[c] + 1
  }

  /** The state of the search between two iterations of the outer loop. */
  ghost predicate Frontier(g: Dims, b: Cells, start: Pos, open: seq<Pos>, visited: set<Pos>, closed: set<Pos>,
                           parent: map<Pos, Pos>, dist: map<Pos, nat>) {
    && Bookkeeping(g, b, start, open, visited, closed, parent, dist)
    && Rooted(start, open, visited, closed)
    && Ordered(open, closed, dist)
    && ExpandedNodes(g, b, closed, dist)
  }

  /** The search starts from `start` alone, and `start` is the first node
      expanded. */
  ghost predicate Rooted(start: Pos, open: seq<Pos>, visited: set<Pos>, closed: set<Pos>) {
    start in closed || (open == [start] && visited == {})
  }

  /** The open list holds the layer of its head and the next one, and no
      expanded node is further from the start than the head. */
  ghost predicate Ordered(open: seq<Pos>, closed: set<Pos>, dist: map<Pos, nat>) {
    open != [] ==> open[0] in dist && Layered(open, dist, dist[open[0]]) && ClosedWithin(closed, dist, dist[open[0]])
  }

  /** The state of the search while the neighbours of `current` (at distance
      `d`) are examined: the first `i` of them have been dealt with. */
  ghost predicate Expanding(g: Dims, b: Cells, start: Pos, current: Pos, d: nat, ns: seq<Pos>, i: int,
                            open: seq<Pos>, visited: set<Pos>, closed: set<Pos>, parent: map<Pos, Pos>, dist: map<Pos, nat>) {
    && Bookkeeping(g, b, start, open, visited, closed, parent, dist)
    && Cursor(g, start, current, d, ns, i, closed, dist)
    && Layered(open, dist, d) && ClosedWithin(closed, dist, d)
    && ExpandedNodes(g, b, closed - {current}, dist)
    && PartlyExpanded(b, ns, i, dist, d)
  }

  /** `current`, at distance `d`, is being expanded, and `i` of its
      neighbours `ns` have been looked at. */
  ghost predicate Cursor(g: Dims, start: Pos, current: Pos, d: nat, ns: seq<Pos>, i: int,
                         closed: set<Pos>, dist: map<Pos, nat>) {
    && start in closed && current in closed && current in dist && dist[current] == d
    && 0 <= i <= |ns| && ns == Neighbours(g, current)
  }

  /** Every unset cell among the first `i` neighbours has been discovered at
      most one hop further than `d`. */
  ghost predicate PartlyExpanded(b: Cells, ns: seq<Pos>, i: int, dist: map<Pos, nat>, d: nat)
    requires 0 <= i <= |ns|
  {
    forall k :: 0 <= k < i && IsFree(b, ns[k]) ==> ns[k] in dist && dist[ns[k]] <= d + 1
  }

  /** While the open list is not empty, every node nearer than its head has
      been expanded. */
  lemma FrontierExplored(g: Dims, b: Cells, start: Pos, open: seq<Pos>, visited: set<Pos>, closed: set<Pos>,
                         parent: map<Pos, Pos>, dist: map<Pos, nat>)
    requires Frontier(g, b, start, open, visited, closed, parent, dist)
    requires open != [] && start in closed
    ensures Explored(g, b, start, closed, dist, dist[open[0]])
  {
    forall v | v in dist && v !in closed
      ensures dist[open[0]] <= dist[v]
    {
      var k :| 0 <= k < |open| && open[k] == v;
    }
  }

  /** Once the open list is empty, every discovered node has been expanded. */
  lemma FrontierExhausted(g: Dims, b: Cells, start: Pos, visited: set<Pos>, closed: set<Pos>,
                          parent: map<Pos, Pos>, dist: map<Pos, nat>, bound: nat)
    requires Frontier(g, b, start, [], visited, closed, parent, dist)
    ensures Explored(g, b, start, closed, dist, bound)
  {
  }

  /** The state of the parent walk: `path` leads from a neighbour of `curr`
      to `current` through parented cells, and is as long as the distance
      still to be covered from `curr`. */
  ghost predicate Traced(g: Dims, closed: set<Pos>, parent: map<Pos, Pos>, dist: map<Pos, nat>,
                         current: Pos, curr: Pos, path: seq<Pos>) {
    && curr in dist && current in dist
    && |path| + dist[curr] == dist[current]
    && (path == [] ==> curr == current)
    && (path != [] ==> path[|path| - 1] == current && IsNeighbour(g, curr, path[0]) && curr in closed)
    && (forall k :: 0 <= k < |path| ==> path[k] in parent)
    && (forall k :: 0 < k < |path| ==> Follows(g, path, k))
    && (forall k :: 0 <= k < |path| - 1 ==> path[k] in closed)
  }

  lemma TraceStep(g: Dims, b: Cells, closed: set<Pos>, parent: map<Pos, Pos>, dist: map<Pos, nat>,
                  current: Pos, curr: Pos, path: seq<Pos>)
    requires ParentLinks(g, b, closed, parent, dist)
    requires Traced(g, closed, parent, dist, current, curr, path)
    requires curr in parent
    ensures Traced(g, closed, parent, dist, current, parent[curr], [curr] + path)
  {
    var longer, next := [curr] + path, parent[curr];
    FollowsPrepend(g, curr, path);
    assert longer[0] == curr && IsNeighbour(g, next, curr) && next in closed;
    assert |longer| + dist[next] == dist[current];
    assert longer[|longer| - 1] == current by {
      if path != [] {
        assert longer[|path|] == path[|path| - 1];
      }
    }
    forall k | 0 <= k < |longer|
      ensures longer[k] in parent
    {
      if k > 0 {
        assert longer[k] == path[k - 1];
      }
    }
    forall k | 0 <= k < |longer| - 1
      ensures longer[k] in closed
    {
      assert path != [];
      if k > 0 {
        assert longer[k] == path[k - 1] && k - 1 < |path| - 1;
      }
    }
  }

  lemma TraceDone(g: Dims, b: Cells, start: Pos, closed: set<Pos>, parent: map<Pos, Pos>, dist: map<Pos, nat>,
                  current: Pos, path: seq<Pos>)
    requires ParentLinks(g, b, closed, parent, dist)
    requires Traced(g, closed, parent, dist, current, start, path)
    requires dist[start] == 0 && start !in parent
    requires forall c :: c in closed ==> !IsBorderCell(g, c)
    requires current in parent && IsBorderCell(g, current)
    ensures IsEscapeWalk(g, b, start, path)
    ensures |path| == dist[current] && start !in path
  {
    assert path != [];
    forall k | 0 <= k < |path|
      ensures IsFree(b, path[k])
    {
      assert path[k] in parent;
    }
  }

  /** `path` is the chain of parent links from `from` down to `to`: its
      first cell's parent is `from`, each later cell's parent is the cell
      before it, and it ends at `to`. */
  ghost predicate ParentChain(parent: map<Pos, Pos>, from: Pos, to: Pos, path: seq<Pos>) {
    && path != [] && path[|path| - 1] == to
    && path[0] in parent && parent[path[0]] == from
    && (forall k :: 0 < k < |path| ==> path[k] in parent && parent[path[k]] == path[k - 1])
  }

  /** Prepending the node whose parent `path` starts from extends the chain. */
  lemma ChainPrepend(parent: map<Pos, Pos>, curr: Pos, to: Pos, path: seq<Pos>)
    requires curr in parent
    requires path != [] ==> ParentChain(parent, curr, to, path)
    requires path == [] ==> curr == to
    ensures ParentChain(parent, parent[curr], to, [curr] + path)
  {
    var longer := [curr] + path;
    if path != [] {
      assert longer[|longer| - 1] == path[|path| - 1];
      forall k | 0 < k < |longer|
        ensures longer[k] in parent && parent[longer[k]] == longer[k - 1]
      {
        assert longer[k] == path[k - 1];
        if k > 1 {
          assert longer[k - 1] == path[k - 2];
        }
      }
    }
  }

  /** Follows the parents from the border cell `current` back to the start:
      the `while (curr.parent)` loop. Cells are prepended, which builds the
      reversed list directly. */
  method TracePath(g: Dims, b: Cells, start: Pos, closed: set<Pos>, parent: map<Pos, Pos>, ghost dist: map<Pos, nat>,
                   current: Pos) returns (path: seq<Pos>)
    requires ParentLinks(g, b, closed, parent, dist)
    requires start in dist && dist[start] == 0 && start !in parent
    requires ParentsRooted(start, parent)
    requires forall c :: c in closed ==> !IsBorderCell(g, c)
    requires current in parent && IsBorderCell(g, current)
    ensures IsEscapeWalk(g, b, start, path)
    ensures |path| == dist[current] && start !in path
    ensures ParentChain(parent, start, current, path)
  {
    var curr := current;
    path := [];
    while curr in parent
      invariant Traced(g, closed, parent, dist, current, curr, path)
      invariant curr == start || curr in parent
      invariant path != [] ==> ParentChain(parent, curr, current, path)
      decreases dist[curr]
    {
      TraceStep(g, b, closed, parent, dist, current, curr, path);
      ChainPrepend(parent, curr, current, path);
      path := [curr] + path;
      curr := parent[curr];
    }
    TraceDone(g, b, start, closed, parent, dist, current, path);
  }

  /** Taking the head off the open list and closing it starts its expansion. */
  lemma ExpandBegin(g: Dims, b: Cells, start: Pos, open: seq<Pos>, visited: set<Pos>, closed: set<Pos>,
                    parent: map<Pos, Pos>, dist: map<Pos, nat>)
    requires Frontier(g, b, start, open, visited, closed, parent, dist)
    requires open != [] && !IsBorderCell(g, open[0])
    ensures open[0] !in closed && open[0] in dist
    ensures Expanding(g, b, start, open[0], dist[open[0]], Neighbours(g, open[0]), 0,
                      open[1..], visited, closed + {open[0]}, parent, dist)
  {
    var current, closed' := open[0], closed + {open[0]};
    BookkeepingPop(g, b, start, open, visited, closed, parent, dist);
    LayeredTail(open, dist, dist[current]);
    ClosedWithinAdd(closed, dist, current);
    ExpandedNodesAdd(g, b, closed, dist, current);
  }

  lemma ClosedWithinAdd(closed: set<Pos>, dist: map<Pos, nat>, c: Pos)
    requires c in dist && ClosedWithin(closed, dist, dist[c])
    ensures ClosedWithin(closed + {c}, dist, dist[c])
  {
  }

  lemma ExpandedNodesAdd(g: Dims, b: Cells, closed: set<Pos>, dist: map<Pos, nat>, c: Pos)
    requires ExpandedNodes(g, b, closed, dist) && c !in closed
    ensures ExpandedNodes(g, b, (closed + {c}) - {c}, dist)
  {
    assert (closed + {c}) - {c} == closed;
  }

  lemma BookkeepingPop(g: Dims, b: Cells, start: Pos, open: seq<Pos>, visited: set<Pos>, closed: set<Pos>,
                       parent: map<Pos, Pos>, dist: map<Pos, nat>)
    requires Bookkeeping(g, b, start, open, visited, closed, parent, dist)
    requires open != [] && !IsBorderCell(g, open[0])
    ensures Bookkeeping(g, b, start, open[1..], visited, closed + {open[0]}, parent, dist)
  {
    OpenListPop(open, closed, dist);
  }

  /** A neighbour that is blocked or already discovered changes nothing. */
  lemma ExpandKnown(g: Dims, b: Cells, start: Pos, current: Pos, d: nat, ns: seq<Pos>, i: nat,
                    open: seq<Pos>, visited: set<Pos>, closed: set<Pos>, parent: map<Pos, Pos>, dist: map<Pos, nat>)
    requires Expanding(g, b, start, current, d, ns, i, open, visited, closed, parent, dist)
    requires i < |ns| && (ns[i] in dist || !IsFree(b, ns[i]))
    ensures Expanding(g, b, start, current, d, ns, i + 1, open, visited, closed, parent, dist)
  {
    if IsFree(b, ns[i]) {
      KnownNear(open, closed, dist, d, ns[i]);
    }
    PartlyExpandedKnown(b, ns, i, dist, d);
  }

  /** A discovered node is at most one hop further than the node being
      expanded. */
  lemma KnownNear(open: seq<Pos>, closed: set<Pos>, dist: map<Pos, nat>, d: nat, n: Pos)
    requires OpenList(open, closed, dist) && Layered(open, dist, d) && ClosedWithin(closed, dist, d)
    requires n in dist
    ensures dist[n] <= d + 1
  {
    if n !in closed {
      var k :| 0 <= k < |open| && open[k] == n;
    }
  }

  lemma PartlyExpandedKnown(b: Cells, ns: seq<Pos>, i: nat, dist: map<Pos, nat>, d: nat)
    requires i < |ns| && PartlyExpanded(b, ns, i, dist, d)
    requires IsFree(b, ns[i]) ==> ns[i] in dist && dist[ns[i]] <= d + 1
    ensures PartlyExpanded(b, ns, i + 1, dist, d)
  {
  }

  lemma OpenListPop(open: seq<Pos>, closed: set<Pos>, dist: map<Pos, nat>)
    requires OpenList(open, closed, dist) && open != []
    ensures OpenList(open[1..], closed + {open[0]}, dist)
  {
    var rest, closed' := open[1..], closed + {open[0]};
    assert forall k :: 0 <= k < |rest| ==> rest[k] == open[k + 1];
    DistinctTail(open);
    forall v | v in dist
      ensures v in closed' || v in rest
    {
      if v !in closed' {
        var k :| 0 <= k < |open| && open[k] == v;
        assert k > 0;
        assert rest[k - 1] == v;
      }
    }
  }

  lemma LayeredTail(open: seq<Pos>, dist: map<Pos, nat>, lo: nat)
    requires Layered(open, dist, lo) && open != []
    ensures Layered(open[1..], dist, lo)
  {
    assert forall k :: 0 <= k < |open| - 1 ==> open[1..][k] == open[k + 1];
  }

  lemma OpenListPush(open: seq<Pos>, closed: set<Pos>, dist: map<Pos, nat>, n: Pos, e: nat)
    requires OpenList(open, closed, dist) && n !in dist && n !in closed
    ensures OpenList(open + [n], closed, dist[n := e])
  {
    var open', dist' := open + [n], dist[n := e];
    assert forall k :: 0 <= k < |open| ==> open'[k] == open[k];
    assert open'[|open|] == n;
    forall v | v in dist'
      ensures v in closed || v in open'
    {
      if v != n && v !in closed {
        var k :| 0 <= k < |open| && open[k] == v;
        assert open'[k] == v;
      }
    }
    assert n !in open;
    DistinctAppend(open, n);
  }

  lemma BookkeepingPush(g: Dims, b: Cells, start: Pos, current: Pos, n: Pos,
                        open: seq<Pos>, visited: set<Pos>, closed: set<Pos>, parent: map<Pos, Pos>, dist: map<Pos, nat>)
    requires Bookkeeping(g, b, start, open, visited, closed, parent, dist)
    requires current in closed && n !in dist && n in Neighbours(g, current) && IsFree(b, n)
    ensures Bookkeeping(g, b, start, open + [n], visited + {n}, closed, parent[n := current], dist[n := dist[current] + 1])
  {
    assert n !in closed && IsValidPosition(g, n);
    OpenListPush(open, closed, dist, n, dist[current] + 1);
    ParentLinksPush(g, b, closed, parent, dist, current, n);
    DiscoveredPush(g, b, start, visited, closed, dist, n, dist[current] + 1);
    KeysPush(parent, visited, n, current);
  }

  lemma KeysPush(parent: map<Pos, Pos>, visited: set<Pos>, n: Pos, c: Pos)
    requires parent.Keys == visited
    ensures parent[n := c].Keys == visited + {n}
  {
  }

  lemma ParentLinksPush(g: Dims, b: Cells, closed: set<Pos>, parent: map<Pos, Pos>, dist: map<Pos, nat>,
                        current: Pos, n: Pos)
    requires ParentLinks(g, b, closed, parent, dist)
    requires current in closed && current in dist && n !in dist
    requires n in Neighbours(g, current) && IsFree(b, n)
    ensures ParentLinks(g, b, closed, parent[n := current], dist[n := dist[current] + 1])
  {
    var parent', dist' := parent[n := current], dist[n := dist[current] + 1];
    forall v | v in parent'
      ensures && v in dist' && parent'[v] in dist' && parent'[v] in closed
              && IsNeighbour(g, parent'[v], v) && IsFree(b, v)
              && dist'[v] == dist'[parent'[v]] + 1
    {
      if v != n {
        assert parent'[v] == parent[v];
        assert v in dist && parent[v] in dist && parent[v] != n;
      }
    }
  }

  lemma DiscoveredPush(g: Dims, b: Cells, start: Pos, visited: set<Pos>, closed: set<Pos>, dist: map<Pos, nat>,
                       n: Pos, e: nat)
    requires Discovered(g, b, start, visited, closed, dist)
    requires n !in dist && IsValidPosition(g, n) && IsFree(b, n)
    ensures Discovered(g, b, start, visited + {n}, closed, dist[n := e])
  {
  }

  lemma LayeredPush(open: seq<Pos>, dist: map<Pos, nat>, d: nat, n: Pos)
    requires Layered(open, dist, d) && n !in dist
    ensures Layered(open + [n], dist[n := d + 1], d)
  {
    var open', dist' := open + [n], dist[n := d + 1];
    assert forall k :: 0 <= k < |open| ==> open'[k] == open[k] && open[k] != n;
  }

  /** A new neighbour is pushed on the open list one hop further than
      `current`, with `current` as its parent. */
  lemma ExpandPush(g: Dims, b: Cells, start: Pos, current: Pos, d: nat, ns: seq<Pos>, i: nat,
                   open: seq<Pos>, visited: set<Pos>, closed: set<Pos>, parent: map<Pos, Pos>, dist: map<Pos, nat>)
    requires Expanding(g, b, start, current, d, ns, i, open, visited, closed, parent, dist)
    requires i < |ns| && ns[i] !in dist && IsFree(b, ns[i])
    ensures Expanding(g, b, start, current, d, ns, i + 1, open + [ns[i]], visited + {ns[i]}, closed,
                      parent[ns[i] := current], dist[ns[i] := d + 1])
  {
    var n := ns[i];
    assert n in ns && current in dist && n !in closed;
    BookkeepingPush(g, b, start, current, n, open, visited, closed, parent, dist);
    LayeredPush(open, dist, d, n);
    ClosedWithinExtend(closed, dist, d, n, d + 1);
    ExpandedNodesExtend(g, b, closed - {current}, dist, n, d + 1);
    PartlyExpandedPush(b, ns, i, dist, d);
    CursorPush(g, start, current, d, ns, i, closed, dist, n);
  }

  lemma CursorPush(g: Dims, start: Pos, current: Pos, d: nat, ns: seq<Pos>, i: int,
                   closed: set<Pos>, dist: map<Pos, nat>, n: Pos)
    requires Cursor(g, start, current, d, ns, i, closed, dist) && i < |ns| && n !in dist
    ensures Cursor(g, start, current, d, ns, i + 1, closed, dist[n := d + 1])
  {
  }

  lemma ClosedWithinExtend(closed: set<Pos>, dist: map<Pos, nat>, hi: nat, n: Pos, e: nat)
    requires ClosedWithin(closed, dist, hi) && n !in dist
    ensures ClosedWithin(closed, dist[n := e], hi)
  {
  }

  lemma ExpandedNodesExtend(g: Dims, b: Cells, nodes: set<Pos>, dist: map<Pos, nat>, n: Pos, e: nat)
    requires ExpandedNodes(g, b, nodes, dist) && n !in dist && n !in nodes
    ensures ExpandedNodes(g, b, nodes, dist[n := e])
  {
    var dist' := dist[n := e];
    forall c, m | c in nodes && c in dist' && m in Neighbours(g, c) && IsFree(b, m)
      ensures m in dist' && dist'[m] <= dist'[c] + 1
    {
      assert c in dist && dist'[c] == dist[c];
      assert m in dist && dist'[m] == dist[m];
    }
  }

  lemma PartlyExpandedPush(b: Cells, ns: seq<Pos>, i: nat, dist: map<Pos, nat>, d: nat)
    requires i < |ns| && PartlyExpanded(b, ns, i, dist, d) && ns[i] !in dist
    ensures PartlyExpanded(b, ns, i + 1, dist[ns[i] := d + 1], d)
  {
    var dist' := dist[ns[i] := d + 1];
    forall k | 0 <= k < i + 1 && IsFree(b, ns[k])
      ensures ns[k] in dist' && dist'[ns[k]] <= d + 1
    {
      if k < i {
        assert ns[k] in dist;
      }
    }
  }

  /** Once every neighbour has been examined the search is back between two
      iterations, with `current` expanded. */
  lemma ExpandEnd(g: Dims, b: Cells, start: Pos, current: Pos, d: nat, ns: seq<Pos>,
                  open: seq<Pos>, visited: set<Pos>, closed: set<Pos>, parent: map<Pos, Pos>, dist: map<Pos, nat>)
    requires Expanding(g, b, start, current, d, ns, |ns|, open, visited, closed, parent, dist)
    ensures Frontier(g, b, start, open, visited, closed, parent, dist)
  {
    OrderedAfter(open, closed, dist, d);
    ExpandedAll(g, b, closed, current, d, ns, dist);
  }

  /** After a whole layer-`d` node is expanded the open list still holds at
      most two consecutive layers, now headed by its first node. */
  lemma OrderedAfter(open: seq<Pos>, closed: set<Pos>, dist: map<Pos, nat>, d: nat)
    requires Layered(open, dist, d) && ClosedWithin(closed, dist, d)
    ensures Ordered(open, closed, dist)
  {
    if open != [] {
      assert Layered(open, dist, dist[open[0]]);
    }
  }

  lemma ExpandedAll(g: Dims, b: Cells, closed: set<Pos>, current: Pos, d: nat, ns: seq<Pos>, dist: map<Pos, nat>)
    requires ExpandedNodes(g, b, closed - {current}, dist)
    requires ns == Neighbours(g, current) && current in dist && dist[current] == d
    requires PartlyExpanded(b, ns, |ns|, dist, d)
    ensures ExpandedNodes(g, b, closed, dist)
  {
    forall c, n | c in closed && c in dist && n in Neighbours(g, c) && IsFree(b, n)
      ensures n in dist && dist[n] <= dist[c] + 1
    {
      if c == current {
        var k :| 0 <= k < |ns| && ns[k] == n;
      } else {
        assert c in closed - {current};
      }
    }
  }

  /** One expansion step of the game's loop body: `current`, the head of the
      open list, is removed and closed, and each neighbour that is neither
      closed nor set and was never visited is pushed on the open list with
      `current` as its parent. A neighbour already on the open list keeps its
      first parent, because the distance comparison of the game code is never
      true. */
  method Expand(g: Dims, b: Cells, start: Pos, open: seq<Pos>, visited: set<Pos>, closed: set<Pos>,
                parent: map<Pos, Pos>, ghost dist: map<Pos, nat>)
    returns (open': seq<Pos>, visited': set<Pos>, closed': set<Pos>, parent': map<Pos, Pos>, ghost dist': map<Pos, nat>)
    requires WellFormed(g, b)
    requires Frontier(g, b, start, open, visited, closed, parent, dist)
    requires open != [] && !IsBorderCell(g, open[0])
    ensures Frontier(g, b, start, open', visited', closed', parent', dist')
    ensures closed' == closed + {open[0]} && open[0] !in closed
    ensures open[1..] <= open'
    ensures ParentsKept(parent, parent', open[0])
  {
    var current := open[0];
    ExpandBegin(g, b, start, open, visited, closed, parent, dist);
    ghost var d := dist[current];
    open' := open[1..];
    closed' := closed + {current};
    visited', parent', dist' := visited, parent, dist;

    var neighbours := Neighbours(g, current);
    var i := 0;
    while i < |neighbours|
      invariant Expanding(g, b, start, current, d, neighbours, i, open', visited', closed', parent', dist')
      invariant closed' == closed + {current}
      invariant open[1..] <= open' && ParentsKept(parent, parent', current)
    {
      var n := neighbours[i];
      assert n in neighbours;
      assert IsValidPosition(g, n);
      if n in closed' || b[n.y][n.x].isSet {
        ExpandKnown(g, b, start, current, d, neighbours, i, open', visited', closed', parent', dist');
      } else if n !in visited' {
        ExpandPush(g, b, start, current, d, neighbours, i, open', visited', closed', parent', dist');
        KeptPush(open[1..], open', parent, parent', current, n);
        visited' := visited' + {n};
        open' := open' + [n];
        parent' := parent'[n := current];
        dist' := dist'[n := d + 1];
      } else {
        ExpandKnown(g, b, start, current, d, neighbours, i, open', visited', closed', parent', dist');
      }
      i := i + 1;
    }
    ExpandEnd(g, b, start, current, d, neighbours, open', visited', closed', parent', dist');
  }

  /** Expanding `current` keeps every parent link already made and links
      each newly discovered node to `current`: the first node to discover
      another stays its parent. */
  ghost predicate ParentsKept(parent: map<Pos, Pos>, parent': map<Pos, Pos>, current: Pos) {
    && (forall v {:trigger parent[v]} :: v in parent ==> v in parent' && parent'[v] == parent[v])
    && (forall v {:trigger parent'[v]} :: v in parent' && v !in parent ==> parent'[v] == current)
  }

  /** Pushing a newly discovered node at the back of the open list keeps the
      old list as a prefix and the old parent links. */
  lemma KeptPush(prefix: seq<Pos>, open: seq<Pos>, parent: map<Pos, Pos>, parent': map<Pos, Pos>, current: Pos, n: Pos)
    requires prefix <= open && ParentsKept(parent, parent', current) && n !in parent'
    ensures prefix <= open + [n] && ParentsKept(parent, parent'[n := current], current)
  {
    assert (open + [n])[..|prefix|] == open[..|prefix|];
  }

  /** Closing one more cell of the board leaves fewer cells to close. */
  lemma RemainingShrinks(grid: set<Pos>, closed: set<Pos>, c: Pos)
    requires c in grid && c !in closed
    ensures |grid - (closed + {c})| < |grid - closed|
  {
    assert grid - (closed + {c}) == (grid - closed) - {c};
  }

  /** The search state right after the start has been put on the open list. */
  lemma FrontierInit(g: Dims, b: Cells, start: Pos)
    requires IsValidPosition(g, start)
    ensures Frontier(g, b, start, [start], {}, {}, map[], map[start := 0])
  {
  }

  /** A non-start node at the head of the open list has a parent chain back
      to the start. */
  lemma FrontierTraceable(g: Dims, b: Cells, start: Pos, open: seq<Pos>, visited: set<Pos>, closed: set<Pos>,
                          parent: map<Pos, Pos>, dist: map<Pos, nat>)
    requires Bookkeeping(g, b, start, open, visited, closed, parent, dist)
    requires Rooted(start, open, visited, closed)
    requires open != [] && open[0] != start
    ensures ParentLinks(g, b, closed, parent, dist)
    ensures start in dist && dist[start] == 0 && start !in parent
    ensures ParentsRooted(start, parent)
    ensures forall c :: c in closed ==> !IsBorderCell(g, c)
    ensures open[0] in parent && open[0] in dist
    ensures start in closed && !IsBorderCell(g, start)
  {
    ParentRoots(g, b, start, visited, closed, parent, dist);
    assert open[0] != start ==> open != [start];
  }

  /** Every discovered node but the start has a parent, so every parent is
      the start or has a parent itself. */
  lemma ParentRoots(g: Dims, b: Cells, start: Pos, visited: set<Pos>, closed: set<Pos>, parent: map<Pos, Pos>, dist: map<Pos, nat>)
    requires start !in visited && dist.Keys == visited + {start} && parent.Keys == visited
    requires ParentLinks(g, b, closed, parent, dist)
    ensures start in dist && start !in parent
    ensures forall v :: v in dist && v != start ==> v in parent
    ensures ParentsRooted(start, parent)
  {
    forall v | v in dist
      ensures v in parent <==> v != start
    {
      assert v in dist.Keys;
    }
  }

  /** The parent of every node that has one is the start or has a parent
      itself: the `while (curr.parent)` walk can only stop at the start. */
  ghost predicate ParentsRooted(start: Pos, parent: map<Pos, Pos>) {
    parent.Values <= parent.Keys + {start}
  }

  /** The walk traced back from the first border node taken from the open
      list is a shortest escape walk. */
  lemma FoundShortest(g: Dims, b: Cells, start: Pos, open: seq<Pos>, visited: set<Pos>, closed: set<Pos>,
                      parent: map<Pos, Pos>, dist: map<Pos, nat>, path: seq<Pos>)
    requires Frontier(g, b, start, open, visited, closed, parent, dist)
    requires open != [] && open[0] != start
    requires IsEscapeWalk(g, b, start, path) && |path| == dist[open[0]]
    ensures IsShortestEscape(g, b, start, path) && CanEscape(g, b, start)
  {
    FrontierTraceable(g, b, start, open, visited, closed, parent, dist);
    FrontierExplored(g, b, start, open, visited, closed, parent, dist);
    forall w | IsEscapeWalk(g, b, start, w)
      ensures |path| <= |w|
    {
      ExploredWalksAreLong(g, b, start, closed, dist, dist[open[0]], w);
    }
  }

  /** When the open list runs out, no escape walk exists. */
  lemma NoEscape(g: Dims, b: Cells, start: Pos, visited: set<Pos>, closed: set<Pos>,
                 parent: map<Pos, Pos>, dist: map<Pos, nat>)
    requires Frontier(g, b, start, [], visited, closed, parent, dist)
    ensures !CanEscape(g, b, start)
  {
    forall w | true
      ensures !IsEscapeWalk(g, b, start, w)
    {
      if IsEscapeWalk(g, b, start, w) {
        FrontierExhausted(g, b, start, visited, closed, parent, dist, |w| + 1);
        ExploredWalksAreLong(g, b, start, closed, dist, |w| + 1, w);
      }
    }
  }

  /** The loop body of the search once a border cell is at the head of the
      open list: the start itself gives the empty path, any other node the
      walk traced back through the parents. */
  method Found(g: Dims, b: Cells, start: Pos, open: seq<Pos>, visited: set<Pos>, closed: set<Pos>,
               parent: map<Pos, Pos>, ghost dist: map<Pos, nat>) returns (path: seq<Pos>)
    requires WellFormed(g, b) && IsValidPosition(g, start)
    requires Frontier(g, b, start, open, visited, closed, parent, dist)
    requires open != [] && IsBorderCell(g, open[0])
    ensures IsBorderCell(g, start) ==> path == []
    ensures !IsBorderCell(g, start) ==> (path == [] <==> !CanEscape(g, b, start))
    ensures path != [] ==> IsShortestEscape(g, b, start, path) && start !in path
    ensures path != [] ==> EdgeDistance(g, start) <= |path|
    ensures NoneSet(g, b) && !IsBorderCell(g, start) ==> |path| == EdgeDistance(g, start)
  {
    var current := open[0];
    if current == start {
      // the start has no parent
      path := [];
    } else {
      FrontierTraceable(g, b, start, open, visited, closed, parent, dist);
      path := TracePath(g, b, start, closed, parent, dist, current);
      FoundShortest(g, b, start, open, visited, closed, parent, dist, path);
    }
    ShortestLength(g, b, start, path);
  }

  /** `searchShortestPathToEdge`: the cells from `start` (exclusive) to the
      first border cell the breadth-first search takes from the open list
      (inclusive), or the empty sequence when the start is itself a border
      cell or no border cell can be reached. */
  method ShortestPathToEdge(g: Dims, b: Cells, start: Pos) returns (path: seq<Pos>)
    requires WellFormed(g, b)
    requires IsValidPosition(g, start)
    ensures IsBorderCell(g, start) ==> path == []
    ensures !IsBorderCell(g, start) ==> (path == [] <==> !CanEscape(g, b, start))
    ensures path != [] ==> IsShortestEscape(g, b, start, path) && start !in path
    ensures path != [] ==> EdgeDistance(g, start) <= |path|
    ensures NoneSet(g, b) && !IsBorderCell(g, start) ==> |path| == EdgeDistance(g, start)
  {
    var open: seq<Pos> := [start];
    var visited: set<Pos> := {};
    var closed: set<Pos> := {};
    var parent: map<Pos, Pos> := map[];
    ghost var dist: map<Pos, nat> := map[start := 0];
    ghost var grid := AllPositions(g);
    FrontierInit(g, b, start);

    while open != []
      invariant Frontier(g, b, start, open, visited, closed, parent, dist)
      invariant closed <= grid
      decreases |grid - closed|
    {
      // Every f is undefined, so the scan for the lowest f keeps index 0.
      var current := open[0];

      if IsBorderCell(g, current) {
        path := Found(g, b, start, open, visited, closed, parent, dist);
        return;
      }

      InAllPositions(g, current);
      ghost var before := closed;
      open, visited, closed, parent, dist := Expand(g, b, start, open, visited, closed, parent, dist);
      RemainingShrinks(grid, before, current);
    }

    path := [];
    NoEscape(g, b, start, visited, closed, parent, dist);
    ShortestLength(g, b, start, path);
  }
}
