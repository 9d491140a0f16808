/** Escape walks: the routes the cat could take off the board, and how long
    they must be. */
module Walks {
  import opened Hex
  import opened Board

  /** A walk the cat could take out of the play area: it starts next to
      `start`, moves between adjacent unset cells and stops at the first
      border cell it reaches. */
  predicate IsEscapeWalk(g: Dims, b: Cells, start: Pos, w: seq<Pos>) {
    && |w| > 0
    && IsNeighbour(g, start, w[0])
    && (forall i :: 0 < i < |w| ==> Follows(g, w, i))
    && (forall i :: 0 <= i < |w| ==> IsFree(b, w[i]))
    && IsBorderCell(g, w[|w| - 1])
    && (forall i :: 0 <= i < |w| - 1 ==> !IsBorderCell(g, w[i]))
  }

  /** The `i`-th step of `w` moves to a neighbour of the cell before it. */
  predicate Follows(g: Dims, w: seq<Pos>, i: int)
    requires 0 < i < |w|
  {
    IsNeighbour(g, w[i - 1], w[i])
  }

  /** Putting a cell in front of a walk keeps every step adjacent when the
      walk starts next to that cell. */
  lemma FollowsPrepend(g: Dims, p: Pos, w: seq<Pos>)
    requires w != [] ==> IsNeighbour(g, p, w[0])
    requires forall k :: 0 < k < |w| ==> Follows(g, w, k)
    ensures forall k :: 0 < k < |w| + 1 ==> Follows(g, [p] + w, k)
  {
    var w' := [p] + w;
    forall k | 0 < k < |w'|
      ensures Follows(g, w', k)
    {
      if k > 1 {
        assert Follows(g, w, k - 1);
      }
    }
  }

  ghost predicate CanEscape(g: Dims, b: Cells, start: Pos) {
    exists w :: IsEscapeWalk(g, b, start, w)
  }

  /** An escape walk no other escape walk is shorter than. */
  ghost predicate IsShortestEscape(g: Dims, b: Cells, start: Pos, w: seq<Pos>) {
    && IsEscapeWalk(g, b, start, w)
    && forall w' {:trigger IsEscapeWalk(g, b, start, w')} :: IsEscapeWalk(g, b, start, w') ==> |w| <= |w'|
  }

  /** From any cell of an escape walk the rest of the walk is at least as
      long as that cell's distance to the edge. */
  lemma {:induction false} SuffixReachesEdge(g: Dims, b: Cells, start: Pos, w: seq<Pos>, i: nat)
    requires IsEscapeWalk(g, b, start, w) && i < |w|
    ensures EdgeDistance(g, w[i]) <= |w| - 1 - i
    decreases |w| - i
  {
    if i == |w| - 1 {
      assert i > 0 ==> Follows(g, w, i);
      EdgeDistanceZeroOnBorder(g, w[i]);
    } else {
      SuffixReachesEdge(g, b, start, w, i + 1);
      assert Follows(g, w, i + 1);
      EdgeDistanceStep(g, w[i], w[i + 1]);
    }
  }

  /** No escape walk is shorter than the start's distance to the edge. */
  lemma EscapeWalkLength(g: Dims, b: Cells, start: Pos, w: seq<Pos>)
    requires IsEscapeWalk(g, b, start, w)
    ensures EdgeDistance(g, start) <= |w|
  {
    SuffixReachesEdge(g, b, start, w, 0);
    EdgeDistanceStep(g, start, w[0]);
  }

  /** The `n` cells met walking `n` steps from `p` in a straight line along
      (`dx`, `dy`). */
  function StraightWalk(p: Pos, dx: int, dy: int, n: nat): (w: seq<Pos>)
    ensures |w| == n
    ensures forall k :: 0 <= k < n ==> w[k] == Pos(p.x + (k + 1) * dx, p.y + (k + 1) * dy)
  {
    seq(n, k requires 0 <= k < n => Pos(p.x + (k + 1) * dx, p.y + (k + 1) * dy))
  }

  /** Along a row in either direction, and up or down a column, consecutive
      cells are neighbours. */
  lemma StraightStepsAdjacent(p: Pos, dx: int, dy: int, n: nat)
    requires (dy == 0 && (dx == -1 || dx == 1)) || (dx == 0 && (dy == -1 || dy == 1))
    ensures forall k :: 0 < k < n ==> Adjacent(StraightWalk(p, dx, dy, n)[k - 1], StraightWalk(p, dx, dy, n)[k])
    ensures n > 0 ==> Adjacent(p, StraightWalk(p, dx, dy, n)[0])
  {
  }

  /** No cell of the play area is set. */
  ghost predicate NoneSet(g: Dims, b: Cells) {
    forall p :: IsValidPosition(g, p) ==> IsFree(b, p)
  }

  /** On a board with no set cell, walking straight from a non-border cell
      towards its nearest edge is an escape walk of exactly its edge
      distance. */
  lemma {:induction false} EmptyBoardEscape(g: Dims, b: Cells, start: Pos)
    requires WellFormed(g, b) && IsValidPosition(g, start) && !IsBorderCell(g, start)
    requires NoneSet(g, b)
    ensures exists w :: IsEscapeWalk(g, b, start, w) && |w| == EdgeDistance(g, start)
  {
    var n := EdgeDistance(g, start);
    var dir :=
      if n == start.x then (-1, 0)
      else if n == start.y then (0, -1)
      else if n == g.width - 1 - start.x then (1, 0)
      else (0, 1);
    var dx, dy := dir.0, dir.1;
    var w := StraightWalk(start, dx, dy, n);
    StraightStepsAdjacent(start, dx, dy, n);
    forall k | 0 <= k < n
      ensures IsValidPosition(g, w[k]) && IsFree(b, w[k])
      ensures IsBorderCell(g, w[k]) <==> k == n - 1
    {
    }
    forall k | 0 < k < n
      ensures Follows(g, w, k)
    {
    }
    assert IsEscapeWalk(g, b, start, w);
  }

  /** What the length of a shortest escape walk tells: never less than the
      distance to the edge, and exactly that distance on a board with no set
      cell. */
  lemma ShortestLength(g: Dims, b: Cells, start: Pos, path: seq<Pos>)
    requires WellFormed(g, b) && IsValidPosition(g, start)
    requires !IsBorderCell(g, start) ==> (path == [] <==> !CanEscape(g, b, start))
    requires path != [] ==> IsShortestEscape(g, b, start, path)
    ensures path != [] ==> EdgeDistance(g, start) <= |path|
    ensures NoneSet(g, b) && !IsBorderCell(g, start) ==> |path| == EdgeDistance(g, start)
  {
    if path != [] {
      EscapeWalkLength(g, b, start, path);
    }
    if NoneSet(g, b) && !IsBorderCell(g, start) {
      EmptyBoardEscape(g, b, start);
      var w :| IsEscapeWalk(g, b, start, w) && |w| == EdgeDistance(g, start);
      assert |path| <= |w|;
    }
  }
}
