/** Geometry of the offset-row hexagonal grid: which positions exist,
    which are adjacent, and which lie on the edge of the play area. */
module Hex {
  import opened Seqs

  /** A grid position; the game's `GridPosition` (x is the column, y the row). */
  datatype Pos = Pos(x: int, y: int)

  /** The grid size, `gridWidth` by `gridHeight`. */
  datatype Dims = Dims(width: nat, height: nat)

  /** The size the game is played at. */
  const Standard := Dims(11, 11)

  /** `isValidPosition`: the position lies inside the play area. */
  predicate IsValidPosition(g: Dims, p: Pos) {
    0 <= p.x < g.width && 0 <= p.y < g.height
  }

  /** The six candidate neighbours before the bounds filter, in the order the
      game lists them. Odd rows are shifted half a cell to the right, so the
      diagonal neighbours of an even row lie one column to the left and those
      of an odd row one column to the right. The parity test `y % 2 === 0`
      agrees with Dafny's for negative rows as well. */
  function Candidates(p: Pos): (cs: seq<Pos>) {
    var x, y := p.x, p.y;
    if y % 2 == 0 then
      [Pos(x - 1, y - 1), Pos(x, y - 1), Pos(x - 1, y), Pos(x + 1, y), Pos(x, y + 1), Pos(x - 1, y + 1)]
    else
      [Pos(x, y - 1), Pos(x + 1, y - 1), Pos(x - 1, y), Pos(x + 1, y), Pos(x + 1, y + 1), Pos(x, y + 1)]
  }

  /** `getNeighbours`: the in-bounds cells adjacent to `p`. */
  function Neighbours(g: Dims, p: Pos): (r: seq<Pos>)
    ensures |r| <= 6 && Distinct(r)
    ensures forall q {:trigger q in r} :: q in r ==> IsValidPosition(g, q) && q != p
    ensures forall q {:trigger q in r} :: q in r ==> Nearby(p, q)
    ensures forall q {:trigger q in r} :: q in r <==> IsNeighbour(g, p, q)
  {
    CandidatesAreAdjacent(p);
    Filter(q => IsValidPosition(g, q), Candidates(p))
  }

  /** `q` is a cell of the play area adjacent to `p`: one that `getNeighbours`
      lists for `p`. */
  predicate IsNeighbour(g: Dims, p: Pos, q: Pos) {
    IsValidPosition(g, q) && Adjacent(p, q)
  }

  /** `q` is at most one column and at most one row away from `p`. */
  predicate Nearby(p: Pos, q: Pos) {
    -1 <= q.x - p.x <= 1 && -1 <= q.y - p.y <= 1
  }

  /** The candidate table as offsets: on an even row the diagonal neighbours
      are one column to the left, on an odd row one column to the right. */
  predicate Adjacent(p: Pos, q: Pos) {
    var dx, dy := q.x - p.x, q.y - p.y;
    var lean := if p.y % 2 == 0 then -1 else 1;
    (dy == 0 && (dx == -1 || dx == 1)) || ((dy == -1 || dy == 1) && (dx == 0 || dx == lean))
  }

  lemma CandidatesAreAdjacent(p: Pos)
    ensures forall q :: q in Candidates(p) <==> Adjacent(p, q)
  {
    var c := Candidates(p);
    forall q
      ensures q in c <==> Adjacent(p, q)
    {
      assert q in c <==> q == c[0] || q == c[1] || q == c[2] || q == c[3] || q == c[4] || q == c[5];
    }
  }

  lemma AdjacentSymmetric(p: Pos, q: Pos)
    ensures Adjacent(p, q) <==> Adjacent(q, p)
  {
    if q.y == p.y - 1 || q.y == p.y + 1 {
      assert (p.y % 2 == 0) <==> (q.y % 2 != 0);
    }
  }

  /** Adjacency is symmetric between positions of the play area: the even-row
      and odd-row tables are mirror images of each other. */
  lemma NeighboursSymmetric(g: Dims, p: Pos, q: Pos)
    requires IsValidPosition(g, p) && IsValidPosition(g, q)
    ensures q in Neighbours(g, p) <==> p in Neighbours(g, q)
  {
    AdjacentSymmetric(p, q);
  }

  /** `isBorderCell`: the position is in the first or last row or column. */
  predicate IsBorderCell(g: Dims, p: Pos) {
    p.x == 0 || p.y == 0 || p.x == g.width - 1 || p.y == g.height - 1
  }

  /** The border cells are exactly the cells of the play area that miss one
      of their six neighbours: the cells from which the cat can step off the
      board. */
  lemma BorderWhereNeighbourMissing(g: Dims, p: Pos)
    requires IsValidPosition(g, p)
    ensures IsBorderCell(g, p) <==> |Neighbours(g, p)| < 6
  {
    var c := Candidates(p);
    FilterKeepsAll(q => IsValidPosition(g, q), c);
    if p.x == 0 {
      assert !IsValidPosition(g, c[2]);
    } else if p.y == 0 {
      assert !IsValidPosition(g, c[1]);
    } else if p.x == g.width - 1 {
      assert !IsValidPosition(g, c[3]);
    } else if p.y == g.height - 1 {
      assert !IsValidPosition(g, c[4]);
    }
  }

  function Min(a: int, b: int): (m: int) {
    if a <= b then a else b
  }

  /** The number of rows or columns between `p` and the nearest edge of the
      play area. */
  function EdgeDistance(g: Dims, p: Pos): (d: int) {
    Min(Min(p.x, p.y), Min(g.width - 1 - p.x, g.height - 1 - p.y))
  }

  /** Inside the play area the edge distance is never negative, and it is zero
      exactly on the border cells. */
  lemma EdgeDistanceZeroOnBorder(g: Dims, p: Pos)
    requires IsValidPosition(g, p)
    ensures EdgeDistance(g, p) >= 0
    ensures IsBorderCell(g, p) <==> EdgeDistance(g, p) == 0
  {
  }

  /** One step to a neighbour brings the cat at most one row or column closer
      to the edge. */
  lemma EdgeDistanceStep(g: Dims, p: Pos, q: Pos)
    requires Adjacent(p, q)
    ensures EdgeDistance(g, p) - 1 <= EdgeDistance(g, q) <= EdgeDistance(g, p) + 1
  {
  }
}
