/** The board: an array of rows of cells, each cell remembering its own
    coordinates and whether a rock (or a player's block) occupies it. */
module Board {
  import opened Seqs
  import opened Draws
  import opened Hex

  /** `CellState` without its presentation-only image name; `isSet` is the
      game's `set` flag (a rock or a block). */
  datatype Cell = Cell(x: int, y: int, isSet: bool)

  /** `cells[y][x]`: rows first, as the game stores them. */
  type Cells = seq<seq<Cell>>

  /** The exception `getCell` throws for a position outside the play area. */
  datatype Error = OutsidePlayArea(x: int, y: int)

  datatype Result<T> = Ok(value: T) | Err(error: Error)

  function PosOf(c: Cell): (p: Pos) {
    Pos(c.x, c.y)
  }

  /** Every cell stores the coordinates it is stored at. */
  predicate Coordinates(b: Cells) {
    forall y, x :: 0 <= y < |b| && 0 <= x < |b[y]| ==> b[y][x].x == x && b[y][x].y == y
  }

  /** The shape the constructor builds and every later board keeps. */
  predicate WellFormed(g: Dims, b: Cells) {
    && |b| == g.height
    && (forall y :: 0 <= y < |b| ==> |b[y]| == g.width)
    && Coordinates(b)
  }

  predicate InBoard(b: Cells, p: Pos) {
    0 <= p.y < |b| && 0 <= p.x < |b[p.y]|
  }

  function At(b: Cells, p: Pos): (c: Cell)
    requires InBoard(b, p)
  {
    b[p.y][p.x]
  }

  /** An unset cell of the board: one the cat may stand on or move to. */
  predicate IsFree(b: Cells, p: Pos) {
    InBoard(b, p) && !b[p.y][p.x].isSet
  }

  /** The two boards have the same shape and agree everywhere except at `p`. */
  predicate SameExcept(b: Cells, b': Cells, p: Pos) {
    && |b'| == |b|
    && (forall y :: 0 <= y < |b| ==> |b'[y]| == |b[y]|)
    && (forall y, x :: 0 <= y < |b| && 0 <= x < |b[y]| && Pos(x, y) != p ==> b'[y][x] == b[y][x])
  }

  lemma WellFormedInBoard(g: Dims, b: Cells, p: Pos)
    requires WellFormed(g, b)
    ensures InBoard(b, p) <==> IsValidPosition(g, p)
  {
  }

  /** `getCell`: the cell at a position, or the exception for a position
      outside the play area. */
  function GetCell(g: Dims, b: Cells, p: Pos): (r: Result<Cell>)
    requires WellFormed(g, b)
    ensures r.Ok? <==> IsValidPosition(g, p)
    ensures r.Ok? ==> PosOf(r.value) == p && (r.value.isSet <==> !IsFree(b, p))
    ensures r.Err? ==> r.error == OutsidePlayArea(p.x, p.y)
  {
    if !IsValidPosition(g, p) then Err(OutsidePlayArea(p.x, p.y))
    else Ok(b[p.y][p.x])
  }

  /** `updateCell`: a copy of the board in which every cell at the new cell's
      coordinates is replaced by it. */
  function UpdateCell(b: Cells, cell: Cell): (r: Cells)
    ensures Coordinates(b) ==> SameExcept(b, r, PosOf(cell))
    ensures Coordinates(b) && InBoard(b, PosOf(cell)) ==> At(r, PosOf(cell)) == cell
    ensures Coordinates(b) ==> Coordinates(r)
  {
    seq(|b|, y requires 0 <= y < |b| =>
      seq(|b[y]|, x requires 0 <= x < |b[y]| =>
        if PosOf(b[y][x]) == PosOf(cell) then cell else b[y][x]))
  }

  /** `getPossibleMoves`: the neighbours of `p` whose cell is unset. */
  function PossibleMoves(g: Dims, b: Cells, p: Pos): (r: seq<Pos>)
    requires WellFormed(g, b)
    ensures |r| <= 6 && Distinct(r)
    ensures forall q {:trigger q in r} {:trigger q in Neighbours(g, p)} :: q in r <==> q in Neighbours(g, p) && IsFree(b, q)
  {
    Filter(q => IsFree(b, q), Neighbours(g, p))
  }

  /** `getRandomMove`: one of the possible moves chosen by the draw, or the
      cat's own position when it has none. */
  function RandomMove(g: Dims, b: Cells, p: Pos, d: Draw): (r: Pos)
    requires WellFormed(g, b) && IsUnitDraw(d)
    ensures PossibleMoves(g, b, p) == [] ==> r == p
    ensures PossibleMoves(g, b, p) != [] ==> r in PossibleMoves(g, b, p)
  {
    var moves := PossibleMoves(g, b, p);
    if |moves| > 0 then moves[Scale(d, |moves|)] else p
  }

  /** The board before any rock is placed. */
  function EmptyBoard(g: Dims): (b: Cells)
    ensures WellFormed(g, b)
    ensures forall p :: InBoard(b, p) ==> !At(b, p).isSet
  {
    seq(g.height, y requires 0 <= y < g.height =>
      seq(g.width, x requires 0 <= x < g.width => Cell(x, y, false)))
  }

  /** The number of rock placements the constructor attempts. */
  const RockAttempts := 20

  /** The cell an attempt of the rock loop aims at: a column drawn from the
      first draw and a row from the second. */
  function RockSpot(g: Dims, d: (Draw, Draw)): (p: Pos)
    requires IsUnitDraw(d.0) && IsUnitDraw(d.1) && g.width > 0 && g.height > 0
    ensures IsValidPosition(g, p)
  {
    Pos(Scale(d.0, g.width), Scale(d.1, g.height))
  }

  /** One attempt of the constructor's rock loop: the drawn cell is set
      unless it shares the cat's row or column; nothing else changes. */
  function PlaceRock(g: Dims, b: Cells, cat: Pos, d: (Draw, Draw)): (r: Cells)
    requires WellFormed(g, b) && g.width > 0 && g.height > 0
    requires IsUnitDraw(d.0) && IsUnitDraw(d.1)
    ensures WellFormed(g, r)
    ensures SameExcept(b, r, RockSpot(g, d))
    ensures var p := RockSpot(g, d);
      At(r, p).isSet <==> At(b, p).isSet || (p.x != cat.x && p.y != cat.y)
    ensures forall p :: InBoard(b, p) && At(b, p).isSet ==> At(r, p).isSet
    ensures forall p {:trigger At(r, p)} :: InBoard(r, p) && At(r, p).isSet && !At(b, p).isSet ==> p.x != cat.x && p.y != cat.y
  {
    var p := RockSpot(g, d);
    if p.x != cat.x && p.y != cat.y && !b[p.y][p.x].isSet then UpdateCell(b, Cell(p.x, p.y, true))
    else b
  }

  /** The constructor's rock loop, one attempt per draw pair (column draw,
      row draw): rocks are only ever added, and never in the cat's row or
      column. */
  function PlaceRocks(g: Dims, b: Cells, cat: Pos, draws: seq<(Draw, Draw)>): (r: Cells)
    requires WellFormed(g, b) && g.width > 0 && g.height > 0
    requires forall i :: 0 <= i < |draws| ==> IsUnitDraw(draws[i].0) && IsUnitDraw(draws[i].1)
    ensures WellFormed(g, r)
    ensures forall p :: InBoard(b, p) && At(b, p).isSet ==> At(r, p).isSet
    ensures forall p {:trigger At(r, p)} :: InBoard(r, p) && At(r, p).isSet && !At(b, p).isSet ==> p.x != cat.x && p.y != cat.y
    decreases |draws|
  {
    if draws == [] then b
    else PlaceRocks(g, PlaceRock(g, b, cat, draws[0]), cat, draws[1..])
  }
}
