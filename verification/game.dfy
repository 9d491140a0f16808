/** The game component: the state it keeps (the board and the cat), the
    constructor that sets up a new game, and one turn, `handleClick`. */
module Game {
  import opened Draws
  import opened Hex
  import opened Board
  import opened Walks
  import opened Search

  /** The component state without its presentation: the board and where the
      cat stands. */
  datatype State = State(cells: Cells, cat: Pos)

  /** What a click leaves behind: the next state, and whether the
      "Well done!" alert was shown because the cat could not move. */
  datatype Turn = Turn(next: State, wellDone: bool)

  /** What every state of a game satisfies: a board of the right shape and a
      cat standing on an unset cell of it. */
  predicate Invariant(g: Dims, s: State) {
    && WellFormed(g, s.cells)
    && IsValidPosition(g, s.cat)
    && IsFree(s.cells, s.cat)
  }

  /** The cat's first cell, the middle of the board (rounded down). */
  function CatStart(g: Dims): (p: Pos)
    requires g.width > 0 && g.height > 0
    ensures IsValidPosition(g, p)
    ensures 0 <= g.width - 2 * p.x <= 1 && 0 <= g.height - 2 * p.y <= 1
  {
    Pos(g.width / 2, g.height / 2)
  }

  /** The constructor: an empty board on which the rock loop places up to
      `RockAttempts` rocks, none in the cat's row or column. */
  function NewGame(g: Dims, draws: seq<(Draw, Draw)>): (s: State)
    requires g.width > 0 && g.height > 0
    requires |draws| == RockAttempts
    requires forall i :: 0 <= i < |draws| ==> IsUnitDraw(draws[i].0) && IsUnitDraw(draws[i].1)
    ensures Invariant(g, s)
    ensures s.cat == CatStart(g)
    ensures forall p :: InBoard(s.cells, p) && At(s.cells, p).isSet ==> p.x != s.cat.x && p.y != s.cat.y
  {
    var cat := CatStart(g);
    var cells := PlaceRocks(g, EmptyBoard(g), cat, draws);
    RocksAwayFromCat(g, EmptyBoard(g), cells, cat);
    State(cells, cat)
  }

  /** Rocks added to an empty board away from the cat's row and column leave
      the cat's cell free. */
  lemma RocksAwayFromCat(g: Dims, empty: Cells, cells: Cells, cat: Pos)
    requires WellFormed(g, empty) && WellFormed(g, cells) && IsValidPosition(g, cat)
    requires forall p :: InBoard(empty, p) ==> !At(empty, p).isSet
    requires forall p {:trigger At(cells, p)} :: InBoard(cells, p) && At(cells, p).isSet && !At(empty, p).isSet ==> p.x != cat.x && p.y != cat.y
    ensures forall p :: InBoard(cells, p) && At(cells, p).isSet ==> p.x != cat.x && p.y != cat.y
    ensures IsFree(cells, cat)
  {
    forall p | InBoard(cells, p) && At(cells, p).isSet
      ensures p.x != cat.x && p.y != cat.y
    {
      WellFormedInBoard(g, cells, p);
      WellFormedInBoard(g, empty, p);
      assert !At(empty, p).isSet;
    }
    WellFormedInBoard(g, cells, cat);
  }

  /** `handleClick`: the player blocks the clicked cell and the cat answers.
      A click outside the board is the exception `getCell` throws; a click
      on a set cell or on the cat changes nothing. Otherwise the clicked cell
      is set and the cat takes the first step of a shortest escape walk, or,
      when there is none (or it already stands on the border), a random
      possible move, staying put — "Well done!" — when it has none. */
  method HandleClick(g: Dims, s: State, pos: Pos, d: Draw) returns (r: Result<Turn>)
    requires Invariant(g, s) && IsUnitDraw(d)
    ensures r.Err? <==> !IsValidPosition(g, pos)
    ensures r.Err? ==> r.error == OutsidePlayArea(pos.x, pos.y)
    ensures r.Ok? && (!IsFree(s.cells, pos) || pos == s.cat) ==> r.value == Turn(s, false)
    ensures r.Ok? && IsFree(s.cells, pos) && pos != s.cat ==>
      var t := r.value;
      && WellFormed(g, t.next.cells)
      && SameExcept(s.cells, t.next.cells, pos) && !IsFree(t.next.cells, pos)
      && (t.next.cat == s.cat || t.next.cat in PossibleMoves(g, t.next.cells, s.cat))
      && (t.wellDone <==> t.next.cat == s.cat)
      && (t.wellDone <==> PossibleMoves(g, t.next.cells, s.cat) == [])
      && (!IsBorderCell(g, s.cat) && CanEscape(g, t.next.cells, s.cat) ==>
            exists w :: IsShortestEscape(g, t.next.cells, s.cat, w) && w[0] == t.next.cat)
    ensures r.Ok? ==> Invariant(g, r.value.next)
  {
    var c := GetCell(g, s.cells, pos);
    if c.Err? {
      return Err(c.error);
    }
    var cell := c.value;
    if cell.isSet || PosOf(cell) == s.cat {
      return Ok(Turn(s, false));
    }
    var cells := UpdateCell(s.cells, Cell(cell.x, cell.y, true));
    var path := ShortestPathToEdge(g, cells, s.cat);
    var next := if |path| > 0 then path[0] else RandomMove(g, cells, s.cat, d);
    r := Ok(Turn(State(cells, next), s.cat == next));
    assert WellFormed(g, cells);
    assert s.cat in Neighbours(g, s.cat) ==> false;
    if |path| > 0 {
      assert path[0] in PossibleMoves(g, cells, s.cat);
    }
  }

  /** On the standard empty board the cat, from its first cell in the middle,
      has a shortest escape of five steps. */
  method CentreEscape() returns (path: seq<Pos>)
    ensures path != [] && IsShortestEscape(Standard, EmptyBoard(Standard), CatStart(Standard), path)
    ensures |path| == 5
  {
    var b := EmptyBoard(Standard);
    var cat := CatStart(Standard);
    assert cat == Pos(5, 5);
    EmptyBoardNoneSet(Standard);
    path := ShortestPathToEdge(Standard, b, cat);
  }

  lemma EmptyBoardNoneSet(g: Dims)
    ensures NoneSet(g, EmptyBoard(g))
  {
    forall p | IsValidPosition(g, p)
      ensures IsFree(EmptyBoard(g), p)
    {
      WellFormedInBoard(g, EmptyBoard(g), p);
    }
  }
}
