# Hex cat game engine in Dafny

This project models the game engine of a "trap the cat" browser game. The
game is played on an 11 × 11 grid of hexagons, with odd rows shifted half a
cell to the right. When the game starts, up to 20 rocks are scattered over
the board. Each turn works like this:

- The player blocks one free cell.
- The cat searches for a shortest way off the board and takes the first step
  of it.
- If no way off exists, the cat moves to a random free neighbour.
- If the cat cannot move at all, the player has trapped it ("Well done!").

Everything is written as pure functions and methods on immutable values.

- `Hex` covers the grid geometry: `isValidPosition`, `getNeighbours` and
  `isBorderCell`. It also holds the edge distance used to bound the search.
- `Board` covers the cells and the board operations: `getCell`,
  `updateCell`, `getPossibleMoves`, `getRandomMove`, and the board set-up the
  constructor does (empty board, rock loop).
- `Draws` models `Math.random()`. A draw is a fraction `num/den` in [0, 1),
  and `Math.floor(r * n)` becomes `num * n / den`.
- `Walks` defines escape walks and their lengths. An escape walk steps from
  the cat through neighbouring unset cells and ends at the first border cell
  it reaches.
- `Search` holds `searchShortestPathToEdge` and its proof.
- `Game` holds the component state, the constructor and `handleClick`.

`Seqs` holds the order-preserving `filter` and `Distinct`.

The search is written as an A* search, but it never gives a node a usable
distance or `f` value. Both fields are `undefined` on the start node. Every
other node gets its parent's distance plus one, which is `NaN` (first
`undefined + 1`, then `NaN + 1`), and an `f` computed from it, also `NaN`. So every comparison on them is false. As a
result:

- The open list is always taken from the front.
- Every node keeps the parent that discovered it first.
- The code runs as a breadth-first search, and the model is one.

The start node is closed before any neighbour is looked at, and it is never
marked visited. The border test is made when a node is taken off the open
list. Because of that, a cat that already stands on a border cell gets an
empty path and then makes a random move; the game has no escape outcome.

The proofs show the following about the search:

- An empty path means one of two things: the cat stands on the border, or no
  escape walk exists.
- Any other result is an escape walk that no other escape walk is shorter
  than.
- No escape walk is shorter than the start's distance to the edge.
- On a board with nothing set, the shortest escape walk has exactly that
  length. From the centre of the standard board this is 5 steps.

The proofs show the following about the game:

- The cat's cell is free at the start of a game.
- Every turn keeps the cat's cell free.

## Model

| member | source | states |
|---|---|---|
| `Hex.IsValidPosition` | src/App.tsx:162-164 | a position is in the play area exactly when its column is in `0 .. width-1` and its row in `0 .. height-1` |
| `Hex.IsBorderCell` | src/App.tsx:212-217 | a position is a border cell exactly when it is in the first or last column or the first or last row |
| `Hex.BorderWhereNeighbourMissing` | src/App.tsx:212-217 | a cell of the play area is a border cell exactly when `getNeighbours` lists fewer than six cells for it, that is, when the cat could step off the board from it |
| `Hex.Neighbours` | src/App.tsx:166-188 | at most six cells, no repeats, all inside the play area, none equal to `p`, each at most one row and one column away; a cell is listed exactly when it is in the play area and adjacent to `p` by the row-parity offset rule |
| `Hex.CandidatesAreAdjacent` | src/App.tsx:168-186 | the even-row and odd-row six-entry tables are exactly the cells adjacent by the offset rule (left/right on the same row; straight up/down or one column towards the row's lean) |
| `Hex.AdjacentSymmetric` | src/App.tsx:168-186 | adjacency by the offset rule is symmetric |
| `Hex.NeighboursSymmetric` | src/App.tsx:166-188 | within the play area, `q` is a neighbour of `p` exactly when `p` is a neighbour of `q` |
| `Hex.EdgeDistanceZeroOnBorder` | src/App.tsx:212-217 | inside the play area the edge distance is never negative and is zero exactly on the cells `isBorderCell` accepts |
| `Hex.EdgeDistanceStep` | src/App.tsx:166-188 | one step to a neighbour changes the edge distance by at most one |
| `Draws.Scale` | src/App.tsx:150-151 | the index is `Math.floor(random * n)` computed in exact arithmetic: the largest `r` with `r * den <= num * n`; it lies in `0 .. n-1` for positive `n`, and a zero draw picks index 0 |
| `Board.GetCell` | src/App.tsx:190-196 | succeeds exactly for a position in the play area, returning the cell stored for that position, set exactly when it is not free; otherwise fails with the out-of-area error carrying the position |
| `Board.UpdateCell` | src/App.tsx:280-283 | on a board whose cells store their own coordinates, only the cell at the new cell's position changes, it becomes the new cell, and the coordinates stay right |
| `Board.PossibleMoves` | src/App.tsx:198-202 | at most six positions, no repeats; a position is a possible move exactly when it is a neighbour of the cat and its cell is unset |
| `Board.RandomMove` | src/App.tsx:204-210 | with no possible move the cat stays where it is; otherwise the result is one of the possible moves |
| `Board.EmptyBoard` | src/App.tsx:141-147 | a board of the right shape whose cells store their coordinates, with no cell set |
| `Board.RockSpot` | src/App.tsx:150-151 | the drawn column and row always lie in the play area |
| `Board.PlaceRock` | src/App.tsx:150-158 | one attempt of the rock loop: only the drawn cell may change; afterwards it is set exactly when it was set before or lies outside the cat's row and column; set cells stay set and a newly set cell is never in the cat's row or column |
| `Board.PlaceRocks` | src/App.tsx:149-159 | the rock loop keeps the board well formed, never clears a cell, and never sets a cell in the cat's row or column |
| `Walks.EscapeWalkLength` | src/App.tsx:212-217 | every escape walk is at least as long as the start's distance to the edge |
| `Walks.SuffixReachesEdge` | src/App.tsx:212-217 | from each cell of an escape walk, the rest of the walk is at least that cell's edge distance long |
| `Walks.EmptyBoardEscape` | src/App.tsx:166-188 | on a board with no set cell, a non-border start has an escape walk exactly as long as its edge distance (straight along its row or column) |
| `Walks.ShortestLength` | src/App.tsx:221-278 | a shortest escape walk is never shorter than the edge distance, and on a board with no set cell its length equals it |
| `Search.ExploredWalksAreLong` | src/App.tsx:245-274 | once every node closer than `bound` has been expanded without meeting the border, every escape walk has at least `bound` steps |
| `Search.Expand` | src/App.tsx:245-274 | one expansion step takes the head of the open list, closes it, and keeps the search invariant; the rest of the old open list stays at the front, with new nodes only appended (FIFO); every existing parent link is kept and each new node's parent is the node being expanded (first discoverer); the invariant covers no repeats on the open list, each discovered node either closed or waiting, open nodes in two consecutive layers in order, parent links one hop apart, and every unset neighbour of a closed node discovered |
| `Search.TracePath` | src/App.tsx:236-242 | following the parent links back from a border node gives, reversed, the chain of parent links from the start to that node: the first cell's parent is the start, each later cell's parent is the cell before it, and the last cell is the border node; this chain is an escape walk whose length is the node's hop distance and which does not contain the start |
| `Search.FoundShortest` | src/App.tsx:235-243 | the walk traced from the first border node taken off the open list is a shortest escape walk |
| `Search.NoEscape` | src/App.tsx:227-277 | when the open list runs out without reaching the border, no escape walk exists |
| `Search.Found` | src/App.tsx:235-243 | the border branch of the loop: the start itself gives the empty path; any other border node gives a shortest escape walk not containing the start |
| `Search.ShortestPathToEdge` | src/App.tsx:221-278 | empty when the start is on the border; from any other start, empty exactly when no escape walk exists; a non-empty result is a shortest escape walk, avoids the start, and is at least the edge distance long, exactly that long on a board with no set cell |
| `Game.CatStart` | src/App.tsx:134-137 | the cat starts inside the play area at the middle column and row, rounded down |
| `Game.NewGame` | src/App.tsx:131-160 | a new game satisfies the game invariant: a well-formed board with the cat on a free cell; the cat is at the middle, and no set cell shares the cat's row or column |
| `Game.HandleClick` | src/App.tsx:285-310 | fails exactly for a click outside the play area, with the out-of-area error; a click on a set cell or on the cat changes nothing and shows no alert; otherwise only the clicked cell changes and becomes set, the cat stays or moves to a possible move, "Well done" is shown exactly when the cat stays and exactly when it has no possible move, a cat off the border that can escape steps onto the first cell of a shortest escape walk, and the game invariant holds afterwards |
| `Game.CentreEscape` | src/App.tsx:221-278 | on the standard 11 × 11 empty board, the cat's shortest escape from its first cell (5, 5) has 5 steps |
| `Seqs.Filter` | src/App.tsx:187 | the filtered sequence is no longer than the original; each element occurs in it exactly as often as in the original when it passes the test and not at all otherwise; it has no repeats when the original has none |
| `Seqs.FilterAppend` | src/App.tsx:187 | filtering a concatenation gives the filtered parts in the same order, so the kept elements keep their original order |

## Left out

- Rendering is not modelled: `toScreen`, `Circle`, `Cat`, `ImageDefs`, `render`, the screen constants and the CSS classes are presentation only.
- Rock images are not modelled. The SVG files loaded through `require`, the `image` field of a cell, and the third random draw that picks a rock image only choose a picture.
- The `alert` call is not modelled; it becomes the `wellDone` flag of a turn.
- `setState` and React's re-rendering are not modelled. A turn returns the next state instead.
- The heuristic `h` is not modelled. It is computed with `gridWidth` for both axes and with a lexicographic `sort()`. It only ever feeds the `f` values, which are `NaN`.
- The A* bookkeeping on `undefined` and `NaN` values is not modelled. The `f` and `shortestDistance` fields are `undefined` on the start node and `NaN` on every other node, and comparisons on them are false, so the search is modelled as the breadth-first search it performs.
- There is no status field and no trapped or escaped terminal state: the code shows an alert and keeps playing.
- `Math.random()` is not modelled as a random source. Each draw is an input fraction `num/den` below 1.
- Draws.Scale: the floating-point rounding of `Math.random() * n` is not modelled. The product is taken exactly, so for a few draws just below a multiple of `1/n` the index is one less than the one JavaScript computes. Every index in `0 .. n-1` is still reached by some draw.
- Board.RandomMove: does not say which possible move a given draw picks, only that the move is possible.
- Search.ShortestPathToEdge: does not say which of several equally short escape walks is returned (the one the neighbour order discovers first).
- Board.PlaceRocks: does not say which cells receive rocks or how many (at most 20). Each attempt is described exactly by `Board.PlaceRock`.
- Game.NewGame: does not bound the number of rocks.
