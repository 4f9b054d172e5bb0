# Connect Four rules engine in Dafny

This project models the rules engine of a browser Connect Four game: the `Game` class of
`connect4.js`. Two players take turns dropping pieces into the columns of a `height × width`
board. A piece falls to the lowest empty cell of its column. The game ends when the player who
just moved has four in a row (horizontally, vertically or diagonally), or when the board is full.
A win adds one to that player's slot in a tally kept across games.

- `board.dfy`, module `Board`: the board as a value.
  - A `Grid` holds rows of `Cell`s, indexed `g[y][x]`. Row 0 is the top row.
  - Players are the two slots `First` and `Second`. The source only compares players by identity.
  - It defines the four-cell runs the win scan probes, plus `Wins`, `Full` and the gravity invariant.
  - It proves what one placed piece does to all of these.
- `connect4.dfy`, module `Connect4`: the game itself.
  - Class `Scores` holds the two win counters.
  - Class `Game` keeps the board in an `array2<Cell>` that moves update in place, along with
    `currPlayer` and `gameOver`.
  - A ghost field `cells` mirrors the array. `Valid()` ties the two together.
  - `Valid()` also carries the game invariant `Board.Consistent`:
    - the pieces obey gravity;
    - the player who did not just move has no win;
    - the game is over exactly when the last mover won or the board is full (a board with no
      cells counts as full without ending the game);
    - the piece counts show alternating play that started with `First`.

The code reports no errors: a click after the game is over or on a full column returns without
effect, and the `Game` constructor accepts any dimensions. The model does the same:
- such a click is a no-op whose postcondition says that nothing changed;
- the `Game` constructor accepts any dimensions;
- the only check that a dimension is at least 4 sits in the form handler `changeSize`, which is
  not part of this model.

## Model

| member | source | states |
|---|---|---|
| `Board.Player.Other` | connect4.js:178 | the player a turn passes to is the other slot, never the same one |
| `Board.Run` | connect4.js:203-206 | a run is the anchor and the next three cells in one of the four forward directions (0,+1), (+1,0), (+1,+1), (+1,-1) |
| `Board.Place` | connect4.js:151 | placing a piece sets exactly cell (y, x) to that player's piece and leaves every other cell and the board's size unchanged |
| `Board.EmptyGrid` | connect4.js:73-77 | the fresh board has `height` rows of `width` cells, all empty |
| `Board.BlankBoard` | connect4.js:39-47 | an empty board obeys gravity, holds no win and no piece, and is full only if it has no cells |
| `Board.SpotIsTopOfStack` | connect4.js:110-117 | under gravity, the landing row is the lowest empty cell and every cell above it is empty |
| `Board.PlaceKeepsGravity` | connect4.js:145-151 | dropping into the landing row keeps every column contiguous from the bottom |
| `Board.PlaceKeepsOtherRuns` | connect4.js:189-196 | filling an empty cell with p's piece neither completes nor breaks any run of the other player |
| `Board.PlaceKeepsOtherWins` | connect4.js:151-155 | a move never creates or removes a win of the other player |
| `Board.NewWinContainsPiece` | connect4.js:183-214 | on a board with no win for p, every winning run of p after p's move passes through the new piece |
| `Board.LocalScanFindsNewWin` | connect4.js:183-214 | on a board with no win for p, p has won after the move iff some run through the new piece is all p's |
| `Board.PlaceOwned` | connect4.js:151 | a move adds exactly the new cell to the mover's pieces and leaves the other player's pieces unchanged |
| `Board.PlaceAlternates` | connect4.js:151-178 | if the counts show it is p's turn before p's move, they show it is the other player's turn after it |
| `Board.WinNeedsFourPieces` | connect4.js:199-211 | a win needs at least four of the winner's pieces on the board |
| `Board.RunCellsDistinct` | connect4.js:203-206 | the four cells of every run are pairwise different |
| `Board.BlankIsConsistent` | connect4.js:43-47 | a new game with `First` to move satisfies the game invariant |
| `Board.MoveKeepsConsistent` | connect4.js:151-178 | a legal move keeps the game invariant: it ends the game, without changing player, on a win or a full board, and otherwise passes the turn |
| `Connect4.Scores.constructor` | connect4.js:24-26 | both win counters start at 0 |
| `Connect4.Scores.RecordWin` | connect4.js:156-163 | a win adds one to `player1wins` if the mover is the first player, otherwise to `player2wins`, and changes nothing else |
| `Connect4.Game.constructor` | connect4.js:39-47 | a new game has an empty `height × width` board, `First` to move, `gameOver` false, and satisfies the invariant |
| `Connect4.Game.MakeBoard` | connect4.js:73-77 | allocates `height` rows of `width` cells, row by row, every cell empty |
| `Connect4.Game.FindSpotForCol` | connect4.js:110-117 | returns the largest row `y` whose cell in column x is empty, with all cells below it occupied; returns None iff every cell of the column is occupied |
| `Connect4.Game.DropPiece` | connect4.js:151 | writes the current player's piece into cell (y, x), and the board becomes `Place` of the old board |
| `Connect4.Game.EndGame` | connect4.js:132-135 | sets `gameOver` |
| `Connect4.Game.HandleClick` | connect4.js:139-179 | after game over or on a full column, board, player, flag and scores are unchanged; otherwise the state is `Moved` at the landing row; the invariant is kept |
| `Connect4.Game.Move` | connect4.js:150-178 | the piece lands; `gameOver` becomes "the mover won or the board is full"; on a win exactly the mover's score goes up by one and the player is kept; on a tie no score changes; otherwise the player swaps |
| `Connect4.Game.Win` | connect4.js:184-197 | true iff every listed cell is in bounds and holds the current player's piece |
| `Connect4.Game.WinStartsAt` | connect4.js:203-209 | true iff some direction gives a run from (y, x) that is all the current player's |
| `Connect4.Game.BoardFilled` | connect4.js:173 | true iff every cell holds a piece |
| `Connect4.Game.CheckForWin` | connect4.js:183-214 | true iff some anchor and direction give four in-bounds cells that all hold the current player's piece; false (the source's `undefined`) otherwise |

## Left out

- The DOM is not modelled:
  - `makeHtmlBoard` and `placeInTable` (building the table and drawing pieces);
  - the delayed `alert` in `endGame`;
  - the score display and the "secret" reveal after three wins;
  - the "versus" banner.
  These are presentation and have no state the rules read.
- `isColor`, `submitter` and `changeSize` are not modelled. They are form handling and colour
  validation that rely on the browser's CSS parser. Two consequences follow:
  - the model takes `width` and `height` as naturals in that order and does not reproduce the
    handlers passing the row count as the width;
  - the model does not reproduce the handlers passing dimensions as strings.
- Players are their slots, `First` and `Second`. Their colour is a display attribute that the
  rules never read.
- `Connect4.Game.HandleClick` takes the column as an integer with `0 <= x < width`. Reading it from
  the clicked element's id is not modelled. That id can be the header row's own, which gives a
  non-number.
- The commented-out procedural version at the end of the file is not modelled. It duplicates
  the class.
- `Connect4.Game.HandleClick` and `Connect4.Game.Move` return nothing, as in the source. The
  result of a move is read from the new state.
