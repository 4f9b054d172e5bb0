/**
 * The Connect Four game: a board held in a 2-D array that moves update in place,
 * the player to move, the game-over flag, and the win tally kept across games.
 * The ghost field Game.cells mirrors the array as a Board.Grid, so that every
 * contract is stated with the definitions of module Board.
 */
module Connect4 {
  import opened Board

  datatype Option<T> = None | Some(value: T)

  /** Wins per player slot, shared by all the games of a session. */
  class Scores {
    var player1wins: nat
    var player2wins: nat

    constructor ()
      ensures player1wins == 0 && player2wins == 0
    {
      player1wins, player2wins := 0, 0;
    }

    /** Adds one win to the slot of player p. */
    method RecordWin(p: Player)
      modifies this
      ensures player1wins == old(player1wins) + (if p == First then 1 else 0)
      ensures player2wins == old(player2wins) + (if p == Second then 1 else 0)
    {
      if p == First {
        player1wins := player1wins + 1;
      } else {
        player2wins := player2wins + 1;
      }
    }
  }

  class Game {
    const width: nat
    const height: nat
    const board: array2<Cell>
    const scores: Scores
    var currPlayer: Player
    var gameOver: bool

    /** The board has height rows of width columns. */
    predicate WellSized() {
      board.Length0 == height && board.Length1 == width
    }

    /** The board as a value. */
    ghost var cells: Grid

    /** cells mirrors the board array. */
    ghost predicate Synced()
      reads this, board
    {
      && WellSized()
      && |cells| == height && (height > 0 ==> Width(cells) == width)
      && forall y, x :: 0 <= y < height && 0 <= x < width ==> cells[y][x] == board[y, x]
    }

    /** The game invariant: the board is what play from an empty board leaves,
        for the current player and the game-over flag. */
    ghost predicate Valid()
      reads this, board
    {
      Synced() && Consistent(cells, currPlayer, gameOver)
    }

    /** A new game on an empty board, First to move. */
    constructor (width: nat, height: nat, scores: Scores)
      ensures Valid() && fresh(board)
      ensures this.width == width && this.height == height && this.scores == scores
      ensures Blank(cells) && currPlayer == First && !gameOver
    {
      this.width := width;
      this.height := height;
      this.scores := scores;
      var b := MakeBoard(height, width);
      board := b;
      currPlayer := First;
      gameOver := false;
      cells := EmptyGrid(height, width);
      new;
      BlankIsConsistent(cells);
    }

    /** Allocates height rows of width empty cells, one row after the other. */
    static method MakeBoard(height: nat, width: nat) returns (b: array2<Cell>)
      ensures fresh(b) && b.Length0 == height && b.Length1 == width
      ensures forall y, x :: 0 <= y < height && 0 <= x < width ==> b[y, x] == Empty
    {
      b := new Cell[height, width];
      for y := 0 to height
        invariant forall r, c :: 0 <= r < y && 0 <= c < width ==> b[r, c] == Empty
      {
        for x := 0 to width
          invariant forall r, c :: 0 <= r < y && 0 <= c < width ==> b[r, c] == Empty
          invariant forall c :: 0 <= c < x ==> b[y, c] == Empty
        {
          b[y, x] := Empty;
        }
      }
    }

    /** The row where a piece dropped into column x lands, scanning from the
        bottom row up; None when the column is full. */
    method FindSpotForCol(x: int) returns (spot: Option<nat>)
      requires Synced() && 0 <= x < width
      ensures spot.Some? ==> IsSpot(cells, x, spot.value)
      ensures spot.None? <==> ColumnFull(cells, x)
    {
      var y := height - 1;
      while y >= 0
        invariant -1 <= y < height
        invariant forall r :: y < r < height ==> board[r, x] != Empty
      {
        if board[y, x] == Empty {
          return Some(y);
        }
        y := y - 1;
      }
      return None;
    }

    /** Puts the current player's piece in cell (y, x). */
    method DropPiece(y: int, x: int)
      requires Synced() && 0 <= y < height && 0 <= x < width
      modifies this`cells, board
      ensures Synced() && cells == Place(old(cells), y, x, currPlayer)
    {
      board[y, x] := Piece(currPlayer);
      cells := Place(cells, y, x, currPlayer);
    }

    /** Sets the game-over flag; announcing the result is left to the display. */
    method EndGame()
      modifies this`gameOver
      ensures gameOver
    {
      gameOver := true;
    }

    /** Plays the current player's piece into column x: ignored once the game is
        over or when the column is full, otherwise played as Move describes. */
    method HandleClick(x: int)
      requires Valid() && 0 <= x < width
      modifies this, board, scores
      ensures Valid()
      ensures old(gameOver) || ColumnFull(old(cells), x) ==>
        && cells == old(cells)
        && currPlayer == old(currPlayer) && gameOver == old(gameOver)
        && scores.player1wins == old(scores.player1wins) && scores.player2wins == old(scores.player2wins)
      ensures !old(gameOver) && !ColumnFull(old(cells), x) ==>
        exists y :: IsSpot(old(cells), x, y) && Moved(old(cells), y, x, old(currPlayer), old(scores.player1wins), old(scores.player2wins))
    {
      if gameOver {
        return;
      }
      var spot := FindSpotForCol(x);
      if spot == None {
        return;
      }
      Move(spot.value, x);
    }

    /** The state after the move of player p into cell (y, x) of board g, with the
        given scores before it: the piece is on the board; a win by p ends the game
        and adds one to p's score; a full board ends the game with the scores
        unchanged; otherwise the turn passes to the other player. */
    ghost predicate Moved(g: Grid, y: int, x: int, p: Player, wins1: nat, wins2: nat)
      reads this, board, scores
      requires InBounds(g, y, x)
    {
      var g' := Place(g, y, x, p);
      var won := Wins(g', p);
      && cells == g'
      && gameOver == (won || Full(g'))
      && currPlayer == (if gameOver then p else p.Other())
      && scores.player1wins == wins1 + (if won && p == First then 1 else 0)
      && scores.player2wins == wins2 + (if won && p == Second then 1 else 0)
    }

    /** The body of a click that has found the landing row y of column x. */
    method Move(y: int, x: int)
      requires Valid() && !gameOver && IsSpot(cells, x, y)
      modifies this, board, scores
      ensures Valid()
      ensures Moved(old(cells), y, x, old(currPlayer), old(scores.player1wins), old(scores.player2wins))
    {
      ghost var p, g := currPlayer, Place(cells, y, x, currPlayer);
      MoveKeepsConsistent(cells, x, y, p);
      DropPiece(y, x);
      assert cells == g;

      var won := CheckForWin();
      if won {
        scores.RecordWin(currPlayer);
        EndGame();
      } else if BoardFilled() {
        EndGame();
      } else {
        currPlayer := currPlayer.Other();
      }
      assert Consistent(cells, currPlayer, gameOver);
      assert cells == g && gameOver == (Wins(g, p) || Full(g));
    }

    /** The four listed cells are all on the board and all hold the current player's piece. */
    function Win(run: seq<(int, int)>): (r: bool)
      reads this, board
      requires Synced()
      ensures r <==> AllOwned(cells, currPlayer, run)
    {
      forall i | 0 <= i < |run| ::
        0 <= run[i].0 < height && 0 <= run[i].1 < width && board[run[i].0, run[i].1] == Piece(currPlayer)
    }

    /** Every cell of the board holds a piece. */
    function BoardFilled(): (r: bool)
      reads this, board
      requires Synced()
      ensures r <==> Full(cells)
    {
      forall y, x | 0 <= y < height && 0 <= x < width :: board[y, x] != Empty
    }

    /** Some run anchored at (y, x) is all the current player's: probes the
        horizontal, vertical and two diagonal runs in turn. */
    function WinStartsAt(y: int, x: int): (r: bool)
      reads this, board
      requires Synced()
      ensures r <==> RunFrom(cells, currPlayer, y, x)
    {
      Win(Run(y, x, Horizontal)) || Win(Run(y, x, Vertical)) || Win(Run(y, x, DownRight)) || Win(Run(y, x, DownLeft))
    }

    /** Whether the current player has four in a row: probes, from every cell in
        row-major order, the horizontal, vertical and two diagonal runs forward. */
    method CheckForWin() returns (won: bool)
      requires Synced()
      ensures won <==> Wins(cells, currPlayer)
    {
      for y := 0 to height
        invariant forall r, c :: 0 <= r < y && 0 <= c < width ==> !RunFrom(cells, currPlayer, r, c)
      {
        for x := 0 to width
          invariant forall r, c :: 0 <= r < y && 0 <= c < width ==> !RunFrom(cells, currPlayer, r, c)
          invariant forall c :: 0 <= c < x ==> !RunFrom(cells, currPlayer, y, c)
        {
          if WinStartsAt(y, x) {
            return true;
          }
          assert !RunFrom(cells, currPlayer, y, x);
        }
      }
      forall r, c, d ensures !AllOwned(cells, currPlayer, Run(r, c, d)) {
        assert Run(r, c, d)[0] == (r, c);
        if 0 <= r < height && 0 <= c < width {
          assert !RunFrom(cells, currPlayer, r, c);
        }
      }
      return false;
    }
  }
}
