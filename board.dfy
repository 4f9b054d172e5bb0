/**
 * The Connect Four board as a value: a grid of cells indexed board[y][x], with
 * row 0 at the top and row height-1 at the bottom, the four-in-a-row runs the
 * win scan probes, and the facts about placing a piece that the game relies on.
 */
module Board {

  /** The two sides of a game. The game only ever compares players by identity,
      so a player is its slot: the first or the second one given to the game. */
  datatype Player = First | Second {
    function Other(): (q: Player)
      ensures q != this
    {
      if this == First then Second else First
    }
  }

  /** A cell is empty or holds one player's piece. */
  datatype Cell = Empty | Piece(owner: Player)

  /** A run probes four cells from an anchor, stepping forward in one direction. */
  datatype Direction = Horizontal | Vertical | DownRight | DownLeft {
    function DY(): int {
      if this == Horizontal then 0 else 1
    }
    function DX(): int {
      match this
      case Horizontal => 1
      case Vertical => 0
      case DownRight => 1
      case DownLeft => -1
    }
  }

  function Width(g: seq<seq<Cell>>): nat {
    if |g| == 0 then 0 else |g[0]|
  }

  predicate Rectangular(g: seq<seq<Cell>>) {
    forall y :: 0 <= y < |g| ==> |g[y]| == Width(g)
  }

  /** A board: rows of equal length. */
  type Grid = g: seq<seq<Cell>> | Rectangular(g) witness []

  predicate InBounds(g: Grid, y: int, x: int) {
    0 <= y < |g| && 0 <= x < Width(g)
  }

  /** Cell (y, x) exists and holds a piece of p. */
  predicate Holds(g: Grid, p: Player, y: int, x: int) {
    InBounds(g, y, x) && g[y][x] == Piece(p)
  }

  /** The four coordinates of the run anchored at (y, x) in direction d. */
  function Run(y: int, x: int, d: Direction): (cells: seq<(int, int)>)
    ensures |cells| == 4
    ensures forall k :: 0 <= k < 4 ==> cells[k] == (y + k * d.DY(), x + k * d.DX())
  {
    [(y, x), (y + d.DY(), x + d.DX()), (y + 2 * d.DY(), x + 2 * d.DX()), (y + 3 * d.DY(), x + 3 * d.DX())]
  }

  /** Every listed coordinate is on the board and holds a piece of p. */
  predicate AllOwned(g: Grid, p: Player, cells: seq<(int, int)>) {
    forall i :: 0 <= i < |cells| ==> Holds(g, p, cells[i].0, cells[i].1)
  }

  /** Some run anchored at (y, x) is all p's. */
  ghost predicate RunFrom(g: Grid, p: Player, y: int, x: int) {
    exists d :: AllOwned(g, p, Run(y, x, d))
  }

  /** p has four in a row somewhere: some anchor and direction give a run all of p. */
  ghost predicate Wins(g: Grid, p: Player) {
    exists y, x, d :: AllOwned(g, p, Run(y, x, d))
  }

  /** Every cell holds a piece. */
  predicate Full(g: Grid) {
    forall y, x | 0 <= y < |g| && 0 <= x < Width(g) :: g[y][x] != Empty
  }

  /** Every cell is empty. */
  predicate Blank(g: Grid) {
    forall y, x | 0 <= y < |g| && 0 <= x < Width(g) :: g[y][x] == Empty
  }

  /** Gravity: below an occupied cell every cell of its column is occupied, so the
      pieces of each column are contiguous from the bottom row up. */
  predicate Gravity(g: Grid) {
    forall y, y', x :: 0 <= y < y' < |g| && 0 <= x < Width(g) && g[y][x] != Empty ==> g[y'][x] != Empty
  }

  /** Column x has no empty cell. */
  predicate ColumnFull(g: Grid, x: int) {
    forall y | 0 <= y < |g| && 0 <= x < Width(g) :: g[y][x] != Empty
  }

  /** Row y is where a piece dropped into column x lands: the lowest empty cell,
      every cell below it being occupied. */
  predicate IsSpot(g: Grid, x: int, y: int) {
    InBounds(g, y, x) && g[y][x] == Empty && forall r :: y < r < |g| ==> g[r][x] != Empty
  }

  /** height rows of width empty cells. */
  ghost function EmptyGrid(height: nat, width: nat): (g: Grid)
    ensures |g| == height && (height > 0 ==> Width(g) == width) && Blank(g)
  {
    seq(height, _ => seq(width, _ => Empty))
  }

  /** The board with p's piece put in cell (y, x). */
  function Place(g: Grid, y: int, x: int, p: Player): (g': Grid)
    requires InBounds(g, y, x)
    ensures |g'| == |g| && Width(g') == Width(g)
    ensures g'[y][x] == Piece(p)
    ensures forall r, c :: InBounds(g, r, c) && (r, c) != (y, x) ==> g'[r][c] == g[r][c]
  {
    g[y := g[y][x := Piece(p)]]
  }

  /** The coordinates of p's pieces. */
  ghost function Owned(g: Grid, p: Player): set<(int, int)> {
    set y, x | 0 <= y < |g| && 0 <= x < Width(g) && g[y][x] == Piece(p) :: (y, x)
  }

  /** Play so far has alternated starting with First and it is next's turn:
      First has as many pieces as Second when First is next, one more otherwise. */
  ghost predicate Alternated(g: Grid, next: Player) {
    |Owned(g, First)| == |Owned(g, Second)| + (if next == First then 0 else 1)
  }

  /** An empty board satisfies gravity, holds no win and no piece, and is not full
      unless it has no cells. */
  lemma BlankBoard(g: Grid)
    requires Blank(g)
    ensures Gravity(g)
    ensures !Wins(g, First) && !Wins(g, Second)
    ensures Owned(g, First) == {} && Owned(g, Second) == {}
    ensures Alternated(g, First)
    ensures Full(g) <==> |g| == 0 || Width(g) == 0
  {
    forall p, y, x, d ensures !AllOwned(g, p, Run(y, x, d)) {
      assert Run(y, x, d)[0] == (y, x);
      assert !Holds(g, p, y, x);
    }
    if |g| > 0 && Width(g) > 0 {
      assert g[0][0] == Empty;
    }
  }

  /** Under gravity the landing row is the top of the column's stack: every cell
      above it is empty too. */
  lemma SpotIsTopOfStack(g: Grid, x: int, y: int)
    requires Gravity(g) && IsSpot(g, x, y)
    ensures forall r :: 0 <= r <= y ==> g[r][x] == Empty
  {
  }

  /** Dropping into the landing row keeps gravity. */
  lemma PlaceKeepsGravity(g: Grid, x: int, y: int, p: Player)
    requires Gravity(g) && IsSpot(g, x, y)
    ensures Gravity(Place(g, y, x, p))
  {
  }

  /** Putting p's piece in an empty cell neither makes nor breaks a run of the other player. */
  lemma PlaceKeepsOtherRuns(g: Grid, y: int, x: int, p: Player, cells: seq<(int, int)>)
    requires InBounds(g, y, x) && g[y][x] == Empty
    ensures AllOwned(Place(g, y, x, p), p.Other(), cells) <==> AllOwned(g, p.Other(), cells)
  {
  }

  /** Hence a move never gives the other player a win nor takes one away. */
  lemma PlaceKeepsOtherWins(g: Grid, y: int, x: int, p: Player)
    requires InBounds(g, y, x) && g[y][x] == Empty
    ensures Wins(Place(g, y, x, p), p.Other()) <==> Wins(g, p.Other())
  {
  }

  /** A win that appears with a move goes through the piece just placed, so a scan of
      the runs through the new piece finds exactly the wins a whole-board rescan finds. */
  lemma NewWinContainsPiece(g: Grid, y: int, x: int, p: Player, ay: int, ax: int, d: Direction)
    requires InBounds(g, y, x) && !Wins(g, p)
    requires AllOwned(Place(g, y, x, p), p, Run(ay, ax, d))
    ensures (y, x) in Run(ay, ax, d)
  {
  }

  /** Hence, on a board where p had no win, p has won after the move exactly when
      some run through the new piece is all p's: scanning the runs through the new
      piece decides the game as well as a rescan of the whole board does. */
  lemma LocalScanFindsNewWin(g: Grid, y: int, x: int, p: Player)
    requires InBounds(g, y, x) && !Wins(g, p)
    ensures Wins(Place(g, y, x, p), p) <==>
      exists ay, ax, d :: (y, x) in Run(ay, ax, d) && AllOwned(Place(g, y, x, p), p, Run(ay, ax, d))
  {
    if Wins(Place(g, y, x, p), p) {
      var ay, ax, d :| AllOwned(Place(g, y, x, p), p, Run(ay, ax, d));
      NewWinContainsPiece(g, y, x, p, ay, ax, d);
    }
  }

  /** Putting p's piece in an empty cell adds exactly that cell to p's pieces and
      leaves the other player's pieces alone. */
  lemma PlaceOwned(g: Grid, y: int, x: int, p: Player)
    requires InBounds(g, y, x) && g[y][x] == Empty
    ensures Owned(Place(g, y, x, p), p) == Owned(g, p) + {(y, x)}
    ensures (y, x) !in Owned(g, p)
    ensures Owned(Place(g, y, x, p), p.Other()) == Owned(g, p.Other())
  {
  }

  /** A move by the player whose turn it is passes the turn to the other player. */
  lemma PlaceAlternates(g: Grid, y: int, x: int, p: Player)
    requires InBounds(g, y, x) && g[y][x] == Empty && Alternated(g, p)
    ensures Alternated(Place(g, y, x, p), p.Other())
  {
    PlaceOwned(g, y, x, p);
  }

  /** A win takes at least four pieces of the winner on the board. */
  lemma WinNeedsFourPieces(g: Grid, p: Player)
    requires Wins(g, p)
    ensures |Owned(g, p)| >= 4
  {
    var y, x, d :| AllOwned(g, p, Run(y, x, d));
    var cells := Run(y, x, d);
    forall i | 0 <= i < 4 ensures cells[i] in Owned(g, p) {
      var (r, c) := cells[i];
      assert Holds(g, p, r, c);
      assert g[r][c] == Piece(p);
    }
    var four := {cells[0], cells[1], cells[2], cells[3]};
    assert four <= Owned(g, p);
    assert Owned(g, p) == four + (Owned(g, p) - four);
    RunCellsDistinct(y, x, d);
  }

  /** The four cells of a run are four different cells. */
  lemma RunCellsDistinct(y: int, x: int, d: Direction)
    ensures var cells := Run(y, x, d); |{cells[0], cells[1], cells[2], cells[3]}| == 4
  {
  }

  /** What play from an empty board leaves behind, with curr the player to move
      (or, once the game is over, the player who moved last): the pieces obey
      gravity, the other player has no win, the game is over exactly when curr
      has won or the board (one with cells) is full, and the pieces alternate
      starting with First. */
  ghost predicate Consistent(g: Grid, curr: Player, over: bool) {
    && Gravity(g)
    && !Wins(g, curr.Other())
    && (over ==> Wins(g, curr) || Full(g))
    && (!over ==> !Wins(g, curr))
    && (!over && Full(g) ==> |g| == 0 || Width(g) == 0)
    && Alternated(g, if over then curr.Other() else curr)
  }

  /** A new game is consistent with First to move. */
  lemma BlankIsConsistent(g: Grid)
    requires Blank(g)
    ensures Consistent(g, First, false)
  {
    BlankBoard(g);
  }

  /** A move into the landing row of a game in progress keeps it consistent: the
      game ends, without a change of player, when the mover has won or the board
      is full, and otherwise passes to the other player. */
  lemma MoveKeepsConsistent(g: Grid, x: int, y: int, p: Player)
    requires Consistent(g, p, false) && IsSpot(g, x, y)
    ensures Wins(Place(g, y, x, p), p) || Full(Place(g, y, x, p)) ==> Consistent(Place(g, y, x, p), p, true)
    ensures !Wins(Place(g, y, x, p), p) && !Full(Place(g, y, x, p)) ==> Consistent(Place(g, y, x, p), p.Other(), false)
  {
    PlaceKeepsGravity(g, x, y, p);
    PlaceKeepsOtherWins(g, y, x, p);
    PlaceAlternates(g, y, x, p);
  }
}
