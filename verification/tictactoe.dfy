/** The console `TicTacToe` class: a grid, the player to move and whether the game is
    over. `handleMove` ignores a move after the game ends, off the grid or onto an occupied
    cell; otherwise it places the current player's symbol, ends the game if that makes
    five in a row (by the full-line scan), and hands the turn over. */
module TicTacToe {
  import opened Grid
  import opened Players
  import opened WinScan

  datatype Game = Game(board: Board, currentPlayer: char, gameOver: bool)

  /** The states `handleMove` keeps: a well-formed grid and a player symbol to move. */
  predicate GameInv(t: Game)
  {
    Valid(t.board) && IsPlayer(t.currentPlayer)
  }

  /** The constructor: an all-empty `n` by `m` grid, 'O' to move, the game running. */
  function NewGame(n: nat, m: nat): (t: Game)
    ensures GameInv(t) && t.board.rows == n && t.board.cols == m
    ensures forall r, c :: InBounds(t.board, r, c) ==> Get(t.board, r, c) == Empty
    ensures t.currentPlayer == 'O' && !t.gameOver
  {
    Game(NewBoard(n, m), 'O', false)
  }

  /** `handleMove` acts on (row, col) exactly when the game is running and the cell is an
      empty cell of the grid. */
  predicate Accepts(t: Game, row: int, col: int)
    requires Valid(t.board)
  {
    !t.gameOver && InBounds(t.board, row, col) && Get(t.board, row, col) == Empty
  }

  /** `handleMove(row, col)`. A refused move leaves the whole state as it was; an accepted
      one writes the mover's symbol into exactly (row, col), sets `gameOver` exactly when
      `checkWinner(row, col)` holds afterwards, and passes the turn even when the move
      ends the game. */
  function HandleMove(t: Game, row: int, col: int): (t': Game)
    requires Valid(t.board)
    ensures Valid(t'.board) && t'.board.rows == t.board.rows && t'.board.cols == t.board.cols
    ensures !Accepts(t, row, col) ==> t' == t
    ensures Accepts(t, row, col) ==>
      Get(t'.board, row, col) == t.currentPlayer &&
      (forall i, j :: InBounds(t.board, i, j) && (i != row || j != col) ==> Get(t'.board, i, j) == Get(t.board, i, j)) &&
      (t'.gameOver <==> exists l :: FiveOnLine(t'.board, row, col, l, t.currentPlayer)) &&
      t'.currentPlayer == Other(t.currentPlayer)
  {
    if t.gameOver || row < 0 || row >= t.board.rows || col < 0 || col >= t.board.cols ||
       Get(t.board, row, col) != Empty then
      t
    else
      var b := SetCell(t.board, row, col, t.currentPlayer);
      var over := CheckWinner(b, row, col);
      Game(b, if t.currentPlayer == 'O' then 'X' else 'O', over)
  }

  /** `handleMove` keeps the state well formed, and the player to move alternates
      between 'O' and 'X' on accepted moves. */
  lemma HandleMoveKeepsInv(t: Game, row: int, col: int)
    requires GameInv(t)
    ensures GameInv(HandleMove(t, row, col))
    ensures Accepts(t, row, col) ==> HandleMove(t, row, col).currentPlayer != t.currentPlayer
  {
  }

  /** An accepted move fills exactly one empty cell. */
  lemma AcceptedMoveFillsOneCell(t: Game, row: int, col: int)
    requires GameInv(t) && Accepts(t, row, col)
    ensures CountEmptyCells(HandleMove(t, row, col).board) == CountEmptyCells(t.board) - 1
  {
    PlaceCountsDown(t.board, row, col, t.currentPlayer);
  }

  /** Once the game is over, `handleMove` changes nothing. */
  lemma OverIsFrozen(t: Game, row: int, col: int)
    requires Valid(t.board) && t.gameOver
    ensures HandleMove(t, row, col) == t
  {
  }

  /** A game ends only on a move that makes five in a row for the player who made it. */
  lemma GameEndsOnFive(t: Game, row: int, col: int)
    requires Valid(t.board) && !t.gameOver && HandleMove(t, row, col).gameOver
    ensures Accepts(t, row, col)
    ensures exists l :: FiveOnLine(HandleMove(t, row, col).board, row, col, l, t.currentPlayer)
  {
  }

  /** A sequence of clicks handed to `handleMove` one after another. */
  function Play(t: Game, moves: seq<(int, int)>): (t': Game)
    requires Valid(t.board)
    ensures Valid(t'.board) && t'.board.rows == t.board.rows && t'.board.cols == t.board.cols
    decreases |moves|
  {
    if |moves| == 0 then t
    else Play(HandleMove(t, moves[0].0, moves[0].1), moves[1..])
  }

  /** Every state reached by play satisfies the invariant. */
  lemma {:induction false} PlayKeepsInv(t: Game, moves: seq<(int, int)>)
    requires GameInv(t)
    ensures GameInv(Play(t, moves))
    decreases |moves|
  {
    if |moves| > 0 {
      HandleMoveKeepsInv(t, moves[0].0, moves[0].1);
      PlayKeepsInv(HandleMove(t, moves[0].0, moves[0].1), moves[1..]);
    }
  }

  /** Once over, the game stays over and the grid is frozen whatever is clicked. */
  lemma {:induction false} FrozenAfterGameOver(t: Game, moves: seq<(int, int)>)
    requires Valid(t.board) && t.gameOver
    ensures Play(t, moves) == t
    decreases |moves|
  {
    if |moves| > 0 {
      OverIsFrozen(t, moves[0].0, moves[0].1);
      FrozenAfterGameOver(t, moves[1..]);
    }
  }

  /** Play never empties a filled cell: every stone stays where it was, the number of
      empty cells never grows, and `gameOver` never reverts. */
  lemma {:induction false} PlayOnlyFills(t: Game, moves: seq<(int, int)>)
    requires GameInv(t)
    ensures forall i, j :: InBounds(t.board, i, j) && Get(t.board, i, j) != Empty ==>
      Get(Play(t, moves).board, i, j) == Get(t.board, i, j)
    ensures CountEmptyCells(Play(t, moves).board) <= CountEmptyCells(t.board)
    ensures t.gameOver ==> Play(t, moves).gameOver
    decreases |moves|
  {
    if |moves| > 0 {
      var t1 := HandleMove(t, moves[0].0, moves[0].1);
      HandleMoveKeepsInv(t, moves[0].0, moves[0].1);
      if Accepts(t, moves[0].0, moves[0].1) {
        AcceptedMoveFillsOneCell(t, moves[0].0, moves[0].1);
      }
      PlayOnlyFills(t1, moves[1..]);
      forall i, j | InBounds(t.board, i, j) && Get(t.board, i, j) != Empty
        ensures Get(Play(t, moves).board, i, j) == Get(t.board, i, j)
      {
        assert Get(t1.board, i, j) == Get(t.board, i, j);
      }
    }
  }
}
