/** The discrete turn logic of the game loop: whose turn it is, whether the
    game is over, and who won. Clicks arrive as an in-range (row, col). */
module Controller {
  import opened Rules
  import opened Search
  import opened TicTacToe

  /** The result shown once the game is over. */
  datatype Outcome = Pending | Won(player: int) | Draw

  class Game {
    const board: Board
    var player: int
    var gameOver: bool
    var winner: Outcome

    /** The state the controller keeps between events: the board holds only
        cell states, the human is never behind and at most one mark ahead,
        a game in progress has no line and an empty cell, and a finished game
        records the line or the full board that ended it. */
    ghost predicate Valid()
      reads this, board.cells
    {
      board.Valid() &&
      var b := board.Cells();
      var lead := Count(b, HUMAN) - Count(b, COMPUTER);
      Marks(b) &&
      (player == HUMAN || player == COMPUTER) &&
      (lead == 0 || lead == 1) &&
      !(Wins(b, HUMAN) && Wins(b, COMPUTER)) &&
      (!gameOver ==>
         winner == Pending && !Wins(b, HUMAN) && !Wins(b, COMPUTER) && !Full(b) &&
         (player == HUMAN <==> lead == 0)) &&
      (gameOver ==> winner != Pending) &&
      (winner.Won? ==> (winner.player == HUMAN || winner.player == COMPUTER) && Wins(b, winner.player)) &&
      (winner == Draw ==> Full(b) && !Wins(b, HUMAN) && !Wins(b, COMPUTER))
    }

    /** A new game on an empty board, the human to move. */
    constructor ()
      ensures Valid() && fresh(board) && fresh(board.cells)
      ensures board.Cells() == EmptyBoard
      ensures player == HUMAN && !gameOver && winner == Pending
    {
      board := new Board();
      player := HUMAN;
      gameOver := false;
      winner := Pending;
      new;
      EmptyBoardIsFresh();
    }

    /** The restart key: only a finished game is cleared and handed back to the human. */
    method Restart()
      requires Valid()
      modifies this, board.cells
      ensures Valid()
      ensures if old(gameOver) then
                board.Cells() == EmptyBoard && player == HUMAN && !gameOver && winner == Pending
              else
                board.Cells() == old(board.Cells()) &&
                player == old(player) && gameOver == old(gameOver) && winner == old(winner)
    {
      if gameOver {
        board.ResetGame();
        gameOver := false;
        winner := Pending;
        player := HUMAN;
        EmptyBoardIsFresh();
      }
    }

    /** A click on (row, col): on the human's turn and an empty cell, the human
        mark is placed; then a human line ends the game as a human win, else a
        full board ends it as a draw, else the turn passes to the computer. Any
        other click changes nothing. */
    method ClickSquare(row: nat, col: nat)
      requires Valid() && row < ROWS && col < COLS
      modifies this, board.cells
      ensures Valid()
      ensures var b := old(board.Cells());
              if old(!gameOver && player == HUMAN) && b[At(row, col)] == EMPTY then
                var b' := b[At(row, col) := HUMAN];
                board.Cells() == b' &&
                if Wins(b', HUMAN) then gameOver && winner == Won(HUMAN) && player == HUMAN
                else if Full(b') then gameOver && winner == Draw && player == HUMAN
                else !gameOver && winner == Pending && player == COMPUTER
              else
                board.Cells() == b &&
                player == old(player) && gameOver == old(gameOver) && winner == old(winner)
    {
      if !gameOver && player == HUMAN {
        if board.AvailableSquare(row, col) {
          ghost var b := board.Cells();
          var k := At(row, col);
          board.MarkSquare(row, col, player);
          CountUpdate(b, k, HUMAN, HUMAN);
          CountUpdate(b, k, HUMAN, COMPUTER);
          MarkMakesNoLineForOther(b, k, HUMAN, COMPUTER);
          var won := board.CheckWin(player);
          if won {
            gameOver := true;
            winner := Won(player);
          } else {
            var full := board.IsBoardFull();
            if full {
              gameOver := true;
              winner := Draw;
            } else {
              player := COMPUTER;
            }
          }
        }
      }
    }

    /** The computer's turn: the search plays its move; then a computer line
        ends the game as a computer win, else a full board ends it as a draw,
        else the turn passes to the human. Outside the computer's turn nothing
        changes. In a valid game the search always finds a move. */
    method ComputerTurn()
      requires Valid()
      modifies this, board.cells
      ensures Valid()
      ensures var b := old(board.Cells());
              if old(!gameOver && player == COMPUTER) then
                Choose(b).Some? &&
                var b' := b[Choose(b).value := COMPUTER];
                board.Cells() == b' &&
                if Wins(b', COMPUTER) then gameOver && winner == Won(COMPUTER) && player == COMPUTER
                else if Full(b') then gameOver && winner == Draw && player == COMPUTER
                else !gameOver && winner == Pending && player == HUMAN
              else
                board.Cells() == b &&
                player == old(player) && gameOver == old(gameOver) && winner == old(winner)
    {
      if !gameOver && player == COMPUTER {
        ghost var b := board.Cells();
        ChooseIsFirstBest(b);
        var moved := board.BestMove();
        if moved {
          var k := Choose(b).value;
          CountUpdate(b, k, COMPUTER, HUMAN);
          CountUpdate(b, k, COMPUTER, COMPUTER);
          MarkMakesNoLineForOther(b, k, COMPUTER, HUMAN);
          var won := board.CheckWin(COMPUTER);
          if won {
            gameOver := true;
            winner := Won(COMPUTER);
          } else {
            var full := board.IsBoardFull();
            if full {
              gameOver := true;
              winner := Draw;
            } else {
              player := HUMAN;
            }
          }
        }
      }
    }
  }
}
