/** The game board as the program keeps it: one mutable grid that the move
    handlers and the search write in place. */
module TicTacToe {
  import opened Rules
  import opened Search

  class Board {
    /** The 3x3 cells, row-major: cell (row, col) is cells[At(row, col)]. */
    const cells: array<int>

    predicate Valid() {
      cells.Length == SIZE
    }

    /** The board as a value. */
    ghost function Cells(): Grid
      reads cells
      requires Valid()
    {
      cells[..]
    }

    /** A fresh board: every cell empty. */
    constructor ()
      ensures Valid() && fresh(cells)
      ensures Cells() == EmptyBoard
    {
      cells := new int[SIZE](_ => EMPTY);
      new;
      assert cells[..] == EmptyBoard;
    }

    /** Writes player into cell (row, col), with no check that it was empty. */
    method MarkSquare(row: nat, col: nat, player: int)
      requires Valid() && row < ROWS && col < COLS
      modifies cells
      ensures Cells() == old(Cells())[At(row, col) := player]
      ensures forall i :: 0 <= i < SIZE && i != At(row, col) ==> cells[i] == old(cells[i])
    {
      cells[At(row, col)] := player;
    }

    /** Cell (row, col) is empty. */
    function AvailableSquare(row: nat, col: nat): (free: bool)
      reads cells
      requires Valid() && row < ROWS && col < COLS
      ensures free <==> Cells()[At(row, col)] == EMPTY
    {
      cells[At(row, col)] == EMPTY
    }

    /** Scans the cells row by row and stops at the first empty one. */
    method IsBoardFull() returns (full: bool)
      requires Valid()
      ensures full <==> Full(Cells())
    {
      for row := 0 to ROWS
        invariant forall i :: 0 <= i < At(row, 0) ==> cells[i] != EMPTY
      {
        for col := 0 to COLS
          invariant forall i :: 0 <= i < At(row, col) ==> cells[i] != EMPTY
        {
          if cells[At(row, col)] == EMPTY {
            return false;
          }
        }
      }
      return true;
    }

    /** Checks the columns, then the rows, then the two diagonals. */
    method CheckWin(player: int) returns (won: bool)
      requires Valid()
      ensures won <==> Wins(Cells(), player)
    {
      for col := 0 to COLS
        invariant forall k :: 0 <= k < col ==> !LineFilled(Cells(), k, player)
      {
        if cells[At(0, col)] == player && cells[At(1, col)] == player && cells[At(2, col)] == player {
          assert LineFilled(Cells(), col, player);
          return true;
        }
      }
      for row := 0 to ROWS
        invariant forall k :: 0 <= k < 3 + row ==> !LineFilled(Cells(), k, player)
      {
        if cells[At(row, 0)] == player && cells[At(row, 1)] == player && cells[At(row, 2)] == player {
          assert LineFilled(Cells(), 3 + row, player);
          return true;
        }
      }
      if cells[At(0, 0)] == player && cells[At(1, 1)] == player && cells[At(2, 2)] == player {
        assert LineFilled(Cells(), 6, player);
        return true;
      }
      if cells[At(0, 2)] == player && cells[At(1, 1)] == player && cells[At(2, 0)] == player {
        assert LineFilled(Cells(), 7, player);
        return true;
      }
      assert forall k :: 0 <= k < 8 ==> !LineFilled(Cells(), k, player);
      return false;
    }

    /** Clears every cell, row by row. */
    method ResetGame()
      requires Valid()
      modifies cells
      ensures Cells() == EmptyBoard
    {
      for row := 0 to ROWS
        invariant forall i :: 0 <= i < At(row, 0) ==> cells[i] == EMPTY
      {
        for col := 0 to COLS
          invariant forall i :: 0 <= i < At(row, col) ==> cells[i] == EMPTY
        {
          cells[At(row, col)] := EMPTY;
        }
      }
      assert Cells() == EmptyBoard;
    }

    /** The exhaustive search: scores a terminal position, and otherwise places
        the side to move's mark in each empty cell in turn, searches on, and
        takes the mark back. The board is as it was when the search returns. */
    method Minimax(isMaximizing: bool) returns (score: int)
      requires Valid()
      modifies cells
      ensures Cells() == old(Cells())
      ensures score == Value(old(Cells()), isMaximizing)
      decreases Count(Cells(), EMPTY)
    {
      ghost var b := Cells();
      var computerWon := CheckWin(COMPUTER);
      if computerWon {
        return 1;
      }
      var humanWon := CheckWin(HUMAN);
      if humanWon {
        return -1;
      }
      var full := IsBoardFull();
      if full {
        return 0;
      }
      var mark := Mark(isMaximizing);
      var bestScore := Worst(isMaximizing);
      for row := 0 to ROWS
        invariant Cells() == b
        invariant bestScore == Worst(isMaximizing) || -1 <= bestScore <= 1
        invariant Scan(b, isMaximizing, At(row, 0), bestScore) == Value(b, isMaximizing)
      {
        for col := 0 to COLS
          invariant Cells() == b
          invariant bestScore == Worst(isMaximizing) || -1 <= bestScore <= 1
          invariant Scan(b, isMaximizing, At(row, col), bestScore) == Value(b, isMaximizing)
        {
          var k := At(row, col);
          if cells[k] == EMPTY {
            cells[k] := mark;
            assert Cells() == b[k := mark];
            CountUpdate(b, k, mark, EMPTY);
            var childScore := Minimax(!isMaximizing);
            cells[k] := EMPTY;
            assert Cells() == b;
            bestScore := if isMaximizing then Max(childScore, bestScore) else Min(childScore, bestScore);
          }
        }
      }
      return bestScore;
    }

    /** The computer's move: scores every empty cell in row-major order with the
        human to move next, keeps the first strictly greatest, and plays it.
        Reports whether a move was made. */
    method BestMove() returns (moved: bool)
      requires Valid()
      modifies cells
      ensures moved <==> !Full(old(Cells()))
      ensures moved == Choose(old(Cells())).Some?
      ensures Cells() == match Choose(old(Cells()))
                         case None => old(Cells())
                         case Some(k) => old(Cells())[k := COMPUTER]
    {
      ghost var b := Cells();
      var bestScore := Worst(true);
      var move: (int, int) := (-1, -1);
      for row := 0 to ROWS
        invariant Cells() == b
        invariant move == (-1, -1) || (0 <= move.0 < ROWS && 0 <= move.1 < COLS)
        invariant ChooseFrom(b, At(row, 0), bestScore, MoveIndex(move)) == Choose(b)
      {
        for col := 0 to COLS
          invariant Cells() == b
          invariant move == (-1, -1) || (0 <= move.0 < ROWS && 0 <= move.1 < COLS)
          invariant ChooseFrom(b, At(row, col), bestScore, MoveIndex(move)) == Choose(b)
        {
          var k := At(row, col);
          if cells[k] == EMPTY {
            cells[k] := COMPUTER;
            assert Cells() == b[k := COMPUTER];
            var score := Minimax(false);
            cells[k] := EMPTY;
            assert Cells() == b;
            if score > bestScore {
              bestScore := score;
              move := (row, col);
            }
          }
        }
      }
      ChooseIsFirstBest(b);
      if move != (-1, -1) {
        MarkSquare(move.0, move.1, COMPUTER);
        return true;
      }
      return false;
    }
  }

  /** The flat cell index of a (row, col) move, with (-1, -1) meaning no move. */
  function MoveIndex(move: (int, int)): Option<nat>
    requires move == (-1, -1) || (0 <= move.0 < ROWS && 0 <= move.1 < COLS)
  {
    if move == (-1, -1) then None else Some(At(move.0, move.1))
  }
}
