/** The minimax value of a position and the computer's move choice, as
    functions of the board. These are the specifications the in-place search
    of class TicTacToe.Board is proved against. */
module Search {
  import opened Rules

  function Max(x: int, y: int): int { if x >= y then x else y }
  function Min(x: int, y: int): int { if x <= y then x else y }

  /** The mark placed by the side to move: the computer maximizes, the human minimizes. */
  function Mark(maximizing: bool): int {
    if maximizing then COMPUTER else HUMAN
  }

  /** The starting running best, worse than every score: it stands for the
      negative (maximizing) or positive (minimizing) infinity of the search. */
  function Worst(maximizing: bool): int {
    if maximizing then -2 else 2
  }

  /** x is at least as good as y for the side that is maximizing or minimizing. */
  predicate Better(maximizing: bool, x: int, y: int) {
    if maximizing then y <= x else x <= y
  }

  /** Some cell at position i or later is empty. */
  predicate HasEmptyFrom(b: Grid, i: nat) {
    exists j :: i <= j < SIZE && b[j] == EMPTY
  }

  /** The minimax value of b with the given side to move: +1 when the computer
      owns a line (checked first), -1 when the human does, 0 when the board is
      full, and otherwise the best child value for the side to move. */
  function Value(b: Grid, maximizing: bool): (v: int)
    ensures -1 <= v <= 1
    decreases Count(b, EMPTY), SIZE + 1
  {
    if Wins(b, COMPUTER) then 1
    else if Wins(b, HUMAN) then -1
    else if Full(b) then 0
    else Scan(b, maximizing, 0, Worst(maximizing))
  }

  /** The value of placing the side to move's mark at empty cell i. */
  function Child(b: Grid, maximizing: bool, i: nat): int
    requires i < SIZE && b[i] == EMPTY
    decreases Count(b, EMPTY), 0
  {
    CountUpdate(b, i, Mark(maximizing), EMPTY);
    Value(b[i := Mark(maximizing)], !maximizing)
  }

  /** The running best after visiting cells i.. in row-major order, starting from best. */
  function Scan(b: Grid, maximizing: bool, i: nat, best: int): (r: int)
    requires i <= SIZE
    requires best == Worst(maximizing) || -1 <= best <= 1
    ensures HasEmptyFrom(b, i) || -1 <= best <= 1 ==> -1 <= r <= 1
    decreases Count(b, EMPTY), SIZE - i
  {
    if i == SIZE then best
    else if b[i] == EMPTY then
      var score := Child(b, maximizing, i);
      Scan(b, maximizing, i + 1, if maximizing then Max(score, best) else Min(score, best))
    else
      Scan(b, maximizing, i + 1, best)
  }

  /** The scan ends on a value at least as good as its start and as every child
      it visits, and it is either its start or one of those children. */
  lemma {:induction false} ScanIsBest(b: Grid, maximizing: bool, i: nat, best: int)
    requires i <= SIZE
    requires best == Worst(maximizing) || -1 <= best <= 1
    ensures Better(maximizing, Scan(b, maximizing, i, best), best)
    ensures forall j :: i <= j < SIZE && b[j] == EMPTY ==>
              Better(maximizing, Scan(b, maximizing, i, best), Child(b, maximizing, j))
    ensures Scan(b, maximizing, i, best) == best ||
            exists j :: i <= j < SIZE && b[j] == EMPTY && Child(b, maximizing, j) == Scan(b, maximizing, i, best)
    decreases SIZE - i
  {
    if i < SIZE {
      var next := if b[i] == EMPTY then
                    (if maximizing then Max(Child(b, maximizing, i), best) else Min(Child(b, maximizing, i), best))
                  else best;
      ScanIsBest(b, maximizing, i + 1, next);
    }
  }

  /** At a position that is not over, the value is the maximum (computer to
      move) or the minimum (human to move) of the children's values over all
      empty cells. */
  lemma ValueIsBestChild(b: Grid, maximizing: bool)
    requires !Wins(b, COMPUTER) && !Wins(b, HUMAN) && !Full(b)
    ensures forall j :: 0 <= j < SIZE && b[j] == EMPTY ==> Better(maximizing, Value(b, maximizing), Child(b, maximizing, j))
    ensures exists j :: 0 <= j < SIZE && b[j] == EMPTY && Child(b, maximizing, j) == Value(b, maximizing)
  {
    ScanIsBest(b, maximizing, 0, Worst(maximizing));
    assert HasEmptyFrom(b, 0);
  }

  /** The terminal checks come in a fixed order, so a board on which both
      players own a line scores as a computer win. */
  lemma TerminalOrder(b: Grid, maximizing: bool)
    ensures Wins(b, COMPUTER) ==> Value(b, maximizing) == 1
    ensures !Wins(b, COMPUTER) && Wins(b, HUMAN) ==> Value(b, maximizing) == -1
    ensures !Wins(b, COMPUTER) && !Wins(b, HUMAN) && Full(b) ==> Value(b, maximizing) == 0
  {
  }

  /** The computer's choice after visiting cells i.., given the best score so
      far and the move that reached it: only a strictly greater score replaces
      the incumbent. */
  function ChooseFrom(b: Grid, i: nat, bestScore: int, move: Option<nat>): (r: Option<nat>)
    requires i <= SIZE
    ensures r == move || (r.Some? && i <= r.value < SIZE && b[r.value] == EMPTY)
    decreases SIZE - i
  {
    if i == SIZE then move
    else if b[i] == EMPTY && Child(b, true, i) > bestScore then ChooseFrom(b, i + 1, Child(b, true, i), Some(i))
    else ChooseFrom(b, i + 1, bestScore, move)
  }

  /** The cell the computer plays on b, or None when no cell is empty. */
  function Choose(b: Grid): (r: Option<nat>)
    ensures r.Some? ==> r.value < SIZE && b[r.value] == EMPTY
  {
    ChooseFrom(b, 0, Worst(true), None)
  }

  /** What the scan over cells i.. keeps true: the incumbent is an earlier empty
      cell that beats every earlier empty cell before it and ties or beats the
      rest, and no incumbent means no earlier empty cell. */
  ghost predicate ChoiceSoFar(b: Grid, i: nat, bestScore: int, move: Option<nat>)
    requires i <= SIZE
  {
    match move
    case None => bestScore == Worst(true) && forall j :: 0 <= j < i ==> b[j] != EMPTY
    case Some(m) =>
      m < i && b[m] == EMPTY && bestScore == Child(b, true, m) &&
      (forall j :: 0 <= j < i && b[j] == EMPTY ==> Child(b, true, j) <= bestScore) &&
      (forall j :: 0 <= j < m && b[j] == EMPTY ==> Child(b, true, j) < bestScore)
  }

  /** The chosen cell is the first empty cell with the greatest child value. */
  ghost predicate FirstBest(b: Grid, k: nat) {
    k < SIZE && b[k] == EMPTY &&
    (forall j :: 0 <= j < SIZE && b[j] == EMPTY ==> Child(b, true, j) <= Child(b, true, k)) &&
    (forall j :: 0 <= j < k && b[j] == EMPTY ==> Child(b, true, j) < Child(b, true, k))
  }

  lemma {:induction false} ChooseFromIsFirstBest(b: Grid, i: nat, bestScore: int, move: Option<nat>)
    requires i <= SIZE && ChoiceSoFar(b, i, bestScore, move)
    ensures match ChooseFrom(b, i, bestScore, move)
            case None => Full(b)
            case Some(k) => FirstBest(b, k)
    decreases SIZE - i
  {
    if i < SIZE {
      if b[i] == EMPTY && Child(b, true, i) > bestScore {
        ChooseFromIsFirstBest(b, i + 1, Child(b, true, i), Some(i));
      } else {
        ChooseFromIsFirstBest(b, i + 1, bestScore, move);
      }
    }
  }

  /** The computer has no move exactly when the board is full; otherwise it
      plays the first empty cell, in row-major order, whose value with the human
      to move is the greatest. */
  lemma ChooseIsFirstBest(b: Grid)
    ensures Choose(b) == None <==> Full(b)
    ensures Choose(b).Some? ==> FirstBest(b, Choose(b).value)
  {
    ChooseFromIsFirstBest(b, 0, Worst(true), None);
  }

  /** At a position that is not over, the chosen move reaches the minimax value
      of the position with the computer to move. */
  lemma ChooseReachesValue(b: Grid)
    requires !Wins(b, COMPUTER) && !Wins(b, HUMAN) && !Full(b)
    ensures Choose(b).Some? && Child(b, true, Choose(b).value) == Value(b, true)
  {
    ChooseIsFirstBest(b);
    var k := Choose(b).value;
    assert FirstBest(b, k);
    var v := Value(b, true);
    ValueIsBestChild(b, true);
    assert Child(b, true, k) <= v;
    var j :| 0 <= j < SIZE && b[j] == EMPTY && Child(b, true, j) == v;
    assert Child(b, true, j) <= Child(b, true, k);
  }
}
