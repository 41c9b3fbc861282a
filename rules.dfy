/** The rules of 3x3 tic-tac-toe, stated on the board as a value: nine cells in
    row-major order, each 0 (empty), 1 (the human, O) or 2 (the computer, X). */
module Rules {

  datatype Option<T> = None | Some(value: T)

  const ROWS: nat := 3
  const COLS: nat := 3
  const SIZE: nat := 9

  const EMPTY: int := 0
  const HUMAN: int := 1
  const COMPUTER: int := 2

  /** A board: the nine cells, row by row. */
  type Grid = b: seq<int> | |b| == SIZE witness [0, 0, 0, 0, 0, 0, 0, 0, 0]

  /** The board every game starts from and returns to on reset. */
  const EmptyBoard: Grid := [0, 0, 0, 0, 0, 0, 0, 0, 0]

  /** The position of cell (row, col) in the row-major sequence. */
  function At(row: nat, col: nat): nat {
    COLS * row + col
  }

  /** Every cell holds one of the three cell states. */
  predicate Marks(b: Grid) {
    forall i :: 0 <= i < SIZE ==> EMPTY <= b[i] <= COMPUTER
  }

  /** No cell is empty. */
  predicate Full(b: Grid) {
    forall i :: 0 <= i < SIZE ==> b[i] != EMPTY
  }

  /** The cells of line k, in the order the lines are checked: the three
      columns, the three rows, the main diagonal, the anti-diagonal. */
  function LineCells(k: nat): (nat, nat, nat)
    requires k < 8
  {
    if k < 3 then (At(0, k), At(1, k), At(2, k))
    else if k < 6 then (At(k - 3, 0), At(k - 3, 1), At(k - 3, 2))
    else if k == 6 then (At(0, 0), At(1, 1), At(2, 2))
    else (At(0, 2), At(1, 1), At(2, 0))
  }

  /** All three cells of line k hold p. */
  predicate LineFilled(b: Grid, k: nat, p: int)
    requires k < 8
  {
    var (x, y, z) := LineCells(k);
    b[x] == p && b[y] == p && b[z] == p
  }

  /** Player p owns a whole line. */
  predicate Wins(b: Grid, p: int) {
    exists k :: 0 <= k < 8 && LineFilled(b, k, p)
  }

  /** The number of cells of s that hold v. */
  function Count(s: seq<int>, v: int): (n: nat)
    ensures n <= |s|
  {
    if s == [] then 0 else (if s[0] == v then 1 else 0) + Count(s[1..], v)
  }

  /** Writing v into cell k moves one cell from the count of s[k] to the count of v. */
  lemma {:induction false} CountUpdate(s: seq<int>, k: nat, v: int, q: int)
    requires k < |s|
    ensures Count(s[k := v], q)
         == Count(s, q) - (if s[k] == q then 1 else 0) + (if v == q then 1 else 0)
  {
    if k > 0 {
      assert s[k := v][1..] == s[1..][k - 1 := v];
      CountUpdate(s[1..], k - 1, v, q);
    } else {
      assert s[k := v][1..] == s[1..];
    }
  }

  /** A value that no cell holds is counted zero times. */
  lemma {:induction false} CountAbsent(s: seq<int>, v: int)
    requires forall i :: 0 <= i < |s| ==> s[i] != v
    ensures Count(s, v) == 0
  {
    if s != [] {
      CountAbsent(s[1..], v);
    }
  }

  /** The board is full exactly when no (row, col) square is available. */
  lemma FullIffNoSquareAvailable(b: Grid)
    ensures Full(b) <==> forall row: nat, col: nat :: row < ROWS && col < COLS ==> b[At(row, col)] != EMPTY
  {
    if !Full(b) {
      var i :| 0 <= i < SIZE && b[i] == EMPTY;
      assert b[At(i / COLS, i % COLS)] == EMPTY;
    }
  }

  /** Placing p never completes a line for any other player q. */
  lemma MarkMakesNoLineForOther(b: Grid, k: nat, p: int, q: int)
    requires k < SIZE && p != q
    ensures Wins(b[k := p], q) ==> Wins(b, q)
  {
    if Wins(b[k := p], q) {
      var j :| 0 <= j < 8 && LineFilled(b[k := p], j, q);
      assert LineFilled(b, j, q);
    }
  }

  /** The empty board is not over: it is not full, nobody owns a line, and
      neither player has a mark on it. */
  lemma EmptyBoardIsFresh()
    ensures Marks(EmptyBoard) && !Full(EmptyBoard)
    ensures !Wins(EmptyBoard, HUMAN) && !Wins(EmptyBoard, COMPUTER)
    ensures Count(EmptyBoard, HUMAN) == 0 && Count(EmptyBoard, COMPUTER) == 0
  {
    assert EmptyBoard[0] == EMPTY;
    CountAbsent(EmptyBoard, HUMAN);
    CountAbsent(EmptyBoard, COMPUTER);
  }

  /** Three human marks across the top row, placed on an empty board, are a
      human win and not a computer win. */
  lemma TopRowIsHumanWin()
    ensures var b := EmptyBoard[At(0, 0) := HUMAN][At(0, 1) := HUMAN][At(0, 2) := HUMAN];
            Wins(b, HUMAN) && !Wins(b, COMPUTER)
  {
    var b := EmptyBoard[At(0, 0) := HUMAN][At(0, 1) := HUMAN][At(0, 2) := HUMAN];
    assert LineFilled(b, 3, HUMAN);
  }
}
