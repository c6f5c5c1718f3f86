/**
 * The tic-tac-toe game-state engine: whose turn it is, the legal moves,
 * the board after a move, the winner, whether the game is over, the reward
 * of a finished game, and the terminal guard of the minimax search.
 *
 * A board is a list of rows. The operations that only look at a board read
 * its contents, a `Grid` value. The one operation that writes (`Result`)
 * works on the rows themselves, which are shared mutable arrays, because the
 * new board it returns shares its rows with the board it was given.
 */
module TicTacToe {

  datatype Mark = X | O

  /** A cell is empty (Python's None) or holds a player's mark. */
  datatype Cell = Empty | Marked(mark: Mark)

  datatype Option<T> = None | Some(value: T)

  datatype Error = InvalidAction

  datatype Outcome<T> = Success(value: T) | Failure(error: Error)

  /** An action is a (row, column) pair; any pair of integers may be asked for. */
  type Action = (int, int)

  /** The contents of a board, row by row. */
  type Grid = seq<seq<Cell>>

  /** A board as the program holds it: a list of row objects. */
  type Board = seq<array<Cell>>

  /** The game is played on three rows of three cells. */
  predicate IsBoard(g: Grid)
  {
    |g| == 3 && forall i | 0 <= i < 3 :: |g[i]| == 3
  }

  /** The contents of the rows of `board`, read at this moment. */
  function Snapshot(board: Board): (g: Grid)
    reads board
    ensures |g| == |board|
    ensures forall k | 0 <= k < |board| :: g[k] == board[k][..]
  {
    seq(|board|, k reads board requires 0 <= k < |board| => board[k][..])
  }

  /** No two rows of `board` are the same object. */
  predicate DistinctRows(board: Board)
  {
    forall k, l | 0 <= k < l < |board| :: board[k] != board[l]
  }

  predicate InRange(g: Grid, a: Action)
  {
    0 <= a.0 < |g| && 0 <= a.1 < |g[a.0]|
  }

  predicate IsEmptyAt(g: Grid, a: Action)
  {
    InRange(g, a) && g[a.0][a.1] == Empty
  }

  /** `g` with `p`'s mark written at `a`: that cell holds the mark and every other cell is as before. */
  function Place(g: Grid, a: Action, p: Mark): (g': Grid)
    requires InRange(g, a)
    ensures |g'| == |g| && forall i | 0 <= i < |g| :: |g'[i]| == |g[i]|
    ensures g'[a.0][a.1] == Marked(p)
    ensures forall i, j | 0 <= i < |g| && 0 <= j < |g[i]| && (i, j) != a :: g'[i][j] == g[i][j]
  {
    g[a.0 := g[a.0][a.1 := Marked(p)]]
  }

  // ---------------------------------------------------------------------
  // Counting marks (`row.count(...)` summed over the rows)
  // ---------------------------------------------------------------------

  /** The number of cells of `row` equal to `c` (`row.count(c)`). */
  function CountRow(row: seq<Cell>, c: Cell): (n: nat)
    ensures n <= |row|
  {
    if row == [] then 0
    else CountRow(row[..|row| - 1], c) + (if row[|row| - 1] == c then 1 else 0)
  }

  /** The number of cells of `g` equal to `c`, summed row by row. */
  function Count(g: Grid, c: Cell): (n: nat)
    ensures n <= Size(g)
  {
    if g == [] then 0
    else Count(g[..|g| - 1], c) + CountRow(g[|g| - 1], c)
  }

  /** The number of cells of all rows together. */
  function Size(g: Grid): nat
  {
    if g == [] then 0 else Size(g[..|g| - 1]) + |g[|g| - 1]|
  }

  lemma {:induction false} CountRowAbsent(row: seq<Cell>, c: Cell)
    requires forall j | 0 <= j < |row| :: row[j] != c
    ensures CountRow(row, c) == 0
  {
    if row != [] {
      CountRowAbsent(row[..|row| - 1], c);
    }
  }

  /** A cell value that occurs nowhere on the board is counted zero times. */
  lemma {:induction false} CountAbsent(g: Grid, c: Cell)
    requires forall i, j | 0 <= i < |g| && 0 <= j < |g[i]| :: g[i][j] != c
    ensures Count(g, c) == 0
  {
    if g != [] {
      CountAbsent(g[..|g| - 1], c);
      CountRowAbsent(g[|g| - 1], c);
    }
  }

  function XCount(g: Grid): nat { Count(g, Marked(X)) }

  function OCount(g: Grid): nat { Count(g, Marked(O)) }

  /** Every cell is counted under exactly one of its three possible contents. */
  lemma {:induction false} RowCountsCover(row: seq<Cell>)
    ensures CountRow(row, Empty) + CountRow(row, Marked(X)) + CountRow(row, Marked(O)) == |row|
  {
    if row != [] {
      RowCountsCover(row[..|row| - 1]);
      var last := row[|row| - 1];
      assert last == Empty || last == Marked(X) || last == Marked(O) by {
        if last.Marked? { assert last.mark == X || last.mark == O; }
      }
    }
  }

  lemma {:induction false} CountsCover(g: Grid)
    ensures Count(g, Empty) + XCount(g) + OCount(g) == Size(g)
  {
    if g != [] {
      CountsCover(g[..|g| - 1]);
      RowCountsCover(g[|g| - 1]);
    }
  }

  lemma BoardSize(g: Grid)
    requires IsBoard(g)
    ensures Size(g) == 9
  {
    assert Size(g[..1]) == 3 by { assert g[..1][..0] == []; }
    assert Size(g[..2]) == 6 by { assert g[..2][..1] == g[..1]; }
  }

  /** Writing `v` at column `j` changes the count of `c` by the cell it replaces and the one it writes. */
  lemma {:induction false} CountRowUpdate(row: seq<Cell>, j: int, v: Cell, c: Cell)
    requires 0 <= j < |row|
    ensures CountRow(row[j := v], c)
         == CountRow(row, c) - (if row[j] == c then 1 else 0) + (if v == c then 1 else 0)
  {
    var n := |row|;
    var row' := row[j := v];
    if j == n - 1 {
      assert row'[..n - 1] == row[..n - 1];
    } else {
      assert row'[..n - 1] == row[..n - 1][j := v];
      CountRowUpdate(row[..n - 1], j, v, c);
    }
  }

  lemma {:induction false} CountPlace(g: Grid, a: Action, p: Mark, c: Cell)
    requires InRange(g, a)
    ensures Count(Place(g, a, p), c)
         == Count(g, c) - (if g[a.0][a.1] == c then 1 else 0) + (if Marked(p) == c then 1 else 0)
  {
    var n := |g|;
    var g' := Place(g, a, p);
    if a.0 == n - 1 {
      assert g'[..n - 1] == g[..n - 1];
      CountRowUpdate(g[n - 1], a.1, Marked(p), c);
    } else {
      assert g'[..n - 1] == Place(g[..n - 1], a, p);
      CountPlace(g[..n - 1], a, p, c);
    }
  }

  // ---------------------------------------------------------------------
  // initial_state
  // ---------------------------------------------------------------------

  /** The contents of the starting board: three rows of three empty cells. */
  function InitialGrid(): (g: Grid)
    ensures IsBoard(g)
    ensures forall i, j | 0 <= i < 3 && 0 <= j < 3 :: g[i][j] == Empty
  {
    [[Empty, Empty, Empty], [Empty, Empty, Empty], [Empty, Empty, Empty]]
  }

  /** `initial_state`: a new list of three new, empty rows. */
  method InitialState() returns (board: Board)
    ensures |board| == 3 && DistinctRows(board)
    ensures forall k | 0 <= k < 3 :: fresh(board[k])
    ensures Snapshot(board) == InitialGrid()
  {
    var r0 := new Cell[3](_ => Empty);
    var r1 := new Cell[3](_ => Empty);
    var r2 := new Cell[3](_ => Empty);
    board := [r0, r1, r2];
    assert Snapshot(board)[0] == InitialGrid()[0];
    assert Snapshot(board)[1] == InitialGrid()[1];
    assert Snapshot(board)[2] == InitialGrid()[2];
  }

  // ---------------------------------------------------------------------
  // player
  // ---------------------------------------------------------------------

  /**
   * `player`: X moves when the two mark counts are equal, O otherwise. On a
   * board reached by alternating play, O moves exactly when X is one ahead.
   */
  function Player(g: Grid): (p: Mark)
    ensures Balanced(g) ==> (p == O <==> XCount(g) == OCount(g) + 1)
  {
    if XCount(g) == OCount(g) then X else O
  }

  /** Mark counts of a board reached by alternating play: X is level with O or one ahead. */
  predicate Balanced(g: Grid)
  {
    XCount(g) == OCount(g) || XCount(g) == OCount(g) + 1
  }

  function Other(p: Mark): Mark
  {
    if p == X then O else X
  }

  lemma InitialMoverIsX()
    ensures XCount(InitialGrid()) == 0 && OCount(InitialGrid()) == 0
    ensures Balanced(InitialGrid()) && Player(InitialGrid()) == X
  {
    CountAbsent(InitialGrid(), Marked(X));
    CountAbsent(InitialGrid(), Marked(O));
  }

  /** A legal move by the player to move keeps the board balanced and hands the turn to the other player. */
  lemma {:induction false} MoveAlternatesTurn(g: Grid, a: Action)
    requires Balanced(g) && IsEmptyAt(g, a)
    ensures Balanced(Place(g, a, Player(g)))
    ensures Player(Place(g, a, Player(g))) == Other(Player(g))
  {
    CountPlace(g, a, Player(g), Marked(X));
    CountPlace(g, a, Player(g), Marked(O));
  }

  // ---------------------------------------------------------------------
  // actions
  // ---------------------------------------------------------------------

  /** The coordinates (i, j) of the empty cells of `row`, left to right. */
  function RowEmpties(row: seq<Cell>, i: int): seq<Action>
  {
    if row == [] then []
    else RowEmpties(row[..|row| - 1], i) + (if row[|row| - 1] == Empty then [(i, |row| - 1)] else [])
  }

  /** The coordinates of the empty cells of `g`, in row-major order. */
  function EmptyCells(g: Grid): seq<Action>
  {
    if g == [] then []
    else EmptyCells(g[..|g| - 1]) + RowEmpties(g[|g| - 1], |g| - 1)
  }

  /** `a` comes strictly before `b` in row-major order. */
  predicate Before(a: Action, b: Action)
  {
    a.0 < b.0 || (a.0 == b.0 && a.1 < b.1)
  }

  /** Strictly increasing in row-major order; in particular no element occurs twice. */
  predicate RowMajor(s: seq<Action>)
  {
    forall k, l | 0 <= k < l < |s| :: Before(s[k], s[l])
  }

  lemma {:induction false} RowEmptiesMembers(row: seq<Cell>, i: int, b: Action)
    ensures b in RowEmpties(row, i) <==> b.0 == i && 0 <= b.1 < |row| && row[b.1] == Empty
  {
    if row != [] {
      RowEmptiesMembers(row[..|row| - 1], i, b);
    }
  }

  lemma {:induction false} RowEmptiesRowMajor(row: seq<Cell>, i: int)
    ensures RowMajor(RowEmpties(row, i))
  {
    if row != [] {
      var n := |row|;
      var s := RowEmpties(row[..n - 1], i);
      RowEmptiesRowMajor(row[..n - 1], i);
      if row[n - 1] == Empty {
        forall k | 0 <= k < |s| ensures Before(s[k], (i, n - 1)) {
          RowEmptiesMembers(row[..n - 1], i, s[k]);
        }
      }
    }
  }

  lemma {:induction false} RowEmptiesCount(row: seq<Cell>, i: int)
    ensures |RowEmpties(row, i)| == CountRow(row, Empty)
  {
    if row != [] {
      RowEmptiesCount(row[..|row| - 1], i);
    }
  }

  /** EmptyCells holds exactly the in-range coordinates of empty cells. */
  lemma {:induction false} EmptyCellsMembers(g: Grid, b: Action)
    ensures b in EmptyCells(g) <==> IsEmptyAt(g, b)
  {
    if g != [] {
      var n := |g|;
      EmptyCellsMembers(g[..n - 1], b);
      RowEmptiesMembers(g[n - 1], n - 1, b);
    }
  }

  /** EmptyCells lists its coordinates in row-major order, each once. */
  lemma {:induction false} EmptyCellsRowMajor(g: Grid)
    ensures RowMajor(EmptyCells(g))
  {
    if g != [] {
      var n := |g|;
      var s, t := EmptyCells(g[..n - 1]), RowEmpties(g[n - 1], n - 1);
      EmptyCellsRowMajor(g[..n - 1]);
      RowEmptiesRowMajor(g[n - 1], n - 1);
      forall k, l | 0 <= k < |s| && 0 <= l < |t| ensures Before(s[k], t[l]) {
        EmptyCellsMembers(g[..n - 1], s[k]);
        RowEmptiesMembers(g[n - 1], n - 1, t[l]);
      }
      forall k, l | 0 <= k < l < |s + t| ensures Before((s + t)[k], (s + t)[l]) {
        if l < |s| {
        } else if k < |s| {
          assert Before(s[k], t[l - |s|]);
        } else {
          assert Before(t[k - |s|], t[l - |s|]);
        }
      }
    }
  }

  lemma {:induction false} EmptyCellsCount(g: Grid)
    ensures |EmptyCells(g)| == Count(g, Empty)
  {
    if g != [] {
      EmptyCellsCount(g[..|g| - 1]);
      RowEmptiesCount(g[|g| - 1], |g| - 1);
    }
  }

  /** On a 3x3 board the legal moves and the marks already placed make nine together. */
  lemma ActionsPlusMarks(g: Grid)
    requires IsBoard(g)
    ensures |EmptyCells(g)| + XCount(g) + OCount(g) == 9
  {
    EmptyCellsCount(g);
    CountsCover(g);
    BoardSize(g);
  }

  /** A legal move removes exactly its own coordinate from the legal moves. */
  lemma PlaceRemovesAction(g: Grid, a: Action, p: Mark)
    requires IsEmptyAt(g, a)
    ensures forall b :: b in EmptyCells(Place(g, a, p)) <==> b in EmptyCells(g) && b != a
    ensures |EmptyCells(Place(g, a, p))| == |EmptyCells(g)| - 1
  {
    forall b ensures b in EmptyCells(Place(g, a, p)) <==> b in EmptyCells(g) && b != a {
      EmptyCellsMembers(Place(g, a, p), b);
      EmptyCellsMembers(g, b);
    }
    EmptyCellsCount(Place(g, a, p));
    EmptyCellsCount(g);
    CountPlace(g, a, p, Empty);
  }

  /** `actions`: scans the rows and, within each row, the cells, collecting the empty ones. */
  method Actions(g: Grid) returns (acts: seq<Action>)
    ensures acts == EmptyCells(g)
    ensures forall a :: a in acts <==> IsEmptyAt(g, a)
    ensures RowMajor(acts)
  {
    acts := [];
    var i := 0;
    while i < |g|
      invariant 0 <= i <= |g|
      invariant acts == EmptyCells(g[..i])
    {
      var j := 0;
      while j < |g[i]|
        invariant 0 <= j <= |g[i]|
        invariant acts == EmptyCells(g[..i]) + RowEmpties(g[i][..j], i)
      {
        assert g[i][..j + 1][..j] == g[i][..j];
        if g[i][j] == Empty {
          acts := acts + [(i, j)];
        }
        j := j + 1;
      }
      assert g[i][..j] == g[i];
      assert g[..i + 1][..i] == g[..i];
      i := i + 1;
    }
    assert g[..i] == g;
    forall a ensures a in acts <==> IsEmptyAt(g, a) {
      EmptyCellsMembers(g, a);
    }
    EmptyCellsRowMajor(g);
  }

  // ---------------------------------------------------------------------
  // result
  // ---------------------------------------------------------------------

  /**
   * `result`: fails when `action` is not a legal move; otherwise writes the
   * mark of the player to move into the action's cell. The returned board is
   * a shallow copy: a list holding the same row objects, so the write is also
   * seen through `board`.
   */
  method Result(board: Board, action: Action) returns (r: Outcome<Board>)
    modifies board
    ensures r.Failure? <==> !IsEmptyAt(old(Snapshot(board)), action)
    ensures r.Failure? ==> r.error == InvalidAction && Snapshot(board) == old(Snapshot(board))
    ensures r.Success? ==> r.value == board
    ensures r.Success? ==> forall k | 0 <= k < |board| ::
              board[k][..] == if board[k] == board[action.0]
                              then old(board[k][..])[action.1 := Marked(Player(old(Snapshot(board))))]
                              else old(board[k][..])
    ensures r.Success? && DistinctRows(board) ==>
              Snapshot(board) == Place(old(Snapshot(board)), action, Player(old(Snapshot(board))))
  {
    var g := Snapshot(board);
    var acts := Actions(g);
    if action !in acts {
      return Failure(InvalidAction);
    }
    var turn := Player(g);
    var newBoard := board;
    newBoard[action.0][action.1] := Marked(turn);
    r := Success(newBoard);
    if DistinctRows(board) {
      assert Snapshot(board) == Place(g, action, turn);
    }
  }

  // ---------------------------------------------------------------------
  // winner
  // ---------------------------------------------------------------------

  /** The mark shared by three cells, if they are equal and not empty. */
  function Three(a: Cell, b: Cell, c: Cell): Option<Mark>
  {
    if a == b && b == c && a != Empty then Some(a.mark) else None
  }

  /** The rows from `r` on, checked top to bottom. */
  function RowWinner(g: Grid, r: nat): Option<Mark>
    requires IsBoard(g) && r <= 3
    decreases 3 - r
  {
    if r == 3 then None
    else if Three(g[r][0], g[r][1], g[r][2]).Some? then Three(g[r][0], g[r][1], g[r][2])
    else RowWinner(g, r + 1)
  }

  /** The columns from `c` on, checked left to right. */
  function ColWinner(g: Grid, c: nat): Option<Mark>
    requires IsBoard(g) && c <= 3
    decreases 3 - c
  {
    if c == 3 then None
    else if Three(g[0][c], g[1][c], g[2][c]).Some? then Three(g[0][c], g[1][c], g[2][c])
    else ColWinner(g, c + 1)
  }

  /** `winner`: rows, then columns, then the main diagonal, then the anti-diagonal. */
  function Winner(g: Grid): Option<Mark>
    requires IsBoard(g)
  {
    var rows := RowWinner(g, 0);
    if rows.Some? then rows
    else
      var cols := ColWinner(g, 0);
      if cols.Some? then cols
      else if Three(g[0][0], g[1][1], g[2][2]).Some? then Three(g[0][0], g[1][1], g[2][2])
      else Three(g[0][2], g[1][1], g[2][0])
  }

  /**
   * The eight lines of the board in the order the program checks them:
   * rows 0..2 (k = 0..2), columns 0..2 (k = 3..5), the main diagonal (k = 6)
   * and the anti-diagonal (k = 7).
   */
  function LineAt(k: nat): (line: seq<(nat, nat)>)
    requires k < 8
    ensures |line| == 3 && forall t | 0 <= t < 3 :: line[t].0 < 3 && line[t].1 < 3
  {
    if k < 3 then [(k, 0), (k, 1), (k, 2)]
    else if k < 6 then [(0, k - 3), (1, k - 3), (2, k - 3)]
    else if k == 6 then [(0, 0), (1, 1), (2, 2)]
    else [(0, 2), (1, 1), (2, 0)]
  }

  /** All three cells of line `k` hold `m`. */
  predicate LineWonBy(g: Grid, k: nat, m: Mark)
    requires IsBoard(g) && k < 8
  {
    forall t | 0 <= t < 3 :: g[LineAt(k)[t].0][LineAt(k)[t].1] == Marked(m)
  }

  predicate LineComplete(g: Grid, k: nat)
    requires IsBoard(g) && k < 8
  {
    LineWonBy(g, k, X) || LineWonBy(g, k, O)
  }

  /** Some line of the board holds three `m`s. */
  predicate HasLine(g: Grid, m: Mark)
    requires IsBoard(g)
  {
    exists k | 0 <= k < 8 :: LineWonBy(g, k, m)
  }

  /** `Three` applied to the cells of line `k`. */
  function LineThree(g: Grid, k: nat): Option<Mark>
    requires IsBoard(g) && k < 8
  {
    var line := LineAt(k);
    Three(g[line[0].0][line[0].1], g[line[1].0][line[1].1], g[line[2].0][line[2].1])
  }

  /** `Three` on the cells of line `k` names exactly the player who holds the whole line. */
  lemma LineOwner(g: Grid, k: nat)
    requires IsBoard(g) && k < 8
    ensures forall m :: LineWonBy(g, k, m) <==> LineThree(g, k) == Some(m)
    ensures LineComplete(g, k) <==> LineThree(g, k).Some?
  {
    var t := LineThree(g, k);
    if t.Some? {
      assert LineWonBy(g, k, t.value);
      assert t.value == X || t.value == O;
    }
  }

  lemma {:induction false} RowWinnerFirst(g: Grid, r: nat)
    requires IsBoard(g) && r <= 3
    decreases 3 - r
    ensures RowWinner(g, r).None? <==> forall k | r <= k < 3 :: !LineComplete(g, k)
    ensures RowWinner(g, r).Some? ==> exists k | r <= k < 3 ::
              LineWonBy(g, k, RowWinner(g, r).value) && forall k' | r <= k' < k :: !LineComplete(g, k')
  {
    if r < 3 {
      LineOwner(g, r);
      assert LineThree(g, r) == Three(g[r][0], g[r][1], g[r][2]);
      RowWinnerFirst(g, r + 1);
    }
  }

  lemma {:induction false} ColWinnerFirst(g: Grid, c: nat)
    requires IsBoard(g) && c <= 3
    decreases 3 - c
    ensures ColWinner(g, c).None? <==> forall k | 3 + c <= k < 6 :: !LineComplete(g, k)
    ensures ColWinner(g, c).Some? ==> exists k | 3 + c <= k < 6 ::
              LineWonBy(g, k, ColWinner(g, c).value) && forall k' | 3 + c <= k' < k :: !LineComplete(g, k')
  {
    if c < 3 {
      LineOwner(g, 3 + c);
      assert LineThree(g, 3 + c) == Three(g[0][c], g[1][c], g[2][c]);
      ColWinnerFirst(g, c + 1);
    }
  }

  /**
   * `winner` reports no winner exactly when no line is complete; otherwise it
   * names the owner of the first complete line in the order of `LineAt`.
   */
  lemma WinnerIsFirstCompleteLine(g: Grid)
    requires IsBoard(g)
    ensures Winner(g).None? <==> forall k | 0 <= k < 8 :: !LineComplete(g, k)
    ensures Winner(g).Some? ==> exists k | 0 <= k < 8 ::
              LineWonBy(g, k, Winner(g).value) && forall k' | 0 <= k' < k :: !LineComplete(g, k')
  {
    RowWinnerFirst(g, 0);
    ColWinnerFirst(g, 0);
    LineOwner(g, 6);
    LineOwner(g, 7);
  }

  /** `winner` returns `m` only when `m` holds some line, and none only when neither player does. */
  lemma WinnerHasLine(g: Grid)
    requires IsBoard(g)
    ensures Winner(g).Some? ==> HasLine(g, Winner(g).value)
    ensures Winner(g).None? <==> !HasLine(g, X) && !HasLine(g, O)
  {
    WinnerIsFirstCompleteLine(g);
    if Winner(g).Some? {
      var m := Winner(g).value;
      assert HasLine(g, m);
      assert m == X || m == O;
    } else {
      forall k | 0 <= k < 8 ensures !LineWonBy(g, k, X) && !LineWonBy(g, k, O) {
        assert !LineComplete(g, k);
      }
    }
  }

  // ---------------------------------------------------------------------
  // terminal
  // ---------------------------------------------------------------------

  /** `terminal`: there is a winner, or no row has an empty cell. */
  predicate Terminal(g: Grid)
    requires IsBoard(g)
  {
    Winner(g).Some? || forall r | 0 <= r < |g| :: Empty !in g[r]
  }

  /** The game is over exactly when someone has won or no legal move is left. */
  lemma TerminalIffNoMoves(g: Grid)
    requires IsBoard(g)
    ensures Terminal(g) <==> Winner(g).Some? || EmptyCells(g) == []
  {
    if EmptyCells(g) != [] {
      EmptyCellsMembers(g, EmptyCells(g)[0]);
    } else {
      forall r, j | 0 <= r < 3 && 0 <= j < 3 ensures g[r][j] != Empty {
        EmptyCellsMembers(g, (r, j));
      }
    }
  }

  // ---------------------------------------------------------------------
  // utility
  // ---------------------------------------------------------------------

  /** `utility`: 1 when X has won, -1 when O has won, 0 otherwise. */
  function Utility(g: Grid): (u: int)
    requires IsBoard(g)
    ensures u in {-1, 0, 1}
    ensures u == 1 <==> Winner(g) == Some(X)
    ensures u == -1 <==> Winner(g) == Some(O)
    ensures u == 0 <==> Winner(g) == None
  {
    match Winner(g)
    case Some(X) => 1
    case Some(O) => -1
    case None => 0
  }

  /** The reward is 0 exactly when no line is complete, and otherwise the sign of the first complete line's owner. */
  lemma UtilityOfLines(g: Grid)
    requires IsBoard(g)
    ensures Utility(g) == 0 <==> !HasLine(g, X) && !HasLine(g, O)
    ensures Utility(g) == 1 ==> HasLine(g, X)
    ensures Utility(g) == -1 ==> HasLine(g, O)
  {
    WinnerHasLine(g);
  }

  // ---------------------------------------------------------------------
  // minimax (the terminal guard only)
  // ---------------------------------------------------------------------

  /** What `minimax` does before its search: give up on a finished game, or search for the player to move. */
  datatype SearchStart = NoAction | SearchFor(mover: Mark)

  /**
   * The part of `minimax` before the search: None on a terminal board;
   * otherwise the search goes on for the player to move, who has at least
   * one legal move.
   */
  function MinimaxGuard(g: Grid): (s: SearchStart)
    requires IsBoard(g)
    ensures s == NoAction <==> Terminal(g)
    ensures s.SearchFor? ==> s.mover == Player(g) && EmptyCells(g) != []
  {
    TerminalIffNoMoves(g);
    if Terminal(g) then NoAction else SearchFor(Player(g))
  }

  // ---------------------------------------------------------------------
  // Example boards
  // ---------------------------------------------------------------------

  /** A completed top row of X's on an otherwise empty board: X has won and the game is over. */
  lemma TopRowOfX()
    ensures var g := [[Marked(X), Marked(X), Marked(X)], [Empty, Empty, Empty], [Empty, Empty, Empty]];
      IsBoard(g) && Winner(g) == Some(X) && Terminal(g) && Utility(g) == 1
  {
  }

  /** A full board without three in a row: no winner, the game is over, and the reward is 0. */
  lemma FullBoardDraw()
    ensures var g := [[Marked(X), Marked(O), Marked(X)],
                      [Marked(X), Marked(O), Marked(O)],
                      [Marked(O), Marked(X), Marked(X)]];
      IsBoard(g) && Winner(g) == None && Terminal(g) && Utility(g) == 0
  {
  }

  /** The starting board is not finished, and the search starts for X with nine moves to choose from. */
  lemma InitialBoardOpen()
    ensures |EmptyCells(InitialGrid())| == 9
    ensures !Terminal(InitialGrid()) && MinimaxGuard(InitialGrid()) == SearchFor(X)
  {
    InitialMoverIsX();
    ActionsPlusMarks(InitialGrid());
    TerminalIffNoMoves(InitialGrid());
  }
}
