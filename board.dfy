/** Connect Four rules on a board of 6 rows and 7 columns.
    Row 0 is the top row; a piece dropped into a column falls to the lowest
    empty cell. Cells hold 'R', 'Y' or the empty marker '_'. */
module Board {

  const Rows := 6
  const Cols := 7
  const Empty := '_'

  /** The contents of a board, row by row. */
  type Grid = seq<seq<char>>

  predicate WellFormed(g: Grid) {
    |g| == Rows && forall r :: 0 <= r < Rows ==> |g[r]| == Cols
  }

  predicate Shaped(a: array2<char>) {
    a.Length0 == Rows && a.Length1 == Cols
  }

  /** The value held by a board array. */
  function Cells(a: array2<char>): (g: Grid)
    reads a
    ensures |g| == a.Length0
    ensures forall r :: 0 <= r < a.Length0 ==> |g[r]| == a.Length1
    ensures forall r, c :: 0 <= r < a.Length0 && 0 <= c < a.Length1 ==> g[r][c] == a[r, c]
    ensures Shaped(a) ==> WellFormed(g)
  {
    seq(a.Length0, r requires 0 <= r < a.Length0 reads a =>
      seq(a.Length1, c requires 0 <= c < a.Length1 reads a => a[r, c]))
  }

  /** Gravity: no empty cell lies below a filled cell of the same column. */
  predicate Settled(g: Grid) {
    WellFormed(g) &&
    forall r, c :: 0 <= r < Rows - 1 && 0 <= c < Cols ==> Supported(g, r, c)
  }

  /** A filled cell at (r, c) has a filled cell under it. */
  predicate Supported(g: Grid, r: nat, c: nat)
    requires WellFormed(g) && r < Rows - 1 && c < Cols
  {
    g[r][c] != Empty ==> g[r + 1][c] != Empty
  }

  // ---------------------------------------------------------------------
  // Players

  /** The player who moves after `current`: 'R' is followed by 'Y', and
      anything else by 'R'. */
  function GetNextPlayer(current: char): (next: char)
    ensures next == 'R' || next == 'Y'
    ensures (current == 'R' || current == 'Y') ==> next != current
    ensures current != 'R' ==> next == 'R'
  {
    if current == 'R' then 'Y' else 'R'
  }

  // ---------------------------------------------------------------------
  // Dropping a piece

  /** Where the scan of makeMove stops when it starts at row `r`: it walks
      down while the cell below is empty and never goes past the last row. */
  function Landing(g: Grid, col: nat, r: nat): (row: nat)
    requires WellFormed(g) && col < Cols && r < Rows - 1
    decreases Rows - r
    ensures r <= row < Rows
    ensures forall k :: r < k <= row ==> g[k][col] == Empty
    ensures row < Rows - 1 ==> g[row + 1][col] != Empty
  {
    if g[r + 1][col] != Empty then r
    else if r + 1 == Rows - 1 then r + 1
    else Landing(g, col, r + 1)
  }

  /** The row makeMove writes to: the last row of the run of empty cells
      that starts at row 1 (row 0 itself is never inspected). */
  function LandingRow(g: Grid, col: nat): (row: nat)
    requires WellFormed(g) && col < Cols
    ensures row < Rows
    ensures forall k :: 1 <= k <= row ==> g[k][col] == Empty
    ensures row < Rows - 1 ==> g[row + 1][col] != Empty
  {
    Landing(g, col, 0)
  }

  /** The board after `symbol` is dropped into column `col`. */
  function Drop(g: Grid, col: nat, symbol: char): (h: Grid)
    requires WellFormed(g) && col < Cols
    ensures WellFormed(h)
  {
    var row := LandingRow(g, col);
    g[row := g[row][col := symbol]]
  }

  /** On a settled board whose column `col` still has room, the piece lands
      in the lowest empty cell of that column, no other cell changes, and the
      board stays settled. */
  lemma {:induction false} DropFillsLowestEmpty(g: Grid, col: nat, symbol: char)
    requires Settled(g) && col < Cols && g[0][col] == Empty
    ensures var row := LandingRow(g, col);
      && g[row][col] == Empty
      && (forall k :: 0 <= k <= row ==> g[k][col] == Empty)
      && (forall k :: row < k < Rows ==> g[k][col] != Empty)
      && Drop(g, col, symbol)[row][col] == symbol
      && (forall r, c :: 0 <= r < Rows && 0 <= c < Cols && (r != row || c != col) ==>
            Drop(g, col, symbol)[r][c] == g[r][c])
      && Settled(Drop(g, col, symbol))
  {
    var row := LandingRow(g, col);
    var h := Drop(g, col, symbol);
    if row < Rows - 1 {
      FilledBelow(g, col, row + 1);
    }
    assert forall k :: 0 <= k <= row ==> g[k][col] == Empty;
    assert forall r, c :: 0 <= r < Rows && 0 <= c < Cols && (r != row || c != col) ==> h[r][c] == g[r][c];
    forall r, c | 0 <= r < Rows - 1 && 0 <= c < Cols
      ensures Supported(h, r, c)
    {
      if c != col || r > row {
        assert Supported(g, r, c);
      }
    }
  }

  /** Gravity: below a filled cell, the rest of the column is filled. */
  lemma {:induction false} FilledBelow(g: Grid, col: nat, row: nat)
    requires Settled(g) && col < Cols && row < Rows && g[row][col] != Empty
    ensures forall k :: row <= k < Rows ==> g[k][col] != Empty
    decreases Rows - row
  {
    if row < Rows - 1 {
      assert Supported(g, row, col);
      FilledBelow(g, col, row + 1);
    }
  }

  /** makeMove: drops `symbol` into column `col` of `board`, in place.
      Like the source, it does not reject a full column: the scan then stops
      at row 0 and overwrites the top cell. */
  method MakeMove(board: array2<char>, col: nat, symbol: char)
    requires Shaped(board) && col < Cols
    modifies board
    ensures Cells(board) == Drop(old(Cells(board)), col, symbol)
  {
    ghost var g := Cells(board);
    var firstEmptyRow := 0;
    while board[firstEmptyRow + 1, col] == Empty
      invariant 0 <= firstEmptyRow < Rows - 1
      invariant Landing(g, col, firstEmptyRow) == LandingRow(g, col)
      decreases Rows - firstEmptyRow
    {
      firstEmptyRow := firstEmptyRow + 1;
      // make sure we don't go off the board
      if firstEmptyRow == Rows - 1 {
        break;
      }
    }
    assert firstEmptyRow == LandingRow(g, col);
    board[firstEmptyRow, col] := symbol;
    ghost var h := Drop(g, col, symbol);
    assert forall r :: 0 <= r < Rows ==> Cells(board)[r] == h[r];
  }

  /** getBoardCopy: a fresh board array, row by row a copy of `board`, so
      that moves made on the copy leave `board` as it was. */
  method GetBoardCopy(board: Grid) returns (boardCopy: array2<char>)
    requires WellFormed(board)
    ensures fresh(boardCopy) && Shaped(boardCopy)
    ensures Cells(boardCopy) == board
  {
    boardCopy := new char[Rows, Cols];
    for row := 0 to Rows
      invariant forall r, c :: 0 <= r < row && 0 <= c < Cols ==> boardCopy[r, c] == board[r][c]
    {
      for col := 0 to Cols
        invariant forall r, c :: 0 <= r < row && 0 <= c < Cols ==> boardCopy[r, c] == board[r][c]
        invariant forall c :: 0 <= c < col ==> boardCopy[row, c] == board[row][c]
      {
        boardCopy[row, col] := board[row][col];
      }
    }
    assert forall r :: 0 <= r < Rows ==> Cells(boardCopy)[r] == board[r];
  }

  // ---------------------------------------------------------------------
  // Successor boards

  /** The playable columns among the first `n`, in increasing order: those
      whose top cell is empty. */
  function PlayableBelow(g: Grid, n: nat): (cols: seq<nat>)
    requires WellFormed(g) && n <= Cols
    ensures forall k :: 0 <= k < |cols| ==> cols[k] < n && g[0][cols[k]] == Empty
    ensures forall c :: 0 <= c < n && g[0][c] == Empty ==> c in cols
    ensures forall j, k :: 0 <= j < k < |cols| ==> cols[j] < cols[k]
  {
    if n == 0 then []
    else PlayableBelow(g, n - 1) + (if g[0][n - 1] == Empty then [n - 1] else [])
  }

  function PlayableColumns(g: Grid): (cols: seq<nat>)
    requires WellFormed(g)
  {
    PlayableBelow(g, Cols)
  }

  /** The boards getNextMoves produces: one per playable column, in column order. */
  function NextGrids(g: Grid, player: char): (moves: seq<Grid>)
    requires WellFormed(g)
  {
    var cols := PlayableColumns(g);
    seq(|cols|, k requires 0 <= k < |cols| => Drop(g, cols[k], player))
  }

  /** The successor boards of a settled board: each is the board with
      `player` in the lowest empty cell of one playable column and no other
      change, and it is settled again. */
  lemma NextGridsAreSingleMoves(g: Grid, player: char, k: nat)
    requires Settled(g) && k < |NextGrids(g, player)|
    ensures var col := PlayableColumns(g)[k];
      && g[0][col] == Empty
      && (forall j :: 0 <= j < k ==> PlayableColumns(g)[j] < col)
      && Settled(NextGrids(g, player)[k])
      && NextGrids(g, player)[k][LandingRow(g, col)][col] == player
      && g[LandingRow(g, col)][col] == Empty
      && (forall r, c :: 0 <= r < Rows && 0 <= c < Cols && (r != LandingRow(g, col) || c != col) ==>
            NextGrids(g, player)[k][r][c] == g[r][c])
  {
    DropFillsLowestEmpty(g, PlayableColumns(g)[k], player);
  }

  /** getNextMoves: one fresh board per column whose top cell is empty, in
      increasing column order, each made by a move on its own copy, so the
      input board is left unchanged. */
  method GetNextMoves(currentBoard: Grid, player: char) returns (nextMoves: seq<array2<char>>)
    requires WellFormed(currentBoard)
    ensures |nextMoves| == |NextGrids(currentBoard, player)|
    ensures forall k :: 0 <= k < |nextMoves| ==>
      fresh(nextMoves[k]) && Shaped(nextMoves[k]) &&
      Cells(nextMoves[k]) == NextGrids(currentBoard, player)[k]
    ensures forall j, k :: 0 <= j < k < |nextMoves| ==> nextMoves[j] != nextMoves[k]
  {
    nextMoves := [];
    for col := 0 to Cols
      invariant |nextMoves| == |PlayableBelow(currentBoard, col)|
      invariant forall k :: 0 <= k < |nextMoves| ==>
        fresh(nextMoves[k]) && Shaped(nextMoves[k]) &&
        Cells(nextMoves[k]) == Drop(currentBoard, PlayableBelow(currentBoard, col)[k], player)
      invariant forall j, k :: 0 <= j < k < |nextMoves| ==> nextMoves[j] != nextMoves[k]
    {
      if currentBoard[0][col] == Empty {
        var boardCopy := MoveOnCopy(currentBoard, col, player);
        nextMoves := nextMoves + [boardCopy];
      }
      assert PlayableBelow(currentBoard, col + 1) ==
        PlayableBelow(currentBoard, col) + (if currentBoard[0][col] == Empty then [col] else []);
    }
  }

  /** The body of getNextMoves' loop: copy the board, then make the move on the copy. */
  method MoveOnCopy(currentBoard: Grid, col: nat, player: char) returns (boardCopy: array2<char>)
    requires WellFormed(currentBoard) && col < Cols
    ensures fresh(boardCopy) && Shaped(boardCopy)
    ensures Cells(boardCopy) == Drop(currentBoard, col, player)
  {
    boardCopy := GetBoardCopy(currentBoard);
    MakeMove(boardCopy, col, player);
  }

  // ---------------------------------------------------------------------
  // Winning

  /** The four cells hasWon tests from a start cell, one predicate per
      direction it scans. */
  predicate HorizontalAt(g: Grid, p: char, startRow: nat, startCol: nat)
    requires WellFormed(g) && startRow < 6 && startCol < 4
  {
    g[startRow][startCol] == p && g[startRow][startCol + 1] == p &&
    g[startRow][startCol + 2] == p && g[startRow][startCol + 3] == p
  }

  predicate VerticalAt(g: Grid, p: char, startRow: nat, startCol: nat)
    requires WellFormed(g) && startRow < 3 && startCol < 7
  {
    g[startRow][startCol] == p && g[startRow + 1][startCol] == p &&
    g[startRow + 2][startCol] == p && g[startRow + 3][startCol] == p
  }

  predicate DiagonalUpAt(g: Grid, p: char, startRow: nat, startCol: nat)
    requires WellFormed(g) && 3 <= startRow < 6 && startCol < 4
  {
    g[startRow][startCol] == p && g[startRow - 1][startCol + 1] == p &&
    g[startRow - 2][startCol + 2] == p && g[startRow - 3][startCol + 3] == p
  }

  predicate DiagonalDownAt(g: Grid, p: char, startRow: nat, startCol: nat)
    requires WellFormed(g) && startRow < 3 && startCol < 4
  {
    g[startRow][startCol] == p && g[startRow + 1][startCol + 1] == p &&
    g[startRow + 2][startCol + 2] == p && g[startRow + 3][startCol + 3] == p
  }

  /** The four scans of hasWon, over the start cells it tries. */
  predicate HorizontalWin(g: Grid, p: char)
    requires WellFormed(g)
  {
    exists startRow: nat, startCol: nat :: startRow < 6 && startCol < 4 && HorizontalAt(g, p, startRow, startCol)
  }

  predicate VerticalWin(g: Grid, p: char)
    requires WellFormed(g)
  {
    exists startRow: nat, startCol: nat :: startRow < 3 && startCol < 7 && VerticalAt(g, p, startRow, startCol)
  }

  predicate DiagonalUpWin(g: Grid, p: char)
    requires WellFormed(g)
  {
    exists startRow: nat, startCol: nat :: 3 <= startRow < 6 && startCol < 4 && DiagonalUpAt(g, p, startRow, startCol)
  }

  predicate DiagonalDownWin(g: Grid, p: char)
    requires WellFormed(g)
  {
    exists startRow: nat, startCol: nat :: startRow < 3 && startCol < 4 && DiagonalDownAt(g, p, startRow, startCol)
  }

  // Reference definition of four in a row, independent of the scan ranges.

  predicate OnBoard(r: int, c: int) {
    0 <= r < Rows && 0 <= c < Cols
  }

  /** The four directions a line can take from its first cell: right, down,
      up-right and down-right. */
  predicate Direction(dr: int, dc: int) {
    (dr == 0 && dc == 1) || (dr == 1 && dc == 0) || (dr == -1 && dc == 1) || (dr == 1 && dc == 1)
  }

  /** The four cells from (r, c) in direction (dr, dc) lie on the board and all hold `p`. */
  predicate Line(g: Grid, p: char, r: int, c: int, dr: int, dc: int)
    requires WellFormed(g)
  {
    OnBoard(r, c) && OnBoard(r + 3 * dr, c + 3 * dc) &&
    OnBoard(r + dr, c + dc) && OnBoard(r + 2 * dr, c + 2 * dc) &&
    g[r][c] == p && g[r + dr][c + dc] == p &&
    g[r + 2 * dr][c + 2 * dc] == p && g[r + 3 * dr][c + 3 * dc] == p
  }

  ghost predicate FourInARow(g: Grid, p: char)
    requires WellFormed(g)
  {
    exists r, c, dr, dc :: Direction(dr, dc) && Line(g, p, r, c, dr, dc)
  }

  /** hasWon: its four scans find a start cell exactly when some line of
      four on the board holds `p`. The source returns None rather than False
      when there is none; that is false here. */
  predicate HasWon(g: Grid, p: char): (won: bool)
    requires WellFormed(g)
    ensures won <==> FourInARow(g, p)
  {
    ScansIffFourInARow(g, p);
    HorizontalWin(g, p) || VerticalWin(g, p) || DiagonalUpWin(g, p) || DiagonalDownWin(g, p)
  }

  /** The scan ranges of hasWon cover exactly the lines of four that fit on
      the board. */
  lemma ScansIffFourInARow(g: Grid, p: char)
    requires WellFormed(g)
    ensures HorizontalWin(g, p) || VerticalWin(g, p) || DiagonalUpWin(g, p) || DiagonalDownWin(g, p)
        <==> FourInARow(g, p)
  {
    if HorizontalWin(g, p) || VerticalWin(g, p) || DiagonalUpWin(g, p) || DiagonalDownWin(g, p) {
      ScannedIsLine(g, p);
    }
    if FourInARow(g, p) {
      var r, c, dr, dc :| Direction(dr, dc) && Line(g, p, r, c, dr, dc);
      LineIsScanned(g, p, r, c, dr, dc);
    }
  }

  /** Every start cell hasWon tries gives a line of four on the board. */
  lemma ScannedIsLine(g: Grid, p: char)
    requires WellFormed(g)
    requires HorizontalWin(g, p) || VerticalWin(g, p) || DiagonalUpWin(g, p) || DiagonalDownWin(g, p)
    ensures FourInARow(g, p)
  {
    if HorizontalWin(g, p) {
      var r: nat, c: nat :| r < 6 && c < 4 && HorizontalAt(g, p, r, c);
      assert Direction(0, 1) && Line(g, p, r, c, 0, 1);
    } else if VerticalWin(g, p) {
      var r: nat, c: nat :| r < 3 && c < 7 && VerticalAt(g, p, r, c);
      assert Direction(1, 0) && Line(g, p, r, c, 1, 0);
    } else if DiagonalUpWin(g, p) {
      var r: nat, c: nat :| 3 <= r < 6 && c < 4 && DiagonalUpAt(g, p, r, c);
      assert Direction(-1, 1) && Line(g, p, r, c, -1, 1);
    } else {
      var r: nat, c: nat :| r < 3 && c < 4 && DiagonalDownAt(g, p, r, c);
      assert Direction(1, 1) && Line(g, p, r, c, 1, 1);
    }
  }

  /** Every line of four on the board starts at a cell hasWon tries. */
  lemma LineIsScanned(g: Grid, p: char, r: int, c: int, dr: int, dc: int)
    requires WellFormed(g) && Direction(dr, dc) && Line(g, p, r, c, dr, dc)
    ensures HorizontalWin(g, p) || VerticalWin(g, p) || DiagonalUpWin(g, p) || DiagonalDownWin(g, p)
  {
    if dr == 0 {
      assert 0 <= r < 6 && 0 <= c < 4;
      assert HorizontalAt(g, p, r, c);
    } else if dc == 0 {
      assert 0 <= r < 3 && 0 <= c < 7;
      assert VerticalAt(g, p, r, c);
    } else if dr == -1 {
      assert 3 <= r < 6 && 0 <= c < 4;
      assert DiagonalUpAt(g, p, r, c);
    } else {
      assert 0 <= r < 3 && 0 <= c < 4;
      assert DiagonalDownAt(g, p, r, c);
    }
  }

  /** A move by one player never completes a line for another player: every
      line of `q` after the move was already there before it. */
  lemma MoveNeverWinsForOpponent(g: Grid, col: nat, p: char, q: char)
    requires WellFormed(g) && col < Cols && p != q
    ensures HasWon(Drop(g, col, p), q) ==> HasWon(g, q)
  {
    var h := Drop(g, col, p);
    if FourInARow(h, q) {
      var r, c, dr, dc :| Direction(dr, dc) && Line(h, q, r, c, dr, dc);
      assert forall rr, cc :: OnBoard(rr, cc) && h[rr][cc] == q ==> g[rr][cc] == q;
      assert Line(g, q, r, c, dr, dc);
    }
  }

  // ---------------------------------------------------------------------
  // Moves left

  /** Row-major scan from cell (r, c) for an empty cell, as hasMovesLeft does. */
  function EmptyFrom(g: Grid, r: nat, c: nat): (found: bool)
    requires WellFormed(g) && r <= Rows && c <= Cols
    decreases Rows - r, Cols - c
    ensures found <==> exists rr, cc :: OnBoard(rr, cc) && (rr > r || (rr == r && cc >= c)) && g[rr][cc] == Empty
  {
    if r == Rows then false
    else if c == Cols then EmptyFrom(g, r + 1, 0)
    else if g[r][c] == Empty then true
    else EmptyFrom(g, r, c + 1)
  }

  /** hasMovesLeft: the board has an empty cell. */
  function HasMovesLeft(g: Grid): (left: bool)
    requires WellFormed(g)
    ensures left <==> exists r, c :: OnBoard(r, c) && g[r][c] == Empty
  {
    EmptyFrom(g, 0, 0)
  }

  /** On a settled board, moves are left exactly when some column is
      playable, that is when getNextMoves produces at least one board. */
  lemma {:induction false} MovesLeftIffPlayable(g: Grid, player: char)
    requires Settled(g)
    ensures HasMovesLeft(g) <==> |NextGrids(g, player)| > 0
  {
    if HasMovesLeft(g) {
      var r, c :| OnBoard(r, c) && g[r][c] == Empty;
      EmptyAbove(g, r, c);
      assert c in PlayableColumns(g);
    }
    if |NextGrids(g, player)| > 0 {
      var c := PlayableColumns(g)[0];
      assert OnBoard(0, c) && g[0][c] == Empty;
    }
  }

  /** Gravity, read upwards: above an empty cell the column is empty. */
  lemma {:induction false} EmptyAbove(g: Grid, r: nat, c: nat)
    requires Settled(g) && r < Rows && c < Cols && g[r][c] == Empty
    ensures g[0][c] == Empty
    decreases r
  {
    if r > 0 {
      assert Supported(g, r - 1, c);
      EmptyAbove(g, r - 1, c);
    }
  }
}
