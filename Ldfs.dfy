/**
 * Depth-limited backtracking for eight queens (ad-2 LDFS.java). The call at `depth`
 * moves the queen of row `depth` to each other column that `isSafe` accepts and
 * recurses on the next row, writing the shared board in place and undoing the move
 * when the recursion fails.
 */
module Ldfs {
  import opened Wrappers
  import opened Queens

  /**
   * What `isSafe` looks at: no queen above (row, col) in its column, and no queen on
   * either upward diagonal starting at (row, col), that cell included.
   */
  ghost predicate SafeToPlace(b: array2<int>, row: int, col: int)
    requires IsBoard(b) && 0 <= row < N && 0 <= col < N
    reads b
  {
    (forall i :: 0 <= i < row ==> b[i, col] != 1) &&
    (forall i, j :: 0 <= i <= row && 0 <= j < N && row - i == col - j ==> b[i, j] != 1) &&
    (forall i, j :: 0 <= i <= row && 0 <= j < N && row - i == j - col ==> b[i, j] != 1)
  }

  /** `isSafe` accepts exactly the empty cells that no queen on a higher row attacks. */
  lemma SafeToPlaceIff(b: array2<int>, row: int, col: int)
    requires IsBoard(b) && 0 <= row < N && 0 <= col < N
    ensures SafeToPlace(b, row, col) <==> b[row, col] != 1 && SafeAbove(b, row, col)
  {
    if b[row, col] != 1 && SafeAbove(b, row, col) {
      forall i, j | 0 <= i <= row && 0 <= j < N && (row - i == col - j || row - i == j - col)
        ensures b[i, j] != 1
      {
        if i < row && b[i, j] == 1 {
          assert Attacks(i, j, row, col);
        }
      }
    }
    if SafeToPlace(b, row, col) {
      forall i, j | 0 <= i < row && 0 <= j < N && b[i, j] == 1
        ensures !Attacks(i, j, row, col)
      {
      }
    }
  }

  /** `isSafe(board, row, col)`: three scans, each stopping at the first queen it meets. */
  method IsSafe(board: array2<int>, row: int, col: int) returns (safe: bool)
    requires IsBoard(board) && 0 <= row < N && 0 <= col < N
    ensures safe == SafeToPlace(board, row, col)
  {
    var i := 0;
    while i < row
      invariant 0 <= i <= row
      invariant forall x :: 0 <= x < i ==> board[x, col] != 1
    {
      if board[i, col] == 1 {
        return false;
      }
      i := i + 1;
    }
    // Up and to the left, starting at the cell itself.
    i := row;
    var j := col;
    while i >= 0 && j >= 0
      invariant -1 <= i <= row && row - i == col - j
      invariant forall x, y :: i < x <= row && 0 <= y < N && row - x == col - y ==> board[x, y] != 1
    {
      if board[i, j] == 1 {
        return false;
      }
      i, j := i - 1, j - 1;
    }
    // Up and to the right, starting at the cell itself.
    i, j := row, col;
    while i >= 0 && j < N
      invariant -1 <= i <= row && row - i == j - col
      invariant forall x, y :: i < x <= row && 0 <= y < N && row - x == y - col ==> board[x, y] != 1
    {
      if board[i, j] == 1 {
        return false;
      }
      i, j := i - 1, j + 1;
    }
    return true;
  }

  /** The loop that finds `currentQueenCol`: the first column of row `row` holding a queen, or -1. */
  method FindQueen(board: array2<int>, row: int) returns (c: int)
    requires IsBoard(board) && 0 <= row < N
    ensures c == -1 || (0 <= c < N && board[row, c] == 1)
    ensures forall j :: 0 <= j < c || (c == -1 && 0 <= j < N) ==> board[row, j] != 1
  {
    c := 0;
    while c < N
      invariant 0 <= c <= N
      invariant forall j :: 0 <= j < c ==> board[row, j] != 1
    {
      if board[row, c] == 1 {
        return;
      }
      c := c + 1;
    }
    c := -1;
  }

  /**
   * Rows `depth` .. 7 each hold their only queen in the column `placed` names,
   * safe from every queen on the rows above.
   */
  ghost predicate Placed(b: array2<int>, depth: int, placed: seq<int>)
    requires IsBoard(b) && 0 <= depth <= N
    reads b
  {
    |placed| == N - depth &&
    forall k :: 0 <= k < |placed| ==>
      OnlyQueenAt(b, depth + k, placed[k]) && SafeAbove(b, depth + k, placed[k])
  }

  /**
   * `solveLDFS(board, depth, maxDepth, print)`. `Ok(b)` is the boolean the call
   * returns and `Err(IndexOutOfBounds)` the exception raised when a row without a
   * queen reaches line 50 with column -1. The ghost `placed` lists, on success,
   * the column each row from `depth` down ends in.
   */
  method SolveLdfs(board: array2<int>, depth: int, maxDepth: int) returns (r: Result<bool>, ghost placed: seq<int>)
    requires IsBoard(board) && 0 <= depth <= N
    modifies board
    decreases N - depth
    // Only rows `depth` .. 7 are ever written.
    ensures forall i, j :: 0 <= i < depth && 0 <= j < N ==> board[i, j] == old(board[i, j])
    ensures depth == N ==> r == Ok(true)
    ensures depth < N && depth >= maxDepth ==> r == Ok(false)
    // On failure the queens are back where they were; a cell that held neither
    // 0 nor 1 may have been cleared to 0.
    ensures r == Ok(false) ==> forall i, j :: 0 <= i < N && 0 <= j < N ==>
      board[i, j] == old(board[i, j]) || (board[i, j] == 0 && old(board[i, j]) != 1)
    ensures old(Binary(board)) ==> Binary(board)
    // A board with a queen in each of the remaining rows never raises.
    ensures old(OneQueenPerRowFrom(board, depth)) ==> r.Ok?
    // On success each remaining row has one safe queen, never in its starting column.
    ensures r == Ok(true) && old(OneQueenPerRowFrom(board, depth)) ==>
      Placed(board, depth, placed) &&
      forall k :: 0 <= k < |placed| ==> old(board[depth + k, placed[k]]) != 1
  {
    placed := [];
    if depth == N {
      return Ok(true), placed;
    }
    if depth >= maxDepth {
      return Ok(false), placed;
    }
    ghost var oneEach := OneQueenPerRowFrom(board, depth);
    var current := FindQueen(board, depth);
    assert current == -1 ==> !HasQueen(board, depth);
    var col := 0;
    while col < N
      invariant 0 <= col <= N
      invariant oneEach == old(OneQueenPerRowFrom(board, depth))
      invariant current == -1 ==> !oneEach
      invariant current != -1 ==> 0 <= current < N && old(board[depth, current]) == 1
      invariant forall i, j :: 0 <= i < depth && 0 <= j < N ==> board[i, j] == old(board[i, j])
      invariant forall i, j :: 0 <= i < N && 0 <= j < N ==>
        board[i, j] == old(board[i, j]) || (board[i, j] == 0 && old(board[i, j]) != 1)
      invariant old(Binary(board)) ==> Binary(board)
    {
      if col != current {
        var safe := IsSafe(board, depth, col);
        if safe {
          if current == -1 {
            return Err(IndexOutOfBounds), placed;
          }
          SafeToPlaceIff(board, depth, col);
          assert old(board[depth, col]) != 1;
          assert forall i, j :: 0 <= i < depth && 0 <= j < N && old(board[i, j]) == 1 ==>
            !Attacks(i, j, depth, col);
          board[depth, current] := 0;
          board[depth, col] := 1;
          label call:
          assert oneEach ==> OneQueenPerRowFrom(board, depth + 1) by {
            if oneEach {
              forall r | depth + 1 <= r < N
                ensures HasQueen(board, r) && AtMostOneQueen(board, r)
              {
                assert old(HasQueen(board, r));
                var c :| 0 <= c < N && old(board[r, c]) == 1;
                assert board[r, c] == 1;
                assert old(AtMostOneQueen(board, r));
              }
            }
          }
          var sub, subPlaced := SolveLdfs(board, depth + 1, maxDepth);
          if sub.Err? {
            return sub, placed;
          }
          if sub.value {
            placed := [col] + subPlaced;
            if oneEach {
              assert OnlyQueenAt(board, depth, col) by {
                assert old(AtMostOneQueen(board, depth));
              }
              forall k | 0 <= k < |placed|
                ensures OnlyQueenAt(board, depth + k, placed[k]) && SafeAbove(board, depth + k, placed[k])
                ensures old(board[depth + k, placed[k]]) != 1
              {
                if k > 0 {
                  assert placed[k] == subPlaced[k - 1];
                  assert old@call(board[depth + k, placed[k]]) != 1;
                }
              }
            }
            return Ok(true), placed;
          }
          board[depth, col] := 0;
          board[depth, current] := 1;
        }
      }
      col := col + 1;
    }
    return Ok(false), placed;
  }

  /**
   * The call ad-2 Main.java makes: `solveLDFS(board, 0, 8, verbose)` on a board with one
   * queen in every row. It never raises, and when it answers true every queen has moved
   * to another column of its row and the board is solved.
   */
  method SolveBoard(board: array2<int>) returns (r: Result<bool>)
    requires IsBoard(board) && OneQueenPerRow(board)
    modifies board
    ensures r.Ok?
    ensures r == Ok(true) ==> OneQueenPerRow(board) && Peaceful(board)
    ensures r == Ok(true) ==> forall i, j :: 0 <= i < N && 0 <= j < N && board[i, j] == 1 ==> old(board[i, j]) != 1
    ensures r == Ok(false) ==> forall i, j :: 0 <= i < N && 0 <= j < N ==>
      (board[i, j] == 1 <==> old(board[i, j]) == 1)
  {
    ghost var placed;
    r, placed := SolveLdfs(board, 0, N);
    if r == Ok(true) {
      forall i | 0 <= i < N
        ensures OnlyQueenAt(board, i, placed[i]) && SafeAbove(board, i, placed[i])
      {
        assert OnlyQueenAt(board, 0 + i, placed[i]);
      }
      SafeRowsArePeaceful(board, placed);
      forall i, j | 0 <= i < N && 0 <= j < N && board[i, j] == 1
        ensures old(board[i, j]) != 1
      {
        assert OnlyQueenAt(board, 0 + i, placed[i]);
        assert j == placed[i];
        assert old(board[0 + i, placed[i]]) != 1;
      }
    }
  }
}
