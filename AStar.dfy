/**
 * The A* solver for eight queens (ad-2 AStar.java): a search over boards in which a
 * step moves one queen to another column of its row, ordered by f = g + h where g is
 * the number of moves made and h the conflict count of `heuristic`.
 */
module AStar {
  import opened Wrappers
  import opened Queens
  import JavaInt

  // ---------------------------------------------------------------------------
  // heuristic

  /** `heuristic(board)`: the three nested loops, summing the hits of every queen on the rows below it. */
  method Heuristic(board: array2<int>) returns (h: int)
    requires IsBoard(board)
    ensures h == Conflicts(board)
  {
    h := 0;
    var i := 0;
    while i < N
      invariant 0 <= i <= N
      invariant h == ConflictsAbove(board, i)
    {
      var j := 0;
      while j < N
        invariant 0 <= j <= N
        invariant h == ConflictsAbove(board, i) + RowConflictsBefore(board, i, j)
      {
        if board[i, j] == 1 {
          var k := i + 1;
          while k < N
            invariant i + 1 <= k <= N
            invariant h == ConflictsAbove(board, i) + RowConflictsBefore(board, i, j) + ConflictsBefore(board, i, j, k)
          {
            ghost var h0 := h;
            if board[k, j] == 1 {
              h := h + 1;
            }
            var diag1 := j - (k - i);
            var diag2 := j + (k - i);
            if diag1 >= 0 && board[k, diag1] == 1 {
              h := h + 1;
            }
            if diag2 < N && board[k, diag2] == 1 {
              h := h + 1;
            }
            assert h == h0 + RowConflicts(board, i, j, k);
            k := k + 1;
          }
        }
        j := j + 1;
      }
      i := i + 1;
    }
  }

  /** The number of queens among the first `n` cells of row k that the queen at (i, j) attacks. */
  ghost function AttackedInRow(b: array2<int>, i: int, j: int, k: int, n: int): nat
    requires IsBoard(b) && 0 <= k < N && 0 <= n <= N
    reads b
  {
    if n == 0 then 0
    else AttackedInRow(b, i, j, k, n - 1) + (if b[k, n - 1] == 1 && Attacks(i, j, k, n - 1) then 1 else 0)
  }

  lemma {:induction false} AttackedInRowSplit(b: array2<int>, i: int, j: int, k: int, n: int)
    requires IsBoard(b) && 0 <= i < k < N && 0 <= j < N && 0 <= n <= N
    ensures AttackedInRow(b, i, j, k, n) ==
      (if j < n && b[k, j] == 1 then 1 else 0)
      + (if 0 <= j - (k - i) < n && b[k, j - (k - i)] == 1 then 1 else 0)
      + (if j + (k - i) < n && b[k, j + (k - i)] == 1 then 1 else 0)
  {
    if n > 0 {
      AttackedInRowSplit(b, i, j, k, n - 1);
    }
  }

  /** What the heuristic adds for one queen and one lower row is the number of queens there that it attacks. */
  lemma RowConflictsCountsAttacked(b: array2<int>, i: int, j: int, k: int)
    requires IsBoard(b) && 0 <= i < k < N && 0 <= j < N
    ensures RowConflicts(b, i, j, k) == AttackedInRow(b, i, j, k, N)
  {
    AttackedInRowSplit(b, i, j, k, N);
  }

  // ---------------------------------------------------------------------------
  // generateNeighbors

  /** Move the queen of row `row` from column `from` to column `to`. */
  datatype Move = Move(row: int, from: int, to: int)

  /** A move of a queen that is on the board to a different column of its row. */
  ghost predicate ValidMove(b: array2<int>, mv: Move)
    requires IsBoard(b)
    reads b
  {
    0 <= mv.row < N && 0 <= mv.from < N && 0 <= mv.to < N && mv.from != mv.to && b[mv.row, mv.from] == 1
  }

  /** Row-major order of moves: by row, then by the queen's column, then by the target column. */
  predicate MoveBefore(x: Move, y: Move) {
    x.row < y.row || (x.row == y.row && (x.from < y.from || (x.from == y.from && x.to < y.to)))
  }

  predicate InOrder(ms: seq<Move>) {
    forall p, q :: 0 <= p < q < |ms| ==> MoveBefore(ms[p], ms[q])
  }

  /** The moves of the queen at (row, from) to the columns below `n`, in increasing order. */
  function QueenMoves(row: int, from: int, n: int): (ms: seq<Move>)
    requires 0 <= from < N && 0 <= n <= N
    ensures |ms| == if from < n then n - 1 else n
    ensures forall p :: 0 <= p < |ms| ==>
      ms[p].row == row && ms[p].from == from && 0 <= ms[p].to < n && ms[p].to != from
  {
    if n == 0 then []
    else QueenMoves(row, from, n - 1) + (if n - 1 != from then [Move(row, from, n - 1)] else [])
  }

  /** The moves of the queens among the first `n` cells of row i. */
  ghost function RowMoves(b: array2<int>, i: int, n: int): (ms: seq<Move>)
    requires IsBoard(b) && 0 <= i < N && 0 <= n <= N
    reads b
  {
    if n == 0 then []
    else RowMoves(b, i, n - 1) + (if b[i, n - 1] == 1 then QueenMoves(i, n - 1, b.Length1) else [])
  }

  /** Seven moves per queen of the row prefix, each of a queen there. */
  lemma {:induction false} RowMovesValid(b: array2<int>, i: int, n: int)
    requires IsBoard(b) && 0 <= i < N && 0 <= n <= N
    ensures |RowMoves(b, i, n)| == (N - 1) * CountInRow(b, i, n)
    ensures forall p :: 0 <= p < |RowMoves(b, i, n)| ==>
      ValidMove(b, RowMoves(b, i, n)[p]) && RowMoves(b, i, n)[p].row == i && RowMoves(b, i, n)[p].from < n
  {
    if n > 0 {
      RowMovesValid(b, i, n - 1);
      var prev, here := RowMoves(b, i, n - 1), if b[i, n - 1] == 1 then QueenMoves(i, n - 1, N) else [];
      assert RowMoves(b, i, n) == prev + here;
      forall p | 0 <= p < |prev + here|
        ensures ValidMove(b, (prev + here)[p]) && (prev + here)[p].row == i && (prev + here)[p].from < n
      {
        if p >= |prev| {
          assert (prev + here)[p] == here[p - |prev|];
        }
      }
    }
  }

  /** All queens on the board. */
  ghost function QueensAbove(b: array2<int>, m: int): nat
    requires IsBoard(b) && 0 <= m <= N
    reads b
  {
    if m == 0 then 0 else QueensAbove(b, m - 1) + QueensInRow(b, m - 1)
  }

  /** The moves of the queens on the first `m` rows. */
  ghost function MovesAbove(b: array2<int>, m: int): (ms: seq<Move>)
    requires IsBoard(b) && 0 <= m <= N
    reads b
  {
    if m == 0 then [] else MovesAbove(b, m - 1) + RowMoves(b, m - 1, b.Length1)
  }

  /** Seven moves per queen of the first m rows, each of a queen there. */
  lemma {:induction false} MovesAboveValid(b: array2<int>, m: int)
    requires IsBoard(b) && 0 <= m <= N
    ensures |MovesAbove(b, m)| == (N - 1) * QueensAbove(b, m)
    ensures forall p :: 0 <= p < |MovesAbove(b, m)| ==> ValidMove(b, MovesAbove(b, m)[p]) && MovesAbove(b, m)[p].row < m
  {
    if m > 0 {
      MovesAboveValid(b, m - 1);
      RowMovesValid(b, m - 1, N);
      var prev, row := MovesAbove(b, m - 1), RowMoves(b, m - 1, N);
      assert MovesAbove(b, m) == prev + row;
      forall p | 0 <= p < |prev + row|
        ensures ValidMove(b, (prev + row)[p]) && (prev + row)[p].row < m
      {
        if p >= |prev| {
          assert (prev + row)[p] == row[p - |prev|];
        }
      }
    }
  }

  /** Every move of every queen, in the order `generateNeighbors` produces the boards. */
  ghost function Moves(b: array2<int>): seq<Move>
    requires IsBoard(b)
    reads b
  {
    MovesAbove(b, b.Length0)
  }

  /** `nb` is `b` after move `mv`: only the two cells of the move differ. */
  ghost predicate IsMoveOf(nb: array2<int>, b: array2<int>, mv: Move)
    requires IsBoard(nb) && IsBoard(b)
    reads nb, b
  {
    forall x, y :: 0 <= x < N && 0 <= y < N ==>
      nb[x, y] == (if x == mv.row && y == mv.to then 1 else if x == mv.row && y == mv.from then 0 else b[x, y])
  }

  /** `copyBoard(board)`: a fresh 8x8 array holding the same cells. */
  method CopyBoard(board: array2<int>) returns (copy: array2<int>)
    requires IsBoard(board)
    ensures fresh(copy) && IsBoard(copy)
    ensures forall x, y :: 0 <= x < N && 0 <= y < N ==> copy[x, y] == board[x, y]
  {
    copy := new int[N, N];
    var i := 0;
    while i < N
      invariant 0 <= i <= N
      invariant forall x, y :: 0 <= x < i && 0 <= y < N ==> copy[x, y] == board[x, y]
    {
      var j := 0;
      while j < N
        invariant 0 <= j <= N
        invariant forall x, y :: 0 <= x < i && 0 <= y < N ==> copy[x, y] == board[x, y]
        invariant forall y :: 0 <= y < j ==> copy[i, y] == board[i, y]
      {
        copy[i, j] := board[i, j];
        j := j + 1;
      }
      i := i + 1;
    }
  }

  /** `copyBoard(source, destination)`: overwrite every cell of `destination`; the two may be the same array. */
  method CopyInto(source: array2<int>, destination: array2<int>)
    requires IsBoard(source) && IsBoard(destination)
    modifies destination
    ensures forall x, y :: 0 <= x < N && 0 <= y < N ==> destination[x, y] == old(source[x, y])
    ensures forall x, y :: 0 <= x < N && 0 <= y < N ==> source[x, y] == old(source[x, y])
  {
    var i := 0;
    while i < N
      invariant 0 <= i <= N
      invariant forall x, y :: 0 <= x < N && 0 <= y < N ==> source[x, y] == old(source[x, y])
      invariant forall x, y :: 0 <= x < i && 0 <= y < N ==> destination[x, y] == old(source[x, y])
    {
      var j := 0;
      while j < N
        invariant 0 <= j <= N
        invariant forall x, y :: 0 <= x < N && 0 <= y < N ==> source[x, y] == old(source[x, y])
        invariant forall x, y :: 0 <= x < i && 0 <= y < N ==> destination[x, y] == old(source[x, y])
        invariant forall y :: 0 <= y < j ==> destination[i, y] == old(source[i, y])
      {
        destination[i, j] := source[i, j];
        j := j + 1;
      }
      i := i + 1;
    }
  }

  /** The body of the innermost loop: a copy of `board` with the queen at (i, j) moved to (i, k). */
  method MoveQueen(board: array2<int>, i: int, j: int, k: int) returns (newBoard: array2<int>)
    requires IsBoard(board) && 0 <= i < N && 0 <= j < N && 0 <= k < N && j != k
    ensures fresh(newBoard) && IsBoard(newBoard) && IsMoveOf(newBoard, board, Move(i, j, k))
  {
    newBoard := CopyBoard(board);
    newBoard[i, j] := 0;
    newBoard[i, k] := 1;
  }

  /** The innermost loop of `generateNeighbors`: one fresh board per other column of row i for the queen at (i, j). */
  method QueenNeighbors(board: array2<int>, i: int, j: int) returns (neighbors: seq<array2<int>>)
    requires IsBoard(board) && 0 <= i < N && 0 <= j < N
    ensures Moved(board, neighbors, QueenMoves(i, j, N))
    ensures forall m :: 0 <= m < |neighbors| ==> fresh(neighbors[m])
  {
    neighbors := [];
    var k := 0;
    while k < N
      invariant 0 <= k <= N
      invariant |neighbors| == if j < k then k - 1 else k
      invariant forall m :: 0 <= m < |neighbors| ==>
        fresh(neighbors[m]) && IsBoard(neighbors[m]) && IsMoveOf(neighbors[m], board, Move(i, j, QueenTarget(j, m)))
    {
      if k != j {
        var newBoard := MoveQueen(board, i, j, k);
        neighbors := neighbors + [newBoard];
      }
      k := k + 1;
    }
    QueenMovesAt(i, j, N);
  }

  /** The column the m-th move of a queen in column `from` goes to. */
  function QueenTarget(from: int, m: int): int {
    if m < from then m else m + 1
  }

  lemma {:induction false} QueenMovesAt(row: int, from: int, n: int)
    requires 0 <= from < N && 0 <= n <= N
    ensures forall m :: 0 <= m < |QueenMoves(row, from, n)| ==>
      QueenMoves(row, from, n)[m] == Move(row, from, QueenTarget(from, m))
  {
    if n > 0 {
      QueenMovesAt(row, from, n - 1);
    }
  }

  /** The loop over the cells of row i in `generateNeighbors`. */
  method RowNeighbors(board: array2<int>, i: int) returns (neighbors: seq<array2<int>>)
    requires IsBoard(board) && 0 <= i < N
    ensures Moved(board, neighbors, RowMoves(board, i, N))
    ensures forall m :: 0 <= m < |neighbors| ==> fresh(neighbors[m])
  {
    neighbors := [];
    var j := 0;
    while j < N
      invariant 0 <= j <= N
      invariant Moved(board, neighbors, RowMoves(board, i, j))
      invariant forall m :: 0 <= m < |neighbors| ==> fresh(neighbors[m])
    {
      if board[i, j] == 1 {
        var more := QueenNeighbors(board, i, j);
        MovedConcat(board, neighbors, RowMoves(board, i, j), more, QueenMoves(i, j, N));
        neighbors := neighbors + more;
      }
      j := j + 1;
    }
  }

  /** `ns` holds, in order, the boards `b` turns into under the moves `ms`. */
  ghost predicate Moved(b: array2<int>, ns: seq<array2<int>>, ms: seq<Move>)
    requires IsBoard(b)
    reads b, ns
  {
    |ns| == |ms| && forall m :: 0 <= m < |ns| ==> IsBoard(ns[m]) && IsMoveOf(ns[m], b, ms[m])
  }

  lemma MovedConcat(b: array2<int>, ns1: seq<array2<int>>, ms1: seq<Move>, ns2: seq<array2<int>>, ms2: seq<Move>)
    requires IsBoard(b) && Moved(b, ns1, ms1) && Moved(b, ns2, ms2)
    ensures Moved(b, ns1 + ns2, ms1 + ms2)
  {
    forall m | |ns1| <= m < |ns1| + |ns2|
      ensures IsBoard((ns1 + ns2)[m]) && IsMoveOf((ns1 + ns2)[m], b, (ms1 + ms2)[m])
    {
      assert (ns1 + ns2)[m] == ns2[m - |ns1|];
      assert (ms1 + ms2)[m] == ms2[m - |ns1|];
    }
  }

  /**
   * `generateNeighbors(board)`: for each queen in row-major order, one fresh board per
   * other column of its row, in increasing column order.
   */
  method GenerateNeighbors(board: array2<int>) returns (neighbors: seq<array2<int>>)
    requires IsBoard(board)
    ensures Moved(board, neighbors, Moves(board))
    ensures forall m :: 0 <= m < |neighbors| ==> fresh(neighbors[m])
  {
    neighbors := [];
    var i := 0;
    while i < N
      invariant 0 <= i <= N
      invariant Moved(board, neighbors, MovesAbove(board, i))
      invariant forall m :: 0 <= m < |neighbors| ==> fresh(neighbors[m])
    {
      ghost var above := MovesAbove(board, i);
      ghost var row := RowMoves(board, i, N);
      assert MovesAbove(board, i + 1) == above + row;
      var more := RowNeighbors(board, i);
      MovedConcat(board, neighbors, above, more, row);
      neighbors := neighbors + more;
      i := i + 1;
    }
  }

  /** Two move lists in order, every move of the first before every move of the second, concatenate in order. */
  lemma ConcatInOrder(xs: seq<Move>, ys: seq<Move>)
    requires InOrder(xs) && InOrder(ys)
    requires forall p, q :: 0 <= p < |xs| && 0 <= q < |ys| ==> MoveBefore(xs[p], ys[q])
    ensures InOrder(xs + ys)
  {
  }

  lemma {:induction false} QueenMovesInOrder(row: int, from: int, n: int)
    requires 0 <= from < N && 0 <= n <= N
    ensures InOrder(QueenMoves(row, from, n))
  {
    if n > 0 {
      QueenMovesInOrder(row, from, n - 1);
      var tail := if n - 1 != from then [Move(row, from, n - 1)] else [];
      ConcatInOrder(QueenMoves(row, from, n - 1), tail);
    }
  }

  lemma {:induction false} RowMovesInOrder(b: array2<int>, i: int, n: int)
    requires IsBoard(b) && 0 <= i < N && 0 <= n <= N
    ensures InOrder(RowMoves(b, i, n))
  {
    if n > 0 {
      RowMovesInOrder(b, i, n - 1);
      RowMovesValid(b, i, n - 1);
      QueenMovesInOrder(i, n - 1, N);
      var here := if b[i, n - 1] == 1 then QueenMoves(i, n - 1, N) else [];
      ConcatInOrder(RowMoves(b, i, n - 1), here);
    }
  }

  lemma {:induction false} MovesAboveInOrder(b: array2<int>, m: int)
    requires IsBoard(b) && 0 <= m <= N
    ensures InOrder(MovesAbove(b, m))
  {
    if m > 0 {
      MovesAboveInOrder(b, m - 1);
      MovesAboveValid(b, m - 1);
      RowMovesInOrder(b, m - 1, N);
      RowMovesValid(b, m - 1, N);
      ConcatInOrder(MovesAbove(b, m - 1), RowMoves(b, m - 1, N));
    }
  }

  /**
   * There are seven neighbours per queen, each moving a queen that is on the board,
   * ordered by row, then by the queen's column, then by the target column.
   */
  lemma MovesCount(b: array2<int>)
    requires IsBoard(b)
    ensures |Moves(b)| == 7 * QueensAbove(b, N)
    ensures forall p :: 0 <= p < |Moves(b)| ==> ValidMove(b, Moves(b)[p])
    ensures InOrder(Moves(b))
  {
    MovesAboveValid(b, N);
    MovesAboveInOrder(b, N);
  }

  /** The cell counts of one row after a move, in terms of those before it. */
  lemma {:induction false} MoveCountInRow(nb: array2<int>, b: array2<int>, mv: Move, r: int, n: int)
    requires IsBoard(nb) && IsBoard(b) && ValidMove(b, mv) && IsMoveOf(nb, b, mv)
    requires b[mv.row, mv.to] != 1
    requires 0 <= r < N && 0 <= n <= N
    ensures CountInRow(nb, r, n) ==
      CountInRow(b, r, n) - (if r == mv.row && mv.from < n then 1 else 0) + (if r == mv.row && mv.to < n then 1 else 0)
  {
    if n > 0 {
      MoveCountInRow(nb, b, mv, r, n - 1);
    }
  }

  /**
   * A neighbour differs from its board in exactly two cells of the moved queen's row, and
   * when the target cell was empty every row keeps its number of queens.
   */
  lemma NeighborKeepsRowCounts(nb: array2<int>, b: array2<int>, mv: Move)
    requires IsBoard(nb) && IsBoard(b) && ValidMove(b, mv) && IsMoveOf(nb, b, mv)
    requires b[mv.row, mv.to] != 1
    ensures nb[mv.row, mv.from] != b[mv.row, mv.from] && nb[mv.row, mv.to] != b[mv.row, mv.to]
    ensures forall r :: 0 <= r < N ==> QueensInRow(nb, r) == QueensInRow(b, r)
  {
    forall r | 0 <= r < N
      ensures QueensInRow(nb, r) == QueensInRow(b, r)
    {
      MoveCountInRow(nb, b, mv, r, N);
    }
  }

  /** Moving a queen within its row keeps a board with one queen per row such a board, and keeps it 0/1. */
  lemma NeighborKeepsShape(nb: array2<int>, b: array2<int>, mv: Move)
    requires IsBoard(nb) && IsBoard(b) && ValidMove(b, mv) && IsMoveOf(nb, b, mv)
    ensures OneQueenPerRow(b) ==> OneQueenPerRow(nb)
    ensures Binary(b) ==> Binary(nb)
  {
    if OneQueenPerRow(b) {
      forall r | 0 <= r < N
        ensures HasQueen(nb, r) && AtMostOneQueen(nb, r)
      {
        if r == mv.row {
          assert nb[r, mv.to] == 1;
          assert AtMostOneQueen(b, r);
        } else {
          assert HasQueen(b, r) && AtMostOneQueen(b, r);
          var c :| 0 <= c < N && b[r, c] == 1;
          assert nb[r, c] == 1;
        }
      }
    }
  }

  // ---------------------------------------------------------------------------
  // boardToString

  /** What `StringBuilder.append(int)` writes for the first `n` cells of row i. */
  ghost function RenderRow(b: array2<int>, i: int, n: int): string
    requires IsBoard(b) && 0 <= i < N && 0 <= n <= N
    reads b
  {
    if n == 0 then "" else RenderRow(b, i, n - 1) + JavaInt.ToString(b[i, n - 1])
  }

  /** The rendering of the first `m` rows, row after row. */
  ghost function RenderAbove(b: array2<int>, m: int): string
    requires IsBoard(b) && 0 <= m <= N
    reads b
  {
    if m == 0 then "" else RenderAbove(b, m - 1) + RenderRow(b, m - 1, b.Length1)
  }

  ghost function Render(b: array2<int>): string
    requires IsBoard(b)
    reads b
  {
    RenderAbove(b, b.Length0)
  }

  /** `boardToString(board)`: every cell appended in row-major order. */
  method BoardToString(board: array2<int>) returns (s: string)
    requires IsBoard(board)
    ensures s == Render(board)
  {
    s := "";
    var i := 0;
    while i < N
      invariant 0 <= i <= N
      invariant s == RenderAbove(board, i)
    {
      s := AppendRow(board, i, s);
      i := i + 1;
    }
  }

  /** The inner loop of `boardToString`: append the cells of row i. */
  method AppendRow(board: array2<int>, i: int, prefix: string) returns (s: string)
    requires IsBoard(board) && 0 <= i < N
    ensures s == prefix + RenderRow(board, i, N)
  {
    var row := "";
    var j := 0;
    while j < N
      invariant 0 <= j <= N
      invariant row == RenderRow(board, i, j)
    {
      row := row + JavaInt.ToString(board[i, j]);
      j := j + 1;
    }
    s := prefix + row;
  }

  /** The character a 0/1 cell renders as. */
  function CellChar(v: int): char {
    if v == 1 then '1' else '0'
  }

  lemma {:induction false} RenderRowBinary(b: array2<int>, i: int, n: int)
    requires IsBoard(b) && Binary(b) && 0 <= i < N && 0 <= n <= N
    ensures |RenderRow(b, i, n)| == n
    ensures forall y :: 0 <= y < n ==> RenderRow(b, i, n)[y] == CellChar(b[i, y])
  {
    if n > 0 {
      RenderRowBinary(b, i, n - 1);
      assert JavaInt.ToString(b[i, n - 1]) == [CellChar(b[i, n - 1])];
    }
  }

  /** A 0/1 board's first m rows render as 8 characters each. */
  lemma {:induction false} RenderAboveLength(b: array2<int>, m: int)
    requires IsBoard(b) && Binary(b) && 0 <= m <= N
    ensures |RenderAbove(b, m)| == 8 * m
  {
    if m > 0 {
      RenderAboveLength(b, m - 1);
      RenderRowBinary(b, m - 1, N);
    }
  }

  /** Two strings of which the first parts have the same length are equal only part by part. */
  lemma AppendCancel(p1: string, r1: string, p2: string, r2: string)
    requires |p1| == |p2| && p1 + r1 == p2 + r2
    ensures p1 == p2 && r1 == r2
  {
    assert p1 == (p1 + r1)[..|p1|] && p2 == (p2 + r2)[..|p2|];
    assert r1 == (p1 + r1)[|p1|..] && r2 == (p2 + r2)[|p2|..];
  }

  /** Two 0/1 rows that render alike hold the same cells. */
  lemma RowInjective(b1: array2<int>, b2: array2<int>, i: int)
    requires IsBoard(b1) && IsBoard(b2) && Binary(b1) && Binary(b2) && 0 <= i < N
    requires RenderRow(b1, i, N) == RenderRow(b2, i, N)
    ensures forall y :: 0 <= y < N ==> b1[i, y] == b2[i, y]
  {
    RenderRowBinary(b1, i, N);
    RenderRowBinary(b2, i, N);
    forall y | 0 <= y < N
      ensures b1[i, y] == b2[i, y]
    {
      assert CellChar(b1[i, y]) == CellChar(b2[i, y]);
    }
  }

  /** Two 0/1 boards whose first m rows render alike agree on those rows. */
  lemma {:induction false} RenderAboveInjective(b1: array2<int>, b2: array2<int>, m: int)
    requires IsBoard(b1) && IsBoard(b2) && Binary(b1) && Binary(b2) && 0 <= m <= N
    requires RenderAbove(b1, m) == RenderAbove(b2, m)
    ensures forall x, y :: 0 <= x < m && 0 <= y < N ==> b1[x, y] == b2[x, y]
  {
    if m > 0 {
      RenderAboveLength(b1, m - 1);
      RenderAboveLength(b2, m - 1);
      AppendCancel(RenderAbove(b1, m - 1), RenderRow(b1, m - 1, N), RenderAbove(b2, m - 1), RenderRow(b2, m - 1, N));
      RenderAboveInjective(b1, b2, m - 1);
      RowInjective(b1, b2, m - 1);
    }
  }

  /** A 0/1 board renders as 64 characters. */
  lemma RenderLength(b: array2<int>)
    requires IsBoard(b) && Binary(b)
    ensures |Render(b)| == 64
  {
    RenderAboveLength(b, N);
  }

  /** Two 0/1 boards with the same rendering are the same board, so the closed list is exact on them. */
  lemma RenderInjective(b1: array2<int>, b2: array2<int>)
    requires IsBoard(b1) && IsBoard(b2) && Binary(b1) && Binary(b2)
    requires Render(b1) == Render(b2)
    ensures forall x, y :: 0 <= x < N && 0 <= y < N ==> b1[x, y] == b2[x, y]
  {
    RenderAboveInjective(b1, b2, N);
  }

  // ---------------------------------------------------------------------------
  // solveAStar

  /** An entry of the open list; `f` is g + h. */
  datatype Node = Node(board: array2<int>, g: int, h: int) {
    function F(): int { g + h }
  }

  /** What every node of the open list keeps: a board, its true heuristic, and the shape of the start board. */
  ghost predicate NodeOk(n: Node, oneEach: bool, binary: bool)
    reads n.board
  {
    IsBoard(n.board) && n.h == Conflicts(n.board) &&
    (oneEach ==> OneQueenPerRow(n.board)) && (binary ==> Binary(n.board))
  }

  /** Index k holds a node with the least f, the one `PriorityQueue.poll` may return. */
  predicate IsHead(open: seq<Node>, k: int) {
    0 <= k < |open| && forall m :: 0 <= m < |open| ==> open[k].F() <= open[m].F()
  }

  lemma {:induction false} HeadExists(open: seq<Node>)
    requires open != []
    ensures exists k :: IsHead(open, k)
  {
    if |open| > 1 {
      HeadExists(open[1..]);
      var k :| IsHead(open[1..], k);
      if open[0].F() <= open[1..][k].F() {
        assert IsHead(open, 0);
      } else {
        assert IsHead(open, k + 1);
      }
    } else {
      assert IsHead(open, 0);
    }
  }

  /**
   * The search loop of `solveAStar`, returning the board of the first node polled
   * with h == 0. `Some(false)` is the empty open list; `None` means that `fuel`
   * polls were made without reaching either.
   */
  method Search(start: array2<int>, fuel: nat) returns (outcome: Option<bool>, solution: array2<int>)
    requires IsBoard(start)
    ensures IsBoard(solution)
    ensures outcome != Some(true) ==> solution == start
    ensures outcome == Some(true) ==> Conflicts(solution) == 0 && NoAttacks(solution)
    ensures outcome == Some(true) && OneQueenPerRow(start) ==> OneQueenPerRow(solution) && Peaceful(solution)
    ensures outcome == Some(true) && Binary(start) ==> Binary(solution)
  {
    ghost var oneEach := OneQueenPerRow(start);
    ghost var binary := Binary(start);
    var startH := Heuristic(start);
    var open := [Node(start, 0, startH)];
    var closed: set<string> := {};
    var polls := 0;
    while open != []
      invariant 0 <= polls <= fuel
      invariant oneEach == OneQueenPerRow(start) && binary == Binary(start)
      invariant forall m :: 0 <= m < |open| ==> NodeOk(open[m], oneEach, binary)
      decreases fuel - polls
    {
      if polls == fuel {
        return None, start;
      }
      polls := polls + 1;
      HeadExists(open);
      var k :| IsHead(open, k);
      var current := open[k];
      assert NodeOk(current, oneEach, binary);
      open := open[..k] + open[k + 1..];
      if current.h == 0 {
        ConflictsZeroIff(current.board);
        if oneEach {
          PeacefulIff(current.board);
        }
        return Some(true), current.board;
      }
      open, closed := Expand(open, closed, current, oneEach, binary);
    }
    return Some(false), start;
  }

  /**
   * The rest of one pass of the search loop once the polled node is not a goal:
   * its rendering joins the closed list and its neighbours join the open list.
   */
  method Expand(open: seq<Node>, closed: set<string>, current: Node, ghost oneEach: bool, ghost binary: bool)
    returns (open': seq<Node>, closed': set<string>)
    requires NodeOk(current, oneEach, binary)
    requires forall m :: 0 <= m < |open| ==> NodeOk(open[m], oneEach, binary)
    ensures closed' == closed + {Render(current.board)}
    ensures |open| <= |open'| && open'[..|open|] == open
    ensures forall m :: 0 <= m < |open'| ==> NodeOk(open'[m], oneEach, binary)
  {
    var key := BoardToString(current.board);
    closed' := closed + {key};
    var neighbors := GenerateNeighbors(current.board);
    open' := AddNeighbors(open, current, neighbors, closed');
    AdmittedOk(current, neighbors, |neighbors|, closed', oneEach, binary);
    assert forall m :: |open| <= m < |open'| ==>
      open'[m] == Admitted(neighbors, |neighbors|, current.g, closed')[m - |open|];
  }

  /** The nodes the neighbour loop adds for the first `n` neighbours: those whose rendering is not closed, with g + 1 and their heuristic. */
  ghost function Admitted(neighbors: seq<array2<int>>, n: int, g: int, closed: set<string>): seq<Node>
    requires 0 <= n <= |neighbors|
    requires forall m :: 0 <= m < |neighbors| ==> IsBoard(neighbors[m])
    reads neighbors
  {
    if n == 0 then []
    else
      var last := neighbors[n - 1];
      Admitted(neighbors, n - 1, g, closed) +
      (if Render(last) !in closed then [Node(last, g + 1, Conflicts(last))] else [])
  }

  /** One pass of that loop: the node for neighbour `n`, unless its rendering is in the closed list. */
  method AdmitNeighbor(g: int, neighbors: seq<array2<int>>, n: int, closed: set<string>) returns (added: seq<Node>)
    requires 0 <= n < |neighbors|
    requires forall m :: 0 <= m < |neighbors| ==> IsBoard(neighbors[m])
    ensures Admitted(neighbors, n + 1, g, closed) == old(Admitted(neighbors, n, g, closed)) + added
  {
    var neighbor := neighbors[n];
    var neighborKey := BoardToString(neighbor);
    if neighborKey in closed {
      return [];
    }
    var h := Heuristic(neighbor);
    added := [Node(neighbor, g + 1, h)];
  }

  /** The nodes admitted from neighbours of a good node are good. */
  lemma {:induction false} AdmittedOk(current: Node, neighbors: seq<array2<int>>, n: int, closed: set<string>,
                                      oneEach: bool, binary: bool)
    requires NodeOk(current, oneEach, binary)
    requires Moved(current.board, neighbors, Moves(current.board)) && 0 <= n <= |neighbors|
    ensures forall m :: 0 <= m < |Admitted(neighbors, n, current.g, closed)| ==>
      NodeOk(Admitted(neighbors, n, current.g, closed)[m], oneEach, binary)
  {
    if n > 0 {
      AdmittedOk(current, neighbors, n - 1, closed, oneEach, binary);
      var last := neighbors[n - 1];
      var node := Node(last, current.g + 1, Conflicts(last));
      var prev := Admitted(neighbors, n - 1, current.g, closed);
      if Render(last) !in closed {
        assert Admitted(neighbors, n, current.g, closed) == prev + [node];
        MovesCount(current.board);
        NeighborKeepsShape(last, current.board, Moves(current.board)[n - 1]);
        assert NodeOk(node, oneEach, binary);
      } else {
        assert Admitted(neighbors, n, current.g, closed) == prev;
      }
    }
  }

  /**
   * The `for` loop of `solveAStar` over the neighbours of the polled node: each one
   * whose rendering is not in the closed list joins the open list with g one more.
   */
  method AddNeighbors(open: seq<Node>, current: Node, neighbors: seq<array2<int>>, closed: set<string>)
    returns (open': seq<Node>)
    requires forall m :: 0 <= m < |neighbors| ==> IsBoard(neighbors[m])
    ensures open' == open + Admitted(neighbors, |neighbors|, current.g, closed)
  {
    var added: seq<Node> := [];
    var n := 0;
    while n < |neighbors|
      invariant 0 <= n <= |neighbors|
      invariant added == Admitted(neighbors, n, current.g, closed)
    {
      var one := AdmitNeighbor(current.g, neighbors, n, closed);
      added := added + one;
      n := n + 1;
    }
    open' := open + added;
  }

  /**
   * `solveAStar(initialBoard, verbose)`: on success the solution is copied into
   * `initialBoard`; otherwise the board is left as it was.
   */
  method SolveAStar(initialBoard: array2<int>, fuel: nat) returns (r: Option<bool>)
    requires IsBoard(initialBoard)
    modifies initialBoard
    ensures r == Some(true) ==> Conflicts(initialBoard) == 0 && NoAttacks(initialBoard)
    ensures r == Some(true) && old(OneQueenPerRow(initialBoard)) ==>
      OneQueenPerRow(initialBoard) && Peaceful(initialBoard)
    ensures r != Some(true) ==> forall x, y :: 0 <= x < N && 0 <= y < N ==> initialBoard[x, y] == old(initialBoard[x, y])
  {
    var solution;
    r, solution := Search(initialBoard, fuel);
    if r == Some(true) {
      ghost var oneEach := OneQueenPerRow(initialBoard);
      assert oneEach ==> OneQueenPerRow(solution);
      label beforeCopy:
      CopyInto(solution, initialBoard);
      assert forall x, y :: 0 <= x < N && 0 <= y < N ==>
        initialBoard[x, y] == old@beforeCopy(solution[x, y]);
      assert NoAttacks(initialBoard);
      if oneEach {
        forall row | 0 <= row < N
          ensures HasQueen(initialBoard, row) && AtMostOneQueen(initialBoard, row)
        {
          assert old@beforeCopy(HasQueen(solution, row) && AtMostOneQueen(solution, row));
          var c :| 0 <= c < N && old@beforeCopy(solution[row, c]) == 1;
          assert initialBoard[row, c] == 1;
        }
        PeacefulIff(initialBoard);
      }
      ConflictsZeroIff(initialBoard);
    }
  }
}
