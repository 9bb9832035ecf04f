/**
 * The chess board shared by the eight-queens solvers of ad-2: an 8x8 `int[][]` in
 * which a cell holding 1 is a queen (EightQueens.java puts one queen in every row).
 * It is modelled as an `array2<int>`, and every predicate here looks at the cells.
 */
module Queens {

  const N: int := 8

  predicate IsBoard(b: array2<int>) { b.Length0 == N && b.Length1 == N }

  /** Every cell is 0 or 1, as on every board EightQueens.java builds. */
  ghost predicate Binary(b: array2<int>)
    requires IsBoard(b)
    reads b
  {
    forall i, j :: 0 <= i < N && 0 <= j < N ==> b[i, j] == 0 || b[i, j] == 1
  }

  // ---------------------------------------------------------------------------
  // Queens per row.

  ghost predicate HasQueen(b: array2<int>, r: int)
    requires IsBoard(b) && 0 <= r < N
    reads b
  {
    exists c :: 0 <= c < N && b[r, c] == 1
  }

  ghost predicate AtMostOneQueen(b: array2<int>, r: int)
    requires IsBoard(b) && 0 <= r < N
    reads b
  {
    forall j, c :: 0 <= j < N && 0 <= c < N && b[r, j] == 1 && b[r, c] == 1 ==> j == c
  }

  /** Row `r` holds exactly one queen, in column `c`. */
  ghost predicate OnlyQueenAt(b: array2<int>, r: int, c: int)
    requires IsBoard(b) && 0 <= r < N
    reads b
  {
    0 <= c < N && forall j :: 0 <= j < N ==> (b[r, j] == 1 <==> j == c)
  }

  /** Every row from `from` down holds exactly one queen. */
  ghost predicate OneQueenPerRowFrom(b: array2<int>, from: int)
    requires IsBoard(b)
    reads b
  {
    forall r :: 0 <= r < N && from <= r ==> HasQueen(b, r) && AtMostOneQueen(b, r)
  }

  ghost predicate OneQueenPerRow(b: array2<int>)
    requires IsBoard(b)
    reads b
  {
    OneQueenPerRowFrom(b, 0)
  }

  /** The number of queens among the first `n` cells of row `r`. */
  ghost function CountInRow(b: array2<int>, r: int, n: int): nat
    requires IsBoard(b) && 0 <= r < N && 0 <= n <= N
    reads b
  {
    if n == 0 then 0 else CountInRow(b, r, n - 1) + (if b[r, n - 1] == 1 then 1 else 0)
  }

  ghost function QueensInRow(b: array2<int>, r: int): nat
    requires IsBoard(b) && 0 <= r < N
    reads b
  {
    CountInRow(b, r, b.Length1)
  }

  // ---------------------------------------------------------------------------
  // Attacks.

  /** A queen at (i, j) and one at (k, c) on a lower row share a column or a diagonal. */
  predicate Attacks(i: int, j: int, k: int, c: int) {
    i < k && (c == j || c - j == k - i || j - c == k - i)
  }

  /** No queen attacks a queen on a lower row (pairs within one row are not looked at). */
  ghost predicate NoAttacks(b: array2<int>)
    requires IsBoard(b)
    reads b
  {
    forall i, j, k, c ::
      0 <= i < N && 0 <= j < N && 0 <= k < N && 0 <= c < N && b[i, j] == 1 && b[k, c] == 1 ==>
        !Attacks(i, j, k, c)
  }

  /** A queen placed at (r, c) is attacked by no queen on the rows above it. */
  ghost predicate SafeAbove(b: array2<int>, r: int, c: int)
    requires IsBoard(b) && 0 <= r < N
    reads b
  {
    forall i, j :: 0 <= i < r && 0 <= j < N && b[i, j] == 1 ==> !Attacks(i, j, r, c)
  }

  /** The puzzle's goal: no two distinct queens share a row, a column or a diagonal. */
  ghost predicate Peaceful(b: array2<int>)
    requires IsBoard(b)
    reads b
  {
    (forall r :: 0 <= r < N ==> AtMostOneQueen(b, r)) &&
    forall i, j, k, c ::
      0 <= i < N && 0 <= j < N && 0 <= k < N && 0 <= c < N && b[i, j] == 1 && b[k, c] == 1 &&
      i != k ==>
        j != c && i - k != j - c && i - k != c - j
  }

  /** With one queen in every row, the rows-above check of every pair is the whole goal. */
  lemma PeacefulIff(b: array2<int>)
    requires IsBoard(b) && OneQueenPerRow(b)
    ensures Peaceful(b) <==> NoAttacks(b)
  {
    if NoAttacks(b) {
      NoAttacksPeaceful(b);
    }
    if Peaceful(b) {
      PeacefulNoAttacks(b);
    }
  }

  lemma NoAttacksPeaceful(b: array2<int>)
    requires IsBoard(b) && OneQueenPerRow(b) && NoAttacks(b)
    ensures Peaceful(b)
  {
    forall i, j, k, c |
      0 <= i < N && 0 <= j < N && 0 <= k < N && 0 <= c < N && b[i, j] == 1 && b[k, c] == 1 &&
      i != k
      ensures j != c && i - k != j - c && i - k != c - j
    {
      if i < k {
        assert !Attacks(i, j, k, c);
      } else {
        assert !Attacks(k, c, i, j);
      }
    }
  }

  lemma PeacefulNoAttacks(b: array2<int>)
    requires IsBoard(b) && Peaceful(b)
    ensures NoAttacks(b)
  {
    forall i, j, k, c |
      0 <= i < N && 0 <= j < N && 0 <= k < N && 0 <= c < N && b[i, j] == 1 && b[k, c] == 1
      ensures !Attacks(i, j, k, c)
    {
      if i < k {
        assert i != k;
      }
    }
  }

  /** A board whose every row has one queen, each safe from the rows above it, is a solution. */
  lemma SafeRowsArePeaceful(b: array2<int>, cols: seq<int>)
    requires IsBoard(b) && |cols| == N
    requires forall r :: 0 <= r < N ==> OnlyQueenAt(b, r, cols[r]) && SafeAbove(b, r, cols[r])
    ensures OneQueenPerRow(b)
    ensures Peaceful(b)
  {
    forall r | 0 <= r < N
      ensures HasQueen(b, r) && AtMostOneQueen(b, r)
    {
      assert OnlyQueenAt(b, r, cols[r]);
      assert b[r, cols[r]] == 1;
    }
    forall i, j, k, c |
      0 <= i < N && 0 <= j < N && 0 <= k < N && 0 <= c < N && b[i, j] == 1 && b[k, c] == 1
      ensures !Attacks(i, j, k, c)
    {
      assert OnlyQueenAt(b, k, cols[k]) && SafeAbove(b, k, cols[k]);
    }
    PeacefulIff(b);
  }

  // ---------------------------------------------------------------------------
  // The conflict count of AStar.heuristic, summed in the order its loops visit.

  /** The hits the queen at (i, j) scores on row k: its column and, where inside the board, its two diagonals. */
  ghost function RowConflicts(b: array2<int>, i: int, j: int, k: int): nat
    requires IsBoard(b) && 0 <= i < N && 0 <= j < N && 0 <= k < N && i < k
    reads b
  {
    var d := k - i;
    (if b[k, j] == 1 then 1 else 0)
    + (if j - d >= 0 && b[k, j - d] == 1 then 1 else 0)
    + (if j + d < N && b[k, j + d] == 1 then 1 else 0)
  }

  /** The hits of the queen at (i, j) on rows i+1 .. k-1. */
  ghost function ConflictsBefore(b: array2<int>, i: int, j: int, k: int): nat
    requires IsBoard(b) && 0 <= i < N && 0 <= j < N && i < k <= N
    reads b
    decreases k
  {
    if k == i + 1 then 0 else ConflictsBefore(b, i, j, k - 1) + RowConflicts(b, i, j, k - 1)
  }

  /** The hits scored from cell (i, j): none unless it holds a queen. */
  ghost function CellConflicts(b: array2<int>, i: int, j: int): nat
    requires IsBoard(b) && 0 <= i < N && 0 <= j < N
    reads b
  {
    if b[i, j] == 1 then ConflictsBefore(b, i, j, b.Length0) else 0
  }

  /** The hits scored from the first `n` cells of row i. */
  ghost function RowConflictsBefore(b: array2<int>, i: int, n: int): nat
    requires IsBoard(b) && 0 <= i < N && 0 <= n <= N
    reads b
  {
    if n == 0 then 0 else RowConflictsBefore(b, i, n - 1) + CellConflicts(b, i, n - 1)
  }

  /** The hits scored from the first `m` rows. */
  ghost function ConflictsAbove(b: array2<int>, m: int): nat
    requires IsBoard(b) && 0 <= m <= N
    reads b
  {
    if m == 0 then 0 else ConflictsAbove(b, m - 1) + RowConflictsBefore(b, m - 1, b.Length1)
  }

  ghost function Conflicts(b: array2<int>): nat
    requires IsBoard(b)
    reads b
  {
    ConflictsAbove(b, b.Length0)
  }

  lemma RowConflictsZero(b: array2<int>, i: int, j: int, k: int)
    requires IsBoard(b) && 0 <= i < N && 0 <= j < N && 0 <= k < N && i < k
    ensures RowConflicts(b, i, j, k) == 0 <==>
      forall c :: 0 <= c < N && b[k, c] == 1 ==> !Attacks(i, j, k, c)
  {
    if RowConflicts(b, i, j, k) != 0 {
      var d := k - i;
      if b[k, j] == 1 {
        assert Attacks(i, j, k, j);
      } else if j - d >= 0 && b[k, j - d] == 1 {
        assert Attacks(i, j, k, j - d);
      } else {
        assert Attacks(i, j, k, j + d);
      }
    }
  }

  lemma {:induction false} ConflictsBeforeZero(b: array2<int>, i: int, j: int, k: int)
    requires IsBoard(b) && 0 <= i < N && 0 <= j < N && i < k <= N
    ensures ConflictsBefore(b, i, j, k) == 0 <==>
      forall k', c :: i < k' < k && 0 <= c < N && b[k', c] == 1 ==> !Attacks(i, j, k', c)
    decreases k
  {
    if k > i + 1 {
      ConflictsBeforeZero(b, i, j, k - 1);
      RowConflictsZero(b, i, j, k - 1);
    }
  }

  /** The queen at (i, j) scores nothing exactly when it attacks no queen below it. */
  lemma CellConflictsZero(b: array2<int>, i: int, j: int)
    requires IsBoard(b) && 0 <= i < N && 0 <= j < N
    ensures CellConflicts(b, i, j) == 0 <==>
      (b[i, j] == 1 ==> forall k, c :: 0 <= k < N && 0 <= c < N && b[k, c] == 1 ==> !Attacks(i, j, k, c))
  {
    ConflictsBeforeZero(b, i, j, N);
  }

  lemma {:induction false} RowConflictsBeforeZero(b: array2<int>, i: int, n: int)
    requires IsBoard(b) && 0 <= i < N && 0 <= n <= N
    ensures RowConflictsBefore(b, i, n) == 0 <==> forall j :: 0 <= j < n ==> CellConflicts(b, i, j) == 0
  {
    if n > 0 {
      RowConflictsBeforeZero(b, i, n - 1);
    }
  }

  lemma {:induction false} ConflictsAboveZero(b: array2<int>, m: int)
    requires IsBoard(b) && 0 <= m <= N
    ensures ConflictsAbove(b, m) == 0 <==>
      forall i, j :: 0 <= i < m && 0 <= j < N ==> CellConflicts(b, i, j) == 0
  {
    if m > 0 {
      ConflictsAboveZero(b, m - 1);
      RowConflictsBeforeZero(b, m - 1, N);
    }
  }

  /** The heuristic is zero exactly when no queen attacks a queen on a lower row. */
  lemma ConflictsZeroIff(b: array2<int>)
    requires IsBoard(b)
    ensures Conflicts(b) == 0 <==> NoAttacks(b)
  {
    ConflictsAboveZero(b, N);
    forall i, j | 0 <= i < N && 0 <= j < N {
      CellConflictsZero(b, i, j);
    }
  }

  /** With one queen per row, a zero heuristic means a solved board, and conversely. */
  lemma ConflictsZeroSolves(b: array2<int>)
    requires IsBoard(b) && OneQueenPerRow(b)
    ensures Conflicts(b) == 0 <==> Peaceful(b)
  {
    ConflictsZeroIff(b);
    PeacefulIff(b);
  }
}
