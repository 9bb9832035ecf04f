# Verified model of six algorithm labs

This project models, in Dafny, the algorithmic cores of a multi-lab Java
repository and proves what each core does:

- **Polyphase external sort** (`ad-1`, `Polyphase.java`). The input is split into
  memory-sized chunks, and each chunk is sorted. The chunks are dealt over three
  auxiliary files. Two-way merges then run and rotate the file roles until the
  merged output is a single non-decreasing series. Files are `seq<int>` slots of
  a map held by the `Polyphase` class. Renaming and deleting a file is slot
  reassignment.
- **B-tree user store** (`ad-3`, `BTree.java`). Users are keyed by id. The store
  has in-node binary search with a comparison counter, proactive-split insert and
  delete with fill, borrow and merge. It also has update, the in-order listing,
  counting and pagination. Nodes are immutable `Node` values. The `BTree` class
  holds the root, the minimum degree `t` and the comparison counter. The methods
  rebuild the nodes they touch, and each is proved against a specification
  function over `Node` values. The store's delete runs the comparison at
  BTree.java:60 as written (`BTreeDeleteWritten`); the corrected comparison is
  modelled beside it, with its stronger property (`BTreeDeleteCorrect`, see
  "## Findings").
- **Eight queens by depth-limited backtracking** (`ad-2`, `LDFS.java`). This
  works in place on an 8×8 `array2<int>`.
- **Eight queens by A\*** (`ad-2`, `AStar.java`). The model covers the
  conflict-count heuristic, the neighbour generator, both board copies and the
  board rendering used for the closed set. It also covers the open/closed-list
  search.
- **Time-limit parser** (`ad-5`, `Main.parseTimeLimit`). It reads a number
  followed by one of the units ms, s, m or h, in Java `int` arithmetic.
- **Ant bookkeeping** of the two ant-colony labs (`ad-4` and `ad-5`, `Ant.java`).
  Each ant is a class with a path, a visited array and a current position.

Shared modules:

- `Wrappers` holds `Option`, `Result` and the Java exceptions the code can raise.
  These are `NumberFormat`, `IllegalArgument`, `NullPointer`, `IndexOutOfBounds`
  and `NoSuchElement`.
- `JavaInt` holds the 32-bit `int` arithmetic: wrap-around multiplication and
  addition, division by a positive divisor and `Integer.toString`.

Whatever a Java method throws becomes an `Err` result.

### Behaviours of the external sort that the model keeps

`Polyphase.java` does not behave like an ordinary ascending external sort, and
the model follows it:

- `Entry.compareTo` (Polyphase.java:206-207) compares the other value with this
  one, so the priority queue polls the larger head and every merge emits the
  larger head first (`MaxMergeFirst`, `MaxMergeNonIncreasing`).
- A merge never consumes its inputs, and the file renamed to `sorted.txt`
  (Polyphase.java:131) is the rotated `file1`, the left input of the last pass
  rather than its output. Records can therefore be lost: input `[1,1]` with 4
  bytes of memory leaves `[1]` (`RenamedFileLosesRecords`).
- The loop at Polyphase.java:120 stops only when a pass reports a single
  series. With two distinct records it never stops
  (`TwoDistinctRecordsNeverFinish`).
- A budget below 4 bytes gives a buffer size of 0 (Polyphase.java:33), which a
  buffer that has just grown never equals (Polyphase.java:38), so the whole
  input is one chunk (`TinyMemoryOneBlock`).
- The first pass opens the third file for writing (Polyphase.java:144) before
  reading anything, so the chunks dealt to it are discarded
  (`FirstPassDiscardsThird`).

## Model

| member | source | states |
|---|---|---|
| JavaInt.Wrap | ad-5/src/main/java/dev/ua/ikeepcalm/Main.java:22-26 | the 32-bit value of an integer: in `int` range, congruent modulo 2^32, and the identity on values already in range |
| JavaInt.Mul | ad-5/src/main/java/dev/ua/ikeepcalm/Main.java:22-26 | Java `int` multiplication: always in range, congruent to the exact product modulo 2^32, and equal to it whenever it fits |
| JavaInt.Add | ad-3/src/main/java/dev/ua/ikeepcalm/ad/storage/BTree.java:201 | Java `int` addition: always in range, congruent to the exact sum modulo 2^32, and equal to it whenever it fits |
| JavaInt.Div | ad-1/src/main/java/dev/ua/ikeepcalm/solution/Polyphase.java:33 | Java `/` by a positive divisor: truncates toward zero, so the quotient brackets the dividend from below (non-negative) or from above (negative), and an `int` dividend gives an `int` |
| JavaInt.Digits | ad-2/src/main/java/dev/ua/ikeepcalm/solution/algorithms/AStar.java:140 | the decimal digits of a natural number: all digits, no leading zero, and "0" for zero |
| JavaInt.ToString | ad-2/src/main/java/dev/ua/ikeepcalm/solution/algorithms/AStar.java:140 | `Integer.toString`: a minus sign exactly for negative numbers, digits otherwise, no leading zero |
| TimeLimit.EndsWithIff | ad-5/src/main/java/dev/ua/ikeepcalm/Main.java:19-25 | `String.endsWith` holds exactly when the string is some prefix followed by the suffix |
| TimeLimit.RemoveAll | ad-5/src/main/java/dev/ua/ikeepcalm/Main.java:20-26 | `String.replace(unit, "")` never lengthens the string, and for a one-letter unit deletes every occurrence of the letter and keeps every other character in order (for "ms" see `MillisSplit`) |
| TimeLimit.RemoveAllSuffix | ad-5/src/main/java/dev/ua/ikeepcalm/Main.java:20-26 | removing a unit from a string that does not contain its first letter, followed by that unit, gives back the string |
| TimeLimit.DigitsValue | ad-5/src/main/java/dev/ua/ikeepcalm/Main.java:20-26 | the value of a digit string, as `Integer.parseInt` reads it, is below 10 to the number of digits |
| TimeLimit.ParseInt | ad-5/src/main/java/dev/ua/ikeepcalm/Main.java:20-26 | `Integer.parseInt` succeeds exactly on a numeral (optional sign, at least one digit) whose value fits in an `int`, returns that value, and otherwise raises `NumberFormatException` |
| TimeLimit.ParseIntDecimal | ad-5/src/main/java/dev/ua/ikeepcalm/Main.java:20-26 | `parseInt` of the decimal form of any `int`, negative ones included, is that `int` |
| TimeLimit.ZerosAndPlusIgnored | ad-5/src/main/java/dev/ua/ikeepcalm/Main.java:20-26 | leading zeros and a plus sign do not change what `parseInt` returns: "007" is 7 and "+5" is 5 |
| TimeLimit.OutOfRangeRefused | ad-5/src/main/java/dev/ua/ikeepcalm/Main.java:20-31 | digits whose value exceeds `Integer.MAX_VALUE` are refused by `parseInt`, and so is the time limit they form |
| TimeLimit.UnitOf | ad-5/src/main/java/dev/ua/ikeepcalm/Main.java:19-29 | the unit is the first of ms, s, m, h that ends the string: "ms" wins over "s", and there is no unit exactly when the string ends in none of s, m, h |
| TimeLimit.InMillis | ad-5/src/main/java/dev/ua/ikeepcalm/Main.java:20-26 | the left-to-right `int` products `x * 1000`, `x * 1000 * 60` and `x * 1000 * 60 * 60` are the full products 1000x, 60000x and 3600000x wrapped once |
| TimeLimit.ParseTimeLimit | ad-5/src/main/java/dev/ua/ikeepcalm/Main.java:16-34 | accepted exactly when a unit ends the string and the remainder after deleting every occurrence of the unit is an `int` numeral; the result is that number in milliseconds, and every failure is `IllegalArgumentException` |
| TimeLimit.NotNumeralRefused | ad-5/src/main/java/dev/ua/ikeepcalm/Main.java:27-31 | a remainder that is not a numeral makes the whole time limit fail with `IllegalArgumentException` |
| TimeLimit.UnitRoundTrip | ad-5/src/main/java/dev/ua/ikeepcalm/Main.java:19-26 | an `int` written out with a unit parses back to that value expressed in milliseconds |
| TimeLimit.MillisecondsRoundTrip | ad-5/src/main/java/dev/ua/ikeepcalm/Main.java:19-20 | "<n>ms" gives n unchanged; the ms test wins over the s test |
| TimeLimit.SecondsRoundTrip | ad-5/src/main/java/dev/ua/ikeepcalm/Main.java:21-22 | "<n>s" gives n·1000 in wrapping `int` arithmetic |
| TimeLimit.MinutesRoundTrip | ad-5/src/main/java/dev/ua/ikeepcalm/Main.java:23-24 | "<n>m" gives n·60000 in wrapping `int` arithmetic |
| TimeLimit.HoursRoundTrip | ad-5/src/main/java/dev/ua/ikeepcalm/Main.java:25-26 | "<n>h" gives n·3600000 in wrapping `int` arithmetic |
| TimeLimit.AcceptedEndsInUnit | ad-5/src/main/java/dev/ua/ikeepcalm/Main.java:27-28 | every accepted string ends in s, m or h, so any other ending is refused |
| TimeLimit.BareUnitRefused | ad-5/src/main/java/dev/ua/ikeepcalm/Main.java:30-31 | a unit with no number ("ms", "s", "m", "h") is refused with `IllegalArgumentException` |
| TimeLimit.InnerUnitsDeleted | ad-5/src/main/java/dev/ua/ikeepcalm/Main.java:21-26 | every occurrence of a one-letter unit is deleted, not just the suffix: "<x>s<y>s" means "<x><y>s", so "1s2s" gives 12000 |
| TimeLimit.MillisSplit | ad-5/src/main/java/dev/ua/ikeepcalm/Main.java:20 | `replace("ms", "")` deletes every "ms", wherever it stands: the text before and after one "ms" is cleaned as if it stood alone |
| TimeLimit.MillisDigitsKept | ad-5/src/main/java/dev/ua/ikeepcalm/Main.java:20 | deleting "ms" from a digit string keeps it whole |
| TimeLimit.InnerMillisDeleted | ad-5/src/main/java/dev/ua/ikeepcalm/Main.java:19-20 | an inner "ms" is deleted too: "<x>ms<y>ms" means "<x><y>ms", so "1ms2ms" gives 12 |
| TimeLimit.MixedUnitsRefused | ad-5/src/main/java/dev/ua/ikeepcalm/Main.java:21-31 | a letter m left inside a number of seconds makes it unparsable: "1m2s" is refused |
| TimeLimit.SecondsOverflowWraps | ad-5/src/main/java/dev/ua/ikeepcalm/Main.java:22 | the multiplication wraps: for n from 2147484 to 4294967, "<n>s" gives the negative n·1000 − 2^32 ("3000000s" gives −1294967296) |
| Polyphase.SortChunk | ad-1/src/main/java/dev/ua/ikeepcalm/solution/Polyphase.java:52-53 | `Collections.sort`: the result is non-decreasing and a permutation of the buffer |
| Polyphase.SortedPermutationUnique | ad-1/src/main/java/dev/ua/ikeepcalm/solution/Polyphase.java:53 | two non-decreasing permutations of one list are equal, so any correct sort writes the same chunk |
| Polyphase.BufferSize | ad-1/src/main/java/dev/ua/ikeepcalm/solution/Polyphase.java:33 | `availableMemory / Integer.BYTES`: for a non-negative budget the number of 4-byte records that fit, and not positive exactly when the budget is below 4 bytes |
| Polyphase.BlocksConcatenate | ad-1/src/main/java/dev/ua/ikeepcalm/solution/Polyphase.java:33-49 | the unsorted blocks, concatenated, are the input in order |
| Polyphase.BlocksSizes | ad-1/src/main/java/dev/ua/ikeepcalm/solution/Polyphase.java:33-49 | no blocks exactly when the input is empty; every block but the last holds `availableMemory / 4` records; the last is non-empty |
| Polyphase.TinyMemoryOneBlock | ad-1/src/main/java/dev/ua/ikeepcalm/solution/Polyphase.java:33-46 | with less than 4 bytes the size test never fires, and a non-empty input is one block |
| Polyphase.ChunksAreSortedBlocks | ad-1/src/main/java/dev/ua/ikeepcalm/solution/Polyphase.java:36-53 | chunk k is a non-decreasing permutation of block k |
| Polyphase.DistributionKeepsEveryChunk | ad-1/src/main/java/dev/ua/ikeepcalm/solution/Polyphase.java:81-93 | the three files get `min(n, max(1, n/3))`, then `min(rest, max(1, n/3))`, then all remaining chunks; together they are the chunks in order, even when the third count is negative |
| Polyphase.DistributionKeepsEveryRecord | ad-1/src/main/java/dev/ua/ikeepcalm/solution/Polyphase.java:81-112 | the three auxiliary files, concatenated, hold the records of all chunks in order |
| Polyphase.Entry.CompareTo | ad-1/src/main/java/dev/ua/ikeepcalm/solution/Polyphase.java:206-208 | the order is reversed: negative exactly when this value is larger, zero exactly when they are equal, positive exactly when it is smaller |
| Polyphase.Offer | ad-1/src/main/java/dev/ua/ikeepcalm/solution/Polyphase.java:150-168 | `PriorityQueue.add` into a queue of at most one entry: both entries are kept, the larger value is at the head, and on a tie the entry already queued stays at the head |
| Polyphase.MaxMergeKeepsRecords | ad-1/src/main/java/dev/ua/ikeepcalm/solution/Polyphase.java:146-171 | the merged output has length in1 + in2 and the multiset of both inputs |
| Polyphase.MaxMergeWithEmpty | ad-1/src/main/java/dev/ua/ikeepcalm/solution/Polyphase.java:156-171 | merging with an empty file copies the other file exactly |
| Polyphase.MaxMergeFirst | ad-1/src/main/java/dev/ua/ikeepcalm/solution/Polyphase.java:157-208 | the first record written is the larger of the two heads |
| Polyphase.MaxMergeNonIncreasing | ad-1/src/main/java/dev/ua/ikeepcalm/solution/Polyphase.java:156-208 | merging two non-increasing files gives a non-increasing file |
| Polyphase.MaxMergeTieIrrelevant | ad-1/src/main/java/dev/ua/ikeepcalm/solution/Polyphase.java:157 | the tie rule in force matters only when the two heads are equal: with differing heads, or one file empty, the output is the same either way |
| Polyphase.QueueMergeIsMaxMerge | ad-1/src/main/java/dev/ua/ikeepcalm/solution/Polyphase.java:156-171 | the poll-and-refill loop over the two-entry queue writes exactly the max-first merge |
| Polyphase.Rotate | ad-1/src/main/java/dev/ua/ikeepcalm/solution/Polyphase.java:123-128 | the rotation (left, right, out) := (out, left, right) keeps the three roles on distinct files |
| Polyphase.Pass | ad-1/src/main/java/dev/ua/ikeepcalm/solution/Polyphase.java:139-175 | one pass replaces only the output file and keeps the set of files; `PassRecordCount` states what it writes |
| Polyphase.MergeRun | ad-1/src/main/java/dev/ua/ikeepcalm/solution/Polyphase.java:119-129 | repeated passes keep three distinct files in play, and no pass budget means no finish |
| Polyphase.PassRecordCount | ad-1/src/main/java/dev/ua/ikeepcalm/solution/Polyphase.java:139-175 | a pass leaves both inputs as they were and writes an output of their combined length |
| Polyphase.FirstPassDiscardsThird | ad-1/src/main/java/dev/ua/ikeepcalm/solution/Polyphase.java:144 | the first pass does not depend on what the third file held: it is truncated |
| Polyphase.PassStaysDescending | ad-1/src/main/java/dev/ua/ikeepcalm/solution/Polyphase.java:122-174 | once the files hold a descending pair, the output is never a single series, and the next roles hold the pair again |
| Polyphase.MergeRunNeverFinishes | ad-1/src/main/java/dev/ua/ikeepcalm/solution/Polyphase.java:119-129 | from such files no number of passes finishes |
| Polyphase.OneChunkFinishes | ad-1/src/main/java/dev/ua/ikeepcalm/solution/Polyphase.java:24-131 | an input that fits in one chunk finishes after one pass, and the renamed file is that chunk sorted |
| Polyphase.SortedFirstFinishes | ad-1/src/main/java/dev/ua/ikeepcalm/solution/Polyphase.java:119-131 | a sorted first file and an empty second file finish at once, and the renamed file is the first file |
| Polyphase.OnesMergeOnce | ad-1/src/main/java/dev/ua/ikeepcalm/solution/Polyphase.java:119-131 | files [1] and [1] finish after one pass whose output is [1, 1], but the renamed file is [1] |
| Polyphase.RenamedFileLosesRecords | ad-1/src/main/java/dev/ua/ikeepcalm/solution/Polyphase.java:24-131 | sorting [1, 1] with 4 bytes finishes with output [1, 1] while the renamed file holds only [1] |
| Polyphase.TwoDistinctRecordsNeverFinish | ad-1/src/main/java/dev/ua/ikeepcalm/solution/Polyphase.java:24-129 | sorting two distinct records with 4 bytes never finishes, whatever the pass budget |
| Polyphase.Polyphase.constructor | ad-1/src/main/java/dev/ua/ikeepcalm/solution/Polyphase.java:16-22 | keeps the input and memory budget; no auxiliary file exists yet and no sorted file |
| Polyphase.Polyphase.SplitAndSortChunks | ad-1/src/main/java/dev/ua/ikeepcalm/solution/Polyphase.java:30-50 | the read loop returns the sorted blocks of the input, block by block |
| Polyphase.Polyphase.TakeChunks | ad-1/src/main/java/dev/ua/ikeepcalm/solution/Polyphase.java:85-93 | a `removeFirst` loop takes the first `min(size, max(count, 0))` chunks and leaves the rest |
| Polyphase.Polyphase.DealChunks | ad-1/src/main/java/dev/ua/ikeepcalm/solution/Polyphase.java:76-93 | the three loops deal the chunks as the distribution function does |
| Polyphase.Polyphase.WriteChunksToAuxFile | ad-1/src/main/java/dev/ua/ikeepcalm/solution/Polyphase.java:100-112 | the auxiliary file is overwritten with the chunks concatenated; nothing else changes |
| Polyphase.Polyphase.DistributeChunks | ad-1/src/main/java/dev/ua/ikeepcalm/solution/Polyphase.java:76-98 | the three auxiliary files hold the dealt chunks |
| Polyphase.Polyphase.IsSingleSeries | ad-1/src/main/java/dev/ua/ikeepcalm/solution/Polyphase.java:177-194 | true exactly when the file is non-decreasing, an empty or one-record file included |
| Polyphase.Polyphase.MergeStreams | ad-1/src/main/java/dev/ua/ikeepcalm/solution/Polyphase.java:146-171 | the two readers and the queue write the max-first merge of the two files |
| Polyphase.Polyphase.MergeFiles | ad-1/src/main/java/dev/ua/ikeepcalm/solution/Polyphase.java:139-175 | only the output file changes, it holds the merge, and the result is true exactly when it is not a single series |
| Polyphase.Polyphase.PerformPolyphaseMerge | ad-1/src/main/java/dev/ua/ikeepcalm/solution/Polyphase.java:114-137 | follows the pass sequence; on finishing, the sorted file is the left input of the last pass and the auxiliary files are gone |
| Polyphase.Polyphase.Sort | ad-1/src/main/java/dev/ua/ikeepcalm/solution/Polyphase.java:24-28 | split, deal and merge: the outcome is that of the pass sequence on the distributed input |
| Queens.PeacefulIff | ad-2/src/main/java/dev/ua/ikeepcalm/solution/algorithms/AStar.java:79-101 | on a board with one queen per row, checking each queen against the rows below it is the same as no two queens sharing a column or diagonal |
| Queens.SafeRowsArePeaceful | ad-2/src/main/java/dev/ua/ikeepcalm/solution/algorithms/LDFS.java:44-102 | one queen per row, each safe against the rows above it, gives a board with no attacking pair |
| Queens.RowConflictsZero | ad-2/src/main/java/dev/ua/ikeepcalm/solution/algorithms/AStar.java:84-95 | a queen's count against one lower row is 0 exactly when no queen of that row shares its column or a diagonal |
| Queens.CellConflictsZero | ad-2/src/main/java/dev/ua/ikeepcalm/solution/algorithms/AStar.java:83-97 | a cell contributes 0 exactly when it is empty or attacks no queen below it |
| Queens.ConflictsZeroIff | ad-2/src/main/java/dev/ua/ikeepcalm/solution/algorithms/AStar.java:79-101 | the conflict count is 0 exactly when no queen attacks a queen in a lower row |
| Queens.ConflictsZeroSolves | ad-2/src/main/java/dev/ua/ikeepcalm/solution/algorithms/AStar.java:79-101 | on a board with one queen per row, the heuristic is 0 exactly when the board is solved |
| Ldfs.SafeToPlaceIff | ad-2/src/main/java/dev/ua/ikeepcalm/solution/algorithms/LDFS.java:80-102 | `isSafe` holds exactly when the cell itself is not a queen and no queen sits above it in its column or on either upward diagonal |
| Ldfs.IsSafe | ad-2/src/main/java/dev/ua/ikeepcalm/solution/algorithms/LDFS.java:80-102 | the three scanning loops compute `isSafe` |
| Ldfs.FindQueen | ad-2/src/main/java/dev/ua/ikeepcalm/solution/algorithms/LDFS.java:36-42 | the first column holding a queen, or -1 when the row has none |
| Ldfs.SolveLdfs | ad-2/src/main/java/dev/ua/ikeepcalm/solution/algorithms/LDFS.java:24-67 | rows above `depth` are never written; depth 8 succeeds and `depth >= maxDepth` fails; on failure the queens are back in place; 0/1 boards stay 0/1; a queen in every remaining row rules out the column -1 error; on success each row has one safe queen, never in its starting column |
| Ldfs.SolveBoard | ad-2/src/main/java/dev/ua/ikeepcalm/solution/algorithms/LDFS.java:24-67 | `solveLDFS(board, 0, 8)` on a board with one queen per row never raises; on true the board is solved and every queen has moved; on false the queens are where they were |
| AStar.Heuristic | ad-2/src/main/java/dev/ua/ikeepcalm/solution/algorithms/AStar.java:79-101 | the nested loops count, for every queen, the queens in lower rows that share its column or a diagonal |
| AStar.RowConflictsCountsAttacked | ad-2/src/main/java/dev/ua/ikeepcalm/solution/algorithms/AStar.java:84-95 | the three tests against one lower row count exactly the queens of that row that the queen attacks |
| AStar.QueenMoves | ad-2/src/main/java/dev/ua/ikeepcalm/solution/algorithms/AStar.java:108-115 | the moves of one queen go to every other column of its row: 7 of them |
| AStar.RowMovesValid | ad-2/src/main/java/dev/ua/ikeepcalm/solution/algorithms/AStar.java:106-116 | every move generated from a row moves a queen of that row to another column |
| AStar.MovesAboveValid | ad-2/src/main/java/dev/ua/ikeepcalm/solution/algorithms/AStar.java:105-118 | every move generated from the first rows moves a queen to another column of its row |
| AStar.RowMovesInOrder | ad-2/src/main/java/dev/ua/ikeepcalm/solution/algorithms/AStar.java:106-116 | the moves of a row come queen by queen, target columns increasing |
| AStar.MovesAboveInOrder | ad-2/src/main/java/dev/ua/ikeepcalm/solution/algorithms/AStar.java:105-118 | the moves come in row-major order of the queens, target columns increasing |
| AStar.MovesCount | ad-2/src/main/java/dev/ua/ikeepcalm/solution/algorithms/AStar.java:103-120 | there are 7 moves per queen, all valid, in row-major order |
| AStar.CopyBoard | ad-2/src/main/java/dev/ua/ikeepcalm/solution/algorithms/AStar.java:122-128 | a fresh 8×8 board equal cell by cell to the original |
| AStar.CopyInto | ad-2/src/main/java/dev/ua/ikeepcalm/solution/algorithms/AStar.java:130-134 | the destination becomes the source's old cells and the source keeps its cells, even when both are one array |
| AStar.MoveQueen | ad-2/src/main/java/dev/ua/ikeepcalm/solution/algorithms/AStar.java:110-113 | a fresh copy with the queen at (i, j) moved to (i, k) and nothing else changed |
| AStar.QueenNeighbors | ad-2/src/main/java/dev/ua/ikeepcalm/solution/algorithms/AStar.java:108-115 | the boards appended for one queen are the moves of that queen, in order |
| AStar.RowNeighbors | ad-2/src/main/java/dev/ua/ikeepcalm/solution/algorithms/AStar.java:106-116 | the boards appended for one row are the moves of that row, in order |
| AStar.GenerateNeighbors | ad-2/src/main/java/dev/ua/ikeepcalm/solution/algorithms/AStar.java:103-120 | the neighbour list is, position by position, a fresh board for each move of the move list |
| AStar.NeighborKeepsRowCounts | ad-2/src/main/java/dev/ua/ikeepcalm/solution/algorithms/AStar.java:110-112 | a neighbour differs in the two cells of the move and, when the target cell was empty, keeps the number of queens in every row |
| AStar.NeighborKeepsShape | ad-2/src/main/java/dev/ua/ikeepcalm/solution/algorithms/AStar.java:110-112 | a neighbour of a board with one queen per row has one queen per row, and a neighbour of a 0/1 board is a 0/1 board |
| AStar.BoardToString | ad-2/src/main/java/dev/ua/ikeepcalm/solution/algorithms/AStar.java:136-144 | the `StringBuilder` loop produces the row-major rendering of the cells |
| AStar.AppendRow | ad-2/src/main/java/dev/ua/ikeepcalm/solution/algorithms/AStar.java:139-141 | the inner loop appends the cells of one row, in column order, to what was built so far |
| AStar.RenderLength | ad-2/src/main/java/dev/ua/ikeepcalm/solution/algorithms/AStar.java:136-144 | a 0/1 board renders to 64 characters |
| AStar.RenderInjective | ad-2/src/main/java/dev/ua/ikeepcalm/solution/algorithms/AStar.java:55-144 | two 0/1 boards with the same rendering are equal, so the closed set tells boards apart |
| AStar.HeadExists | ad-2/src/main/java/dev/ua/ikeepcalm/solution/algorithms/AStar.java:34-45 | a non-empty open list has a node of least f for `poll` to return |
| AStar.AdmitNeighbor | ad-2/src/main/java/dev/ua/ikeepcalm/solution/algorithms/AStar.java:58-66 | a neighbour is queued with g + 1 and its heuristic exactly when its rendering is not closed |
| AStar.AdmittedOk | ad-2/src/main/java/dev/ua/ikeepcalm/solution/algorithms/AStar.java:57-66 | every queued neighbour keeps the board's shape (one queen per row, 0/1) and carries its true heuristic |
| AStar.AddNeighbors | ad-2/src/main/java/dev/ua/ikeepcalm/solution/algorithms/AStar.java:57-73 | the open list grows by exactly the admitted neighbours, in order |
| AStar.Expand | ad-2/src/main/java/dev/ua/ikeepcalm/solution/algorithms/AStar.java:55-73 | the polled board joins the closed set, and the open list grows, so that its nodes still carry true heuristics and the start board's shape |
| AStar.Search | ad-2/src/main/java/dev/ua/ikeepcalm/solution/algorithms/AStar.java:34-76 | a success returns a board with heuristic 0 and no attacking pair, solved when the start had one queen per row; otherwise the start board is returned |
| AStar.SolveAStar | ad-2/src/main/java/dev/ua/ikeepcalm/solution/algorithms/AStar.java:29-77 | on true the initial board holds a board with no attacking pair, solved when it had one queen per row; otherwise the initial board is unchanged |
| BTreeKeys.Probe | ad-3/src/main/java/dev/ua/ikeepcalm/ad/storage/BTree.java:27-38 | the binary-search loop returns an index between `low` and `high + 1` |
| BTreeKeys.Locate | ad-3/src/main/java/dev/ua/ikeepcalm/ad/storage/BTree.java:26-39 | `binarySearch` over the whole key list returns an index from 0 to the number of keys |
| BTreeKeys.ProbeGap | ad-3/src/main/java/dev/ua/ikeepcalm/ad/storage/BTree.java:26-39 | a miss returns the index where the id falls between its neighbours |
| BTreeKeys.LocateOrdered | ad-3/src/main/java/dev/ua/ikeepcalm/ad/storage/BTree.java:26-39 | on ids in order, `binarySearch` returns the index of the id when present, else the point with every smaller id before it and every larger id after it |
| BTreeKeys.ProbeSameIds | ad-3/src/main/java/dev/ua/ikeepcalm/ad/storage/BTree.java:26-39 | the search depends only on the ids, so two key lists with the same ids give the same index and probes |
| BTreeKeys.LocateAbove | ad-3/src/main/java/dev/ua/ikeepcalm/ad/storage/BTree.java:26-222 | an id above every key is placed after the last key |
| BTreeSearch.Find | ad-3/src/main/java/dev/ua/ikeepcalm/ad/storage/BTree.java:184-192 | a user that is found has the requested id |
| BTreeSearch.FindSound | ad-3/src/main/java/dev/ua/ikeepcalm/ad/storage/BTree.java:184-192 | a user that is found is in the in-order list |
| BTreeSearch.FindComplete | ad-3/src/main/java/dev/ua/ikeepcalm/ad/storage/BTree.java:184-192 | on a tree ordered by id, a listed id is found |
| BTreeSearch.FindIff | ad-3/src/main/java/dev/ua/ikeepcalm/ad/storage/BTree.java:180-192 | on a tree ordered by id, `search` returns a user exactly when the id is in `getAllUsers` |
| BTreeInsert.Lower | ad-3/src/main/java/dev/ua/ikeepcalm/ad/storage/BTree.java:237-242 | the part the full node keeps has t-1 keys and the full node's leaf flag |
| BTreeInsert.Upper | ad-3/src/main/java/dev/ua/ikeepcalm/ad/storage/BTree.java:235-241 | the new node has t-1 keys and the full node's leaf flag |
| BTreeInsert.SplitChild | ad-3/src/main/java/dev/ua/ikeepcalm/ad/storage/BTree.java:233-249 | the parent gains the median at i and the new node at i+1, and both halves hold t-1 keys |
| BTreeInsert.SplitHalves | ad-3/src/main/java/dev/ua/ikeepcalm/ad/storage/BTree.java:237-245 | the halves and the median, in order, are the keys of the full node |
| BTreeInsert.SplitChildUsers | ad-3/src/main/java/dev/ua/ikeepcalm/ad/storage/BTree.java:233-249 | a split keeps the in-order list of the parent |
| BTreeInsert.SplitChildLevel | ad-3/src/main/java/dev/ua/ikeepcalm/ad/storage/BTree.java:233-249 | a split keeps every leaf at the same depth |
| BTreeInsert.InsertNonFull | ad-3/src/main/java/dev/ua/ikeepcalm/ad/storage/BTree.java:217-231 | `insertNonFull` keeps every leaf at the same depth |
| BTreeInsert.Descend | ad-3/src/main/java/dev/ua/ikeepcalm/ad/storage/BTree.java:222-229 | splitting a full child and descending keeps every leaf at the same depth |
| BTreeInsert.InsertNonFullAppends | ad-3/src/main/java/dev/ua/ikeepcalm/ad/storage/BTree.java:217-231 | inserting a user whose id is above every id appends that user to the in-order list |
| BTreeInsert.Grown | ad-3/src/main/java/dev/ua/ikeepcalm/ad/storage/BTree.java:195-200 | a full root is replaced by a new root holding only its median, with every leaf at the grown height |
| BTreeInsert.GrownUsers | ad-3/src/main/java/dev/ua/ikeepcalm/ad/storage/BTree.java:195-200 | growing the root keeps the in-order list |
| BTreeInsert.InsertAppends | ad-3/src/main/java/dev/ua/ikeepcalm/ad/storage/BTree.java:194-203 | growing the root and then inserting a user with a new largest id appends it to the in-order list |
| BTreeWalk.WeaveLength | ad-3/src/main/java/dev/ua/ikeepcalm/ad/storage/BTree.java:315-327 | a node holds its own keys plus the users of its subtrees |
| BTreeWalk.MaxIdBounds | ad-3/src/main/java/dev/ua/ikeepcalm/ad/storage/BTree.java:207-214 | the largest id is at least 0 and every id, and is 0 or a user's id |
| BTreeWalk.PageSliceConcat | ad-3/src/main/java/dev/ua/ikeepcalm/ad/storage/BTree.java:343-359 | collecting over two lists in a row is collecting over each with the counter carried across |
| BTreeWalk.PageSliceWindow | ad-3/src/main/java/dev/ua/ikeepcalm/ad/storage/BTree.java:338-361 | the counter collects exactly the users at positions [start, end), clipped to the list |
| BTreeDelete.Merge | ad-3/src/main/java/dev/ua/ikeepcalm/ad/storage/BTree.java:156-168 | the parent has one key fewer, and child i now holds its own keys, the separator and the sibling's keys; every leaf stays at the same depth |
| BTreeDelete.BorrowFromPrev | ad-3/src/main/java/dev/ua/ikeepcalm/ad/storage/BTree.java:129-140 | the child gains one key and the left sibling loses one; the parent keeps its key count |
| BTreeDelete.BorrowFromNext | ad-3/src/main/java/dev/ua/ikeepcalm/ad/storage/BTree.java:142-153 | the child gains one key and the right sibling loses one; the parent keeps its key count |
| BTreeDelete.Fill | ad-3/src/main/java/dev/ua/ikeepcalm/ad/storage/BTree.java:115-127 | on success every leaf stays at the same depth and the parent loses at most one key, and only when it had one |
| BTreeDelete.Rightmost | ad-3/src/main/java/dev/ua/ikeepcalm/ad/storage/BTree.java:99-105 | the key `getPredecessor` returns is a user of the subtree |
| BTreeDelete.Leftmost | ad-3/src/main/java/dev/ua/ikeepcalm/ad/storage/BTree.java:107-113 | the key `getSuccessor` returns is a user of the subtree |
| BTreeDelete.Descended | ad-3/src/main/java/dev/ua/ikeepcalm/ad/storage/BTree.java:59-64 | the recursive delete into subtree j succeeds exactly when that subtree's delete does, and then replaces subtree j and nothing else |
| BTreeDelete.DeleteNode | ad-3/src/main/java/dev/ua/ikeepcalm/ad/storage/BTree.java:41-66 | deleting from a node keeps every leaf at the same depth, with either the line-60 comparison as written or the corrected one; which users it keeps is stated by `BTreeDeleteWritten.DeleteKeepsOthers` (as written) and `BTreeDeleteCorrect.DeleteRemoves` (corrected) |
| BTreeDelete.DeleteFromInternal | ad-3/src/main/java/dev/ua/ikeepcalm/ad/storage/BTree.java:82-97 | the predecessor, successor or merge case keeps every leaf at the same depth |
| BTreeDelete.LastChildKeySurvives | ad-3/src/main/java/dev/ua/ikeepcalm/ad/storage/BTree.java:55-63 | as written, deleting 4 from the tree with key 2 over leaves [1] and [3, 4] leaves user 4 in the tree |
| BTreeDelete.LastChildKeyRemoved | ad-3/src/main/java/dev/ua/ikeepcalm/ad/storage/BTree.java:55-63 | with the corrected comparison the same delete leaves exactly users 1, 2 and 3 |
| BTreeDeleteProof.WithoutMembers | ad-3/src/main/java/dev/ua/ikeepcalm/ad/storage/BTree.java:68-80 | removing an id from a list keeps exactly the users with other ids |
| BTreeDeleteProof.MergeUsers | ad-3/src/main/java/dev/ua/ikeepcalm/ad/storage/BTree.java:156-168 | a merge keeps the in-order list |
| BTreeDeleteProof.BorrowPrevUsers | ad-3/src/main/java/dev/ua/ikeepcalm/ad/storage/BTree.java:129-140 | borrowing from the left keeps the in-order list, and the child keeps every user it had |
| BTreeDeleteProof.BorrowNextUsers | ad-3/src/main/java/dev/ua/ikeepcalm/ad/storage/BTree.java:142-153 | borrowing from the right keeps the in-order list, and the child keeps every user it had |
| BTreeDeleteProof.WithoutOrdered | ad-3/src/main/java/dev/ua/ikeepcalm/ad/storage/BTree.java:68-80 | removing users from a list ordered by id leaves it ordered |
| BTreeDeleteCorrect.FillStep | ad-3/src/main/java/dev/ua/ikeepcalm/ad/storage/BTree.java:115-127 | on a tree whose nodes below the root hold a key, `fill` succeeds, keeps the in-order list, and leaves a non-empty subtree to descend into that holds every user the original subtree held |
| BTreeDeleteCorrect.LeafRemoves | ad-3/src/main/java/dev/ua/ikeepcalm/ad/storage/BTree.java:44-52 | deleting from a leaf removes exactly the users with the id |
| BTreeDeleteCorrect.MissRemoves | ad-3/src/main/java/dev/ua/ikeepcalm/ad/storage/BTree.java:50-64 | when the id is not a key of an inner node, fill and descend remove exactly the users with the id, with the corrected comparison |
| BTreeDeleteCorrect.DeleteFromInternalRemoves | ad-3/src/main/java/dev/ua/ikeepcalm/ad/storage/BTree.java:82-97 | `deleteFromInternalNode` removes exactly the users with the key's id, with the corrected comparison |
| BTreeDeleteCorrect.PredecessorRemoves | ad-3/src/main/java/dev/ua/ikeepcalm/ad/storage/BTree.java:85-88 | the predecessor case removes exactly the users with the key's id, with the corrected comparison |
| BTreeDeleteCorrect.SuccessorRemoves | ad-3/src/main/java/dev/ua/ikeepcalm/ad/storage/BTree.java:89-92 | the successor case removes exactly the users with the key's id, with the corrected comparison |
| BTreeDeleteCorrect.MergeRemoves | ad-3/src/main/java/dev/ua/ikeepcalm/ad/storage/BTree.java:93-95 | the merge case removes exactly the users with the key's id, with the corrected comparison |
| BTreeDeleteCorrect.DeleteRemoves | ad-3/src/main/java/dev/ua/ikeepcalm/ad/storage/BTree.java:41-66 | with the corrected comparison, on a tree ordered by id whose nodes below the root hold a key, delete succeeds and removes exactly the users with the id |
| BTreeDeleteWritten.LeafKeepsOthers | ad-3/src/main/java/dev/ua/ikeepcalm/ad/storage/BTree.java:44-52 | deleting from a leaf never throws, keeps every user with another id and adds none |
| BTreeDeleteWritten.MissKeepsOthers | ad-3/src/main/java/dev/ua/ikeepcalm/ad/storage/BTree.java:50-64 | as written, when the id is not a key of an inner node, fill and descend never throw, keep every user with another id and add none, even when line 60 picks child idx - 1 |
| BTreeDeleteWritten.PredecessorKeepsOthers | ad-3/src/main/java/dev/ua/ikeepcalm/ad/storage/BTree.java:85-88 | as written, the predecessor case keeps every user whose id is not the key's and adds none |
| BTreeDeleteWritten.SuccessorKeepsOthers | ad-3/src/main/java/dev/ua/ikeepcalm/ad/storage/BTree.java:89-92 | as written, the successor case keeps every user whose id is not the key's and adds none |
| BTreeDeleteWritten.MergeKeepsOthers | ad-3/src/main/java/dev/ua/ikeepcalm/ad/storage/BTree.java:93-95 | as written, the merge case keeps every user whose id is not the key's and adds none |
| BTreeDeleteWritten.DeleteFromInternalKeepsOthers | ad-3/src/main/java/dev/ua/ikeepcalm/ad/storage/BTree.java:82-97 | as written, `deleteFromInternalNode` never throws, keeps every user whose id is not the key's and adds none |
| BTreeDeleteWritten.DeleteKeepsOthers | ad-3/src/main/java/dev/ua/ikeepcalm/ad/storage/BTree.java:41-97 | as written, on a tree ordered by id whose nodes below the root hold a key, `delete(node, id)` never throws, keeps every user with another id and holds only users the tree held |
| BTreeUpdate.ReplacedNone | ad-3/src/main/java/dev/ua/ikeepcalm/ad/storage/BTree.java:171-172 | replacing an id that no user has changes nothing |
| BTreeUpdate.RewriteUsers | ad-3/src/main/java/dev/ua/ikeepcalm/ad/storage/BTree.java:170-178 | after the update the in-order list has the users with that id replaced |
| BTreeUpdate.RewriteFind | ad-3/src/main/java/dev/ua/ikeepcalm/ad/storage/BTree.java:171-192 | after the update, `search` for the id makes the same probes and returns the new user wherever it found one before |
| BTreeUpdate.RewriteKeeps | ad-3/src/main/java/dev/ua/ikeepcalm/ad/storage/BTree.java:170-178 | the update keeps the shape, the height and every id, keeps the order by id, and lists and finds the new user |
| BTreeStore.CollapsedUsers | ad-3/src/main/java/dev/ua/ikeepcalm/ad/storage/BTree.java:71-77 | replacing an empty inner root by its first child keeps the in-order list and the shape |
| BTreeStore.InsertOutcome | ad-3/src/main/java/dev/ua/ikeepcalm/ad/storage/BTree.java:194-214 | unless the id wraps, the new id is the largest id plus 1, the user is appended to the in-order list, and the order by id is kept |
| BTreeStore.DeleteOutcome | ad-3/src/main/java/dev/ua/ikeepcalm/ad/storage/BTree.java:68-77 | on a tree ordered by id with non-empty nodes below the root, the corrected delete and the root collapse remove exactly that id and keep the order |
| BTreeStore.WrittenDeleteOutcome | ad-3/src/main/java/dev/ua/ikeepcalm/ad/storage/BTree.java:68-77 | on the same trees the delete as written and the root collapse never throw, keep every user with another id and hold only users the tree held |
| BTreeStore.AllUsers | ad-3/src/main/java/dev/ua/ikeepcalm/ad/storage/BTree.java:252-264 | the recursive walk returns the in-order list |
| BTreeStore.CountIn | ad-3/src/main/java/dev/ua/ikeepcalm/ad/storage/BTree.java:315-327 | the recursive count is the length of the in-order list |
| BTreeStore.Collect | ad-3/src/main/java/dev/ua/ikeepcalm/ad/storage/BTree.java:338-361 | the walk appends to the page the users its counter takes, and the counter ends after the subtree or at the page end |
| BTreeStore.BTree.constructor | ad-3/src/main/java/dev/ua/ikeepcalm/ad/storage/BTree.java:16-18 | an empty leaf root, and the counter at 0 |
| BTreeStore.BTree.BinarySearch | ad-3/src/main/java/dev/ua/ikeepcalm/ad/storage/BTree.java:26-39 | the loop returns the binary-search index and adds one to the counter per probe |
| BTreeStore.BTree.GetComparisonCount | ad-3/src/main/java/dev/ua/ikeepcalm/ad/storage/BTree.java:363-367 | returns the counter and resets it to 0 |
| BTreeStore.BTree.FindIn | ad-3/src/main/java/dev/ua/ikeepcalm/ad/storage/BTree.java:184-192 | the recursive search returns the user found and counts its probes |
| BTreeStore.BTree.Search | ad-3/src/main/java/dev/ua/ikeepcalm/ad/storage/BTree.java:180-182 | a null root raises `NullPointerException`; otherwise on an ordered tree a user comes back exactly when the id is listed, and it has that id |
| BTreeStore.BTree.InsertInto | ad-3/src/main/java/dev/ua/ikeepcalm/ad/storage/BTree.java:217-231 | the recursive insert builds the `insertNonFull` tree and counts its probes |
| BTreeStore.BTree.DescendInto | ad-3/src/main/java/dev/ua/ikeepcalm/ad/storage/BTree.java:222-229 | the split-and-descend step builds the specified tree and counts its probes |
| BTreeStore.BTree.MaxUserId | ad-3/src/main/java/dev/ua/ikeepcalm/ad/storage/BTree.java:207-214 | the loop over `getAllUsers` returns the largest id, or 0 |
| BTreeStore.BTree.Insert | ad-3/src/main/java/dev/ua/ikeepcalm/ad/storage/BTree.java:194-205 | a null root raises `NullPointerException`; otherwise the root grows if full, the user gets the largest id plus 1, and unless that wraps it is appended to the in-order list with the order by id kept |
| BTreeStore.BTree.DeleteIn | ad-3/src/main/java/dev/ua/ikeepcalm/ad/storage/BTree.java:41-66 | the recursive delete, with line 60's `idx >= keys.size()` as written, builds the tree `DeleteNode` specifies for that comparison, or raises its exception, and counts its probes |
| BTreeStore.BTree.DeleteInternalIn | ad-3/src/main/java/dev/ua/ikeepcalm/ad/storage/BTree.java:82-97 | the inner-node case, descending with the as-written delete, builds the tree `DeleteFromInternal` specifies, or raises its exception, and counts its probes |
| BTreeStore.BTree.Delete | ad-3/src/main/java/dev/ua/ikeepcalm/ad/storage/BTree.java:68-80 | a null root raises; an empty root collapses and a root emptied to nothing raises `NullPointerException` in `getAllUsers`; with line 60 as written, on an ordered tree with non-empty nodes below the root, every user with another id stays and no user comes in, while the user with the id may stay |
| BTreeStore.BTree.Update | ad-3/src/main/java/dev/ua/ikeepcalm/ad/storage/BTree.java:170-178 | a null root raises; an absent id changes nothing; otherwise the users with the id are replaced, shape, height and ids are kept, and `search` returns the new user |
| BTreeStore.BTree.GetUserCount | ad-3/src/main/java/dev/ua/ikeepcalm/ad/storage/BTree.java:311-327 | the count is the length of the in-order list, 0 for a null root |
| BTreeStore.BTree.GetUsersForPage | ad-3/src/main/java/dev/ua/ikeepcalm/ad/storage/BTree.java:329-361 | the page is the in-order slice from `pageIndex * rowsPerPage` to that plus `rowsPerPage`, computed in `int` arithmetic and clipped to the list |
| VertexAnt.Ant.constructor | ad-4/src/main/java/dev/ua/ikeepcalm/solution/Ant.java:12-19 | the path is [start], exactly the start vertex is visited, the current vertex is the start and the length is 0 |
| VertexAnt.Ant.VisitVertex | ad-4/src/main/java/dev/ua/ikeepcalm/solution/Ant.java:21-26 | appends the vertex, marks it visited with every other flag unchanged, moves to it and adds the distance; the path invariant is kept |
| VertexAnt.Ant.IsNotVisited | ad-4/src/main/java/dev/ua/ikeepcalm/solution/Ant.java:28-30 | the negated flag, which is true exactly when the vertex is not on the path |
| VertexAnt.Ant.GetCurrentVertex | ad-4/src/main/java/dev/ua/ikeepcalm/solution/Ant.java:32-34 | the last vertex of the path |
| VertexAnt.Ant.GetPath | ad-4/src/main/java/dev/ua/ikeepcalm/solution/Ant.java:36-38 | the path, which is non-empty and ends at the current vertex |
| VertexAnt.Ant.GetPathLength | ad-4/src/main/java/dev/ua/ikeepcalm/solution/Ant.java:40-42 | the accumulated length |
| CityAnt.Ant.constructor | ad-5/src/main/java/dev/ua/ikeepcalm/solution/Ant.java:15-21 | the tour is [start] and exactly the start city is visited |
| CityAnt.Ant.VisitCity | ad-5/src/main/java/dev/ua/ikeepcalm/solution/Ant.java:23-26 | appends the city, even one already visited, and marks it, with every other flag unchanged |
| CityAnt.Ant.IsVisited | ad-5/src/main/java/dev/ua/ikeepcalm/solution/Ant.java:28-30 | the flag, which is true exactly when the city is on the tour |
| CityAnt.Ant.CurrentCity | ad-5/src/main/java/dev/ua/ikeepcalm/solution/Ant.java:32-34 | the last city of the tour, which is visited |

## Left out

- File I/O is not modelled. In the sort this means reading and writing lines,
  temporary chunk files, the `temp` directory, `renameTo` and `delete`; files are
  slots of a map, and the input is already a list of integers. In the B-tree it
  means `readUsersFromFile`, `appendUserToFile` and `writeUsersToFile`, and the
  constructor's load of the stored users.
- Console output, ANSI escapes, `Thread.sleep` and the diagnostic counters
  (`iterations`, `totalNodes`, `maxNodesInMemory`) only report progress, so they
  are not modelled.
- The ant-colony and TSP solvers, `calculateTourAttributes` and the other
  `Main` methods rely on floating point, `Random` and wall-clock time, so they
  are not part of this model.
- `User` is an id plus opaque email, username and password fields; `User.java` is
  not part of this model.
- `Integer.parseInt` is modelled on ASCII digits with an optional sign; the
  non-ASCII digits Java also accepts are not.
- JavaInt.Div: only positive divisors. The modelled code divides only by
  `Integer.BYTES`, so negative divisors and the overflow of `MIN_VALUE / -1`
  are not part of the model.
- TimeLimit.ParseTimeLimit: a `null` argument, which would raise
  `NullPointerException`, is not modelled; the argument is always a string.
- Polyphase.MergeRun: the merge loop need not end, so passes are bounded by a
  budget `maxPasses`, and `PerformPolyphaseMerge` and `Sort` report whether the
  budget sufficed.
- AStar.Search: the loop is bounded by a number of polls. `poll` may return any
  node of least f, because the tie order of `PriorityQueue` is not modelled.
- AStar.RenderInjective: stated for 0/1 boards only, because cell values of
  several digits can render alike. Of the rendering's layout only its length and
  injectivity are stated.
- Ldfs.SolveLdfs: on failure a cell that held neither 0 nor 1 may have been
  cleared to 0; the board is identical on entry and exit only for 0/1 boards.
  The contract does not say when a row without a queen raises, only that a queen
  in every remaining row rules that out.
- BTreeDeleteCorrect.DeleteRemoves: proved for trees whose nodes below the root
  each hold a key and whose ids are strictly increasing. That delete keeps every
  node at t-1 keys or more is not proved.
- BTreeDelete.BorrowFromPrev: the contract states the key counts after the
  borrow, not the `t - 1` lower bound of the Java `assert`, which depends on the
  occupancy invariant above.
- BTreeDelete.BorrowFromNext: the same as `BorrowFromPrev`.
- BTreeStore.BTree.Delete: when a step raises midway, Java leaves the tree
  partly edited; the model keeps the old root.
- BTreeStore.BTree.Delete: with line 60 as written only membership is stated:
  every user with another id stays and no user comes in. The user with the id
  can stay (`BTreeDelete.LastChildKeySurvives`), and a predecessor or successor
  copied up is not proved to leave the subtree it came from, so the listing is
  not stated as an equality.
- BTreeDeleteWritten.DeleteKeepsOthers: the same membership statement, proved
  for trees whose nodes below the root each hold a key and whose ids strictly
  increase.
- BTreeStore.BTree.Update: Java mutates the one `User` object found. A
  predecessor or successor copy can share that object, so the model replaces
  every stored user with that id.
- BTreeStore.BTree.Insert: the append property is not stated when the largest
  id is `Integer.MAX_VALUE` and the new id wraps.
- VertexAnt.Ant.VisitVertex: an out-of-range vertex raises
  `ArrayIndexOutOfBoundsException` in Java after the path has grown; the model
  requires a vertex index in range. The same holds for `CityAnt.Ant.VisitCity`,
  `IsNotVisited`, `IsVisited` and both constructors.
- VertexAnt.Ant.GetPathLength: `pathLength` is a `real`, without
  floating-point rounding.

## Findings

| source | as written | input that shows it | evidently intended | confidence | as-written member | corrected member |
|---|---|---|---|---|---|---|
| ad-3/src/main/java/dev/ua/ikeepcalm/ad/storage/BTree.java:60 | `flag && idx >= node.keys.size()` sends the recursion to `children[idx - 1]` whenever the id belongs in the last child, even when `fill` did not merge | t = 2, root with key 2 over leaves [1] and [3, 4]; `delete(4)` | `idx > node.keys.size()`, true only when `fill` merged the last child into its left sibling | not executed | BTreeDelete.LastChildKeySurvives | BTreeDelete.LastChildKeyRemoved, BTreeDeleteCorrect.DeleteRemoves |
