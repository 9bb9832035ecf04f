/**
 * The external sort of ad-1 (Polyphase.java). Files are modelled by their records:
 * the input file is a `seq<int>`, each of the three auxiliary files is an entry of a
 * map from `AuxFile` to its records (a missing key is a file that does not exist),
 * and "sorted.txt" is an `Option`. Reading, writing and parsing lines, temporary
 * chunk files, renaming and deleting become operations on these values.
 *
 * The model follows the code as written, including three behaviours a textbook
 * polyphase sort does not have: `Entry.compareTo` is reversed, so each merge step
 * emits the LARGER head; the output of every pass truncates and overwrites the
 * third role's file, so records distributed to it are lost on the first pass and
 * the inputs are never consumed; and the file renamed at the end is the left input
 * of the last pass, not that pass's output.
 */
module Polyphase {
  import opened Wrappers
  import JavaInt

  /** `Integer.BYTES`. */
  const INTEGER_BYTES: int := 4

  ghost predicate NonDecreasing(s: seq<int>) {
    forall i, j :: 0 <= i < j < |s| ==> s[i] <= s[j]
  }

  ghost predicate NonIncreasing(s: seq<int>) {
    forall i, j :: 0 <= i < j < |s| ==> s[i] >= s[j]
  }

  function Flatten(chunks: seq<seq<int>>): (s: seq<int>)
  {
    if chunks == [] then [] else chunks[0] + Flatten(chunks[1..])
  }

  lemma {:induction false} FlattenAppend(a: seq<seq<int>>, b: seq<seq<int>>)
    ensures Flatten(a + b) == Flatten(a) + Flatten(b)
  {
    if a == [] {
      assert a + b == b;
    } else {
      assert (a + b)[1..] == a[1..] + b;
      FlattenAppend(a[1..], b);
    }
  }

  // ---------------------------------------------------------------------------
  // Sorting one chunk in memory (`Collections.sort` in sortAndWriteChunk).

  /** Prepending a record no larger than the head keeps a sequence ascending. */
  lemma ConsNonDecreasing(h: int, t: seq<int>)
    requires NonDecreasing(t) && (t == [] || h <= t[0])
    ensures NonDecreasing([h] + t)
  {
    var s := [h] + t;
    forall i, j | 0 <= i < j < |s| ensures s[i] <= s[j] {
      if i == 0 && j > 1 {
        assert t[0] <= t[j - 1];
      }
    }
  }

  function InsertSorted(x: int, s: seq<int>): (r: seq<int>)
    requires NonDecreasing(s)
    ensures NonDecreasing(r)
    ensures multiset(r) == multiset(s) + multiset{x}
    ensures r[0] == x || (s != [] && r[0] == s[0])
  {
    if s == [] || x <= s[0] then
      ConsNonDecreasing(x, s);
      [x] + s
    else
      assert s == [s[0]] + s[1..];
      var t := InsertSorted(x, s[1..]);
      assert s[1..] != [] ==> s[0] <= s[1..][0];
      ConsNonDecreasing(s[0], t);
      [s[0]] + t
  }

  /** The sorted buffer a chunk file receives: ascending, and a permutation of the buffer. */
  function SortChunk(buffer: seq<int>): (r: seq<int>)
    ensures NonDecreasing(r)
    ensures multiset(r) == multiset(buffer)
    ensures |r| == |buffer|
  {
    if buffer == [] then []
    else
      assert buffer == [buffer[0]] + buffer[1..];
      var r := InsertSorted(buffer[0], SortChunk(buffer[1..]));
      assert |r| == |multiset(r)|;
      r
  }

  lemma MultisetTail(s: seq<int>)
    requires s != []
    ensures multiset(s[1..]) == multiset(s) - multiset{s[0]}
  {
    assert s == [s[0]] + s[1..];
  }

  /**
   * Any two ascending permutations of the same records are equal, so modelling the
   * library sort by `SortChunk` loses nothing.
   */
  lemma {:induction false} SortedPermutationUnique(a: seq<int>, b: seq<int>)
    requires NonDecreasing(a) && NonDecreasing(b)
    requires multiset(a) == multiset(b)
    ensures a == b
  {
    if a != [] {
      assert |a| == |multiset(a)| == |b|;
      assert a[0] in multiset(b);
      assert b[0] in multiset(a);
      assert a[0] == b[0] by {
        var i :| 0 <= i < |b| && b[i] == a[0];
        var j :| 0 <= j < |a| && a[j] == b[0];
        assert a[0] <= a[j] && b[0] <= b[i];
      }
      MultisetTail(a);
      MultisetTail(b);
      SortedPermutationUnique(a[1..], b[1..]);
    }
  }

  // ---------------------------------------------------------------------------
  // Splitting the input into memory-sized blocks (splitAndSortChunks).

  /**
   * `availableMemory / Integer.BYTES`, Java division: for a non-negative budget the
   * number of 4-byte records that fit, and not positive for a budget below 4 bytes.
   */
  function BufferSize(availableMemory: int): (size: int)
    ensures availableMemory >= 0 ==> 0 <= size * INTEGER_BYTES <= availableMemory < (size + 1) * INTEGER_BYTES
    ensures availableMemory < INTEGER_BYTES <==> size <= 0
  {
    JavaInt.Div(availableMemory, INTEGER_BYTES)
  }

  /**
   * The unsorted blocks the read loop collects: blocks of `size` records and a
   * shorter non-empty last block. A size of 0 or less never equals the size of
   * a buffer that has just grown, so the whole input is one block.
   */
  function Blocks(s: seq<int>, size: int): seq<seq<int>>
    decreases |s|
  {
    if s == [] then []
    else if size <= 0 || |s| <= size then [s]
    else [s[..size]] + Blocks(s[size..], size)
  }

  /** The blocks, concatenated in order, are the input. */
  lemma {:induction false} BlocksConcatenate(s: seq<int>, size: int)
    ensures Flatten(Blocks(s, size)) == s
    decreases |s|
  {
    if s != [] && size > 0 && |s| > size {
      BlocksConcatenate(s[size..], size);
      assert s == s[..size] + s[size..];
    }
  }

  /** Every block but the last holds exactly `size` records, the last is non-empty, and only empty input has no blocks. */
  lemma {:induction false} BlocksSizes(s: seq<int>, size: int)
    ensures (Blocks(s, size) == []) <==> (s == [])
    ensures forall k :: 0 <= k < |Blocks(s, size)| - 1 ==> |Blocks(s, size)[k]| == size
    ensures Blocks(s, size) != [] ==> Blocks(s, size)[|Blocks(s, size)| - 1] != []
    ensures size > 0 ==> forall k :: 0 <= k < |Blocks(s, size)| ==> 0 < |Blocks(s, size)[k]| <= size
    decreases |s|
  {
    if s != [] && size > 0 && |s| > size {
      BlocksSizes(s[size..], size);
    }
  }

  /** With less than four bytes of memory the whole non-empty input is a single block. */
  lemma TinyMemoryOneBlock(s: seq<int>, availableMemory: int)
    requires availableMemory < INTEGER_BYTES && s != []
    ensures Blocks(s, BufferSize(availableMemory)) == [s]
  {
  }

  ghost predicate AllOfSize(full: seq<seq<int>>, size: int) {
    forall k :: 0 <= k < |full| ==> |full[k]| == size
  }

  /** What the read loop relies on: whole blocks followed by one more non-empty block of at most `size` records. */
  lemma {:induction false} BlocksAppend(full: seq<seq<int>>, b: seq<int>, size: int)
    requires size > 0 && AllOfSize(full, size)
    requires 0 < |b| <= size
    ensures Blocks(Flatten(full) + b, size) == full + [b]
  {
    if full != [] {
      var s := Flatten(full) + b;
      assert Flatten(full) == full[0] + Flatten(full[1..]);
      assert s == full[0] + (Flatten(full[1..]) + b);
      assert s[..size] == full[0];
      assert s[size..] == Flatten(full[1..]) + b;
      BlocksAppend(full[1..], b, size);
      assert full == [full[0]] + full[1..];
    } else {
      assert Flatten(full) + b == b;
    }
  }

  /** Whole blocks alone come back as themselves. */
  lemma {:induction false} BlocksOfWhole(full: seq<seq<int>>, size: int)
    requires size > 0 && AllOfSize(full, size)
    ensures Blocks(Flatten(full), size) == full
  {
    if |full| == 1 {
      assert full[1..] == [];
      assert Flatten(full) == full[0] + Flatten(full[1..]);
      assert Flatten(full) == full[0];
      assert full == [full[0]];
    } else if |full| > 1 {
      var s := Flatten(full);
      assert s == full[0] + Flatten(full[1..]);
      assert Flatten(full[1..]) == full[1] + Flatten(full[2..]);
      assert s[..size] == full[0];
      assert s[size..] == Flatten(full[1..]);
      BlocksOfWhole(full[1..], size);
      assert full == [full[0]] + full[1..];
    }
  }

  /** A one-record buffer is already sorted. */
  lemma SortSingle(x: int)
    ensures SortChunk([x]) == [x]
  {
    assert [x][1..] == [];
  }

  /** The chunk files: each block sorted, in order. */
  function SortEach(blocks: seq<seq<int>>): (r: seq<seq<int>>)
    ensures |r| == |blocks|
  {
    if blocks == [] then [] else [SortChunk(blocks[0])] + SortEach(blocks[1..])
  }

  /** Chunk `k` is block `k`, sorted. */
  lemma {:induction false} SortEachElement(blocks: seq<seq<int>>, k: int)
    requires 0 <= k < |blocks|
    ensures SortEach(blocks)[k] == SortChunk(blocks[k])
  {
    if k > 0 {
      assert blocks[1..][k - 1] == blocks[k];
      SortEachElement(blocks[1..], k - 1);
    }
  }

  lemma {:induction false} SortEachAppend(a: seq<seq<int>>, b: seq<int>)
    ensures SortEach(a + [b]) == SortEach(a) + [SortChunk(b)]
  {
    if a == [] {
      assert a + [b] == [b];
    } else {
      assert (a + [b])[1..] == a[1..] + [b];
      SortEachAppend(a[1..], b);
    }
  }

  /** The chunks of an input are the sorted blocks: each an ascending permutation of its block. */
  lemma ChunksAreSortedBlocks(s: seq<int>, size: int, k: int)
    requires 0 <= k < |SortEach(Blocks(s, size))|
    ensures NonDecreasing(SortEach(Blocks(s, size))[k])
    ensures multiset(SortEach(Blocks(s, size))[k]) == multiset(Blocks(s, size)[k])
  {
    SortEachElement(Blocks(s, size), k);
  }

  // ---------------------------------------------------------------------------
  // Distributing the chunks (distributeChunks).

  function Min(a: int, b: int): int { if a <= b then a else b }
  function Max(a: int, b: int): int { if a >= b then a else b }

  /** The chunks each auxiliary file receives: `max(1, n/3)` for the first two, the rest for the third. */
  function Distribution(chunks: seq<seq<int>>): (seq<seq<int>>, seq<seq<int>>, seq<seq<int>>)
  {
    SplitThree(chunks, Max(1, |chunks| / 3))
  }

  /** The first `share` chunks, the next `share` chunks, and the rest (fewer where the chunks run out). */
  function SplitThree(chunks: seq<seq<int>>, share: nat): (seq<seq<int>>, seq<seq<int>>, seq<seq<int>>)
  {
    var n := |chunks|;
    var a := Min(n, share);
    var b := Min(n - a, share);
    (chunks[..a], chunks[a..a + b], chunks[a + b..])
  }

  /** Taking `share` chunks twice and then `n - 2 share` chunks leaves nothing and gives the three shares. */
  lemma SplitThreeByTaking(chunks: seq<seq<int>>, share: nat, first: seq<seq<int>>, rest1: seq<seq<int>>,
                           second: seq<seq<int>>, rest2: seq<seq<int>>, third: seq<seq<int>>)
    requires first == chunks[..Min(|chunks|, share)] && rest1 == chunks[Min(|chunks|, share)..]
    requires second == rest1[..Min(|rest1|, share)] && rest2 == rest1[Min(|rest1|, share)..]
    requires third == rest2[..Min(|rest2|, Max(|chunks| - share - share, 0))]
    ensures SplitThree(chunks, share) == (first, second, third)
  {
    var n := |chunks|;
    var a := Min(n, share);
    var b := Min(n - a, share);
    assert rest1[..b] == chunks[a..a + b];
    assert rest2 == chunks[a + b..];
    assert third == rest2;
  }

  /** No chunk is lost or reordered, and the first two files get `max(1, n/3)` chunks while any remain. */
  lemma DistributionKeepsEveryChunk(chunks: seq<seq<int>>)
    ensures var (a, b, c) := Distribution(chunks);
      a + b + c == chunks &&
      |a| == Min(|chunks|, Max(1, |chunks| / 3)) &&
      |b| == Min(|chunks| - |a|, Max(1, |chunks| / 3)) &&
      (|chunks| >= 2 ==> |c| == |chunks| - 2 * Max(1, |chunks| / 3))
  {
    var (a, b, c) := Distribution(chunks);
    assert a + b + c == chunks;
  }

  /** The records of the three files, together, are the records of all chunks, in order. */
  lemma DistributionKeepsEveryRecord(chunks: seq<seq<int>>)
    ensures var (a, b, c) := Distribution(chunks);
      Flatten(a) + Flatten(b) + Flatten(c) == Flatten(chunks)
  {
    var (a, b, c) := Distribution(chunks);
    DistributionKeepsEveryChunk(chunks);
    FlattenAppend(a, b);
    FlattenAppend(a + b, c);
  }

  // ---------------------------------------------------------------------------
  // The two-way merge (mergeFiles) and its priority queue of at most two entries.

  /** The head of one input, tagged with the input it came from (1 or 2). */
  datatype Entry = Entry(value: int, fileIndex: int) {
    /** `Integer.compare(other.value, this.value)`: the order is reversed, so a larger value comes first. */
    function CompareTo(other: Entry): (r: int)
      ensures r < 0 <==> value > other.value
      ensures r == 0 <==> value == other.value
      ensures r > 0 <==> value < other.value
    {
      if other.value < value then -1 else if other.value == value then 0 else 1
    }
  }

  /**
   * `PriorityQueue.add` on a queue of at most one entry: the new entry becomes the head
   * only when it compares strictly smaller than the current head.
   */
  function Offer(queue: seq<Entry>, e: Entry): (r: seq<Entry>)
    requires |queue| <= 1
    ensures |r| == |queue| + 1 && e in r && (queue != [] ==> queue[0] in r)
    ensures |r| == 2 ==> r[0].value >= r[1].value
    ensures |queue| == 1 && e.value == queue[0].value ==> r[0] == queue[0]
  {
    if queue == [] then [e]
    else if e.CompareTo(queue[0]) < 0 then [e, queue[0]]
    else [queue[0], e]
  }

  /** Which input wins when both heads are equal. */
  datatype Side = LeftInput | RightInput

  function Other(s: Side): Side {
    if s == LeftInput then RightInput else LeftInput
  }

  /**
   * What the merge writes: each step emits the larger of the two heads. On equal heads
   * the entry already at the head of the queue wins; that is the left input before the
   * first output, and afterwards the input NOT emitted from last.
   */
  function MaxMerge(a: seq<int>, b: seq<int>, tie: Side): seq<int>
    decreases |a| + |b|
  {
    if a == [] then b
    else if b == [] then a
    else if a[0] > b[0] || (a[0] == b[0] && tie == LeftInput) then [a[0]] + MaxMerge(a[1..], b, RightInput)
    else [b[0]] + MaxMerge(a, b[1..], LeftInput)
  }

  /** The output has exactly the records of both inputs. */
  lemma {:induction false} MaxMergeKeepsRecords(a: seq<int>, b: seq<int>, tie: Side)
    ensures |MaxMerge(a, b, tie)| == |a| + |b|
    ensures multiset(MaxMerge(a, b, tie)) == multiset(a) + multiset(b)
    decreases |a| + |b|
  {
    if a != [] && b != [] {
      if a[0] > b[0] || (a[0] == b[0] && tie == LeftInput) {
        var rest := MaxMerge(a[1..], b, RightInput);
        assert MaxMerge(a, b, tie) == [a[0]] + rest;
        MaxMergeKeepsRecords(a[1..], b, RightInput);
        HeadMultiset(a);
        ConsMultiset(a[0], rest);
      } else {
        var rest := MaxMerge(a, b[1..], LeftInput);
        assert MaxMerge(a, b, tie) == [b[0]] + rest;
        MaxMergeKeepsRecords(a, b[1..], LeftInput);
        HeadMultiset(b);
        ConsMultiset(b[0], rest);
      }
    }
  }

  /** A non-empty sequence holds its head and the records of its tail. */
  lemma HeadMultiset(a: seq<int>)
    requires a != []
    ensures multiset(a) == multiset{a[0]} + multiset(a[1..])
  {
    assert a == [a[0]] + a[1..];
  }

  lemma ConsMultiset(x: int, rest: seq<int>)
    ensures multiset([x] + rest) == multiset{x} + multiset(rest)
  {
  }

  /** When one input is empty the output is the other input, record for record. */
  lemma MaxMergeWithEmpty(a: seq<int>, tie: Side)
    ensures MaxMerge(a, [], tie) == a
    ensures MaxMerge([], a, tie) == a
  {
  }

  /** The tie rule matters only when the heads are equal. */
  lemma MaxMergeTieIrrelevant(a: seq<int>, b: seq<int>)
    requires a == [] || b == [] || a[0] != b[0]
    ensures MaxMerge(a, b, LeftInput) == MaxMerge(a, b, RightInput)
  {
  }

  /** The first record written is the larger of the two heads. */
  lemma MaxMergeFirst(a: seq<int>, b: seq<int>, tie: Side)
    requires a != [] && b != []
    ensures MaxMerge(a, b, tie)[0] == Max(a[0], b[0])
  {
  }

  /** No record of the output exceeds a bound that both inputs respect. */
  lemma {:induction false} MaxMergeBounded(a: seq<int>, b: seq<int>, tie: Side, m: int)
    requires forall k :: 0 <= k < |a| ==> a[k] <= m
    requires forall k :: 0 <= k < |b| ==> b[k] <= m
    ensures forall k :: 0 <= k < |MaxMerge(a, b, tie)| ==> MaxMerge(a, b, tie)[k] <= m
    decreases |a| + |b|
  {
    if a != [] && b != [] {
      if a[0] > b[0] || (a[0] == b[0] && tie == LeftInput) {
        MaxMergeBounded(a[1..], b, RightInput, m);
      } else {
        MaxMergeBounded(a, b[1..], LeftInput, m);
      }
    }
  }

  lemma ConsNonIncreasing(h: int, t: seq<int>)
    requires NonIncreasing(t) && (forall k :: 0 <= k < |t| ==> t[k] <= h)
    ensures NonIncreasing([h] + t)
  {
    var s := [h] + t;
    forall i, j | 0 <= i < j < |s| ensures s[i] >= s[j] {
      if i > 0 {
        assert s[i] == t[i - 1] && s[j] == t[j - 1];
      }
    }
  }

  /** Merging two non-increasing inputs gives a non-increasing output. */
  lemma {:induction false} MaxMergeNonIncreasing(a: seq<int>, b: seq<int>, tie: Side)
    requires NonIncreasing(a) && NonIncreasing(b)
    ensures NonIncreasing(MaxMerge(a, b, tie))
    decreases |a| + |b|
  {
    if a != [] && b != [] {
      if a[0] > b[0] || (a[0] == b[0] && tie == LeftInput) {
        MaxMergeNonIncreasing(a[1..], b, RightInput);
        assert forall k :: 0 <= k < |a[1..]| ==> a[1..][k] <= a[0] by {
          forall k | 0 <= k < |a[1..]| ensures a[1..][k] <= a[0] { assert a[1..][k] == a[k + 1]; }
        }
        assert forall k :: 0 <= k < |b| ==> b[k] <= a[0] by {
          forall k | 0 <= k < |b| ensures b[k] <= a[0] { assert k == 0 || b[0] >= b[k]; }
        }
        MaxMergeBounded(a[1..], b, RightInput, a[0]);
        ConsNonIncreasing(a[0], MaxMerge(a[1..], b, RightInput));
      } else {
        MaxMergeNonIncreasing(a, b[1..], LeftInput);
        assert forall k :: 0 <= k < |b[1..]| ==> b[1..][k] <= b[0] by {
          forall k | 0 <= k < |b[1..]| ensures b[1..][k] <= b[0] { assert b[1..][k] == b[k + 1]; }
        }
        assert forall k :: 0 <= k < |a| ==> a[k] <= b[0] by {
          forall k | 0 <= k < |a| ensures a[k] <= b[0] { assert k == 0 || a[0] >= a[k]; }
        }
        MaxMergeBounded(a, b[1..], LeftInput, b[0]);
        ConsNonIncreasing(b[0], MaxMerge(a, b[1..], LeftInput));
      }
    }
  }

  // ---------------------------------------------------------------------------
  // The merge passes (performPolyphaseMerge).

  /** The three auxiliary files, by their constructor argument. */
  datatype AuxFile = First | Second | Third

  /** Which file plays which role in a pass: the two inputs and the output. */
  datatype Roles = Roles(left: AuxFile, right: AuxFile, out: AuxFile) {
    ghost predicate Distinct() {
      left != right && right != out && left != out
    }
  }

  const INITIAL_ROLES: Roles := Roles(First, Second, Third)

  /** After a pass that asks for more merging: (left, right, out) := (out, left, right). */
  function Rotate(r: Roles): (r': Roles)
    ensures r.Distinct() ==> r'.Distinct()
  {
    Roles(r.out, r.left, r.right)
  }

  ghost predicate HasFiles(files: map<AuxFile, seq<int>>, r: Roles) {
    r.left in files && r.right in files && r.out in files
  }

  /** One pass: the output file is truncated and receives the merge of the two inputs. */
  function Pass(files: map<AuxFile, seq<int>>, r: Roles): (f: map<AuxFile, seq<int>>)
    requires HasFiles(files, r)
    ensures f.Keys == files.Keys
  {
    files[r.out := MaxMerge(files[r.left], files[r.right], LeftInput)]
  }

  /** The merge loop with at most `fuel` passes: the files, the roles of the last pass, and whether it found an ascending output. */
  ghost function MergeRun(files: map<AuxFile, seq<int>>, r: Roles, fuel: nat): (res: (map<AuxFile, seq<int>>, Roles, bool))
    requires HasFiles(files, r) && r.Distinct()
    ensures HasFiles(res.0, res.1) && res.1.Distinct()
    ensures fuel == 0 ==> !res.2
    decreases fuel
  {
    if fuel == 0 then (files, r, false)
    else
      var f := Pass(files, r);
      if NonDecreasing(f[r.out]) then (f, r, true)
      else MergeRun(f, Rotate(r), fuel - 1)
  }

  /** A pass keeps both inputs and replaces the output's records: the record count is not conserved. */
  lemma PassRecordCount(files: map<AuxFile, seq<int>>, r: Roles)
    requires HasFiles(files, r) && r.Distinct()
    ensures var f := Pass(files, r);
      f[r.left] == files[r.left] && f[r.right] == files[r.right] &&
      |f[r.out]| == |files[r.left]| + |files[r.right]|
  {
    MaxMergeKeepsRecords(files[r.left], files[r.right], LeftInput);
  }

  /** The first pass overwrites the third file: what was distributed to it never reaches any later pass. */
  lemma FirstPassDiscardsThird(files: map<AuxFile, seq<int>>, other: seq<int>)
    requires HasFiles(files, INITIAL_ROLES)
    ensures Pass(files, INITIAL_ROLES) == Pass(files[Third := other], INITIAL_ROLES)
  {
  }

  /** A non-increasing sequence holding two different records is not ascending. */
  lemma NotAscending(m: seq<int>, x: int, y: int)
    requires NonIncreasing(m) && x < y && x in m && y in m
    ensures !NonDecreasing(m)
  {
    var i :| 0 <= i < |m| && m[i] == x;
    var j :| 0 <= j < |m| && m[j] == y;
    if i <= j {
      assert false;
    }
    assert m[j] > m[i];
  }

  /**
   * If both inputs are non-increasing and hold two different records between them,
   * no pass ever produces an ascending output: the loop runs for ever.
   */
  ghost predicate Descending(files: map<AuxFile, seq<int>>, r: Roles, x: int, y: int) {
    HasFiles(files, r) && r.Distinct() &&
    NonIncreasing(files[r.left]) && NonIncreasing(files[r.right]) &&
    x < y && (x in files[r.left] || x in files[r.right]) && (y in files[r.left] || y in files[r.right])
  }

  /** A pass over two non-increasing inputs with two different records writes a file that is not ascending, and the rotated roles meet the same condition. */
  lemma PassStaysDescending(files: map<AuxFile, seq<int>>, r: Roles, x: int, y: int)
    requires Descending(files, r, x, y)
    ensures !NonDecreasing(Pass(files, r)[r.out])
    ensures Descending(Pass(files, r), Rotate(r), x, y)
  {
    var left, right := files[r.left], files[r.right];
    var m := MaxMerge(left, right, LeftInput);
    MaxMergeNonIncreasing(left, right, LeftInput);
    MaxMergeKeepsRecords(left, right, LeftInput);
    assert x in multiset(left) + multiset(right);
    assert y in multiset(left) + multiset(right);
    assert x in m && y in m;
    NotAscending(m, x, y);
  }

  /**
   * If both inputs are non-increasing and hold two different records between them,
   * no pass ever produces an ascending output: the loop runs for ever.
   */
  lemma {:induction false} MergeRunNeverFinishes(files: map<AuxFile, seq<int>>, r: Roles, fuel: nat, x: int, y: int)
    requires Descending(files, r, x, y)
    ensures !MergeRun(files, r, fuel).2
    decreases fuel
  {
    if fuel > 0 {
      PassStaysDescending(files, r, x, y);
      var f := Pass(files, r);
      assert MergeRun(files, r, fuel) == MergeRun(f, Rotate(r), fuel - 1);
      MergeRunNeverFinishes(f, Rotate(r), fuel - 1, x, y);
    }
  }

  /** What the read loop has collected, seen as blocks: the whole blocks, then the buffer if it is not empty. */
  lemma FinalBlocks(full: seq<seq<int>>, buffer: seq<int>, size: int)
    requires size > 0 ==> |buffer| < size && AllOfSize(full, size)
    requires size <= 0 ==> full == []
    ensures Blocks(Flatten(full) + buffer, size) == full + (if buffer == [] then [] else [buffer])
  {
    if size > 0 {
      if buffer != [] {
        BlocksAppend(full, buffer, size);
      } else {
        assert Flatten(full) + buffer == Flatten(full);
        BlocksOfWhole(full, size);
      }
    } else {
      assert Flatten(full) + buffer == buffer;
    }
  }

  /**
   * The read loop after `i` records of `s`: the whole blocks read so far and the
   * current buffer make up the prefix, and a chunk was sorted for each whole block.
   */
  ghost predicate ReadState(s: seq<int>, i: int, size: int, full: seq<seq<int>>, buffer: seq<int>, chunks: seq<seq<int>>) {
    0 <= i <= |s| && s[..i] == Flatten(full) + buffer &&
    (size > 0 ==> |buffer| < size && AllOfSize(full, size)) &&
    (size <= 0 ==> full == []) &&
    chunks == SortEach(full)
  }

  /** Reading one more record, and closing the buffer when it reaches `size`, keeps the read loop's state. */
  lemma ReadStep(s: seq<int>, i: int, size: int, full: seq<seq<int>>, buffer: seq<int>, chunks: seq<seq<int>>)
    requires ReadState(s, i, size, full, buffer, chunks) && i < |s|
    ensures var b := buffer + [s[i]];
      if |b| == size then ReadState(s, i + 1, size, full + [b], [], chunks + [SortChunk(b)])
      else ReadState(s, i + 1, size, full, b, chunks)
  {
    var b := buffer + [s[i]];
    assert s[..i + 1] == s[..i] + [s[i]];
    assert s[..i + 1] == Flatten(full) + b;
    if |b| == size {
      FlattenAppend(full, [b]);
      assert Flatten([b]) == b;
      SortEachAppend(full, b);
      assert s[..i + 1] == Flatten(full + [b]) + [];
    }
  }

  /** At the end of the input the chunks, with the last buffer sorted if it is not empty, are the sorted blocks. */
  lemma ReadDone(s: seq<int>, size: int, full: seq<seq<int>>, buffer: seq<int>, chunks: seq<seq<int>>)
    requires ReadState(s, |s|, size, full, buffer, chunks)
    ensures (if buffer == [] then chunks else chunks + [SortChunk(buffer)]) == SortEach(Blocks(s, size))
  {
    assert s[..|s|] == s;
    FinalBlocks(full, buffer, size);
    if buffer != [] {
      SortEachAppend(full, buffer);
    } else {
      assert full + [] == full;
    }
  }

  // ---------------------------------------------------------------------------
  // The sorter.

  /** The three files after `distributeChunks`. */
  function ChunkFiles(chunks: seq<seq<int>>): map<AuxFile, seq<int>> {
    var (a, b, c) := Distribution(chunks);
    map[First := Flatten(a), Second := Flatten(b), Third := Flatten(c)]
  }

  /** The three files after splitting and distributing `input`. */
  ghost function Distributed(input: seq<int>, availableMemory: int): map<AuxFile, seq<int>> {
    ChunkFiles(SortEach(Blocks(input, BufferSize(availableMemory))))
  }

  /** A map over the three files that has all three is determined by their contents. */
  lemma AllThree(m: map<AuxFile, seq<int>>)
    requires First in m && Second in m && Third in m
    ensures m == map[First := m[First], Second := m[Second], Third := m[Third]]
  {
    forall f: AuxFile | f in m.Keys ensures f in {First, Second, Third} {
      match f
      case First =>
      case Second =>
      case Third =>
    }
  }

  class Polyphase {
    /** The records of the input file. */
    const input: seq<int>
    const availableMemory: int
    /** The auxiliary files that exist, with their records. */
    var aux: map<AuxFile, seq<int>>
    /** "sorted.txt", once the sort has renamed its result to it. */
    var sortedFile: Option<seq<int>>

    constructor (input: seq<int>, availableMemory: int)
      ensures this.input == input && this.availableMemory == availableMemory
      ensures aux == map[] && sortedFile == None
    {
      this.input := input;
      this.availableMemory := availableMemory;
      aux := map[];
      sortedFile := None;
    }

    /** Read the input into buffers of `availableMemory / 4` records, and sort each full or final buffer into a chunk. */
    method SplitAndSortChunks() returns (sortedChunks: seq<seq<int>>)
      ensures sortedChunks == SortEach(Blocks(input, BufferSize(availableMemory)))
    {
      var bufferSize := BufferSize(availableMemory);
      sortedChunks := [];
      var buffer: seq<int> := [];
      ghost var full: seq<seq<int>> := [];
      var i := 0;
      while i < |input|
        invariant ReadState(input, i, bufferSize, full, buffer, sortedChunks)
        decreases |input| - i
      {
        ReadStep(input, i, bufferSize, full, buffer, sortedChunks);
        buffer := buffer + [input[i]];
        i := i + 1;
        if |buffer| == bufferSize {
          full := full + [buffer];
          sortedChunks := sortedChunks + [SortChunk(buffer)];
          buffer := [];
        }
      }
      ReadDone(input, bufferSize, full, buffer, sortedChunks);
      if buffer != [] {
        sortedChunks := sortedChunks + [SortChunk(buffer)];
      }
    }

    /** Write the records of `chunks`, in order, to the (truncated) auxiliary file `auxFile`. */
    method WriteChunksToAuxFile(chunks: seq<seq<int>>, auxFile: AuxFile)
      modifies this
      ensures aux == old(aux)[auxFile := Flatten(chunks)]
      ensures sortedFile == old(sortedFile)
    {
      var written: seq<int> := [];
      var c := 0;
      while c < |chunks|
        invariant 0 <= c <= |chunks|
        invariant written == Flatten(chunks[..c])
        invariant aux == old(aux) && sortedFile == old(sortedFile)
      {
        var line := 0;
        while line < |chunks[c]|
          invariant 0 <= line <= |chunks[c]|
          invariant written == Flatten(chunks[..c]) + chunks[c][..line]
        {
          written := written + [chunks[c][line]];
          line := line + 1;
        }
        assert chunks[..c + 1] == chunks[..c] + [chunks[c]];
        FlattenAppend(chunks[..c], [chunks[c]]);
        assert Flatten([chunks[c]]) == chunks[c];
        c := c + 1;
      }
      assert chunks[..|chunks|] == chunks;
      aux := aux[auxFile := written];
    }

    /** One of the three copying loops: move up to `count` chunks from the front of `remaining`. */
    static method TakeChunks(remaining: seq<seq<int>>, count: int) returns (taken: seq<seq<int>>, rest: seq<seq<int>>)
      ensures var k := Min(|remaining|, Max(count, 0));
        taken == remaining[..k] && rest == remaining[k..]
    {
      taken, rest := [], remaining;
      var i := 0;
      while i < count && rest != []
        invariant 0 <= i <= |remaining| && (count >= 0 ==> i <= count)
        invariant i <= Max(count, 0)
        invariant taken == remaining[..i] && rest == remaining[i..]
      {
        taken := taken + [rest[0]];
        rest := rest[1..];
        i := i + 1;
      }
    }

    /** The three chunk lists of `distributeChunks`: the first `max(1, n/3)` chunks, as many again, and the rest. */
    static method DealChunks(sortedChunks: seq<seq<int>>)
      returns (firstFileChunks: seq<seq<int>>, secondFileChunks: seq<seq<int>>, thirdFileChunks: seq<seq<int>>)
      ensures (firstFileChunks, secondFileChunks, thirdFileChunks) == Distribution(sortedChunks)
    {
      var n := |sortedChunks|;
      var file1Chunks := Max(1, n / 3);
      var file2Chunks := Max(1, n / 3);
      var file3Chunks := n - file1Chunks - file2Chunks;
      var rest1, rest2, rest3;
      firstFileChunks, rest1 := TakeChunks(sortedChunks, file1Chunks);
      secondFileChunks, rest2 := TakeChunks(rest1, file2Chunks);
      thirdFileChunks, rest3 := TakeChunks(rest2, file3Chunks);
      SplitThreeByTaking(sortedChunks, file1Chunks, firstFileChunks, rest1, secondFileChunks, rest2, thirdFileChunks);
    }

    /** Deal the chunks out and write each list to its auxiliary file. */
    method DistributeChunks(sortedChunks: seq<seq<int>>)
      modifies this
      ensures aux == ChunkFiles(sortedChunks)
      ensures sortedFile == old(sortedFile)
    {
      var firstFileChunks, secondFileChunks, thirdFileChunks := DealChunks(sortedChunks);
      WriteChunksToAuxFile(firstFileChunks, First);
      WriteChunksToAuxFile(secondFileChunks, Second);
      WriteChunksToAuxFile(thirdFileChunks, Third);
      AllThree(aux);
    }

    /** `isSingleSeries`: whether the records of `file` never descend. */
    method IsSingleSeries(file: AuxFile) returns (r: bool)
      requires file in aux
      ensures r <==> NonDecreasing(aux[file])
    {
      var s := aux[file];
      if |s| == 0 {
        return true;
      }
      var k := 1;
      while k < |s|
        invariant 1 <= k <= |s|
        invariant forall i, j :: 0 <= i < j < k ==> s[i] <= s[j]
      {
        if s[k] < s[k - 1] {
          return false;
        }
        k := k + 1;
      }
      return true;
    }

    /**
     * The record loop of `mergeFiles`: a priority queue holds the current record of each
     * input, the larger is written and replaced by the next record of its input.
     */
    static method MergeStreams(a: seq<int>, b: seq<int>) returns (written: seq<int>)
      ensures written == MaxMerge(a, b, LeftInput)
    {
      var queue: seq<Entry> := [];
      written := [];
      var read1, read2 := 0, 0;
      if read1 < |a| {
        queue := Offer(queue, Entry(a[read1], 1));
        read1 := read1 + 1;
      }
      if read2 < |b| {
        queue := Offer(queue, Entry(b[read2], 2));
        read2 := read2 + 1;
      }
      ghost var read1AtStart, read2AtStart, queueAtStart := read1, read2, queue;
      ghost var target := QueueMerge(a, b, read1, read2, queue);
      while queue != []
        invariant 0 <= read1 <= |a| && 0 <= read2 <= |b| && |queue| <= 2
        invariant written + QueueMerge(a, b, read1, read2, queue) == target
        decreases |a| - read1 + |b| - read2 + |queue|
      {
        ghost var next := Poll(a, b, read1, read2, queue);
        var smallest := queue[0];
        var rest := queue[1..];
        if smallest.fileIndex == 1 {
          if read1 < |a| {
            queue := Offer(rest, Entry(a[read1], 1));
            read1 := read1 + 1;
          } else {
            queue := rest;
          }
        } else {
          if read2 < |b| {
            queue := Offer(rest, Entry(b[read2], 2));
            read2 := read2 + 1;
          } else {
            queue := rest;
          }
        }
        assert read1 == next.0 && read2 == next.1 && queue == next.2;
        AppendOne(written, smallest.value, QueueMerge(a, b, read1, read2, queue));
        written := written + [smallest.value];
      }
      StartMatches(a, b);
      QueueMergeIsMaxMerge(a, b, read1AtStart, read2AtStart, queueAtStart, a, b, LeftInput);
    }

    /** Merge the records of `inputFile1` and `inputFile2` into `outputFile`; the result says whether more merging is needed. */
    method MergeFiles(inputFile1: AuxFile, inputFile2: AuxFile, outputFile: AuxFile) returns (moreMergesNeeded: bool)
      requires inputFile1 in aux && inputFile2 in aux
      requires inputFile1 != outputFile && inputFile2 != outputFile
      modifies this
      ensures aux == old(aux)[outputFile := MaxMerge(old(aux)[inputFile1], old(aux)[inputFile2], LeftInput)]
      ensures moreMergesNeeded <==> !NonDecreasing(aux[outputFile])
      ensures sortedFile == old(sortedFile)
    {
      var written := MergeStreams(aux[inputFile1], aux[inputFile2]);
      aux := aux[outputFile := written];
      moreMergesNeeded := IsSingleSeries(outputFile);
      moreMergesNeeded := !moreMergesNeeded;
    }

    /** Merge, rotating the roles, until a pass writes an ascending file or `maxPasses` passes are done. */
    method PerformPolyphaseMerge(maxPasses: nat) returns (finished: bool)
      requires First in aux && Second in aux && Third in aux
      modifies this
      ensures var (files, roles, done) := MergeRun(old(aux), INITIAL_ROLES, maxPasses);
        finished == done &&
        (finished ==> sortedFile == Some(files[roles.left]) && aux == map[]) &&
        (!finished ==> aux == files && sortedFile == old(sortedFile))
    {
      var file1, file2, file3 := First, Second, Third;
      ghost var start := aux;
      var moreMergesNeeded := true;
      var passes := 0;
      while moreMergesNeeded && passes < maxPasses
        invariant 0 <= passes <= maxPasses
        invariant Roles(file1, file2, file3).Distinct() && HasFiles(aux, Roles(file1, file2, file3))
        invariant file3 in aux
        invariant sortedFile == old(sortedFile)
        invariant moreMergesNeeded ==>
          MergeRun(start, INITIAL_ROLES, maxPasses) == MergeRun(aux, Roles(file1, file2, file3), maxPasses - passes)
        invariant !moreMergesNeeded ==>
          MergeRun(start, INITIAL_ROLES, maxPasses) == (aux, Roles(file1, file2, file3), true)
        decreases maxPasses - passes
      {
        moreMergesNeeded := MergeFiles(file1, file2, file3);
        passes := passes + 1;
        if moreMergesNeeded {
          var temp := file1;
          file1 := file3;
          file3 := file2;
          file2 := temp;
        }
      }
      if !moreMergesNeeded {
        assert MergeRun(start, INITIAL_ROLES, maxPasses) == (aux, Roles(file1, file2, file3), true);
        sortedFile := Some(aux[file1]);
        aux := map[];
        finished := true;
      } else {
        assert MergeRun(aux, Roles(file1, file2, file3), 0) == (aux, Roles(file1, file2, file3), false);
        finished := false;
      }
    }

    /** `sort`: split, distribute, then merge with at most `maxPasses` passes. */
    method Sort(maxPasses: nat) returns (finished: bool)
      modifies this
      ensures var (files, roles, done) := MergeRun(Distributed(input, availableMemory), INITIAL_ROLES, maxPasses);
        finished == done &&
        (finished ==> sortedFile == Some(files[roles.left]) && aux == map[]) &&
        (!finished ==> aux == files && sortedFile == old(sortedFile))
    {
      var sortedChunks := SplitAndSortChunks();
      DistributeChunks(sortedChunks);
      finished := PerformPolyphaseMerge(maxPasses);
    }
  }

  // ---------------------------------------------------------------------------
  // The merge loop's queue invariant.

  /** Whether the merge takes its next record from the left input. */
  ghost predicate LeftFirst(ra: seq<int>, rb: seq<int>, tie: Side) {
    ra != [] && (rb == [] || ra[0] > rb[0] || (ra[0] == rb[0] && tie == LeftInput))
  }

  /** The entry is the current head of the left input (file index 1) or of the right one (file index 2). */
  ghost predicate HeadOf(e: Entry, ra: seq<int>, rb: seq<int>) {
    (e.fileIndex == 1 && ra != [] && e.value == ra[0]) || (e.fileIndex == 2 && rb != [] && e.value == rb[0])
  }

  /**
   * The queue holds exactly the head of each input that still has records (file index
   * 1 for the left, 2 for the right), and its head is the one the merge takes next.
   */
  ghost predicate QueueMatches(queue: seq<Entry>, ra: seq<int>, rb: seq<int>, tie: Side) {
    |queue| == (if ra != [] then 1 else 0) + (if rb != [] then 1 else 0) &&
    (|queue| >= 1 ==> HeadOf(queue[0], ra, rb)) &&
    (|queue| == 2 ==> HeadOf(queue[1], ra, rb)) &&
    (|queue| == 2 ==> queue[0].fileIndex != queue[1].fileIndex) &&
    (queue != [] ==> (queue[0].fileIndex == 1 <==> LeftFirst(ra, rb, tie)))
  }

  /** Offering the first record of each input, left first, gives a queue that agrees with the merge. */
  lemma StartMatches(a: seq<int>, b: seq<int>)
    ensures var q := if a != [] then Offer([], Entry(a[0], 1)) else [];
      QueueMatches(if b != [] then Offer(q, Entry(b[0], 2)) else q, a, b, LeftInput)
  {
  }

  /** `rest` is what input `s` still has to give when `read` records have been read from it, one of them possibly queued. */
  ghost predicate Remaining(s: seq<int>, read: int, rest: seq<int>) {
    0 <= read <= |s| &&
    if rest == [] then read == |s| else read >= 1 && rest == s[read - 1..]
  }

  lemma AppendOne(w: seq<int>, v: int, tail: seq<int>)
    ensures w + [v] + tail == w + ([v] + tail)
  {
  }

  /** The merge loop's state after one iteration: the head is polled and the next record of its input, if any, offered. */
  function Poll(a: seq<int>, b: seq<int>, read1: int, read2: int, queue: seq<Entry>): (next: (int, int, seq<Entry>))
    requires 0 <= read1 <= |a| && 0 <= read2 <= |b| && 1 <= |queue| <= 2
    ensures 0 <= next.0 <= |a| && 0 <= next.1 <= |b| && |next.2| <= 2
    ensures |a| - next.0 + |b| - next.1 + |next.2| < |a| - read1 + |b| - read2 + |queue|
  {
    var rest := queue[1..];
    if queue[0].fileIndex == 1 then
      if read1 < |a| then (read1 + 1, read2, Offer(rest, Entry(a[read1], 1))) else (read1, read2, rest)
    else
      if read2 < |b| then (read1, read2 + 1, Offer(rest, Entry(b[read2], 2))) else (read1, read2, rest)
  }

  /**
   * What the merge loop writes from a given state: poll the head, write it, and offer the
   * next record of the input it came from, until the queue is empty.
   */
  ghost function QueueMerge(a: seq<int>, b: seq<int>, read1: int, read2: int, queue: seq<Entry>): seq<int>
    requires 0 <= read1 <= |a| && 0 <= read2 <= |b| && |queue| <= 2
    decreases |a| - read1 + |b| - read2 + |queue|
  {
    if queue == [] then []
    else
      var next := Poll(a, b, read1, read2, queue);
      [queue[0].value] + QueueMerge(a, b, next.0, next.1, next.2)
  }

  /** While the queue agrees with the unread records, the loop writes exactly their merge. */
  lemma {:induction false} QueueMergeIsMaxMerge(a: seq<int>, b: seq<int>, read1: int, read2: int, queue: seq<Entry>,
                                                ra: seq<int>, rb: seq<int>, tie: Side)
    requires QueueMatches(queue, ra, rb, tie) && Remaining(a, read1, ra) && Remaining(b, read2, rb)
    ensures |queue| <= 2
    ensures QueueMerge(a, b, read1, read2, queue) == MaxMerge(ra, rb, tie)
    decreases |a| - read1 + |b| - read2 + |queue|
  {
    if queue == [] {
      assert ra == [] && rb == [];
    } else if queue[0].fileIndex == 1 {
      assert |queue| <= 2;
      LeftStep(a, read1, queue, ra, rb, tie);
      if read1 < |a| {
        QueueMergeIsMaxMerge(a, b, read1 + 1, read2, Offer(queue[1..], Entry(a[read1], 1)), ra[1..], rb, RightInput);
      } else {
        QueueMergeIsMaxMerge(a, b, read1, read2, queue[1..], ra[1..], rb, RightInput);
      }
    } else {
      RightStep(b, read2, queue, ra, rb, tie);
      if read2 < |b| {
        QueueMergeIsMaxMerge(a, b, read1, read2 + 1, Offer(queue[1..], Entry(b[read2], 2)), ra, rb[1..], LeftInput);
      } else {
        QueueMergeIsMaxMerge(a, b, read1, read2, queue[1..], ra, rb[1..], LeftInput);
      }
    }
  }

  /** One iteration that takes the left head, as the merge loop performs it. */
  lemma LeftStep(a: seq<int>, read1: int, queue: seq<Entry>, ra: seq<int>, rb: seq<int>, tie: Side)
    requires QueueMatches(queue, ra, rb, tie) && queue != [] && queue[0].fileIndex == 1
    requires Remaining(a, read1, ra)
    ensures ra != [] && MaxMerge(ra, rb, tie) == [queue[0].value] + MaxMerge(ra[1..], rb, RightInput)
    ensures read1 < |a| ==>
      Remaining(a, read1 + 1, ra[1..]) && QueueMatches(Offer(queue[1..], Entry(a[read1], 1)), ra[1..], rb, RightInput)
    ensures read1 == |a| ==> Remaining(a, read1, ra[1..]) && QueueMatches(queue[1..], ra[1..], rb, RightInput)
  {
    PopLeft(queue, ra, rb, tie);
    assert ra[1..] == a[read1..];
    if read1 < |a| {
      assert ra[1] == a[read1];
    }
  }

  /** One iteration that takes the right head. */
  lemma RightStep(b: seq<int>, read2: int, queue: seq<Entry>, ra: seq<int>, rb: seq<int>, tie: Side)
    requires QueueMatches(queue, ra, rb, tie) && queue != [] && queue[0].fileIndex != 1
    requires Remaining(b, read2, rb)
    ensures rb != [] && MaxMerge(ra, rb, tie) == [queue[0].value] + MaxMerge(ra, rb[1..], LeftInput)
    ensures read2 < |b| ==>
      Remaining(b, read2 + 1, rb[1..]) && QueueMatches(Offer(queue[1..], Entry(b[read2], 2)), ra, rb[1..], LeftInput)
    ensures read2 == |b| ==> Remaining(b, read2, rb[1..]) && QueueMatches(queue[1..], ra, rb[1..], LeftInput)
  {
    PopRight(queue, ra, rb, tie);
    assert rb[1..] == b[read2..];
    if read2 < |b| {
      assert rb[1] == b[read2];
    }
  }

  /** Taking a left head: it is the merge's next record, and offering the left input's next record restores the match. */
  lemma PopLeft(queue: seq<Entry>, ra: seq<int>, rb: seq<int>, tie: Side)
    requires QueueMatches(queue, ra, rb, tie) && queue != [] && queue[0].fileIndex == 1
    ensures ra != [] && queue[0].value == ra[0]
    ensures MaxMerge(ra, rb, tie) == [ra[0]] + MaxMerge(ra[1..], rb, RightInput)
    ensures ra[1..] == [] ==> QueueMatches(queue[1..], ra[1..], rb, RightInput)
    ensures ra[1..] != [] ==> QueueMatches(Offer(queue[1..], Entry(ra[1], 1)), ra[1..], rb, RightInput)
  {
    assert queue[0].value == ra[0];
    assert LeftFirst(ra, rb, tie);
    var q := queue[1..];
    if rb == [] {
      MaxMergeWithEmpty(ra, tie);
      MaxMergeWithEmpty(ra[1..], RightInput);
      assert ra == [ra[0]] + ra[1..];
      assert q == [];
      if ra[1..] != [] {
        assert Offer(q, Entry(ra[1], 1)) == [Entry(ra[1], 1)];
      }
    } else {
      assert queue[1].fileIndex == 2 && queue[1].value == rb[0];
      assert q == [queue[1]];
      if ra[1..] != [] {
        var e := Entry(ra[1], 1);
        assert ra[1..][0] == ra[1];
        if ra[1] > rb[0] {
          assert Offer(q, e) == [e, queue[1]];
        } else {
          assert Offer(q, e) == [queue[1], e];
        }
      }
    }
  }

  /** Taking a right head, symmetrically. */
  lemma PopRight(queue: seq<Entry>, ra: seq<int>, rb: seq<int>, tie: Side)
    requires QueueMatches(queue, ra, rb, tie) && queue != [] && queue[0].fileIndex != 1
    ensures rb != [] && queue[0].value == rb[0]
    ensures MaxMerge(ra, rb, tie) == [rb[0]] + MaxMerge(ra, rb[1..], LeftInput)
    ensures rb[1..] == [] ==> QueueMatches(queue[1..], ra, rb[1..], LeftInput)
    ensures rb[1..] != [] ==> QueueMatches(Offer(queue[1..], Entry(rb[1], 2)), ra, rb[1..], LeftInput)
  {
    assert queue[0].fileIndex == 2 && queue[0].value == rb[0];
    assert !LeftFirst(ra, rb, tie);
    var q := queue[1..];
    if ra == [] {
      MaxMergeWithEmpty(rb, tie);
      MaxMergeWithEmpty(rb[1..], LeftInput);
      assert rb == [rb[0]] + rb[1..];
      assert q == [];
      if rb[1..] != [] {
        assert Offer(q, Entry(rb[1], 2)) == [Entry(rb[1], 2)];
      }
    } else {
      assert queue[1].fileIndex == 1 && queue[1].value == ra[0];
      assert q == [queue[1]];
      if rb[1..] != [] {
        var e := Entry(rb[1], 2);
        assert rb[1..][0] == rb[1];
        if rb[1] > ra[0] {
          assert Offer(q, e) == [e, queue[1]];
        } else {
          assert Offer(q, e) == [queue[1], e];
        }
      }
    }
  }

  // ---------------------------------------------------------------------------
  // What the sort does as written.

  /** One chunk finishes in one pass: the first file then holds the sorted input, which becomes "sorted.txt". */
  lemma OneChunkFinishes(input: seq<int>, availableMemory: int, fuel: nat)
    requires input != [] && fuel >= 1
    requires BufferSize(availableMemory) <= 0 || |input| <= BufferSize(availableMemory)
    ensures var (files, roles, done) := MergeRun(Distributed(input, availableMemory), INITIAL_ROLES, fuel);
      done && files[roles.left] == SortChunk(input)
  {
    OneChunkDistributed(input, availableMemory);
    SortedFirstFinishes(Distributed(input, availableMemory), fuel);
  }

  /** One chunk goes, sorted, to the first file; the second stays empty. */
  lemma OneChunkDistributed(input: seq<int>, availableMemory: int)
    requires input != []
    requires BufferSize(availableMemory) <= 0 || |input| <= BufferSize(availableMemory)
    ensures var files := Distributed(input, availableMemory);
      HasFiles(files, INITIAL_ROLES) && files[First] == SortChunk(input) && files[Second] == []
  {
    var chunk := SortChunk(input);
    assert Blocks(input, BufferSize(availableMemory)) == [input];
    SortEachOne(input);
    DistributionOne(chunk);
    FlattenOne(chunk);
    ChunkFilesHold([chunk]);
    assert Distributed(input, availableMemory) == ChunkFiles([chunk]);
  }

  lemma SortEachOne(block: seq<int>)
    ensures SortEach([block]) == [SortChunk(block)]
  {
    assert [block][1..] == [];
  }

  /** A single chunk is the whole first share. */
  lemma DistributionOne(chunk: seq<int>)
    ensures Distribution([chunk]) == ([chunk], [], [])
  {
    assert Distribution([chunk]) == SplitThree([chunk], 1);
    assert [chunk][..1] == [chunk] && [chunk][1..1] == [] && [chunk][1..] == [];
  }

  lemma FlattenOne(chunk: seq<int>)
    ensures Flatten([chunk]) == chunk
  {
    assert [chunk][1..] == [];
  }

  /** The first and second files hold the first and second shares, concatenated. */
  lemma ChunkFilesHold(chunks: seq<seq<int>>)
    ensures var files := ChunkFiles(chunks);
      First in files && Second in files && Third in files &&
      files[First] == Flatten(Distribution(chunks).0) && files[Second] == Flatten(Distribution(chunks).1)
  {
  }

  /** A sorted first file and an empty second file finish in the first pass, the first file unchanged. */
  lemma SortedFirstFinishes(files: map<AuxFile, seq<int>>, fuel: nat)
    requires HasFiles(files, INITIAL_ROLES) && fuel >= 1
    requires NonDecreasing(files[First]) && files[Second] == []
    ensures var (f, roles, done) := MergeRun(files, INITIAL_ROLES, fuel);
      done && f[roles.left] == files[First]
  {
    MaxMergeWithEmpty(files[First], LeftInput);
    assert Pass(files, INITIAL_ROLES)[INITIAL_ROLES.out] == files[First];
  }

  /** Two equal records with a four-byte budget: the pass writes [1, 1] but the renamed first file holds only [1]. */
  lemma RenamedFileLosesRecords()
    ensures var (files, roles, done) := MergeRun(Distributed([1, 1], 4), INITIAL_ROLES, 1);
      done && files[roles.out] == [1, 1] && files[roles.left] == [1]
  {
    assert BufferSize(4) == 1;
    assert Blocks([1, 1], 1) == [[1], [1]] by {
      assert [1, 1][..1] == [1] && [1, 1][1..] == [1];
    }
    var chunks := SortEach([[1], [1]]);
    SortSingle(1);
    assert [[1], [1]][1..] == [[1]] && [[1]][1..] == [];
    assert chunks == [[1], [1]];
    assert Distribution(chunks) == ([[1]], [[1]], []) by {
      assert chunks[..1] == [[1]] && chunks[1..2] == [[1]] && chunks[2..] == [];
    }
    ChunkFilesHold(chunks);
    assert Distributed([1, 1], 4) == ChunkFiles(chunks);
    OnesMergeOnce(Distributed([1, 1], 4));
  }

  /** Files [1] and [1] merge in one pass into [1, 1], which is ascending. */
  lemma OnesMergeOnce(files: map<AuxFile, seq<int>>)
    requires HasFiles(files, INITIAL_ROLES) && files[First] == [1] && files[Second] == [1]
    ensures var (f, roles, done) := MergeRun(files, INITIAL_ROLES, 1);
      done && f[roles.out] == [1, 1] && f[roles.left] == [1]
  {
    assert MaxMerge([1], [1], LeftInput) == [1, 1] by {
      assert [1][1..] == [];
    }
    assert Pass(files, INITIAL_ROLES)[Third] == [1, 1];
  }

  /** Two different records with a four-byte budget: no number of passes ever finishes the sort. */
  lemma TwoDistinctRecordsNeverFinish(x: int, y: int, fuel: nat)
    requires x != y
    ensures !MergeRun(Distributed([x, y], 4), INITIAL_ROLES, fuel).2
  {
    assert BufferSize(4) == 1;
    assert Blocks([x, y], 1) == [[x], [y]] by {
      assert [x, y][..1] == [x] && [x, y][1..] == [y];
      assert [y][..1] == [y] && [y][1..] == [];
    }
    var chunks := SortEach([[x], [y]]);
    SortSingle(x);
    SortSingle(y);
    assert [[x], [y]][1..] == [[y]] && [[y]][1..] == [];
    assert SortEach([[y]]) == [[y]];
    assert chunks == [[x]] + SortEach([[y]]);
    assert Distribution(chunks) == ([[x]], [[y]], []) by {
      assert chunks[..1] == [[x]] && chunks[1..2] == [[y]] && chunks[2..] == [];
    }
    var files := Distributed([x, y], 4);
    assert files[First] == [x] && files[Second] == [y];
    if x < y {
      MergeRunNeverFinishes(files, INITIAL_ROLES, fuel, x, y);
    } else {
      MergeRunNeverFinishes(files, INITIAL_ROLES, fuel, y, x);
    }
  }
}
