/**
 * The `BTree` class of ad-3 BTree.java: the minimum degree `t`, the root (null once
 * the last user is deleted) and the counter `numberOfLastComparisons` that every
 * `binarySearch` probe increments. Nodes are values (see BTreeNode): an operation
 * that edits nodes in place builds the edited tree and makes it the new root.
 * The file that mirrors the tree is not modelled.
 */
module BTreeStore {
  import opened Wrappers
  import JavaInt
  import opened BTreeKeys
  import opened BTreeNode
  import opened BTreeSearch
  import opened BTreeInsert
  import opened BTreeDelete
  import opened BTreeDeleteProof
  import opened BTreeDeleteCorrect
  import opened BTreeDeleteWritten
  import opened BTreeUpdate
  import opened BTreeWalk

  /** The in-order list of users of a possibly null root. */
  ghost function Listed(r: Option<Node>): seq<User>
    requires r.Some? ==> Shaped(r.value)
  {
    if r.None? then [] else Users(r.value)
  }

  /**
   * The root after `delete(id)` once `delete(root, id)` has left `m`: an inner root
   * without keys gives way to its first child, a leaf root without keys to null.
   */
  function Collapsed(m: Node): (r: Option<Node>)
    requires m.leaf || |m.children| == |m.keys| + 1
  {
    if m.keys != [] then Some(m) else if m.leaf then None else Some(m.children[0])
  }

  /** Collapsing the root keeps its users, one level lower when the root was an inner node without keys. */
  lemma CollapsedUsers(m: Node, h: nat)
    requires Level(m, h) && Shaped(m)
    ensures Collapsed(m).Some? ==>
      Shaped(Collapsed(m).value) && Level(Collapsed(m).value, if m.keys == [] then h - 1 else h)
    ensures Listed(Collapsed(m)) == Users(m)
  {
    if m.keys == [] && !m.leaf {
      assert Level(m.children[0], h - 1);
      LevelShaped(m.children[0], h - 1);
    }
  }

  /**
   * Unless the next id wraps around, `insert(user)` on a root of height h appends the
   * user, with that id, to the in-order list, and keeps an order by id.
   */
  lemma InsertOutcome(t: int, r: Node, u: User, h: nat)
    requires Level(r, h) && Shaped(r) && MaxId(Users(r)) < JavaInt.MAX_INT
    requires u.id == JavaInt.Add(MaxId(Users(r)), 1)
    ensures u.id == MaxId(Users(r)) + 1
    ensures var n := InsertNonFull(t, Grown(t, r, h), u, GrownHeight(t, r, h)).value;
      Shaped(n) && Users(n) == Users(r) + [u] &&
      (StrictlyOrdered(Users(r)) ==> StrictlyOrdered(Users(n)))
  {
    MaxIdBounds(Users(r));
    InsertAppends(t, r, u, h);
    if StrictlyOrdered(Users(r)) {
      AppendOrdered(Users(r), u);
    }
  }

  /**
   * On a tree ordered by id whose nodes below the root all hold a key, `delete(root, id)`
   * succeeds and the collapsed root lists the users without those of that id, still in order.
   */
  lemma DeleteOutcome(t: int, top: Node, id: int, h: nat)
    requires Level(top, h) && Shaped(top) && Deletable(top) && StrictlyOrdered(Users(top))
    ensures DeleteNode(t, top, id, true, h).Ok?
    ensures var m := DeleteNode(t, top, id, true, h).value.value;
      (m.leaf || |m.children| == |m.keys| + 1) &&
      (Collapsed(m).Some? ==> Shaped(Collapsed(m).value)) &&
      Listed(Collapsed(m)) == Without(Users(top), id) && StrictlyOrdered(Listed(Collapsed(m)))
  {
    DeleteRemoves(t, top, id, h);
    WithoutOrdered(Users(top), id);
    var m := DeleteNode(t, top, id, true, h).value.value;
    LevelShaped(m, h);
    CollapsedUsers(m, h);
  }

  /**
   * On the same trees `delete(root, id)` as written succeeds, and the collapsed root
   * keeps every user of another id and holds only users the tree held.
   */
  lemma WrittenDeleteOutcome(t: int, top: Node, id: int, h: nat)
    requires Level(top, h) && Shaped(top) && Deletable(top) && StrictlyOrdered(Users(top))
    ensures DeleteNode(t, top, id, false, h).Ok?
    ensures var m := DeleteNode(t, top, id, false, h).value.value;
      (m.leaf || |m.children| == |m.keys| + 1) &&
      (Collapsed(m).Some? ==> Shaped(Collapsed(m).value)) &&
      (forall u :: u in Listed(Collapsed(m)) ==> u in Users(top)) &&
      (forall u :: u in Users(top) && u.id != id ==> u in Listed(Collapsed(m)))
  {
    DeleteKeepsOthers(t, top, id, h);
    var m := DeleteNode(t, top, id, false, h).value.value;
    LevelShaped(m, h);
    CollapsedUsers(m, h);
  }

  /** A run of `delete(node, id)` left `r` and moved the counter from `before` to `after` as `d` describes. */
  ghost predicate Replays(r: Result<Node>, d: Result<Counted<Node>>, before: int, after: int) {
    (r.Ok? <==> d.Ok?) &&
    (r.Ok? ==> r.value == d.value.value && after == before + d.value.probes) &&
    (r.Err? ==> r.error == d.error)
  }

  // ---------------------------------------------------------------------------
  // Walks that read the tree only

  /** `getAllUsers(node)`: subtree i, then key i, for every key, then the last subtree. */
  method AllUsers(n: Node) returns (users: seq<User>)
    requires Shaped(n)
    ensures users == Users(n)
    decreases n
  {
    users := [];
    VisitedNone(n);
    var i := 0;
    while i < |n.keys|
      invariant 0 <= i <= |n.keys|
      invariant users == Visited(n, i)
    {
      if !n.leaf {
        var sub := AllUsers(n.children[i]);
        users := users + sub;
      }
      users := users + [n.keys[i]];
      VisitedStep(n, i);
      i := i + 1;
    }
    if !n.leaf {
      var sub := AllUsers(n.children[|n.keys|]);
      users := users + sub;
    }
    VisitedAll(n);
  }

  /** `getUserCount(node)`: the node's keys plus the count of every subtree. */
  method CountIn(n: Node) returns (count: int)
    requires Shaped(n)
    ensures count == |Users(n)|
    decreases n
  {
    count := |n.keys|;
    ghost var ls := ChildUsers(n.children);
    var i := 0;
    while i < |n.children|
      invariant 0 <= i <= |n.children|
      invariant count == |n.keys| + SumLens(ls[..i])
    {
      var sub := CountIn(n.children[i]);
      SumLensStep(ls, i);
      count := count + sub;
      i := i + 1;
    }
    assert ls[..|ls|] == ls;
    if !n.leaf {
      WeaveLength(ls, n.keys);
    }
  }

  /**
   * `collectUsersForPage(node, users, start, end, count)`: the users list and the
   * shared counter `count[0]` go in and come out. What it appends is what a
   * counter running over the in-order list collects; the counter comes out
   * advanced by the number of users, or at least `hi` when the walk stopped there.
   */
  method Collect(n: Node, users: seq<User>, lo: int, hi: int, count: int) returns (users': seq<User>, count': int)
    requires Shaped(n)
    ensures users' == users + PageSlice(Users(n), count, lo, hi)
    ensures if count + |Users(n)| < hi then count' == count + |Users(n)| else count' >= hi
    decreases n
  {
    users', count' := users, count;
    if count' >= hi {
      return;
    }
    VisitedNone(n);
    var i := 0;
    while i < |n.keys|
      invariant 0 <= i <= |n.keys|
      invariant count' < hi && count' == count + |Visited(n, i)|
      invariant users' == users + PageSlice(Visited(n, i), count, lo, hi)
    {
      ghost var v := Visited(n, i);
      ghost var sub: seq<User> := [];
      if !n.leaf {
        sub := Users(n.children[i]);
        users', count' := Collect(n.children[i], users', lo, hi, count');
      }
      ghost var u1, c1 := users', count';
      if count' >= lo && count' < hi {
        users' := users' + [n.keys[i]];
      }
      count' := count' + 1;
      VisitedStep(n, i);
      CollectStep(users, v, sub, n.keys[i], count, lo, hi, u1, c1);
      if count' >= hi {
        CollectStops(n, i + 1, count, lo, hi);
        return;
      }
      i := i + 1;
    }
    VisitedAll(n);
    ghost var v := Visited(n, |n.keys|);
    if !n.leaf {
      ghost var u0, c0 := users', count';
      ghost var last := Users(n.children[|n.keys|]);
      users', count' := Collect(n.children[|n.keys|], users', lo, hi, count');
      CollectEnd(users, v, last, count, lo, hi, u0, c0, users');
    } else {
      assert Users(n) == v + [] == v;
    }
  }

  /** After the loop of `collectUsersForPage`, the last subtree completes the page. */
  lemma CollectEnd(users: seq<User>, v: seq<User>, last: seq<User>, c: int, lo: int, hi: int,
                   u0: seq<User>, c0: int, u1: seq<User>)
    requires u0 == users + PageSlice(v, c, lo, hi) && c0 == c + |v|
    requires u1 == u0 + PageSlice(last, c0, lo, hi)
    ensures u1 == users + PageSlice(v + last, c, lo, hi)
  {
    PageSliceConcat(v, last, c, lo, hi);
  }

  /**
   * One turn of the loop of `collectUsersForPage`: the page so far, a subtree
   * collected, then the key taken when the counter is in [lo, hi) and counted.
   */
  lemma CollectStep(users: seq<User>, v: seq<User>, sub: seq<User>, k: User, c: int, lo: int, hi: int,
                    u1: seq<User>, c1: int)
    requires c + |v| < hi
    requires u1 == users + PageSlice(v, c, lo, hi) + PageSlice(sub, c + |v|, lo, hi)
    requires if c + |v| + |sub| < hi then c1 == c + |v| + |sub| else c1 >= hi
    ensures u1 + (if lo <= c1 < hi then [k] else []) == users + PageSlice(v + sub + [k], c, lo, hi)
    ensures c1 + 1 < hi ==> c1 + 1 == c + |v + sub + [k]|
    ensures c1 + 1 >= hi ==> c + |v + sub + [k]| >= hi
  {
    PageSliceConcat(v + sub, [k], c, lo, hi);
    PageSliceConcat(v, sub, c, lo, hi);
    assert [k][1..] == [];
  }

  /** Once the counter passes hi after key i-1, the page of the node is the page of what was visited. */
  lemma CollectStops(n: Node, i: int, c: int, lo: int, hi: int)
    requires Shaped(n) && 0 <= i <= |n.keys| && c + |Visited(n, i)| >= hi
    ensures PageSlice(Users(n), c, lo, hi) == PageSlice(Visited(n, i), c, lo, hi)
    ensures c + |Users(n)| >= hi
  {
    VisitedPrefix(n, i);
    PageSliceStops(Users(n), |Visited(n, i)|, c, lo, hi);
  }

  // ---------------------------------------------------------------------------
  // The tree

  class BTree {
    /** The minimum degree: a node is full at 2t-1 keys. */
    const t: int
    /** The root; None once `delete` has emptied a leaf root (`root = null`). */
    var root: Option<Node>
    /** `numberOfLastComparisons`. */
    var comparisons: nat
    /** The depth of every leaf below the root. */
    ghost var height: nat

    /** A non-null root is a well-shaped tree with every leaf at depth `height`. */
    ghost predicate Valid()
      reads this
    {
      root.Some? ==> Level(root.value, height) && Shaped(root.value)
    }

    /** `new BTree(t)` before the stored users are loaded: an empty leaf root. */
    constructor (t: int)
      ensures this.t == t && root == Some(Node([], [], true)) && comparisons == 0
      ensures Valid()
    {
      this.t := t;
      root := Some(Node([], [], true));
      comparisons := 0;
      height := 0;
    }

    /** `binarySearch(node, id)` on the node's keys, one counted comparison per probe. */
    method BinarySearch(keys: seq<User>, id: int) returns (idx: int)
      modifies this`comparisons
      ensures idx == Locate(keys, id).value
      ensures comparisons == old(comparisons) + Locate(keys, id).probes
    {
      var low, high := 0, |keys| - 1;
      ghost var c0 := comparisons;
      while low <= high
        invariant 0 <= low <= high + 1 <= |keys|
        invariant Probe(keys, id, low, high).value == Locate(keys, id).value
        invariant comparisons - c0 + Probe(keys, id, low, high).probes == Locate(keys, id).probes
        decreases high - low
      {
        comparisons := comparisons + 1;
        var mid := Mid(low, high);
        if id == keys[mid].id {
          return mid;
        }
        if id < keys[mid].id {
          high := mid - 1;
        } else {
          low := mid + 1;
        }
      }
      return low;
    }

    /** `getComparisonCount()`: the counter, which starts again from 0. */
    method GetComparisonCount() returns (count: nat)
      modifies this`comparisons
      ensures count == old(comparisons) && comparisons == 0
    {
      count := comparisons;
      comparisons := 0;
    }

    // -------------------------------------------------------------------------
    // search

    /** `search(node, id)`. */
    method FindIn(n: Node, id: int) returns (r: Option<User>)
      requires Shaped(n)
      modifies this`comparisons
      ensures r == Find(n, id).value && comparisons == old(comparisons) + Find(n, id).probes
      decreases n
    {
      var i := BinarySearch(n.keys, id);
      if i < |n.keys| && n.keys[i].id == id {
        return Some(n.keys[i]);
      }
      if n.leaf {
        return None;
      }
      r := FindIn(n.children[i], id);
    }

    /**
     * `search(id)`: null root throws; otherwise, on a tree ordered by id, a user
     * comes back exactly when one with that id is stored, and it is that user.
     */
    method Search(id: int) returns (r: Result<Option<User>>)
      requires Valid()
      modifies this`comparisons
      ensures root.None? ==> r == Err(NullPointer) && comparisons == old(comparisons)
      ensures root.Some? ==>
        (r == Ok(Find(root.value, id).value) && comparisons == old(comparisons) + Find(root.value, id).probes)
      ensures root.Some? && Ordered(Users(root.value)) ==>
        (r.value.Some? <==> exists u :: u in Users(root.value) && u.id == id)
      ensures r.Ok? && r.value.Some? ==> r.value.value.id == id && r.value.value in Listed(root)
    {
      if root.None? {
        return Err(NullPointer);
      }
      var found := FindIn(root.value, id);
      FindSound(root.value, id);
      if Ordered(Users(root.value)) {
        FindIff(root.value, id);
      }
      return Ok(found);
    }

    // -------------------------------------------------------------------------
    // insert

    /** `insertNonFull(node, user)`. */
    method InsertInto(n: Node, u: User, ghost h: nat) returns (m: Node)
      requires Level(n, h)
      modifies this`comparisons
      ensures m == InsertNonFull(t, n, u, h).value
      ensures comparisons == old(comparisons) + InsertNonFull(t, n, u, h).probes
      decreases h, 1
    {
      var i := BinarySearch(n.keys, u.id);
      if n.leaf {
        return n.(keys := n.keys[..i] + [u] + n.keys[i..]);
      }
      m := DescendInto(n, i, u, h);
    }

    /** The inner-node branch of `insertNonFull` once `binarySearch` has returned i. */
    method DescendInto(n: Node, i: int, u: User, ghost h: nat) returns (m: Node)
      requires Level(n, h) && !n.leaf && 0 <= i <= |n.keys|
      modifies this`comparisons
      ensures m == Descend(t, n, i, u, h).value
      ensures comparisons == old(comparisons) + Descend(t, n, i, u, h).probes
      decreases h, 0
    {
      LevelShaped(n, h);
      if |n.children[i].keys| == 2 * t - 1 {
        SplitChildLevel(t, n, i, h);
        var s := SplitChild(t, n, i);
        var j := if u.id > s.keys[i].id then i + 1 else i;
        var sub := InsertInto(s.children[j], u, h - 1);
        return s.(children := s.children[j := sub]);
      }
      var sub := InsertInto(n.children[i], u, h - 1);
      return n.(children := n.children[i := sub]);
    }

    /** `getMaxUserId()`: `Math.max` over the ids of `getAllUsers(root)`, from 0. */
    method MaxUserId() returns (m: int)
      requires Valid() && root.Some?
      ensures m == MaxId(Users(root.value))
    {
      var users := AllUsers(root.value);
      m := 0;
      var i := 0;
      while i < |users|
        invariant 0 <= i <= |users|
        invariant m == MaxId(users[..i])
      {
        assert users[..i + 1][..i] == users[..i];
        m := if users[i].id > m then users[i].id else m;
        i := i + 1;
      }
      assert users[..|users|] == users;
    }

    /**
     * `insert(user)`: a full root is split under a new root first; the user gets
     * the id (largest id, or 0) + 1 in Java `int` arithmetic and goes in by
     * `insertNonFull`. Unless that id wraps around, the user ends up last in the
     * in-order list and an order by id is kept.
     */
    method Insert(user: User) returns (r: Result<User>)
      requires Valid()
      modifies this
      ensures Valid()
      ensures old(root).None? ==> r == Err(NullPointer) && root == old(root) && comparisons == old(comparisons)
      ensures old(root).Some? ==>
        var g := Grown(t, old(root).value, old(height));
        var gh := GrownHeight(t, old(root).value, old(height));
        var u := user.(id := JavaInt.Add(MaxId(Users(old(root).value)), 1));
        r == Ok(u) && height == gh && root == Some(InsertNonFull(t, g, u, gh).value) &&
        comparisons == old(comparisons) + InsertNonFull(t, g, u, gh).probes
      ensures old(root).Some? && MaxId(Listed(old(root))) < JavaInt.MAX_INT ==>
        r.Ok? && r.value.id == MaxId(Listed(old(root))) + 1 && Listed(root) == Listed(old(root)) + [r.value]
      ensures old(root).Some? && MaxId(Listed(old(root))) < JavaInt.MAX_INT && StrictlyOrdered(Listed(old(root))) ==>
        StrictlyOrdered(Listed(root))
    {
      if root.None? {
        return Err(NullPointer);
      }
      var old_root := root.value;
      ghost var h := height;
      GrownUsers(t, old_root, h);
      var g := Grown(t, old_root, height);
      height := GrownHeight(t, old_root, h);
      root := Some(g);
      LevelShaped(g, height);
      var max := MaxUserId();
      var u := user.(id := JavaInt.Add(max, 1));
      var n := InsertInto(g, u, height);
      LevelShaped(n, height);
      root := Some(n);
      if max < JavaInt.MAX_INT {
        InsertOutcome(t, old_root, u, h);
      }
      return Ok(u);
    }

    // -------------------------------------------------------------------------
    // delete

    /** `delete(node, id)`, the descent after `fill` comparing as line 60 is written (`idx >= keys.size()`). */
    method DeleteIn(n: Node, id: int, ghost h: nat) returns (r: Result<Node>)
      requires Level(n, h)
      modifies this`comparisons
      ensures Replays(r, DeleteNode(t, n, id, false, h), old(comparisons), comparisons)
      decreases h, 1
    {
      var idx := BinarySearch(n.keys, id);
      if idx < |n.keys| && n.keys[idx].id == id {
        if n.leaf {
          return Ok(n.(keys := n.keys[..idx] + n.keys[idx + 1..]));
        }
        r := DeleteInternalIn(n, idx, h);
        return;
      }
      if n.leaf {
        return Ok(n);
      }
      var flag := idx == |n.keys|;
      var m := n;
      if |n.children[idx].keys| < t {
        var f := Fill(t, n, idx, h);
        if f.Err? {
          return Err(f.error);
        }
        m := f.value;
      }
      var j := if flag && idx >= |m.keys| then idx - 1 else idx;
      if j < 0 {
        return Err(IndexOutOfBounds);
      }
      ghost var probes := Locate(n.keys, id).probes;
      ghost var d := DeleteNode(t, m.children[j], id, false, h - 1);
      assert DeleteNode(t, n, id, false, h) == Descended(m, j, d, probes);
      var sub := DeleteIn(m.children[j], id, h - 1);
      if sub.Err? {
        return Err(sub.error);
      }
      return Ok(m.(children := m.children[j := sub.value]));
    }

    /** `deleteFromInternalNode(node, idx)`. */
    method DeleteInternalIn(n: Node, idx: int, ghost h: nat) returns (r: Result<Node>)
      requires Level(n, h) && !n.leaf && 0 <= idx < |n.keys|
      modifies this`comparisons
      ensures Replays(r, DeleteFromInternal(t, n, idx, false, h), old(comparisons), comparisons)
      decreases h, 0
    {
      LevelShaped(n, h);
      if |n.children[idx].keys| >= t {
        var pred := Rightmost(n.children[idx]);
        if pred.None? {
          return Err(NoSuchElement);
        }
        var m := n.(keys := n.keys[idx := pred.value]);
        var sub := DeleteIn(n.children[idx], pred.value.id, h - 1);
        if sub.Err? {
          return Err(sub.error);
        }
        return Ok(m.(children := m.children[idx := sub.value]));
      } else if |n.children[idx + 1].keys| >= t {
        var succ := Leftmost(n.children[idx + 1]);
        if succ.None? {
          return Err(NoSuchElement);
        }
        var m := n.(keys := n.keys[idx := succ.value]);
        var sub := DeleteIn(n.children[idx + 1], succ.value.id, h - 1);
        if sub.Err? {
          return Err(sub.error);
        }
        return Ok(m.(children := m.children[idx + 1 := sub.value]));
      } else {
        var m := Merge(n, idx, h);
        var sub := DeleteIn(m.children[idx], n.keys[idx].id, h - 1);
        if sub.Err? {
          return Err(sub.error);
        }
        return Ok(m.(children := m.children[idx := sub.value]));
      }
    }

    /**
     * `delete(id)`: delete from the root, collapse a root left without keys, and
     * list the users for the file, which throws once the root is null. The descent
     * after `fill` compares as line 60 is written. On a tree ordered by id whose nodes
     * below the root all hold a key, every user with another id stays and no user
     * comes in; the user with the id itself can stay (see `LastChildKeySurvives`).
     */
    method Delete(id: int) returns (r: Result<()>)
      requires Valid()
      modifies this
      ensures Valid()
      ensures old(root).None? ==> r == Err(NullPointer) && root == old(root) && comparisons == old(comparisons)
      ensures old(root).Some? && DeleteNode(t, old(root).value, id, false, old(height)).Err? ==>
        r == Err(DeleteNode(t, old(root).value, id, false, old(height)).error) && root == old(root)
      ensures old(root).Some? && DeleteNode(t, old(root).value, id, false, old(height)).Ok? ==>
        var d := DeleteNode(t, old(root).value, id, false, old(height)).value;
        root == Collapsed(d.value) && comparisons == old(comparisons) + d.probes &&
        r == (if root.None? then Err(NullPointer) else Ok(()))
      ensures old(root).Some? && Deletable(old(root).value) && StrictlyOrdered(Users(old(root).value)) ==>
        (r.Ok? <==> root.Some?) &&
        (forall u :: u in Listed(root) ==> u in Users(old(root).value)) &&
        (forall u :: u in Users(old(root).value) && u.id != id ==> u in Listed(root))
    {
      if root.None? {
        return Err(NullPointer);
      }
      var top := root.value;
      ghost var h := height;
      var d := DeleteIn(top, id, height);
      if Deletable(top) && StrictlyOrdered(Users(top)) {
        WrittenDeleteOutcome(t, top, id, h);
      }
      if d.Err? {
        return Err(d.error);
      }
      var m := d.value;
      LevelShaped(m, h);
      CollapsedUsers(m, h);
      if m.keys == [] && !m.leaf {
        height := h - 1;
      }
      root := Collapsed(m);
      if root.None? {
        return Err(NullPointer);
      }
      return Ok(());
    }

    // -------------------------------------------------------------------------
    // update

    /**
     * `update(updatedUser)`: null root throws; when `search` finds the id, that
     * user takes the new email, username and password. Shape, ids and order stay.
     */
    method Update(u: User) returns (r: Result<()>)
      requires Valid()
      modifies this
      ensures Valid() && height == old(height)
      ensures old(root).None? ==> r == Err(NullPointer) && root == old(root) && comparisons == old(comparisons)
      ensures old(root).Some? ==>
        r == Ok(()) && comparisons == old(comparisons) + Find(old(root).value, u.id).probes &&
        root == (if Find(old(root).value, u.id).value.Some? then Some(Rewrite(old(root).value, u)) else old(root))
      ensures old(root).Some? ==> Alike(old(root).value, root.value)
      ensures old(root).Some? && Find(old(root).value, u.id).value.Some? ==>
        Listed(root) == Replaced(Listed(old(root)), u) && Find(root.value, u.id).value == Some(u)
      ensures old(root).Some? && StrictlyOrdered(Listed(old(root))) ==> StrictlyOrdered(Listed(root))
    {
      if root.None? {
        return Err(NullPointer);
      }
      var top := root.value;
      var found := FindIn(top, u.id);
      RewriteKeeps(top, u, height);
      if found.Some? {
        root := Some(Rewrite(top, u));
      } else {
        AlikeSelf(top);
      }
      return Ok(());
    }

    // -------------------------------------------------------------------------
    // counting and paging

    /** `getUserCount()`: 0 for a null root, else the number of stored users. */
    method GetUserCount() returns (count: int)
      requires Valid()
      ensures count == |Listed(root)|
    {
      if root.None? {
        return 0;
      }
      count := CountIn(root.value);
    }

    /**
     * `getUsersForPage(pageIndex, rowsPerPage)`: the in-order users at positions
     * [start, end), start = pageIndex * rowsPerPage and end = start + rowsPerPage in
     * Java `int` arithmetic, both clipped to the list.
     */
    method GetUsersForPage(pageIndex: int, rowsPerPage: int) returns (users: seq<User>)
      requires Valid()
      ensures var start := JavaInt.Mul(pageIndex, rowsPerPage);
        var end := JavaInt.Add(start, rowsPerPage);
        var all := Listed(root);
        var a, b := Clip(start, |all|), Clip(end, |all|);
        users == if a <= b then all[a..b] else []
    {
      var start := JavaInt.Mul(pageIndex, rowsPerPage);
      var end := JavaInt.Add(start, rowsPerPage);
      users := [];
      if root.Some? {
        var count;
        users, count := Collect(root.value, users, start, end, 0);
      }
      PageSliceWindow(Listed(root), 0, start, end);
    }
  }
}
