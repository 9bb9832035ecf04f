/**
 * Deletion from the user B-tree of ad-3 BTree.java: `delete(node, id)`,
 * `deleteFromInternalNode`, `fill`, `borrowFromPrev`, `borrowFromNext`, `merge`,
 * `getPredecessor` and `getSuccessor`, on node values.
 *
 * The flag `fixed` selects the comparison in the descent after `fill` (line 60):
 * `false` is the code as written (`idx >= keys.size()`), `true` the textbook
 * comparison (`idx > keys.size()`).
 */
module BTreeDelete {
  import opened Wrappers
  import opened BTreeKeys
  import opened BTreeNode

  /** `merge(node, idx)`: child idx absorbs separator idx and child idx+1, which is dropped. */
  function Merge(n: Node, idx: int, ghost h: nat): (r: Node)
    requires Level(n, h) && !n.leaf && 0 <= idx < |n.keys|
    ensures Level(r, h)
    ensures |r.keys| == |n.keys| - 1
    ensures |r.children[idx].keys| == |n.children[idx].keys| + 1 + |n.children[idx + 1].keys|
  {
    var c, s := n.children[idx], n.children[idx + 1];
    var m := Node(c.keys + [n.keys[idx]] + s.keys, if c.leaf then c.children else c.children + s.children, c.leaf);
    MergedLevel(c, n.keys[idx], s, h - 1);
    var r := Node(n.keys[..idx] + n.keys[idx + 1..], Joined(n.children, idx, m), false);
    MergeLevel(n, idx, m, h);
    r
  }

  /** The subtrees with subtrees idx and idx+1 replaced by the one subtree m. */
  function Joined(cs: seq<Node>, idx: int, m: Node): (r: seq<Node>)
    requires 0 <= idx < |cs| - 1
    ensures |r| == |cs| - 1 && r[idx] == m
    ensures forall i :: 0 <= i < idx ==> r[i] == cs[i]
    ensures forall i :: idx < i < |r| ==> r[i] == cs[i + 1]
  {
    cs[..idx] + [m] + cs[idx + 2..]
  }

  lemma MergedLevel(c: Node, k: User, s: Node, h: nat)
    requires Level(c, h) && Level(s, h)
    ensures Level(Node(c.keys + [k] + s.keys, if c.leaf then c.children else c.children + s.children, c.leaf), h)
  {
    if !c.leaf {
      var cs := c.children + s.children;
      forall i | 0 <= i < |cs|
        ensures Level(cs[i], h - 1)
      {
        if i >= |c.children| {
          assert cs[i] == s.children[i - |c.children|];
        }
      }
    }
  }

  lemma MergeLevel(n: Node, idx: int, m: Node, h: nat)
    requires Level(n, h) && !n.leaf && 0 <= idx < |n.keys| && Level(m, h - 1)
    ensures Level(Node(n.keys[..idx] + n.keys[idx + 1..], Joined(n.children, idx, m), false), h)
  {
    var cs := Joined(n.children, idx, m);
    forall i | 0 <= i < |cs|
      ensures Level(cs[i], h - 1)
    {
      if i < idx {
        assert cs[i] == n.children[i];
      } else if i > idx {
        assert cs[i] == n.children[i + 1];
      }
    }
  }

  /**
   * `borrowFromPrev(node, idx)`: separator idx-1 moves down to the front of child
   * idx, the last key of child idx-1 moves up in its place, and, in an inner child,
   * the last subtree of child idx-1 moves to the front of child idx.
   */
  function BorrowFromPrev(n: Node, idx: int, ghost h: nat): (r: Node)
    requires Level(n, h) && !n.leaf && 0 < idx <= |n.keys| && |n.children[idx - 1].keys| > 0
    ensures Level(r, h) && |r.keys| == |n.keys|
    ensures |r.children[idx].keys| == |n.children[idx].keys| + 1
    ensures |r.children[idx - 1].keys| == |n.children[idx - 1].keys| - 1
  {
    var c, s := n.children[idx], n.children[idx - 1];
    assert Level(c, h - 1) && Level(s, h - 1);
    var c' := Node([n.keys[idx - 1]] + c.keys, if c.leaf then c.children else [s.children[|s.keys|]] + c.children, c.leaf);
    var s' := Node(s.keys[..|s.keys| - 1], if c.leaf then s.children else s.children[..|s.keys|], s.leaf);
    PrevPartsLevel(c, s, n.keys[idx - 1], h - 1);
    BorrowedLevel(n, idx - 1, s', c', s.keys[|s.keys| - 1], h);
    Node(n.keys[idx - 1 := s.keys[|s.keys| - 1]], n.children[idx - 1 := s'][idx := c'], false)
  }

  /**
   * `borrowFromNext(node, idx)`: separator idx moves down to the end of child idx,
   * the first key of child idx+1 moves up in its place, and, in an inner child, the
   * first subtree of child idx+1 moves to the end of child idx.
   */
  function BorrowFromNext(n: Node, idx: int, ghost h: nat): (r: Node)
    requires Level(n, h) && !n.leaf && 0 <= idx < |n.keys| && |n.children[idx + 1].keys| > 0
    ensures Level(r, h) && |r.keys| == |n.keys|
    ensures |r.children[idx].keys| == |n.children[idx].keys| + 1
    ensures |r.children[idx + 1].keys| == |n.children[idx + 1].keys| - 1
  {
    var c, s := n.children[idx], n.children[idx + 1];
    assert Level(c, h - 1) && Level(s, h - 1);
    var c' := Node(c.keys + [n.keys[idx]], if c.leaf then c.children else c.children + [s.children[0]], c.leaf);
    var s' := Node(s.keys[1..], if c.leaf then s.children else s.children[1..], s.leaf);
    NextPartsLevel(c, s, n.keys[idx], h - 1);
    BorrowedLevel(n, idx, c', s', s.keys[0], h);
    Node(n.keys[idx := s.keys[0]], n.children[idx := c'][idx + 1 := s'], false)
  }

  /** The two children after `borrowFromPrev` keep their height. */
  lemma PrevPartsLevel(c: Node, s: Node, k: User, h: nat)
    requires Level(c, h) && Level(s, h) && |s.keys| > 0
    ensures Level(Node([k] + c.keys, if c.leaf then c.children else [s.children[|s.keys|]] + c.children, c.leaf), h)
    ensures Level(Node(s.keys[..|s.keys| - 1], if c.leaf then s.children else s.children[..|s.keys|], s.leaf), h)
  {
    if !c.leaf {
      var cs := [s.children[|s.keys|]] + c.children;
      forall i | 0 <= i < |cs|
        ensures Level(cs[i], h - 1)
      {
        if i > 0 {
          assert cs[i] == c.children[i - 1];
        }
      }
      var ss := s.children[..|s.keys|];
      forall i | 0 <= i < |ss|
        ensures Level(ss[i], h - 1)
      {
        assert ss[i] == s.children[i];
      }
    }
  }

  /** The two children after `borrowFromNext` keep their height. */
  lemma NextPartsLevel(c: Node, s: Node, k: User, h: nat)
    requires Level(c, h) && Level(s, h) && |s.keys| > 0
    ensures Level(Node(c.keys + [k], if c.leaf then c.children else c.children + [s.children[0]], c.leaf), h)
    ensures Level(Node(s.keys[1..], if c.leaf then s.children else s.children[1..], s.leaf), h)
  {
    if !c.leaf {
      var cs := c.children + [s.children[0]];
      forall i | 0 <= i < |cs|
        ensures Level(cs[i], h - 1)
      {
        if i < |c.children| {
          assert cs[i] == c.children[i];
        }
      }
      var ss := s.children[1..];
      forall i | 0 <= i < |ss|
        ensures Level(ss[i], h - 1)
      {
        assert ss[i] == s.children[i + 1];
      }
    }
  }

  /** Two neighbouring children that are replaced by nodes of their height keep the node's height. */
  lemma BorrowedLevel(n: Node, i: int, a: Node, b: Node, k: User, h: nat)
    requires Level(n, h) && !n.leaf && 0 <= i < |n.keys| && Level(a, h - 1) && Level(b, h - 1)
    ensures Level(Node(n.keys[i := k], n.children[i := a][i + 1 := b], false), h)
  {
    LevelUpdate(n, h, i, a);
    LevelUpdate(n.(children := n.children[i := a]), h, i + 1, b);
  }
  /**
   * `fill(node, idx)` on a child idx with fewer than t keys: borrow from the left
   * neighbour when it has at least t keys, else from the right one, else merge with
   * the right neighbour, or with the left one when idx is the last child. The
   * exceptions are those of `removeLast`/`removeFirst` on an empty neighbour and of
   * `merge(node, -1)` on an inner node without keys.
   */
  function Fill(t: int, n: Node, idx: int, ghost h: nat): (r: Result<Node>)
    requires Level(n, h) && !n.leaf && 0 <= idx <= |n.keys|
    ensures r.Ok? ==> Level(r.value, h) && |n.keys| - 1 <= |r.value.keys| <= |n.keys|
    ensures r.Ok? ==> |r.value.keys| == |n.keys| || 0 < |n.keys|
  {
    if idx != 0 && |n.children[idx - 1].keys| >= t then
      if |n.children[idx - 1].keys| == 0 then Err(NoSuchElement) else Ok(BorrowFromPrev(n, idx, h))
    else if idx != |n.keys| && |n.children[idx + 1].keys| >= t then
      if |n.children[idx + 1].keys| == 0 then Err(NoSuchElement) else Ok(BorrowFromNext(n, idx, h))
    else if idx != |n.keys| then Ok(Merge(n, idx, h))
    else if idx == 0 then Err(IndexOutOfBounds)
    else Ok(Merge(n, idx - 1, h))
  }

  /** `getPredecessor(node, idx)` from child idx: the last key of its rightmost leaf; None when that leaf is empty. */
  function Rightmost(n: Node): (r: Option<User>)
    requires Shaped(n)
    ensures r.Some? ==> r.value in Users(n)
    decreases n
  {
    if n.leaf then (if n.keys == [] then None else Some(n.keys[|n.keys| - 1]))
    else
      var r := Rightmost(n.children[|n.keys|]);
      if r.Some? then WeavedIn(ChildUsers(n.children), n.keys, |n.keys|, r.value); r else r
  }

  /** `getSuccessor(node, idx)` from child idx+1: the first key of its leftmost leaf; None when that leaf is empty. */
  function Leftmost(n: Node): (r: Option<User>)
    requires Shaped(n)
    ensures r.Some? ==> r.value in Users(n)
    decreases n
  {
    if n.leaf then (if n.keys == [] then None else Some(n.keys[0]))
    else
      var r := Leftmost(n.children[0]);
      if r.Some? then WeavedIn(ChildUsers(n.children), n.keys, 0, r.value); r else r
  }

  /** The node with child j replaced by the outcome of a recursive `delete`, the probes added. */
  function Descended(n: Node, j: int, sub: Result<Counted<Node>>, probes: nat): (r: Result<Counted<Node>>)
    requires 0 <= j < |n.children|
    ensures r.Ok? <==> sub.Ok?
    ensures r.Ok? ==> r.value.value == n.(children := n.children[j := sub.value.value])
  {
    if sub.Err? then Err(sub.error)
    else Ok(Counted(n.(children := n.children[j := sub.value.value]), probes + sub.value.probes))
  }

  /**
   * `delete(node, id)`: remove the key from a leaf, hand a key of an inner node to
   * `deleteFromInternalNode`, or `fill` a child with fewer than t keys and descend.
   * The probes are those of every `binarySearch` on the way.
   */
  ghost function DeleteNode(t: int, n: Node, id: int, fixed: bool, h: nat): (r: Result<Counted<Node>>)
    requires Level(n, h)
    ensures r.Ok? ==> Level(r.value.value, h)
    decreases h, 1
  {
    var c := Locate(n.keys, id);
    var idx := c.value;
    if idx < |n.keys| && n.keys[idx].id == id then
      if n.leaf then Ok(Counted(n.(keys := n.keys[..idx] + n.keys[idx + 1..]), c.probes))
      else
        var r := DeleteFromInternal(t, n, idx, fixed, h);
        if r.Err? then r else Ok(Counted(r.value.value, c.probes + r.value.probes))
    else if n.leaf then Ok(Counted(n, c.probes))
    else
      var flag := idx == |n.keys|;
      var f := if |n.children[idx].keys| < t then Fill(t, n, idx, h) else Ok(n);
      if f.Err? then Err(f.error)
      else
        var m := f.value;
        var j := if flag && (if fixed then idx > |m.keys| else idx >= |m.keys|) then idx - 1 else idx;
        if j < 0 then Err(IndexOutOfBounds)
        else
          var sub := DeleteNode(t, m.children[j], id, fixed, h - 1);
          LevelDescended(m, j, sub, c.probes, h);
          Descended(m, j, sub, c.probes)
  }

  /**
   * `deleteFromInternalNode(node, idx)`: replace key idx by its predecessor when
   * child idx has at least t keys and delete that from child idx, else by its
   * successor when child idx+1 has, else merge the two children and delete the key
   * from the merged child.
   */
  ghost function DeleteFromInternal(t: int, n: Node, idx: int, fixed: bool, h: nat): (r: Result<Counted<Node>>)
    requires Level(n, h) && !n.leaf && 0 <= idx < |n.keys|
    ensures r.Ok? ==> Level(r.value.value, h)
    decreases h, 0
  {
    LevelShaped(n, h);
    if |n.children[idx].keys| >= t then
      var pred := Rightmost(n.children[idx]);
      if pred.None? then Err(NoSuchElement)
      else
        var sub := DeleteNode(t, n.children[idx], pred.value.id, fixed, h - 1);
        var m := n.(keys := n.keys[idx := pred.value]);
        LevelDescended(m, idx, sub, 0, h);
        Descended(m, idx, sub, 0)
    else if |n.children[idx + 1].keys| >= t then
      var succ := Leftmost(n.children[idx + 1]);
      if succ.None? then Err(NoSuchElement)
      else
        var sub := DeleteNode(t, n.children[idx + 1], succ.value.id, fixed, h - 1);
        var m := n.(keys := n.keys[idx := succ.value]);
        LevelDescended(m, idx + 1, sub, 0, h);
        Descended(m, idx + 1, sub, 0)
    else
      var m := Merge(n, idx, h);
      var sub := DeleteNode(t, m.children[idx], n.keys[idx].id, fixed, h - 1);
      LevelDescended(m, idx, sub, 0, h);
      Descended(m, idx, sub, 0)
  }

  lemma LevelDescended(n: Node, j: int, sub: Result<Counted<Node>>, probes: nat, h: nat)
    requires Level(n, h) && !n.leaf && 0 <= j < |n.children|
    requires sub.Ok? ==> Level(sub.value.value, h - 1)
    ensures Descended(n, j, sub, probes).Ok? ==> Level(Descended(n, j, sub, probes).value.value, h)
  {
    if sub.Ok? {
      LevelUpdate(n, h, j, sub.value.value);
    }
  }
  // ---------------------------------------------------------------------------
  // The descent after `fill` at line 60

  function Sample(id: int): User {
    User(id, "", "", "")
  }

  /** The tree four inserts build with t = 2: key 2 over the leaves [1] and [3, 4]. */
  function SampleTree(): (r: Node)
    ensures Level(r, 1) && Shaped(r)
  {
    var r := Node([Sample(2)], [Node([Sample(1)], [], true), Node([Sample(3), Sample(4)], [], true)], false);
    assert Level(r.children[0], 0) && Level(r.children[1], 0);
    LevelShaped(r, 1);
    r
  }

  /**
   * As written, deleting 4 descends into the leaf [1], since `idx >= keys.size()`
   * holds for idx = 1 without any merge: user 4 stays in the tree.
   */
  lemma LastChildKeySurvives()
    ensures DeleteNode(2, SampleTree(), 4, false, 1).Ok?
    ensures Shaped(DeleteNode(2, SampleTree(), 4, false, 1).value.value)
    ensures Sample(4) in Users(DeleteNode(2, SampleTree(), 4, false, 1).value.value)
  {
    var n := SampleTree();
    assert Locate(n.keys, 4).value == 1;
    var leaf := n.children[0];
    assert Locate(leaf.keys, 4).value == 1;
    var r := DeleteNode(2, n, 4, false, 1);
    assert r.value.value == n;
    LevelShaped(n, 1);
    assert Users(n) == [Sample(1), Sample(2), Sample(3), Sample(4)];
  }

  /** With `idx > keys.size()` the same delete removes user 4 and nothing else. */
  lemma LastChildKeyRemoved()
    ensures DeleteNode(2, SampleTree(), 4, true, 1).Ok?
    ensures Shaped(DeleteNode(2, SampleTree(), 4, true, 1).value.value)
    ensures Users(DeleteNode(2, SampleTree(), 4, true, 1).value.value) == [Sample(1), Sample(2), Sample(3)]
  {
    var n := SampleTree();
    var left := Node([Sample(3)], [], true);
    var r := n.(children := n.children[1 := left]);
    SampleDelete(n, left, r);
    SampleRemaining(n, left, r);
  }

  /** The fixed delete of 4 from the sample tree replaces its right leaf by [3]. */
  lemma SampleDelete(n: Node, left: Node, r: Node)
    requires n == SampleTree() && left == Node([Sample(3)], [], true)
    requires r == n.(children := n.children[1 := left])
    ensures DeleteNode(2, n, 4, true, 1).Ok? && DeleteNode(2, n, 4, true, 1).value.value == r
  {
    assert Locate(n.keys, 4).value == 1 && |n.keys| == 1;
    assert |n.children[1].keys| == 2 && !n.leaf;
    SampleDescent(n, left);
    assert DeleteNode(2, n, 4, true, 1) == Descended(n, 1, DeleteNode(2, n.children[1], 4, true, 0), Locate(n.keys, 4).probes);
  }

  /** The sample tree with its right leaf replaced by [3] is shaped and lists 1, 2, 3. */
  lemma SampleRemaining(n: Node, left: Node, r: Node)
    requires n == SampleTree() && left == Node([Sample(3)], [], true)
    requires r == n.(children := n.children[1 := left])
    ensures Shaped(r) && Users(r) == [Sample(1), Sample(2), Sample(3)]
  {
    assert Level(left, 0);
    LevelUpdate(n, 1, 1, left);
    LevelShaped(r, 1);
    var ls := ChildUsers(r.children);
    assert ls[0] == [Sample(1)] && ls[1] == [Sample(3)];
    assert ls[..1] == [[Sample(1)]] && r.keys[..0] == [];
    assert Users(r) == Weave(ls, r.keys) == [Sample(1)] + [Sample(2)] + [Sample(3)];
  }

  lemma SampleDescent(n: Node, left: Node)
    requires n == SampleTree() && left == Node([Sample(3)], [], true)
    ensures DeleteNode(2, n.children[1], 4, true, 0) == Ok(Counted(left, 2))
  {
    var leaf := n.children[1];
    assert Locate(leaf.keys, 4) == Counted(1, 2);
    assert leaf.keys[..1] + leaf.keys[2..] == left.keys;
  }
}
