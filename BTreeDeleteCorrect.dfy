/**
 * `delete(node, id)` of ad-3 BTree.java with the textbook comparison after `fill`
 * removes exactly the users with that id: on a tree whose ids strictly increase in
 * order and whose subtrees hold a key in every node, it never throws and leaves the
 * in-order list with those users taken out.
 */
module BTreeDeleteCorrect {
  import opened Wrappers
  import opened BTreeKeys
  import opened BTreeNode
  import opened BTreeSearch
  import opened BTreeDelete
  import opened BTreeDeleteProof

  /** What `delete(node, id)` needs of a node: a key unless it is a leaf, and inhabited subtrees. */
  predicate Deletable(n: Node) {
    (n.leaf || |n.keys| > 0) && forall i :: 0 <= i < |n.children| ==> Inhabited(n.children[i])
  }

  // ---------------------------------------------------------------------------
  // Lists

  /** In a strictly ordered list, removing the id of one user removes that user alone. */
  lemma WithoutMiddle(a: seq<User>, x: User, b: seq<User>)
    requires StrictlyOrdered(a + [x] + b)
    ensures Without(a + [x] + b, x.id) == a + b
  {
    Distinct(a, x, b);
    WithoutOnly(a, x, b);
  }

  /** In a strictly ordered list, no other user has the id of `x`. */
  lemma Distinct(a: seq<User>, x: User, b: seq<User>)
    requires StrictlyOrdered(a + [x] + b)
    ensures forall v :: v in a ==> v.id != x.id
    ensures forall v :: v in b ==> v.id != x.id
  {
    var s := a + [x] + b;
    assert s[|a|] == x;
    forall v | v in a
      ensures v.id != x.id
    {
      var q :| 0 <= q < |a| && a[q] == v;
      assert s[q] == v;
    }
    forall v | v in b
      ensures v.id != x.id
    {
      var q :| 0 <= q < |b| && b[q] == v;
      assert s[|a| + 1 + q] == v;
    }
  }

  /** Removing the id of `x` when no other user has it removes `x` alone. */
  lemma WithoutOnly(a: seq<User>, x: User, b: seq<User>)
    requires forall v :: v in a ==> v.id != x.id
    requires forall v :: v in b ==> v.id != x.id
    ensures Without(a + [x] + b, x.id) == a + b
  {
    assert a + [x] + b == a + ([x] + b);
    WithoutConcat(a, [x] + b, x.id);
    WithoutNone(a, x.id);
    WithoutHead(x, b);
  }

  /** Removing the id of the first user, which no later user has, leaves the rest. */
  lemma WithoutHead(x: User, b: seq<User>)
    requires forall v :: v in b ==> v.id != x.id
    ensures Without([x] + b, x.id) == b
  {
    var xb := [x] + b;
    assert xb[0] == x && xb[1..] == b;
    WithoutNone(b, x.id);
  }

  /** `getPredecessor` on an inhabited subtree finds the last user of its in-order list. */
  lemma {:induction false} RightmostLast(n: Node)
    requires Shaped(n) && Inhabited(n)
    ensures Rightmost(n).Some? && |Users(n)| > 0 && Rightmost(n).value == Users(n)[|Users(n)| - 1]
    decreases n
  {
    if !n.leaf {
      var c := n.children[|n.keys|];
      RightmostLast(c);
      var ls := ChildUsers(n.children);
      assert ls[|ls| - 1] == Users(c);
    }
  }

  /** `getSuccessor` on an inhabited subtree finds the first user of its in-order list. */
  lemma {:induction false} LeftmostFirst(n: Node)
    requires Shaped(n) && Inhabited(n)
    ensures Leftmost(n).Some? && |Users(n)| > 0 && Leftmost(n).value == Users(n)[0]
    decreases n
  {
    if !n.leaf {
      var c := n.children[0];
      LeftmostFirst(c);
      var ls := ChildUsers(n.children);
      WeaveFront(ls, n.keys);
      assert ls[0] == Users(c);
    }
  }

  /** Removing separator j from a strictly ordered weave joins runs j and j+1. */
  lemma SeparatorOut(ls: seq<seq<User>>, ks: seq<User>, j: int)
    requires |ls| == |ks| + 1 && 0 <= j < |ks| && StrictlyOrdered(Weave(ls, ks))
    ensures Without(Weave(ls, ks), ks[j].id) ==
      Weave(MergeRuns(ls, ks, j)[j := ls[j] + ls[j + 1]], DropKey(ks, j))
  {
    var l, k := MergeRuns(ls, ks, j), DropKey(ks, j);
    WeaveMerge(ls, ks, j);
    WeaveAround(l, k, j);
    Isolated(Before(l, k, j), l[j], After(l, k, j), ks[j]);
    WithoutRun(l, k, j, ks[j].id);
    WithoutMiddle(ls[j], ks[j], ls[j + 1]);
  }

  /** Separator j replaced by the last user of run j, which leaves that run: the separator is removed. */
  lemma PredecessorSwap(ls: seq<seq<User>>, ks: seq<User>, j: int, x: seq<User>, p: User)
    requires |ls| == |ks| + 1 && 0 <= j < |ks| && StrictlyOrdered(Weave(ls, ks))
    requires ls[j] == x + [p]
    ensures Weave(ls[j := x], ks[j := p]) == Without(Weave(ls, ks), ks[j].id)
  {
    SeparatorOut(ls, ks, j);
    var l := MergeRuns(ls, ks, j)[j := ls[j] + ls[j + 1]];
    assert DropKey(ks[j := p], j) == DropKey(ks, j);
    WeaveRejoin(ls[j := x], ks[j := p], j, l, DropKey(ks, j));
  }

  /** Separator j replaced by the first user of run j+1, which leaves that run: the separator is removed. */
  lemma SuccessorSwap(ls: seq<seq<User>>, ks: seq<User>, j: int, y: seq<User>, q: User)
    requires |ls| == |ks| + 1 && 0 <= j < |ks| && StrictlyOrdered(Weave(ls, ks))
    requires ls[j + 1] == [q] + y
    ensures Weave(ls[j + 1 := y], ks[j := q]) == Without(Weave(ls, ks), ks[j].id)
  {
    SeparatorOut(ls, ks, j);
    var l := MergeRuns(ls, ks, j)[j := ls[j] + ls[j + 1]];
    assert ls[j] + ls[j + 1] == ls[j] + [q] + y;
    assert DropKey(ks[j := q], j) == DropKey(ks, j);
    WeaveRejoin(ls[j + 1 := y], ks[j := q], j, l, DropKey(ks, j));
  }

  // ---------------------------------------------------------------------------
  // The descent

  /** When `binarySearch` misses in an ordered inner node, every user with the id lies in the subtree it returns. */
  lemma InRunLocated(n: Node, id: int, u: User)
    requires Shaped(n) && !n.leaf && StrictlyOrdered(Users(n)) && u in Users(n) && u.id == id
    requires var p := Locate(n.keys, id).value; !(p < |n.keys| && n.keys[p].id == id)
    ensures u in Users(n.children[Locate(n.keys, id).value])
  {
    var p := Locate(n.keys, id).value;
    var ls := ChildUsers(n.children);
    assert Ordered(Users(n));
    KeysOrdered(ls, n.keys);
    LocateOrdered(n.keys, id);
    assert u !in n.keys;
    var j := RunHolding(n, u);
    RunBounds(ls, n.keys, p, j, u);
    assert j == p;
  }

  /** A subtree holding every user with the id: deleting them there deletes them from the node. */
  lemma DescentStep(m: Node, j: int, id: int, x: Node)
    requires Shaped(m) && !m.leaf && 0 <= j < |m.children| && StrictlyOrdered(Users(m))
    requires forall u :: u in Users(m) && u.id == id ==> u in Users(m.children[j])
    requires Shaped(x) && Users(x) == Without(Users(m.children[j]), id)
    ensures Shaped(m.(children := m.children[j := x]))
    ensures Users(m.(children := m.children[j := x])) == Without(Users(m), id)
  {
    var ls, ks := ChildUsers(m.children), m.keys;
    ChildUsersUpdate(m.children, j, x);
    WeaveAround(ls, ks, j);
    var b, a := Before(ls, ks, j), After(ls, ks, j);
    if u: User :| u in ls[j] && u.id == id {
      Isolated(b, ls[j], a, u);
    } else {
      forall v | v in b
        ensures v.id != id
      {
        assert v in Users(m);
      }
      forall v | v in a
        ensures v.id != id
      {
        assert v in Users(m);
      }
    }
    WithoutRun(ls, ks, j, id);
  }

  // ---------------------------------------------------------------------------
  // `fill` keeps the subtrees inhabited

  lemma InhabitedMerged(c: Node, k: User, s: Node, h: nat)
    requires Level(c, h) && Level(s, h) && Inhabited(c) && Inhabited(s)
    ensures Inhabited(Node(c.keys + [k] + s.keys, if c.leaf then c.children else c.children + s.children, c.leaf))
  {
    if !c.leaf {
      var cs := c.children + s.children;
      forall i | 0 <= i < |cs|
        ensures Inhabited(cs[i])
      {
        if i >= |c.children| {
          assert cs[i] == s.children[i - |c.children|];
        }
      }
    }
  }

  lemma InhabitedPrev(c: Node, s: Node, k: User, h: nat)
    requires Level(c, h) && Level(s, h) && Inhabited(c) && Inhabited(s)
    ensures Inhabited(Node([k] + c.keys, if c.leaf then c.children else [s.children[|s.keys|]] + c.children, c.leaf))
  {
    if !c.leaf {
      var cs := [s.children[|s.keys|]] + c.children;
      forall i | 0 <= i < |cs|
        ensures Inhabited(cs[i])
      {
        if i > 0 {
          assert cs[i] == c.children[i - 1];
        }
      }
    }
  }

  lemma InhabitedNext(c: Node, s: Node, k: User, h: nat)
    requires Level(c, h) && Level(s, h) && Inhabited(c) && Inhabited(s)
    ensures Inhabited(Node(c.keys + [k], if c.leaf then c.children else c.children + [s.children[0]], c.leaf))
  {
    if !c.leaf {
      var cs := c.children + [s.children[0]];
      forall i | 0 <= i < |cs|
        ensures Inhabited(cs[i])
      {
        if i < |c.children| {
          assert cs[i] == c.children[i];
        }
      }
    }
  }

  /** The subtree `delete` descends into after `fill`, with the textbook comparison. */
  function Target(n: Node, idx: int, m: Node): int {
    if idx == |n.keys| && idx > |m.keys| then idx - 1 else idx
  }

  /**
   * What `fill(node, idx)` must leave for the descent: the same users, and at the
   * target an inhabited subtree holding every user subtree idx held.
   */
  ghost predicate Filled(n: Node, idx: int, m: Node) {
    Shaped(n) && Shaped(m) && 0 <= idx < |n.children| && Users(m) == Users(n) &&
    var j := Target(n, idx, m);
    0 <= j < |m.children| && Inhabited(m.children[j]) &&
    forall u :: u in Users(n.children[idx]) ==> u in Users(m.children[j])
  }

  /** `fill(node, idx)` on a deletable node succeeds and leaves what the descent needs. */
  lemma FillStep(t: int, n: Node, idx: int, h: nat)
    requires Level(n, h) && Shaped(n) && !n.leaf && 0 <= idx <= |n.keys| && Deletable(n)
    requires |n.children[idx].keys| < t
    ensures Fill(t, n, idx, h).Ok? && Filled(n, idx, Fill(t, n, idx, h).value)
  {
    if idx != 0 && |n.children[idx - 1].keys| >= t {
      assert Inhabited(n.children[idx - 1]);
      FillFromPrev(n, idx, h);
    } else if idx != |n.keys| && |n.children[idx + 1].keys| >= t {
      assert Inhabited(n.children[idx + 1]);
      FillFromNext(n, idx, h);
    } else if idx != |n.keys| {
      FillByMerge(n, idx, h);
    } else {
      FillByMerge(n, idx - 1, h);
    }
  }

  /** `borrowFromPrev` keeps the users and leaves child idx inhabited, holding all it held. */
  lemma FillFromPrev(n: Node, idx: int, h: nat)
    requires Level(n, h) && Shaped(n) && !n.leaf && 0 < idx <= |n.keys| && Deletable(n)
    requires |n.children[idx - 1].keys| > 0
    ensures Filled(n, idx, BorrowFromPrev(n, idx, h))
  {
    var c, s := n.children[idx], n.children[idx - 1];
    assert Level(c, h - 1) && Inhabited(c) && Level(s, h - 1) && Inhabited(s);
    BorrowPrevUsers(n, idx, h);
    InhabitedPrev(c, s, n.keys[idx - 1], h - 1);
  }

  /** `borrowFromNext` keeps the users and leaves child idx inhabited, holding all it held. */
  lemma FillFromNext(n: Node, idx: int, h: nat)
    requires Level(n, h) && Shaped(n) && !n.leaf && 0 <= idx < |n.keys| && Deletable(n)
    requires |n.children[idx + 1].keys| > 0
    ensures Filled(n, idx, BorrowFromNext(n, idx, h))
  {
    var c, s := n.children[idx], n.children[idx + 1];
    assert Level(c, h - 1) && Inhabited(c) && Level(s, h - 1) && Inhabited(s);
    BorrowNextUsers(n, idx, h);
    InhabitedNext(c, s, n.keys[idx], h - 1);
  }

  /**
   * `merge(node, i)` keeps the users and leaves child i inhabited, holding all
   * children i and i+1 held: the target both for idx = i and, at the last child,
   * for idx = i+1.
   */
  lemma FillByMerge(n: Node, i: int, h: nat)
    requires Level(n, h) && Shaped(n) && !n.leaf && 0 <= i < |n.keys| && Deletable(n)
    ensures Filled(n, i, Merge(n, i, h))
    ensures i + 1 == |n.keys| ==> Filled(n, i + 1, Merge(n, i, h))
  {
    var c, s := n.children[i], n.children[i + 1];
    assert Level(c, h - 1) && Inhabited(c) && Level(s, h - 1) && Inhabited(s);
    MergeUsers(n, i, h);
    MergedUsers(c, n.keys[i], s, h - 1);
    InhabitedMerged(c, n.keys[i], s, h - 1);
  }

  // ---------------------------------------------------------------------------
  // `delete` and `deleteFromInternalNode` remove exactly the users with the id

  /** `delete(node, id)` succeeds and takes the users with the id out of the in-order list. */
  lemma {:induction false} DeleteRemoves(t: int, n: Node, id: int, h: nat)
    requires Level(n, h) && Shaped(n) && StrictlyOrdered(Users(n)) && Deletable(n)
    ensures DeleteNode(t, n, id, true, h).Ok?
    ensures Shaped(DeleteNode(t, n, id, true, h).value.value)
    ensures Users(DeleteNode(t, n, id, true, h).value.value) == Without(Users(n), id)
    decreases h, 2
  {
    var p := Locate(n.keys, id).value;
    if n.leaf {
      LeafRemoves(t, n, id, h);
    } else if p < |n.keys| && n.keys[p].id == id {
      DeleteFromInternalRemoves(t, n, p, h);
      LevelShaped(DeleteNode(t, n, id, true, h).value.value, h);
    } else {
      MissRemoves(t, n, id, h);
    }
  }

  /** At a leaf, `delete` removes the key with the id when `binarySearch` finds it, and nothing otherwise. */
  lemma LeafRemoves(t: int, n: Node, id: int, h: nat)
    requires Level(n, h) && n.leaf && StrictlyOrdered(n.keys)
    ensures DeleteNode(t, n, id, true, h).Ok?
    ensures Shaped(DeleteNode(t, n, id, true, h).value.value)
    ensures Users(DeleteNode(t, n, id, true, h).value.value) == Without(n.keys, id)
  {
    var p := Locate(n.keys, id).value;
    if p < |n.keys| && n.keys[p].id == id {
      var a, b := n.keys[..p], n.keys[p + 1..];
      assert n.keys == a + [n.keys[p]] + b;
      WithoutMiddle(a, n.keys[p], b);
    } else {
      assert Ordered(n.keys);
      LocateOrdered(n.keys, id);
      WithoutNone(n.keys, id);
    }
  }

  /** A miss in an inner node: `fill` if needed, then delete in the target subtree. */
  lemma {:induction false} MissRemoves(t: int, n: Node, id: int, h: nat)
    requires Level(n, h) && Shaped(n) && StrictlyOrdered(Users(n)) && Deletable(n) && !n.leaf
    requires var p := Locate(n.keys, id).value; !(p < |n.keys| && n.keys[p].id == id)
    ensures DeleteNode(t, n, id, true, h).Ok?
    ensures Shaped(DeleteNode(t, n, id, true, h).value.value)
    ensures Users(DeleteNode(t, n, id, true, h).value.value) == Without(Users(n), id)
    decreases h, 1
  {
    var m, j := MissTarget(t, n, id, h);
    var c := m.children[j];
    MissShape(t, n, id, h, m, j);
    DeleteRemoves(t, c, id, h - 1);
    var x := DeleteNode(t, c, id, true, h - 1).value.value;
    DescentStep(m, j, id, x);
  }

  /** After a miss, `delete` is the descent into subtree j of the filled node m. */
  lemma MissShape(t: int, n: Node, id: int, h: nat, m: Node, j: int)
    requires Level(n, h) && !n.leaf
    requires var p := Locate(n.keys, id).value; !(p < |n.keys| && n.keys[p].id == id)
    requires var p := Locate(n.keys, id).value;
      (|n.children[p].keys| < t ==> Fill(t, n, p, h).Ok?) &&
      m == (if |n.children[p].keys| < t then Fill(t, n, p, h).value else n) && j == Target(n, p, m)
    requires Level(m, h) && 0 <= j < |m.children|
    ensures DeleteNode(t, n, id, true, h) ==
      Descended(m, j, DeleteNode(t, m.children[j], id, true, h - 1), Locate(n.keys, id).probes)
  {
  }

  /** After a miss and `fill`, the target subtree is deletable and holds every user with the id. */
  lemma MissTarget(t: int, n: Node, id: int, h: nat) returns (m: Node, j: int)
    requires Level(n, h) && Shaped(n) && StrictlyOrdered(Users(n)) && Deletable(n) && !n.leaf
    requires var p := Locate(n.keys, id).value; !(p < |n.keys| && n.keys[p].id == id)
    ensures var p := Locate(n.keys, id).value;
      (|n.children[p].keys| < t ==> Fill(t, n, p, h).Ok?) &&
      m == (if |n.children[p].keys| < t then Fill(t, n, p, h).value else n) && j == Target(n, p, m)
    ensures Level(m, h) && Shaped(m) && !m.leaf && 0 <= j < |m.children| && StrictlyOrdered(Users(m))
    ensures Users(m) == Users(n)
    ensures Level(m.children[j], h - 1) && Shaped(m.children[j]) && Deletable(m.children[j])
    ensures StrictlyOrdered(Users(m.children[j]))
    ensures forall u :: u in Users(m) && u.id == id ==> u in Users(m.children[j])
  {
    var p := Locate(n.keys, id).value;
    m := if |n.children[p].keys| < t then Fill(t, n, p, h).value else n;
    if |n.children[p].keys| < t {
      FillStep(t, n, p, h);
    } else {
      assert Inhabited(n.children[p]);
    }
    assert Filled(n, p, m) && Level(m, h);
    j := Target(n, p, m);
    forall u | u in Users(m) && u.id == id
      ensures u in Users(m.children[j])
    {
      InRunLocated(n, id, u);
    }
    assert Level(m.children[j], h - 1) && Deletable(m.children[j]);
    StrictRun(ChildUsers(m.children), m.keys, j);
  }

  /** `deleteFromInternalNode(node, idx)` succeeds and takes key idx's id out of the in-order list. */
  lemma {:induction false} DeleteFromInternalRemoves(t: int, n: Node, idx: int, h: nat)
    requires Level(n, h) && Shaped(n) && !n.leaf && 0 <= idx < |n.keys|
    requires StrictlyOrdered(Users(n)) && Deletable(n)
    ensures DeleteFromInternal(t, n, idx, true, h).Ok?
    ensures Shaped(DeleteFromInternal(t, n, idx, true, h).value.value)
    ensures Users(DeleteFromInternal(t, n, idx, true, h).value.value) == Without(Users(n), n.keys[idx].id)
    decreases h, 1
  {
    if |n.children[idx].keys| >= t {
      PredecessorRemoves(t, n, idx, h);
    } else if |n.children[idx + 1].keys| >= t {
      SuccessorRemoves(t, n, idx, h);
    } else {
      MergeRemoves(t, n, idx, h);
    }
  }

  /** Key idx replaced by its predecessor, which is then deleted from child idx. */
  lemma {:induction false} PredecessorRemoves(t: int, n: Node, idx: int, h: nat)
    requires Level(n, h) && Shaped(n) && !n.leaf && 0 <= idx < |n.keys|
    requires StrictlyOrdered(Users(n)) && Deletable(n) && |n.children[idx].keys| >= t
    ensures DeleteFromInternal(t, n, idx, true, h).Ok?
    ensures Shaped(DeleteFromInternal(t, n, idx, true, h).value.value)
    ensures Users(DeleteFromInternal(t, n, idx, true, h).value.value) == Without(Users(n), n.keys[idx].id)
    decreases h, 0
  {
    var c := n.children[idx];
    var pred, x := PredecessorSplit(n, idx, h);
    DeleteRemoves(t, c, pred.id, h - 1);
    var sub := DeleteNode(t, c, pred.id, true, h - 1).value.value;
    PredecessorJoin(n, idx, h, x, pred, sub);
    PredecessorStep(t, n, idx, h, pred);
  }

  /** With a predecessor whose delete succeeds, `deleteFromInternalNode` puts it at idx and the shrunk child at idx. */
  lemma PredecessorStep(t: int, n: Node, idx: int, h: nat, pred: User)
    requires Level(n, h) && !n.leaf && 0 <= idx < |n.keys| && |n.children[idx].keys| >= t
    requires Level(n.children[idx], h - 1) && Shaped(n.children[idx]) && Rightmost(n.children[idx]) == Some(pred)
    requires DeleteNode(t, n.children[idx], pred.id, true, h - 1).Ok?
    ensures DeleteFromInternal(t, n, idx, true, h).Ok?
    ensures DeleteFromInternal(t, n, idx, true, h).value.value ==
      Node(n.keys[idx := pred], n.children[idx := DeleteNode(t, n.children[idx], pred.id, true, h - 1).value.value], false)
  {
  }

  /** Child idx is deletable and its users are those before its last one, `pred`, and `pred`. */
  lemma PredecessorSplit(n: Node, idx: int, h: nat) returns (pred: User, x: seq<User>)
    requires Level(n, h) && Shaped(n) && !n.leaf && 0 <= idx < |n.keys|
    requires StrictlyOrdered(Users(n)) && Deletable(n)
    ensures Level(n.children[idx], h - 1) && Shaped(n.children[idx]) && Deletable(n.children[idx])
    ensures Rightmost(n.children[idx]) == Some(pred)
    ensures StrictlyOrdered(Users(n.children[idx]))
    ensures Users(n.children[idx]) == x + [pred]
    ensures Without(Users(n.children[idx]), pred.id) == x
  {
    var c := n.children[idx];
    assert Level(c, h - 1) && Inhabited(c) && Deletable(c);
    RightmostLast(c);
    pred := Rightmost(c).value;
    var u := Users(c);
    x := u[..|u| - 1];
    assert u == x + [pred] + [];
    StrictRun(ChildUsers(n.children), n.keys, idx);
    WithoutMiddle(x, pred, []);
  }

  /** Key idx replaced by `pred` and child idx by a node holding the users before `pred`: key idx is gone. */
  lemma PredecessorJoin(n: Node, idx: int, h: nat, x: seq<User>, pred: User, sub: Node)
    requires Level(n, h) && Shaped(n) && !n.leaf && 0 <= idx < |n.keys| && StrictlyOrdered(Users(n))
    requires Level(sub, h - 1) && Shaped(sub) && Users(sub) == x && Users(n.children[idx]) == x + [pred]
    ensures Shaped(Node(n.keys[idx := pred], n.children[idx := sub], false))
    ensures Users(Node(n.keys[idx := pred], n.children[idx := sub], false)) == Without(Users(n), n.keys[idx].id)
  {
    var ls := ChildUsers(n.children);
    var r := Node(n.keys[idx := pred], n.children[idx := sub], false);
    LevelUpdate(n, h, idx, sub);
    LevelShaped(r, h);
    ChildUsersUpdate(n.children, idx, sub);
    assert Users(r) == Weave(ls[idx := x], n.keys[idx := pred]);
    PredecessorSwap(ls, n.keys, idx, x, pred);
  }

  /** Key idx replaced by its successor, which is then deleted from child idx+1. */
  lemma {:induction false} SuccessorRemoves(t: int, n: Node, idx: int, h: nat)
    requires Level(n, h) && Shaped(n) && !n.leaf && 0 <= idx < |n.keys|
    requires StrictlyOrdered(Users(n)) && Deletable(n)
    requires |n.children[idx].keys| < t <= |n.children[idx + 1].keys|
    ensures DeleteFromInternal(t, n, idx, true, h).Ok?
    ensures Shaped(DeleteFromInternal(t, n, idx, true, h).value.value)
    ensures Users(DeleteFromInternal(t, n, idx, true, h).value.value) == Without(Users(n), n.keys[idx].id)
    decreases h, 0
  {
    var c := n.children[idx + 1];
    var succ, y := SuccessorSplit(n, idx, h);
    DeleteRemoves(t, c, succ.id, h - 1);
    var sub := DeleteNode(t, c, succ.id, true, h - 1).value.value;
    SuccessorJoin(n, idx, h, y, succ, sub);
    SuccessorStep(t, n, idx, h, succ);
  }

  /** With a successor whose delete succeeds, `deleteFromInternalNode` puts it at idx and the shrunk child at idx+1. */
  lemma SuccessorStep(t: int, n: Node, idx: int, h: nat, succ: User)
    requires Level(n, h) && !n.leaf && 0 <= idx < |n.keys| && |n.children[idx].keys| < t <= |n.children[idx + 1].keys|
    requires Level(n.children[idx + 1], h - 1) && Shaped(n.children[idx + 1]) && Leftmost(n.children[idx + 1]) == Some(succ)
    requires DeleteNode(t, n.children[idx + 1], succ.id, true, h - 1).Ok?
    ensures DeleteFromInternal(t, n, idx, true, h).Ok?
    ensures DeleteFromInternal(t, n, idx, true, h).value.value ==
      Node(n.keys[idx := succ], n.children[idx + 1 := DeleteNode(t, n.children[idx + 1], succ.id, true, h - 1).value.value], false)
  {
  }

  /** Child idx+1 is deletable and its users are its first one, `succ`, and those after it. */
  lemma SuccessorSplit(n: Node, idx: int, h: nat) returns (succ: User, y: seq<User>)
    requires Level(n, h) && Shaped(n) && !n.leaf && 0 <= idx < |n.keys|
    requires StrictlyOrdered(Users(n)) && Deletable(n)
    ensures Level(n.children[idx + 1], h - 1) && Shaped(n.children[idx + 1]) && Deletable(n.children[idx + 1])
    ensures Leftmost(n.children[idx + 1]) == Some(succ)
    ensures StrictlyOrdered(Users(n.children[idx + 1]))
    ensures Users(n.children[idx + 1]) == [succ] + y
    ensures Without(Users(n.children[idx + 1]), succ.id) == y
  {
    var c := n.children[idx + 1];
    assert Level(c, h - 1) && Inhabited(c) && Deletable(c);
    LeftmostFirst(c);
    succ := Leftmost(c).value;
    var u := Users(c);
    y := u[1..];
    assert u == [] + [succ] + y;
    StrictRun(ChildUsers(n.children), n.keys, idx + 1);
    WithoutMiddle([], succ, y);
  }

  /** Key idx replaced by `succ` and child idx+1 by a node holding the users after `succ`: key idx is gone. */
  lemma SuccessorJoin(n: Node, idx: int, h: nat, y: seq<User>, succ: User, sub: Node)
    requires Level(n, h) && Shaped(n) && !n.leaf && 0 <= idx < |n.keys| && StrictlyOrdered(Users(n))
    requires Level(sub, h - 1) && Shaped(sub) && Users(sub) == y && Users(n.children[idx + 1]) == [succ] + y
    ensures Shaped(Node(n.keys[idx := succ], n.children[idx + 1 := sub], false))
    ensures Users(Node(n.keys[idx := succ], n.children[idx + 1 := sub], false)) == Without(Users(n), n.keys[idx].id)
  {
    var ls := ChildUsers(n.children);
    var r := Node(n.keys[idx := succ], n.children[idx + 1 := sub], false);
    LevelUpdate(n, h, idx + 1, sub);
    LevelShaped(r, h);
    ChildUsersUpdate(n.children, idx + 1, sub);
    assert Users(r) == Weave(ls[idx + 1 := y], n.keys[idx := succ]);
    SuccessorSwap(ls, n.keys, idx, y, succ);
  }

  /** Children idx and idx+1 merged around key idx, which is then deleted from the merged child. */
  lemma {:induction false} MergeRemoves(t: int, n: Node, idx: int, h: nat)
    requires Level(n, h) && Shaped(n) && !n.leaf && 0 <= idx < |n.keys|
    requires StrictlyOrdered(Users(n)) && Deletable(n)
    requires |n.children[idx].keys| < t && |n.children[idx + 1].keys| < t
    ensures DeleteFromInternal(t, n, idx, true, h).Ok?
    ensures Shaped(DeleteFromInternal(t, n, idx, true, h).value.value)
    ensures Users(DeleteFromInternal(t, n, idx, true, h).value.value) == Without(Users(n), n.keys[idx].id)
    decreases h, 0
  {
    var m := Merge(n, idx, h);
    MergeSplit(n, idx, h);
    var c := m.children[idx];
    DeleteRemoves(t, c, n.keys[idx].id, h - 1);
    var sub := DeleteNode(t, c, n.keys[idx].id, true, h - 1).value.value;
    MergeJoin(n, idx, h, sub);
    assert DeleteFromInternal(t, n, idx, true, h).value.value == m.(children := m.children[idx := sub]);
  }

  /** The merged child is deletable, strictly ordered, and holds runs idx and idx+1 around key idx. */
  lemma MergeSplit(n: Node, idx: int, h: nat)
    requires Level(n, h) && Shaped(n) && !n.leaf && 0 <= idx < |n.keys|
    requires StrictlyOrdered(Users(n)) && Deletable(n)
    ensures var c := Merge(n, idx, h).children[idx];
      Level(c, h - 1) && Shaped(c) && Deletable(c) && StrictlyOrdered(Users(c))
  {
    var m := Merge(n, idx, h);
    FillByMerge(n, idx, h);
    MergeUsers(n, idx, h);
    var c := m.children[idx];
    assert Level(c, h - 1) && Deletable(c);
    StrictRun(ChildUsers(m.children), m.keys, idx);
  }

  /** The merged child replaced by a node holding runs idx and idx+1 without key idx: key idx is gone. */
  lemma MergeJoin(n: Node, idx: int, h: nat, sub: Node)
    requires Level(n, h) && Shaped(n) && !n.leaf && 0 <= idx < |n.keys| && StrictlyOrdered(Users(n))
    requires Shaped(Merge(n, idx, h).children[idx]) && Level(sub, h - 1) && Shaped(sub)
    requires Users(sub) == Without(Users(Merge(n, idx, h).children[idx]), n.keys[idx].id)
    ensures Shaped(Merge(n, idx, h).(children := Merge(n, idx, h).children[idx := sub]))
    ensures Users(Merge(n, idx, h).(children := Merge(n, idx, h).children[idx := sub])) == Without(Users(n), n.keys[idx].id)
  {
    var m := Merge(n, idx, h);
    MergeUsers(n, idx, h);
    var ls := ChildUsers(n.children);
    assert Users(m.children[idx]) == ls[idx] + [n.keys[idx]] + ls[idx + 1];
    StrictRun(ChildUsers(m.children), m.keys, idx);
    WithoutMiddle(ls[idx], n.keys[idx], ls[idx + 1]);
    LevelUpdate(m, h, idx, sub);
    LevelShaped(m.(children := m.children[idx := sub]), h);
    ChildUsersUpdate(m.children, idx, sub);
    SeparatorOut(ls, n.keys, idx);
  }
}
