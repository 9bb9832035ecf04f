/**
 * `delete(node, id)` of ad-3 BTree.java with the comparison after `fill` as written
 * (`idx >= keys.size()`, line 60). On a tree whose ids strictly increase in order and
 * whose subtrees hold a key in every node, it never throws, keeps every user with
 * another id, and brings in no user the tree did not hold. What is stated is
 * membership only: a misrouted descent can leave the user with the id in place
 * (BTreeDelete.LastChildKeySurvives), and nothing here says the key that
 * replaces a deleted internal key is taken out of the subtree it came from.
 */
module BTreeDeleteWritten {
  import opened Wrappers
  import opened BTreeKeys
  import opened BTreeNode
  import opened BTreeSearch
  import opened BTreeDelete
  import opened BTreeDeleteProof
  import opened BTreeDeleteCorrect

  /** `r` keeps every user of `n` whose id is not `id` and holds only users of `n`. */
  ghost predicate KeepsOthers(n: Node, id: int, r: Node)
    requires Shaped(n) && Shaped(r)
  {
    (forall u :: u in Users(r) ==> u in Users(n)) &&
    (forall u :: u in Users(n) && u.id != id ==> u in Users(r))
  }

  /** In a strictly ordered list two users with one id are the same user. */
  lemma StrictUnique(s: seq<User>, u: User, v: User)
    requires StrictlyOrdered(s) && u in s && v in s && u.id == v.id
    ensures u == v
  {
    var a :| 0 <= a < |s| && s[a] == u;
    var b :| 0 <= b < |s| && s[b] == v;
    assert a == b;
  }

  // ---------------------------------------------------------------------------
  // Replacing one subtree, or one key and one subtree

  /** A subtree replaced by one that keeps its other users keeps the node's other users. */
  lemma ReplaceKeepsOthers(m: Node, j: int, id: int, x: Node)
    requires Shaped(m) && !m.leaf && 0 <= j < |m.children| && Shaped(x)
    requires KeepsOthers(m.children[j], id, x)
    ensures Shaped(m.(children := m.children[j := x]))
    ensures KeepsOthers(m, id, m.(children := m.children[j := x]))
  {
    var r := m.(children := m.children[j := x]);
    var ls, ks := ChildUsers(m.children), m.keys;
    ChildUsersUpdate(m.children, j, x);
    var lr := ls[j := Users(x)];
    assert Users(r) == Weave(lr, ks) && Users(m) == Weave(ls, ks);
    forall u | u in Weave(lr, ks)
      ensures u in Weave(ls, ks)
    {
      WeavedFrom(lr, ks, u);
      if u in ks {
        var q :| 0 <= q < |ks| && ks[q] == u;
        KeyWeavedIn(ls, ks, q);
      } else {
        var i :| 0 <= i < |lr| && u in lr[i];
        if i == j {
          assert u in Users(m.children[j]);
        }
        WeavedIn(ls, ks, i, u);
      }
    }
    forall u | u in Weave(ls, ks) && u.id != id
      ensures u in Weave(lr, ks)
    {
      WeavedFrom(ls, ks, u);
      if u in ks {
        var q :| 0 <= q < |ks| && ks[q] == u;
        KeyWeavedIn(lr, ks, q);
      } else {
        var i :| 0 <= i < |ls| && u in ls[i];
        if i == j {
          assert u in Users(x);
        }
        WeavedIn(lr, ks, i, u);
      }
    }
  }

  /**
   * Key idx, of id `id`, replaced by `p`, the only user of its id, and subtree j, which
   * held `p`, by one that keeps its users of other ids than `p`'s: the node keeps its
   * users of other ids than `id`.
   */
  lemma SwapKeepsOthers(n: Node, idx: int, j: int, p: User, sub: Node, id: int)
    requires Shaped(n) && !n.leaf && 0 <= idx < |n.keys| && (j == idx || j == idx + 1) && Shaped(sub)
    requires n.keys[idx].id == id && p in Users(n.children[j]) && KeepsOthers(n.children[j], p.id, sub)
    requires forall u :: u in Users(n) && u.id == p.id ==> u == p
    ensures Shaped(Node(n.keys[idx := p], n.children[j := sub], false))
    ensures KeepsOthers(n, id, Node(n.keys[idx := p], n.children[j := sub], false))
  {
    var r := Node(n.keys[idx := p], n.children[j := sub], false);
    var ls, ks := ChildUsers(n.children), n.keys;
    ChildUsersUpdate(n.children, j, sub);
    var lr, kr := ls[j := Users(sub)], ks[idx := p];
    assert Users(r) == Weave(lr, kr) && Users(n) == Weave(ls, ks);
    assert forall u :: u in lr[j] ==> u in ls[j];
    SwapSubset(ls, ks, idx, j, p, Users(sub));
    assert forall u :: u in ls[j] && u.id != p.id ==> u in lr[j];
    assert forall u :: u in Weave(ls, ks) && u.id == p.id ==> u == p;
    SwapKept(ls, ks, idx, j, p, Users(sub), id);
  }

  /** Every user of the weave with key idx := p and run j := y, where y is within run j and p in it, was there. */
  lemma SwapSubset(ls: seq<seq<User>>, ks: seq<User>, idx: int, j: int, p: User, y: seq<User>)
    requires |ls| == |ks| + 1 && 0 <= idx < |ks| && 0 <= j < |ls|
    requires p in ls[j] && forall u :: u in y ==> u in ls[j]
    ensures forall u :: u in Weave(ls[j := y], ks[idx := p]) ==> u in Weave(ls, ks)
  {
    var lr, kr := ls[j := y], ks[idx := p];
    forall u | u in Weave(lr, kr)
      ensures u in Weave(ls, ks)
    {
      WeavedFrom(lr, kr, u);
      if u in kr {
        var q :| 0 <= q < |kr| && kr[q] == u;
        if q == idx {
          WeavedIn(ls, ks, j, u);
        } else {
          KeyWeavedIn(ls, ks, q);
        }
      } else {
        var i :| 0 <= i < |lr| && u in lr[i];
        WeavedIn(ls, ks, i, u);
      }
    }
  }

  /** The same weave keeps every user of another id than key idx's. */
  lemma SwapKept(ls: seq<seq<User>>, ks: seq<User>, idx: int, j: int, p: User, y: seq<User>, id: int)
    requires |ls| == |ks| + 1 && 0 <= idx < |ks| && 0 <= j < |ls| && ks[idx].id == id
    requires forall u :: u in ls[j] && u.id != p.id ==> u in y
    requires forall u :: u in Weave(ls, ks) && u.id == p.id ==> u == p
    ensures forall u :: u in Weave(ls, ks) && u.id != id ==> u in Weave(ls[j := y], ks[idx := p])
  {
    var lr, kr := ls[j := y], ks[idx := p];
    forall u | u in Weave(ls, ks) && u.id != id
      ensures u in Weave(lr, kr)
    {
      WeavedFrom(ls, ks, u);
      if u in ks {
        var q :| 0 <= q < |ks| && ks[q] == u;
        assert q != idx && kr[q] == u;
        KeyWeavedIn(lr, kr, q);
      } else {
        var i :| 0 <= i < |ls| && u in ls[i];
        if i == j && u.id == p.id {
          assert kr[idx] == u;
          KeyWeavedIn(lr, kr, idx);
        } else {
          WeavedIn(lr, kr, i, u);
        }
      }
    }
  }

  // ---------------------------------------------------------------------------
  // The descent as written

  /** After `borrowFromPrev` from a donor of two keys or more, the donor still holds a key in every node. */
  lemma InhabitedDonor(n: Node, idx: int, h: nat)
    requires Level(n, h) && !n.leaf && 0 < idx <= |n.keys| && Deletable(n)
    requires |n.children[idx - 1].keys| >= 2
    ensures Inhabited(BorrowFromPrev(n, idx, h).children[idx - 1])
  {
    var s := n.children[idx - 1];
    assert Inhabited(s);
    var d := BorrowFromPrev(n, idx, h).children[idx - 1];
    assert d.keys == s.keys[..|s.keys| - 1];
    forall i | 0 <= i < |d.children|
      ensures Inhabited(d.children[i])
    {
      assert d.children[i] == s.children[i];
    }
  }

  /** The subtree `delete` descends into after `fill`, with the comparison as written. */
  function WrittenTarget(n: Node, idx: int, m: Node): int {
    if idx == |n.keys| && idx >= |m.keys| then idx - 1 else idx
  }

  /** After a miss and `fill`, the subtree line 60 picks is deletable and strictly ordered. */
  lemma MissChild(t: int, n: Node, id: int, h: nat) returns (m: Node, j: int)
    requires Level(n, h) && Shaped(n) && StrictlyOrdered(Users(n)) && Deletable(n) && !n.leaf
    requires var p := Locate(n.keys, id).value; !(p < |n.keys| && n.keys[p].id == id)
    ensures var p := Locate(n.keys, id).value;
      (|n.children[p].keys| < t ==> Fill(t, n, p, h).Ok?) &&
      m == (if |n.children[p].keys| < t then Fill(t, n, p, h).value else n) && j == WrittenTarget(n, p, m)
    ensures Level(m, h) && Shaped(m) && !m.leaf && 0 <= j < |m.children| && Users(m) == Users(n)
    ensures Level(m.children[j], h - 1) && Shaped(m.children[j]) && Deletable(m.children[j])
    ensures StrictlyOrdered(Users(m.children[j]))
  {
    var p := Locate(n.keys, id).value;
    m := Filling(t, n, p, h);
    j := WrittenTarget(n, p, m);
    if j != Target(n, p, m) {
      MisroutedInhabited(t, n, p, h, m);
    }
    assert Inhabited(m.children[j]) && Level(m.children[j], h - 1);
    LevelShaped(m.children[j], h - 1);
    StrictRun(ChildUsers(m.children), m.keys, j);
  }

  /** `fill` when child idx holds fewer than t keys: it succeeds and leaves what the textbook descent needs. */
  lemma Filling(t: int, n: Node, idx: int, h: nat) returns (m: Node)
    requires Level(n, h) && Shaped(n) && Deletable(n) && !n.leaf && 0 <= idx <= |n.keys|
    ensures |n.children[idx].keys| < t ==> Fill(t, n, idx, h).Ok?
    ensures m == (if |n.children[idx].keys| < t then Fill(t, n, idx, h).value else n)
    ensures Filled(n, idx, m) && Level(m, h)
  {
    if |n.children[idx].keys| < t {
      FillStep(t, n, idx, h);
    } else {
      assert Inhabited(n.children[idx]);
    }
    m := if |n.children[idx].keys| < t then Fill(t, n, idx, h).value else n;
  }

  /**
   * When line 60 as written picks another subtree than the textbook comparison, no
   * merge happened, so subtree idx-1 is the untouched left neighbour or the donor of
   * `borrowFromPrev`: either way it holds a key in every node.
   */
  lemma MisroutedInhabited(t: int, n: Node, idx: int, h: nat, m: Node)
    requires Level(n, h) && Shaped(n) && Deletable(n) && !n.leaf && 0 <= idx <= |n.keys|
    requires |n.children[idx].keys| < t ==> Fill(t, n, idx, h).Ok?
    requires m == (if |n.children[idx].keys| < t then Fill(t, n, idx, h).value else n)
    requires WrittenTarget(n, idx, m) != Target(n, idx, m)
    ensures 0 < idx < |m.children| && Inhabited(m.children[idx - 1])
  {
    assert Inhabited(n.children[idx]);
    if |n.children[idx].keys| < t {
      assert idx != 0 && |n.children[idx - 1].keys| >= t;
      InhabitedDonor(n, idx, h);
    } else {
      assert Inhabited(n.children[idx - 1]);
    }
  }

  /** After a miss, `delete` as written is the descent into subtree j of the filled node m. */
  lemma MissDescent(t: int, n: Node, id: int, h: nat, m: Node, j: int)
    requires Level(n, h) && !n.leaf
    requires var p := Locate(n.keys, id).value; !(p < |n.keys| && n.keys[p].id == id)
    requires var p := Locate(n.keys, id).value;
      (|n.children[p].keys| < t ==> Fill(t, n, p, h).Ok?) &&
      m == (if |n.children[p].keys| < t then Fill(t, n, p, h).value else n) && j == WrittenTarget(n, p, m)
    requires Level(m, h) && 0 <= j < |m.children|
    ensures DeleteNode(t, n, id, false, h) ==
      Descended(m, j, DeleteNode(t, m.children[j], id, false, h - 1), Locate(n.keys, id).probes)
  {
  }

  // ---------------------------------------------------------------------------
  // `delete` and `deleteFromInternalNode` as written

  /** `delete(node, id)` as written succeeds, keeps every user of another id, and adds none. */
  lemma {:induction false} DeleteKeepsOthers(t: int, n: Node, id: int, h: nat)
    requires Level(n, h) && Shaped(n) && StrictlyOrdered(Users(n)) && Deletable(n)
    ensures DeleteNode(t, n, id, false, h).Ok?
    ensures Shaped(DeleteNode(t, n, id, false, h).value.value)
    ensures KeepsOthers(n, id, DeleteNode(t, n, id, false, h).value.value)
    decreases h, 2
  {
    var p := Locate(n.keys, id).value;
    if n.leaf {
      LeafKeepsOthers(t, n, id, h);
    } else if p < |n.keys| && n.keys[p].id == id {
      DeleteFromInternalKeepsOthers(t, n, p, h);
    } else {
      MissKeepsOthers(t, n, id, h);
    }
  }

  /** At a leaf the comparison plays no part: the key with the id goes when `binarySearch` finds it. */
  lemma LeafKeepsOthers(t: int, n: Node, id: int, h: nat)
    requires Level(n, h) && n.leaf
    ensures DeleteNode(t, n, id, false, h).Ok?
    ensures Shaped(DeleteNode(t, n, id, false, h).value.value)
    ensures KeepsOthers(n, id, DeleteNode(t, n, id, false, h).value.value)
  {
    var p := Locate(n.keys, id).value;
    if p < |n.keys| && n.keys[p].id == id {
      var r := n.keys[..p] + n.keys[p + 1..];
      assert DeleteNode(t, n, id, false, h).value.value == n.(keys := r);
      forall u | u in r
        ensures u in n.keys
      {
        var q :| 0 <= q < |r| && r[q] == u;
        if q < p {
          assert n.keys[q] == u;
        } else {
          assert n.keys[q + 1] == u;
        }
      }
      forall u | u in n.keys && u.id != id
        ensures u in r
      {
        var q :| 0 <= q < |n.keys| && n.keys[q] == u;
        if q < p {
          assert r[q] == u;
        } else {
          assert r[q - 1] == u;
        }
      }
    }
  }

  /** A miss in an inner node: `fill` if needed, then delete in the subtree line 60 picks. */
  lemma {:induction false} MissKeepsOthers(t: int, n: Node, id: int, h: nat)
    requires Level(n, h) && Shaped(n) && StrictlyOrdered(Users(n)) && Deletable(n) && !n.leaf
    requires var p := Locate(n.keys, id).value; !(p < |n.keys| && n.keys[p].id == id)
    ensures DeleteNode(t, n, id, false, h).Ok?
    ensures Shaped(DeleteNode(t, n, id, false, h).value.value)
    ensures KeepsOthers(n, id, DeleteNode(t, n, id, false, h).value.value)
    decreases h, 1
  {
    var m, j := MissChild(t, n, id, h);
    var c := m.children[j];
    DeleteKeepsOthers(t, c, id, h - 1);
    var x := DeleteNode(t, c, id, false, h - 1).value.value;
    MissDescent(t, n, id, h, m, j);
    ReplaceKeepsOthers(m, j, id, x);
  }

  /** `deleteFromInternalNode(node, idx)` as written succeeds, keeps every user of another id than key idx's, and adds none. */
  lemma {:induction false} DeleteFromInternalKeepsOthers(t: int, n: Node, idx: int, h: nat)
    requires Level(n, h) && Shaped(n) && !n.leaf && 0 <= idx < |n.keys|
    requires StrictlyOrdered(Users(n)) && Deletable(n)
    ensures DeleteFromInternal(t, n, idx, false, h).Ok?
    ensures Shaped(DeleteFromInternal(t, n, idx, false, h).value.value)
    ensures KeepsOthers(n, n.keys[idx].id, DeleteFromInternal(t, n, idx, false, h).value.value)
    decreases h, 1
  {
    if |n.children[idx].keys| >= t {
      PredecessorKeepsOthers(t, n, idx, h);
    } else if |n.children[idx + 1].keys| >= t {
      SuccessorKeepsOthers(t, n, idx, h);
    } else {
      MergeKeepsOthers(t, n, idx, h);
    }
  }

  /** Subtree j of a deletable, strictly ordered node is deletable and strictly ordered. */
  lemma ChildDeletable(n: Node, j: int, h: nat)
    requires Level(n, h) && Shaped(n) && !n.leaf && 0 <= j < |n.children|
    requires StrictlyOrdered(Users(n)) && Deletable(n)
    ensures Level(n.children[j], h - 1) && Shaped(n.children[j]) && Deletable(n.children[j])
    ensures StrictlyOrdered(Users(n.children[j]))
  {
    assert Inhabited(n.children[j]) && Level(n.children[j], h - 1);
    StrictRun(ChildUsers(n.children), n.keys, j);
  }

  /** Key idx replaced by its predecessor, whose delete from child idx may be misrouted. */
  lemma {:induction false} PredecessorKeepsOthers(t: int, n: Node, idx: int, h: nat)
    requires Level(n, h) && Shaped(n) && !n.leaf && 0 <= idx < |n.keys|
    requires StrictlyOrdered(Users(n)) && Deletable(n) && |n.children[idx].keys| >= t
    ensures DeleteFromInternal(t, n, idx, false, h).Ok?
    ensures Shaped(DeleteFromInternal(t, n, idx, false, h).value.value)
    ensures KeepsOthers(n, n.keys[idx].id, DeleteFromInternal(t, n, idx, false, h).value.value)
    decreases h, 0
  {
    var c := n.children[idx];
    ChildDeletable(n, idx, h);
    RightmostLast(c);
    var pred := Rightmost(c).value;
    DeleteKeepsOthers(t, c, pred.id, h - 1);
    PredecessorOutcome(t, n, idx, h, pred);
  }

  /** Once the predecessor's delete keeps the other users of child idx, so does `deleteFromInternalNode`. */
  lemma PredecessorOutcome(t: int, n: Node, idx: int, h: nat, pred: User)
    requires Level(n, h) && Shaped(n) && !n.leaf && 0 <= idx < |n.keys| && StrictlyOrdered(Users(n))
    requires |n.children[idx].keys| >= t
    requires Level(n.children[idx], h - 1) && Shaped(n.children[idx]) && Rightmost(n.children[idx]) == Some(pred)
    requires DeleteNode(t, n.children[idx], pred.id, false, h - 1).Ok?
    requires Shaped(DeleteNode(t, n.children[idx], pred.id, false, h - 1).value.value)
    requires KeepsOthers(n.children[idx], pred.id, DeleteNode(t, n.children[idx], pred.id, false, h - 1).value.value)
    ensures DeleteFromInternal(t, n, idx, false, h).Ok?
    ensures Shaped(DeleteFromInternal(t, n, idx, false, h).value.value)
    ensures KeepsOthers(n, n.keys[idx].id, DeleteFromInternal(t, n, idx, false, h).value.value)
  {
    var sub := DeleteNode(t, n.children[idx], pred.id, false, h - 1).value.value;
    WrittenPredecessorStep(t, n, idx, h, pred);
    JoinKeepsOthers(n, idx, idx, pred, sub);
  }

  /** Key idx replaced by its successor, whose delete from child idx+1 may be misrouted. */
  lemma {:induction false} SuccessorKeepsOthers(t: int, n: Node, idx: int, h: nat)
    requires Level(n, h) && Shaped(n) && !n.leaf && 0 <= idx < |n.keys|
    requires StrictlyOrdered(Users(n)) && Deletable(n)
    requires |n.children[idx].keys| < t <= |n.children[idx + 1].keys|
    ensures DeleteFromInternal(t, n, idx, false, h).Ok?
    ensures Shaped(DeleteFromInternal(t, n, idx, false, h).value.value)
    ensures KeepsOthers(n, n.keys[idx].id, DeleteFromInternal(t, n, idx, false, h).value.value)
    decreases h, 0
  {
    var c := n.children[idx + 1];
    ChildDeletable(n, idx + 1, h);
    LeftmostFirst(c);
    var succ := Leftmost(c).value;
    DeleteKeepsOthers(t, c, succ.id, h - 1);
    SuccessorOutcome(t, n, idx, h, succ);
  }

  /** Once the successor's delete keeps the other users of child idx+1, so does `deleteFromInternalNode`. */
  lemma SuccessorOutcome(t: int, n: Node, idx: int, h: nat, succ: User)
    requires Level(n, h) && Shaped(n) && !n.leaf && 0 <= idx < |n.keys| && StrictlyOrdered(Users(n))
    requires |n.children[idx].keys| < t <= |n.children[idx + 1].keys|
    requires Level(n.children[idx + 1], h - 1) && Shaped(n.children[idx + 1]) && Leftmost(n.children[idx + 1]) == Some(succ)
    requires DeleteNode(t, n.children[idx + 1], succ.id, false, h - 1).Ok?
    requires Shaped(DeleteNode(t, n.children[idx + 1], succ.id, false, h - 1).value.value)
    requires KeepsOthers(n.children[idx + 1], succ.id, DeleteNode(t, n.children[idx + 1], succ.id, false, h - 1).value.value)
    ensures DeleteFromInternal(t, n, idx, false, h).Ok?
    ensures Shaped(DeleteFromInternal(t, n, idx, false, h).value.value)
    ensures KeepsOthers(n, n.keys[idx].id, DeleteFromInternal(t, n, idx, false, h).value.value)
  {
    var sub := DeleteNode(t, n.children[idx + 1], succ.id, false, h - 1).value.value;
    WrittenSuccessorStep(t, n, idx, h, succ);
    JoinKeepsOthers(n, idx, idx + 1, succ, sub);
  }

  /** With a predecessor whose delete succeeds, `deleteFromInternalNode` as written puts it at idx and the shrunk child at idx. */
  lemma WrittenPredecessorStep(t: int, n: Node, idx: int, h: nat, pred: User)
    requires Level(n, h) && !n.leaf && 0 <= idx < |n.keys| && |n.children[idx].keys| >= t
    requires Level(n.children[idx], h - 1) && Shaped(n.children[idx]) && Rightmost(n.children[idx]) == Some(pred)
    requires DeleteNode(t, n.children[idx], pred.id, false, h - 1).Ok?
    ensures DeleteFromInternal(t, n, idx, false, h).Ok?
    ensures DeleteFromInternal(t, n, idx, false, h).value.value ==
      Node(n.keys[idx := pred], n.children[idx := DeleteNode(t, n.children[idx], pred.id, false, h - 1).value.value], false)
  {
  }

  /** With a successor whose delete succeeds, `deleteFromInternalNode` as written puts it at idx and the shrunk child at idx+1. */
  lemma WrittenSuccessorStep(t: int, n: Node, idx: int, h: nat, succ: User)
    requires Level(n, h) && !n.leaf && 0 <= idx < |n.keys| && |n.children[idx].keys| < t <= |n.children[idx + 1].keys|
    requires Level(n.children[idx + 1], h - 1) && Shaped(n.children[idx + 1]) && Leftmost(n.children[idx + 1]) == Some(succ)
    requires DeleteNode(t, n.children[idx + 1], succ.id, false, h - 1).Ok?
    ensures DeleteFromInternal(t, n, idx, false, h).Ok?
    ensures DeleteFromInternal(t, n, idx, false, h).value.value ==
      Node(n.keys[idx := succ], n.children[idx + 1 := DeleteNode(t, n.children[idx + 1], succ.id, false, h - 1).value.value], false)
  {
  }

  /** Key idx replaced by `p` of subtree j, and subtree j by what deleting `p`'s id from it left. */
  lemma JoinKeepsOthers(n: Node, idx: int, j: int, p: User, sub: Node)
    requires Shaped(n) && !n.leaf && 0 <= idx < |n.keys| && (j == idx || j == idx + 1) && StrictlyOrdered(Users(n))
    requires p in Users(n.children[j]) && Shaped(sub) && KeepsOthers(n.children[j], p.id, sub)
    ensures Shaped(Node(n.keys[idx := p], n.children[j := sub], false))
    ensures KeepsOthers(n, n.keys[idx].id, Node(n.keys[idx := p], n.children[j := sub], false))
  {
    OnlyOfItsId(n, j, p);
    SwapKeepsOthers(n, idx, j, p, sub, n.keys[idx].id);
  }

  /** A user of subtree j is the only user of the strictly ordered node with its id. */
  lemma OnlyOfItsId(n: Node, j: int, p: User)
    requires Shaped(n) && !n.leaf && 0 <= j < |n.children| && StrictlyOrdered(Users(n))
    requires p in Users(n.children[j])
    ensures p in Users(n) && forall u :: u in Users(n) && u.id == p.id ==> u == p
  {
    WeavedIn(ChildUsers(n.children), n.keys, j, p);
    forall u | u in Users(n) && u.id == p.id
      ensures u == p
    {
      StrictUnique(Users(n), u, p);
    }
  }

  /** Children idx and idx+1 merged around key idx, which is then deleted from the merged child. */
  lemma {:induction false} MergeKeepsOthers(t: int, n: Node, idx: int, h: nat)
    requires Level(n, h) && Shaped(n) && !n.leaf && 0 <= idx < |n.keys|
    requires StrictlyOrdered(Users(n)) && Deletable(n)
    requires |n.children[idx].keys| < t && |n.children[idx + 1].keys| < t
    ensures DeleteFromInternal(t, n, idx, false, h).Ok?
    ensures Shaped(DeleteFromInternal(t, n, idx, false, h).value.value)
    ensures KeepsOthers(n, n.keys[idx].id, DeleteFromInternal(t, n, idx, false, h).value.value)
    decreases h, 0
  {
    var m := Merge(n, idx, h);
    MergeSplit(n, idx, h);
    MergeUsers(n, idx, h);
    var c := m.children[idx];
    DeleteKeepsOthers(t, c, n.keys[idx].id, h - 1);
    var sub := DeleteNode(t, c, n.keys[idx].id, false, h - 1).value.value;
    assert DeleteFromInternal(t, n, idx, false, h).value.value == m.(children := m.children[idx := sub]);
    ReplaceKeepsOthers(m, idx, n.keys[idx].id, sub);
  }
}
