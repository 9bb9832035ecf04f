/**
 * `search(node, id)` of ad-3 BTree.java: a `binarySearch` in the node, the key it
 * lands on when that key has the id, otherwise the same search in the subtree at
 * the landing index, and null at a leaf.
 */
module BTreeSearch {
  import opened Wrappers
  import opened BTreeKeys
  import opened BTreeNode

  /** `search(node, id)`, with the probes of every `binarySearch` on the path. */
  function Find(n: Node, id: int): (r: Counted<Option<User>>)
    requires Shaped(n)
    ensures r.value.Some? ==> r.value.value.id == id
    decreases n
  {
    var c := Locate(n.keys, id);
    if c.value < |n.keys| && n.keys[c.value].id == id then Counted(Some(n.keys[c.value]), c.probes)
    else if n.leaf then Counted(None, c.probes)
    else
      var s := Find(n.children[c.value], id);
      Counted(s.value, c.probes + s.probes)
  }

  /** The keys of an ordered in-order list are ordered too. */
  lemma KeysOrdered(ls: seq<seq<User>>, ks: seq<User>)
    requires |ls| == |ks| + 1 && Ordered(Weave(ls, ks))
    ensures Ordered(ks)
  {
    forall i, j | 0 <= i < j < |ks|
      ensures ks[i].id <= ks[j].id
    {
      KeyPairOrdered(ls, ks, i, j);
    }
  }

  /** On an ordered in-order list, separator i comes no later than separator j > i. */
  lemma KeyPairOrdered(ls: seq<seq<User>>, ks: seq<User>, i: int, j: int)
    requires |ls| == |ks| + 1 && Ordered(Weave(ls, ks)) && 0 <= i < j < |ks|
    ensures ks[i].id <= ks[j].id
  {
    WeaveAround(ls, ks, j);
    var b, a := Before(ls, ks, j), After(ls, ks, j);
    OrderedConcat(b, ls[j] + a);
    if i < j - 1 {
      KeyWeavedIn(ls[..j], ks[..j - 1], i);
      assert ks[..j - 1][i] == ks[i];
    }
    assert ks[i] in b;
    assert a[0] == ks[j];
    assert ks[j] in ls[j] + a;
  }

  /** Whatever `search` returns is a stored user with the id asked for. */
  lemma {:induction false} FindSound(n: Node, id: int)
    requires Shaped(n)
    ensures Find(n, id).value.Some? ==> Find(n, id).value.value in Users(n)
    decreases n
  {
    var i := Locate(n.keys, id).value;
    if i < |n.keys| && n.keys[i].id == id {
      if !n.leaf {
        KeyWeavedIn(ChildUsers(n.children), n.keys, i);
      }
    } else if !n.leaf && Find(n, id).value.Some? {
      FindSound(n.children[i], id);
      WeavedIn(ChildUsers(n.children), n.keys, i, Find(n, id).value.value);
    }
  }

  /** On a tree whose in-order list is ordered by id, `search` finds every stored id. */
  lemma {:induction false} FindComplete(n: Node, id: int)
    requires Shaped(n) && Ordered(Users(n))
    requires exists u :: u in Users(n) && u.id == id
    ensures Find(n, id).value.Some?
    decreases n
  {
    var i := Locate(n.keys, id).value;
    if n.leaf {
      LocateOrdered(n.keys, id);
    } else {
      KeysOrdered(ChildUsers(n.children), n.keys);
      LocateOrdered(n.keys, id);
      if !(i < |n.keys| && n.keys[i].id == id) {
        MissedKeyInChild(n, id, i);
        FindComplete(n.children[i], id);
      }
    }
  }

  /**
   * When `binarySearch` on an ordered inner node misses, the stored users with the id
   * all lie in the subtree at the index it returns.
   */
  lemma MissedKeyInChild(n: Node, id: int, i: int)
    requires Shaped(n) && !n.leaf && Ordered(Users(n)) && 0 <= i <= |n.keys|
    requires forall j :: 0 <= j < i ==> n.keys[j].id < id
    requires forall j :: i <= j < |n.keys| ==> id < n.keys[j].id
    requires exists u :: u in Users(n) && u.id == id
    ensures Ordered(Users(n.children[i]))
    ensures exists u :: u in Users(n.children[i]) && u.id == id
  {
    var u :| u in Users(n) && u.id == id;
    var j := RunHolding(n, u);
    RunBounds(ChildUsers(n.children), n.keys, i, j, u);
    OrderedAround(ChildUsers(n.children), n.keys, i);
  }

  /** A stored user that is not a key of an inner node lies in one of its subtrees. */
  lemma RunHolding(n: Node, u: User) returns (j: int)
    requires Shaped(n) && !n.leaf && u in Users(n) && u !in n.keys
    ensures 0 <= j < |n.children| && u in Users(n.children[j])
  {
    WeavedFrom(ChildUsers(n.children), n.keys, u);
    j :| 0 <= j < |n.children| && u in ChildUsers(n.children)[j];
  }

  /** In an ordered weave, a user of run j is at most key i-1 when j < i and at least key i when j > i. */
  lemma RunBounds(ls: seq<seq<User>>, ks: seq<User>, i: int, j: int, u: User)
    requires |ls| == |ks| + 1 && Ordered(Weave(ls, ks)) && 0 <= i < |ls| && 0 <= j < |ls|
    requires u in ls[j]
    ensures j < i ==> u.id <= ks[i - 1].id
    ensures j > i ==> ks[i].id <= u.id
  {
    KeysOrdered(ls, ks);
    OrderedAround(ls, ks, j);
    if j < i {
      assert ks[j].id <= ks[i - 1].id;
    } else if j > i {
      assert ks[i].id <= ks[j - 1].id;
    }
  }

  /**
   * On an ordered tree, `search(id)` returns a user exactly when a stored user has
   * that id, and what it returns is that stored user.
   */
  lemma FindIff(n: Node, id: int)
    requires Shaped(n) && Ordered(Users(n))
    ensures Find(n, id).value.Some? <==> exists u :: u in Users(n) && u.id == id
    ensures Find(n, id).value.Some? ==> Find(n, id).value.value in Users(n)
  {
    FindSound(n, id);
    if exists u :: u in Users(n) && u.id == id {
      FindComplete(n, id);
    }
  }
}
