/**
 * `update(updatedUser)` of ad-3 BTree.java: the user `search` finds takes the
 * email, username and password of the updated user. Users are values here, so the
 * object that the tree may reference from several places becomes every stored user
 * with that id; the tree's shape and every id stay as they were.
 */
module BTreeUpdate {
  import opened Wrappers
  import opened BTreeKeys
  import opened BTreeNode
  import opened BTreeSearch

  /** `s` with every user whose id is that of `u` replaced by `u`. */
  function Replaced(s: seq<User>, u: User): seq<User> {
    seq(|s|, i requires 0 <= i < |s| => if s[i].id == u.id then u else s[i])
  }

  /** The tree with every stored user whose id is that of `u` replaced by `u`. */
  function Rewrite(n: Node, u: User): (r: Node)
    decreases n
  {
    Node(Replaced(n.keys, u),
         seq(|n.children|, i requires 0 <= i < |n.children| => Rewrite(n.children[i], u)),
         n.leaf)
  }

  /** Two trees of the same shape whose keys have the same ids, position by position. */
  predicate Alike(a: Node, b: Node)
    decreases a
  {
    a.leaf == b.leaf && |a.keys| == |b.keys| && |a.children| == |b.children| &&
    (forall i :: 0 <= i < |a.keys| ==> a.keys[i].id == b.keys[i].id) &&
    forall i :: 0 <= i < |a.children| ==> Alike(a.children[i], b.children[i])
  }

  // ---------------------------------------------------------------------------
  // Replaced

  lemma ReplacedConcat(a: seq<User>, b: seq<User>, u: User)
    ensures Replaced(a + b, u) == Replaced(a, u) + Replaced(b, u)
  {
    var l, r := Replaced(a + b, u), Replaced(a, u) + Replaced(b, u);
    forall i | 0 <= i < |l|
      ensures l[i] == r[i]
    {
      if i < |a| {
        assert (a + b)[i] == a[i];
      } else {
        assert (a + b)[i] == b[i - |a|];
      }
    }
  }

  /** Replacing an id that no user of `s` has changes nothing. */
  lemma ReplacedNone(s: seq<User>, u: User)
    requires forall v :: v in s ==> v.id != u.id
    ensures Replaced(s, u) == s
  {
    var r := Replaced(s, u);
    forall i | 0 <= i < |s|
      ensures r[i] == s[i]
    {
      assert s[i] in s;
    }
  }

  /** The runs and the separators replaced one by one weave into the replaced weave. */
  lemma {:induction false} ReplacedWeave(ls: seq<seq<User>>, ks: seq<User>, u: User, rs: seq<seq<User>>)
    requires |ls| == |ks| + 1 && |rs| == |ls|
    requires forall i :: 0 <= i < |ls| ==> rs[i] == Replaced(ls[i], u)
    ensures Weave(rs, Replaced(ks, u)) == Replaced(Weave(ls, ks), u)
    decreases |ks|
  {
    var rk := Replaced(ks, u);
    if ks != [] {
      var ls', ks' := ls[..|ls| - 1], ks[..|ks| - 1];
      ReplacedWeave(ls', ks', u, rs[..|rs| - 1]);
      assert rk[..|rk| - 1] == Replaced(ks', u);
      assert rk[|rk| - 1] == Replaced([ks[|ks| - 1]], u)[0];
      ReplacedConcat(Weave(ls', ks') + [ks[|ks| - 1]], ls[|ls| - 1], u);
      ReplacedConcat(Weave(ls', ks'), [ks[|ks| - 1]], u);
    }
  }

  // ---------------------------------------------------------------------------
  // Rewrite

  /** A rewritten tree has the shape and, position by position, the ids of the original. */
  lemma {:induction false} RewriteAlike(n: Node, u: User)
    ensures Alike(n, Rewrite(n, u))
    decreases n
  {
    var r := Rewrite(n, u);
    forall i | 0 <= i < |n.children|
      ensures Alike(n.children[i], r.children[i])
    {
      RewriteAlike(n.children[i], u);
    }
  }

  /** Trees alike in shape are alike in height. */
  lemma {:induction false} AlikeLevel(a: Node, b: Node, h: nat)
    requires Alike(a, b) && Level(a, h)
    ensures Level(b, h)
    decreases a
  {
    forall i | 0 <= i < |b.children|
      ensures Level(b.children[i], h - 1)
    {
      AlikeLevel(a.children[i], b.children[i], h - 1);
    }
  }

  /** Trees alike in shape are both shaped or both not. */
  lemma {:induction false} AlikeShaped(a: Node, b: Node)
    requires Alike(a, b) && Shaped(a)
    ensures Shaped(b)
    decreases a
  {
    forall i | 0 <= i < |b.children|
      ensures Shaped(b.children[i])
    {
      AlikeShaped(a.children[i], b.children[i]);
    }
  }

  /** The in-order list of a rewritten tree is the in-order list with the users of that id replaced. */
  lemma {:induction false} RewriteUsers(n: Node, u: User)
    requires Shaped(n)
    ensures Shaped(Rewrite(n, u)) && Users(Rewrite(n, u)) == Replaced(Users(n), u)
    decreases n
  {
    var r := Rewrite(n, u);
    RewriteAlike(n, u);
    AlikeShaped(n, r);
    if !n.leaf {
      forall i | 0 <= i < |n.children|
        ensures Users(r.children[i]) == Replaced(Users(n.children[i]), u)
      {
        RewriteUsers(n.children[i], u);
      }
      ReplacedWeave(ChildUsers(n.children), n.keys, u, ChildUsers(r.children));
    }
  }

  /**
   * After the rewrite, `search` for the id takes the same probes and returns the
   * new user exactly where it returned a user before.
   */
  lemma {:induction false} RewriteFind(n: Node, u: User)
    requires Shaped(n)
    ensures Shaped(Rewrite(n, u))
    ensures Find(Rewrite(n, u), u.id).probes == Find(n, u.id).probes
    ensures Find(Rewrite(n, u), u.id).value == if Find(n, u.id).value.Some? then Some(u) else None
    decreases n
  {
    var r := Rewrite(n, u);
    RewriteAlike(n, u);
    AlikeShaped(n, r);
    ProbeSameIds(n.keys, r.keys, u.id, 0, |n.keys| - 1);
    var l := Locate(n.keys, u.id);
    assert Locate(r.keys, u.id) == l;
    var c := l.value;
    if c < |n.keys| && n.keys[c].id == u.id {
      assert r.keys[c] == u;
      assert Find(r, u.id) == Counted(Some(u), l.probes);
    } else if n.leaf {
      assert c < |n.keys| ==> r.keys[c].id == n.keys[c].id;
      assert Find(r, u.id) == Counted(None, l.probes);
    } else {
      RewriteFind(n.children[c], u);
      assert r.children[c] == Rewrite(n.children[c], u);
      RewriteDescends(n, r, u, l);
    }
  }

  /** When neither node holds the id at the probed index, both searches continue in subtree c. */
  lemma RewriteDescends(n: Node, r: Node, u: User, l: Counted<int>)
    requires Shaped(n) && Shaped(r) && !n.leaf && !r.leaf && |r.keys| == |n.keys|
    requires Locate(n.keys, u.id) == l && Locate(r.keys, u.id) == l
    requires !(l.value < |n.keys| && n.keys[l.value].id == u.id)
    requires !(l.value < |r.keys| && r.keys[l.value].id == u.id)
    ensures Find(n, u.id) == Counted(Find(n.children[l.value], u.id).value, l.probes + Find(n.children[l.value], u.id).probes)
    ensures Find(r, u.id) == Counted(Find(r.children[l.value], u.id).value, l.probes + Find(r.children[l.value], u.id).probes)
  {
  }

  /** Replacing users by one with the same id keeps every id in place, and so keeps the order. */
  lemma ReplacedOrdered(s: seq<User>, u: User)
    requires StrictlyOrdered(s)
    ensures StrictlyOrdered(Replaced(s, u))
  {
    var r := Replaced(s, u);
    forall i, j | 0 <= i < j < |r|
      ensures r[i].id < r[j].id
    {
      assert r[i].id == s[i].id && r[j].id == s[j].id;
    }
  }

  /** Every tree is alike itself. */
  lemma {:induction false} AlikeSelf(n: Node)
    ensures Alike(n, n)
    decreases n
  {
    forall i | 0 <= i < |n.children|
      ensures Alike(n.children[i], n.children[i])
    {
      AlikeSelf(n.children[i]);
    }
  }

  /**
   * What `update` keeps and changes: the rewritten tree has the shape, height and
   * ids of the original, its in-order list is the replaced list, a strict order by
   * id survives, and `search` now returns the new user where it found one before.
   */
  lemma RewriteKeeps(n: Node, u: User, h: nat)
    requires Level(n, h) && Shaped(n)
    ensures Alike(n, Rewrite(n, u)) && Level(Rewrite(n, u), h) && Shaped(Rewrite(n, u))
    ensures Users(Rewrite(n, u)) == Replaced(Users(n), u)
    ensures StrictlyOrdered(Users(n)) ==> StrictlyOrdered(Users(Rewrite(n, u)))
    ensures Find(Rewrite(n, u), u.id).value == if Find(n, u.id).value.Some? then Some(u) else None
  {
    RewriteAlike(n, u);
    AlikeLevel(n, Rewrite(n, u), h);
    RewriteUsers(n, u);
    RewriteFind(n, u);
    if StrictlyOrdered(Users(n)) {
      ReplacedOrdered(Users(n), u);
    }
  }
}
