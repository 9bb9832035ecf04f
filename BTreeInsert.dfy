/**
 * Insertion into the user B-tree of ad-3 BTree.java: `splitChild`, which moves the
 * median of a full child (2t-1 keys) up into the parent and its upper half into a
 * new right sibling, and `insertNonFull`, which descends by `binarySearch`, splitting
 * every full child on the way, and puts the user into a leaf.
 */
module BTreeInsert {
  import opened BTreeKeys
  import opened BTreeNode

  /** What stays in a full node that is split: its first t-1 keys and, inside, its first t subtrees. */
  function Lower(t: int, full: Node): (r: Node)
    requires Shaped(full) && |full.keys| == 2 * t - 1
    ensures |r.keys| == t - 1 && r.leaf == full.leaf
  {
    Node(full.keys[..t - 1], if full.leaf then full.children else full.children[..t], full.leaf)
  }

  /** The new right sibling of a split node: its last t-1 keys and, inside, its last t subtrees. */
  function Upper(t: int, full: Node): (r: Node)
    requires Shaped(full) && |full.keys| == 2 * t - 1
    ensures |r.keys| == t - 1 && r.leaf == full.leaf
  {
    Node(full.keys[t..], if full.leaf then [] else full.children[t..], full.leaf)
  }

  /** `splitChild(parent, i)` on a parent whose child i is full. */
  function SplitChild(t: int, p: Node, i: int): (r: Node)
    requires Shaped(p) && !p.leaf && 0 <= i < |p.children| && |p.children[i].keys| == 2 * t - 1
    ensures |r.keys| == |p.keys| + 1 && |r.children| == |p.children| + 1
    ensures r.keys[i] == p.children[i].keys[t - 1]
    ensures |r.children[i].keys| == t - 1 && |r.children[i + 1].keys| == t - 1
    ensures r.leaf == p.leaf && r.children[i].leaf == r.children[i + 1].leaf == p.children[i].leaf
  {
    var full := p.children[i];
    assert Shaped(full);
    Node(p.keys[..i] + [full.keys[t - 1]] + p.keys[i..],
         p.children[..i] + [Lower(t, full), Upper(t, full)] + p.children[i + 1..], p.leaf)
  }

  /** The two halves of a split node and its median, in order, hold the node's users. */
  lemma SplitHalves(t: int, full: Node)
    requires Shaped(full) && |full.keys| == 2 * t - 1
    ensures Shaped(Lower(t, full)) && Shaped(Upper(t, full))
    ensures Users(full) == Users(Lower(t, full)) + [full.keys[t - 1]] + Users(Upper(t, full))
  {
    var ks, cs := full.keys, full.children;
    var lo, up := Lower(t, full), Upper(t, full);
    if full.leaf {
      assert Users(lo) == ks[..t - 1] && Users(up) == ks[t..];
      assert ks == ks[..t - 1] + [ks[t - 1]] + ks[t..];
    } else {
      assert lo.children == cs[..t] && up.children == cs[t..];
      forall i | 0 <= i < |lo.children|
        ensures Shaped(lo.children[i])
      {
        assert lo.children[i] == cs[i];
      }
      forall i | 0 <= i < |up.children|
        ensures Shaped(up.children[i])
      {
        assert up.children[i] == cs[t + i];
      }
      assert Shaped(lo) && Shaped(up);
      WeaveHalves(cs, ks, t);
    }
  }

  /** Subtrees 0 .. t-1 with keys 0 .. t-2, key t-1, and the rest weave into the whole node. */
  lemma WeaveHalves(cs: seq<Node>, ks: seq<User>, t: int)
    requires |cs| == 2 * t && |ks| == 2 * t - 1
    requires forall i :: 0 <= i < |cs| ==> Shaped(cs[i])
    ensures Weave(ChildUsers(cs), ks) ==
      Weave(ChildUsers(cs[..t]), ks[..t - 1]) + [ks[t - 1]] + Weave(ChildUsers(cs[t..]), ks[t..])
  {
    WeaveSplitAt(ChildUsers(cs), ks, t);
    ChildUsersTake(cs, t);
    ChildUsersDrop(cs, t);
  }

  /** Splitting a child keeps the in-order list of the parent. */
  lemma SplitChildUsers(t: int, p: Node, i: int)
    requires Shaped(p) && !p.leaf && 0 <= i < |p.children| && |p.children[i].keys| == 2 * t - 1
    ensures Shaped(SplitChild(t, p, i)) && Users(SplitChild(t, p, i)) == Users(p)
  {
    var full := p.children[i];
    var left, right := Lower(t, full), Upper(t, full);
    SplitHalves(t, full);
    ChildUsersSplice(p.children, i, left, right, SplitChild(t, p, i).children);
    WeaveSplitRun(ChildUsers(p.children), p.keys, i, Users(left), full.keys[t - 1], Users(right));
  }

  /** Splitting a child keeps every leaf at the same depth. */
  lemma SplitChildLevel(t: int, p: Node, i: int, h: nat)
    requires Level(p, h) && Shaped(p) && 0 <= i < |p.children| && |p.children[i].keys| == 2 * t - 1
    ensures Level(SplitChild(t, p, i), h)
  {
    var full := p.children[i];
    var r := SplitChild(t, p, i);
    assert Level(full, h - 1);
    assert Level(r.children[i], h - 1) && Level(r.children[i + 1], h - 1);
  }

  /**
   * `insertNonFull(node, user)`: the node it leaves in place of `node`, and the
   * probes of every `binarySearch` on the way down.
   */
  ghost function InsertNonFull(t: int, n: Node, u: User, h: nat): (r: Counted<Node>)
    requires Level(n, h)
    ensures Level(r.value, h)
    decreases h, 1
  {
    var c := Locate(n.keys, u.id);
    if n.leaf then
      Counted(n.(keys := n.keys[..c.value] + [u] + n.keys[c.value..]), c.probes)
    else
      var sub := Descend(t, n, c.value, u, h);
      Counted(sub.value, c.probes + sub.probes)
  }

  /**
   * The inner-node branch of `insertNonFull` once `binarySearch` has chosen subtree
   * i: split that subtree first when it is full, step right when the user's id is
   * above the median that moved up, and insert into the subtree.
   */
  ghost function Descend(t: int, n: Node, i: int, u: User, h: nat): (r: Counted<Node>)
    requires Level(n, h) && !n.leaf && 0 <= i <= |n.keys|
    ensures Level(r.value, h)
    decreases h, 0
  {
    LevelShaped(n, h);
    if |n.children[i].keys| == 2 * t - 1 then
      SplitChildLevel(t, n, i, h);
      var s := SplitChild(t, n, i);
      var j := if u.id > s.keys[i].id then i + 1 else i;
      var sub := InsertNonFull(t, s.children[j], u, h - 1);
      LevelUpdate(s, h, j, sub.value);
      Counted(s.(children := s.children[j := sub.value]), sub.probes)
    else
      var sub := InsertNonFull(t, n.children[i], u, h - 1);
      LevelUpdate(n, h, i, sub.value);
      Counted(n.(children := n.children[i := sub.value]), sub.probes)
  }

  /** A user whose id is above every stored id ends up last in the in-order list. */
  lemma {:induction false} InsertNonFullAppends(t: int, n: Node, u: User, h: nat)
    requires Level(n, h) && Shaped(n)
    requires forall v :: v in Users(n) ==> v.id < u.id
    ensures Shaped(InsertNonFull(t, n, u, h).value)
    ensures Users(InsertNonFull(t, n, u, h).value) == Users(n) + [u]
    decreases h, 1
  {
    LevelShaped(InsertNonFull(t, n, u, h).value, h);
    if n.leaf {
      LocateAbove(n.keys, u.id);
      assert n.keys[..|n.keys|] == n.keys && n.keys[|n.keys|..] == [];
    } else {
      forall j | 0 <= j < |n.keys|
        ensures n.keys[j].id < u.id
      {
        KeyWeavedIn(ChildUsers(n.children), n.keys, j);
      }
      LocateAbove(n.keys, u.id);
      DescendAppends(t, n, u, h);
    }
  }

  /** Inserting above every id through the last subtree appends to the in-order list. */
  lemma {:induction false} DescendAppends(t: int, n: Node, u: User, h: nat)
    requires Level(n, h) && Shaped(n) && !n.leaf
    requires forall v :: v in Users(n) ==> v.id < u.id
    ensures Shaped(Descend(t, n, |n.keys|, u, h).value)
    ensures Users(Descend(t, n, |n.keys|, u, h).value) == Users(n) + [u]
    decreases h, 0
  {
    var i := |n.keys|;
    var s := n;
    if |n.children[i].keys| == 2 * t - 1 {
      SplitChildUsers(t, n, i);
      SplitChildLevel(t, n, i, h);
      s := SplitChild(t, n, i);
      KeyWeavedIn(ChildUsers(s.children), s.keys, i);
      i := i + 1;
    }
    assert i == |s.keys| && Level(s, h) && Users(s) == Users(n);
    forall v | v in Users(s.children[i])
      ensures v.id < u.id
    {
      WeavedIn(ChildUsers(s.children), s.keys, i, v);
    }
    LevelShaped(s.children[i], h - 1);
    InsertNonFullAppends(t, s.children[i], u, h - 1);
    var sub := InsertNonFull(t, s.children[i], u, h - 1).value;
    assert Descend(t, n, |n.keys|, u, h).value == s.(children := s.children[i := sub]);
    LastChildAppend(s, sub, [u]);
  }

  /** The height of the root after `insert` has prepared it. */
  function GrownHeight(t: int, r: Node, h: nat): nat {
    if |r.keys| == 2 * t - 1 then h + 1 else h
  }

  /** `insert`'s preparation of the root: a full root goes under a new, empty root and is split there. */
  function Grown(t: int, r: Node, ghost h: nat): (g: Node)
    requires Level(r, h)
    ensures Level(g, GrownHeight(t, r, h))
    ensures |r.keys| == 2 * t - 1 ==> |g.keys| == 1 && g.keys[0] == r.keys[t - 1]
  {
    LevelShaped(r, h);
    if |r.keys| == 2 * t - 1 then
      var p := Node([], [r], false);
      assert Level(p, h + 1);
      LevelShaped(p, h + 1);
      SplitChildLevel(t, p, 0, h + 1);
      SplitChild(t, p, 0)
    else r
  }

  /** The grown root holds the same users. */
  lemma GrownUsers(t: int, r: Node, h: nat)
    requires Level(r, h) && Shaped(r)
    ensures Shaped(Grown(t, r, h)) && Users(Grown(t, r, h)) == Users(r)
  {
    if |r.keys| == 2 * t - 1 {
      var p := Node([], [r], false);
      RootAbove(r);
      SplitChildUsers(t, p, 0);
      assert Grown(t, r, h) == SplitChild(t, p, 0);
    }
  }

  /** A new, empty root above `r` holds the users of `r`. */
  lemma RootAbove(r: Node)
    requires Shaped(r)
    ensures Shaped(Node([], [r], false)) && Users(Node([], [r], false)) == Users(r)
  {
    assert ChildUsers([r]) == [Users(r)];
  }

  /** `insert` of a user whose id is above every stored id appends it to the in-order list. */
  lemma InsertAppends(t: int, r: Node, u: User, h: nat)
    requires Level(r, h) && Shaped(r)
    requires forall v :: v in Users(r) ==> v.id < u.id
    ensures var g := GrownHeight(t, r, h);
      Shaped(InsertNonFull(t, Grown(t, r, h), u, g).value) &&
      Users(InsertNonFull(t, Grown(t, r, h), u, g).value) == Users(r) + [u]
  {
    var g := GrownHeight(t, r, h);
    GrownUsers(t, r, h);
    InsertNonFullAppends(t, Grown(t, r, h), u, g);
  }
}
