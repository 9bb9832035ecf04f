/**
 * What `delete(node, id)` of ad-3 BTree.java does to the in-order list of users,
 * with the textbook comparison after `fill` (`fixed`): on a tree whose ids strictly
 * increase in order and whose nodes below the top all hold a key, it succeeds and
 * removes exactly the users with that id.
 */
module BTreeDeleteProof {
  import opened Wrappers
  import opened BTreeKeys
  import opened BTreeNode
  import opened BTreeSearch
  import opened BTreeDelete

  // ---------------------------------------------------------------------------
  // Removing an id from a list of users

  /** `s` without the users whose id is `id`, in order. */
  function Without(s: seq<User>, id: int): (r: seq<User>)
    ensures |r| <= |s|
  {
    if s == [] then [] else (if s[0].id == id then [] else [s[0]]) + Without(s[1..], id)
  }

  /** `Without` keeps exactly the users with another id. */
  lemma {:induction false} WithoutMembers(s: seq<User>, id: int)
    ensures forall u :: u in Without(s, id) <==> u in s && u.id != id
  {
    if s != [] {
      WithoutMembers(s[1..], id);
      assert forall u :: u in s <==> u == s[0] || u in s[1..];
    }
  }

  lemma {:induction false} WithoutConcat(a: seq<User>, b: seq<User>, id: int)
    ensures Without(a + b, id) == Without(a, id) + Without(b, id)
  {
    if a == [] {
      assert a + b == b;
    } else {
      assert (a + b)[0] == a[0] && (a + b)[1..] == a[1..] + b;
      WithoutConcat(a[1..], b, id);
      assert Without(a, id) == (if a[0].id == id then [] else [a[0]]) + Without(a[1..], id);
    }
  }

  lemma {:induction false} WithoutNone(s: seq<User>, id: int)
    requires forall u :: u in s ==> u.id != id
    ensures Without(s, id) == s
  {
    if s != [] {
      assert forall u :: u in s[1..] ==> u in s;
      WithoutNone(s[1..], id);
    }
  }

  /** Every node has at least one key, all the way down. */
  predicate Inhabited(n: Node) {
    |n.keys| > 0 && forall i :: 0 <= i < |n.children| ==> Inhabited(n.children[i])
  }

  // ---------------------------------------------------------------------------
  // Strict order on parts of a list

  /** In a strictly ordered `b + (x + a)`, no user outside `x` shares an id with a user of `x`. */
  lemma Isolated(b: seq<User>, x: seq<User>, a: seq<User>, u: User)
    requires StrictlyOrdered(b + (x + a)) && u in x
    ensures forall v :: v in b ==> v.id != u.id
    ensures forall v :: v in a ==> v.id != u.id
    ensures StrictlyOrdered(x)
  {
    var s := b + (x + a);
    var p :| 0 <= p < |x| && x[p] == u;
    assert s[|b| + p] == u;
    forall v | v in b
      ensures v.id != u.id
    {
      var q :| 0 <= q < |b| && b[q] == v;
      assert s[q] == v;
    }
    forall v | v in a
      ensures v.id != u.id
    {
      var q :| 0 <= q < |a| && a[q] == v;
      assert s[|b| + |x| + q] == v;
    }
    forall i, j | 0 <= i < j < |x|
      ensures x[i].id < x[j].id
    {
      assert s[|b| + i] == x[i] && s[|b| + j] == x[j];
    }
  }

  /** A strictly ordered weave has strictly ordered runs. */
  lemma StrictRun(ls: seq<seq<User>>, ks: seq<User>, j: int)
    requires |ls| == |ks| + 1 && 0 <= j < |ls| && StrictlyOrdered(Weave(ls, ks))
    ensures StrictlyOrdered(ls[j])
  {
    WeaveAround(ls, ks, j);
    StrictMiddle(Before(ls, ks, j), ls[j], After(ls, ks, j));
  }

  /** The middle part of a strictly ordered list is strictly ordered. */
  lemma StrictMiddle(b: seq<User>, x: seq<User>, a: seq<User>)
    requires StrictlyOrdered(b + (x + a))
    ensures StrictlyOrdered(x)
  {
    var s := b + (x + a);
    forall p, q | 0 <= p < q < |x|
      ensures x[p].id < x[q].id
    {
      assert s[|b| + p] == x[p] && s[|b| + q] == x[q];
    }
  }

  // ---------------------------------------------------------------------------
  // Joining two runs around their separator

  /** The runs with runs j and j+1 joined around separator j, as `merge` joins two children. */
  function MergeRuns(ls: seq<seq<User>>, ks: seq<User>, j: int): (r: seq<seq<User>>)
    requires |ls| == |ks| + 1 && 0 <= j < |ks|
    ensures |r| == |ls| - 1 && r[j] == ls[j] + [ks[j]] + ls[j + 1]
    ensures forall i :: 0 <= i < j ==> r[i] == ls[i]
    ensures forall i :: j < i < |r| ==> r[i] == ls[i + 1]
  {
    ls[..j] + [ls[j] + [ks[j]] + ls[j + 1]] + ls[j + 2..]
  }

  /** The separators without separator j. */
  function DropKey(ks: seq<User>, j: int): (r: seq<User>)
    requires 0 <= j < |ks|
    ensures |r| == |ks| - 1
    ensures forall i :: 0 <= i < j ==> r[i] == ks[i]
    ensures forall i :: j <= i < |r| ==> r[i] == ks[i + 1]
  {
    ks[..j] + ks[j + 1..]
  }

  /** Joining two runs around their separator leaves the weave unchanged. */
  lemma WeaveMerge(ls: seq<seq<User>>, ks: seq<User>, j: int)
    requires |ls| == |ks| + 1 && 0 <= j < |ks|
    ensures Weave(MergeRuns(ls, ks, j), DropKey(ks, j)) == Weave(ls, ks)
  {
    var l, k := MergeRuns(ls, ks, j), DropKey(ks, j);
    assert Spliced(l, j, ls[j], ls[j + 1], ls);
    SplicedIff(l, j, ls[j], ls[j + 1], ls);
    assert k[..j] + [ks[j]] + k[j..] == ks by {
      assert k[..j] == ks[..j] && k[j..] == ks[j + 1..];
      assert ks == ks[..j] + [ks[j]] + ks[j + 1..];
    }
    WeaveSplitRun(l, k, j, ls[j], ks[j], ls[j + 1]);
  }

  /** Any runs and separators that join into `l` and `k` at j weave like them. */
  lemma WeaveRejoin(ls: seq<seq<User>>, ks: seq<User>, j: int, l: seq<seq<User>>, k: seq<User>)
    requires |ls| == |ks| + 1 && 0 <= j < |ks| && |l| == |ls| - 1 && k == DropKey(ks, j)
    requires l[j] == ls[j] + [ks[j]] + ls[j + 1]
    requires forall i :: 0 <= i < j ==> l[i] == ls[i]
    requires forall i :: j < i < |l| ==> l[i] == ls[i + 1]
    ensures Weave(ls, ks) == Weave(l, k)
  {
    var m := MergeRuns(ls, ks, j);
    assert forall i :: 0 <= i < |l| ==> l[i] == m[i];
    assert l == m;
    WeaveMerge(ls, ks, j);
  }

  /** Replacing run j by another: the weave around it stays. */
  lemma WeaveUpdate(ls: seq<seq<User>>, ks: seq<User>, j: int, y: seq<User>)
    requires |ls| == |ks| + 1 && 0 <= j < |ls|
    ensures Weave(ls[j := y], ks) == Before(ls, ks, j) + (y + After(ls, ks, j))
  {
    var ls' := ls[j := y];
    WeaveAround(ls', ks, j);
    if j > 0 {
      assert ls'[..j] == ls[..j];
    }
    if j < |ks| {
      assert ls'[j + 1..] == ls[j + 1..];
    }
  }

  /** When no user outside run j has the id, removing it from the weave removes it from run j. */
  lemma WithoutRun(ls: seq<seq<User>>, ks: seq<User>, j: int, id: int)
    requires |ls| == |ks| + 1 && 0 <= j < |ls|
    requires forall u :: u in Before(ls, ks, j) ==> u.id != id
    requires forall u :: u in After(ls, ks, j) ==> u.id != id
    ensures Weave(ls[j := Without(ls[j], id)], ks) == Without(Weave(ls, ks), id)
  {
    var b, a := Before(ls, ks, j), After(ls, ks, j);
    WeaveUpdate(ls, ks, j, Without(ls[j], id));
    WeaveAround(ls, ks, j);
    WithoutConcat(b, ls[j] + a, id);
    WithoutConcat(ls[j], a, id);
    WithoutNone(b, id);
    WithoutNone(a, id);
  }

  // ---------------------------------------------------------------------------
  // `merge`, `borrowFromPrev` and `borrowFromNext` keep the in-order list

  /** The merged child holds the users of both children around the separator. */
  lemma MergedUsers(c: Node, k: User, s: Node, h: nat)
    requires Level(c, h) && Level(s, h)
    ensures Shaped(c) && Shaped(s)
    ensures Shaped(Node(c.keys + [k] + s.keys, if c.leaf then c.children else c.children + s.children, c.leaf))
    ensures Users(Node(c.keys + [k] + s.keys, if c.leaf then c.children else c.children + s.children, c.leaf))
      == Users(c) + [k] + Users(s)
  {
    MergedLevel(c, k, s, h);
    LevelShaped(c, h);
    LevelShaped(s, h);
    var m := Node(c.keys + [k] + s.keys, if c.leaf then c.children else c.children + s.children, c.leaf);
    LevelShaped(m, h);
    if !c.leaf {
      ChildUsersConcat(c.children, s.children, m.children);
      WeaveConcat(ChildUsers(c.children), c.keys, k, ChildUsers(s.children), s.keys);
    }
  }

  /** `merge(node, i)` joins runs i and i+1 of the node around separator i and keeps its users. */
  lemma MergeUsers(n: Node, i: int, h: nat)
    requires Level(n, h) && Shaped(n) && !n.leaf && 0 <= i < |n.keys|
    ensures Shaped(Merge(n, i, h))
    ensures ChildUsers(Merge(n, i, h).children) == MergeRuns(ChildUsers(n.children), n.keys, i)
    ensures Merge(n, i, h).keys == DropKey(n.keys, i)
    ensures Users(Merge(n, i, h)) == Users(n)
  {
    var r := Merge(n, i, h);
    LevelShaped(r, h);
    MergedUsers(n.children[i], n.keys[i], n.children[i + 1], h - 1);
    JoinedUsers(n.children, i, r.children[i], r.children);
    var ls := ChildUsers(n.children);
    RunsMerged(ls, n.keys, i, ChildUsers(r.children));
    assert r.keys == DropKey(n.keys, i);
    WeaveMerge(ls, n.keys, i);
  }

  /** Runs that agree with MergeRuns position by position are MergeRuns. */
  lemma RunsMerged(ls: seq<seq<User>>, ks: seq<User>, j: int, l: seq<seq<User>>)
    requires |ls| == |ks| + 1 && 0 <= j < |ks|
    requires |l| == |ls| - 1 && l[j] == ls[j] + [ks[j]] + ls[j + 1]
    requires forall k :: 0 <= k < j ==> l[k] == ls[k]
    requires forall k :: j < k < |l| ==> l[k] == ls[k + 1]
    ensures l == MergeRuns(ls, ks, j)
  {
    var m := MergeRuns(ls, ks, j);
    forall k | 0 <= k < |l|
      ensures l[k] == m[k]
    {
      if k < j {
      } else if k > j {
      }
    }
  }

  /** The users of the subtrees after `merge`: those of the others, and the merged one's at i. */
  lemma JoinedUsers(cs: seq<Node>, i: int, m: Node, ds: seq<Node>)
    requires forall k :: 0 <= k < |cs| ==> Shaped(cs[k])
    requires forall k :: 0 <= k < |ds| ==> Shaped(ds[k])
    requires 0 <= i < |cs| - 1 && ds == Joined(cs, i, m)
    ensures |ChildUsers(ds)| == |cs| - 1 && ChildUsers(ds)[i] == Users(m)
    ensures forall k :: 0 <= k < i ==> ChildUsers(ds)[k] == ChildUsers(cs)[k]
    ensures forall k :: i < k < |ds| ==> ChildUsers(ds)[k] == ChildUsers(cs)[k + 1]
  {
    var l, ls := ChildUsers(ds), ChildUsers(cs);
    forall k | 0 <= k < i
      ensures l[k] == ls[k]
    {
      assert l[k] == Users(ds[k]) && ds[k] == cs[k];
    }
    forall k | i < k < |ds|
      ensures l[k] == ls[k + 1]
    {
      assert l[k] == Users(ds[k]) && ds[k] == cs[k + 1];
    }
  }

  /** The child `borrowFromPrev` fills, inside: the moved subtree, the separator, then its own users. */
  lemma PrevRecipientUsers(c: Node, g: Node, k: User, h: nat)
    requires Level(c, h) && !c.leaf && Level(g, h - 1) && Shaped(c) && Shaped(g)
    ensures Shaped(Node([k] + c.keys, [g] + c.children, false))
    ensures Users(Node([k] + c.keys, [g] + c.children, false)) == Users(g) + [k] + Users(c)
  {
    var c' := Node([k] + c.keys, [g] + c.children, false);
    LevelShaped(c, h);
    LevelShaped(g, h - 1);
    ChildUsersPairless(g);
    ChildUsersConcat([g], c.children, c'.children);
    assert c'.keys == [] + [k] + c.keys;
    WeaveConcat([Users(g)], [], k, ChildUsers(c.children), c.keys);
  }

  /** The child `borrowFromPrev` takes from, inside: what it keeps, its last key, its last subtree. */
  lemma PrevDonorUsers(s: Node, h: nat)
    requires Level(s, h) && !s.leaf && |s.keys| > 0
    ensures Shaped(s) && Shaped(Node(s.keys[..|s.keys| - 1], s.children[..|s.keys|], false))
    ensures Users(s) == Users(Node(s.keys[..|s.keys| - 1], s.children[..|s.keys|], false))
      + [s.keys[|s.keys| - 1]] + Users(s.children[|s.keys|])
  {
    LevelShaped(s, h);
    var p := |s.keys|;
    var g := s.children[p];
    ChildUsersTake(s.children, p);
    ChildUsersDrop(s.children, p);
    ChildUsersPairless(g);
    var ls := ChildUsers(s.children);
    assert ls[p..] == [Users(g)] by {
      assert s.children[p..] == [g];
    }
    assert ls == ls[..p] + ls[p..];
    assert s.keys == s.keys[..p - 1] + [s.keys[p - 1]] + [];
    WeaveConcat(ls[..p], s.keys[..p - 1], s.keys[p - 1], ls[p..], []);
  }

  /** The child `borrowFromNext` fills, inside: its own users, the separator, then the moved subtree. */
  lemma NextRecipientUsers(c: Node, g: Node, k: User, h: nat)
    requires Level(c, h) && !c.leaf && Level(g, h - 1) && Shaped(c) && Shaped(g)
    ensures Shaped(Node(c.keys + [k], c.children + [g], false))
    ensures Users(Node(c.keys + [k], c.children + [g], false)) == Users(c) + [k] + Users(g)
  {
    var c' := Node(c.keys + [k], c.children + [g], false);
    LevelShaped(c, h);
    LevelShaped(g, h - 1);
    ChildUsersPairless(g);
    ChildUsersConcat(c.children, [g], c'.children);
    assert c'.keys == c.keys + [k] + [];
    WeaveConcat(ChildUsers(c.children), c.keys, k, [Users(g)], []);
  }

  /** The child `borrowFromNext` takes from, inside: its first subtree, its first key, what it keeps. */
  lemma NextDonorUsers(s: Node, h: nat)
    requires Level(s, h) && !s.leaf && |s.keys| > 0
    ensures Shaped(s) && Shaped(Node(s.keys[1..], s.children[1..], false))
    ensures Users(s) == Users(s.children[0]) + [s.keys[0]] + Users(Node(s.keys[1..], s.children[1..], false))
  {
    LevelShaped(s, h);
    var g := s.children[0];
    ChildUsersTake(s.children, 1);
    ChildUsersDrop(s.children, 1);
    ChildUsersPairless(g);
    var ls := ChildUsers(s.children);
    assert ls[..1] == [Users(g)] by {
      assert s.children[..1] == [g];
    }
    assert ls == ls[..1] + ls[1..];
    assert s.keys == [] + [s.keys[0]] + s.keys[1..];
    WeaveConcat(ls[..1], [], s.keys[0], ls[1..], s.keys[1..]);
  }

  /** Moving keys between two neighbouring runs through their separator leaves the weave unchanged. */
  lemma WeaveRotate(ls: seq<seq<User>>, ks: seq<User>, j: int, x: seq<User>, m: User, y: seq<User>)
    requires |ls| == |ks| + 1 && 0 <= j < |ks| && x + [m] + y == ls[j] + [ks[j]] + ls[j + 1]
    ensures Weave(ls[j := x][j + 1 := y], ks[j := m]) == Weave(ls, ks)
  {
    assert DropKey(ks[j := m], j) == DropKey(ks, j);
    WeaveRejoin(ls[j := x][j + 1 := y], ks[j := m], j, MergeRuns(ls, ks, j), DropKey(ks, j));
    WeaveMerge(ls, ks, j);
  }

  /** A run moving across a key sits between the same neighbours. */
  lemma Shift(x: seq<User>, m: User, g: seq<User>, k: User, y: seq<User>)
    ensures x + [m] + (g + [k] + y) == (x + [m] + g) + [k] + y
  {
  }

  /** The last of `x` moving up past `k`: the list around the two keys stays the same. */
  lemma ShiftLast(x: seq<User>, k: User, y: seq<User>)
    requires |x| > 0
    ensures x[..|x| - 1] + [x[|x| - 1]] + ([k] + y) == x + [k] + y
  {
    assert x[..|x| - 1] + [x[|x| - 1]] == x;
  }

  /** The first of `y` moving up past `k`: the list around the two keys stays the same. */
  lemma ShiftFirst(x: seq<User>, k: User, y: seq<User>)
    requires |y| > 0
    ensures (x + [k]) + [y[0]] + y[1..] == x + [k] + y
  {
    assert [y[0]] + y[1..] == y;
  }

  /** The two children `borrowFromPrev` leaves hold, around the key moved up, what the two held around separator idx-1. */
  lemma PrevPieces(c: Node, s: Node, k: User, h: nat, c2: Node, s2: Node)
    requires Level(c, h) && Level(s, h) && |s.keys| > 0
    requires c2 == Node([k] + c.keys, if c.leaf then c.children else [s.children[|s.keys|]] + c.children, c.leaf)
    requires s2 == Node(s.keys[..|s.keys| - 1], if c.leaf then s.children else s.children[..|s.keys|], s.leaf)
    ensures Shaped(c) && Shaped(s) && Shaped(c2) && Shaped(s2)
    ensures Users(s2) + [s.keys[|s.keys| - 1]] + Users(c2) == Users(s) + [k] + Users(c)
    ensures forall u :: u in Users(c) ==> u in Users(c2)
  {
    LevelShaped(c, h);
    LevelShaped(s, h);
    PrevPartsLevel(c, s, k, h);
    LevelShaped(c2, h);
    LevelShaped(s2, h);
    if c.leaf {
      ShiftLast(s.keys, k, c.keys);
    } else {
      PrevInnerPieces(c, s, k, h, c2, s2);
    }
  }

  /** `PrevPieces` for inner children: a subtree moves with the key. */
  lemma PrevInnerPieces(c: Node, s: Node, k: User, h: nat, c2: Node, s2: Node)
    requires Level(c, h) && Level(s, h) && |s.keys| > 0 && !c.leaf && Shaped(c) && Shaped(s)
    requires c2 == Node([k] + c.keys, [s.children[|s.keys|]] + c.children, false)
    requires s2 == Node(s.keys[..|s.keys| - 1], s.children[..|s.keys|], false)
    ensures Users(s2) + [s.keys[|s.keys| - 1]] + Users(c2) == Users(s) + [k] + Users(c)
    ensures forall u :: u in Users(c) ==> u in Users(c2)
  {
    var g := s.children[|s.keys|];
    assert Level(g, h - 1) && Shaped(g);
    PrevRecipientUsers(c, g, k, h);
    PrevDonorUsers(s, h);
    Shift(Users(s2), s.keys[|s.keys| - 1], Users(g), k, Users(c));
  }

  /** The two children `borrowFromNext` leaves hold, around the key moved up, what the two held around separator idx. */
  lemma NextPieces(c: Node, s: Node, k: User, h: nat, c2: Node, s2: Node)
    requires Level(c, h) && Level(s, h) && |s.keys| > 0
    requires c2 == Node(c.keys + [k], if c.leaf then c.children else c.children + [s.children[0]], c.leaf)
    requires s2 == Node(s.keys[1..], if c.leaf then s.children else s.children[1..], s.leaf)
    ensures Shaped(c) && Shaped(s) && Shaped(c2) && Shaped(s2)
    ensures Users(c2) + [s.keys[0]] + Users(s2) == Users(c) + [k] + Users(s)
    ensures forall u :: u in Users(c) ==> u in Users(c2)
  {
    LevelShaped(c, h);
    LevelShaped(s, h);
    NextPartsLevel(c, s, k, h);
    LevelShaped(c2, h);
    LevelShaped(s2, h);
    if c.leaf {
      ShiftFirst(c.keys, k, s.keys);
    } else {
      NextInnerPieces(c, s, k, h, c2, s2);
    }
  }

  /** `NextPieces` for inner children: a subtree moves with the key. */
  lemma NextInnerPieces(c: Node, s: Node, k: User, h: nat, c2: Node, s2: Node)
    requires Level(c, h) && Level(s, h) && |s.keys| > 0 && !c.leaf && Shaped(c) && Shaped(s)
    requires c2 == Node(c.keys + [k], c.children + [s.children[0]], false)
    requires s2 == Node(s.keys[1..], s.children[1..], false)
    ensures Users(c2) + [s.keys[0]] + Users(s2) == Users(c) + [k] + Users(s)
    ensures forall u :: u in Users(c) ==> u in Users(c2)
  {
    var g := s.children[0];
    assert Level(g, h - 1) && Shaped(g);
    NextRecipientUsers(c, g, k, h);
    NextDonorUsers(s, h);
    Shift(Users(c), k, Users(g), s.keys[0], Users(s2));
  }

  /** `borrowFromPrev(node, idx)` keeps the node's users, and child idx keeps all of its own. */
  lemma BorrowPrevUsers(n: Node, idx: int, h: nat)
    requires Level(n, h) && Shaped(n) && !n.leaf && 0 < idx <= |n.keys| && |n.children[idx - 1].keys| > 0
    ensures Shaped(BorrowFromPrev(n, idx, h))
    ensures Users(BorrowFromPrev(n, idx, h)) == Users(n)
    ensures forall u :: u in Users(n.children[idx]) ==> u in Users(BorrowFromPrev(n, idx, h).children[idx])
  {
    var r := BorrowFromPrev(n, idx, h);
    LevelShaped(r, h);
    var j := idx - 1;
    var c, s := n.children[idx], n.children[j];
    PrevPieces(c, s, n.keys[j], h - 1, r.children[idx], r.children[j]);
    var ls := ChildUsers(n.children);
    ChildUsersUpdate(n.children, j, r.children[j]);
    ChildUsersUpdate(n.children[j := r.children[j]], idx, r.children[idx]);
    WeaveRotate(ls, n.keys, j, Users(r.children[j]), s.keys[|s.keys| - 1], Users(r.children[idx]));
  }

  /** `borrowFromNext(node, idx)` keeps the node's users, and child idx keeps all of its own. */
  lemma BorrowNextUsers(n: Node, idx: int, h: nat)
    requires Level(n, h) && Shaped(n) && !n.leaf && 0 <= idx < |n.keys| && |n.children[idx + 1].keys| > 0
    ensures Shaped(BorrowFromNext(n, idx, h))
    ensures Users(BorrowFromNext(n, idx, h)) == Users(n)
    ensures forall u :: u in Users(n.children[idx]) ==> u in Users(BorrowFromNext(n, idx, h).children[idx])
  {
    var r := BorrowFromNext(n, idx, h);
    LevelShaped(r, h);
    var c, s := n.children[idx], n.children[idx + 1];
    NextPieces(c, s, n.keys[idx], h - 1, r.children[idx], r.children[idx + 1]);
    var ls := ChildUsers(n.children);
    ChildUsersUpdate(n.children, idx, r.children[idx]);
    ChildUsersUpdate(n.children[idx := r.children[idx]], idx + 1, r.children[idx + 1]);
    WeaveRotate(ls, n.keys, idx, Users(r.children[idx]), s.keys[0], Users(r.children[idx + 1]));
  }

  /** The users of a single subtree. */
  lemma ChildUsersPairless(g: Node)
    requires Shaped(g)
    ensures ChildUsers([g]) == [Users(g)]
  {
    var l := ChildUsers([g]);
    assert [g][0] == g;
    assert l[0] == Users(g);
  }

  /** The first user of a strictly ordered list is below every later one. */
  lemma HeadBelow(s: seq<User>)
    requires StrictlyOrdered(s) && s != []
    ensures forall v :: v in s[1..] ==> s[0].id < v.id
  {
    forall v | v in s[1..]
      ensures s[0].id < v.id
    {
      var k :| 0 <= k < |s| - 1 && s[1..][k] == v;
      assert s[k + 1] == v;
    }
  }

  /** Removing users keeps a strictly ordered list strictly ordered. */
  lemma {:induction false} WithoutOrdered(s: seq<User>, id: int)
    requires StrictlyOrdered(s)
    ensures StrictlyOrdered(Without(s, id))
  {
    if s != [] {
      var t := s[1..];
      assert StrictlyOrdered(t) by {
        forall i, j | 0 <= i < j < |t|
          ensures t[i].id < t[j].id
        {
          assert t[i] == s[i + 1] && t[j] == s[j + 1];
        }
      }
      WithoutOrdered(t, id);
      if s[0].id != id {
        HeadBelow(s);
        WithoutMembers(t, id);
        ConsOrdered(s[0], Without(t, id));
      }
    }
  }

  /** A user below every user of a strictly ordered list extends it at the front. */
  lemma ConsOrdered(x: User, w: seq<User>)
    requires StrictlyOrdered(w) && forall v :: v in w ==> x.id < v.id
    ensures StrictlyOrdered([x] + w)
  {
    var r := [x] + w;
    forall i, j | 0 <= i < j < |r|
      ensures r[i].id < r[j].id
    {
      assert r[j] == w[j - 1] && r[j] in w;
      if i > 0 {
        assert r[i] == w[i - 1];
      }
    }
  }
}
