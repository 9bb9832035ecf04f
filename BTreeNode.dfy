/**
 * The nodes of the user B-tree of ad-3 BTree.java, as values: a node's users
 * (`keys`, ordered by id), its subtrees and its leaf flag; the in-order list of
 * users that `getAllUsers` produces; the window `binarySearch` narrows; `search`,
 * `splitChild`, `insertNonFull`, `getUserCount` and `collectUsersForPage`.
 */
module BTreeNode {
  import opened Wrappers
  import opened BTreeKeys

  /** A `BNode`: `keys` and `children` are its two lists, `leaf` its flag. */
  datatype Node = Node(keys: seq<User>, children: seq<Node>, leaf: bool)

  // ---------------------------------------------------------------------------
  // Shape

  /** A leaf has no subtrees and an inner node one more subtree than keys, all the way down. */
  predicate Shaped(n: Node) {
    (if n.leaf then n.children == [] else |n.children| == |n.keys| + 1) &&
    forall i :: 0 <= i < |n.children| ==> Shaped(n.children[i])
  }

  /** Shaped, with every leaf at depth h below `n`. */
  predicate Level(n: Node, h: nat) {
    if n.leaf then h == 0 && n.children == []
    else
      h > 0 && |n.children| == |n.keys| + 1 &&
      forall i :: 0 <= i < |n.children| ==> Level(n.children[i], h - 1)
  }

  lemma LevelShaped(n: Node, h: nat)
    requires Level(n, h)
    ensures Shaped(n)
  {
    forall i | 0 <= i < |n.children|
      ensures Shaped(n.children[i])
    {
      LevelShaped(n.children[i], h - 1);
    }
  }

  /** Replacing one subtree of a node by another of the same height keeps the node's height. */
  lemma LevelUpdate(n: Node, h: nat, j: int, c: Node)
    requires Level(n, h) && !n.leaf && 0 <= j < |n.children| && Level(c, h - 1)
    ensures Level(n.(children := n.children[j := c]), h)
  {
    var cs := n.children[j := c];
    forall k | 0 <= k < |cs|
      ensures Level(cs[k], h - 1)
    {
      if k != j {
        assert cs[k] == n.children[k];
      }
    }
  }

  // ---------------------------------------------------------------------------
  // In-order traversal (getAllUsers)

  /**
   * The in-order list of subtrees' users `ls` around the separating users `ks`:
   * ls[0], ks[0], ls[1], ..., ks[m-1], ls[m].
   */
  function Weave(ls: seq<seq<User>>, ks: seq<User>): seq<User>
    requires |ls| == |ks| + 1
  {
    if ks == [] then ls[0]
    else Weave(ls[..|ls| - 1], ks[..|ks| - 1]) + [ks[|ks| - 1]] + ls[|ls| - 1]
  }

  /** `getAllUsers(node)`: a leaf's keys, or its subtrees and keys interleaved. */
  ghost function Users(n: Node): seq<User>
    requires Shaped(n)
  {
    if n.leaf then n.keys else Weave(ChildUsers(n.children), n.keys)
  }

  /** The users of each subtree, subtree by subtree. */
  ghost function ChildUsers(cs: seq<Node>): (ls: seq<seq<User>>)
    requires forall i :: 0 <= i < |cs| ==> Shaped(cs[i])
    ensures |ls| == |cs|
    ensures forall i :: 0 <= i < |cs| ==> ls[i] == Users(cs[i])
  {
    seq(|cs|, i requires 0 <= i < |cs| => Users(cs[i]))
  }

  /** Replacing one subtree replaces its users in the list of subtrees' users. */
  lemma ChildUsersUpdate(cs: seq<Node>, j: int, c: Node)
    requires forall i :: 0 <= i < |cs| ==> Shaped(cs[i])
    requires 0 <= j < |cs| && Shaped(c)
    ensures ChildUsers(cs[j := c]) == ChildUsers(cs)[j := Users(c)]
  {
    var a, b := ChildUsers(cs[j := c]), ChildUsers(cs)[j := Users(c)];
    forall k | 0 <= k < |a|
      ensures a[k] == b[k]
    {
      if k != j {
        assert cs[j := c][k] == cs[k];
      }
    }
  }

  /** Two runs of well-formed subtrees side by side are well-formed. */
  lemma ShapedConcat(x: seq<Node>, y: seq<Node>, z: seq<Node>)
    requires forall k :: 0 <= k < |x| ==> Shaped(x[k])
    requires forall k :: 0 <= k < |y| ==> Shaped(y[k])
    requires z == x + y
    ensures forall k :: 0 <= k < |z| ==> Shaped(z[k])
  {
    forall k | 0 <= k < |z|
      ensures Shaped(z[k])
    {
      if k >= |x| {
        assert z[k] == y[k - |x|];
      }
    }
  }

  /** The users of two runs of subtrees side by side are their users side by side. */
  lemma ChildUsersConcat(x: seq<Node>, y: seq<Node>, z: seq<Node>)
    requires forall k :: 0 <= k < |x| ==> Shaped(x[k])
    requires forall k :: 0 <= k < |y| ==> Shaped(y[k])
    requires forall k :: 0 <= k < |z| ==> Shaped(z[k])
    requires z == x + y
    ensures ChildUsers(z) == ChildUsers(x) + ChildUsers(y)
  {
    var l, r := ChildUsers(z), ChildUsers(x) + ChildUsers(y);
    forall k | 0 <= k < |z|
      ensures l[k] == r[k]
    {
      if k >= |x| {
        assert z[k] == y[k - |x|];
      }
    }
  }

  /** The users of two subtrees, one after the other. */
  lemma ChildUsersPair(a: Node, b: Node)
    requires Shaped(a) && Shaped(b)
    ensures ChildUsers([a, b]) == [Users(a), Users(b)]
  {
    var l := ChildUsers([a, b]);
    assert [a, b][0] == a && [a, b][1] == b;
    assert l[0] == Users(a) && l[1] == Users(b);
  }

  /** `ys` is `xs` with the element at i replaced by the two elements a and b. */
  ghost predicate Spliced<T>(xs: seq<T>, i: int, a: T, b: T, ys: seq<T>) {
    0 <= i < |xs| && |ys| == |xs| + 1 && ys[i] == a && ys[i + 1] == b
    && (forall k :: 0 <= k < i ==> ys[k] == xs[k])
    && (forall k :: i + 1 < k < |ys| ==> ys[k] == xs[k - 1])
  }

  /** Splicing by slices and concatenation is splicing element by element, both ways. */
  lemma SplicedIff<T>(xs: seq<T>, i: int, a: T, b: T, ys: seq<T>)
    requires 0 <= i < |xs|
    ensures Spliced(xs, i, a, b, ys) <==> ys == xs[..i] + [a, b] + xs[i + 1..]
  {
    var zs := xs[..i] + [a, b] + xs[i + 1..];
    assert Spliced(xs, i, a, b, zs);
    if Spliced(xs, i, a, b, ys) {
      assert forall k :: 0 <= k < |ys| ==> ys[k] == zs[k];
    }
  }

  /** Replacing a well-formed subtree by two well-formed subtrees keeps all of them well-formed. */
  lemma ShapedSplice(cs: seq<Node>, i: int, a: Node, b: Node, ds: seq<Node>)
    requires forall k :: 0 <= k < |cs| ==> Shaped(cs[k])
    requires Shaped(a) && Shaped(b) && 0 <= i < |cs| && ds == cs[..i] + [a, b] + cs[i + 1..]
    ensures forall k :: 0 <= k < |ds| ==> Shaped(ds[k])
  {
    var pre, mid, post := cs[..i], [a, b], cs[i + 1..];
    forall k | 0 <= k < |pre|
      ensures Shaped(pre[k])
    {
      assert pre[k] == cs[k];
    }
    forall k | 0 <= k < |post|
      ensures Shaped(post[k])
    {
      assert post[k] == cs[i + 1 + k];
    }
    ShapedConcat(pre, mid, pre + mid);
    ShapedConcat(pre + mid, post, ds);
  }

  /** Replacing subtree i by two subtrees replaces its users by theirs. */
  lemma ChildUsersSplice(cs: seq<Node>, i: int, a: Node, b: Node, ds: seq<Node>)
    requires forall k :: 0 <= k < |cs| ==> Shaped(cs[k])
    requires Shaped(a) && Shaped(b) && 0 <= i < |cs| && ds == cs[..i] + [a, b] + cs[i + 1..]
    ensures forall k :: 0 <= k < |ds| ==> Shaped(ds[k])
    ensures ChildUsers(ds) ==
      ChildUsers(cs)[..i] + [Users(a), Users(b)] + ChildUsers(cs)[i + 1..]
  {
    var pre, post := cs[..i] + [a, b], cs[i + 1..];
    ShapedSplice(cs, i, a, b, ds);
    ChildUsersFront(cs, i, a, b, pre);
    ChildUsersDrop(cs, i + 1);
    ChildUsersConcat(pre, post, ds);
  }

  /** The users of the first i subtrees followed by two more. */
  lemma ChildUsersFront(cs: seq<Node>, i: int, a: Node, b: Node, ds: seq<Node>)
    requires forall k :: 0 <= k < |cs| ==> Shaped(cs[k])
    requires Shaped(a) && Shaped(b) && 0 <= i < |cs| && ds == cs[..i] + [a, b]
    ensures forall k :: 0 <= k < |ds| ==> Shaped(ds[k])
    ensures ChildUsers(ds) == ChildUsers(cs)[..i] + [Users(a), Users(b)]
  {
    var pre, mid := cs[..i], [a, b];
    forall k | 0 <= k < |pre|
      ensures Shaped(pre[k])
    {
      assert pre[k] == cs[k];
    }
    assert forall k :: 0 <= k < |mid| ==> Shaped(mid[k]);
    ChildUsersTake(cs, i);
    ChildUsersPair(a, b);
    ShapedConcat(pre, mid, ds);
    ChildUsersConcat(pre, mid, ds);
  }

  /** Extending the users of the last subtree extends the node's users at the end. */
  lemma LastChildAppend(s: Node, c: Node, w: seq<User>)
    requires Shaped(s) && !s.leaf && Shaped(c) && Users(c) == Users(s.children[|s.keys|]) + w
    ensures Shaped(s.(children := s.children[|s.keys| := c]))
    ensures Users(s.(children := s.children[|s.keys| := c])) == Users(s) + w
  {
    var i := |s.keys|;
    var ls := ChildUsers(s.children);
    ChildUsersUpdate(s.children, i, c);
    assert ls[i := ls[i] + w] == ls[|ls| - 1 := ls[|ls| - 1] + w];
    WeaveAppendLast(ls, s.keys, w);
  }

  /** The users of a prefix of the subtrees are the prefix of their users. */
  lemma ChildUsersTake(cs: seq<Node>, n: int)
    requires forall i :: 0 <= i < |cs| ==> Shaped(cs[i])
    requires 0 <= n <= |cs|
    ensures ChildUsers(cs[..n]) == ChildUsers(cs)[..n]
  {
    var x, y := ChildUsers(cs[..n]), ChildUsers(cs)[..n];
    forall k | 0 <= k < n
      ensures x[k] == y[k]
    {
      assert cs[..n][k] == cs[k];
    }
  }

  /** The users of a suffix of the subtrees are the suffix of their users. */
  lemma ChildUsersDrop(cs: seq<Node>, n: int)
    requires forall i :: 0 <= i < |cs| ==> Shaped(cs[i])
    requires 0 <= n <= |cs|
    ensures ChildUsers(cs[n..]) == ChildUsers(cs)[n..]
  {
    var x, y := ChildUsers(cs[n..]), ChildUsers(cs)[n..];
    forall k | 0 <= k < |cs| - n
      ensures x[k] == y[k]
    {
      assert cs[n..][k] == cs[n + k];
    }
  }

  /** Two woven runs joined by one more separator weave into one run. */
  lemma {:induction false} WeaveConcat(ls1: seq<seq<User>>, ks1: seq<User>, k: User, ls2: seq<seq<User>>, ks2: seq<User>)
    requires |ls1| == |ks1| + 1 && |ls2| == |ks2| + 1
    ensures Weave(ls1 + ls2, ks1 + [k] + ks2) == Weave(ls1, ks1) + [k] + Weave(ls2, ks2)
    decreases |ks2|
  {
    var ls, ks := ls1 + ls2, ks1 + [k] + ks2;
    if ks2 == [] {
      assert ls[..|ls| - 1] == ls1 && ks[..|ks| - 1] == ks1;
      assert ks[|ks| - 1] == k && ls[|ls| - 1] == ls2[0];
    } else {
      var ls2', ks2' := ls2[..|ls2| - 1], ks2[..|ks2| - 1];
      var x, y := ks2[|ks2| - 1], ls2[|ls2| - 1];
      assert ls[..|ls| - 1] == ls1 + ls2' && ks[..|ks| - 1] == ks1 + [k] + ks2';
      assert ks[|ks| - 1] == x && ls[|ls| - 1] == y;
      assert Weave(ls, ks) == Weave(ls1 + ls2', ks1 + [k] + ks2') + [x] + y;
      WeaveConcat(ls1, ks1, k, ls2', ks2');
      Reassociate(Weave(ls1, ks1), k, Weave(ls2', ks2'), x, y);
      assert Weave(ls2, ks2) == Weave(ls2', ks2') + [x] + y;
    }
  }

  /** Extending the last run extends the weave at its end. */
  lemma WeaveAppendLast(ls: seq<seq<User>>, ks: seq<User>, w: seq<User>)
    requires |ls| == |ks| + 1
    ensures Weave(ls[|ls| - 1 := ls[|ls| - 1] + w], ks) == Weave(ls, ks) + w
  {
    var ls' := ls[|ls| - 1 := ls[|ls| - 1] + w];
    if ks != [] {
      assert ls'[..|ls'| - 1] == ls[..|ls| - 1];
    }
  }

  /** Extending the first run extends the weave at its start. */
  lemma {:induction false} WeavePrependFirst(ls: seq<seq<User>>, ks: seq<User>, w: seq<User>)
    requires |ls| == |ks| + 1
    ensures Weave(ls[0 := w + ls[0]], ks) == w + Weave(ls, ks)
    decreases |ks|
  {
    var ls' := ls[0 := w + ls[0]];
    if ks != [] {
      if |ks| == 1 {
        assert ls'[..|ls'| - 1] == [w + ls[0]] && ls[..|ls| - 1] == [ls[0]];
      } else {
        WeavePrependFirst(ls[..|ls| - 1], ks[..|ks| - 1], w);
        assert ls'[..|ls'| - 1] == ls[..|ls| - 1][0 := w + ls[0]];
      }
    }
  }

  /** The part of the weave before run i: runs 0 .. i-1 and separators 0 .. i-1. */
  function Before(ls: seq<seq<User>>, ks: seq<User>, i: int): seq<User>
    requires |ls| == |ks| + 1 && 0 <= i < |ls|
  {
    if i == 0 then [] else Weave(ls[..i], ks[..i - 1]) + [ks[i - 1]]
  }

  /** The part of the weave after run i: separators i .. and runs i+1 .. . */
  function After(ls: seq<seq<User>>, ks: seq<User>, i: int): seq<User>
    requires |ls| == |ks| + 1 && 0 <= i < |ls|
  {
    if i == |ks| then [] else [ks[i]] + Weave(ls[i + 1..], ks[i + 1..])
  }

  /** The weave starts with run 0. */
  lemma WeaveFront(ls: seq<seq<User>>, ks: seq<User>)
    requires |ls| == |ks| + 1
    ensures Weave(ls, ks) == ls[0] + After(ls, ks, 0)
  {
    if ks != [] {
      WeaveFirst(ls, ks);
      Associate(ls[0], [ks[0]], Weave(ls[1..], ks[1..]));
    }
  }

  /** A weave with a separator is run 0, separator 0, and the weave of the rest. */
  lemma WeaveFirst(ls: seq<seq<User>>, ks: seq<User>)
    requires |ls| == |ks| + 1 && ks != []
    ensures Weave(ls, ks) == ls[0] + [ks[0]] + Weave(ls[1..], ks[1..])
  {
    assert ls == [ls[0]] + ls[1..];
    assert ks == [] + [ks[0]] + ks[1..];
    WeaveConcat([ls[0]], [], ks[0], ls[1..], ks[1..]);
  }

  /** The users of subtree i sit between separator i-1 and separator i. */
  lemma WeaveAround(ls: seq<seq<User>>, ks: seq<User>, i: int)
    requires |ls| == |ks| + 1 && 0 <= i < |ls|
    ensures Weave(ls, ks) == Before(ls, ks, i) + (ls[i] + After(ls, ks, i))
  {
    if i == 0 {
      WeaveFront(ls, ks);
      assert Before(ls, ks, i) == [];
      assert [] + (ls[0] + After(ls, ks, 0)) == ls[0] + After(ls, ks, 0);
    } else {
      WeaveSplitAt(ls, ks, i);
      WeaveTail(ls, ks, i);
    }
  }

  /** The weave is the part before run i followed by the weave of runs i .. and separators i .. . */
  lemma WeaveSplitAt(ls: seq<seq<User>>, ks: seq<User>, i: int)
    requires |ls| == |ks| + 1 && 0 < i < |ls|
    ensures Weave(ls, ks) == Before(ls, ks, i) + Weave(ls[i..], ks[i..])
  {
    var tl, tk := ls[i..], ks[i..];
    assert ls == ls[..i] + tl;
    assert ks == ks[..i - 1] + [ks[i - 1]] + tk;
    WeaveConcat(ls[..i], ks[..i - 1], ks[i - 1], tl, tk);
  }

  /** The weave of runs i .. and separators i .. is run i followed by the part after it. */
  lemma WeaveTail(ls: seq<seq<User>>, ks: seq<User>, i: int)
    requires |ls| == |ks| + 1 && 0 <= i < |ls|
    ensures Weave(ls[i..], ks[i..]) == ls[i] + After(ls, ks, i)
  {
    var tl, tk := ls[i..], ks[i..];
    WeaveFront(tl, tk);
    assert tl[0] == ls[i];
    if i < |ks| {
      assert tl[1..] == ls[i + 1..] && tk[1..] == ks[i + 1..];
    }
  }

  /** Replacing one run by a split of it around a new separator leaves the weave unchanged. */
  lemma WeaveSplitRun(ls: seq<seq<User>>, ks: seq<User>, i: int, x: seq<User>, m: User, y: seq<User>)
    requires |ls| == |ks| + 1 && 0 <= i < |ls| && ls[i] == x + [m] + y
    ensures Weave(ls[..i] + [x, y] + ls[i + 1..], ks[..i] + [m] + ks[i..]) == Weave(ls, ks)
  {
    var left, right := ls[..i] + [x], [y] + ls[i + 1..];
    assert ls[..i] + [x, y] + ls[i + 1..] == left + right;
    WeaveConcat(left, ks[..i], m, right, ks[i..]);
    WeaveAround(ls, ks, i);
    var b, a := Before(ls, ks, i), After(ls, ks, i);
    assert Weave(left, ks[..i]) == b + x by {
      WeaveAround(left, ks[..i], i);
      if i > 0 {
        assert left[..i] == ls[..i] && ks[..i][..i - 1] == ks[..i - 1];
      }
    }
    assert Weave(right, ks[i..]) == y + a by {
      WeaveFront(right, ks[i..]);
      if i < |ks| {
        assert right[1..] == ls[i + 1..] && ks[i..][1..] == ks[i + 1..];
      }
    }
    Regroup(b, x, m, y, a);
  }

  lemma Associate(a: seq<User>, b: seq<User>, c: seq<User>)
    ensures a + b + c == a + (b + c)
  {
  }

  lemma Reassociate(a: seq<User>, k: User, w: seq<User>, x: User, y: seq<User>)
    ensures a + [k] + w + [x] + y == a + [k] + (w + [x] + y)
  {
  }

  lemma Regroup(b: seq<User>, x: seq<User>, m: User, y: seq<User>, a: seq<User>)
    ensures (b + x) + [m] + (y + a) == b + ((x + [m] + y) + a)
  {
  }

  // ---------------------------------------------------------------------------
  // Order

  /** On an ordered in-order list, the users of subtree i lie between its two neighbouring keys. */
  lemma OrderedAround(ls: seq<seq<User>>, ks: seq<User>, i: int)
    requires |ls| == |ks| + 1 && 0 <= i < |ls| && Ordered(Weave(ls, ks))
    ensures Ordered(ls[i])
    ensures i > 0 ==> forall u :: u in ls[i] ==> ks[i - 1].id <= u.id
    ensures i < |ks| ==> forall u :: u in ls[i] ==> u.id <= ks[i].id
    ensures forall j, u :: 0 <= j < i && u in ls[j] ==> u.id <= ks[i - 1].id
    ensures forall j, u :: i < j < |ls| && u in ls[j] ==> ks[i].id <= u.id
  {
    OrderedRun(ls, ks, i);
    if i > 0 {
      OrderedBeforeRun(ls, ks, i);
    }
    if i < |ks| {
      OrderedAfterRun(ls, ks, i);
    }
  }

  /** On an ordered weave, run i is ordered and lies between separators i-1 and i. */
  lemma OrderedRun(ls: seq<seq<User>>, ks: seq<User>, i: int)
    requires |ls| == |ks| + 1 && 0 <= i < |ls| && Ordered(Weave(ls, ks))
    ensures Ordered(ls[i])
    ensures i > 0 ==> forall u :: u in ls[i] ==> ks[i - 1].id <= u.id
    ensures i < |ks| ==> forall u :: u in ls[i] ==> u.id <= ks[i].id
  {
    WeaveAround(ls, ks, i);
    var b, a := Before(ls, ks, i), After(ls, ks, i);
    OrderedConcat(b, ls[i] + a);
    OrderedConcat(ls[i], a);
    if i > 0 {
      assert ks[i - 1] in b;
    }
    if i < |ks| {
      assert ks[i] in a;
    }
  }

  /** On an ordered weave, every run before run i lies below separator i-1. */
  lemma OrderedBeforeRun(ls: seq<seq<User>>, ks: seq<User>, i: int)
    requires |ls| == |ks| + 1 && 0 < i < |ls| && Ordered(Weave(ls, ks))
    ensures forall j, u :: 0 <= j < i && u in ls[j] ==> u.id <= ks[i - 1].id
  {
    WeaveSplitAt(ls, ks, i);
    var w := Weave(ls[..i], ks[..i - 1]);
    OrderedConcat(w + [ks[i - 1]], Weave(ls[i..], ks[i..]));
    OrderedConcat(w, [ks[i - 1]]);
    forall j, u | 0 <= j < i && u in ls[j]
      ensures u.id <= ks[i - 1].id
    {
      assert ls[..i][j] == ls[j];
      WeavedIn(ls[..i], ks[..i - 1], j, u);
    }
  }

  /** On an ordered weave, every run after run i lies above separator i. */
  lemma OrderedAfterRun(ls: seq<seq<User>>, ks: seq<User>, i: int)
    requires |ls| == |ks| + 1 && 0 <= i < |ks| && Ordered(Weave(ls, ks))
    ensures forall j, u :: i < j < |ls| && u in ls[j] ==> ks[i].id <= u.id
  {
    WeaveAround(ls, ks, i);
    var b, w := Before(ls, ks, i), Weave(ls[i + 1..], ks[i + 1..]);
    assert After(ls, ks, i) == [ks[i]] + w;
    Associate(b, ls[i], [ks[i]] + w);
    OrderedConcat(b + ls[i], [ks[i]] + w);
    OrderedConcat([ks[i]], w);
    forall j, u | i < j < |ls| && u in ls[j]
      ensures ks[i].id <= u.id
    {
      assert ls[i + 1..][j - i - 1] == ls[j];
      WeavedIn(ls[i + 1..], ks[i + 1..], j - i - 1, u);
    }
  }

  /** Every user of every run appears in the weave. */
  lemma {:induction false} WeavedIn(ls: seq<seq<User>>, ks: seq<User>, j: int, u: User)
    requires |ls| == |ks| + 1 && 0 <= j < |ls| && u in ls[j]
    ensures u in Weave(ls, ks)
    decreases |ks|
  {
    if ks != [] && j < |ls| - 1 {
      WeavedIn(ls[..|ls| - 1], ks[..|ks| - 1], j, u);
    }
  }

  /** Every key of a node appears in the weave. */
  lemma {:induction false} KeyWeavedIn(ls: seq<seq<User>>, ks: seq<User>, j: int)
    requires |ls| == |ks| + 1 && 0 <= j < |ks|
    ensures ks[j] in Weave(ls, ks)
    decreases |ks|
  {
    if j < |ks| - 1 {
      KeyWeavedIn(ls[..|ls| - 1], ks[..|ks| - 1], j);
    }
  }

  /** Everything in the weave comes from a run or is a key. */
  lemma {:induction false} WeavedFrom(ls: seq<seq<User>>, ks: seq<User>, u: User)
    requires |ls| == |ks| + 1 && u in Weave(ls, ks)
    ensures u in ks || exists j :: 0 <= j < |ls| && u in ls[j]
    decreases |ks|
  {
    if ks != [] {
      var w := Weave(ls[..|ls| - 1], ks[..|ks| - 1]);
      if u in w {
        WeavedFrom(ls[..|ls| - 1], ks[..|ks| - 1], u);
        if u !in ks {
          var j :| 0 <= j < |ls| - 1 && u in ls[..|ls| - 1][j];
          assert u in ls[j];
        }
      } else if u !in ls[|ls| - 1] {
        assert u == ks[|ks| - 1];
      }
    }
  }

}
