/**
 * The whole-tree walks of ad-3 BTree.java, as specifications: the in-order prefix a
 * walk has seen after i keys of a node (`getAllUsers`, `collectUsersForPage`), the
 * number of users (`getUserCount`), the largest id (`getMaxUserId`) and the page a
 * counter running over the in-order list collects (`collectUsersForPage`).
 */
module BTreeWalk {
  import opened BTreeKeys
  import opened BTreeNode

  // ---------------------------------------------------------------------------
  // The in-order prefix seen by a walk over one node

  /**
   * What an in-order walk of `n` has produced once it has handled keys 0 .. i-1:
   * for an inner node subtree j followed by key j, for each j < i.
   */
  ghost function Visited(n: Node, i: int): seq<User>
    requires Shaped(n) && 0 <= i <= |n.keys|
  {
    if n.leaf then n.keys[..i] else Before(ChildUsers(n.children), n.keys, i)
  }

  /** Before its first key, a walk has seen nothing. */
  lemma VisitedNone(n: Node)
    requires Shaped(n)
    ensures Visited(n, 0) == []
  {
  }

  /** One more run and separator extend the part of the weave before a run. */
  lemma BeforeStep(ls: seq<seq<User>>, ks: seq<User>, i: int)
    requires |ls| == |ks| + 1 && 0 <= i < |ks|
    ensures Before(ls, ks, i + 1) == Before(ls, ks, i) + ls[i] + [ks[i]]
  {
    if i > 0 {
      var l, k := ls[..i + 1], ks[..i];
      assert l[..|l| - 1] == ls[..i] && k[..|k| - 1] == ks[..i - 1];
      assert l[|l| - 1] == ls[i] && k[|k| - 1] == ks[i - 1];
    } else {
      assert ls[..1] == [ls[0]];
    }
  }

  /** Handling key i adds subtree i (inside) and then key i to the walk. */
  lemma VisitedStep(n: Node, i: int)
    requires Shaped(n) && 0 <= i < |n.keys|
    ensures Visited(n, i + 1) == Visited(n, i) + (if n.leaf then [] else Users(n.children[i])) + [n.keys[i]]
  {
    if n.leaf {
      assert n.keys[..i + 1] == n.keys[..i] + [n.keys[i]];
    } else {
      BeforeStep(ChildUsers(n.children), n.keys, i);
    }
  }

  /** After the last key, the last subtree (inside) completes the in-order list. */
  lemma VisitedAll(n: Node)
    requires Shaped(n)
    ensures Users(n) == Visited(n, |n.keys|) + (if n.leaf then [] else Users(n.children[|n.keys|]))
  {
    if n.leaf {
      assert n.keys[..|n.keys|] == n.keys;
    } else {
      var ls := ChildUsers(n.children);
      WeaveAround(ls, n.keys, |n.keys|);
    }
  }

  /** What a walk has seen is a prefix of the in-order list. */
  lemma VisitedPrefix(n: Node, i: int)
    requires Shaped(n) && 0 <= i <= |n.keys|
    ensures |Visited(n, i)| <= |Users(n)| && Users(n)[..|Visited(n, i)|] == Visited(n, i)
  {
    if n.leaf {
    } else {
      var ls := ChildUsers(n.children);
      WeaveAround(ls, n.keys, i);
      var b := Before(ls, n.keys, i);
      assert Users(n) == b + (ls[i] + After(ls, n.keys, i));
      assert (b + (ls[i] + After(ls, n.keys, i)))[..|b|] == b;
    }
  }

  // ---------------------------------------------------------------------------
  // getUserCount

  /** The total length of the runs. */
  function SumLens(ls: seq<seq<User>>): nat {
    if ls == [] then 0 else SumLens(ls[..|ls| - 1]) + |ls[|ls| - 1]|
  }

  /** One more run adds its length. */
  lemma SumLensStep(ls: seq<seq<User>>, i: int)
    requires 0 <= i < |ls|
    ensures SumLens(ls[..i + 1]) == SumLens(ls[..i]) + |ls[i]|
  {
    assert ls[..i + 1][..i] == ls[..i];
  }

  /** A node holds its own keys plus the users of its subtrees. */
  lemma {:induction false} WeaveLength(ls: seq<seq<User>>, ks: seq<User>)
    requires |ls| == |ks| + 1
    ensures |Weave(ls, ks)| == |ks| + SumLens(ls)
    decreases |ks|
  {
    if ks == [] {
      assert ls[..0] == [];
    } else {
      WeaveLength(ls[..|ls| - 1], ks[..|ks| - 1]);
    }
  }

  // ---------------------------------------------------------------------------
  // getMaxUserId

  /** `Math.max` over the ids of `s`, starting from 0. */
  function MaxId(s: seq<User>): int {
    if s == [] then 0 else
      var m := MaxId(s[..|s| - 1]);
      if s[|s| - 1].id > m then s[|s| - 1].id else m
  }

  /** The largest id is at least 0 and every id, and it is 0 or the id of a user of `s`. */
  lemma {:induction false} MaxIdBounds(s: seq<User>)
    ensures MaxId(s) >= 0
    ensures forall v :: v in s ==> v.id <= MaxId(s)
    ensures MaxId(s) == 0 || exists v :: v in s && v.id == MaxId(s)
  {
    if s != [] {
      var p := s[..|s| - 1];
      MaxIdBounds(p);
      assert s == p + [s[|s| - 1]];
      assert forall v :: v in s ==> v in p || v == s[|s| - 1];
    }
  }

  // ---------------------------------------------------------------------------
  // collectUsersForPage

  /**
   * The users of `s` that a counter starting at `c` collects: each user is taken
   * when the counter is in [lo, hi), and the walk stops once the counter reaches hi.
   */
  function PageSlice(s: seq<User>, c: int, lo: int, hi: int): seq<User>
    decreases |s|
  {
    if s == [] || c >= hi then []
    else (if lo <= c then [s[0]] else []) + PageSlice(s[1..], c + 1, lo, hi)
  }

  /** Collecting from two lists in a row is collecting from the first and then, counter advanced, from the second. */
  lemma {:induction false} PageSliceConcat(a: seq<User>, b: seq<User>, c: int, lo: int, hi: int)
    ensures PageSlice(a + b, c, lo, hi) == PageSlice(a, c, lo, hi) + PageSlice(b, c + |a|, lo, hi)
    decreases |a|
  {
    if a == [] {
      assert a + b == b;
    } else if c >= hi {
      assert c + |a| >= hi;
    } else {
      assert (a + b)[0] == a[0] && (a + b)[1..] == a[1..] + b;
      PageSliceConcat(a[1..], b, c + 1, lo, hi);
    }
  }

  /** Once the counter has passed hi within a prefix of `s`, the rest of `s` adds nothing. */
  lemma PageSliceStops(s: seq<User>, m: int, c: int, lo: int, hi: int)
    requires 0 <= m <= |s| && c + m >= hi
    ensures PageSlice(s, c, lo, hi) == PageSlice(s[..m], c, lo, hi)
  {
    assert s == s[..m] + s[m..];
    PageSliceConcat(s[..m], s[m..], c, lo, hi);
  }

  /** `x` held between 0 and `n`. */
  function Clip(x: int, n: nat): (r: nat)
    ensures r <= n
  {
    if x < 0 then 0 else if x > n then n else x
  }

  /**
   * A counter starting at c over `s` collects exactly the users whose position p
   * has c + p in [lo, hi): the slice between the clipped ends.
   */
  lemma {:induction false} PageSliceWindow(s: seq<User>, c: int, lo: int, hi: int)
    ensures var a := Clip(lo - c, |s|); var b := Clip(hi - c, |s|);
      PageSlice(s, c, lo, hi) == if a <= b then s[a..b] else []
    decreases |s|
  {
    if s != [] && c < hi {
      var t := s[1..];
      PageSliceWindow(t, c + 1, lo, hi);
      var a, b := Clip(lo - c - 1, |t|), Clip(hi - c - 1, |t|);
      assert Clip(hi - c, |s|) == b + 1;
      if lo <= c {
        assert Clip(lo - c, |s|) == 0 && a == 0;
        SliceFront(s, b);
      } else {
        assert Clip(lo - c, |s|) == a + 1;
        if a <= b {
          SliceShift(s, a, b);
        }
      }
    }
  }

  /** The first b + 1 users are the first user and then the first b of the rest. */
  lemma SliceFront(s: seq<User>, b: int)
    requires 0 <= b < |s|
    ensures s[0..b + 1] == [s[0]] + s[1..][0..b]
  {
  }

  /** A slice of the rest of `s` is the slice of `s` one further on. */
  lemma SliceShift(s: seq<User>, a: int, b: int)
    requires 0 <= a <= b < |s|
    ensures s[a + 1..b + 1] == s[1..][a..b]
  {
    var x, y := s[a + 1..b + 1], s[1..][a..b];
    assert |x| == |y|;
    forall k | 0 <= k < |x|
      ensures x[k] == y[k]
    {
      assert x[k] == s[a + 1 + k] && y[k] == s[1..][a + k];
    }
  }
}
