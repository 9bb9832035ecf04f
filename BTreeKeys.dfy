/**
 * The users a B-tree node stores, ordered by id, and the binary search of
 * ad-3 BTree.java over one node's keys.
 */
module BTreeKeys {
  /** A stored user; the id is the search key, the other fields are payload. */
  datatype User = User(id: int, email: string, username: string, password: string)

  /** A result together with the number of probes (`numberOfLastComparisons++`) taken on the way. */
  datatype Counted<T> = Counted(value: T, probes: nat)

  // ---------------------------------------------------------------------------
  // Order

  /** Ids never decrease along `s`. */
  predicate Ordered(s: seq<User>) {
    forall i, j :: 0 <= i < j < |s| ==> s[i].id <= s[j].id
  }

  /** Ids strictly increase along `s`. */
  predicate StrictlyOrdered(s: seq<User>) {
    forall i, j :: 0 <= i < j < |s| ==> s[i].id < s[j].id
  }

  /** The ids occurring in `s`. */
  ghost function Ids(s: seq<User>): set<int> {
    set u | u in s :: u.id
  }

  /** Both halves of an ordered list are ordered, and the first half comes first. */
  lemma OrderedConcat(x: seq<User>, y: seq<User>)
    requires Ordered(x + y)
    ensures Ordered(x) && Ordered(y)
    ensures forall u, v :: u in x && v in y ==> u.id <= v.id
  {
    var s := x + y;
    forall p, q | 0 <= p < q < |x|
      ensures x[p].id <= x[q].id
    {
      assert s[p] == x[p] && s[q] == x[q];
    }
    forall p, q | 0 <= p < q < |y|
      ensures y[p].id <= y[q].id
    {
      assert s[|x| + p] == y[p] && s[|x| + q] == y[q];
    }
    forall u, v | u in x && v in y
      ensures u.id <= v.id
    {
      var p :| 0 <= p < |x| && x[p] == u;
      var q :| 0 <= q < |y| && y[q] == v;
      assert s[p] == u && s[|x| + q] == v;
    }
  }

  // ---------------------------------------------------------------------------
  // binarySearch

  /** The midpoint `(low + high) / 2` of two non-negative indices (no overflow at node sizes). */
  function Mid(low: int, high: int): (m: int)
    requires 0 <= low <= high
    ensures low <= m <= high
  {
    (low + high) / 2
  }

  /**
   * The `binarySearch` loop from the window [low, high]: the index it returns
   * (`mid` on a match, otherwise `low` once the window is empty) and the
   * number of probes it makes.
   */
  function Probe(keys: seq<User>, id: int, low: int, high: int): (r: Counted<int>)
    requires 0 <= low <= high + 1 <= |keys|
    ensures low <= r.value <= high + 1
    decreases high - low
  {
    if low > high then Counted(low, 0)
    else
      var mid := Mid(low, high);
      if id == keys[mid].id then Counted(mid, 1)
      else if id < keys[mid].id then
        var r := Probe(keys, id, low, mid - 1); Counted(r.value, r.probes + 1)
      else
        var r := Probe(keys, id, mid + 1, high); Counted(r.value, r.probes + 1)
  }

  /** `binarySearch(node, id)` on the keys of a node. */
  function Locate(keys: seq<User>, id: int): (r: Counted<int>)
    ensures 0 <= r.value <= |keys|
  {
    Probe(keys, id, 0, |keys| - 1)
  }

  /** Two key lists with the same ids, position by position, search alike. */
  lemma {:induction false} ProbeSameIds(a: seq<User>, b: seq<User>, id: int, low: int, high: int)
    requires |a| == |b| && forall i :: 0 <= i < |a| ==> a[i].id == b[i].id
    requires 0 <= low <= high + 1 <= |a|
    ensures Probe(a, id, low, high) == Probe(b, id, low, high)
    decreases high - low
  {
    if low <= high {
      var mid := Mid(low, high);
      assert a[mid].id == b[mid].id;
      if id < a[mid].id {
        ProbeSameIds(a, b, id, low, mid - 1);
        ProbeLower(a, b, id, low, high);
      } else if id > a[mid].id {
        ProbeSameIds(a, b, id, mid + 1, high);
        ProbeUpper(a, b, id, low, high);
      }
    }
  }

  /** A probe below a shared middle id continues in the same lower window. */
  lemma ProbeLower(a: seq<User>, b: seq<User>, id: int, low: int, high: int)
    requires 0 <= low <= high < |a| && |a| == |b|
    requires a[Mid(low, high)].id == b[Mid(low, high)].id && id < a[Mid(low, high)].id
    requires Probe(a, id, low, Mid(low, high) - 1) == Probe(b, id, low, Mid(low, high) - 1)
    ensures Probe(a, id, low, high) == Probe(b, id, low, high)
  {
  }

  /** A probe above a shared middle id continues in the same upper window. */
  lemma ProbeUpper(a: seq<User>, b: seq<User>, id: int, low: int, high: int)
    requires 0 <= low <= high < |a| && |a| == |b|
    requires a[Mid(low, high)].id == b[Mid(low, high)].id && id > a[Mid(low, high)].id
    requires Probe(a, id, Mid(low, high) + 1, high) == Probe(b, id, Mid(low, high) + 1, high)
    ensures Probe(a, id, low, high) == Probe(b, id, low, high)
  {
  }

  /** Position `p` is where `id` would go: the key before it is smaller and the key at it larger. */
  predicate Gap(keys: seq<User>, id: int, p: int) {
    0 <= p <= |keys| &&
    (p == 0 || keys[p - 1].id < id) &&
    (p == |keys| || id < keys[p].id)
  }

  /**
   * Whatever the order of the keys, a window whose outside neighbours bracket `id`
   * ends on a key equal to `id` or on a position bracketed the same way.
   */
  lemma {:induction false} ProbeGap(keys: seq<User>, id: int, low: int, high: int)
    requires 0 <= low <= high + 1 <= |keys|
    requires low == 0 || keys[low - 1].id < id
    requires high + 1 == |keys| || id < keys[high + 1].id
    ensures var p := Probe(keys, id, low, high).value;
      (p < |keys| && keys[p].id == id) || Gap(keys, id, p)
    decreases high - low
  {
    if low <= high {
      var mid := Mid(low, high);
      if id < keys[mid].id {
        ProbeGap(keys, id, low, mid - 1);
      } else if id > keys[mid].id {
        ProbeGap(keys, id, mid + 1, high);
      }
    }
  }

  /**
   * On keys ordered by id, `binarySearch` returns the index of `id` when it occurs
   * and otherwise the first index whose id exceeds it.
   */
  lemma LocateOrdered(keys: seq<User>, id: int)
    requires Ordered(keys)
    ensures var p := Locate(keys, id).value;
      (p < |keys| && keys[p].id == id) || (forall j :: 0 <= j < |keys| ==> keys[j].id != id)
    ensures var p := Locate(keys, id).value;
      (forall j :: 0 <= j < p ==> keys[j].id <= id) && (forall j :: p <= j < |keys| ==> id <= keys[j].id)
  {
    ProbeGap(keys, id, 0, |keys| - 1);
    var p := Locate(keys, id).value;
    if Gap(keys, id, p) {
      GapOrdered(keys, id, p);
    } else {
      HitOrdered(keys, id, p);
    }
  }

  /** On ordered keys, the keys before a gap for `id` are below it and the keys after it above. */
  lemma GapOrdered(keys: seq<User>, id: int, p: int)
    requires Ordered(keys) && Gap(keys, id, p)
    ensures forall j :: 0 <= j < p ==> keys[j].id < id
    ensures forall j :: p <= j < |keys| ==> id < keys[j].id
  {
    forall j | 0 <= j < p
      ensures keys[j].id < id
    {
      assert keys[j].id <= keys[p - 1].id;
    }
    forall j | p <= j < |keys|
      ensures id < keys[j].id
    {
      assert keys[p].id <= keys[j].id;
    }
  }

  /** On ordered keys, the keys before one with `id` are at most `id` and the keys from it on at least. */
  lemma HitOrdered(keys: seq<User>, id: int, p: int)
    requires Ordered(keys) && 0 <= p < |keys| && keys[p].id == id
    ensures forall j :: 0 <= j < p ==> keys[j].id <= id
    ensures forall j :: p <= j < |keys| ==> id <= keys[j].id
  {
    assert forall j :: 0 <= j < p ==> keys[j].id <= keys[p].id;
    assert forall j :: p <= j < |keys| ==> keys[p].id <= keys[j].id;
  }

  lemma {:induction false} ProbeAbove(keys: seq<User>, id: int, low: int, high: int)
    requires 0 <= low <= high + 1 <= |keys|
    requires forall j :: 0 <= j < |keys| ==> keys[j].id < id
    ensures Probe(keys, id, low, high).value == high + 1
    decreases high - low
  {
    if low <= high {
      ProbeAbove(keys, id, Mid(low, high) + 1, high);
    }
  }

  /** An id above every key sends `binarySearch` past the last key, whatever the order of the keys. */
  lemma LocateAbove(keys: seq<User>, id: int)
    requires forall j :: 0 <= j < |keys| ==> keys[j].id < id
    ensures Locate(keys, id).value == |keys|
  {
    ProbeAbove(keys, id, 0, |keys| - 1);
  }

  /** A user above every id extends a strictly ordered list at the end. */
  lemma AppendOrdered(s: seq<User>, u: User)
    requires StrictlyOrdered(s) && forall v :: v in s ==> v.id < u.id
    ensures StrictlyOrdered(s + [u])
  {
    var r := s + [u];
    forall i, j | 0 <= i < j < |r|
      ensures r[i].id < r[j].id
    {
      assert r[i] == s[i] && r[i] in s;
      if j < |s| {
        assert r[j] == s[j];
      }
    }
  }
}
