/**
 * The link fields that every ring element carries (`left_mut` / `right_mut` of the
 * element traits in src/intrusive_list.rs and src/embedlist.rs), stored in an arena:
 * a handle is an index, and `left[x]` / `right[x]` are the two link fields of element x.
 *
 * A ring is described by a ghost sequence `s` listing its members in `right` order,
 * starting at the list's root. `IsRing` is the ring-validity invariant.
 */
module Rings {
  import opened Wrappers

  /** The link fields of all elements ever allocated. */
  class Links {
    var left: seq<nat>
    var right: seq<nat>

    constructor ()
      ensures left == [] && right == []
    {
      left, right := [], [];
    }
  }

  /** Position of the right neighbour of position i in a ring of n positions. */
  function Succ(i: nat, n: nat): nat
    requires i < n
  {
    if i + 1 == n then 0 else i + 1
  }

  /** Position of the left neighbour of position i in a ring of n positions. */
  function Pred(i: nat, n: nat): nat
    requires i < n
  {
    if i == 0 then n - 1 else i - 1
  }

  ghost predicate Distinct(s: seq<nat>) {
    forall i, j | 0 <= i < j < |s| :: s[i] != s[j]
  }

  ghost predicate Disjoint(s: seq<nat>, t: seq<nat>) {
    forall x | x in s :: x !in t
  }

  /**
   * `s` is the ring order starting at `root`: its members are distinct, and for every
   * member `right` leads to the next one and `left` to the previous one, cyclically.
   * The empty ring has no root.
   */
  ghost predicate IsRing(left: seq<nat>, right: seq<nat>, root: Option<nat>, s: seq<nat>) {
    && (if s == [] then root == None else root == Some(s[0]))
    && Distinct(s)
    && (forall i | 0 <= i < |s| :: s[i] < |left| && s[i] < |right|)
    && (forall i {:trigger right[s[i]]} | 0 <= i < |s| :: right[s[i]] == s[Succ(i, |s|)])
    && (forall i {:trigger left[s[i]]} | 0 <= i < |s| :: left[s[i]] == s[Pred(i, |s|)])
  }

  /** The link fields outside `touched` are those of the old state. */
  ghost predicate LinksKept(left: seq<nat>, right: seq<nat>, left': seq<nat>, right': seq<nat>, touched: set<nat>) {
    && |left'| == |left| && |right'| == |right|
    && (forall x | 0 <= x < |left| && x !in touched :: left'[x] == left[x])
    && (forall x | 0 <= x < |right| && x !in touched :: right'[x] == right[x])
  }

  function Members(s: seq<nat>): set<nat> {
    set x | x in s
  }

  /** Ring order after splicing ring `t` in right after the root of ring `s`. */
  function MergeOrder<T>(s: seq<T>, t: seq<T>): seq<T> {
    if s == [] then t else [s[0]] + t + s[1..]
  }

  /** Ring order after removing the root; the former left neighbour becomes the root. */
  function ExtractOrder<T>(s: seq<T>): seq<T> {
    if |s| <= 1 then [] else [s[|s| - 1]] + s[1..|s| - 1]
  }

  /** The same ring, read starting at position i. */
  function Rotate<T>(s: seq<T>, i: nat): seq<T>
    requires i <= |s|
  {
    s[i..] + s[..i]
  }

  lemma MergeOrderMultiset<T>(s: seq<T>, t: seq<T>)
    ensures multiset(MergeOrder(s, t)) == multiset(s) + multiset(t)
  {
    if s != [] {
      assert s == [s[0]] + s[1..];
    }
  }

  lemma ExtractOrderMultiset<T>(s: seq<T>)
    requires s != []
    ensures multiset(ExtractOrder(s)) == multiset(s[1..])
  {
    if |s| > 1 {
      assert s[1..] == s[1..|s| - 1] + [s[|s| - 1]];
    }
  }

  lemma RotateMultiset<T>(s: seq<T>, i: nat)
    requires i <= |s|
    ensures multiset(Rotate(s, i)) == multiset(s)
  {
    assert s == s[..i] + s[i..];
  }

  /**
   * Ring validity in the form of the link fields: every member's left neighbour has it as
   * right neighbour and vice versa.
   */
  lemma {:induction false} RingNeighbours(left: seq<nat>, right: seq<nat>, root: Option<nat>, s: seq<nat>, x: nat)
    requires IsRing(left, right, root, s)
    requires x in s
    ensures left[x] in s && right[x] in s
    ensures right[left[x]] == x && left[right[x]] == x
  {
    var i :| 0 <= i < |s| && s[i] == x;
    var p, n := Pred(i, |s|), Succ(i, |s|);
    assert Succ(p, |s|) == i && Pred(n, |s|) == i;
  }

  /** `right` applied k times, starting at x. */
  function Walk(right: seq<nat>, x: nat, k: nat): nat
    decreases k
  {
    if k == 0 then x
    else
      var y := Walk(right, x, k - 1);
      if y < |right| then right[y] else y
  }

  /**
   * Following `right` from the root visits the members in ring order, each exactly once,
   * and is back at the root after |s| steps.
   */
  lemma {:induction false} RingWalk(left: seq<nat>, right: seq<nat>, s: seq<nat>, k: nat)
    requires s != [] && IsRing(left, right, Some(s[0]), s)
    requires k <= |s|
    ensures k < |s| ==> Walk(right, s[0], k) == s[k]
    ensures k == |s| ==> Walk(right, s[0], k) == s[0]
  {
    if k > 0 {
      RingWalk(left, right, s, k - 1);
      assert Walk(right, s[0], k) == right[s[k - 1]];
    }
  }

  lemma SingletonRing(left: seq<nat>, right: seq<nat>, x: nat)
    requires x < |left| && x < |right| && left[x] == x && right[x] == x
    ensures IsRing(left, right, Some(x), [x])
  {
  }

  /** Ring validity only depends on the link fields of the members. */
  lemma RingFrame(left: seq<nat>, right: seq<nat>, left': seq<nat>, right': seq<nat>, root: Option<nat>, s: seq<nat>)
    requires IsRing(left, right, root, s)
    requires forall i | 0 <= i < |s| :: s[i] < |left'| && s[i] < |right'| && left'[s[i]] == left[s[i]] && right'[s[i]] == right[s[i]]
    ensures IsRing(left', right', root, s)
  {
  }

  /** Position in `s` of position k of `Rotate(s, i)`. */
  function Shift(k: nat, i: nat, n: nat): nat
    requires k < n && i < n
  {
    if k + i < n then k + i else k + i - n
  }

  lemma RotateAt<T>(s: seq<T>, i: nat, k: nat)
    requires i < |s| && k < |s|
    ensures |Rotate(s, i)| == |s|
    ensures Rotate(s, i)[k] == s[Shift(k, i, |s|)]
    ensures Shift(Succ(k, |s|), i, |s|) == Succ(Shift(k, i, |s|), |s|)
    ensures Shift(Pred(k, |s|), i, |s|) == Pred(Shift(k, i, |s|), |s|)
  {
  }

  /** Choosing another member as root leaves a valid ring, read from that member. */
  lemma RotateRing(left: seq<nat>, right: seq<nat>, s: seq<nat>, i: nat)
    requires s != [] && IsRing(left, right, Some(s[0]), s)
    requires i < |s|
    ensures IsRing(left, right, Some(s[i]), Rotate(s, i))
  {
    var u := Rotate(s, i);
    var n := |s|;
    RotateAt(s, i, 0);
    forall a, b | 0 <= a < b < n
      ensures u[a] != u[b]
    {
      RotateAt(s, i, a);
      RotateAt(s, i, b);
    }
    forall k | 0 <= k < n
      ensures u[k] < |left| && u[k] < |right|
      ensures right[u[k]] == u[Succ(k, n)] && left[u[k]] == u[Pred(k, n)]
    {
      RotateAt(s, i, k);
      RotateAt(s, i, Succ(k, n));
      RotateAt(s, i, Pred(k, n));
    }
  }

  /** The facts about two disjoint non-empty rings that the splice of `merge` relies on. */
  ghost predicate Spliceable(left: seq<nat>, right: seq<nat>, s: seq<nat>, t: seq<nat>) {
    && s != [] && t != []
    && IsRing(left, right, Some(s[0]), s) && IsRing(left, right, Some(t[0]), t)
    && Disjoint(s, t)
  }

  lemma MergeAt(s: seq<nat>, t: seq<nat>, i: nat)
    requires s != [] && i < |s| + |t|
    ensures |MergeOrder(s, t)| == |s| + |t|
    ensures i == 0 ==> MergeOrder(s, t)[i] == s[0]
    ensures 0 < i <= |t| ==> MergeOrder(s, t)[i] == t[i - 1]
    ensures |t| < i ==> MergeOrder(s, t)[i] == s[i - |t|]
  {
  }

  lemma MergeDistinct(left: seq<nat>, right: seq<nat>, s: seq<nat>, t: seq<nat>)
    requires Spliceable(left, right, s, t)
    ensures Distinct(MergeOrder(s, t))
  {
    var u, m := MergeOrder(s, t), |t|;
    forall a, b | 0 <= a < b < |u|
      ensures u[a] != u[b]
    {
      MergeAt(s, t, a);
      MergeAt(s, t, b);
      if a == 0 {
        if b <= m { assert u[b] in t; }
      } else if a <= m && b > m {
        assert u[a] in t;
      }
    }
  }

  /** Neighbour positions of the root in the spliced order. */
  lemma MergeNeighboursRoot<T>(s: seq<T>, t: seq<T>)
    requires s != [] && t != []
    ensures var u, N := MergeOrder(s, t), |s| + |t|;
      && |u| == N && u[0] == s[0]
      && u[Succ(0, N)] == t[0]
      && u[Pred(0, N)] == if |s| == 1 then t[|t| - 1] else s[|s| - 1]
  {
    assert MergeOrder(s, t) == [s[0]] + t + s[1..];
  }

  /** Neighbour positions of a member of `t` in the spliced order. */
  lemma MergeNeighboursOther<T>(s: seq<T>, t: seq<T>, i: nat)
    requires s != [] && 0 < i <= |t|
    ensures var u, N := MergeOrder(s, t), |s| + |t|;
      && |u| == N && u[i] == t[i - 1]
      && u[Succ(i, N)] == (if i == |t| then s[Succ(0, |s|)] else t[i])
      && u[Pred(i, N)] == if i == 1 then s[0] else t[i - 2]
  {
    assert MergeOrder(s, t) == [s[0]] + t + s[1..];
  }

  /** Links of the root of `s` after the splice. */
  lemma MergeLinksRoot(left: seq<nat>, right: seq<nat>, s: seq<nat>, t: seq<nat>, left': seq<nat>, right': seq<nat>)
    requires Spliceable(left, right, s, t)
    requires right' == right[s[0] := t[0]][left[t[0]] := right[s[0]]]
    requires left' == left[right[s[0]] := left[t[0]]][t[0] := s[0]]
    ensures var u, N := MergeOrder(s, t), |s| + |t|;
      |u| == N && right'[u[0]] == u[Succ(0, N)] && left'[u[0]] == u[Pred(0, N)]
  {
    MergeNeighboursRoot(s, t);
    assert s[0] in s && t[0] in t && t[|t| - 1] in t;
    assert |s| > 1 ==> s[1] != s[0];
  }

  /** Links of a member of `t` after the splice. */
  lemma MergeLinksOther(left: seq<nat>, right: seq<nat>, s: seq<nat>, t: seq<nat>, left': seq<nat>, right': seq<nat>, i: nat)
    requires s != [] && t != [] && IsRing(left, right, Some(t[0]), t)
    requires s[0] < |right| && s[0] < |left| && right[s[0]] == s[Succ(0, |s|)] && s[Succ(0, |s|)] < |left|
    requires s[0] !in t && s[Succ(0, |s|)] !in t
    requires right' == right[s[0] := t[0]][left[t[0]] := right[s[0]]]
    requires left' == left[right[s[0]] := left[t[0]]][t[0] := s[0]]
    requires 0 < i <= |t|
    ensures var u, N := MergeOrder(s, t), |s| + |t|;
      |u| == N && right'[u[i]] == u[Succ(i, N)] && left'[u[i]] == u[Pred(i, N)]
  {
    MergeNeighboursOther(s, t, i);
    var m := |t|;
    RingPosition(left, right, t, i - 1);
    SpliceAt(left, right, left', right', s[0], t[0], s[Succ(0, |s|)], t[m - 1], t[i - 1]);
  }

  /** The neighbours of the member at position k, and whether it is the root or its left neighbour. */
  lemma RingPosition(left: seq<nat>, right: seq<nat>, t: seq<nat>, k: nat)
    requires t != [] && IsRing(left, right, Some(t[0]), t) && k < |t|
    ensures right[t[k]] == t[Succ(k, |t|)] && left[t[k]] == t[Pred(k, |t|)]
    ensures left[t[0]] == t[|t| - 1]
    ensures t[k] == t[0] <==> k == 0
    ensures t[k] == t[|t| - 1] <==> k == |t| - 1
  {
  }

  /** Where the splice writes land. */
  lemma SpliceAt(left: seq<nat>, right: seq<nat>, left': seq<nat>, right': seq<nat>, s0: nat, t0: nat, sl: nat, tr: nat, x: nat)
    requires s0 < |right| && tr < |right| && sl < |left| && t0 < |left| && x < |left| && x < |right|
    requires right' == right[s0 := t0][tr := sl]
    requires left' == left[sl := tr][t0 := s0]
    ensures right'[x] == if x == tr then sl else if x == s0 then t0 else right[x]
    ensures left'[x] == if x == t0 then s0 else if x == sl then tr else left[x]
  {
  }

  /** The splice writes miss every non-root member of `s` except at `left` of its second member. */
  lemma SpliceMiss(left: seq<nat>, right: seq<nat>, left': seq<nat>, right': seq<nat>, s0: nat, t0: nat, sl: nat, tr: nat, x: nat)
    requires s0 < |right| && tr < |right| && sl < |left| && t0 < |left| && x < |left| && x < |right|
    requires right' == right[s0 := t0][tr := sl]
    requires left' == left[sl := tr][t0 := s0]
    requires x != s0 && x != tr && x != t0
    ensures right'[x] == right[x]
    ensures left'[x] == if x == sl then tr else left[x]
  {
  }

  /** Neighbour positions of a non-root member of `s` in the spliced order. */
  lemma MergeNeighboursSelf<T>(s: seq<T>, t: seq<T>, i: nat)
    requires t != [] && |t| < i < |s| + |t|
    ensures var u, N, j := MergeOrder(s, t), |s| + |t|, i - |t|;
      && |u| == N && u[i] == s[j]
      && u[Succ(i, N)] == s[Succ(j, |s|)]
      && u[Pred(i, N)] == if j == 1 then t[|t| - 1] else s[Pred(j, |s|)]
  {
    var N := |s| + |t|;
    assert MergeOrder(s, t) == [s[0]] + t + s[1..];
  }

  /** Links of a non-root member of `s` after the splice. */
  lemma MergeLinksSelf(left: seq<nat>, right: seq<nat>, s: seq<nat>, t: seq<nat>, left': seq<nat>, right': seq<nat>, i: nat)
    requires Spliceable(left, right, s, t)
    requires right' == right[s[0] := t[0]][left[t[0]] := right[s[0]]]
    requires left' == left[right[s[0]] := left[t[0]]][t[0] := s[0]]
    requires |t| < i < |s| + |t|
    ensures var u, N := MergeOrder(s, t), |s| + |t|;
      |u| == N && right'[u[i]] == u[Succ(i, N)] && left'[u[i]] == u[Pred(i, N)]
  {
    MergeNeighboursSelf(s, t, i);
    var j := i - |t|;
    var x := s[j];
    assert x in s && t[0] in t && t[|t| - 1] in t;
    assert x != s[1] <== j != 1;
    SpliceMiss(left, right, left', right', s[0], t[0], s[1], t[|t| - 1], x);
  }

  /**
   * The four link writes of `merge` (src/intrusive_list.rs:69-74) splice two disjoint
   * non-empty rings into one whose order is: `s`'s root, all of `t` from its root, then
   * the rest of `s`.
   */
  lemma MergeRing(left: seq<nat>, right: seq<nat>, s: seq<nat>, t: seq<nat>, left': seq<nat>, right': seq<nat>)
    requires s != [] && t != []
    requires IsRing(left, right, Some(s[0]), s) && IsRing(left, right, Some(t[0]), t)
    requires Disjoint(s, t)
    requires right' == right[s[0] := t[0]][left[t[0]] := right[s[0]]]
    requires left' == left[right[s[0]] := left[t[0]]][t[0] := s[0]]
    ensures IsRing(left', right', Some(s[0]), MergeOrder(s, t))
  {
    var u, N := MergeOrder(s, t), |s| + |t|;
    MergeDistinct(left, right, s, t);
    MergeAt(s, t, 0);
    forall i | 0 <= i < N
      ensures u[i] < |left'| && u[i] < |right'|
      ensures right'[u[i]] == u[Succ(i, N)] && left'[u[i]] == u[Pred(i, N)]
    {
      MergeAt(s, t, i);
      if i == 0 {
        MergeLinksRoot(left, right, s, t, left', right');
      } else if i <= |t| {
        assert s[0] in s && s[Succ(0, |s|)] in s;
        MergeLinksOther(left, right, s, t, left', right', i);
      } else {
        MergeLinksSelf(left, right, s, t, left', right', i);
      }
    }
  }

  /** The splice of `merge` writes only links of members of the two rings. */
  lemma MergeKept(left: seq<nat>, right: seq<nat>, s: seq<nat>, t: seq<nat>, left': seq<nat>, right': seq<nat>)
    requires Spliceable(left, right, s, t)
    requires right' == right[s[0] := t[0]][left[t[0]] := right[s[0]]]
    requires left' == left[right[s[0]] := left[t[0]]][t[0] := s[0]]
    ensures LinksKept(left, right, left', right', Members(s) + Members(t))
  {
    assert left[t[0]] == t[Pred(0, |t|)];
    assert right[s[0]] == s[Succ(0, |s|)];
  }

  /**
   * The link writes of `extract_root` (src/intrusive_list.rs:34-39) on a ring of two or
   * more members: the neighbours of the root are spliced together, the root becomes a
   * singleton, and the ring is read from the former left neighbour.
   */
  lemma ExtractRing(left: seq<nat>, right: seq<nat>, s: seq<nat>, left': seq<nat>, right': seq<nat>)
    requires |s| > 1 && IsRing(left, right, Some(s[0]), s)
    requires right' == right[left[s[0]] := right[s[0]]][s[0] := s[0]]
    requires left' == left[right[s[0]] := left[s[0]]][s[0] := s[0]]
    ensures IsRing(left', right', Some(s[|s| - 1]), ExtractOrder(s))
    ensures left'[s[0]] == s[0] && right'[s[0]] == s[0]
  {
    var n := |s|;
    var u := ExtractOrder(s);
    var N := n - 1;
    var lm, rm := left[s[0]], right[s[0]];
    assert lm == s[n - 1] && rm == s[1];
    assert |u| == N;
    forall a, b | 0 <= a < b < N
      ensures u[a] != u[b]
    {
      if a == 0 {
        assert u[b] == s[b];
      } else {
        assert u[a] == s[a] && u[b] == s[b];
      }
    }
    forall i | 0 <= i < N
      ensures u[i] < |left'| && u[i] < |right'| && u[i] != s[0]
    {
      if i > 0 {
        assert u[i] == s[i];
      }
    }
    forall i | 0 <= i < N
      ensures right'[u[i]] == u[Succ(i, N)] && left'[u[i]] == u[Pred(i, N)]
    {
      if i == 0 {
        if N > 1 {
          assert u[1] == s[1];
          assert u[N - 1] == s[N - 1];
          assert lm != rm;
        }
      } else {
        var x := s[i];
        assert u[i] == x;
        if i + 1 < N {
          assert u[i + 1] == s[i + 1];
          assert x != lm;
        }
        if i > 1 {
          assert u[i - 1] == s[i - 1];
          assert x != rm;
        }
      }
    }
  }
}
