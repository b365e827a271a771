/**
 * The intrusive circular doubly-linked list of src/intrusive_list.rs. The list value holds
 * only an optional root handle; the links live in the elements (the `Links` arena).
 * Operations that take `&mut self` return the updated list value; the ghost sequence
 * `s` passed beside a list is its ring order starting at the root.
 */
module IntrusiveLists {
  import opened Wrappers
  import opened Rings

  datatype IntrusiveList = IntrusiveList(root: Option<nat>)

  /** `IntrusiveList::new`: the empty list. */
  function New(): IntrusiveList {
    IntrusiveList(None)
  }

  /** `IntrusiveList::singleton`: a list whose root is `node`. */
  function Singleton(node: nat): IntrusiveList {
    IntrusiveList(Some(node))
  }

  /** `IntrusiveList::root`: the root handle, if any. */
  function Root(l: IntrusiveList): Option<nat> {
    l.root
  }

  /** `IntrusiveList::set_root`: designate another member as root (links untouched). */
  function SetRoot(l: IntrusiveList, node: nat): IntrusiveList
    requires l.root.Some?
  {
    IntrusiveList(Some(node))
  }

  lemma NewIsEmptyRing(left: seq<nat>, right: seq<nat>)
    ensures IsRing(left, right, New().root, [])
    ensures Root(New()) == None
  {
  }

  /** `root` reads the first member of the list's ring; an empty ring has none. */
  lemma RootOfRing(left: seq<nat>, right: seq<nat>, l: IntrusiveList, s: seq<nat>)
    requires IsRing(left, right, l.root, s)
    ensures Root(l) == if s == [] then None else Some(s[0])
    ensures Root(l).Some? ==> Root(l).value in s
  {
  }

  /** A singleton list over a self-looped element is the one-member ring. */
  lemma SingletonIsRing(left: seq<nat>, right: seq<nat>, node: nat)
    requires node < |left| && node < |right| && left[node] == node && right[node] == node
    ensures IsRing(left, right, Singleton(node).root, [node])
    ensures Root(Singleton(node)) == Some(node)
  {
    SingletonRing(left, right, node);
  }

  /**
   * `set_root` on a non-empty ring keeps the same members and links and only changes
   * where the ring order starts.
   */
  lemma SetRootRotates(left: seq<nat>, right: seq<nat>, l: IntrusiveList, s: seq<nat>, i: nat)
    requires IsRing(left, right, l.root, s)
    requires i < |s|
    ensures l.root.Some?
    ensures IsRing(left, right, SetRoot(l, s[i]).root, Rotate(s, i))
    ensures multiset(Rotate(s, i)) == multiset(s)
  {
    RotateRing(left, right, s, i);
    RotateMultiset(s, i);
  }

  /** `initialize_elem`: make `elem` a self-looped singleton ring. */
  method InitializeElem(links: Links, elem: nat)
    requires elem < |links.left| && elem < |links.right|
    modifies links
    ensures links.left == old(links.left)[elem := elem]
    ensures links.right == old(links.right)[elem := elem]
    ensures IsRing(links.left, links.right, Some(elem), [elem])
  {
    links.left := links.left[elem := elem];
    links.right := links.right[elem := elem];
  }

  /**
   * `merge`: splice the ring of `other` in right after the root of `l`. The root stays
   * `l`'s root; with one side empty the other side is returned and no link is written.
   */
  method Merge(links: Links, l: IntrusiveList, ghost s: seq<nat>, other: IntrusiveList, ghost t: seq<nat>)
    returns (merged: IntrusiveList)
    requires IsRing(links.left, links.right, l.root, s)
    requires IsRing(links.left, links.right, other.root, t)
    requires Disjoint(s, t)
    modifies links
    ensures IsRing(links.left, links.right, merged.root, MergeOrder(s, t))
    ensures merged.root == if l.root.Some? then l.root else other.root
    ensures LinksKept(old(links.left), old(links.right), links.left, links.right, Members(s) + Members(t))
    ensures s == [] || t == [] ==> links.left == old(links.left) && links.right == old(links.right)
    ensures s != [] && t != [] ==>
      && links.right == old(links.right)[s[0] := t[0]][old(links.left)[t[0]] := old(links.right)[s[0]]]
      && links.left == old(links.left)[old(links.right)[s[0]] := old(links.left)[t[0]]][t[0] := s[0]]
  {
    if l.root.Some? && other.root.Some? {
      var selfRightmost, otherLeftmost := l.root.value, other.root.value;
      var selfLeftmost := links.right[selfRightmost];
      var otherRightmost := links.left[otherLeftmost];
      ghost var left0, right0 := links.left, links.right;
      links.right := links.right[selfRightmost := otherLeftmost];
      links.left := links.left[selfLeftmost := otherRightmost];
      links.left := links.left[otherLeftmost := selfRightmost];
      links.right := links.right[otherRightmost := selfLeftmost];
      assert Spliceable(left0, right0, s, t);
      MergeRing(left0, right0, s, t, links.left, links.right);
      MergeKept(left0, right0, s, t, links.left, links.right);
      merged := IntrusiveList(Some(selfRightmost));
    } else if l.root.Some? {
      assert t == [] && s == [s[0]] + s[1..];
      assert MergeOrder(s, t) == s;
      merged := IntrusiveList(Some(l.root.value));
    } else if other.root.Some? {
      merged := IntrusiveList(Some(other.root.value));
    } else {
      merged := IntrusiveList(None);
    }
  }

  /**
   * `insert`: merge with the singleton of `node`. Into an empty list the node becomes
   * the root; otherwise it lands right after the root, which stays the root.
   */
  method Insert(links: Links, l: IntrusiveList, ghost s: seq<nat>, node: nat) returns (l': IntrusiveList)
    requires IsRing(links.left, links.right, l.root, s)
    requires node < |links.left| && node < |links.right|
    requires links.left[node] == node && links.right[node] == node
    requires node !in s
    modifies links
    ensures IsRing(links.left, links.right, l'.root, MergeOrder(s, [node]))
    ensures l'.root == if l.root.Some? then l.root else Some(node)
    ensures LinksKept(old(links.left), old(links.right), links.left, links.right, Members(s) + {node})
  {
    var other := Singleton(node);
    SingletonIsRing(links.left, links.right, node);
    l' := Merge(links, l, s, other, [node]);
    assert Members([node]) == {node};
  }

  /**
   * `extract_root`: remove the root. An empty list yields None; a singleton yields its
   * element and leaves the list empty; otherwise the root's neighbours are spliced
   * together, the root is reset to a singleton, and its former left neighbour becomes the
   * root. No other element's links change.
   */
  method ExtractRoot(links: Links, l: IntrusiveList, ghost s: seq<nat>) returns (l': IntrusiveList, x: Option<nat>)
    requires IsRing(links.left, links.right, l.root, s)
    modifies links
    ensures x == l.root
    ensures IsRing(links.left, links.right, l'.root, ExtractOrder(s))
    ensures x.Some? ==> x.value < |links.left| && x.value < |links.right|
    ensures x.Some? ==> links.left[x.value] == x.value && links.right[x.value] == x.value
    ensures |s| > 1 ==> l'.root == Some(s[|s| - 1])
    ensures LinksKept(old(links.left), old(links.right), links.left, links.right, Members(s))
    ensures |s| <= 1 ==> links.left == old(links.left) && links.right == old(links.right)
    ensures |s| > 1 ==>
      var r := s[0];
      && links.right == old(links.right)[old(links.left)[r] := old(links.right)[r]][r := r]
      && links.left == old(links.left)[old(links.right)[r] := old(links.left)[r]][r := r]
  {
    if l.root.None? {
      return l, None;
    }
    var root := l.root.value;
    var leftmost := links.left[root];
    var rightmost := links.right[root];
    if leftmost != root {
      ghost var left0, right0 := links.left, links.right;
      assert leftmost == s[Pred(0, |s|)];
      links.right := links.right[leftmost := rightmost];
      links.left := links.left[rightmost := leftmost];
      InitializeElem(links, root);
      ExtractRing(left0, right0, s, links.left, links.right);
      assert leftmost in s && rightmost in s;
      l' := IntrusiveList(Some(leftmost));
    } else {
      assert leftmost == s[Pred(0, |s|)];
      l' := IntrusiveList(None);
    }
    x := Some(root);
  }

  /**
   * `drop_custom`: hand every member to the callback exactly once, in `right` order from
   * the root, reading the next link before each call; then the list is empty. The
   * callback invocations are returned as the sequence `visited`.
   */
  method DropCustom(links: Links, l: IntrusiveList, ghost s: seq<nat>) returns (visited: seq<nat>, l': IntrusiveList)
    requires IsRing(links.left, links.right, l.root, s)
    ensures visited == s
    ensures l'.root == None
  {
    if l.root.None? {
      return [], l;
    }
    var firstNode := l.root.value;
    var node := firstNode;
    ghost var i := 0;
    visited := [];
    while true
      invariant 0 <= i < |s| && node == s[i] && visited == s[..i]
      decreases |s| - i
    {
      var nextNode := links.right[node];
      visited := visited + [node];
      if nextNode == firstNode {
        assert Succ(i, |s|) == 0;
        break;
      }
      node := nextNode;
      i := i + 1;
    }
    l' := IntrusiveList(None);
  }
}
