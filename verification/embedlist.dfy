/**
 * The older intrusive ring of src/embedlist.rs (`EmbedList`, whose root is called
 * `child`). It shares the element link fields (`Links`) and the ring vocabulary with
 * `IntrusiveLists`; `insert_anywhere` is modelled as written, including its defect.
 */
module EmbedLists {
  import opened Wrappers
  import opened Rings

  datatype EmbedList = EmbedList(child: Option<nat>)

  /** `EmbedList::new`: the empty list. */
  function New(): EmbedList {
    EmbedList(None)
  }

  /** `EmbedList::root`: the root handle, if any. */
  function Root(l: EmbedList): Option<nat> {
    l.child
  }

  /** The empty list is the ring with no members, and it has no root. */
  lemma NewIsEmptyRing(left: seq<nat>, right: seq<nat>)
    ensures IsRing(left, right, New().child, [])
    ensures Root(New()) == None
  {
  }

  /** `root` reads the first member of the list's ring; an empty ring has none. */
  lemma RootOfRing(left: seq<nat>, right: seq<nat>, l: EmbedList, s: seq<nat>)
    requires IsRing(left, right, l.child, s)
    ensures Root(l) == if s == [] then None else Some(s[0])
    ensures Root(l).Some? ==> Root(l).value in s
  {
  }

  /** `embedlist_initalize`: make `elem` a self-looped singleton ring. */
  method EmbedlistInitalize(links: Links, elem: nat)
    requires elem < |links.left| && elem < |links.right|
    modifies links
    ensures links.left == old(links.left)[elem := elem]
    ensures links.right == old(links.right)[elem := elem]
    ensures IsRing(links.left, links.right, Some(elem), [elem])
  {
    links.left := links.left[elem := elem];
    links.right := links.right[elem := elem];
  }

  /**
   * The links that `insert_anywhere` writes, with `rightmost` the neighbour it read:
   * `value` goes between `rightmost` and the root.
   */
  ghost predicate InsertWrites(left: seq<nat>, right: seq<nat>, root: nat, value: nat, rightmost: nat,
                               left': seq<nat>, right': seq<nat>)
  {
    && value < |left| && root < |left| && value < |right| && rightmost < |right|
    && left' == left[value := rightmost][root := value]
    && right' == right[value := root][rightmost := value]
  }

  /**
   * Placing `value` between the root's left neighbour and the root (what `insert_anywhere`
   * intends) keeps a valid ring, with `value` last in ring order.
   */
  lemma {:induction false} InsertBeforeRoot(left: seq<nat>, right: seq<nat>, s: seq<nat>, value: nat,
                                            left': seq<nat>, right': seq<nat>)
    requires s != [] && IsRing(left, right, Some(s[0]), s)
    requires value < |left| && value < |right| && left[value] == value && right[value] == value
    requires value !in s
    requires InsertWrites(left, right, s[0], value, left[s[0]], left', right')
    ensures IsRing(left', right', Some(s[0]), s + [value])
  {
    SingletonRing(left, right, value);
    assert left[s[0]] == s[Pred(0, |s|)];
    assert right' == right[value := s[0]][left[s[0]] := right[value]];
    assert left' == left[right[value] := left[s[0]]][s[0] := value];
    MergeRing(left, right, [value], s, left', right');
    assert MergeOrder([value], s) == [value] + s;
    RotateRing(left', right', [value] + s, 1);
    assert Rotate([value] + s, 1) == s + [value];
  }

  /**
   * `insert_anywhere` as written reads `rightmost` from the root's `right` link
   * (src/embedlist.rs:38). On a ring of one or two members that is also the left
   * neighbour, so the ring stays valid with `value` last in ring order.
   */
  method InsertAnywhere(links: Links, l: EmbedList, ghost s: seq<nat>, value: nat) returns (l': EmbedList)
    requires IsRing(links.left, links.right, l.child, s)
    requires value < |links.left| && value < |links.right|
    requires links.left[value] == value && links.right[value] == value
    requires value !in s
    modifies links
    ensures l'.child == if l.child.None? then Some(value) else l.child
    ensures l.child.None? ==> links.left == old(links.left) && links.right == old(links.right)
    ensures l.child.Some? ==>
      InsertWrites(old(links.left), old(links.right), s[0], value, old(links.right)[s[0]], links.left, links.right)
    ensures |s| <= 2 ==> IsRing(links.left, links.right, l'.child, s + [value])
  {
    if l.child.None? {
      SingletonRing(links.left, links.right, value);
      return EmbedList(Some(value));
    }
    var leftmost := l.child.value;
    var rightmost := links.right[leftmost];
    ghost var left0, right0 := links.left, links.right;
    links.left := links.left[value := rightmost];
    links.right := links.right[value := leftmost];
    links.left := links.left[leftmost := value];
    links.right := links.right[rightmost := value];
    l' := l;
    if |s| <= 2 {
      assert right0[s[0]] == s[Succ(0, |s|)] && left0[s[0]] == s[Pred(0, |s|)];
      InsertBeforeRoot(left0, right0, s, value, links.left, links.right);
    }
  }

  /**
   * The defect of `insert_anywhere`: on a ring of three or more members the written
   * links cut the former last member out. Its `right` still leads to the root, but the
   * root's `left` now is `value`, so no valid ring through the root contains it.
   */
  lemma InsertAnywhereBreaksRing(left: seq<nat>, right: seq<nat>, s: seq<nat>, value: nat,
                                 left': seq<nat>, right': seq<nat>)
    requires |s| >= 3 && IsRing(left, right, Some(s[0]), s)
    requires value < |left| && value < |right| && left[value] == value && right[value] == value
    requires value !in s
    requires InsertWrites(left, right, s[0], value, right[s[0]], left', right')
    ensures right'[s[|s| - 1]] == s[0] && left'[s[0]] == value
    ensures left'[right'[s[|s| - 1]]] != s[|s| - 1]
    ensures forall s' | s[|s| - 1] in s' :: !IsRing(left', right', Some(s[0]), s')
  {
    var n := |s|;
    var last := s[n - 1];
    assert right[s[0]] == s[1] && right[last] == s[Succ(n - 1, n)];
    assert last != s[1] && last != value;
    forall s' | last in s'
      ensures !IsRing(left', right', Some(s[0]), s')
    {
      if IsRing(left', right', Some(s[0]), s') {
        RingNeighbours(left', right', Some(s[0]), s', last);
      }
    }
  }

  /** The evidently intended `insert_anywhere`: read the root's `left` link instead. */
  method InsertAnywhereFixed(links: Links, l: EmbedList, ghost s: seq<nat>, value: nat) returns (l': EmbedList)
    requires IsRing(links.left, links.right, l.child, s)
    requires value < |links.left| && value < |links.right|
    requires links.left[value] == value && links.right[value] == value
    requires value !in s
    modifies links
    ensures l'.child == if l.child.None? then Some(value) else l.child
    ensures l.child.Some? ==>
      InsertWrites(old(links.left), old(links.right), s[0], value, old(links.left)[s[0]], links.left, links.right)
    ensures IsRing(links.left, links.right, l'.child, s + [value])
  {
    if l.child.None? {
      SingletonRing(links.left, links.right, value);
      return EmbedList(Some(value));
    }
    var leftmost := l.child.value;
    var rightmost := links.left[leftmost];
    ghost var left0, right0 := links.left, links.right;
    links.left := links.left[value := rightmost];
    links.right := links.right[value := leftmost];
    links.left := links.left[leftmost := value];
    links.right := links.right[rightmost := value];
    InsertBeforeRoot(left0, right0, s, value, links.left, links.right);
    l' := l;
  }

  /**
   * `insert(node, as_root)` as written: `insert_anywhere`, then make `node` the root when
   * asked. An empty list gets `node` as root either way; otherwise without `as_root` the
   * root is unchanged. The ring stays valid while it had at most two members; from three
   * members on, the former last member is cut out of the ring through the old root.
   */
  method Insert(links: Links, l: EmbedList, ghost s: seq<nat>, node: nat, asRoot: bool) returns (l': EmbedList)
    requires IsRing(links.left, links.right, l.child, s)
    requires node < |links.left| && node < |links.right|
    requires links.left[node] == node && links.right[node] == node
    requires node !in s
    modifies links
    ensures l'.child == if asRoot || l.child.None? then Some(node) else l.child
    ensures l.child.Some? ==>
      InsertWrites(old(links.left), old(links.right), s[0], node, old(links.right)[s[0]], links.left, links.right)
    ensures |s| <= 2 && !asRoot ==> IsRing(links.left, links.right, l'.child, s + [node])
    ensures |s| <= 2 && asRoot ==> IsRing(links.left, links.right, l'.child, [node] + s)
    ensures |s| >= 3 && !asRoot ==> forall s' | s[|s| - 1] in s' :: !IsRing(links.left, links.right, l'.child, s')
  {
    ghost var left0, right0 := links.left, links.right;
    l' := InsertAnywhere(links, l, s, node);
    if |s| >= 3 {
      InsertAnywhereBreaksRing(left0, right0, s, node, links.left, links.right);
    }
    if asRoot {
      l' := EmbedList(Some(node));
      if |s| <= 2 {
        RotateRing(links.left, links.right, s + [node], |s|);
        assert Rotate(s + [node], |s|) == [node] + s;
      }
    }
  }

  /**
   * `insert(node, as_root)` over the corrected `insert_anywhere`: the ring stays valid
   * whatever its size, with `node` the last member in ring order, or the first when it
   * becomes the root.
   */
  method InsertFixed(links: Links, l: EmbedList, ghost s: seq<nat>, node: nat, asRoot: bool) returns (l': EmbedList)
    requires IsRing(links.left, links.right, l.child, s)
    requires node < |links.left| && node < |links.right|
    requires links.left[node] == node && links.right[node] == node
    requires node !in s
    modifies links
    ensures l'.child == if asRoot || l.child.None? then Some(node) else l.child
    ensures l.child.Some? ==>
      InsertWrites(old(links.left), old(links.right), s[0], node, old(links.left)[s[0]], links.left, links.right)
    ensures !asRoot ==> IsRing(links.left, links.right, l'.child, s + [node])
    ensures asRoot ==> IsRing(links.left, links.right, l'.child, [node] + s)
  {
    l' := InsertAnywhereFixed(links, l, s, node);
    if asRoot {
      l' := EmbedList(Some(node));
      RotateRing(links.left, links.right, s + [node], |s|);
      assert Rotate(s + [node], |s|) == [node] + s;
    }
  }

  /**
   * `extract_root`: an empty list yields None; a singleton yields its element and leaves
   * the list empty; otherwise the root's neighbours are spliced together, the root is
   * reset to a singleton and the former left neighbour becomes the root.
   */
  method ExtractRoot(links: Links, l: EmbedList, ghost s: seq<nat>) returns (l': EmbedList, x: Option<nat>)
    requires IsRing(links.left, links.right, l.child, s)
    modifies links
    ensures x == l.child
    ensures IsRing(links.left, links.right, l'.child, ExtractOrder(s))
    ensures x.Some? ==> x.value < |links.left| && x.value < |links.right|
    ensures x.Some? ==> links.left[x.value] == x.value && links.right[x.value] == x.value
    ensures |s| > 1 ==> l'.child == Some(s[|s| - 1])
    ensures |s| <= 1 ==> links.left == old(links.left) && links.right == old(links.right)
    ensures |s| > 1 ==>
      var r := s[0];
      && links.right == old(links.right)[old(links.left)[r] := old(links.right)[r]][r := r]
      && links.left == old(links.left)[old(links.right)[r] := old(links.left)[r]][r := r]
  {
    if l.child.None? {
      return l, None;
    }
    var root := l.child.value;
    var leftmost := links.left[root];
    var rightmost := links.right[root];
    if leftmost != root {
      ghost var left0, right0 := links.left, links.right;
      assert leftmost == s[Pred(0, |s|)];
      links.right := links.right[leftmost := rightmost];
      links.left := links.left[rightmost := leftmost];
      EmbedlistInitalize(links, root);
      ExtractRing(left0, right0, s, links.left, links.right);
      l' := EmbedList(Some(leftmost));
    } else {
      assert leftmost == s[Pred(0, |s|)];
      l' := EmbedList(None);
    }
    x := Some(root);
  }

  /**
   * `drop_custom`: visit every member exactly once in `right` order from the root, then
   * the list is empty. The callback invocations are returned as `visited`.
   */
  method DropCustom(links: Links, l: EmbedList, ghost s: seq<nat>) returns (visited: seq<nat>, l': EmbedList)
    requires IsRing(links.left, links.right, l.child, s)
    ensures visited == s
    ensures l'.child == None
  {
    if l.child.None? {
      return [], l;
    }
    var firstNode := l.child.value;
    var node := firstNode;
    ghost var i := 0;
    visited := [];
    while true
      invariant 0 <= i < |s| && node == s[i] && visited == s[..i]
      decreases |s| - i
    {
      var nextNode := links.right[node];
      visited := visited + [node];
      if nextNode == firstNode {
        assert Succ(i, |s|) == 0;
        break;
      }
      node := nextNode;
      i := i + 1;
    }
    l' := EmbedList(None);
  }
}
