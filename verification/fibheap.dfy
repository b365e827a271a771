/**
 * The Fibonacci heap of src/lib.rs over the ring of src/intrusive_list.rs.
 *
 * Nodes live in a `Store`: the arena of every `Node` ever allocated, indexed by handle.
 * A `FibHeap` owns a root ring `trees` and a counter `len`; its ghost `forest` lists the
 * trees hanging off the root ring, in ring order, and is the abstraction all contracts
 * are stated against.
 */
module FibHeaps {
  import opened Wrappers
  import opened Rings
  import opened IntrusiveLists
  import opened Forests
  import opened HeapSteps

  /** The fields of every node ever allocated (`Node` in src/lib.rs), by handle. */
  class Store {
    const links: Links
    var key: seq<i32>
    var degree: seq<nat>
    var mark: seq<bool>
    var children: seq<IntrusiveList>

    ghost predicate Valid()
      reads this, links
    {
      && |links.left| == |key| && |links.right| == |key|
      && |degree| == |key| && |mark| == |key| && |children| == |key|
    }

    ghost function View(): Mem
      reads this, links
    {
      Mem(links.left, links.right, key, degree, children)
    }

    constructor ()
      ensures Valid() && fresh(links)
      ensures key == [] && degree == [] && mark == [] && children == []
    {
      links := new Links();
      key, degree, mark, children := [], [], [], [];
    }

    /**
     * `Node::new`: a fresh node with the given key, no children, degree 0, unmarked,
     * and linked to itself.
     */
    method NewNode(k: i32) returns (node: nat)
      requires Valid()
      modifies this, links
      ensures Valid()
      ensures node == old(|key|)
      ensures key == old(key) + [k] && degree == old(degree) + [0]
      ensures mark == old(mark) + [false] && children == old(children) + [New()]
      ensures links.left == old(links.left) + [node] && links.right == old(links.right) + [node]
    {
      node := |key|;
      key, degree, mark, children := key + [k], degree + [0], mark + [false], children + [New()];
      links.left, links.right := links.left + [0], links.right + [0];
      InitializeElem(links, node);
    }
  }

  class FibHeap {
    const store: Store
    var trees: IntrusiveList
    var len: nat
    ghost var forest: seq<Tree>

    /**
     * The heap invariant: `trees` is the ring of the forest's roots, every tree is
     * heap-ordered with consistent degrees and child rings, no node occurs twice, the
     * ring's root holds the minimum root key, and `len` counts the nodes.
     */
    ghost predicate Valid()
      reads this, store, store.links
    {
      && store.Valid()
      && Shape(store.View(), trees.root, forest)
      && RootIsMin(store.key, forest)
      && len == |KeysF(store.key, forest)|
    }

    /** The multiset of the keys in the heap. */
    ghost function Keys(): multiset<i32>
      reads this, store
    {
      KeysF(store.key, forest)
    }

    /** `len` is the number of keys. */
    lemma LenIsNodeCount()
      requires Valid()
      ensures |NodesF(forest)| == len
      ensures len == 0 <==> trees.root.None?
      ensures len == 0 <==> forest == []
    {
      KeysCount(store.key, forest);
      if forest != [] {
        assert forest[0].id in NodesF(forest);
      }
    }

    /** Every node of the heap is a node of its arena. */
    lemma NodesInStore()
      requires Valid()
      ensures forall x | x in NodesF(forest) :: x < |store.key|
    {
      forall x | x in NodesF(forest)
        ensures x < |store.key|
      {
        ForestInRange(store.View(), forest, x);
      }
    }

    /**
     * Writes to the arena that stay off this heap's nodes keep it valid: `m` is the arena
     * as the heap last saw it, and the writes since went to the link fields of `L` and to
     * `degree` and `children` of `D`. This is how several heaps share one arena.
     */
    lemma KeptBy(m: Mem, L: set<nat>, D: set<nat>)
      requires store.Valid() && Shape(m, trees.root, forest) && RootIsMin(m.key, forest)
      requires len == |KeysF(m.key, forest)|
      requires Agree(m, store.View(), L, D) && Apart(L + D, NodesF(forest))
      ensures Valid() && Keys() == KeysF(m.key, forest)
    {
      ShapeKept(m, store.View(), trees.root, forest, L, D);
    }

    /** `FibHeap::new`: an empty heap over the given arena. */
    constructor (store: Store)
      requires store.Valid()
      ensures this.store == store && Valid()
      ensures Keys() == multiset{} && len == 0 && trees == New()
    {
      this.store := store;
      trees, len := New(), 0;
      forest := [];
      new;
      NewIsEmptyRing(store.links.left, store.links.right);
    }

    /** The heap `merge` assembles from a ring and a count. */
    constructor Build(store: Store, trees: IntrusiveList, len: nat, ghost forest: seq<Tree>)
      requires store.Valid() && Shape(store.View(), trees.root, forest) && RootIsMin(store.key, forest)
      requires len == |KeysF(store.key, forest)|
      ensures this.store == store && this.trees == trees && this.len == len && this.forest == forest
      ensures Valid()
    {
      this.store, this.trees, this.len, this.forest := store, trees, len, forest;
    }

    /**
     * `insert_node`: adds the self-looped tree `t` to the root ring. Its root becomes the
     * ring's root when the ring was empty or its key is strictly smaller than the root's;
     * on a tie the old root stays.
     */
    method InsertNode(node: nat, ghost t: Tree)
      requires store.Valid() && Shape(store.View(), trees.root, forest) && RootIsMin(store.key, forest)
      requires t.id == node && Pool(store.View(), [t]) && Single(store.View(), node)
      requires Apart(Nodes(t), NodesF(forest))
      modifies this`trees, this`forest, store.links
      ensures store.Valid() && Shape(store.View(), trees.root, forest) && RootIsMin(store.key, forest)
      ensures NodesF(forest) == old(NodesF(forest)) + Nodes(t)
      ensures multiset(forest) == multiset(old(forest)) + multiset{t}
      ensures store.key == old(store.key)
      ensures KeysF(store.key, forest) == old(KeysF(store.key, forest)) + KeysF(store.key, [t])
      ensures trees.root == if old(trees.root).None? || store.key[node] < store.key[old(trees.root).value]
                           then Some(node) else old(trees.root)
      ensures Agree(old(store.View()), store.View(), Members(Ids(old(forest))) + {node}, {})
    {
      ghost var m0, f0, r0 := store.View(), forest, trees.root;
      InsertNodePre(m0, r0, f0, t);
      var k := store.key[node];
      var isSmaller := false;
      if trees.root.Some? {
        isSmaller := store.key[trees.root.value] > k;
      }
      trees := IntrusiveLists.Insert(store.links, trees, Ids(forest), node);
      ghost var m1, r1 := store.View(), trees.root;
      InsertNodeStep(m0, m1, r0, r1, f0, t);
      InsertNodeRoot(m1, r1, f0, t, isSmaller);
      forest := MergeOrder(f0, [t]);
      if isSmaller {
        trees := SetRoot(trees, node);
        forest := Rotate(forest, 1);
      }
      PoolPerm(m1, MergeOrder(f0, [t]), forest);
    }

    /** `insert`: adds one key. (`len` is raised first; nothing reads it in between.) */
    method Insert(key: i32)
      requires Valid()
      modifies this`trees, this`forest, this`len, store, store.links
      ensures Valid()
      ensures Keys() == old(Keys()) + multiset{key}
      ensures len == old(len) + 1
      ensures |store.key| == old(|store.key|) + 1
      ensures NodesF(forest) == old(NodesF(forest)) + {old(|store.key|)}
      ensures Agree(old(store.View()), store.View(), NodesF(forest), {})
    {
      len := len + 1;
      ghost var m0, f0 := store.View(), forest;
      var node := store.NewNode(key);
      ghost var m1 := store.View();
      NewNodeReady(m0, m1, trees.root, f0, node, key);
      InsertNode(node, Tree(node, []));
      InsertedOne(m0, m1, f0, forest, node, key);
      InsertedWithin(m0, m1, store.View(), f0, forest, node, key);
    }

    /**
     * `pop_min`: takes the root of the root ring, which holds the smallest key, moves its
     * kids onto the root ring and consolidates. On an empty heap it returns None and
     * changes nothing. The table of `consolidate` has 10 slots, so at most 1024 keys may
     * be in the heap (see `Consolidate`).
     */
    method PopMin() returns (r: Option<i32>)
      requires Valid() && len <= 1024
      modifies this`trees, this`forest, this`len, store, store.links
      ensures Valid()
      ensures r.None? <==> old(len) == 0
      ensures r.None? ==> len == old(len) && Keys() == old(Keys())
      ensures r.Some? ==> r.value in old(Keys()) && forall k | k in old(Keys()) :: r.value <= k
      ensures r.Some? ==> Keys() == old(Keys()) - multiset{r.value} && len == old(len) - 1
      ensures r.Some? ==> DistinctDegrees(forest)
      ensures r.None? ==> forest == old(forest) && store.View() == old(store.View())
      ensures r.Some? ==> old(trees.root).Some? && NodesF(forest) == old(NodesF(forest)) - {old(trees.root).value}
      ensures Agree(old(store.View()), store.View(), old(NodesF(forest)), old(NodesF(forest)))
    {
      LenIsNodeCount();
      var n := len;  // nothing below writes `len` before `self.len -= 1`
      ghost var f0, K0, N0, m0 := forest, Keys(), NodesF(forest), store.View();
      var x := TakeMin(N0);
      if x.None? {
        return None;
      }
      var root := x.value;
      len := n - 1;
      ghost var K, N := KeysF(store.key, forest + f0[0].kids), N0 - {root};
      ghost var m1 := store.View();
      PromoteKids(root, f0[0].kids, K, N);
      ghost var m2 := store.View();
      Consolidate(N, K);
      PopWithin(m0, m1, m2, store.View(), N0, root);
      TakeOne(K0, K, store.key[root]);
      r := Some(store.key[root]);
    }

    /**
     * `merge`: the root ring of `rhs` is spliced in after the root of `lhs`'s, and the
     * root of the result is `new_min`, the smaller of the two roots. Both heaps live in the
     * same arena and own disjoint nodes; both are left with empty root rings.
     */
    static method Merge(lhs: FibHeap, rhs: FibHeap) returns (h: FibHeap)
      requires lhs != rhs && lhs.store == rhs.store && lhs.Valid() && rhs.Valid()
      requires Apart(NodesF(lhs.forest), NodesF(rhs.forest))
      modifies lhs`trees, lhs`forest, rhs`trees, rhs`forest, lhs.store.links
      ensures fresh(h) && h.store == lhs.store && h.Valid()
      ensures h.Keys() == old(lhs.Keys()) + old(rhs.Keys())
      ensures h.len == old(lhs.len) + old(rhs.len)
      ensures h.trees.root == NewMin(lhs.store.key, old(lhs.trees.root), old(rhs.trees.root))
      ensures lhs.trees == New() && rhs.trees == New()
      ensures lhs.store.key == old(lhs.store.key)
      ensures NodesF(h.forest) == old(NodesF(lhs.forest)) + old(NodesF(rhs.forest))
      ensures Agree(old(lhs.store.View()), lhs.store.View(), old(NodesF(lhs.forest)) + old(NodesF(rhs.forest)), {})
    {
      var store := lhs.store;
      var len := lhs.len + rhs.len;
      ghost var K1, K2 := lhs.Keys(), rhs.Keys();
      var l, f1 := lhs.Detach();
      var r, f2 := rhs.Detach();
      var trees, f := Splice(store, l, f1, r, f2, K1, K2);
      h := new FibHeap.Build(store, trees, len, f);
    }

    /** Takes the root ring out of this heap, leaving the heap's own list empty. */
    method Detach() returns (t: IntrusiveList, ghost f: seq<Tree>)
      modifies this`trees, this`forest
      ensures t == old(trees) && f == old(forest)
      ensures trees == New() && forest == []
    {
      t, f := trees, forest;
      trees, forest := New(), [];
    }

    /**
     * The ring work of `merge`: `other.trees` is spliced in after the root of `l`, then
     * `new_min` becomes the root. The result is one heap holding the keys of both.
     */
    static method Splice(store: Store, l: IntrusiveList, ghost f1: seq<Tree>, r: IntrusiveList, ghost f2: seq<Tree>,
                         ghost K1: multiset<i32>, ghost K2: multiset<i32>)
      returns (trees: IntrusiveList, ghost f: seq<Tree>)
      requires store.Valid() && Shape(store.View(), l.root, f1) && Shape(store.View(), r.root, f2)
      requires RootIsMin(store.key, f1) && RootIsMin(store.key, f2) && Apart(NodesF(f1), NodesF(f2))
      requires KeysF(store.key, f1) == K1 && KeysF(store.key, f2) == K2
      modifies store.links
      ensures store.Valid() && Shape(store.View(), trees.root, f) && RootIsMin(store.key, f)
      ensures KeysF(store.key, f) == K1 + K2
      ensures trees.root == NewMin(store.key, l.root, r.root)
      ensures store.key == old(store.key)
      ensures NodesF(f) == NodesF(f1) + NodesF(f2)
      ensures Agree(old(store.View()), store.View(), NodesF(f1) + NodesF(f2), {})
    {
      ghost var m0 := store.View();
      var newMin := NewMin(store.key, l.root, r.root);
      MergePre(f1, f2);
      trees := IntrusiveLists.Merge(store.links, l, Ids(f1), r, Ids(f2));
      ghost var m1, g := store.View(), MergeOrder(f1, f2);
      MergeStep(m0, m1, f1, f2, trees.root);
      ghost var i := if f1 != [] && f2 != [] && KeyOf(store.key, f1[0].id) > KeyOf(store.key, f2[0].id) then 1 else 0;
      IdsMergeOrder(f1, f2);
      MergeRoot(m1, trees.root, f1, f2, i);
      PoolPerm(m1, g, Rotate(g, i));
      SpliceWithin(m0, m1, f1, f2, Rotate(g, i));
      if newMin.Some? {
        trees := SetRoot(trees, newMin.value);
      }
      f := Rotate(g, i);
    }

    /**
     * `Drop`: the root ring goes through `drop_custom` with `drop_node` as callback;
     * `drop_node` takes a node back and drops its child ring the same way. `visited` lists
     * the nodes in the order they are taken back: every node of the heap, each once.
     */
    method Drop() returns (visited: seq<nat>)
      requires Valid()
      ensures visited == Preorder(forest)
      ensures Distinct(visited) && Members(visited) == NodesF(forest) && |visited| == len
    {
      var roots, emptied := DropCustom(store.links, trees, Ids(forest));
      forall i | 0 <= i < |forest|
        ensures WfTree(store.View(), forest[i])
      {
        assert forest[i] in forest;
      }
      visited := DropAll(roots, forest);
      PreorderNodes(forest);
      PreorderCount(store.key, forest);
    }

    /** The callbacks of one `drop_custom`: `drop_node` on each member, in ring order. */
    method DropAll(members: seq<nat>, ghost f: seq<Tree>) returns (visited: seq<nat>)
      requires store.Valid() && members == Ids(f)
      requires forall i | 0 <= i < |f| :: WfTree(store.View(), f[i])
      ensures visited == Preorder(f)
      decreases f
    {
      visited := [];
      for i := 0 to |members|
        invariant visited == Preorder(f[..i])
      {
        var sub := DropNode(members[i], f[i]);
        PreorderConcat(f[..i], [f[i]]);
        assert f[..i + 1] == f[..i] + [f[i]];
        visited := visited + sub;
      }
      assert f[..|members|] == f;
    }

    /** `drop_node`: the node itself, then the nodes of its child ring. */
    method DropNode(node: nat, ghost t: Tree) returns (visited: seq<nat>)
      requires store.Valid() && t.id == node && WfTree(store.View(), t)
      ensures visited == Preorder([t])
      decreases t
    {
      var kids, emptied := DropCustom(store.links, store.children[node], Ids(t.kids));
      var sub := DropAll(kids, t.kids);
      visited := [node] + sub;
      assert [t][1..] == [];
    }

    /** `self.trees.extract_root()?` in `pop_min`: the root of the root ring comes off. */
    method TakeMin(ghost N: set<nat>) returns (x: Option<nat>)
      requires Valid() && NodesF(forest) == N
      modifies this`trees, this`forest, store.links
      ensures store.Valid() && store.key == old(store.key)
      ensures x == old(trees.root)
      ensures Agree(old(store.View()), store.View(), N, N)
      ensures x.Some? ==> x.value in N && NodesF(forest + old(forest)[0].kids) == N - {x.value}
      ensures x.None? <==> old(forest) == []
      ensures x.None? ==> store.View() == old(store.View()) && trees == old(trees) && forest == old(forest)
      ensures x.Some? ==> x.value == old(forest)[0].id && x.value < |store.key|
      ensures x.Some? ==> Promoting(store.View(), trees.root, forest, x.value, old(forest)[0].kids)
      ensures x.Some? ==> old(Keys()) == multiset{store.key[x.value]} + KeysF(store.key, forest + old(forest)[0].kids)
      ensures x.Some? ==> forall k | k in old(Keys()) :: store.key[x.value] <= k
    {
      ghost var m0, f0, r0 := store.View(), forest, trees.root;
      var rest;
      rest, x := IntrusiveLists.ExtractRoot(store.links, trees, Ids(forest));
      ExtractWithin(m0, store.View(), f0, N);
      if x.None? {
        return;
      }
      trees := rest;
      forest := ExtractOrder(f0);
      ExtractMin(m0, store.View(), r0, rest.root, f0);
    }

    /**
     * The loop of `pop_min`: while the child ring of the extracted root `x` is not empty,
     * its root comes off and goes into the heap's root ring (after the ring's root).
     */
    method PromoteKids(x: nat, ghost kids: seq<Tree>, ghost K: multiset<i32>, ghost N: set<nat>)
      requires store.Valid() && Promoting(store.View(), trees.root, forest, x, kids)
      requires KeysF(store.key, forest + kids) == K && NodesF(forest + kids) == N
      modifies this`trees, this`forest, store, store.links
      ensures store.Valid() && Shape(store.View(), trees.root, forest)
      ensures KeysF(store.key, forest) == K && NodesF(forest) == N
      ensures |NodesF(forest)| == |KeysF(store.key, forest)|
      ensures store.key == old(store.key)
      ensures x < |store.children| && store.children[x].root.None?
      ensures Agree(old(store.View()), store.View(), N, {x})
    {
      ghost var ks, m0 := kids, store.View();
      while true
        invariant store.Valid() && Promoting(store.View(), trees.root, forest, x, ks)
        invariant KeysF(store.key, forest + ks) == K && NodesF(forest + ks) == N
        invariant store.key == old(store.key)
        invariant Agree(m0, store.View(), N, {x})
        decreases |ks|
      {
        ghost var mb := store.View();
        var kid := TakeKid(x, ks, K, N);
        AgreeStep(m0, mb, store.View(), N, {x});
        if kid.None? {
          break;
        }
        mb := store.View();
        PutKid(kid.value, x, ExtractOrder(ks), ks[0], K, N);
        AgreeStep(m0, mb, store.View(), N, {x});
        ks := ExtractOrder(ks);
      }
    }

    /** `children.extract_root()` on the extracted root `x`. */
    method TakeKid(x: nat, ghost kids: seq<Tree>, ghost K: multiset<i32>, ghost N: set<nat>) returns (kid: Option<nat>)
      requires store.Valid() && Promoting(store.View(), trees.root, forest, x, kids)
      requires KeysF(store.key, forest + kids) == K && NodesF(forest + kids) == N
      modifies store, store.links
      ensures store.Valid() && store.key == old(store.key)
      ensures Agree(old(store.View()), store.View(), N, {x})
      ensures kid.None? ==> kids == [] && Shape(store.View(), trees.root, forest)
      ensures kid.None? ==> |NodesF(forest)| == |KeysF(store.key, forest)| && KeysF(store.key, forest) == K
      ensures kid.None? ==> NodesF(forest) == N && x < |store.children| && store.children[x].root.None?
      ensures kid.Some? ==> kids != [] && kid.value == kids[0].id
      ensures kid.Some? ==> Taken(store.View(), trees.root, forest, x, ExtractOrder(kids), kids[0])
      ensures kid.Some? ==> KeysF(store.key, forest + ExtractOrder(kids) + [kids[0]]) == K
      ensures kid.Some? ==> NodesF(forest + ExtractOrder(kids) + [kids[0]]) == N
    {
      ghost var m0 := store.View();
      var c;
      c, kid := IntrusiveLists.ExtractRoot(store.links, store.children[x], Ids(kids));
      store.children := store.children[x := c];
      ghost var m1 := store.View();
      if kid.None? {
        PromoteDone(m0, m1, trees.root, forest, x, kids, c);
      } else {
        PromoteTake(m0, m1, trees.root, forest, x, kids, c);
        KidsWithin(m0, m1, forest, kids, x, N);
      }
    }

    /** `self.trees.insert(kid)`: the taken kid `t` joins the root ring. */
    method PutKid(kid: nat, ghost x: nat, ghost rest: seq<Tree>, ghost t: Tree, ghost K: multiset<i32>, ghost N: set<nat>)
      requires store.Valid() && t.id == kid && Taken(store.View(), trees.root, forest, x, rest, t)
      requires KeysF(store.key, forest + rest + [t]) == K && NodesF(forest + rest + [t]) == N
      modifies this`trees, this`forest, store.links
      ensures store.Valid() && store.key == old(store.key)
      ensures forest == MergeOrder(old(forest), [t])
      ensures Promoting(store.View(), trees.root, forest, x, rest)
      ensures KeysF(store.key, forest + rest) == K && NodesF(forest + rest) == N
      ensures Agree(old(store.View()), store.View(), N, {x})
    {
      ghost var m0, f0, r0 := store.View(), forest, trees.root;
      trees := IntrusiveLists.Insert(store.links, trees, Ids(forest), kid);
      ghost var m1 := store.View();
      PromotePut(m0, m1, r0, trees.root, f0, x, rest, t);
      PutWithin(m0, m1, f0, rest, t, x, N);
      forest := MergeOrder(f0, [t]);
    }

    /**
     * `consolidate`: takes the trees off the root ring one by one. While the slot of the
     * held tree's degree is taken, the two trees are linked and the result is tried one
     * slot higher; then it goes into its slot. Finally the trees of the 10 slots go back
     * onto the root ring through `insert_node`, lowest degree first. A tree of degree k
     * holds 2^k nodes, so with fewer than 1024 nodes no degree reaches 10.
     */
    method Consolidate(ghost N: set<nat>, ghost K: multiset<i32>)
      requires store.Valid() && Shape(store.View(), trees.root, forest)
      requires NodesF(forest) == N && |N| < 1024 && KeysF(store.key, forest) == K
      modifies this`trees, this`forest, store, store.links
      ensures store.Valid() && Shape(store.View(), trees.root, forest) && RootIsMin(store.key, forest)
      ensures DistinctDegrees(forest)
      ensures NodesF(forest) == N && KeysF(store.key, forest) == K
      ensures store.key == old(store.key)
      ensures Agree(old(store.View()), store.View(), N, N)
    {
      var uniques := new Option<nat>[10](_ => None);
      ghost var slots: seq<Option<Tree>> := seq(10, _ => None);
      ghost var m0 := store.View();
      GatherStart(m0, trees.root, forest, uniques[..], slots);
      slots := Gather(uniques, slots, N, K);
      ghost var m1 := store.View();
      ReinsertStart(m1, trees.root, uniques[..], slots);
      PutBack(uniques, slots, N, K);
      AgreeStep(m0, m1, store.View(), N, N);
    }

    /**
     * The first loop of `consolidate`: until the root ring is empty, its root comes off and
     * is settled into the table.
     */
    method Gather(uniques: array<Option<nat>>, ghost slots: seq<Option<Tree>>, ghost N: set<nat>, ghost K: multiset<i32>)
      returns (ghost slots': seq<Option<Tree>>)
      requires uniques.Length == |slots| == 10
      requires store.Valid() && Gathering(store.View(), trees.root, forest, uniques[..], slots)
      requires NodesF(forest + SlotTrees(slots)) == N && |N| < 1024
      requires KeysF(store.key, forest + SlotTrees(slots)) == K
      modifies uniques, this`trees, this`forest, store, store.links
      ensures store.Valid() && store.key == old(store.key)
      ensures forest == [] && |slots'| == 10 && Gathering(store.View(), trees.root, forest, uniques[..], slots')
      ensures NodesF(forest + SlotTrees(slots')) == N && KeysF(store.key, forest + SlotTrees(slots')) == K
      ensures Agree(old(store.View()), store.View(), N, N)
    {
      slots' := slots;
      ghost var m0 := store.View();
      while true
        invariant store.Valid() && Gathering(store.View(), trees.root, forest, uniques[..], slots')
        invariant |slots'| == 10
        invariant NodesF(forest + SlotTrees(slots')) == N && KeysF(store.key, forest + SlotTrees(slots')) == K
        invariant store.key == old(store.key)
        invariant Agree(m0, store.View(), N, N)
        decreases |forest|
      {
        ghost var mb := store.View();
        var x, t := TakeRoot(uniques[..], slots', N, K);
        AgreeStep(m0, mb, store.View(), N, N);
        if x.None? {
          break;
        }
        mb := store.View();
        slots' := Settle(uniques, x.value, t, slots', N, K);
        AgreeStep(m0, mb, store.View(), N, N);
      }
    }

    /**
     * The last loop of `consolidate`: slot by slot, from degree 0 up, the table's trees go
     * back on the root ring through `insert_node`.
     */
    method PutBack(uniques: array<Option<nat>>, ghost slots: seq<Option<Tree>>, ghost N: set<nat>, ghost K: multiset<i32>)
      requires uniques.Length == |slots| == 10
      requires store.Valid() && Reinserting(store.View(), trees.root, forest, uniques[..], slots, 0)
      requires NodesF(forest + SlotTrees(slots)) == N && KeysF(store.key, forest + SlotTrees(slots)) == K
      modifies uniques, this`trees, this`forest, store.links
      ensures store.Valid() && Shape(store.View(), trees.root, forest) && RootIsMin(store.key, forest)
      ensures DistinctDegrees(forest) && NodesF(forest) == N && KeysF(store.key, forest) == K
      ensures store.key == old(store.key)
      ensures Agree(old(store.View()), store.View(), N, N)
    {
      ghost var slots, m0 := slots, store.View();
      for i := 0 to 10
        invariant store.Valid() && Reinserting(store.View(), trees.root, forest, uniques[..], slots, i)
        invariant uniques.Length == |slots| == 10
        invariant NodesF(forest + SlotTrees(slots)) == N && KeysF(store.key, forest + SlotTrees(slots)) == K
        invariant store.key == old(store.key)
        invariant Agree(m0, store.View(), N, N)
      {
        if uniques[i].Some? {
          var node := uniques[i].value;
          ghost var u, mb := uniques[..], store.View();
          uniques[i] := None;
          Reinsert(node, i, u, slots, N, K);
          AgreeStep(m0, mb, store.View(), N, N);
          slots := slots[i := None];
        } else {
          ReinsertSkip(store.View(), trees.root, forest, uniques[..], slots, i);
        }
      }
      ReinsertEnd(store.View(), trees.root, forest, uniques[..], slots);
    }

    /**
     * The inner loop of `consolidate`: while the slot of the held tree's degree is taken,
     * the two trees are linked and the result is tried one slot higher; then the held tree
     * goes into its slot.
     */
    method Settle(uniques: array<Option<nat>>, node: nat, ghost t: Tree, ghost slots: seq<Option<Tree>>,
                  ghost N: set<nat>, ghost K: multiset<i32>) returns (ghost slots': seq<Option<Tree>>)
      requires uniques.Length == |slots| == 10
      requires store.Valid() && Holding(store.View(), trees.root, forest, uniques[..], slots, t)
      requires t.id == node && InRange(store.View(), node) && store.degree[node] == |t.kids| < 10
      requires NodesF(forest + SlotTrees(slots) + [t]) == N && |N| < 1024
      requires KeysF(store.key, forest + SlotTrees(slots) + [t]) == K
      modifies uniques, store, store.links
      ensures store.Valid() && store.key == old(store.key)
      ensures |slots'| == 10 && Gathering(store.View(), trees.root, forest, uniques[..], slots')
      ensures NodesF(forest + SlotTrees(slots')) == N && KeysF(store.key, forest + SlotTrees(slots')) == K
      ensures Agree(old(store.View()), store.View(), N, N)
    {
      var node, degree := node, store.degree[node];
      ghost var t, m0 := t, store.View();
      slots' := slots;
      while uniques[degree].Some?
        invariant store.Valid() && Holding(store.View(), trees.root, forest, uniques[..], slots', t)
        invariant t.id == node && |t.kids| == degree < 10 && |slots'| == 10
        invariant InRange(store.View(), node) && store.degree[node] == degree
        invariant NodesF(forest + SlotTrees(slots') + [t]) == N
        invariant KeysF(store.key, forest + SlotTrees(slots') + [t]) == K
        invariant store.key == old(store.key)
        invariant Agree(m0, store.View(), N, N)
        decreases 10 - degree
      {
        var other := uniques[degree].value;
        ghost var u, mb := uniques[..], store.View();
        uniques[degree] := None;
        node, t := LinkPair(node, other, t, degree, u, slots', N, K);
        AgreeStep(m0, mb, store.View(), N, N);
        slots' := slots'[degree := None];
        degree := degree + 1;
      }
      GatherSlot(store.View(), trees.root, forest, uniques[..], slots', t, N, K);
      uniques[degree] := Some(node);
      slots' := slots'[degree := Some(t)];
    }

    /** `self.trees.extract_root()` in `consolidate`: the root ring's root goes into the hand. */
    method TakeRoot(ghost u: seq<Option<nat>>, ghost slots: seq<Option<Tree>>, ghost N: set<nat>, ghost K: multiset<i32>)
      returns (x: Option<nat>, ghost t: Tree)
      requires store.Valid() && Gathering(store.View(), trees.root, forest, u, slots)
      requires NodesF(forest + SlotTrees(slots)) == N && |N| < 1024
      requires KeysF(store.key, forest + SlotTrees(slots)) == K
      modifies this`trees, this`forest, store.links
      ensures store.Valid() && store.key == old(store.key)
      ensures x.None? <==> old(forest) == []
      ensures x.None? ==> forest == [] && Gathering(store.View(), trees.root, forest, u, slots)
      ensures x.Some? ==> x.value == t.id && |forest| < |old(forest)|
      ensures x.Some? ==> Holding(store.View(), trees.root, forest, u, slots, t)
      ensures x.Some? ==> InRange(store.View(), t.id) && store.degree[t.id] == |t.kids| < 10
      ensures x.Some? ==> NodesF(forest + SlotTrees(slots) + [t]) == N
      ensures x.Some? ==> KeysF(store.key, forest + SlotTrees(slots) + [t]) == K
      ensures Agree(old(store.View()), store.View(), N, N)
    {
      ghost var m0, f0, r0 := store.View(), forest, trees.root;
      var rest;
      rest, x := IntrusiveLists.ExtractRoot(store.links, trees, Ids(forest));
      RootsWithin(m0, store.View(), f0, SlotTrees(slots), N);
      if x.None? {
        t := Tree(0, []);
        return;
      }
      trees := rest;
      forest := ExtractOrder(f0);
      t := f0[0];
      GatherTake(m0, store.View(), r0, trees.root, f0, u, slots, N, K);
    }

    /**
     * One round of the inner loop of `consolidate`: the held node `node` (tree `t`, of
     * degree `d`) meets `other`, the node of slot `d`. The one with the larger key goes
     * below the other (on a tie `node` stays on top), and the hand then holds the linked
     * tree, rooted at `upper`.
     */
    method LinkPair(node: nat, other: nat, ghost t: Tree, ghost d: nat, ghost u: seq<Option<nat>>,
                    ghost slots: seq<Option<Tree>>, ghost N: set<nat>, ghost K: multiset<i32>)
      returns (upper: nat, ghost t': Tree)
      requires store.Valid() && Holding(store.View(), trees.root, forest, u, slots, t)
      requires t.id == node && |t.kids| == d && d < |slots| && u[d] == Some(other)
      requires InRange(store.View(), node) && store.degree[node] == d
      requires NodesF(forest + SlotTrees(slots) + [t]) == N && |N| < 1024
      requires KeysF(store.key, forest + SlotTrees(slots) + [t]) == K
      modifies store, store.links
      ensures store.Valid() && store.key == old(store.key)
      ensures Holding(store.View(), trees.root, forest, u[d := None], slots[d := None], t')
      ensures t'.id == upper && |t'.kids| == d + 1 < 10
      ensures upper == if store.key[node] > store.key[other] then other else node
      ensures InRange(store.View(), upper) && store.degree[upper] == d + 1
      ensures NodesF(forest + SlotTrees(slots[d := None]) + [t']) == N
      ensures KeysF(store.key, forest + SlotTrees(slots[d := None]) + [t']) == K
      ensures Agree(old(store.View()), store.View(), N, N)
    {
      assert slots[d].Some?;
      if store.key[node] > store.key[other] {
        upper, t' := LinkOrdered(other, node, slots[d].value, t, t, d, u, slots, N, K);
      } else {
        upper, t' := LinkOrdered(node, other, t, slots[d].value, t, d, u, slots, N, K);
      }
    }

    /**
     * `self.link(node, other)` after the swap: `lower` (tree `tl`) goes below `upper`
     * (tree `tu`); one of them is the held tree `t`, the other the tree of slot `d`.
     */
    method LinkOrdered(upper: nat, lower: nat, ghost tu: Tree, ghost tl: Tree, ghost t: Tree, ghost d: nat,
                       ghost u: seq<Option<nat>>, ghost slots: seq<Option<Tree>>, ghost N: set<nat>, ghost K: multiset<i32>)
      returns (upper': nat, ghost t': Tree)
      requires store.Valid() && Holding(store.View(), trees.root, forest, u, slots, t)
      requires |t.kids| == d && d < |slots| && slots[d].Some?
      requires (tu, tl) == (t, slots[d].value) || (tu, tl) == (slots[d].value, t)
      requires tu.id == upper && tl.id == lower && upper < |store.key| && lower < |store.key|
      requires store.key[upper] <= store.key[lower]
      requires NodesF(forest + SlotTrees(slots) + [t]) == N && |N| < 1024
      requires KeysF(store.key, forest + SlotTrees(slots) + [t]) == K
      modifies store, store.links
      ensures store.Valid() && store.key == old(store.key)
      ensures Holding(store.View(), trees.root, forest, u[d := None], slots[d := None], t')
      ensures t'.id == upper' == upper && |t'.kids| == d + 1 < 10
      ensures InRange(store.View(), upper) && store.degree[upper] == d + 1
      ensures NodesF(forest + SlotTrees(slots[d := None]) + [t']) == N
      ensures KeysF(store.key, forest + SlotTrees(slots[d := None]) + [t']) == K
      ensures Agree(old(store.View()), store.View(), N, N)
    {
      ghost var m0 := store.View();
      upper' := upper;
      GatherUnslot(m0, trees.root, forest, u, slots, t, d, tu, tl, N, K);
      t' := Link(upper, lower, tu, tl);
      GatherLinked(m0, store.View(), trees.root, forest, u[d := None], slots[d := None], tu, tl, N, K);
    }

    /** One round of the last loop of `consolidate`: the tree of slot `i` goes back on the root ring. */
    method Reinsert(node: nat, ghost i: nat, ghost u: seq<Option<nat>>, ghost slots: seq<Option<Tree>>,
                    ghost N: set<nat>, ghost K: multiset<i32>)
      requires store.Valid() && Reinserting(store.View(), trees.root, forest, u, slots, i)
      requires i < |slots| && u[i] == Some(node)
      requires NodesF(forest + SlotTrees(slots)) == N && KeysF(store.key, forest + SlotTrees(slots)) == K
      modifies this`trees, this`forest, store.links
      ensures store.Valid() && store.key == old(store.key)
      ensures Reinserting(store.View(), trees.root, forest, u[i := None], slots[i := None], i + 1)
      ensures NodesF(forest + SlotTrees(slots[i := None])) == N
      ensures KeysF(store.key, forest + SlotTrees(slots[i := None])) == K
      ensures Agree(old(store.View()), store.View(), N, N)
    {
      ghost var m0, f0, r0 := store.View(), forest, trees.root;
      ReinsertPre(m0, r0, f0, u, slots, i);
      InsertNode(node, slots[i].value);
      SlotWithin(m0, store.View(), f0, slots, i, N);
      ReinsertPost(m0, store.View(), r0, trees.root, f0, forest, u, slots, i, N, K);
    }

    /**
     * `link`: makes `lower` a child of `upper` (right after its first child), clears the
     * mark of `lower` and raises the degree of `upper`. When the upper key is not larger,
     * the result is a well-formed tree again.
     */
    method Link(upper: nat, lower: nat, ghost tu: Tree, ghost tl: Tree) returns (ghost t: Tree)
      requires store.Valid() && tu.id == upper && tl.id == lower
      requires WfTree(store.View(), tu) && WfTree(store.View(), tl) && Separate([tu, tl])
      requires Single(store.View(), lower)
      modifies store, store.links
      ensures store.Valid() && t == Linked(tu, tl)
      ensures store.key == old(store.key)
      ensures store.mark == old(store.mark)[lower := false]
      ensures store.degree == old(store.degree)[upper := old(store.degree[upper]) + 1]
      ensures LinkWrites(old(store.View()), store.View(), tu, tl)
      ensures IsRing(store.links.left, store.links.right, store.children[upper].root, MergeOrder(Ids(tu.kids), [lower]))
      ensures store.key[upper] <= store.key[lower] ==> WfTree(store.View(), t)
    {
      ghost var m0 := store.View();
      store.mark := store.mark[lower := false];
      store.degree := store.degree[upper := store.degree[upper] + 1];
      assert lower !in Ids(tu.kids) by {
        assert [tu, tl][1..] == [tl];
        NodesFSingle(tl);
        IdsInNodes(tu.kids);
      }
      var kids := IntrusiveLists.Insert(store.links, store.children[upper], Ids(tu.kids), lower);
      store.children := store.children[upper := kids];
      t := Linked(tu, tl);
      KeptAgreeAt(m0, store.View(), Members(Ids(tu.kids)) + {lower}, upper, m0.degree[upper] + 1, kids);
      if store.key[upper] <= store.key[lower] {
        LinkWf(m0, store.View(), tu, tl);
      }
    }
  }

  /**
   * The `new_min` of `merge`: the root with the smaller key, the left one on a tie; with
   * one side empty, the other side's root.
   */
  function NewMin(key: seq<i32>, a: Option<nat>, b: Option<nat>): (min: Option<nat>)
    ensures min.Some? <==> a.Some? || b.Some?
    ensures min.Some? ==> min == a || min == b
    ensures min.Some? && a.Some? ==> KeyOf(key, min.value) <= KeyOf(key, a.value)
    ensures min.Some? && b.Some? ==> KeyOf(key, min.value) <= KeyOf(key, b.value)
    ensures a.Some? && b.Some? && KeyOf(key, a.value) == KeyOf(key, b.value) ==> min == a
  {
    match (a, b)
    case (Some(x), Some(y)) => Some(if KeyOf(key, x) <= KeyOf(key, y) then x else y)
    case (Some(x), None) => Some(x)
    case (None, Some(y)) => Some(y)
    case (None, None) => None
  }
}
