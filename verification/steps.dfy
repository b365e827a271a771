/**
 * The steps of the heap operations of src/lib.rs, stated on snapshots of the arena
 * (`Mem`) taken before and after each list operation or field write. Each lemma carries
 * the heap's shape across one step, so the methods of `FibHeaps` only chain them.
 */
module HeapSteps {
  import opened Wrappers
  import opened Rings
  import opened IntrusiveLists
  import opened Forests

  // ---------------------------------------------------------------------------------
  // insert

  /** The snapshot after `Node::new` appended node `x` with key `k`. */
  ghost predicate Appended(m: Mem, m': Mem, x: nat, k: i32) {
    && x == |m.key| == |m.left| == |m.right| == |m.degree| == |m.children|
    && m' == Mem(m.left + [x], m.right + [x], m.key + [k], m.degree + [0], m.children + [New()])
  }

  /** Allocating a node keeps the heap's shape and keys. */
  lemma NewNodeKeeps(m: Mem, m': Mem, root: Option<nat>, f: seq<Tree>, x: nat, k: i32)
    requires Shape(m, root, f) && RootIsMin(m.key, f) && Appended(m, m', x, k)
    ensures Shape(m', root, f) && RootIsMin(m'.key, f)
    ensures KeysF(m'.key, f) == KeysF(m.key, f)
    ensures x !in NodesF(f)
  {
    assert Agree(m, m', {}, {});
    PoolFrame(m, m', f, {}, {});
    RingAgree(m, m', root, Ids(f), {}, {});
    forall y | y in NodesF(f)
      ensures y < |m.key| && y < |m'.key| && m'.key[y] == m.key[y]
    {
      ForestInRange(m, f, y);
    }
    KeysFrame(m.key, m'.key, f);
  }

  /** The node `Node::new` allocates is a one-node pool, linked to itself. */
  lemma NewNodeTree(m: Mem, m': Mem, x: nat, k: i32)
    requires Appended(m, m', x, k)
    ensures Pool(m', [Tree(x, [])]) && Single(m', x) && Nodes(Tree(x, [])) == {x}
    ensures KeysF(m'.key, [Tree(x, [])]) == multiset{k}
  {
    var t := Tree(x, []);
    assert [t][1..] == [] && t.kids == [];
    assert NodesF([]) == {} && Separate([]);
    assert Nodes(t) == {x};
    assert Separate([t]);
    assert WfTree(m', t);
    PoolSingle(m', t);
  }

  /** What `insert` knows once `Node::new` has returned. */
  lemma NewNodeReady(m: Mem, m': Mem, root: Option<nat>, f: seq<Tree>, x: nat, k: i32)
    requires Shape(m, root, f) && RootIsMin(m.key, f) && Appended(m, m', x, k)
    ensures Shape(m', root, f) && RootIsMin(m'.key, f)
    ensures Pool(m', [Tree(x, [])]) && Single(m', x) && Apart(Nodes(Tree(x, [])), NodesF(f))
    ensures KeysF(m'.key, f) == KeysF(m.key, f) && KeysF(m'.key, [Tree(x, [])]) == multiset{k}
  {
    NewNodeKeeps(m, m', root, f, x, k);
    NewNodeTree(m, m', x, k);
  }

  /** Adding one fresh node to a forest, as `insert` does, adds its key to the forest's keys. */
  lemma InsertedOne(m: Mem, m': Mem, f: seq<Tree>, g: seq<Tree>, x: nat, k: i32)
    requires KeysF(m'.key, f) == KeysF(m.key, f)
    requires KeysF(m'.key, g) == KeysF(m'.key, f) + KeysF(m'.key, [Tree(x, [])])
    requires KeysF(m'.key, [Tree(x, [])]) == multiset{k}
    ensures KeysF(m'.key, g) == KeysF(m.key, f) + multiset{k}
    ensures |KeysF(m'.key, g)| == |KeysF(m.key, f)| + 1
  {
  }

  /**
   * What `insert` writes: the link fields of the old roots and of the new node `x`, which
   * joins the heap's nodes.
   */
  lemma InsertedWithin(m: Mem, m': Mem, m'': Mem, f: seq<Tree>, g: seq<Tree>, x: nat, k: i32)
    requires Appended(m, m', x, k) && Agree(m', m'', Members(Ids(f)) + {x}, {})
    requires NodesF(g) == NodesF(f) + Nodes(Tree(x, []))
    ensures NodesF(g) == NodesF(f) + {x}
    ensures Agree(m, m'', NodesF(g), {})
  {
    assert Agree(m, m', {}, {});
    AgreeTrans(m, m', m'', {}, {}, Members(Ids(f)) + {x}, {});
    assert Nodes(Tree(x, [])) == {x};
    IdsInNodes(f);
    AgreeWiden(m, m'', {} + (Members(Ids(f)) + {x}), {} + {}, NodesF(g), {});
  }

  /** What `insert_node` reads before its write. */
  lemma InsertNodePre(m: Mem, root: Option<nat>, f: seq<Tree>, t: Tree)
    requires Shape(m, root, f) && Pool(m, [t]) && Apart(Nodes(t), NodesF(f))
    ensures t.id !in Ids(f) && InRange(m, t.id)
    ensures root.Some? <==> f != []
    ensures root.Some? ==> root.value == f[0].id && InRange(m, root.value)
  {
    IdsInNodes(f);
    assert t in [t];
    if f != [] {
      assert Ids(f)[0] == f[0].id;
      assert f[0] in f;
    }
  }

  /** Adding tree `t` to the root ring, before the root is moved. */
  lemma InsertNodeStep(m: Mem, m': Mem, root: Option<nat>, root': Option<nat>, f: seq<Tree>, t: Tree)
    requires Shape(m, root, f) && Pool(m, [t]) && Apart(Nodes(t), NodesF(f))
    requires m'.key == m.key && m'.degree == m.degree && m'.children == m.children
    requires LinksKept(m.left, m.right, m'.left, m'.right, Members(Ids(f)) + {t.id})
    requires IsRing(m'.left, m'.right, root', MergeOrder(Ids(f), [t.id]))
    ensures Shape(m', root', MergeOrder(f, [t]))
    ensures multiset(MergeOrder(f, [t])) == multiset(f) + multiset{t}
    ensures NodesF(MergeOrder(f, [t])) == NodesF(f) + Nodes(t)
    ensures KeysF(m.key, MergeOrder(f, [t])) == KeysF(m.key, f) + KeysF(m.key, [t])
    ensures Agree(m, m', Members(Ids(f)) + {t.id}, {})
  {
    IdsMergeOrder(f, [t]);
    assert Ids([t]) == [t.id];
    KeptAgree(m, m', Members(Ids(f)) + {t.id});
    InsertTree(m, m', f, t);
  }

  /** Which root `insert_node` leaves: the new tree's when its key is strictly smaller. */
  lemma InsertNodeRoot(m: Mem, root': Option<nat>, f: seq<Tree>, t: Tree, smaller: bool)
    requires RootIsMin(m.key, f) && Pool(m, [t]) && t.id < |m.key|
    requires smaller ==> f != [] && m.key[t.id] < m.key[f[0].id]
    requires !smaller ==> f == [] || m.key[f[0].id] <= m.key[t.id]
    requires IsRing(m.left, m.right, root', MergeOrder(Ids(f), [t.id]))
    requires root' == if f != [] then Some(f[0].id) else Some(t.id)
    ensures var g := if smaller then Rotate(MergeOrder(f, [t]), 1) else MergeOrder(f, [t]);
      && IsRing(m.left, m.right, Some(g[0].id), Ids(g))
      && multiset(g) == multiset(MergeOrder(f, [t]))
      && g[0].id == (if smaller then t.id else root'.value)
      && RootIsMin(m.key, g)
  {
    var h := MergeOrder(f, [t]);
    var g: seq<Tree> := if smaller then Rotate(h, 1) else h;
    IdsMergeOrder(f, [t]);
    assert Ids([t]) == [t.id];
    MergeOrderMultiset(f, [t]);
    assert t in [t];
    if smaller {
      SetRootRotates(m.left, m.right, IntrusiveList(root'), Ids(h), 1);
      IdsRotate(h, 1);
      RotateMultiset(h, 1);
    }
    forall u: Tree | u in g
      ensures g[0].id < |m.key| && u.id < |m.key| && m.key[g[0].id] <= m.key[u.id]
    {
      assert u in multiset(g);
      if u != t {
        assert u in f;
      }
    }
  }

  // ---------------------------------------------------------------------------------
  // pop_min

  /**
   * While `pop_min` promotes the children of the extracted root `x`: the root ring lists
   * the trees of `f`, the child ring of `x` lists the kids still to promote, and both
   * together form a pool without `x`.
   */
  ghost predicate Promoting(m: Mem, root: Option<nat>, f: seq<Tree>, x: nat, kids: seq<Tree>) {
    && IsRing(m.left, m.right, root, Ids(f))
    && InRange(m, x)
    && IsRing(m.left, m.right, m.children[x].root, Ids(kids))
    && Pool(m, f + kids)
    && x !in NodesF(f + kids)
  }

  /** The trees of `f` other than the first, and the kids of the first, form a pool without its root. */
  lemma DropFirst(m: Mem, f: seq<Tree>)
    requires Pool(m, f) && f != []
    ensures Pool(m, f[1..] + f[0].kids)
    ensures f[0].id !in NodesF(f[1..] + f[0].kids)
    ensures NodesF(f[1..] + f[0].kids) == NodesF(f[1..]) + NodesF(f[0].kids)
    ensures KeysF(m.key, f) == multiset{KeyOf(m.key, f[0].id)} + KeysF(m.key, f[1..] + f[0].kids)
  {
    var t, r := f[0], f[1..];
    assert t in f;
    forall c | c in r + t.kids
      ensures WfTree(m, c) && Binomial(c)
    {
      if c in r {
        assert c in f;
      } else {
        var i :| 0 <= i < |t.kids| && t.kids[i] == c;
      }
    }
    SeparateConcat(r, t.kids);
    NodesFConcat(r, t.kids);
    KeysFConcat(m.key, r, t.kids);
  }

  /** The rest of the root ring after extracting its root, with the root's kids. */
  lemma ExtractRest(m: Mem, f: seq<Tree>)
    requires Pool(m, f) && f != []
    ensures Pool(m, ExtractOrder(f) + f[0].kids)
    ensures f[0].id !in NodesF(ExtractOrder(f) + f[0].kids)
    ensures NodesF(ExtractOrder(f) + f[0].kids) == NodesF(f[1..]) + NodesF(f[0].kids)
    ensures KeysF(m.key, f) == multiset{KeyOf(m.key, f[0].id)} + KeysF(m.key, ExtractOrder(f) + f[0].kids)
    ensures multiset(ExtractOrder(f) + f[0].kids) == multiset(f[1..] + f[0].kids)
  {
    var t, g, r := f[0], ExtractOrder(f), f[1..];
    DropFirst(m, f);
    ExtractOrderMultiset(f);
    assert multiset(g + t.kids) == multiset(r + t.kids);
    PoolPerm(m, r + t.kids, g + t.kids);
  }

  /** Trees of `a` are trees of `b`, so their roots are roots of `b`. */
  lemma IdsSub(a: seq<Tree>, b: seq<Tree>)
    requires multiset(a) <= multiset(b)
    ensures forall y | y in Ids(a) :: y in Ids(b)
  {
    forall y | y in Ids(a)
      ensures y in Ids(b)
    {
      var j :| 0 <= j < |a| && a[j].id == y;
      assert a[j] in multiset(b);
      var i :| 0 <= i < |b| && b[i] == a[j];
      assert Ids(b)[i] == y;
    }
  }

  /** The roots of a separate forest other than the first lie outside the first tree. */
  lemma OtherRoots(f: seq<Tree>)
    requires Separate(f) && f != []
    ensures forall y | y in Ids(f) && y != f[0].id :: y in Ids(f[1..])
    ensures Apart(Members(Ids(f)), NodesF(f[0].kids))
  {
    forall y | y in Ids(f) && y != f[0].id
      ensures y in Ids(f[1..])
    {
      var j :| 0 <= j < |f| && f[j].id == y;
      assert Ids(f[1..])[j - 1] == y;
    }
    forall y | y in Members(Ids(f))
      ensures y !in NodesF(f[0].kids)
    {
      var j :| 0 <= j < |f| && f[j].id == y;
      RootNotInner(f, 0, j);
    }
  }

  /**
   * `pop_min` extracts the root of the root ring: it holds the minimum key, and the rest
   * of the root ring and the root's child ring are ready for promotion.
   */
  lemma ExtractMin(m: Mem, m': Mem, root: Option<nat>, root': Option<nat>, f: seq<Tree>)
    requires Shape(m, root, f) && RootIsMin(m.key, f) && f != []
    requires m'.key == m.key && m'.degree == m.degree && m'.children == m.children
    requires LinksKept(m.left, m.right, m'.left, m'.right, Members(Ids(f)))
    requires IsRing(m'.left, m'.right, root', ExtractOrder(Ids(f)))
    ensures Promoting(m', root', ExtractOrder(f), f[0].id, f[0].kids)
    ensures f[0].id < |m.key|
    ensures KeysF(m.key, f) == multiset{m.key[f[0].id]} + KeysF(m'.key, ExtractOrder(f) + f[0].kids)
    ensures forall k | k in KeysF(m.key, f) :: m.key[f[0].id] <= k
  {
    var t, g := f[0], ExtractOrder(f) + f[0].kids;
    var L := Members(Ids(f));
    ExtractRest(m, f);
    OtherRoots(f);
    IdsSub(f[1..], g);
    KeptAgree(m, m', L);
    PoolFrame(m, m', g, L, {});
    assert WfTree(m, t) by {
      assert t in f;
    }
    IdsInNodes(t.kids);
    RingAgree(m, m', m.children[t.id].root, Ids(t.kids), L, {});
    IdsExtractOrder(f);
    RootKeyIsMin(m, f);
  }

  /** The keys left once the root's key is taken out. */
  lemma TakeOne(a: multiset<i32>, b: multiset<i32>, k: i32)
    requires a == multiset{k} + b
    ensures k in a && b == a - multiset{k} && |b| == |a| - 1 >= 0
  {
  }

  /** Taking the first kid off a ring of kids and putting it last keeps the trees. */
  lemma TakePerm(f: seq<Tree>, kids: seq<Tree>)
    requires kids != []
    ensures multiset(f + ExtractOrder(kids) + [kids[0]]) == multiset(f + kids)
  {
    ExtractOrderMultiset(kids);
    assert kids == [kids[0]] + kids[1..];
  }

  /** The roots of two apart forests are apart. */
  lemma IdsApart(a: seq<Tree>, b: seq<Tree>)
    requires Separate(a + b)
    ensures Apart(Members(Ids(a)), Members(Ids(b)))
    ensures Apart(NodesF(a), NodesF(b))
  {
    SeparateConcat(a, b);
    IdsInNodes(a);
    IdsInNodes(b);
  }

  /** Taking the first kid off the child ring keeps the pool, now with the kid last. */
  lemma TakePool(m: Mem, m': Mem, f: seq<Tree>, x: nat, kids: seq<Tree>)
    requires Pool(m, f + kids) && x !in NodesF(f + kids) && kids != []
    requires Agree(m, m', Members(Ids(kids)), {x})
    ensures Pool(m', f + ExtractOrder(kids) + [kids[0]]) && x !in NodesF(f + ExtractOrder(kids) + [kids[0]])
    ensures KeysF(m.key, f + ExtractOrder(kids) + [kids[0]]) == KeysF(m.key, f + kids)
    ensures NodesF(f + ExtractOrder(kids) + [kids[0]]) == NodesF(f + kids)
  {
    var g := f + ExtractOrder(kids) + [kids[0]];
    TakePerm(f, kids);
    PoolPerm(m, f + kids, g);
    IdsSub(kids, g);
    PoolFrame(m, m', g, Members(Ids(kids)), {x});
  }

  /**
   * Between taking the kid `t` off the child ring of `x` and putting it on the root ring:
   * `t` is self-looped, and the root ring's trees, the kids left and `t` form a pool.
   */
  ghost predicate Taken(m: Mem, root: Option<nat>, f: seq<Tree>, x: nat, rest: seq<Tree>, t: Tree) {
    && IsRing(m.left, m.right, root, Ids(f)) && t.id !in Ids(f) && Single(m, t.id)
    && InRange(m, x) && IsRing(m.left, m.right, m.children[x].root, Ids(rest))
    && Pool(m, f + rest + [t]) && x !in NodesF(f + rest + [t])
  }

  /** `pop_min` takes the first kid off the extracted root's child ring. */
  lemma PromoteTake(m: Mem, m': Mem, root: Option<nat>, f: seq<Tree>, x: nat, kids: seq<Tree>, c: IntrusiveList)
    requires Promoting(m, root, f, x, kids) && kids != []
    requires m'.key == m.key && m'.degree == m.degree && m'.children == m.children[x := c]
    requires LinksKept(m.left, m.right, m'.left, m'.right, Members(Ids(kids)))
    requires IsRing(m'.left, m'.right, c.root, ExtractOrder(Ids(kids))) && Single(m', kids[0].id)
    ensures Taken(m', root, f, x, ExtractOrder(kids), kids[0])
    ensures KeysF(m'.key, f + ExtractOrder(kids) + [kids[0]]) == KeysF(m.key, f + kids)
    ensures NodesF(f + ExtractOrder(kids) + [kids[0]]) == NodesF(f + kids)
    ensures Agree(m, m', Members(Ids(kids)), {x})
  {
    var L := Members(Ids(kids));
    assert Agree(m, m', L, {x});
    TakePool(m, m', f, x, kids);
    IdsApart(f, kids);
    RingAgree(m, m', root, Ids(f), L, {x});
    IdsExtractOrder(kids);
    assert kids[0].id in L;
  }

  /** Putting the taken kid after the root ring's root keeps the trees. */
  lemma PutPerm(f: seq<Tree>, kids: seq<Tree>, t: Tree)
    ensures multiset(MergeOrder(f, [t]) + kids) == multiset(f + kids + [t])
    ensures forall y | y in Members(Ids(f)) + {t.id} :: y in Ids(MergeOrder(f, [t]) + kids)
  {
    MergeOrderMultiset(f, [t]);
    IdsSub(f + [t], MergeOrder(f, [t]) + kids);
    IdsConcat(f, [t]);
  }

  /** Putting the taken kid on the root ring keeps the pool, now with the kid in ring order. */
  lemma PutPool(m: Mem, m': Mem, f: seq<Tree>, x: nat, kids: seq<Tree>, t: Tree)
    requires Pool(m, f + kids + [t]) && x !in NodesF(f + kids + [t])
    requires Agree(m, m', Members(Ids(f)) + {t.id}, {})
    ensures Pool(m', MergeOrder(f, [t]) + kids) && x !in NodesF(MergeOrder(f, [t]) + kids)
    ensures KeysF(m.key, MergeOrder(f, [t]) + kids) == KeysF(m.key, f + kids + [t])
    ensures NodesF(MergeOrder(f, [t]) + kids) == NodesF(f + kids + [t])
  {
    var g := MergeOrder(f, [t]) + kids;
    PutPerm(f, kids, t);
    PoolPerm(m, f + kids + [t], g);
    var L := Members(Ids(f)) + {t.id};
    PoolFrame(m, m', g, L, {});
  }

  /** The kids and the taken kid are apart from the root ring's trees. */
  lemma PutApart(f: seq<Tree>, kids: seq<Tree>, t: Tree)
    requires Separate(f + kids + [t])
    ensures Apart(Members(Ids(kids)), Members(Ids(f)) + {t.id})
  {
    SeparateConcat(f + kids, [t]);
    IdsApart(f + kids, [t]);
    IdsApart(f, kids);
    NodesFSingle(t);
    IdsInNodes([t]);
    IdsInNodes(f + kids);
    IdsConcat(f, kids);
  }

  /** `pop_min` puts the taken kid on the heap's root ring, right after the ring's root. */
  lemma PromotePut(m: Mem, m': Mem, root: Option<nat>, root': Option<nat>, f: seq<Tree>, x: nat, kids: seq<Tree>, t: Tree)
    requires Taken(m, root, f, x, kids, t)
    requires m'.key == m.key && m'.degree == m.degree && m'.children == m.children
    requires LinksKept(m.left, m.right, m'.left, m'.right, Members(Ids(f)) + {t.id})
    requires IsRing(m'.left, m'.right, root', MergeOrder(Ids(f), [t.id]))
    ensures Promoting(m', root', MergeOrder(f, [t]), x, kids)
    ensures KeysF(m'.key, MergeOrder(f, [t]) + kids) == KeysF(m.key, f + kids + [t])
    ensures NodesF(MergeOrder(f, [t]) + kids) == NodesF(f + kids + [t])
    ensures Agree(m, m', Members(Ids(f)) + {t.id}, {})
  {
    var L := Members(Ids(f)) + {t.id};
    KeptAgree(m, m', L);
    PutPool(m, m', f, x, kids, t);
    PutApart(f, kids, t);
    RingAgree(m, m', m.children[x].root, Ids(kids), L, {});
    IdsMergeOrder(f, [t]);
    assert Ids([t]) == [t.id];
  }

  /** The child ring is empty: promotion is over, and the root ring is the heap's shape. */
  lemma PromoteDone(m: Mem, m': Mem, root: Option<nat>, f: seq<Tree>, x: nat, kids: seq<Tree>, c: IntrusiveList)
    requires Promoting(m, root, f, x, kids) && m.children[x].root == None && c.root == None
    requires m'.left == m.left && m'.right == m.right && m'.key == m.key && m'.degree == m.degree
    requires m'.children == m.children[x := c]
    ensures kids == [] && m' == m && f + kids == f
    ensures Shape(m', root, f) && |NodesF(f)| == |KeysF(m.key, f)|
  {
    assert f + kids == f;
    KeysCount(m.key, f);
  }

  /**
   * Taking a kid off the child ring of `x` writes the link fields of the kids and the
   * child list of `x`, nothing outside the heap's nodes and `x`.
   */
  lemma KidsWithin(m: Mem, m': Mem, f: seq<Tree>, kids: seq<Tree>, x: nat, N: set<nat>)
    requires Agree(m, m', Members(Ids(kids)), {x}) && NodesF(f + kids) == N
    ensures Agree(m, m', N, {x})
  {
    IdsInNodes(kids);
    NodesFConcat(f, kids);
    AgreeWiden(m, m', Members(Ids(kids)), {x}, N, {x});
  }

  /** Putting the taken kid `t` on the root ring writes link fields of the heap's nodes only. */
  lemma PutWithin(m: Mem, m': Mem, f: seq<Tree>, kids: seq<Tree>, t: Tree, x: nat, N: set<nat>)
    requires Agree(m, m', Members(Ids(f)) + {t.id}, {}) && NodesF(f + kids + [t]) == N
    ensures Agree(m, m', N, {x})
  {
    IdsInNodes(f);
    NodesFConcat(f + kids, [t]);
    NodesFConcat(f, kids);
    NodesFSingle(t);
    AgreeWiden(m, m', Members(Ids(f)) + {t.id}, {}, N, {x});
  }

  /**
   * Taking the root off the ring of `f` writes the link fields of its roots only; `f` and
   * `s` together hold the nodes `N`.
   */
  lemma RootsWithin(m: Mem, m': Mem, f: seq<Tree>, s: seq<Tree>, N: set<nat>)
    requires m'.key == m.key && m'.degree == m.degree && m'.children == m.children
    requires LinksKept(m.left, m.right, m'.left, m'.right, Members(Ids(f)))
    requires NodesF(f + s) == N
    ensures Agree(m, m', N, N)
  {
    KeptAgree(m, m', Members(Ids(f)));
    IdsInNodes(f);
    NodesFConcat(f, s);
    AgreeWiden(m, m', Members(Ids(f)), {}, N, N);
  }

  /**
   * What extracting the root of the heap's root ring writes, and which nodes are left
   * in the other trees and below the extracted root: all but the root itself.
   */
  lemma ExtractWithin(m: Mem, m': Mem, f: seq<Tree>, N: set<nat>)
    requires Pool(m, f) && NodesF(f) == N
    requires m'.key == m.key && m'.degree == m.degree && m'.children == m.children
    requires LinksKept(m.left, m.right, m'.left, m'.right, Members(Ids(f)))
    ensures Agree(m, m', N, N)
    ensures f != [] ==> f[0].id in N && NodesF(ExtractOrder(f) + f[0].kids) == N - {f[0].id}
  {
    assert f + [] == f;
    RootsWithin(m, m', f, [], N);
    if f != [] {
      ExtractRest(m, f);
    }
  }

  /** The writes of the three phases of `pop_min` stay on the heap's nodes. */
  lemma PopWithin(m0: Mem, m1: Mem, m2: Mem, m3: Mem, N: set<nat>, x: nat)
    requires x in N
    requires Agree(m0, m1, N, N) && Agree(m1, m2, N - {x}, {x}) && Agree(m2, m3, N - {x}, N - {x})
    ensures Agree(m0, m3, N, N)
  {
    AgreeWiden(m1, m2, N - {x}, {x}, N, N);
    AgreeWiden(m2, m3, N - {x}, N - {x}, N, N);
    AgreeStep(m0, m1, m2, N, N);
    AgreeStep(m0, m2, m3, N, N);
  }

  // ---------------------------------------------------------------------------------
  // consolidate

  /**
   * Between two trees taken from the root ring: the root ring lists the trees of `f`,
   * the table holds the trees of `slots`, and both together form a pool.
   */
  ghost predicate Gathering(m: Mem, root: Option<nat>, f: seq<Tree>, u: seq<Option<nat>>, slots: seq<Option<Tree>>) {
    && IsRing(m.left, m.right, root, Ids(f))
    && Pool(m, f + SlotTrees(slots))
    && Table(m, u, slots)
  }

  /** While `consolidate` holds the self-looped tree `t` in its hand. */
  ghost predicate Holding(m: Mem, root: Option<nat>, f: seq<Tree>, u: seq<Option<nat>>, slots: seq<Option<Tree>>, t: Tree) {
    && IsRing(m.left, m.right, root, Ids(f))
    && Pool(m, f + SlotTrees(slots) + [t])
    && Table(m, u, slots)
    && Single(m, t.id)
  }

  /** With every slot empty, the table is ready. */
  lemma GatherStart(m: Mem, root: Option<nat>, f: seq<Tree>, u: seq<Option<nat>>, slots: seq<Option<Tree>>)
    requires Shape(m, root, f)
    requires |u| == |slots| && forall i | 0 <= i < |slots| :: u[i].None? && slots[i].None?
    ensures Gathering(m, root, f, u, slots) && f + SlotTrees(slots) == f
  {
    SlotTreesNone(slots);
    assert f + [] == f;
  }

  /** Taking the root off the ring and holding it keeps the trees. */
  lemma HoldPerm(f: seq<Tree>, s: seq<Tree>)
    requires f != []
    ensures multiset(ExtractOrder(f) + s + [f[0]]) == multiset(f + s)
  {
    ExtractOrderMultiset(f);
    assert f == [f[0]] + f[1..];
  }

  /** The pool after `consolidate` takes the root off the root ring. */
  lemma HoldPool(m: Mem, m': Mem, f: seq<Tree>, s: seq<Tree>)
    requires Pool(m, f + s) && f != [] && Agree(m, m', Members(Ids(f)), {})
    ensures Pool(m', ExtractOrder(f) + s + [f[0]])
    ensures NodesF(ExtractOrder(f) + s + [f[0]]) == NodesF(f + s)
    ensures KeysF(m.key, ExtractOrder(f) + s + [f[0]]) == KeysF(m.key, f + s)
  {
    var g := ExtractOrder(f) + s + [f[0]];
    HoldPerm(f, s);
    PoolPerm(m, f + s, g);
    IdsSub(f, g);
    PoolFrame(m, m', g, Members(Ids(f)), {});
  }

  /** `consolidate` takes the root of the root ring into its hand. */
  lemma GatherTake(m: Mem, m': Mem, root: Option<nat>, root': Option<nat>, f: seq<Tree>, u: seq<Option<nat>>, slots: seq<Option<Tree>>, N: set<nat>, K: multiset<i32>)
    requires Gathering(m, root, f, u, slots) && f != []
    requires NodesF(f + SlotTrees(slots)) == N && |N| < 1024 && KeysF(m.key, f + SlotTrees(slots)) == K
    requires m'.key == m.key && m'.degree == m.degree && m'.children == m.children
    requires LinksKept(m.left, m.right, m'.left, m'.right, Members(Ids(f)))
    requires IsRing(m'.left, m'.right, root', ExtractOrder(Ids(f))) && Single(m', f[0].id)
    ensures Holding(m', root', ExtractOrder(f), u, slots, f[0])
    ensures InRange(m', f[0].id) && m'.degree[f[0].id] == |f[0].kids| < 10
    ensures NodesF(ExtractOrder(f) + SlotTrees(slots) + [f[0]]) == N
    ensures KeysF(m'.key, ExtractOrder(f) + SlotTrees(slots) + [f[0]]) == K
  {
    var S, L := SlotTrees(slots), Members(Ids(f));
    KeptAgree(m, m', L);
    HoldPool(m, m', f, S);
    IdsApart(f, S);
    IdsInNodes(f);
    TableFrame(m, m', u, slots, L, {});
    IdsExtractOrder(f);
    HeldBound(m', ExtractOrder(f) + S, f[0]);
  }

  /** The held tree has fewer than 10 kids while fewer than 1024 nodes are about. */
  lemma HeldBound(m: Mem, g: seq<Tree>, t: Tree)
    requires Pool(m, g + [t]) && |NodesF(g + [t])| < 1024
    ensures InRange(m, t.id) && m.degree[t.id] == |t.kids| < 10
  {
    var h := g + [t];
    assert h[|h| - 1] == t;
    assert WfTree(m, h[|h| - 1]);
    PoolDegreeBound(m, h, |h| - 1);
  }

  /** Emptying slot `d` and pairing its tree with the held one keeps the trees. */
  lemma UnslotPerm(f: seq<Tree>, slots: seq<Option<Tree>>, d: nat, t: Tree, tu: Tree, tl: Tree)
    requires d < |slots| && slots[d].Some?
    requires (tu, tl) == (t, slots[d].value) || (tu, tl) == (slots[d].value, t)
    ensures multiset(f + SlotTrees(slots[d := None]) + [tu, tl]) == multiset(f + SlotTrees(slots) + [t])
  {
    var o, s' := slots[d].value, slots[d := None];
    assert s'[d := Some(o)] == slots;
    SlotTreesFill(s', d, o);
    assert multiset([tu, tl]) == multiset{t} + multiset{o};
    assert multiset(f + SlotTrees(s') + [tu, tl]) == multiset(f) + multiset(SlotTrees(s')) + multiset([tu, tl]);
    assert multiset(f + SlotTrees(slots) + [t]) == multiset(f) + multiset(SlotTrees(slots)) + multiset{t};
  }

  /** Emptying a slot of the table. */
  lemma TableClear(m: Mem, u: seq<Option<nat>>, slots: seq<Option<Tree>>, d: nat)
    requires Table(m, u, slots) && d < |slots|
    ensures Table(m, u[d := None], slots[d := None])
  {
  }

  /** Filling the empty slot of the tree's degree. */
  lemma TableFill(m: Mem, u: seq<Option<nat>>, slots: seq<Option<Tree>>, t: Tree)
    requires Table(m, u, slots) && |t.kids| < |slots| && Single(m, t.id)
    ensures Table(m, u[|t.kids| := Some(t.id)], slots[|t.kids| := Some(t)])
  {
  }

  /** The pool after emptying slot `d` into the hand. */
  lemma UnslotPool(m: Mem, f: seq<Tree>, slots: seq<Option<Tree>>, t: Tree, d: nat, tu: Tree, tl: Tree)
    requires Pool(m, f + SlotTrees(slots) + [t]) && d < |slots| && slots[d].Some?
    requires (tu, tl) == (t, slots[d].value) || (tu, tl) == (slots[d].value, t)
    ensures Pool(m, f + SlotTrees(slots[d := None]) + [tu, tl])
    ensures WfTree(m, tu) && WfTree(m, tl) && Separate([tu, tl])
    ensures NodesF(f + SlotTrees(slots[d := None]) + [tu, tl]) == NodesF(f + SlotTrees(slots) + [t])
    ensures KeysF(m.key, f + SlotTrees(slots[d := None]) + [tu, tl]) == KeysF(m.key, f + SlotTrees(slots) + [t])
  {
    var r := f + SlotTrees(slots[d := None]);
    UnslotPerm(f, slots, d, t, tu, tl);
    PoolPerm(m, f + SlotTrees(slots) + [t], r + [tu, tl]);
    PoolPair(m, r, tu, tl);
  }

  /**
   * `consolidate` takes the tree out of slot `d`, which has the held tree's degree, and
   * orders the pair by key: `tu` is to become the parent of `tl`.
   */
  lemma GatherUnslot(m: Mem, root: Option<nat>, f: seq<Tree>, u: seq<Option<nat>>, slots: seq<Option<Tree>>, t: Tree, d: nat, tu: Tree, tl: Tree, N: set<nat>, K: multiset<i32>)
    requires Holding(m, root, f, u, slots, t) && d < |slots| && slots[d].Some? && |t.kids| == d
    requires NodesF(f + SlotTrees(slots) + [t]) == N && KeysF(m.key, f + SlotTrees(slots) + [t]) == K
    requires (tu, tl) == (t, slots[d].value) || (tu, tl) == (slots[d].value, t)
    ensures u[d] == Some(slots[d].value.id)
    ensures Table(m, u[d := None], slots[d := None])
    ensures Pool(m, f + SlotTrees(slots[d := None]) + [tu, tl])
    ensures Single(m, tu.id) && Single(m, tl.id) && |tu.kids| == d && |tl.kids| == d
    ensures WfTree(m, tu) && WfTree(m, tl) && Separate([tu, tl])
    ensures InRange(m, tu.id) && InRange(m, tl.id) && m.degree[tu.id] == d
    ensures NodesF(f + SlotTrees(slots[d := None]) + [tu, tl]) == N
    ensures KeysF(m.key, f + SlotTrees(slots[d := None]) + [tu, tl]) == K
  {
    TableClear(m, u, slots, d);
    UnslotPool(m, f, slots, t, d, tu, tl);
  }

  /** The linked node was self-looped, and `link` writes no links of its own. */
  lemma UpperUntouched(tu: Tree, tl: Tree)
    requires Separate([tu, tl])
    ensures tu.id !in Members(Ids(tu.kids)) + {tl.id}
  {
    assert [tu, tl][1..] == [tl];
    NodesFSingle(tl);
    IdsInNodes(tu.kids);
  }

  /** After `link`, the hand holds the linked tree, one degree higher. */
  lemma GatherLinked(m: Mem, m': Mem, root: Option<nat>, f: seq<Tree>, u: seq<Option<nat>>, slots: seq<Option<Tree>>, tu: Tree, tl: Tree, N: set<nat>, K: multiset<i32>)
    requires IsRing(m.left, m.right, root, Ids(f)) && Table(m, u, slots)
    requires Pool(m, f + SlotTrees(slots) + [tu, tl]) && Single(m, tu.id)
    requires InRange(m, tu.id) && m.degree[tu.id] == |tu.kids|
    requires tl.id < |m.key| && m.key[tu.id] <= m.key[tl.id] && |tu.kids| == |tl.kids|
    requires LinkWrites(m, m', tu, tl) && m'.degree == m.degree[tu.id := |tu.kids| + 1]
    requires tu.id < |m'.children|
    requires IsRing(m'.left, m'.right, m'.children[tu.id].root, MergeOrder(Ids(tu.kids), [tl.id]))
    requires NodesF(f + SlotTrees(slots) + [tu, tl]) == N && |N| < 1024
    requires KeysF(m.key, f + SlotTrees(slots) + [tu, tl]) == K
    ensures Holding(m', root, f, u, slots, Linked(tu, tl))
    ensures |Linked(tu, tl).kids| == |tu.kids| + 1 < 10
    ensures InRange(m', tu.id) && m'.degree[tu.id] == |tu.kids| + 1
    ensures NodesF(f + SlotTrees(slots) + [Linked(tu, tl)]) == N
    ensures KeysF(m.key, f + SlotTrees(slots) + [Linked(tu, tl)]) == K
    ensures Agree(m, m', N, N)
  {
    var r := f + SlotTrees(slots);
    LinkWithin(m, m', r, tu, tl, N);
    var L := Members(Ids(tu.kids)) + {tl.id};
    LinkStep(m, m', r, tu, tl);
    PoolDegreeBound(m', r + [Linked(tu, tl)], |r|);
    LinkKids(m.key, tu, tl);
    NodesFConcat(f, SlotTrees(slots));
    IdsInNodes(f);
    RingAgree(m, m', root, Ids(f), L, {tu.id});
    TableFrame(m, m', u, slots, L, {tu.id});
    PoolPair(m, r, tu, tl);
    UpperUntouched(tu, tl);
  }

  /** The pool once the held tree is in its slot. */
  lemma SlotPool(m: Mem, f: seq<Tree>, slots: seq<Option<Tree>>, t: Tree)
    requires Pool(m, f + SlotTrees(slots) + [t]) && |t.kids| < |slots| && slots[|t.kids|].None?
    ensures Pool(m, f + SlotTrees(slots[|t.kids| := Some(t)]))
    ensures NodesF(f + SlotTrees(slots[|t.kids| := Some(t)])) == NodesF(f + SlotTrees(slots) + [t])
    ensures KeysF(m.key, f + SlotTrees(slots[|t.kids| := Some(t)])) == KeysF(m.key, f + SlotTrees(slots) + [t])
  {
    SlotTreesFill(slots, |t.kids|, t);
    PoolPerm(m, f + SlotTrees(slots) + [t], f + SlotTrees(slots[|t.kids| := Some(t)]));
  }

  /** The held tree goes into the empty slot of its degree. */
  lemma GatherSlot(m: Mem, root: Option<nat>, f: seq<Tree>, u: seq<Option<nat>>, slots: seq<Option<Tree>>, t: Tree, N: set<nat>, K: multiset<i32>)
    requires Holding(m, root, f, u, slots, t) && |t.kids| < |slots| && slots[|t.kids|].None?
    requires NodesF(f + SlotTrees(slots) + [t]) == N && KeysF(m.key, f + SlotTrees(slots) + [t]) == K
    ensures Gathering(m, root, f, u[|t.kids| := Some(t.id)], slots[|t.kids| := Some(t)])
    ensures NodesF(f + SlotTrees(slots[|t.kids| := Some(t)])) == N
    ensures KeysF(m.key, f + SlotTrees(slots[|t.kids| := Some(t)])) == K
  {
    TableFill(m, u, slots, t);
    SlotPool(m, f, slots, t);
  }

  /** `link` writes the link fields of the pair's nodes and the fields of the upper node. */
  lemma LinkWithin(m: Mem, m': Mem, r: seq<Tree>, tu: Tree, tl: Tree, N: set<nat>)
    requires LinkWrites(m, m', tu, tl) && NodesF(r + [tu, tl]) == N
    ensures Agree(m, m', N, N)
  {
    NodesFConcat(r, [tu, tl]);
    assert [tu, tl][1..] == [tl];
    NodesFSingle(tl);
    IdsInNodes(tu.kids);
    AgreeWiden(m, m', Members(Ids(tu.kids)) + {tl.id}, {tu.id}, N, N);
  }

  /**
   * While `consolidate` puts the table's trees back on the root ring, slot by slot: the
   * root ring is a min-rooted ring of trees of distinct degrees below `i`, and with the
   * trees still in the table it forms a pool.
   */
  ghost predicate Reinserting(m: Mem, root: Option<nat>, g: seq<Tree>, u: seq<Option<nat>>, slots: seq<Option<Tree>>, i: nat) {
    && Shape(m, root, g) && RootIsMin(m.key, g)
    && Pool(m, g + SlotTrees(slots)) && Table(m, u, slots)
    && i <= |slots|
    && (forall j | 0 <= j < i :: slots[j].None?)
    && (forall t | t in g :: |t.kids| < i)
    && DistinctDegrees(g)
  }

  /** Once the root ring is empty, the table's trees are put back from slot 0 on. */
  lemma ReinsertStart(m: Mem, root: Option<nat>, u: seq<Option<nat>>, slots: seq<Option<Tree>>)
    requires Gathering(m, root, [], u, slots)
    ensures Reinserting(m, root, [], u, slots, 0)
  {
    assert [] + SlotTrees(slots) == SlotTrees(slots);
    assert Pool(m, []);
  }

  /** An empty slot is passed over. */
  lemma ReinsertSkip(m: Mem, root: Option<nat>, g: seq<Tree>, u: seq<Option<nat>>, slots: seq<Option<Tree>>, i: nat)
    requires Reinserting(m, root, g, u, slots, i) && i < |slots| && u[i].None?
    ensures Reinserting(m, root, g, u, slots, i + 1)
  {
  }

  /** A tree of the table is a one-tree pool apart from the root ring's trees. */
  lemma SlotTreePool(m: Mem, g: seq<Tree>, slots: seq<Option<Tree>>, i: nat)
    requires Pool(m, g + SlotTrees(slots)) && i < |slots| && slots[i].Some?
    ensures Pool(m, [slots[i].value]) && Apart(Nodes(slots[i].value), NodesF(g))
  {
    SlotTreesHas(slots, i);
    var j :| 0 <= j < |SlotTrees(slots)| && SlotTrees(slots)[j] == slots[i].value;
    PoolConcat(m, g, SlotTrees(slots));
    PoolMember(m, SlotTrees(slots), j);
  }

  /** What `insert_node` is handed from slot `i`. */
  lemma ReinsertPre(m: Mem, root: Option<nat>, g: seq<Tree>, u: seq<Option<nat>>, slots: seq<Option<Tree>>, i: nat)
    requires Reinserting(m, root, g, u, slots, i) && i < |slots| && u[i].Some?
    ensures slots[i].Some? && slots[i].value.id == u[i].value
    ensures Pool(m, [slots[i].value]) && Single(m, u[i].value)
    ensures Apart(Nodes(slots[i].value), NodesF(g))
  {
    SlotTreePool(m, g, slots, i);
  }

  /** The degrees on the root ring stay distinct when the tree of slot `i` joins. */
  lemma ReinsertDegrees(g: seq<Tree>, g': seq<Tree>, t: Tree, i: nat)
    requires multiset(g') == multiset(g) + multiset{t} && |t.kids| == i
    requires (forall c | c in g :: |c.kids| < i) && DistinctDegrees(g)
    ensures (forall c | c in g' :: |c.kids| < i + 1) && DistinctDegrees(g')
  {
    forall c | c in g'
      ensures c == t || c in g
    {
      assert c in multiset(g');
    }
  }

  /** The trees on the ring and in the table after slot `i` was put back. */
  lemma ReinsertPerm(g: seq<Tree>, g': seq<Tree>, slots: seq<Option<Tree>>, i: nat)
    requires i < |slots| && slots[i].Some?
    requires multiset(g') == multiset(g) + multiset{slots[i].value}
    ensures multiset(g' + SlotTrees(slots[i := None])) == multiset(g + SlotTrees(slots))
    ensures multiset(g + [slots[i].value]) <= multiset(g' + SlotTrees(slots[i := None]))
  {
    var t := slots[i].value;
    assert slots[i := None][i := Some(t)] == slots;
    SlotTreesFill(slots[i := None], i, t);
  }

  /** The pool of ring and table after `insert_node` put the tree of slot `i` on the ring. */
  lemma ReinsertPool(m: Mem, m': Mem, g: seq<Tree>, g': seq<Tree>, slots: seq<Option<Tree>>, i: nat)
    requires Pool(m, g + SlotTrees(slots)) && i < |slots| && slots[i].Some?
    requires multiset(g') == multiset(g) + multiset{slots[i].value}
    requires Agree(m, m', Members(Ids(g)) + {slots[i].value.id}, {})
    ensures Pool(m', g' + SlotTrees(slots[i := None]))
    ensures Apart(Members(Ids(g)) + {slots[i].value.id}, NodesF(SlotTrees(slots[i := None])))
    ensures NodesF(g' + SlotTrees(slots[i := None])) == NodesF(g + SlotTrees(slots))
    ensures KeysF(m.key, g' + SlotTrees(slots[i := None])) == KeysF(m.key, g + SlotTrees(slots))
  {
    var t, s' := slots[i].value, slots[i := None];
    var h := g' + SlotTrees(s');
    var L := Members(Ids(g)) + {t.id};
    ReinsertPerm(g, g', slots, i);
    PoolPerm(m, g + SlotTrees(slots), h);
    assert forall y | y in L :: y in Ids(g') by {
      IdsSub(g + [t], g');
      IdsConcat(g, [t]);
      assert Ids([t]) == [t.id];
    }
    assert forall y | y in L :: y in Ids(h) by {
      IdsConcat(g', SlotTrees(s'));
    }
    PoolFrame(m, m', h, L, {});
    IdsApart(g', SlotTrees(s'));
    IdsInNodes(g');
  }

  /** The invariant of the slot loop, one slot further on. */
  lemma ReinsertNext(m: Mem, root: Option<nat>, g: seq<Tree>, u: seq<Option<nat>>, slots: seq<Option<Tree>>, i: nat)
    requires Shape(m, root, g) && RootIsMin(m.key, g)
    requires i < |slots| && Pool(m, g + SlotTrees(slots[i := None])) && Table(m, u, slots[i := None])
    requires (forall j | 0 <= j < i :: slots[j].None?)
    requires (forall t | t in g :: |t.kids| < i + 1) && DistinctDegrees(g)
    ensures Reinserting(m, root, g, u, slots[i := None], i + 1)
  {
  }

  /** After `insert_node` put the tree of slot `i` on the root ring. */
  lemma ReinsertPost(m: Mem, m': Mem, root: Option<nat>, root': Option<nat>, g: seq<Tree>, g': seq<Tree>, u: seq<Option<nat>>, slots: seq<Option<Tree>>, i: nat, N: set<nat>, K: multiset<i32>)
    requires Reinserting(m, root, g, u, slots, i) && i < |slots| && slots[i].Some?
    requires NodesF(g + SlotTrees(slots)) == N && KeysF(m.key, g + SlotTrees(slots)) == K
    requires Shape(m', root', g') && RootIsMin(m'.key, g') && m'.key == m.key
    requires multiset(g') == multiset(g) + multiset{slots[i].value}
    requires Agree(m, m', Members(Ids(g)) + {slots[i].value.id}, {})
    ensures Reinserting(m', root', g', u[i := None], slots[i := None], i + 1)
    ensures NodesF(g' + SlotTrees(slots[i := None])) == N
    ensures KeysF(m'.key, g' + SlotTrees(slots[i := None])) == K
  {
    var t := slots[i].value;
    ReinsertPool(m, m', g, g', slots, i);
    TableClear(m, u, slots, i);
    TableFrame(m, m', u[i := None], slots[i := None], Members(Ids(g)) + {t.id}, {});
    ReinsertDegrees(g, g', t, i);
    ReinsertNext(m', root', g', u[i := None], slots, i);
  }

  /** Putting the tree of slot `i` back on the root ring writes link fields of the heap's nodes only. */
  lemma SlotWithin(m: Mem, m': Mem, g: seq<Tree>, slots: seq<Option<Tree>>, i: nat, N: set<nat>)
    requires i < |slots| && slots[i].Some? && NodesF(g + SlotTrees(slots)) == N
    requires Agree(m, m', Members(Ids(g)) + {slots[i].value.id}, {})
    ensures Agree(m, m', N, N)
  {
    IdsInNodes(g);
    NodesFConcat(g, SlotTrees(slots));
    SlotTreesHas(slots, i);
    var j :| 0 <= j < |SlotTrees(slots)| && SlotTrees(slots)[j] == slots[i].value;
    KidNodes(SlotTrees(slots), j);
    AgreeWiden(m, m', Members(Ids(g)) + {slots[i].value.id}, {}, N, N);
  }

  /** Once every slot was visited, the table is empty and the root ring holds every tree. */
  lemma ReinsertEnd(m: Mem, root: Option<nat>, g: seq<Tree>, u: seq<Option<nat>>, slots: seq<Option<Tree>>)
    requires Reinserting(m, root, g, u, slots, |slots|)
    ensures SlotTrees(slots) == [] && g + SlotTrees(slots) == g
  {
    SlotTreesNone(slots);
  }

  // ---------------------------------------------------------------------------------
  // heaps sharing an arena

  /** Writes that stay off a forest's nodes keep its shape, its minimum root and its keys. */
  lemma ShapeKept(m: Mem, m': Mem, root: Option<nat>, f: seq<Tree>, L: set<nat>, D: set<nat>)
    requires Shape(m, root, f) && RootIsMin(m.key, f)
    requires Agree(m, m', L, D) && Apart(L + D, NodesF(f))
    ensures Shape(m', root, f) && RootIsMin(m'.key, f)
    ensures KeysF(m'.key, f) == KeysF(m.key, f)
  {
    PoolFrame(m, m', f, L, D);
    IdsInNodes(f);
    RingAgree(m, m', root, Ids(f), L, D);
    KeysKept(m, m', f, L, D);
  }

  /** The keys of a well-formed forest survive writes that leave keys alone. */
  lemma KeysKept(m: Mem, m': Mem, f: seq<Tree>, L: set<nat>, D: set<nat>)
    requires WfForest(m, f) && Agree(m, m', L, D)
    ensures KeysF(m'.key, f) == KeysF(m.key, f)
  {
    forall x | x in NodesF(f)
      ensures x < |m.key| && x < |m'.key| && m'.key[x] == m.key[x]
    {
      ForestInRange(m, f, x);
    }
    KeysFrame(m.key, m'.key, f);
  }

  // ---------------------------------------------------------------------------------
  // merge

  /** Two heaps over disjoint nodes have disjoint root rings. */
  lemma MergePre(f1: seq<Tree>, f2: seq<Tree>)
    requires Apart(NodesF(f1), NodesF(f2))
    ensures Disjoint(Ids(f1), Ids(f2))
  {
    IdsInNodes(f1);
    IdsInNodes(f2);
    forall x | x in Ids(f1)
      ensures x !in Ids(f2)
    {
      assert x in Members(Ids(f1));
      assert x !in Members(Ids(f2));
    }
  }

  /** Splicing the root ring of `f2` in after the root of `f1` gives one heap shape. */
  lemma MergeStep(m: Mem, m': Mem, f1: seq<Tree>, f2: seq<Tree>, root': Option<nat>)
    requires Pool(m, f1) && Pool(m, f2) && Apart(NodesF(f1), NodesF(f2))
    requires m'.key == m.key && m'.degree == m.degree && m'.children == m.children
    requires LinksKept(m.left, m.right, m'.left, m'.right, Members(Ids(f1)) + Members(Ids(f2)))
    requires IsRing(m'.left, m'.right, root', MergeOrder(Ids(f1), Ids(f2)))
    ensures Shape(m', root', MergeOrder(f1, f2))
    ensures KeysF(m.key, MergeOrder(f1, f2)) == KeysF(m.key, f1) + KeysF(m.key, f2)
    ensures multiset(MergeOrder(f1, f2)) == multiset(f1) + multiset(f2)
  {
    var L := Members(Ids(f1)) + Members(Ids(f2));
    KeptAgree(m, m', L);
    PoolConcat(m, f1, f2);
    IdsConcat(f1, f2);
    assert L == Members(Ids(f1 + f2));
    PoolFrame(m, m', f1 + f2, L, {});
    MergeOrderMultiset(f1, f2);
    PoolPerm(m', f1 + f2, MergeOrder(f1, f2));
    PoolPerm(m, f1 + f2, MergeOrder(f1, f2));
    KeysFConcat(m.key, f1, f2);
    IdsMergeOrder(f1, f2);
  }

  /**
   * The splice and `set_root` together own exactly the nodes of both forests, and they
   * write only links of the two root rings' members.
   */
  lemma SpliceWithin(m: Mem, m': Mem, f1: seq<Tree>, f2: seq<Tree>, g: seq<Tree>)
    requires m'.key == m.key && m'.degree == m.degree && m'.children == m.children
    requires LinksKept(m.left, m.right, m'.left, m'.right, Members(Ids(f1)) + Members(Ids(f2)))
    requires multiset(g) == multiset(f1) + multiset(f2)
    ensures NodesF(g) == NodesF(f1) + NodesF(f2)
    ensures Agree(m, m', NodesF(f1) + NodesF(f2), {})
  {
    KeptAgree(m, m', Members(Ids(f1)) + Members(Ids(f2)));
    IdsInNodes(f1);
    IdsInNodes(f2);
    AgreeWiden(m, m', Members(Ids(f1)) + Members(Ids(f2)), {}, NodesF(f1) + NodesF(f2), {});
    PermNodes(f1 + f2, g);
    NodesFConcat(f1, f2);
  }

  /**
   * `set_root(new_min)` after the splice: the ring is read from position `i` of the merged
   * order, which is `f2`'s root when both heaps are non-empty and `f2`'s root key is
   * strictly smaller, and `f1`'s root (or `f2`'s when `f1` is empty) otherwise. The root
   * then holds the smallest root key.
   */
  lemma MergeRoot(m: Mem, root': Option<nat>, f1: seq<Tree>, f2: seq<Tree>, i: nat)
    requires RootIsMin(m.key, f1) && RootIsMin(m.key, f2)
    requires IsRing(m.left, m.right, root', Ids(MergeOrder(f1, f2)))
    requires i == if f1 != [] && f2 != [] && KeyOf(m.key, f1[0].id) > KeyOf(m.key, f2[0].id) then 1 else 0
    ensures var g := MergeOrder(f1, f2);
      && i <= |g|
      && (g != [] ==> g[i].id == if i == 1 || f1 == [] then f2[0].id else f1[0].id)
      && IsRing(m.left, m.right, if g == [] then None else Some(g[i].id), Ids(Rotate(g, i)))
      && multiset(Rotate(g, i)) == multiset(g)
      && RootIsMin(m.key, Rotate(g, i))
  {
    var g := MergeOrder(f1, f2);
    MergeOrderMultiset(f1, f2);
    RotateMultiset(g, i);
    if g != [] {
      IdsRotate(g, i);
      RotateRing(m.left, m.right, Ids(g), i);
      var h := Rotate(g, i);
      assert h[0] == g[i];
      if f1 != [] {
        assert f1[0] in f1;
      }
      if f2 != [] {
        assert f2[0] in f2;
      }
      forall t | t in h
        ensures h[0].id < |m.key| && t.id < |m.key| && m.key[h[0].id] <= m.key[t.id]
      {
        assert t in multiset(h);
        assert t in f1 || t in f2;
      }
    }
  }
}
