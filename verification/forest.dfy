/**
 * The abstract view of a Fibonacci heap's node graph (src/lib.rs): every node owns a
 * ring of children, so the heap's content is a forest of trees of node handles. A `Tree`
 * lists a node's children in the order of its child ring; `Mem` is a snapshot of the
 * node fields of the arena that the forest is read against.
 */
module Forests {
  import opened Wrappers
  import opened Rings
  import opened IntrusiveLists

  /** The key type of the heap (`i32`). Keys are only compared, never computed with. */
  newtype i32 = x: int | -0x8000_0000 <= x < 0x8000_0000

  datatype Tree = Tree(id: nat, kids: seq<Tree>)

  /** Link fields and node fields (`key`, `degree`, `children`) of every node, by handle. */
  datatype Mem = Mem(left: seq<nat>, right: seq<nat>, key: seq<i32>, degree: seq<nat>, children: seq<IntrusiveList>)

  ghost predicate InRange(m: Mem, x: nat) {
    x < |m.left| && x < |m.right| && x < |m.key| && x < |m.degree| && x < |m.children|
  }

  /** x is a self-looped singleton. */
  ghost predicate Single(m: Mem, x: nat) {
    x < |m.left| && x < |m.right| && m.left[x] == x && m.right[x] == x
  }

  /** The root handles of a forest, in order. */
  ghost function Ids(f: seq<Tree>): (ids: seq<nat>)
    ensures |ids| == |f| && forall i | 0 <= i < |f| :: ids[i] == f[i].id
  {
    seq(|f|, i requires 0 <= i < |f| => f[i].id)
  }

  /** Every node handle of a forest. */
  ghost function NodesF(f: seq<Tree>): set<nat>
    decreases f
  {
    if f == [] then {} else {f[0].id} + NodesF(f[0].kids) + NodesF(f[1..])
  }

  ghost function Nodes(t: Tree): set<nat> {
    {t.id} + NodesF(t.kids)
  }

  /** No handle occurs twice in the forest: every node sits in at most one ring. */
  ghost predicate Separate(f: seq<Tree>)
    decreases f
  {
    f == [] ||
    (&& f[0].id !in NodesF(f[0].kids)
     && Separate(f[0].kids)
     && Apart(Nodes(f[0]), NodesF(f[1..]))
     && Separate(f[1..]))
  }

  /** No element of `a` is in `b`. */
  ghost predicate Apart(a: set<nat>, b: set<nat>) {
    forall x | x in a :: x !in b
  }

  function KeyOf(key: seq<i32>, x: nat): i32 {
    if x < |key| then key[x] else 0
  }

  /** The multiset of the keys held in a forest. */
  ghost function KeysF(key: seq<i32>, f: seq<Tree>): multiset<i32>
    decreases f
  {
    if f == [] then multiset{}
    else multiset{KeyOf(key, f[0].id)} + KeysF(key, f[0].kids) + KeysF(key, f[1..])
  }

  /**
   * A tree is well formed in `m`: `degree` counts its children, its child ring lists
   * exactly its kids, every child's key is at least the parent's key, recursively.
   */
  ghost predicate WfTree(m: Mem, t: Tree)
    decreases t
  {
    && InRange(m, t.id)
    && m.degree[t.id] == |t.kids|
    && IsRing(m.left, m.right, m.children[t.id].root, Ids(t.kids))
    && (forall i | 0 <= i < |t.kids| :: InRange(m, t.kids[i].id) && m.key[t.id] <= m.key[t.kids[i].id])
    && (forall i | 0 <= i < |t.kids| :: WfTree(m, t.kids[i]))
  }

  ghost predicate WfForest(m: Mem, f: seq<Tree>) {
    forall t | t in f :: WfTree(m, t)
  }

  /** The first tree of the forest has the smallest root key. */
  ghost predicate RootIsMin(key: seq<i32>, f: seq<Tree>) {
    forall t | t in f :: f[0].id < |key| && t.id < |key| && key[f[0].id] <= key[t.id]
  }

  function Pow2(k: nat): nat {
    if k == 0 then 1 else 2 * Pow2(k - 1)
  }

  /** A tree of degree k holds exactly 2^k nodes, recursively. */
  ghost predicate Binomial(t: Tree)
    decreases t
  {
    && |Nodes(t)| == Pow2(|t.kids|)
    && forall i | 0 <= i < |t.kids| :: Binomial(t.kids[i])
  }

  ghost predicate BinomialF(f: seq<Tree>) {
    forall t | t in f :: Binomial(t)
  }

  /** No two different roots have the same degree. */
  ghost predicate DistinctDegrees(f: seq<Tree>) {
    forall a, b | a in f && b in f && |a.kids| == |b.kids| :: a == b
  }

  /**
   * `m'` is `m` after writes to the link fields of the nodes in `L` and to `degree` and
   * `children` of the nodes in `D`, possibly with nodes appended. Keys never change.
   */
  ghost predicate Agree(m: Mem, m': Mem, L: set<nat>, D: set<nat>) {
    && |m'.left| >= |m.left| && |m'.right| >= |m.right| && |m'.key| >= |m.key|
    && |m'.degree| >= |m.degree| && |m'.children| >= |m.children|
    && (forall x | 0 <= x < |m.left| && x !in L :: m'.left[x] == m.left[x])
    && (forall x | 0 <= x < |m.right| && x !in L :: m'.right[x] == m.right[x])
    && (forall x | 0 <= x < |m.key| :: m'.key[x] == m.key[x])
    && (forall x | 0 <= x < |m.degree| && x !in D :: m'.degree[x] == m.degree[x])
    && (forall x | 0 <= x < |m.children| && x !in D :: m'.children[x] == m.children[x])
  }

  lemma AgreeTrans(m1: Mem, m2: Mem, m3: Mem, L1: set<nat>, D1: set<nat>, L2: set<nat>, D2: set<nat>)
    requires Agree(m1, m2, L1, D1) && Agree(m2, m3, L2, D2)
    ensures Agree(m1, m3, L1 + L2, D1 + D2)
  {
  }

  /** Writes inside `L` and `D` are also writes inside any larger sets. */
  lemma AgreeWiden(m: Mem, m': Mem, L: set<nat>, D: set<nat>, L': set<nat>, D': set<nat>)
    requires Agree(m, m', L, D) && L <= L' && D <= D'
    ensures Agree(m, m', L', D')
  {
  }

  /** Two rounds of writes inside the same sets. */
  lemma AgreeStep(m1: Mem, m2: Mem, m3: Mem, L: set<nat>, D: set<nat>)
    requires Agree(m1, m2, L, D) && Agree(m2, m3, L, D)
    ensures Agree(m1, m3, L, D)
  {
    AgreeTrans(m1, m2, m3, L, D, L, D);
    assert L + L == L && D + D == D;
  }

  // ---------------------------------------------------------------------------------
  // Forest algebra

  lemma IdsConcat(a: seq<Tree>, b: seq<Tree>)
    ensures Ids(a + b) == Ids(a) + Ids(b)
  {
  }

  lemma IdsMergeOrder(a: seq<Tree>, b: seq<Tree>)
    ensures Ids(MergeOrder(a, b)) == MergeOrder(Ids(a), Ids(b))
  {
  }

  lemma IdsExtractOrder(a: seq<Tree>)
    ensures Ids(ExtractOrder(a)) == ExtractOrder(Ids(a))
  {
  }

  lemma IdsRotate(a: seq<Tree>, i: nat)
    requires i <= |a|
    ensures Ids(Rotate(a, i)) == Rotate(Ids(a), i)
  {
  }

  lemma {:induction false} NodesFConcat(a: seq<Tree>, b: seq<Tree>)
    ensures NodesF(a + b) == NodesF(a) + NodesF(b)
    decreases a
  {
    if a != [] {
      assert (a + b)[0] == a[0] && (a + b)[1..] == a[1..] + b;
      NodesFConcat(a[1..], b);
    } else {
      assert a + b == b;
    }
  }

  lemma {:induction false} KeysFConcat(key: seq<i32>, a: seq<Tree>, b: seq<Tree>)
    ensures KeysF(key, a + b) == KeysF(key, a) + KeysF(key, b)
    decreases a
  {
    if a != [] {
      assert (a + b)[0] == a[0] && (a + b)[1..] == a[1..] + b;
      KeysFConcat(key, a[1..], b);
    } else {
      assert a + b == b;
    }
  }

  lemma {:induction false} SeparateConcat(a: seq<Tree>, b: seq<Tree>)
    ensures Separate(a + b) <==> Separate(a) && Separate(b) && Apart(NodesF(a), NodesF(b))
    decreases a
  {
    if a != [] {
      assert (a + b)[0] == a[0] && (a + b)[1..] == a[1..] + b;
      SeparateConcat(a[1..], b);
      NodesFConcat(a[1..], b);
    } else {
      assert a + b == b;
    }
  }

  lemma NodesFSingle(t: Tree)
    ensures NodesF([t]) == Nodes(t)
  {
    assert [t][1..] == [];
  }

  lemma MultisetRemove<T>(g: seq<T>, j: nat)
    requires j < |g|
    ensures g == g[..j] + [g[j]] + g[j + 1..]
    ensures multiset(g) == multiset{g[j]} + multiset(g[..j] + g[j + 1..])
  {
    assert g == g[..j] + [g[j]] + g[j + 1..];
    calc {
      multiset(g);
      multiset(g[..j] + [g[j]] + g[j + 1..]);
      multiset(g[..j]) + multiset([g[j]]) + multiset(g[j + 1..]);
      multiset{g[j]} + multiset(g[..j] + g[j + 1..]);
    }
  }

  /** Where the first tree of `f` sits in a rearrangement `g` of `f`. */
  lemma PermSplit<T>(f: seq<T>, g: seq<T>) returns (j: nat)
    requires f != [] && multiset(f) == multiset(g)
    ensures j < |g| && g[j] == f[0]
    ensures g == g[..j] + [f[0]] + g[j + 1..]
    ensures multiset(f[1..]) == multiset(g[..j] + g[j + 1..])
  {
    assert f[0] in multiset(g);
    j :| 0 <= j < |g| && g[j] == f[0];
    MultisetRemove(g, j);
    MultisetRemove(f, 0);
    assert f[..0] + f[1..] == f[1..];
    MultisetCancel(f[0], multiset(f[1..]), multiset(g[..j] + g[j + 1..]));
  }

  lemma MultisetCancel<T>(x: T, a: multiset<T>, b: multiset<T>)
    requires multiset{x} + a == multiset{x} + b
    ensures a == b
  {
    forall y
      ensures a[y] == b[y]
    {
      assert (multiset{x} + a)[y] == (multiset{x} + b)[y];
    }
  }

  /** A forest's node set does not depend on the order of its trees. */
  lemma {:induction false} PermNodes(f: seq<Tree>, g: seq<Tree>)
    requires multiset(f) == multiset(g)
    ensures NodesF(f) == NodesF(g)
    decreases |f|
  {
    if f == [] {
      assert |g| == |multiset(g)| == 0;
    } else {
      var j := PermSplit(f, g);
      var x := f[0];
      PermNodes(f[1..], g[..j] + g[j + 1..]);
      NodesFConcat(g[..j], g[j + 1..]);
      NodesFConcat(g[..j] + [x], g[j + 1..]);
      NodesFConcat(g[..j], [x]);
      NodesFSingle(x);
    }
  }

  /** A forest's key multiset does not depend on the order of its trees. */
  lemma {:induction false} PermKeys(key: seq<i32>, f: seq<Tree>, g: seq<Tree>)
    requires multiset(f) == multiset(g)
    ensures KeysF(key, f) == KeysF(key, g)
    decreases |f|
  {
    if f == [] {
      assert |g| == |multiset(g)| == 0;
    } else {
      var j := PermSplit(f, g);
      var x := f[0];
      PermKeys(key, f[1..], g[..j] + g[j + 1..]);
      var a, b, c := KeysF(key, g[..j]), KeysF(key, [x]), KeysF(key, g[j + 1..]);
      KeysFConcat(key, g[..j], g[j + 1..]);
      KeysFConcat(key, g[..j] + [x], g[j + 1..]);
      KeysFConcat(key, g[..j], [x]);
      assert f == [x] + f[1..];
      KeysFConcat(key, [x], f[1..]);
      assert KeysF(key, g) == a + b + c && KeysF(key, f) == b + (a + c);
    }
  }

  /** Separation does not depend on the order of the trees. */
  lemma {:induction false} PermSeparate(f: seq<Tree>, g: seq<Tree>)
    requires multiset(f) == multiset(g)
    ensures Separate(f) <==> Separate(g)
    decreases |f|
  {
    if f == [] {
      assert |g| == |multiset(g)| == 0;
    } else {
      var j := PermSplit(f, g);
      var x := f[0];
      var g' := g[..j] + g[j + 1..];
      PermSeparate(f[1..], g');
      PermNodes(f[1..], g');
      SeparateConcat(g[..j], g[j + 1..]);
      SeparateConcat(g[..j] + [x], g[j + 1..]);
      SeparateConcat(g[..j], [x]);
      NodesFConcat(g[..j], g[j + 1..]);
      NodesFConcat(g[..j], [x]);
      NodesFSingle(x);
      assert [x][1..] == [];
    }
  }

  /**
   * A forest's node set, key multiset and separation do not depend on the order of its
   * trees.
   */
  lemma Perm(key: seq<i32>, f: seq<Tree>, g: seq<Tree>)
    requires multiset(f) == multiset(g)
    ensures NodesF(f) == NodesF(g)
    ensures KeysF(key, f) == KeysF(key, g)
    ensures Separate(f) <==> Separate(g)
  {
    PermNodes(f, g);
    PermKeys(key, f, g);
    PermSeparate(f, g);
  }

  lemma {:induction false} KidNodes(f: seq<Tree>, i: nat)
    requires i < |f|
    ensures Nodes(f[i]) <= NodesF(f)
    decreases i
  {
    if i > 0 {
      KidNodes(f[1..], i - 1);
    }
  }

  lemma {:induction false} NodesFMember(f: seq<Tree>, x: nat)
    requires x in NodesF(f)
    ensures exists i | 0 <= i < |f| :: x in Nodes(f[i])
    decreases f
  {
    if x !in Nodes(f[0]) {
      NodesFMember(f[1..], x);
      var i :| 0 <= i < |f| - 1 && x in Nodes(f[1..][i]);
      assert x in Nodes(f[i + 1]);
    }
  }

  lemma {:induction false} SeparateAt(f: seq<Tree>, i: nat)
    requires Separate(f) && i < |f|
    ensures f[i].id !in NodesF(f[i].kids) && Separate(f[i].kids)
    decreases i
  {
    if i > 0 {
      SeparateAt(f[1..], i - 1);
    }
  }

  lemma {:induction false} SeparatePair(f: seq<Tree>, i: nat, j: nat)
    requires Separate(f) && i < j < |f|
    ensures Apart(Nodes(f[i]), Nodes(f[j]))
    decreases i
  {
    if i == 0 {
      KidNodes(f[1..], j - 1);
    } else {
      SeparatePair(f[1..], i - 1, j - 1);
    }
  }

  /** In a separate forest, no root occurs inside any tree of the forest below its root. */
  lemma RootNotInner(f: seq<Tree>, i: nat, j: nat)
    requires Separate(f) && i < |f| && j < |f|
    ensures f[j].id !in NodesF(f[i].kids)
  {
    if i == j {
      SeparateAt(f, i);
    } else if i < j {
      SeparatePair(f, i, j);
    } else {
      SeparatePair(f, j, i);
    }
  }

  lemma {:induction false} KeysCount(key: seq<i32>, f: seq<Tree>)
    requires Separate(f)
    ensures |KeysF(key, f)| == |NodesF(f)|
    decreases f
  {
    if f != [] {
      KeysCount(key, f[0].kids);
      KeysCount(key, f[1..]);
    }
  }

  // ---------------------------------------------------------------------------------
  // Frames

  /** A tree stays well formed when none of its nodes' fields that it depends on change. */
  lemma {:induction false} TreeFrame(m: Mem, m': Mem, t: Tree, L: set<nat>, D: set<nat>)
    requires WfTree(m, t) && Agree(m, m', L, D)
    requires Apart(D, Nodes(t)) && Apart(L, NodesF(t.kids))
    ensures WfTree(m', t)
    decreases t
  {
    forall i | 0 <= i < |t.kids|
      ensures WfTree(m', t.kids[i])
    {
      KidNodes(t.kids, i);
      TreeFrame(m, m', t.kids[i], L, D);
    }
    var s := Ids(t.kids);
    forall i | 0 <= i < |s|
      ensures s[i] < |m'.left| && s[i] < |m'.right| && m'.left[s[i]] == m.left[s[i]] && m'.right[s[i]] == m.right[s[i]]
    {
      KidNodes(t.kids, i);
    }
    RingFrame(m.left, m.right, m'.left, m'.right, m.children[t.id].root, s);
  }

  /**
   * A separate forest stays well formed under writes to node fields outside it and to
   * link fields of its roots (the links of a root belong to the ring holding the root).
   */
  lemma ForestFrame(m: Mem, m': Mem, f: seq<Tree>, L: set<nat>, D: set<nat>)
    requires WfForest(m, f) && Separate(f) && Agree(m, m', L, D)
    requires Apart(D, NodesF(f))
    requires forall x | x in L && x in NodesF(f) :: x in Ids(f)
    ensures WfForest(m', f)
  {
    forall t | t in f
      ensures WfTree(m', t)
    {
      var i :| 0 <= i < |f| && f[i] == t;
      KidNodes(f, i);
      forall x | x in L && x in NodesF(t.kids)
        ensures false
      {
        var j :| 0 <= j < |f| && f[j].id == x;
        RootNotInner(f, i, j);
      }
      TreeFrame(m, m', t, L, D);
    }
  }

  /** A well-formed tree lies within the arena. */
  lemma {:induction false} TreeInRange(m: Mem, t: Tree, x: nat)
    requires WfTree(m, t) && x in Nodes(t)
    ensures InRange(m, x)
    decreases t
  {
    if x != t.id {
      NodesFMember(t.kids, x);
      var i :| 0 <= i < |t.kids| && x in Nodes(t.kids[i]);
      TreeInRange(m, t.kids[i], x);
    }
  }

  lemma ForestInRange(m: Mem, f: seq<Tree>, x: nat)
    requires WfForest(m, f) && x in NodesF(f)
    ensures InRange(m, x)
  {
    NodesFMember(f, x);
    var i :| 0 <= i < |f| && x in Nodes(f[i]);
    TreeInRange(m, f[i], x);
  }

  /** Keys are read at the forest's nodes only. */
  lemma {:induction false} KeysFrame(key: seq<i32>, key': seq<i32>, f: seq<Tree>)
    requires forall x | x in NodesF(f) :: x < |key| && x < |key'| && key'[x] == key[x]
    ensures KeysF(key', f) == KeysF(key, f)
    decreases f
  {
    if f != [] {
      var x := f[0].id;
      assert x in NodesF(f);
      assert KeyOf(key', x) == KeyOf(key, x);
      KeysFrame(key, key', f[0].kids);
      KeysFrame(key, key', f[1..]);
    }
  }

  // ---------------------------------------------------------------------------------
  // Heap order

  /**
   * Heap order: when every root key of a well-formed forest is at least `b`, so is
   * every key in the forest.
   */
  lemma {:induction false} KeysLowerBound(m: Mem, f: seq<Tree>, b: i32)
    requires WfForest(m, f)
    requires forall t | t in f :: t.id < |m.key| && b <= m.key[t.id]
    ensures forall k | k in KeysF(m.key, f) :: b <= k
    decreases f
  {
    if f != [] {
      var t := f[0];
      assert WfTree(m, t);
      forall c | c in t.kids
        ensures WfTree(m, c) && c.id < |m.key| && b <= m.key[c.id]
      {
        var i :| 0 <= i < |t.kids| && t.kids[i] == c;
      }
      KeysLowerBound(m, t.kids, b);
      KeysLowerBound(m, f[1..], b);
    }
  }

  /** The root key of a forest whose first root is the minimum root is the minimum key. */
  lemma RootKeyIsMin(m: Mem, f: seq<Tree>)
    requires f != [] && WfForest(m, f) && RootIsMin(m.key, f)
    ensures f[0].id < |m.key|
    ensures m.key[f[0].id] in KeysF(m.key, f)
    ensures forall k | k in KeysF(m.key, f) :: m.key[f[0].id] <= k
  {
    assert f[0] in f;
    KeysLowerBound(m, f, m.key[f[0].id]);
  }

  // ---------------------------------------------------------------------------------
  // Degrees

  lemma {:induction false} Pow2Grows(k: nat)
    requires k >= 10
    ensures Pow2(k) >= 1024
  {
    if k > 10 {
      Pow2Grows(k - 1);
    }
  }

  /** A binomial tree of fewer than 1024 nodes has degree at most 9. */
  lemma DegreeBound(t: Tree)
    requires Binomial(t) && |Nodes(t)| < 1024
    ensures |t.kids| < 10
  {
    if |t.kids| >= 10 {
      Pow2Grows(|t.kids|);
    }
  }

  /** A subset is no larger than its superset. */
  lemma SubsetCard(a: set<nat>, b: set<nat>)
    requires a <= b
    ensures |a| <= |b|
  {
    assert b == a + (b - a);
  }

  /** Every tree of a binomial pool of fewer than 1024 nodes has degree at most 9. */
  lemma PoolDegreeBound(m: Mem, f: seq<Tree>, i: nat)
    requires Pool(m, f) && i < |f| && |NodesF(f)| < 1024
    ensures |f[i].kids| < 10
  {
    assert f[i] in f;
    KidNodes(f, i);
    SubsetCard(Nodes(f[i]), NodesF(f));
    DegreeBound(f[i]);
  }

  // ---------------------------------------------------------------------------------
  // Linking

  /** The tree `link` builds: `tl` joins the kids of `tu`, right after the first kid. */
  ghost function Linked(tu: Tree, tl: Tree): Tree {
    Tree(tu.id, MergeOrder(tu.kids, [tl]))
  }

  /** The kids of a linked tree are the kids of `tu` and `tl`, and nothing else. */
  lemma LinkKids(key: seq<i32>, tu: Tree, tl: Tree)
    ensures multiset(Linked(tu, tl).kids) == multiset(tu.kids + [tl])
    ensures |Linked(tu, tl).kids| == |tu.kids| + 1
    ensures NodesF(Linked(tu, tl).kids) == NodesF(tu.kids) + Nodes(tl)
    ensures Nodes(Linked(tu, tl)) == Nodes(tu) + Nodes(tl)
    ensures KeysF(key, Linked(tu, tl).kids) == KeysF(key, tu.kids) + KeysF(key, [tl])
    ensures Separate(Linked(tu, tl).kids) <==> Separate(tu.kids) && Separate([tl]) && Apart(NodesF(tu.kids), Nodes(tl))
  {
    MergeOrderMultiset(tu.kids, [tl]);
    Perm(key, Linked(tu, tl).kids, tu.kids + [tl]);
    NodesFConcat(tu.kids, [tl]);
    KeysFConcat(key, tu.kids, [tl]);
    SeparateConcat(tu.kids, [tl]);
    NodesFSingle(tl);
  }

  /** Linking two disjoint trees yields a separate tree. */
  lemma LinkSeparate(tu: Tree, tl: Tree)
    requires Separate([tu, tl])
    ensures Separate([Linked(tu, tl)])
  {
    var t := Linked(tu, tl);
    LinkKids([], tu, tl);
    assert [tu, tl][1..] == [tl] && [t][1..] == [];
    NodesFSingle(tl);
    assert Separate([tl]) && Apart(Nodes(tu), Nodes(tl));
  }

  /** The linked tree holds the keys of both trees. */
  lemma LinkKeys(key: seq<i32>, tu: Tree, tl: Tree)
    ensures KeysF(key, [Linked(tu, tl)]) == KeysF(key, [tu, tl])
  {
    var t := Linked(tu, tl);
    LinkKids(key, tu, tl);
    assert [tu, tl][1..] == [tl] && [t][1..] == [];
    assert KeysF(key, [tu, tl]) == multiset{KeyOf(key, tu.id)} + KeysF(key, tu.kids) + KeysF(key, [tl]);
  }

  /** Every kid of a linked tree is `tl` or a kid of `tu`. */
  lemma LinkedKid(tu: Tree, tl: Tree, i: nat)
    requires i < |Linked(tu, tl).kids|
    ensures Linked(tu, tl).kids[i] == tl || exists j | 0 <= j < |tu.kids| :: tu.kids[j] == Linked(tu, tl).kids[i]
  {
    var c := Linked(tu, tl).kids[i];
    MergeOrderMultiset(tu.kids, [tl]);
    assert c in multiset(tu.kids + [tl]);
    assert c in tu.kids + [tl];
  }

  /** Linking binomial trees of equal degree yields a binomial tree one degree higher. */
  lemma LinkBinomial(tu: Tree, tl: Tree)
    requires Separate([tu, tl])
    requires Binomial(tu) && Binomial(tl) && |tu.kids| == |tl.kids|
    ensures Binomial(Linked(tu, tl))
  {
    var t := Linked(tu, tl);
    assert |Nodes(t)| == Pow2(|t.kids|) by {
      LinkKids([], tu, tl);
      assert [tu, tl][1..] == [tl];
      NodesFSingle(tl);
      assert Apart(Nodes(tu), Nodes(tl));
    }
    forall i | 0 <= i < |t.kids|
      ensures Binomial(t.kids[i])
    {
      LinkedKid(tu, tl, i);
    }
  }

  /** The writes `link` makes to the link fields and to the upper node. */
  ghost predicate LinkWrites(m: Mem, m': Mem, tu: Tree, tl: Tree) {
    Agree(m, m', Members(Ids(tu.kids)) + {tl.id}, {tu.id})
  }

  /** An old kid of the upper tree survives the writes of `link`. */
  lemma LinkKeepsUpperKid(m: Mem, m': Mem, tu: Tree, tl: Tree, j: nat)
    requires WfTree(m, tu) && Separate([tu, tl]) && LinkWrites(m, m', tu, tl)
    requires j < |tu.kids|
    ensures WfTree(m', tu.kids[j])
  {
    var c := tu.kids[j];
    var L, D := Members(Ids(tu.kids)) + {tl.id}, {tu.id};
    assert [tu, tl][1..] == [tl];
    NodesFSingle(tl);
    assert Apart(Nodes(tu), Nodes(tl));
    KidNodes(tu.kids, j);
    SeparateAt([tu, tl], 0);
    forall x | x in L && x in NodesF(c.kids)
      ensures false
    {
      if x != tl.id {
        var k :| 0 <= k < |tu.kids| && tu.kids[k].id == x;
        RootNotInner(tu.kids, j, k);
      }
    }
    TreeFrame(m, m', c, L, D);
  }

  /** The lower tree survives the writes of `link`. */
  lemma LinkKeepsLower(m: Mem, m': Mem, tu: Tree, tl: Tree)
    requires WfTree(m, tl) && Separate([tu, tl]) && LinkWrites(m, m', tu, tl)
    ensures WfTree(m', tl)
  {
    var L, D := Members(Ids(tu.kids)) + {tl.id}, {tu.id};
    assert [tu, tl][1..] == [tl];
    NodesFSingle(tl);
    assert Apart(Nodes(tu), Nodes(tl));
    SeparateAt([tu, tl], 1);
    forall x | x in L && x in NodesF(tl.kids)
      ensures false
    {
      if x != tl.id {
        var j :| 0 <= j < |tu.kids| && tu.kids[j].id == x;
        KidNodes(tu.kids, j);
      }
    }
    TreeFrame(m, m', tl, L, D);
  }

  /**
   * After `link`'s writes (the link fields of `tu`'s kids and of `tl`, `degree` and
   * `children` of `tu`), the linked tree is well formed when the lower key went below.
   */
  lemma LinkWf(m: Mem, m': Mem, tu: Tree, tl: Tree)
    requires WfTree(m, tu) && WfTree(m, tl) && Separate([tu, tl])
    requires m.key[tu.id] <= m.key[tl.id]
    requires LinkWrites(m, m', tu, tl)
    requires tu.id < |m'.degree| && m'.degree[tu.id] == |tu.kids| + 1
    requires tu.id < |m'.children|
    requires IsRing(m'.left, m'.right, m'.children[tu.id].root, MergeOrder(Ids(tu.kids), [tl.id]))
    ensures WfTree(m', Linked(tu, tl))
  {
    var t := Linked(tu, tl);
    assert InRange(m', t.id) by {
      assert InRange(m, tu.id);
    }
    assert |t.kids| == |tu.kids| + 1 by {
      LinkKids([], tu, tl);
    }
    assert IsRing(m'.left, m'.right, m'.children[t.id].root, Ids(t.kids)) by {
      IdsMergeOrder(tu.kids, [tl]);
      assert Ids([tl]) == [tl.id];
    }
    forall i | 0 <= i < |t.kids|
      ensures WfTree(m', t.kids[i]) && InRange(m', t.kids[i].id) && m'.key[t.id] <= m'.key[t.kids[i].id]
    {
      LinkedKid(tu, tl, i);
      var c := t.kids[i];
      if c == tl {
        LinkKeepsLower(m, m', tu, tl);
      } else {
        var j :| 0 <= j < |tu.kids| && tu.kids[j] == c;
        LinkKeepsUpperKid(m, m', tu, tl, j);
      }
      TreeInRange(m', c, c.id);
    }
  }

  // ---------------------------------------------------------------------------------
  // Pools: well-formed, separate forests of binomial trees

  ghost predicate Pool(m: Mem, f: seq<Tree>) {
    WfForest(m, f) && Separate(f) && BinomialF(f)
  }

  /**
   * The heap's shape: the ring at `root` lists the roots of the forest in ring order, and
   * the forest is a pool.
   */
  ghost predicate Shape(m: Mem, root: Option<nat>, f: seq<Tree>) {
    IsRing(m.left, m.right, root, Ids(f)) && Pool(m, f)
  }

  lemma PoolSingle(m: Mem, t: Tree)
    requires WfTree(m, t) && Separate([t]) && Binomial(t)
    ensures Pool(m, [t])
  {
  }

  lemma PoolPerm(m: Mem, f: seq<Tree>, g: seq<Tree>)
    requires multiset(f) == multiset(g)
    ensures Pool(m, f) <==> Pool(m, g)
    ensures NodesF(f) == NodesF(g) && KeysF(m.key, f) == KeysF(m.key, g)
  {
    Perm(m.key, f, g);
    forall t
      ensures t in f <==> t in g
    {
      assert t in f <==> t in multiset(f);
      assert t in g <==> t in multiset(g);
    }
  }

  /** Each tree of a pool is a pool on its own. */
  lemma PoolMember(m: Mem, f: seq<Tree>, j: nat)
    requires Pool(m, f) && j < |f|
    ensures Pool(m, [f[j]]) && Nodes(f[j]) <= NodesF(f)
  {
    assert f[j] in f;
    KidNodes(f, j);
    SeparateAt(f, j);
    NodesFSingle(f[j]);
  }

  lemma PoolConcat(m: Mem, a: seq<Tree>, b: seq<Tree>)
    ensures Pool(m, a + b) <==> Pool(m, a) && Pool(m, b) && Apart(NodesF(a), NodesF(b))
    ensures NodesF(a + b) == NodesF(a) + NodesF(b)
  {
    SeparateConcat(a, b);
    NodesFConcat(a, b);
  }

  lemma IdsInNodes(f: seq<Tree>)
    ensures Members(Ids(f)) <= NodesF(f)
  {
    forall x | x in Members(Ids(f))
      ensures x in NodesF(f)
    {
      var i :| 0 <= i < |f| && f[i].id == x;
      KidNodes(f, i);
    }
  }

  /** A pool stays a pool under writes outside it and to the link fields of its roots. */
  lemma PoolFrame(m: Mem, m': Mem, f: seq<Tree>, L: set<nat>, D: set<nat>)
    requires Pool(m, f) && Agree(m, m', L, D)
    requires Apart(D, NodesF(f))
    requires forall x | x in L && x in NodesF(f) :: x in Ids(f)
    ensures Pool(m', f)
  {
    ForestFrame(m, m', f, L, D);
  }

  /** A ring none of whose members is written stays a ring. */
  lemma RingAgree(m: Mem, m': Mem, root: Option<nat>, s: seq<nat>, L: set<nat>, D: set<nat>)
    requires IsRing(m.left, m.right, root, s) && Agree(m, m', L, D)
    requires Apart(Members(s), L)
    ensures IsRing(m'.left, m'.right, root, s)
  {
    forall i | 0 <= i < |s|
      ensures s[i] < |m'.left| && s[i] < |m'.right| && m'.left[s[i]] == m.left[s[i]] && m'.right[s[i]] == m.right[s[i]]
    {
      assert s[i] in Members(s);
    }
    RingFrame(m.left, m.right, m'.left, m'.right, root, s);
  }

  /** A write of link fields only, as the list operations report it. */
  lemma KeptAgree(m: Mem, m': Mem, L: set<nat>)
    requires m'.key == m.key && m'.degree == m.degree && m'.children == m.children
    requires LinksKept(m.left, m.right, m'.left, m'.right, L)
    ensures Agree(m, m', L, {})
  {
  }

  /** A write of link fields and of `degree` and `children` of one node. */
  lemma KeptAgreeAt(m: Mem, m': Mem, L: set<nat>, x: nat, d: nat, c: IntrusiveList)
    requires x < |m.degree| && x < |m.children|
    requires m'.key == m.key && m'.degree == m.degree[x := d] && m'.children == m.children[x := c]
    requires LinksKept(m.left, m.right, m'.left, m'.right, L)
    ensures Agree(m, m', L, {x})
  {
  }

  /** Adding a tree to the root ring. */
  lemma InsertTree(m: Mem, m': Mem, f: seq<Tree>, t: Tree)
    requires Pool(m, f) && Pool(m, [t]) && Apart(Nodes(t), NodesF(f))
    requires Agree(m, m', Members(Ids(f)) + {t.id}, {})
    ensures Pool(m', MergeOrder(f, [t]))
    ensures multiset(MergeOrder(f, [t])) == multiset(f) + multiset{t}
    ensures NodesF(MergeOrder(f, [t])) == NodesF(f) + Nodes(t)
    ensures KeysF(m.key, MergeOrder(f, [t])) == KeysF(m.key, f) + KeysF(m.key, [t])
  {
    NodesFSingle(t);
    PoolConcat(m, f, [t]);
    IdsConcat(f, [t]);
    assert Ids([t]) == [t.id];
    PoolFrame(m, m', f + [t], Members(Ids(f)) + {t.id}, {});
    MergeOrderMultiset(f, [t]);
    PoolPerm(m', f + [t], MergeOrder(f, [t]));
    PoolPerm(m, f + [t], MergeOrder(f, [t]));
    KeysFConcat(m.key, f, [t]);
  }

  /** A pool holding two further trees, taken apart. */
  lemma PoolPair(m: Mem, r: seq<Tree>, tu: Tree, tl: Tree)
    requires Pool(m, r + [tu, tl])
    ensures Pool(m, r) && Separate([tu, tl])
    ensures WfTree(m, tu) && WfTree(m, tl) && Binomial(tu) && Binomial(tl)
    ensures Apart(NodesF(r), Nodes(tu) + Nodes(tl))
    ensures NodesF([tu, tl]) == Nodes(tu) + Nodes(tl)
  {
    PoolConcat(m, r, [tu, tl]);
    assert tu in [tu, tl] && tl in [tu, tl];
    assert [tu, tl][1..] == [tl];
    NodesFSingle(tl);
  }

  /** Linking two trees of a pool leaves the same nodes and keys. */
  lemma LinkStepSets(key: seq<i32>, r: seq<Tree>, tu: Tree, tl: Tree)
    ensures NodesF(r + [Linked(tu, tl)]) == NodesF(r + [tu, tl])
    ensures KeysF(key, r + [Linked(tu, tl)]) == KeysF(key, r + [tu, tl])
  {
    var t := Linked(tu, tl);
    LinkKids(key, tu, tl);
    LinkKeys(key, tu, tl);
    NodesFSingle(t);
    assert [tu, tl][1..] == [tl];
    NodesFSingle(tl);
    NodesFConcat(r, [t]);
    NodesFConcat(r, [tu, tl]);
    KeysFConcat(key, r, [t]);
    KeysFConcat(key, r, [tu, tl]);
  }

  /** Linking two trees of a pool, as consolidation does. */
  lemma LinkStep(m: Mem, m': Mem, r: seq<Tree>, tu: Tree, tl: Tree)
    requires Pool(m, r + [tu, tl])
    requires tu.id < |m.key| && tl.id < |m.key| && m.key[tu.id] <= m.key[tl.id]
    requires |tu.kids| == |tl.kids|
    requires LinkWrites(m, m', tu, tl)
    requires tu.id < |m'.degree| && m'.degree[tu.id] == |tu.kids| + 1 && tu.id < |m'.children|
    requires IsRing(m'.left, m'.right, m'.children[tu.id].root, MergeOrder(Ids(tu.kids), [tl.id]))
    ensures Pool(m', r + [Linked(tu, tl)])
    ensures NodesF(r + [Linked(tu, tl)]) == NodesF(r + [tu, tl])
    ensures KeysF(m.key, r + [Linked(tu, tl)]) == KeysF(m.key, r + [tu, tl])
    ensures Apart(Members(Ids(tu.kids)) + {tl.id, tu.id}, NodesF(r))
  {
    var t := Linked(tu, tl);
    var L := Members(Ids(tu.kids)) + {tl.id};
    PoolPair(m, r, tu, tl);
    assert Apart(L + {tu.id}, NodesF(r)) by {
      IdsInNodes(tu.kids);
    }
    assert Pool(m', r) by {
      PoolFrame(m, m', r, L, {tu.id});
    }
    LinkWf(m, m', tu, tl);
    LinkSeparate(tu, tl);
    LinkBinomial(tu, tl);
    PoolSingle(m', t);
    assert Pool(m', r + [t]) by {
      LinkKids(m.key, tu, tl);
      NodesFSingle(t);
      PoolConcat(m', r, [t]);
    }
    LinkStepSets(m.key, r, tu, tl);
  }

  /** The trees held in the slots of consolidation's table, in slot order. */
  ghost function SlotTrees(slots: seq<Option<Tree>>): seq<Tree>
    decreases slots
  {
    if slots == [] then []
    else (if slots[0].Some? then [slots[0].value] else []) + SlotTrees(slots[1..])
  }

  lemma {:induction false} SlotTreesHas(slots: seq<Option<Tree>>, i: nat)
    requires i < |slots| && slots[i].Some?
    ensures slots[i].value in SlotTrees(slots)
    decreases i
  {
    if i > 0 {
      SlotTreesHas(slots[1..], i - 1);
    }
  }

  /** A table of empty slots holds no trees. */
  lemma {:induction false} SlotTreesNone(slots: seq<Option<Tree>>)
    requires forall i | 0 <= i < |slots| :: slots[i].None?
    ensures SlotTrees(slots) == []
    decreases slots
  {
    if slots != [] {
      SlotTreesNone(slots[1..]);
    }
  }

  /** Filling an empty slot adds its tree to the table's trees. */
  lemma {:induction false} SlotTreesFill(slots: seq<Option<Tree>>, i: nat, t: Tree)
    requires i < |slots| && slots[i].None?
    ensures multiset(SlotTrees(slots[i := Some(t)])) == multiset(SlotTrees(slots)) + multiset{t}
    decreases i
  {
    if i == 0 {
      assert slots[i := Some(t)][1..] == slots[1..];
    } else {
      assert slots[i := Some(t)][1..] == slots[1..][i - 1 := Some(t)];
      SlotTreesFill(slots[1..], i - 1, t);
    }
  }

  /**
   * The table of consolidation: slot i holds a self-looped root of degree i, and the
   * array `u` holds the handle of each slot's tree.
   */
  ghost predicate Table(m: Mem, u: seq<Option<nat>>, slots: seq<Option<Tree>>) {
    && |u| == |slots|
    && forall i | 0 <= i < |slots| ::
         && (u[i].None? <==> slots[i].None?)
         && (slots[i].Some? ==> u[i] == Some(slots[i].value.id) && |slots[i].value.kids| == i && Single(m, slots[i].value.id))
  }

  lemma TableFrame(m: Mem, m': Mem, u: seq<Option<nat>>, slots: seq<Option<Tree>>, L: set<nat>, D: set<nat>)
    requires Table(m, u, slots) && Agree(m, m', L, D)
    requires Apart(L, NodesF(SlotTrees(slots)))
    ensures Table(m', u, slots)
  {
    forall i | 0 <= i < |slots| && slots[i].Some?
      ensures Single(m', slots[i].value.id)
    {
      SlotTreesHas(slots, i);
      var j :| 0 <= j < |SlotTrees(slots)| && SlotTrees(slots)[j] == slots[i].value;
      KidNodes(SlotTrees(slots), j);
    }
  }

  // ---------------------------------------------------------------------------------
  // Traversal

  /**
   * The nodes of a forest in the order `Drop` takes them back: a tree's root, then the
   * trees of its child ring, then the following trees of the ring.
   */
  ghost function Preorder(f: seq<Tree>): seq<nat>
    decreases f
  {
    if f == [] then [] else [f[0].id] + Preorder(f[0].kids) + Preorder(f[1..])
  }

  lemma {:induction false} PreorderConcat(a: seq<Tree>, b: seq<Tree>)
    ensures Preorder(a + b) == Preorder(a) + Preorder(b)
    decreases a
  {
    if a != [] {
      assert (a + b)[0] == a[0] && (a + b)[1..] == a[1..] + b;
      PreorderConcat(a[1..], b);
    } else {
      assert a + b == b;
    }
  }

  lemma MembersConcat(a: seq<nat>, b: seq<nat>)
    ensures Members(a + b) == Members(a) + Members(b)
  {
  }

  lemma DistinctConcat(a: seq<nat>, b: seq<nat>)
    requires Distinct(a) && Distinct(b) && Apart(Members(a), Members(b))
    ensures Distinct(a + b)
  {
    forall i, j | 0 <= i < j < |a + b|
      ensures (a + b)[i] != (a + b)[j]
    {
      if i < |a| && |a| <= j {
        assert (a + b)[i] in Members(a) && (a + b)[j] in Members(b);
      }
    }
  }

  /** In a forest where no handle occurs twice, the traversal lists every node exactly once. */
  lemma {:induction false} PreorderNodes(f: seq<Tree>)
    requires Separate(f)
    ensures Members(Preorder(f)) == NodesF(f) && Distinct(Preorder(f))
    decreases f
  {
    if f != [] {
      var k, r := Preorder(f[0].kids), Preorder(f[1..]);
      PreorderNodes(f[0].kids);
      PreorderNodes(f[1..]);
      MembersConcat([f[0].id], k);
      MembersConcat([f[0].id] + k, r);
      assert Members([f[0].id]) == {f[0].id};
      DistinctConcat([f[0].id], k);
      DistinctConcat([f[0].id] + k, r);
    }
  }

  /** The traversal is as long as the forest holds keys. */
  lemma {:induction false} PreorderCount(key: seq<i32>, f: seq<Tree>)
    ensures |Preorder(f)| == |KeysF(key, f)|
    decreases f
  {
    if f != [] {
      PreorderCount(key, f[0].kids);
      PreorderCount(key, f[1..]);
    }
  }
}
