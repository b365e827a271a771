# fibheap in Dafny

A model of the `fibheap` crate: a Fibonacci heap of `i32` keys built on an intrusive
circular doubly-linked list.

**Ring model.**
- Every element carries its own `left` and `right` links, and a list value holds only an
  optional root element.
- The elements live in an arena: a handle is a `nat` index.
  - `Rings.Links` holds the two link fields of every element as sequences.
  - `FibHeaps.Store` holds the remaining `Node` fields: `key`, `degree`, `mark` and
    `children`.
- A ring is described by a ghost sequence that lists its members in `right` order,
  starting at the root.
- `Rings.IsRing` is the ring-validity invariant:
  - the members are distinct;
  - for every member, `right` leads to the next member and `left` to the previous one,
    cyclically;
  - the empty ring has no root.

**List modules.**
- `IntrusiveLists` is `src/intrusive_list.rs`.
- `EmbedLists` is its older variant, `src/embedlist.rs`.
- The `&mut self` operations are methods that rewrite the link fields and return the new
  list value.

**Heap model.**
- `FibHeaps.FibHeap` is the heap of `src/lib.rs`. It is a class with:
  - the root ring `trees`;
  - the counter `len`;
  - a ghost `forest`: the trees hanging off the root ring, in ring order.
- `Forests` gives the forest its meaning:
  - heap order;
  - `degree` equal to the child count, and child rings in child order;
  - no node shared between trees;
  - the binomial size law: a tree of degree k has 2^k nodes;
  - the key multiset.
- Every heap operation is stated against this abstraction.
- `HeapSteps` holds the lemmas that carry one step of each loop.
- `HeapUse` is how the crate's tests drive the heap: insert keys, then pop until `None`.

**Module wiring.**
- `src/lib.rs` declares `mod embedlist` (src/lib.rs:4-6), but it uses names that only
  `src/intrusive_list.rs` defines:
  - `IntrusiveList`, `set_root`, `merge`, `initialize_elem`, `IntrusiveListElem`.
- The heap is therefore modelled over the `IntrusiveLists` API.

## Model

| member | source | states |
|---|---|---|
| `IntrusiveLists.NewIsEmptyRing` | src/intrusive_list.rs:15-17 | `new` is the empty ring: no root, no members |
| `IntrusiveLists.RootOfRing` | src/intrusive_list.rs:28-30 | `root` is the first member of the ring in `right` order, and None exactly when the ring is empty |
| `IntrusiveLists.SingletonIsRing` | src/intrusive_list.rs:19-21 | `singleton` over a self-looped element is the one-member ring rooted at it |
| `IntrusiveLists.InitializeElem` | src/intrusive_list.rs:89-92 | writes `left` and `right` of `elem` (only those) to `elem` itself, making it a valid singleton ring |
| `IntrusiveLists.Merge` | src/intrusive_list.rs:66-81 | for disjoint valid rings the result is one valid ring: self's root, then other's ring from its root, then the rest of self's ring. The root is self's root if any, else other's. Only links of members change; with one side empty no link is written. The four writes are given exactly |
| `IntrusiveLists.Insert` | src/intrusive_list.rs:23-26 | a self-looped node lands right after the root, which stays the root; into an empty list the node becomes the root. The ring stays valid and only members' links change |
| `IntrusiveLists.ExtractRoot` | src/intrusive_list.rs:32-45 | returns the old root (None when empty). The rest is a valid ring rooted at the former left neighbour (empty after a singleton). The extracted element is self-looped; only the two neighbours' links and the root's change |
| `IntrusiveLists.DropCustom` | src/intrusive_list.rs:47-64 | the callback sequence is exactly the ring order from the root, each member once (nothing for an empty list); the list is empty afterwards |
| `Rings.RingWalk` | src/intrusive_list.rs:53-61 | the `drop_custom` walk: k steps along `right` from the root reach the k-th member in ring order, and after as many steps as there are members it is back at the root, where the loop stops |
| `IntrusiveLists.SetRootRotates` | src/intrusive_list.rs:83-86 | on a non-empty ring, moving the root to another member keeps members and links and only rotates the ring order |
| `EmbedLists.NewIsEmptyRing` | src/embedlist.rs:19-21 | `new` is the empty ring: no root, no members |
| `EmbedLists.RootOfRing` | src/embedlist.rs:45-47 | `root` is the first member of the ring in `right` order, and None exactly when the ring is empty |
| `EmbedLists.EmbedlistInitalize` | src/embedlist.rs:7-11 | makes `elem` a self-looped singleton ring, writing only its two links |
| `EmbedLists.InsertAnywhere` | src/embedlist.rs:30-43 | as written: into an empty list the value becomes the root with no link written. Otherwise the four writes use `root.right` as `rightmost`, and the ring stays valid when it had at most two members |
| `EmbedLists.InsertAnywhereBreaksRing` | src/embedlist.rs:38-42 | with three or more members, the as-written writes leave the former last member pointing at the root while the root's `left` is the new value, so no valid ring through the root contains that member |
| `EmbedLists.InsertAnywhereFixed` | src/embedlist.rs:30-43 | reading `root.left` instead always yields a valid ring with the value last in ring order and the root unchanged |
| `EmbedLists.Insert` | src/embedlist.rs:23-28 | as written, on top of `insert_anywhere`: into an empty list the node is the root whatever `as_root` says. On a ring of at most two members, with `as_root` the node becomes the root, first in ring order, and without it the root is unchanged and the node is last. Without `as_root` on three or more members, the former last member is in no valid ring through the root |
| `EmbedLists.InsertFixed` | src/embedlist.rs:23-28 | `insert` over the corrected `insert_anywhere`: on every valid ring, with `as_root` the node becomes the root, first in ring order; without it the root is unchanged and the node is last |
| `EmbedLists.ExtractRoot` | src/embedlist.rs:49-62 | None on an empty list; a singleton empties the list. Otherwise the neighbours are spliced, the former left neighbour becomes the root, and the extracted element is reset to a self-loop |
| `EmbedLists.DropCustom` | src/embedlist.rs:64-81 | visits every member once in `right` order from the root, then the list is empty |
| `Forests.LinkKids` | src/lib.rs:74-79 | linking adds `lower` as one more kid of `upper`: kid count +1, node set and key multiset are the union |
| `Forests.LinkBinomial` | src/lib.rs:58-63 | linking two binomial trees of equal degree gives a binomial tree of the next degree |
| `Forests.LinkWf` | src/lib.rs:74-79 | when `upper`'s key is at most `lower`'s, the link writes give a heap-ordered tree whose degree equals its child count |
| `Forests.DegreeBound` | src/lib.rs:55-58 | a binomial tree with fewer than 1024 nodes has degree below 10, so `uniques[degree]` stays inside the 10-slot table |
| `Forests.RootKeyIsMin` | src/lib.rs:44-51 | in a heap-ordered forest whose first root has the smallest root key, that key is the minimum of the whole key multiset |
| `Forests.PreorderNodes` | src/lib.rs:104-111 | the `Drop` traversal visits every node of the forest, each exactly once |
| `Forests.PreorderCount` | src/lib.rs:104-111 | the `Drop` traversal visits as many nodes as the heap holds keys |
| `FibHeaps.Store.NewNode` | src/lib.rs:114-127 | `Node::new`: a fresh handle with the key, degree 0, unmarked, no children, linked to itself; existing nodes are untouched |
| `FibHeaps.FibHeap.constructor` | src/lib.rs:25-27 | a new heap is valid, empty and has `len` 0 |
| `FibHeaps.FibHeap.LenIsNodeCount` | src/lib.rs:9-12 | `len` is the number of nodes in the heap; it is 0 exactly when the root ring is empty |
| `FibHeaps.FibHeap.InsertNode` | src/lib.rs:35-42 | adds a tree to the root ring, keeping the heap shape and the root at the minimum. The new node becomes the root iff the ring was empty or its key is strictly smaller; on a tie the old root stays |
| `FibHeaps.FibHeap.Insert` | src/lib.rs:29-33 | keeps the heap valid, adds the key to the key multiset and raises `len` by exactly 1. The store grows by one node, which is the only node added to the heap; no link, key, degree or child ring outside the heap's nodes changes |
| `FibHeaps.FibHeap.NodesInStore` | src/lib.rs:9-12 | every node of a valid heap is an allocated handle of its store |
| `FibHeaps.FibHeap.KeptBy` | src/lib.rs:9-12 | a heap stays valid, with the same keys, across any writes to the shared store that touch none of its nodes |
| `FibHeaps.FibHeap.PopMin` | src/lib.rs:44-52 | on an empty heap: None, `len` and keys unchanged. Otherwise it returns the minimum key, removes exactly one occurrence and lowers `len` by 1; the heap stays valid with roots of distinct degrees. Its node set loses exactly the old root, and no field of a node outside the old node set changes |
| `FibHeaps.FibHeap.TakeMin` | src/lib.rs:45 | extracts the root of the root ring: None iff the heap is empty. Otherwise the returned node holds the smallest key of the heap, and its kids are still to be promoted: the rest of the forest plus those kids hold every other node. Only the heap's nodes are written |
| `FibHeaps.FibHeap.PromoteKids` | src/lib.rs:46-48 | every kid of the extracted root moves onto the root ring: the forest's node set is the old one plus the kids' nodes, the key multiset is unchanged and the root's child ring is empty. Only those nodes' links and the root's child ring are written |
| `FibHeaps.FibHeap.TakeKid` | src/lib.rs:46 | `root.children.extract_root()`: None iff no kids remain, and then the root's child ring is empty; otherwise the first kid, with every node still accounted for |
| `FibHeaps.FibHeap.PutKid` | src/lib.rs:47 | `self.trees.insert(kid)`: the kid's tree joins the root ring after the root, so the forest's node set gains exactly that tree's nodes |
| `FibHeaps.FibHeap.Consolidate` | src/lib.rs:54-72 | with fewer than 1024 nodes: afterwards all roots have distinct degrees, the ring's root holds the minimum root key, and the node set and key multiset are unchanged. No node outside the heap is written |
| `FibHeaps.FibHeap.Gather` | src/lib.rs:56-66 | the outer loop empties the root ring into the degree table, keeping every node and key |
| `FibHeaps.FibHeap.TakeRoot` | src/lib.rs:56-57 | takes one root off the ring (None iff the ring is empty); its degree is its kid count, below 10 |
| `FibHeaps.FibHeap.Settle` | src/lib.rs:58-65 | the inner loop links equal-degree trees until the slot is free, then stores the tree in the slot of its degree |
| `FibHeaps.FibHeap.LinkPair` | src/lib.rs:58-63 | takes the tree out of slot `d` and links the pair. The smaller key becomes the parent, and on a tie the node just extracted. The result has degree `d + 1` |
| `FibHeaps.FibHeap.LinkOrdered` | src/lib.rs:62-63 | links an ordered pair taken from the table: `upper` becomes the parent of degree `d + 1`, nodes and keys kept |
| `FibHeaps.FibHeap.Link` | src/lib.rs:74-79 | clears `lower.mark`, raises `upper.degree` by 1 and puts `lower` into `upper`'s child ring. Keys are untouched, and with `upper`'s key at most `lower`'s the result is a heap-ordered tree |
| `FibHeaps.FibHeap.PutBack` | src/lib.rs:67-71 | reinserts the table's trees in slot order; the result is a valid root ring with the minimum at the root, distinct degrees, same nodes and keys |
| `FibHeaps.FibHeap.Reinsert` | src/lib.rs:68-70 | takes one slot's tree and inserts it with `insert_node`, leaving the slot empty |
| `FibHeaps.NewMin` | src/lib.rs:82-87 | `new_min` is Some iff either root is. It is one of the two roots, with a key at most each root's; on equal keys it is `lhs`'s root |
| `FibHeaps.FibHeap.Merge` | src/lib.rs:81-95 | the result is valid, `len` is the sum, and the key multiset is the union. Its root is `new_min`, so an empty side yields the other side's root. Both inputs are left with empty root rings. The result owns exactly the nodes of both heaps, and no link of any other node changes |
| `FibHeaps.FibHeap.Detach` | src/lib.rs:89-90 | `mem::replace(.., IntrusiveList::new())`: hands out the root ring and leaves the heap's own list empty |
| `FibHeaps.FibHeap.Splice` | src/lib.rs:89-93 | merges the two root rings and sets the root to `new_min`: one valid heap holding both key multisets and exactly both node sets; only links of those nodes are written |
| `FibHeaps.FibHeap.Build` | src/lib.rs:94 | the assembled `FibHeap { trees, len }` satisfies the heap invariant |
| `FibHeaps.FibHeap.Drop` | src/lib.rs:104-111 | visits the nodes of the forest in preorder, each node exactly once, `len` of them in all |
| `FibHeaps.FibHeap.DropAll` | src/lib.rs:108-110 | `drop_custom(drop_node)` over a ring visits the preorder of the trees on it |
| `FibHeaps.FibHeap.DropNode` | src/lib.rs:106-109 | `drop_node` visits the node, then the preorder of its kids |
| `HeapUse.InsertAll` | tests/quickcheck.rs:7-9 | inserting every key adds them all to the key multiset and `len` grows by their number |
| `HeapUse.Drain` | tests/quickcheck.rs:11-13 | popping until None yields every key once, in non-decreasing order, and leaves the heap empty |
| `HeapUse.InsertBeside` | src/lib.rs:29-33 | inserting into one heap of a shared store keeps a second heap on that store valid, with the same keys and `len`, and the two heaps stay disjoint |
| `HeapUse.MergeBeside` | src/lib.rs:81-95 | merging two heaps of a shared store keeps a third heap on that store valid, with the same keys and `len`, and disjoint from the result |
| `HeapUse.MergeThree` | src/lib.rs:81-95 | `merge(merge(a, b), c)` over three disjoint heaps of one store is valid and holds the keys of all three |
| `HeapUse.PopKnown` | src/lib.rs:44-52 | on a heap holding the keys of a sorted sequence, `pop_min` returns its first element and leaves the rest |
| `HeapUse.MergeInterleaving` | src/lib.rs:172-186 | the `merge_interleaving` test: heaps {1, 3} and {2, 4} built on one store, merged, and popped five times yield 1, 2, 3, 4, then None |
| `HeapUse.InsertThenDrain` | tests/quickcheck.rs:5-14 | inserting N keys and popping until None gives exactly N keys, a permutation of the input, in non-decreasing order |

## Left out

- `NonNull` handles, `Box::new`, `Box::leak` and `Box::from_raw`: handles are arena indices. Nodes are never deallocated, so `pop_min` and `Drop` free nothing. `Drop` is modelled as the sequence of nodes it visits.
- `drop_custom`'s callback `f` is not a parameter: both `DropCustom` methods return the sequence of elements it would receive, in call order. `FibHeaps.FibHeap.Drop` does not reset the heap's own lists, since the heap is gone afterwards.
- The `parent` field is never read and is not modelled. `pop_min` leaves it stale on promoted kids.
- `mark` is modelled only as "cleared by `link`". Nothing reads it.
- `IntrusiveList::root` returns a reference to the root node. `Root` returns the root handle, and the heap reads the key through the store.
- The generic element traits (`IntrusiveListElem`, `EmbeddedListElem`) are specialised to the one element type the arena holds.
- `impl Default for FibHeap` (src/lib.rs:98-102) is the same as `FibHeap::new`, which is modelled.
- `FibHeaps.FibHeap.PopMin` requires at most 1024 keys, which is exactly where the crate does not panic. On every larger heap, `consolidate` gathers at least 1024 nodes, and binomial trees of distinct degrees below 10 hold at most 1023. So some link reaches degree 10, and the next `uniques[degree]` (src/lib.rs:58) indexes past the 10-slot table and panics. The model does not state this panic as a lemma.
- `FibHeaps.FibHeap.Merge` requires both heaps to share one store and own disjoint nodes. In the crate each `Box` is its own allocation, so this always holds there. `HeapUse.InsertBeside` and `HeapUse.MergeBeside` show how heaps built on one store keep that precondition across inserts and merges.
- `FibHeaps.FibHeap.Merge` does not model `usize` overflow of `lhs.len + rhs.len`. `len` is a `nat`, and overflow needs more nodes than an address space can hold.
- `HeapUse.Drain` and `HeapUse.InsertThenDrain` require at most 1024 keys, for the same reason as `PopMin`.
- `pop_min`'s loop over the children and `consolidate`'s loops are split into one method per loop and one per loop body: `PromoteKids`/`TakeKid`/`PutKid`, `Gather`/`TakeRoot`/`Settle`/`LinkPair`/`LinkOrdered` and `PutBack`/`Reinsert`. The operations and their order are those of the source.
- The `mem::swap` in `consolidate` is modelled by passing the ordered pair to `LinkOrdered`.

## Findings

| source | as written | input that shows it | evidently intended | confidence | as-written member | corrected member |
|---|---|---|---|---|---|---|
| src/embedlist.rs:38 | `insert_anywhere` reads `rightmost` from the root's `right` link | a three-member ring a → b → c → a, inserting v: c's `right` still leads to a, but a's `left` becomes v, so c drops out of every valid ring | read the root's `left` link, so v goes between the last member and the root | not executed | `EmbedLists.InsertAnywhere`, `EmbedLists.InsertAnywhereBreaksRing`, `EmbedLists.Insert` | `EmbedLists.InsertAnywhereFixed`, `EmbedLists.InsertFixed` |
