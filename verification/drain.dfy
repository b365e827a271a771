/**
 * How src/lib.rs's tests and tests/quickcheck.rs use the heap: insert a list of keys into
 * a new heap, then pop until `None` comes back.
 */
module HeapUse {
  import opened Wrappers
  import opened Forests
  import opened FibHeaps

  ghost predicate Sorted(s: seq<i32>) {
    forall i, j | 0 <= i < j < |s| :: s[i] <= s[j]
  }

  /**
   * Every inserted key comes back exactly once, smallest first, and the pops stop with
   * `None` once the heap is empty. The 10-slot table of `consolidate` bounds the heap to
   * 1024 keys.
   */
  method InsertThenDrain(keys: seq<i32>) returns (popped: seq<i32>)
    requires |keys| <= 1024
    ensures |popped| == |keys|
    ensures multiset(popped) == multiset(keys)
    ensures Sorted(popped)
  {
    var store := new Store();
    var heap := new FibHeap(store);
    InsertAll(heap, keys);
    popped := Drain(heap);
  }

  /**
   * `heap.insert(key)` on one of two heaps that share an arena and own disjoint nodes: the
   * other heap keeps its keys and stays valid, and the two stay apart.
   */
  method InsertBeside(heap: FibHeap, other: FibHeap, key: i32)
    requires heap != other && heap.store == other.store && heap.Valid() && other.Valid()
    requires Apart(NodesF(heap.forest), NodesF(other.forest))
    modifies heap`trees, heap`forest, heap`len, heap.store, heap.store.links
    ensures heap.Valid() && other.Valid()
    ensures Apart(NodesF(heap.forest), NodesF(other.forest))
    ensures heap.Keys() == old(heap.Keys()) + multiset{key} && heap.len == old(heap.len) + 1
    ensures other.Keys() == old(other.Keys()) && other.len == old(other.len)
  {
    ghost var m := other.store.View();
    other.NodesInStore();
    heap.Insert(key);
    other.KeptBy(m, NodesF(heap.forest), {});
  }

  /**
   * `FibHeap::merge(lhs, rhs)` beside a third heap of the same arena: the merged heap owns
   * exactly the nodes of `lhs` and `rhs`, so `other` keeps its keys, stays valid and stays
   * apart from the result.
   */
  method MergeBeside(lhs: FibHeap, rhs: FibHeap, other: FibHeap) returns (h: FibHeap)
    requires lhs != rhs && lhs != other && rhs != other
    requires lhs.store == rhs.store && rhs.store == other.store
    requires lhs.Valid() && rhs.Valid() && other.Valid()
    requires Apart(NodesF(lhs.forest), NodesF(rhs.forest))
    requires Apart(NodesF(lhs.forest) + NodesF(rhs.forest), NodesF(other.forest))
    modifies lhs`trees, lhs`forest, rhs`trees, rhs`forest, lhs.store.links
    ensures fresh(h) && h.store == other.store && h.Valid() && other.Valid()
    ensures Apart(NodesF(h.forest), NodesF(other.forest))
    ensures h.Keys() == old(lhs.Keys()) + old(rhs.Keys()) && h.len == old(lhs.len) + old(rhs.len)
    ensures other.Keys() == old(other.Keys()) && other.len == old(other.len)
  {
    ghost var m := other.store.View();
    h := FibHeap.Merge(lhs, rhs);
    other.KeptBy(m, NodesF(h.forest), {});
  }

  /**
   * `FibHeap::merge(FibHeap::merge(a, b), c)` over three heaps of one arena: the second
   * merge's precondition holds, and the result holds the keys of all three.
   */
  method MergeThree(a: FibHeap, b: FibHeap, c: FibHeap) returns (h: FibHeap)
    requires a != b && a != c && b != c
    requires a.store == b.store && b.store == c.store
    requires a.Valid() && b.Valid() && c.Valid()
    requires Apart(NodesF(a.forest), NodesF(b.forest))
    requires Apart(NodesF(a.forest) + NodesF(b.forest), NodesF(c.forest))
    modifies a`trees, a`forest, b`trees, b`forest, c`trees, c`forest, a.store.links
    ensures h.Valid() && h.store == a.store
    ensures h.Keys() == old(a.Keys()) + old(b.Keys()) + old(c.Keys())
    ensures h.len == old(a.len) + old(b.len) + old(c.len)
  {
    ghost var K := a.Keys() + b.Keys() + c.Keys();
    var ab := MergeBeside(a, b, c);
    assert ab.Keys() + c.Keys() == K;
    h := FibHeap.Merge(ab, c);
  }

  /**
   * The `merge_interleaving` test of src/lib.rs: two heaps of one arena receive 1, 3 and
   * 2, 4; they are merged, and the merged heap pops 1, 2, 3, 4 and then None.
   */
  method MergeInterleaving() returns (popped: seq<Option<i32>>)
    ensures popped == [Some(1), Some(2), Some(3), Some(4), None]
  {
    var h1, h2 := InterleavedPair();
    var heap := FibHeap.Merge(h1, h2);
    popped := PopFive(heap);
  }

  /** The two heaps of `merge_interleaving`, before the merge. */
  method InterleavedPair() returns (h1: FibHeap, h2: FibHeap)
    ensures fresh(h1) && fresh(h2) && fresh(h1.store) && fresh(h1.store.links)
    ensures h1 != h2 && h1.store == h2.store && h1.Valid() && h2.Valid()
    ensures Apart(NodesF(h1.forest), NodesF(h2.forest))
    ensures h1.Keys() == multiset{1, 3} && h2.Keys() == multiset{2, 4}
  {
    var store := new Store();
    h1 := new FibHeap(store);
    h2 := new FibHeap(store);
    h1.LenIsNodeCount();
    h2.LenIsNodeCount();
    InsertTwo(h1, h2, 1, 3);
    InsertTwo(h2, h1, 2, 4);
  }

  /** `heap.insert(a); heap.insert(b)` beside another heap of the same arena. */
  method InsertTwo(heap: FibHeap, other: FibHeap, a: i32, b: i32)
    requires heap != other && heap.store == other.store && heap.Valid() && other.Valid()
    requires Apart(NodesF(heap.forest), NodesF(other.forest))
    modifies heap`trees, heap`forest, heap`len, heap.store, heap.store.links
    ensures heap.Valid() && other.Valid()
    ensures Apart(NodesF(heap.forest), NodesF(other.forest))
    ensures heap.Keys() == old(heap.Keys()) + multiset{a, b} && other.Keys() == old(other.Keys())
  {
    InsertBeside(heap, other, a);
    InsertBeside(heap, other, b);
  }

  /** The pops of `merge_interleaving` on the merged heap. */
  method PopFive(heap: FibHeap) returns (popped: seq<Option<i32>>)
    requires heap.Valid() && heap.Keys() == multiset{1, 3} + multiset{2, 4}
    modifies heap`trees, heap`forest, heap`len, heap.store, heap.store.links
    ensures popped == [Some(1), Some(2), Some(3), Some(4), None]
  {
    ghost var ks: seq<i32> := [1, 2, 3, 4];
    InterleavedKeys(ks);
    var r1 := PopKnown(heap, ks);
    var r2 := PopKnown(heap, ks[1..]);
    var r3 := PopKnown(heap, ks[1..][1..]);
    var r4 := PopKnown(heap, ks[1..][1..][1..]);
    var r5 := heap.PopMin();
    popped := [r1, r2, r3, r4, r5];
  }

  /** The keys of the merged heap, smallest first. */
  lemma InterleavedKeys(ks: seq<i32>)
    requires ks == [1, 2, 3, 4]
    ensures Sorted(ks) && multiset(ks) == multiset{1, 3} + multiset{2, 4}
  {
  }

  /**
   * `heap.pop_min()` on a heap holding the keys of the sorted list `ks`: the first of them
   * comes back, and the heap holds the others.
   */
  method PopKnown(heap: FibHeap, ghost ks: seq<i32>) returns (r: Option<i32>)
    requires heap.Valid() && ks != [] && |ks| <= 1024 && Sorted(ks) && heap.Keys() == multiset(ks)
    modifies heap`trees, heap`forest, heap`len, heap.store, heap.store.links
    ensures heap.Valid() && heap.Keys() == multiset(ks[1..]) && heap.len == |ks| - 1
    ensures r == Some(ks[0]) && Sorted(ks[1..])
  {
    r := heap.PopMin();
    FirstOfSorted(ks, r.value);
  }

  /** The smallest element of a sorted list is its first, and the others remain. */
  lemma FirstOfSorted(ks: seq<i32>, x: i32)
    requires ks != [] && Sorted(ks) && x in multiset(ks) && forall k | k in multiset(ks) :: x <= k
    ensures x == ks[0] && multiset(ks) - multiset{x} == multiset(ks[1..])
  {
    assert ks == [ks[0]] + ks[1..];
    assert ks[0] in multiset(ks);
  }

  /** `heap.insert(x)` for every `x` of `keys`, in order. */
  method InsertAll(heap: FibHeap, keys: seq<i32>)
    requires heap.Valid()
    modifies heap`trees, heap`forest, heap`len, heap.store, heap.store.links
    ensures heap.Valid()
    ensures heap.Keys() == old(heap.Keys()) + multiset(keys) && heap.len == old(heap.len) + |keys|
  {
    ghost var K0, n0 := heap.Keys(), heap.len;
    for i := 0 to |keys|
      invariant heap.Valid()
      invariant heap.Keys() == K0 + multiset(keys[..i]) && heap.len == n0 + i
    {
      heap.Insert(keys[i]);
      PrefixStep(keys, i);
    }
    assert keys[..|keys|] == keys;
  }

  lemma PrefixStep(keys: seq<i32>, i: nat)
    requires i < |keys|
    ensures multiset(keys[..i + 1]) == multiset(keys[..i]) + multiset{keys[i]}
  {
    assert keys[..i + 1] == keys[..i] + [keys[i]];
  }

  /** `while let Some(x) = heap.pop_min()`: the keys come out smallest first, all of them. */
  method Drain(heap: FibHeap) returns (popped: seq<i32>)
    requires heap.Valid() && heap.len <= 1024
    modifies heap`trees, heap`forest, heap`len, heap.store, heap.store.links
    ensures heap.Valid() && heap.len == 0
    ensures multiset(popped) == old(heap.Keys()) && |popped| == old(heap.len)
    ensures Sorted(popped)
  {
    ghost var K0, n0 := heap.Keys(), heap.len;
    popped := [];
    while true
      invariant heap.Valid() && heap.len <= 1024 && |popped| + heap.len == n0
      invariant Drained(popped, heap.Keys(), K0)
      decreases heap.len
    {
      ghost var K := heap.Keys();
      var r := heap.PopMin();
      if r.None? {
        break;
      }
      PopStep(popped, K, r.value, heap.Keys(), K0);
      popped := popped + [r.value];
    }
  }

  /**
   * What draining has achieved when `popped` has come out and `rest` is still in the heap:
   * all of `all` is accounted for, and `popped` is sorted and below everything left.
   */
  ghost predicate Drained(popped: seq<i32>, rest: multiset<i32>, all: multiset<i32>) {
    && multiset(popped) + rest == all
    && Sorted(popped)
    && forall i, k | 0 <= i < |popped| && k in rest :: popped[i] <= k
  }

  /** Popping the minimum `x` of `rest` keeps the draining invariant. */
  lemma PopStep(popped: seq<i32>, rest: multiset<i32>, x: i32, rest': multiset<i32>, all: multiset<i32>)
    requires Drained(popped, rest, all)
    requires x in rest && (forall k | k in rest :: x <= k) && rest' == rest - multiset{x}
    ensures Drained(popped + [x], rest', all)
  {
    var p := popped + [x];
    assert multiset(p) == multiset(popped) + multiset{x};
    forall i, k | 0 <= i < |p| && k in rest'
      ensures p[i] <= k
    {
      assert k in rest;
    }
  }
}
