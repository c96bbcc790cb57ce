/**
 The max-heap of scalar indices that drives batch verification (ed25519-donna-batchverify.h).
 `heap[0..size)` holds indices into `scalars` and `points`; a parent's scalar is never smaller
 than its children's.
 */
module BatchHeap {
  import opened Words
  import opened Modm
  import opened BatchScalar

  /** The first n entries are a permutation of 0..n-1: in range and without repetition. */
  ghost predicate IsPerm(h: seq<nat>, n: nat) {
    && n <= |h|
    && (forall k :: 0 <= k < n ==> h[k] < n)
    && (forall j, k :: 0 <= j < k < n ==> h[j] != h[k])
  }

  function Parent(k: int): int {
    if k <= 0 then 0 else (k - 1) / 2
  }

  /** `(node - 1) / 2` in unsigned arithmetic: of no use at the root, where it wraps. */
  function ParentIndex(node: nat): (r: nat)
    requires node < TWO64
    ensures node > 0 ==> r == Parent(node) && r < node
  {
    Sub64(node, 1) / 2
  }

  function Swapped<T>(a: seq<T>, i: nat, j: nat): (b: seq<T>)
    requires i < |a| && j < |a|
  {
    a[i := a[j]][j := a[i]]
  }

  // Order is a property of the sequence of keys: key k is the value of the scalar at heap position k.

  ghost predicate HeapOrder(v: seq<int>, n: nat)
    requires n <= |v|
  {
    forall k {:trigger Parent(k)} :: 1 <= k < n ==> v[k] <= v[Parent(k)]
  }

  /** Order everywhere but between `hole` and its parent; below the hole order skips it. */
  ghost predicate OrderAbove(v: seq<int>, n: nat, hole: nat)
    requires n <= |v|
  {
    && (forall k {:trigger Parent(k)} :: 1 <= k < n && k != hole ==> v[k] <= v[Parent(k)])
    && (forall k {:trigger Parent(k)} :: 1 <= k < n && Parent(k) == hole && hole > 0 ==> v[k] <= v[Parent(hole)])
  }

  /** Order everywhere but between `hole` and its parent or children; order skips the hole. */
  ghost predicate OrderAround(v: seq<int>, n: nat, hole: nat)
    requires n <= |v|
  {
    && (forall k {:trigger Parent(k)} :: 1 <= k < n && k != hole && Parent(k) != hole ==> v[k] <= v[Parent(k)])
    && (forall k {:trigger Parent(k)} :: 1 <= k < n && Parent(k) == hole && hole > 0 ==> v[k] <= v[Parent(hole)])
  }

  lemma SiftUpStep(v: seq<int>, n: nat, node: nat)
    requires n <= |v| && 0 < node < n && OrderAbove(v, n, node) && v[Parent(node)] <= v[node]
    ensures OrderAbove(Swapped(v, Parent(node), node), n, Parent(node))
  {
  }

  lemma SiftUpDone(v: seq<int>, n: nat, node: nat)
    requires n <= |v| && node < n && OrderAbove(v, n, node) && (node == 0 || v[node] <= v[Parent(node)])
    ensures HeapOrder(v, n)
  {
  }

  lemma SiftDownStep(v: seq<int>, n: nat, hole: nat, node: nat)
    requires n <= |v| && 2 * hole + 2 < n && OrderAround(v, n, hole)
    requires node == 2 * hole + 1 || node == 2 * hole + 2
    requires v[2 * hole + 1] <= v[node] && v[2 * hole + 2] <= v[node]
    ensures OrderAround(Swapped(v, hole, node), n, node)
  {
  }

  /** In a heap of odd size a node without a right child is a leaf. */
  lemma SiftDownDone(v: seq<int>, n: nat, hole: nat)
    requires n <= |v| && hole < n <= 2 * hole + 2 && n % 2 == 1 && OrderAround(v, n, hole)
    ensures OrderAbove(v, n, hole)
  {
  }

  /** In a heap of even size the sift can stop above a left child that is larger: repair needs an odd size. */
  lemma EvenSizeLeavesGap(n: nat) returns (v: seq<int>, hole: nat)
    requires n >= 2 && n % 2 == 0
    ensures |v| == n && hole < n <= 2 * hole + 2 && OrderAround(v, n, hole) && !OrderAbove(v, n, hole)
  {
    hole := n / 2 - 1;
    v := seq(n, i => if i == hole then 0 else 1);
    assert Parent(n - 1) == hole;
  }

  /** The root carries the largest key. */
  lemma {:induction false} RootIsMax(v: seq<int>, n: nat, k: nat)
    requires k < n <= |v| && HeapOrder(v, n)
    ensures v[k] <= v[0]
  {
    if k > 0 {
      RootIsMax(v, n, Parent(k));
    }
  }

  /** Every other key is below one of the root's children. */
  lemma {:induction false} ChildrenDominate(v: seq<int>, n: nat, k: nat)
    requires 0 < k < n <= |v| && n >= 3 && HeapOrder(v, n)
    ensures v[k] <= v[1] || v[k] <= v[2]
  {
    if k > 2 {
      ChildrenDominate(v, n, Parent(k));
    }
  }

  ghost function Key(h: seq<nat>, s: seq<seq<int>>, k: nat): int
    requires k < |h|
  {
    if h[k] < |s| && |s[h[k]]| == 5 then Val(s[h[k]]) else 0
  }

  ghost function Keys(h: seq<nat>, s: seq<seq<int>>): (v: seq<int>)
    ensures |v| == |h|
  {
    seq(|h|, k requires 0 <= k < |h| => Key(h, s, k))
  }

  lemma KeysSwapped(h: seq<nat>, s: seq<seq<int>>, i: nat, j: nat)
    requires i < |h| && j < |h|
    ensures Keys(Swapped(h, i, j), s) == Swapped(Keys(h, s), i, j)
  {
  }

  lemma PermSwapped(h: seq<nat>, n: nat, i: nat, j: nat)
    requires IsPerm(h, n) && i < n && j < n
    ensures IsPerm(Swapped(h, i, j), n)
  {
  }

  /** The first n entries as a set. */
  ghost function Image(h: seq<nat>, n: nat): (r: set<nat>)
    requires n <= |h|
  {
    if n == 0 then {} else Image(h, n - 1) + {h[n - 1]}
  }

  lemma {:induction false} ImageEntry(h: seq<nat>, n: nat, x: nat) returns (k: nat)
    requires n <= |h| && x in Image(h, n)
    ensures k < n && h[k] == x
  {
    if x == h[n - 1] {
      k := n - 1;
    } else {
      k := ImageEntry(h, n - 1, x);
    }
  }

  lemma {:induction false} ImageSize(h: seq<nat>, n: nat)
    requires n <= |h| && forall j, k :: 0 <= j < k < n ==> h[j] != h[k]
    ensures |Image(h, n)| == n
  {
    if n > 0 {
      ImageSize(h, n - 1);
      if h[n - 1] in Image(h, n - 1) {
        var k := ImageEntry(h, n - 1, h[n - 1]);
        assert false;
      }
    }
  }

  ghost function Below(n: nat): (r: set<nat>)
    ensures |r| == n && forall x: nat :: x in r <==> x < n
  {
    if n == 0 then {} else Below(n - 1) + {n - 1}
  }

  lemma {:induction false} SubsetSize(a: set<nat>, b: set<nat>)
    requires a <= b
    ensures |a| <= |b|
  {
    if x :| x in a {
      SubsetSize(a - {x}, b - {x});
    }
  }

  /** Every index below n is somewhere in the heap. */
  lemma PermOnto(h: seq<nat>, n: nat, i: nat)
    requires IsPerm(h, n) && i < n
    ensures exists k :: 0 <= k < n && h[k] == i
  {
    if forall k :: 0 <= k < n ==> h[k] != i {
      ImageSize(h, n);
      forall x | x in Image(h, n) ensures x in Below(n) - {i} {
        var k := ImageEntry(h, n, x);
      }
      SubsetSize(Image(h, n), Below(n) - {i});
      assert false;
    }
  }

  /** The first n scalars are well formed and vanish from limb `limbs` up. */
  ghost predicate ScalarsOk(s: seq<seq<int>>, n: nat, limbs: nat) {
    n <= |s| && forall i :: 0 <= i < n ==> Limbs(s[i], B) && ZeroFrom(s[i], limbs)
  }

  class BatchHeap<G> {
    var heap: array<nat>
    var scalars: array<seq<int>>
    var points: array<G>
    var size: nat

    ghost predicate Shape()
      reads this
    {
      && heap.Length == scalars.Length == points.Length
      && size <= heap.Length < TWO64
      && heap as object != points as object && scalars as object != points as object
    }

    ghost predicate IsHeap()
      reads this, heap, scalars
    {
      Shape() && IsPerm(heap[..], size) && HeapOrder(Keys(heap[..], scalars[..]), size)
    }

    /** An empty heap with room for `capacity` scalars. */
    constructor (capacity: nat, p: G)
      requires capacity < TWO64
      ensures Shape() && heap.Length == capacity && size == 0
      ensures fresh(heap) && fresh(scalars) && fresh(points)
    {
      heap := new nat[capacity](_ => 0);
      scalars := new seq<int>[capacity](_ => [0, 0, 0, 0, 0]);
      points := new G[capacity](_ => p);
      size := 0;
    }

    method Swap(a: nat, b: nat)
      requires a < heap.Length && b < heap.Length
      modifies heap
      ensures heap[..] == Swapped(old(heap[..]), a, b)
    {
      var temp := heap[a];
      heap[a] := heap[b];
      heap[b] := temp;
    }

    /** Compare the scalars at two heap positions by the limbs 0..limbsize. */
    method KeyLt(a: nat, b: nat, limbsize: nat, ghost n: nat) returns (lt: bool)
      requires heap.Length == scalars.Length && limbsize <= 4
      requires IsPerm(heap[..], n) && a < n && b < n && ScalarsOk(scalars[..], n, limbsize + 1)
      ensures lt <==> Keys(heap[..], scalars[..])[a] < Keys(heap[..], scalars[..])[b]
    {
      lt := Lt256Batch(scalars[heap[a]], scalars[heap[b]], limbsize);
      TruncatedIsFull(scalars[heap[a]], limbsize + 1);
      TruncatedIsFull(scalars[heap[b]], limbsize + 1);
    }

    method KeyLte(a: nat, b: nat, limbsize: nat, ghost n: nat) returns (lte: bool)
      requires heap.Length == scalars.Length && limbsize <= 4
      requires IsPerm(heap[..], n) && a < n && b < n && ScalarsOk(scalars[..], n, limbsize + 1)
      ensures lte <==> Keys(heap[..], scalars[..])[a] <= Keys(heap[..], scalars[..])[b]
    {
      lte := Lte256Batch(scalars[heap[a]], scalars[heap[b]], limbsize);
      TruncatedIsFull(scalars[heap[a]], limbsize + 1);
      TruncatedIsFull(scalars[heap[b]], limbsize + 1);
    }

    method SwapUp(parent: nat, node: nat, ghost n: nat)
      requires n <= heap.Length && 0 < node < n && parent == Parent(node)
      requires IsPerm(heap[..], n) && OrderAbove(Keys(heap[..], scalars[..]), n, node)
      requires Keys(heap[..], scalars[..])[parent] <= Keys(heap[..], scalars[..])[node]
      modifies heap
      ensures IsPerm(heap[..], n) && OrderAbove(Keys(heap[..], scalars[..]), n, parent)
    {
      SiftUpStep(Keys(heap[..], scalars[..]), n, node);
      KeysSwapped(heap[..], scalars[..], parent, node);
      PermSwapped(heap[..], n, parent, node);
      Swap(parent, node);
    }

    method SwapDown(parent: nat, node: nat)
      requires 2 * parent + 2 < size <= heap.Length && (node == 2 * parent + 1 || node == 2 * parent + 2)
      requires IsPerm(heap[..], size) && OrderAround(Keys(heap[..], scalars[..]), size, parent)
      requires Keys(heap[..], scalars[..])[2 * parent + 1] <= Keys(heap[..], scalars[..])[node]
      requires Keys(heap[..], scalars[..])[2 * parent + 2] <= Keys(heap[..], scalars[..])[node]
      modifies heap
      ensures IsPerm(heap[..], size) && OrderAround(Keys(heap[..], scalars[..]), size, node)
    {
      SiftDownStep(Keys(heap[..], scalars[..]), size, parent, node);
      KeysSwapped(heap[..], scalars[..], parent, node);
      PermSwapped(heap[..], size, parent, node);
      Swap(parent, node);
    }

    /** Insert the index `size` at the bottom and sift it up. */
    method InsertNext()
      requires IsHeap() && size < heap.Length && ScalarsOk(scalars[..], size + 1, 5)
      modifies this`size, heap
      ensures IsHeap() && size == old(size) + 1
    {
      var node := size;
      ghost var n, v0 := size + 1, Keys(heap[..], scalars[..]);
      heap[node] := node;
      assert forall k :: 0 <= k < size ==> Keys(heap[..], scalars[..])[k] == v0[k];
      var parent := ParentIndex(node);
      while node != 0
        invariant size == n - 1
        invariant 0 <= node < n && (node > 0 ==> parent == Parent(node))
        invariant IsPerm(heap[..], n)
        invariant OrderAbove(Keys(heap[..], scalars[..]), n, node)
      {
        var lt := KeyLt(parent, node, 4, n);
        if !lt {
          break;
        }
        SwapUp(parent, node, n);
        node := parent;
        parent := ParentIndex(node);
      }
      SiftUpDone(Keys(heap[..], scalars[..]), n, node);
      size := size + 1;
    }

    /** After the root's scalar changed: sift the root to a leaf, then up to its place. */
    method UpdatedRoot(limbsize: nat)
      requires Shape() && limbsize <= 4 && size >= 3 && size % 2 == 1
      requires IsPerm(heap[..], size) && OrderAround(Keys(heap[..], scalars[..]), size, 0)
      requires ScalarsOk(scalars[..], size, limbsize + 1)
      modifies heap
      ensures IsHeap()
    {
      var parent, node, childl, childr := 0, 1, 1, 2;
      while childr < size
        invariant IsPerm(heap[..], size)
        invariant 0 <= parent < size && childl == 2 * parent + 1 && childr == childl + 1
        invariant parent == 0 || node == parent
        invariant OrderAround(Keys(heap[..], scalars[..]), size, parent)
        decreases size - parent
      {
        var lt := KeyLt(childl, childr, limbsize, size);
        node := if lt then childr else childl;
        SwapDown(parent, node);
        parent := node;
        childl := parent * 2 + 1;
        childr := childl + 1;
      }
      SiftDownDone(Keys(heap[..], scalars[..]), size, parent);

      parent := ParentIndex(node);
      while node != 0
        invariant 0 <= node < size && (node > 0 ==> parent == Parent(node))
        invariant IsPerm(heap[..], size)
        invariant OrderAbove(Keys(heap[..], scalars[..]), size, node)
      {
        var lte := KeyLte(parent, node, limbsize, size);
        if !lte {
          break;
        }
        SwapUp(parent, node, size);
        node := parent;
        parent := ParentIndex(node);
      }
      SiftUpDone(Keys(heap[..], scalars[..]), size, node);
    }

    /** A heap of the first `count` scalars. */
    method Build(count: nat)
      requires Shape() && 0 < count <= heap.Length && ScalarsOk(scalars[..], count, 5)
      modifies this`size, heap
      ensures IsHeap() && size == count
    {
      heap[0] := 0;
      size := 0;
      while size < count
        invariant IsHeap() && size <= count
      {
        InsertNext();
      }
    }

    /** Bring in the scalars up to `newCount`. */
    method Extend(newCount: nat)
      requires IsHeap() && size <= newCount <= heap.Length && ScalarsOk(scalars[..], newCount, 5)
      modifies this`size, heap
      ensures IsHeap() && size == newCount
    {
      while size < newCount
        invariant IsHeap() && size <= newCount
      {
        InsertNext();
      }
    }

    /** The indices of the two largest scalars. */
    method GetTop2(limbsize: nat) returns (max1: nat, max2: nat)
      requires IsHeap() && size >= 3 && limbsize <= 4 && ScalarsOk(scalars[..], size, limbsize + 1)
      ensures max1 < size && max2 < size && max1 != max2 && max1 == heap[0]
      ensures Val(scalars[max2]) <= Val(scalars[max1])
      ensures forall i :: 0 <= i < size && i != max1 ==> Val(scalars[i]) <= Val(scalars[max2])
    {
      var h0, h1, h2 := heap[0], heap[1], heap[2];
      var lt := KeyLt(1, 2, limbsize, size);
      if lt {
        h1 := h2;
      }
      max1 := h0;
      max2 := h1;
      ghost var v := Keys(heap[..], scalars[..]);
      RootIsMax(v, size, 1);
      RootIsMax(v, size, 2);
      forall i | 0 <= i < size && i != max1 ensures Val(scalars[i]) <= Val(scalars[max2]) {
        PermOnto(heap[..], size, i);
        var k :| 0 <= k < size && heap[k] == i;
        ChildrenDominate(v, size, k);
      }
    }
  }
}
