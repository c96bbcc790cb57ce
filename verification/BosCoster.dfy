/**
 Bos-Coster multi-scalar multiplication (ed25519-donna-batchverify.h): repeatedly replace the
 largest scalar by its difference with the second largest, until one scalar is left.
 */
module BosCoster {
  import opened Words
  import opened Modm
  import opened BatchScalar
  import opened BatchHeap
  import opened AbelianGroup
  import opened WeightedSum
  import opened Gcd

  ghost function Vals(s: seq<seq<int>>): (v: seq<int>)
    ensures |v| == |s|
  {
    seq(|s|, i requires 0 <= i < |s| => if |s[i]| == 5 then Val(s[i]) else 0)
  }

  lemma {:induction false} OrZeroRight(x: nat)
    ensures BitOr(x, 0) == x
  {
    if x != 0 {
      OrZeroRight(x / 2);
    }
  }

  lemma OrOne(h: nat)
    ensures BitOr(h, 1) == if h % 2 == 0 then h + 1 else h
  {
    if h / 2 != 0 {
      OrZeroRight(h / 2);
    }
  }

  /** `((count + 1) / 2) | 1`: how many scalars the heap starts with. */
  function InitialSize(count: nat): (k: nat)
    ensures k % 2 == 1 && (count >= 3 && count % 2 == 1 ==> 3 <= k <= count)
    ensures k == BitOr((count + 1) / 2, 1)
  {
    var h := (count + 1) / 2;
    OrOne(h);
    if h % 2 == 0 then h + 1 else h
  }

  // ---------- the limb window ----------

  /** All `count` scalars are well formed, and those in the heap vanish above the limb window. */
  ghost predicate Windowed(s: seq<seq<int>>, n: nat, count: nat, limbsize: nat) {
    && n <= count <= |s| && limbsize <= 4
    && forall i :: 0 <= i < count ==> Limbs(s[i], B) && ZeroFrom(s[i], if i < n then limbsize + 1 else 5)
  }

  lemma WindowedOk(s: seq<seq<int>>, n: nat, count: nat, limbsize: nat)
    requires limbsize <= 4
    ensures Windowed(s, n, count, limbsize) <==> n <= count && ScalarsOk(s, n, limbsize + 1) && ScalarsOk(s, count, 5)
  {
  }

  /** Below B^n the limb n is zero. */
  lemma HighLimbZero(a: seq<int>, n: nat)
    requires Limbs(a, B) && n < 5 && ZeroFrom(a, n + 1) && Val(a) < PowB(n)
    ensures ZeroFrom(a, n)
  {
    TruncatedIsFull(a, n + 1);
    LowBound(a, n);
    if a[n] > 0 {
      MulMono(PowB(n), 1, a[n]);
    }
  }

  lemma WindowShrinks(s: seq<seq<int>>, n: nat, limbsize: nat, max1: nat)
    requires limbsize <= 4 && ScalarsOk(s, n, limbsize + 1) && max1 < n
    requires forall i :: 0 <= i < n ==> Vals(s)[i] <= Vals(s)[max1]
    requires s[max1][limbsize] == 0
    ensures ScalarsOk(s, n, limbsize)
    ensures limbsize == 0 ==> Val(s[max1]) == 0
  {
    assert ZeroFrom(s[max1], limbsize);
    TruncatedIsFull(s[max1], limbsize);
    LowBound(s[max1], limbsize);
    forall i | 0 <= i < n ensures Limbs(s[i], B) && ZeroFrom(s[i], limbsize) {
      assert Vals(s)[i] == Val(s[i]);
      HighLimbZero(s[i], limbsize);
    }
  }

  lemma Bits128(a: seq<int>)
    requires Limbs(a, B) && Val(a) < TWO128
    ensures ZeroFrom(a, 3)
  {
  }

  lemma Above127(a: seq<int>)
    requires Limbs(a, B)
    ensures ZeroFrom(a, 3) && 2 * Val(a) >= TWO128 ==> a[2] != 0
  {
  }

  /** The scalars of the batch, as numbers. */
  ghost function ScalarVals<G>(batch: BatchHeap<G>): (v: seq<int>)
    reads batch, batch.scalars
    ensures |v| == batch.scalars.Length
  {
    Vals(batch.scalars[..])
  }

  // ---------- one step ----------

  lemma ValsUpdate(s: seq<seq<int>>, a: nat, r: seq<int>)
    requires a < |s| && |r| == 5
    ensures Vals(s[a := r]) == Vals(s)[a := Val(r)]
  {
  }

  lemma ScalarsOkUpdate(s: seq<seq<int>>, n: nat, limbs: nat, a: nat, r: seq<int>)
    requires ScalarsOk(s, n, limbs) && a < |s| && Limbs(r, B) && ZeroFrom(r, limbs)
    ensures ScalarsOk(s[a := r], n, limbs)
  {
  }

  lemma StepOrder(h: seq<nat>, s: seq<seq<int>>, n: nat, r: seq<int>)
    requires n >= 1 && |h| == |s| && IsPerm(h, n) && HeapOrder(Keys(h, s), n)
    ensures OrderAround(Keys(h, s[h[0] := r]), n, 0)
  {
    var v, w := Keys(h, s), Keys(h, s[h[0] := r]);
    forall k | 1 <= k < n ensures w[k] == v[k] {
      assert h[k] != h[0];
    }
  }

  /** sub256_modm_batch(a, a, b, limbsize), in place on a. */
  method Sub256Batch0(a: seq<int>, b: seq<int>, limbsize: nat) returns (r: seq<int>)
    requires Limbs(a, B) && Limbs(b, B) && limbsize <= 4
    requires ZeroFrom(a, limbsize + 1) && ZeroFrom(b, limbsize + 1) && Val(b) <= Val(a)
    ensures Limbs(r, B) && ZeroFrom(r, limbsize + 1) && Val(r) == Val(a) - Val(b)
  {
    TruncatedIsFull(a, limbsize + 1);
    TruncatedIsFull(b, limbsize + 1);
    r := Sub256Batch(a, a, b, limbsize);
    assert forall k :: limbsize + 1 <= k < 5 ==>
      r[k] == r[limbsize + 1..][k - limbsize - 1] == a[limbsize + 1..][k - limbsize - 1];
    TruncatedIsFull(r, limbsize + 1);
  }

  /** scalars[max1] -= scalars[max2]; points[max2] += points[max1] */
  method Subtract<G>(g: Ops<G>, scalars: array<seq<int>>, points: array<G>, n: nat, max1: nat, max2: nat, limbsize: nat)
    returns (ghost r: seq<int>)
    requires scalars as object != points as object && n <= scalars.Length == points.Length
    requires limbsize <= 4 && ScalarsOk(scalars[..], n, limbsize + 1)
    requires max1 < n && max2 < n && max1 != max2 && Val(scalars[max2]) <= Val(scalars[max1])
    modifies scalars, points
    ensures scalars[..] == old(scalars[..])[max1 := r]
    ensures Limbs(r, B) && ZeroFrom(r, limbsize + 1) && Val(r) == old(Val(scalars[max1]) - Val(scalars[max2]))
    ensures points[..] == old(points[..])[max2 := Add(g, old(points[max2]), old(points[max1]))]
  {
    var d := Sub256Batch0(scalars[max1], scalars[max2], limbsize);
    scalars[max1] := d;
    points[max2] := Add(g, points[max2], points[max1]);
    r := d;
  }

  /** One subtraction, after which the heap is repaired. */
  method Step<G>(g: Ops<G>, batch: BatchHeap<G>, max1: nat, max2: nat, limbsize: nat, ghost v: seq<int>,
                 ghost p: seq<G>, ghost count: nat)
    requires limbsize <= 4 && ScalarsOk(batch.scalars[..], count, 5)
    requires batch.IsHeap() && batch.size >= 3 && batch.size % 2 == 1
    requires ScalarsOk(batch.scalars[..], batch.size, limbsize + 1)
    requires max1 == batch.heap[0] && max1 < batch.size && max2 < batch.size && max1 != max2
    requires ScalarVals(batch) == v && batch.points[..] == p && v[max2] <= v[max1]
    modifies batch.heap, batch.scalars, batch.points
    ensures batch.IsHeap()
    ensures ScalarsOk(batch.scalars[..], batch.size, limbsize + 1)
    ensures ScalarVals(batch) == v[max1 := v[max1] - v[max2]]
    ensures batch.points[..] == p[max2 := Add(g, p[max2], p[max1])]
    ensures ScalarsOk(batch.scalars[..], count, 5)
  {
    ghost var s, h := batch.scalars[..], batch.heap[..];
    assert v[max1] == Val(s[max1]) && v[max2] == Val(s[max2]);
    ghost var r := Subtract(g, batch.scalars, batch.points, batch.size, max1, max2, limbsize);
    StepOrder(h, s, batch.size, r);
    ValsUpdate(s, max1, r);
    ScalarsOkUpdate(s, batch.size, limbsize + 1, max1, r);
    ScalarsOkUpdate(s, count, 5, max1, r);
    assert batch.heap[..] == h;
    batch.UpdatedRoot(limbsize);
    assert batch.scalars[..] == s[max1 := r];
    assert batch.points[..] == p[max2 := Add(g, p[max2], p[max1])];
  }

  // ---------- the loop ----------

  /** What a call needs of the batch: well-formed scalars, the later ones of at most 128 bits. */
  ghost predicate Ready<G>(batch: BatchHeap<G>, count: nat)
    reads batch, batch.heap, batch.scalars
  {
    && batch.Shape() && 3 <= count <= batch.heap.Length && count % 2 == 1
    && ScalarsOk(batch.scalars[..], count, 5)
    && forall i :: InitialSize(count) <= i < count ==> Val(batch.scalars[i]) < TWO128
  }

  lemma ValsNonNegative(s: seq<seq<int>>, n: nat)
    requires ScalarsOk(s, n, 5)
    ensures forall i :: 0 <= i < n ==> Vals(s)[i] >= 0
  {
    forall i | 0 <= i < n ensures Vals(s)[i] >= 0 {
      LowIsVal(s[i]);
      LowBound(s[i], 5);
    }
  }

  /** Everything one step keeps: the weighted sum, the gcd, and a smaller total. */
  lemma StepKeeps<G(!new)>(g: Ops<G>, v: seq<int>, p: seq<G>, n: nat, count: nat, a: nat, b: nat)
    requires Abelian(g) && n <= count <= |v| == |p| && a < n && b < n && a != b
    requires (forall i :: 0 <= i < count ==> v[i] >= 0) && 0 < v[b] <= v[a]
    ensures var v', p' := v[a := v[a] - v[b]], p[b := Add(g, p[b], p[a])];
      && Weighted(g, v', p', count) == Weighted(g, v, p, count)
      && Weighted(g, v', p', n) == Weighted(g, v, p, n)
      && (forall i :: 0 <= i < count ==> v'[i] >= 0)
      && GcdOf(v', count) == GcdOf(v, count) && GcdOf(v', n) == GcdOf(v, n)
      && 0 <= Sum(v', count) < Sum(v, count)
  {
    StepKeepsWeighted(g, v, p, count, a, b);
    StepKeepsWeighted(g, v, p, n, a, b);
    GcdAfterSubtraction(v, count, a, b);
    GcdAfterSubtraction(v, n, a, b);
    SumUpdate(v, count, a, v[a] - v[b]);
    SumNonNegative(v[a := v[a] - v[b]], count);
  }

  /** Two scalars that the previous step left behind, before the heap was extended. */
  ghost predicate Witness(v: seq<int>, k: nat, a: nat, b: nat) {
    a < k <= |v| && b < k && a != b && v[a] + v[b] >= TWO128 && v[b] > 0
  }

  ghost predicate TwoNonzero(v: seq<int>, k: nat) {
    exists i, j :: 0 <= i < k && 0 <= j < k && i != j && i < |v| && j < |v| && v[i] != 0 && v[j] != 0
  }

  ghost predicate NonNegative(v: seq<int>, n: nat) {
    n <= |v| && forall i :: 0 <= i < n ==> v[i] >= 0
  }

  /** The run brings in the second half of the scalars exactly under this condition on the first half. */
  ghost predicate WillExtend(v: seq<int>, k: nat)
    requires k <= |v|
  {
    TwoNonzero(v, k) && GcdOf(v, k) < TWO128
  }

  /** What relates the scalars and points (v, p) in the middle of a run to the initial ones. */
  ghost predicate Run<G>(g: Ops<G>, v0: seq<int>, p0: seq<G>, v: seq<int>, p: seq<G>, k: nat, count: nat,
                         extended: bool, initial: bool, a: nat, b: nat)
  {
    && |v0| == |p0| == |v| == |p| && 3 <= k <= count && NonNegative(v0, count) && NonNegative(v, count)
    && Weighted(g, v, p, count) == Weighted(g, v0, p0, count)
    && GcdOf(v, count) == GcdOf(v0, count)
    && (!extended ==> Weighted(g, v, p, k) == Weighted(g, v0, p0, k) && GcdOf(v, k) == GcdOf(v0, k))
    && (!extended ==> forall i :: k <= i < count ==> v[i] == v0[i])
    && (initial ==> v == v0)
    && (!initial ==> TwoNonzero(v0, k))
    && (!initial && !extended ==> Witness(v, k, a, b))
    && (extended ==> WillExtend(v0, k) && forall i :: 0 <= i < count ==> v[i] < TWO128)
  }

  lemma RunStart<G>(g: Ops<G>, v: seq<int>, p: seq<G>, k: nat, count: nat)
    requires |v| == |p| && 3 <= k <= count && NonNegative(v, count)
    ensures Run(g, v, p, v, p, k, count, false, true, 0, 0)
  {
  }

  lemma RunExtends<G>(g: Ops<G>, v0: seq<int>, p0: seq<G>, v: seq<int>, p: seq<G>, k: nat, count: nat,
                      initial: bool, a: nat, b: nat, max1: nat, max2: nat)
    requires Run(g, v0, p0, v, p, k, count, false, initial, a, b)
    requires max1 < k && max2 < k && max1 != max2 && v[max2] > 0 && v[max1] < TWO128
    requires forall i :: 0 <= i < k ==> v[i] <= v[max1]
    requires forall i :: k <= i < count ==> v0[i] < TWO128
    ensures Run(g, v0, p0, v, p, k, count, true, initial, a, b)
  {
    assert initial ==> v0[max1] != 0 && v0[max2] != 0;
    GcdAtMost(v, k, max2);
  }

  lemma RunStep<G(!new)>(g: Ops<G>, v0: seq<int>, p0: seq<G>, v: seq<int>, p: seq<G>, k: nat, count: nat,
                   extended: bool, initial: bool, a: nat, b: nat, max1: nat, max2: nat)
    requires Abelian(g) && Run(g, v0, p0, v, p, k, count, extended, initial, a, b)
    requires var n := if extended then count else k; max1 < n && max2 < n
    requires max1 != max2 && 0 < v[max2] <= v[max1]
    requires !extended ==> v[max1] >= TWO128
    ensures Run(g, v0, p0, v[max1 := v[max1] - v[max2]], p[max2 := Add(g, p[max2], p[max1])], k, count, extended,
      false, max1, max2)
    ensures 0 <= Sum(v[max1 := v[max1] - v[max2]], count) < Sum(v, count)
  {
    StepKeeps(g, v, p, if extended then count else k, count, max1, max2);
    assert !extended && initial ==> v0[max1] != 0 && v0[max2] != 0;
  }

  /** The two largest scalars, by index. */
  ghost predicate Top2(v: seq<int>, n: nat, max1: nat, max2: nat) {
    && n <= |v| && max1 < n && max2 < n && max1 != max2 && v[max2] <= v[max1]
    && forall i :: 0 <= i < n && i != max1 ==> v[i] <= v[max2]
  }

  /** Exhausted another limb?  Then the window loses it. */
  method Narrow<G>(batch: BatchHeap<G>, limbsize: nat, extended: bool, max1: nat, ghost max2: nat, ghost v: seq<int>)
    returns (limbs: nat)
    requires batch.Shape() && ScalarVals(batch) == v
    requires limbsize <= 4 && ScalarsOk(batch.scalars[..], batch.size, limbsize + 1)
    requires Top2(v, batch.size, max1, max2) && v[max2] > 0
    requires !extended ==> limbsize == 4 || (limbsize >= 2 && 2 * v[max1] >= TWO128)
    ensures limbs <= 4 && ScalarsOk(batch.scalars[..], batch.size, limbs + 1)
    ensures !extended ==> limbs >= 2
  {
    limbs := limbsize;
    if batch.scalars[max1][limbsize] == 0 {
      WindowShrinks(batch.scalars[..], batch.size, limbsize, max1);
      Above127(batch.scalars[max1]);
      limbs := limbs - 1;
    }
  }

  lemma WindowCovers128(s: seq<seq<int>>, n: nat, count: nat, limbs: nat)
    requires n <= count && ScalarsOk(s, count, 5) && 2 <= limbs <= 4
    requires ScalarsOk(s, n, limbs + 1) && forall i :: n <= i < count ==> Vals(s)[i] < TWO128
    ensures ScalarsOk(s, count, limbs + 1)
  {
    forall i | n <= i < count ensures ZeroFrom(s[i], limbs + 1) {
      assert Vals(s)[i] == Val(s[i]);
      Bits128(s[i]);
    }
  }

  lemma Top2Vals(s: seq<seq<int>>, n: nat, max1: nat, max2: nat)
    requires ScalarsOk(s, n, 5) && max1 < n && max2 < n && max1 != max2 && Val(s[max2]) <= Val(s[max1])
    requires forall i :: 0 <= i < n && i != max1 ==> Val(s[i]) <= Val(s[max2])
    ensures Top2(Vals(s), n, max1, max2)
  {
  }

  /** Bring in the 128-bit scalars; the window still covers them. */
  method ExtendHeap<G>(batch: BatchHeap<G>, count: nat, limbs: nat, ghost v: seq<int>) returns (m1: nat, m2: nat)
    requires batch.IsHeap() && 3 <= batch.size <= count <= batch.heap.Length && ScalarVals(batch) == v
    requires 2 <= limbs <= 4 && ScalarsOk(batch.scalars[..], batch.size, limbs + 1)
      && ScalarsOk(batch.scalars[..], count, 5)
    requires forall i :: batch.size <= i < count ==> v[i] < TWO128
    modifies batch`size, batch.heap
    ensures batch.IsHeap() && batch.size == count
    ensures ScalarsOk(batch.scalars[..], count, limbs + 1)
    ensures m1 == batch.heap[0] && Top2(v, count, m1, m2)
  {
    WindowCovers128(batch.scalars[..], batch.size, count, limbs);
    batch.Extend(count);
    m1, m2 := batch.GetTop2(limbs);
    Top2Vals(batch.scalars[..], count, m1, m2);
  }

  lemma RunIterates<G(!new)>(g: Ops<G>, v0: seq<int>, p0: seq<G>, v: seq<int>, p: seq<G>, k: nat, count: nat,
                             extended: bool, ext: bool, initial: bool, a: nat, b: nat,
                             max1: nat, max2: nat, m1: nat, m2: nat)
    requires Abelian(g) && Run(g, v0, p0, v, p, k, count, extended, initial, a, b)
    requires forall i :: k <= i < count ==> v0[i] < TWO128
    requires Top2(v, if extended then count else k, max1, max2) && v[max2] > 0
    requires ext == (extended || v[max1] < TWO128)
    requires Top2(v, if ext then count else k, m1, m2)
    ensures Run(g, v0, p0, v[m1 := v[m1] - v[m2]], p[m2 := Add(g, p[m2], p[m1])], k, count, ext, false, m1, m2)
    ensures 0 <= Sum(v[m1 := v[m1] - v[m2]], count) < Sum(v, count)
  {
    if ext && !extended {
      RunExtends(g, v0, p0, v, p, k, count, initial, a, b, max1, max2);
    }
    RunStep(g, v0, p0, v, p, k, count, ext, initial, a, b, m1, m2);
  }

  /** The two largest scalars, and whether the second is zero. */
  method Largest<G>(batch: BatchHeap<G>, limbsize: nat, ghost count: nat) returns (max1: nat, max2: nat, done: bool)
    requires batch.IsHeap() && batch.size >= 3 && Windowed(batch.scalars[..], batch.size, count, limbsize)
    ensures max1 == batch.heap[0] && Top2(ScalarVals(batch), batch.size, max1, max2)
    ensures done <==> ScalarVals(batch)[max2] == 0
  {
    WindowedOk(batch.scalars[..], batch.size, count, limbsize);
    max1, max2 := batch.GetTop2(limbsize);
    Top2Vals(batch.scalars[..], batch.size, max1, max2);
    done := IsZero256Batch(batch.scalars[max2]);
  }

  /** One iteration that does not exit: narrow the window, extend the heap once, subtract. */
  method Iterate<G>(g: Ops<G>, batch: BatchHeap<G>, count: nat, limbsize: nat, extended: bool, max1: nat, max2: nat,
                    ghost v: seq<int>, ghost p: seq<G>)
    returns (limbs: nat, ext: bool, m1: nat, m2: nat)
    requires batch.IsHeap() && 3 <= batch.size <= count <= batch.heap.Length && batch.size % 2 == 1 && count % 2 == 1
    requires ScalarVals(batch) == v && batch.points[..] == p
    requires Windowed(batch.scalars[..], batch.size, count, limbsize)
    requires max1 == batch.heap[0] && Top2(v, batch.size, max1, max2) && v[max2] > 0
    requires !extended ==> limbsize == 4 || (limbsize >= 2 && 2 * v[max1] >= TWO128)
    requires !extended ==> forall i :: batch.size <= i < count ==> v[i] < TWO128
    modifies batch`size, batch.heap, batch.scalars, batch.points
    ensures batch.IsHeap() && batch.size == (if ext && !extended then count else old(batch.size))
    ensures Windowed(batch.scalars[..], batch.size, count, limbs)
    ensures ext == (extended || v[max1] < TWO128) && (!ext ==> limbs >= 2)
    ensures Top2(v, batch.size, m1, m2)
    ensures ScalarVals(batch) == v[m1 := v[m1] - v[m2]]
    ensures batch.points[..] == p[m2 := Add(g, p[m2], p[m1])]
  {
    m1, m2, ext := max1, max2, extended;
    WindowedOk(batch.scalars[..], batch.size, count, limbsize);
    limbs := Narrow(batch, limbsize, extended, max1, max2, v);
    AtMost128Bits(batch.scalars[max1]);
    if !extended && IsAtMost128Bits(batch.scalars[max1]) {
      m1, m2 := ExtendHeap(batch, count, limbs, v);
      ext := true;
    }
    Step(g, batch, m1, m2, limbs, v, p, count);
    WindowedOk(batch.scalars[..], batch.size, count, limbs);
  }

  /** An iteration keeps Run and makes the total smaller. */
  method Advance<G(!new)>(g: Ops<G>, batch: BatchHeap<G>, count: nat, limbsize: nat, extended: bool, max1: nat,
                          max2: nat, ghost v0: seq<int>, ghost p0: seq<G>, ghost v: seq<int>, ghost p: seq<G>,
                          ghost initial: bool, ghost a: nat, ghost b: nat)
    returns (limbs: nat, ext: bool, ghost v': seq<int>, ghost p': seq<G>, ghost a': nat, ghost b': nat)
    requires Abelian(g) && count % 2 == 1 && count <= batch.heap.Length
    requires batch.IsHeap() && batch.size == (if extended then count else InitialSize(count))
    requires Windowed(batch.scalars[..], batch.size, count, limbsize)
    requires ScalarVals(batch) == v && batch.points[..] == p
    requires Run(g, v0, p0, v, p, InitialSize(count), count, extended, initial, a, b)
    requires forall i :: InitialSize(count) <= i < count ==> v0[i] < TWO128
    requires !extended ==> limbsize == 4 || (limbsize >= 2 && !initial)
    requires max1 == batch.heap[0] && Top2(v, batch.size, max1, max2) && v[max2] > 0
    modifies batch`size, batch.heap, batch.scalars, batch.points
    ensures batch.IsHeap() && batch.size == (if ext then count else InitialSize(count))
    ensures Windowed(batch.scalars[..], batch.size, count, limbs)
    ensures ScalarVals(batch) == v' && batch.points[..] == p'
    ensures Run(g, v0, p0, v', p', InitialSize(count), count, ext, false, a', b')
    ensures !ext ==> limbs >= 2
    ensures 0 <= Sum(v', count) < Sum(v, count)
  {
    var m1, m2;
    limbs, ext, m1, m2 := Iterate(g, batch, count, limbsize, extended, max1, max2, v, p);
    RunIterates(g, v0, p0, v, p, InitialSize(count), count, extended, ext, initial, a, b, max1, max2, m1, m2);
    v', p', a', b' := v[m1 := v[m1] - v[m2]], p[m2 := Add(g, p[m2], p[m1])], m1, m2;
  }

  /** One turn of the loop: find the two largest scalars and, unless the second is zero, iterate. */
  method Turn<G(!new)>(g: Ops<G>, batch: BatchHeap<G>, count: nat, limbsize: nat, extended: bool, ghost v0: seq<int>,
                       ghost p0: seq<G>, ghost v: seq<int>, ghost p: seq<G>, ghost initial: bool, ghost a: nat,
                       ghost b: nat)
    returns (max1: nat, done: bool, limbs: nat, ext: bool, ghost v': seq<int>, ghost p': seq<G>,
             ghost a': nat, ghost b': nat)
    requires Abelian(g) && count % 2 == 1 && count <= batch.heap.Length
    requires batch.IsHeap() && batch.size == (if extended then count else InitialSize(count))
    requires Windowed(batch.scalars[..], batch.size, count, limbsize)
    requires ScalarVals(batch) == v && batch.points[..] == p
    requires Run(g, v0, p0, v, p, InitialSize(count), count, extended, initial, a, b)
    requires forall i :: InitialSize(count) <= i < count ==> v0[i] < TWO128
    requires !extended ==> limbsize == 4 || (limbsize >= 2 && !initial)
    modifies batch`size, batch.heap, batch.scalars, batch.points
    ensures batch.IsHeap() && batch.size == (if ext then count else InitialSize(count))
    ensures Windowed(batch.scalars[..], batch.size, count, limbs)
    ensures ScalarVals(batch) == v' && batch.points[..] == p'
    ensures !done ==> Run(g, v0, p0, v', p', InitialSize(count), count, ext, false, a', b')
    ensures !done ==> (!ext ==> limbs >= 2) && 0 <= Sum(v', count) < Sum(v, count)
    ensures done ==> v' == v && p' == p && ext == extended && a' == a && b' == b
    ensures done ==> max1 < batch.size && forall i :: 0 <= i < batch.size && i != max1 ==> v[i] == 0
  {
    limbs, ext, v', p', a', b' := limbsize, extended, v, p, a, b;
    var max2;
    max1, max2, done := Largest(batch, limbsize, count);
    if !done {
      limbs, ext, v', p', a', b' :=
        Advance(g, batch, count, limbsize, extended, max1, max2, v0, p0, v, p, initial, a, b);
    }
  }

  method Loop<G(!new)>(g: Ops<G>, batch: BatchHeap<G>, count: nat, ghost v0: seq<int>, ghost p0: seq<G>)
    returns (max1: nat, extended: bool, ghost v: seq<int>, ghost p: seq<G>, ghost initial: bool,
             ghost a: nat, ghost b: nat, ghost limbs: nat)
    requires Abelian(g) && batch.IsHeap() && 3 <= count <= batch.heap.Length && count % 2 == 1
      && batch.size == InitialSize(count)
    requires ScalarsOk(batch.scalars[..], count, 5) && ScalarVals(batch) == v0 && batch.points[..] == p0
    requires forall i :: InitialSize(count) <= i < count ==> v0[i] < TWO128
    requires NonNegative(v0, count)
    modifies batch`size, batch.heap, batch.scalars, batch.points
    ensures batch.Shape() && Windowed(batch.scalars[..], batch.size, count, limbs)
    ensures ScalarVals(batch) == v && batch.points[..] == p
    ensures Run(g, v0, p0, v, p, InitialSize(count), count, extended, initial, a, b)
    ensures max1 < batch.size == if extended then count else InitialSize(count)
    ensures forall i :: 0 <= i < batch.size && i != max1 ==> v[i] == 0
  {
    var limbsize := 4;
    extended := false;
    RunStart(g, v0, p0, InitialSize(count), count);
    WindowedOk(batch.scalars[..], batch.size, count, 4);
    v, p, initial, a, b := v0, p0, true, 0, 0;
    while true
      invariant batch.IsHeap() && batch.size == (if extended then count else InitialSize(count))
      invariant Windowed(batch.scalars[..], batch.size, count, limbsize)
      invariant ScalarVals(batch) == v && batch.points[..] == p
      invariant Run(g, v0, p0, v, p, InitialSize(count), count, extended, initial, a, b)
      invariant !extended ==> limbsize == 4 || (limbsize >= 2 && !initial)
      decreases Sum(v, count)
    {
      var done;
      max1, done, limbsize, extended, v, p, a, b :=
        Turn(g, batch, count, limbsize, extended, v0, p0, v, p, initial, a, b);
      if done {
        break;
      }
      initial := false;
    }
    limbs := limbsize;
  }

  /** At the exit the one scalar left is the gcd and carries the whole sum; extension is decided. */
  lemma RunEnds<G(!new)>(g: Ops<G>, v0: seq<int>, p0: seq<G>, v: seq<int>, p: seq<G>, k: nat, count: nat,
                   extended: bool, initial: bool, a: nat, b: nat, max1: nat)
    requires Abelian(g) && Run(g, v0, p0, v, p, k, count, extended, initial, a, b)
    requires var n := if extended then count else k; max1 < n && forall i :: 0 <= i < n && i != max1 ==> v[i] == 0
    ensures var n := if extended then count else k;
      Mul(g, v[max1], p[max1]) == Weighted(g, v0, p0, n) && v[max1] == GcdOf(v0, n)
    ensures extended <==> WillExtend(v0, k)
  {
    var n := if extended then count else k;
    WeightedOfLast(g, v, p, n, max1);
    GcdOfLast(v, n, max1);
    if !extended && !initial {
      assert v[b] >= TWO128;
    }
  }

  /** Subtractive Euclid over the batch, until at most one scalar is left. */
  method Reduce<G(!new)>(g: Ops<G>, batch: BatchHeap<G>, count: nat) returns (max1: nat, extended: bool)
    requires Abelian(g) && Ready(batch, count)
    modifies batch`size, batch.heap, batch.scalars, batch.points
    ensures ScalarsOk(batch.scalars[..], count, 5) && batch.Shape()
    ensures max1 < batch.size == if extended then count else InitialSize(count)
    ensures forall i :: 0 <= i < batch.size && i != max1 ==> ScalarVals(batch)[i] == 0
    ensures old(NonNegative(ScalarVals(batch), count))
    ensures var n := batch.size;
      && Mul(g, ScalarVals(batch)[max1], batch.points[max1]) == old(Weighted(g, ScalarVals(batch), batch.points[..], n))
      && ScalarVals(batch)[max1] == old(GcdOf(ScalarVals(batch), n))
    ensures extended <==> old(WillExtend(ScalarVals(batch), InitialSize(count)))
  {
    ghost var v0, p0 := ScalarVals(batch), batch.points[..];
    ValsNonNegative(batch.scalars[..], count);
    assert forall i :: InitialSize(count) <= i < count ==> v0[i] < TWO128;
    batch.Build(InitialSize(count));
    ghost var v, p, initial, a, b, limbs;
    max1, extended, v, p, initial, a, b, limbs := Loop(g, batch, count, v0, p0);
    WindowedOk(batch.scalars[..], batch.size, count, limbs);
    RunEnds(g, v0, p0, v, p, InitialSize(count), count, extended, initial, a, b, max1);
  }
}
