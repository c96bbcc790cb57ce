/** ed25519_sign_open_batch: batches of 4 to 64 signatures, with individual opening as the fallback and for the tail. */
module BatchOpen {
  import opened Words
  import opened Modm
  import opened BatchHeap
  import opened AbelianGroup
  import opened WeightedSum
  import opened Gcd
  import opened BosCoster
  import opened Ladder
  import opened MultiScalarmult
  import opened Sha512
  import opened KeyBytes
  import opened SignOpen
  import opened BatchEquation
  import opened BatchFill

  const MAX_BATCH: nat := 64

  /**
   How a batch ended: a point did not decode, the final ladder read outside the last scalar, the sum
   was not neutral, or it was.
   */
  datatype Outcome = Undecodable | Undefined | Unbalanced | Balanced

  ghost function OutcomeOf<G>(g: Ops<G>, r: Reached<G>): Outcome {
    if r == OutOfRange then Undefined else if r == Point(g.zero) then Balanced else Unbalanced
  }

  // ---------- one batch ----------

  lemma {:induction false} GcdOfPrefix(v: seq<int>, w: seq<int>, n: nat)
    requires n <= |v| && n <= |w| && forall i :: 0 <= i < n ==> v[i] == w[i] >= 0
    ensures GcdOf(v, n) == GcdOf(w, n)
  {
    if n > 0 {
      GcdOfPrefix(v, w, n - 1);
    }
  }

  lemma SameNonzero(v: seq<int>, w: seq<int>, k: nat)
    requires k <= |v| && k <= |w| && forall i :: 0 <= i < k ==> v[i] == w[i]
    ensures TwoNonzero(v, k) <==> TwoNonzero(w, k)
  {
  }

  /** Only the first `count` scalars matter. */
  lemma PrefixDecides(v: seq<int>, w: seq<int>, count: nat)
    requires count >= 3 && count % 2 == 1 && NonNegative(v, count) && count == |w|
      && forall i :: 0 <= i < count ==> v[i] == w[i]
    ensures NonNegative(w, count)
    ensures WillExtend(v, InitialSize(count)) <==> WillExtend(w, InitialSize(count))
    ensures Covered(v, count) == Covered(w, count) && GcdOf(v, Covered(v, count)) == GcdOf(w, Covered(w, count))
    ensures LadderSafe(v, count) <==> LadderSafe(w, count)
  {
    var k := InitialSize(count);
    GcdOfPrefix(v, w, k);
    SameNonzero(v, w, k);
    GcdOfPrefix(v, w, Covered(v, count));
  }

  /** The scalars of a batch are naturals. */
  lemma BatchValsNatural(h: HashFn, b: seq<Item>)
    ensures NonNegative(BatchVals(h, b), Count(b))
  {
    var v, n := BatchVals(h, b), |b|;
    forall k | 0 <= k < 2 * n + 1 ensures v[k] >= 0 {
      if 0 < k <= n {
        assert v[k] == KeyScalars(h, b)[k - 1];
      } else if n < k {
        assert v[k] == Zs(b)[k - 1 - n];
      }
    }
  }

  /** The heap takes in the 128-bit scalars. */
  ghost predicate Extends(h: HashFn, b: seq<Item>)
    requires |b| >= 1
  {
    WillExtend(BatchVals(h, b), InitialSize(Count(b)))
  }

  /** The final ladder stays within the limbs of the last scalar. */
  ghost predicate Safe(h: HashFn, b: seq<Item>)
    requires |b| >= 1
  {
    LadderSafe(BatchVals(h, b), Count(b))
  }

  /**
   The test in full: for d, the gcd of the scalars covered, and a point q that carries their sum,
   the ladder's result.
   */
  ghost predicate SumTest<G(!new)>(g: Ops<G>, v: seq<int>, p: seq<G>, count: nat, o: Outcome)
    requires |v| == |p| == count >= 3 && count % 2 == 1
  {
    var n := Covered(v, count);
    exists q {:trigger FinalPoint(g, GcdOf(v, n), q)} ::
      Mul(g, GcdOf(v, n), q) == Weighted(g, v, p, n) && o == OutcomeOf(g, FinalPoint(g, GcdOf(v, n), q))
  }

  ghost predicate NeutralTest<G(!new)>(c: Curve<G>, h: HashFn, b: seq<Item>, o: Outcome)
    requires |b| >= 1
  {
    SumTest(c.g, BatchVals(h, b), BatchPoints(c, b), Count(b), o)
  }

  /** The sum over the scalars that the run takes in. */
  ghost function CoveredSum<G>(c: Curve<G>, h: HashFn, b: seq<Item>): G
    requires |b| >= 1
  {
    Weighted(c.g, BatchVals(h, b), BatchPoints(c, b), Covered(BatchVals(h, b), Count(b)))
  }

  /** The run accounts for all scalars: it extends, or what it would extend to is zero. */
  ghost predicate Complete(h: HashFn, b: seq<Item>)
    requires |b| >= 1
  {
    Accounted(BatchVals(h, b), Count(b))
  }

  /** A run that extends is complete and safe. */
  lemma ExtendingIsComplete(h: HashFn, b: seq<Item>)
    requires |b| >= 1 && Extends(h, b)
    ensures Complete(h, b) && Safe(h, b)
  {
    BatchValsNatural(h, b);
    var v, n := BatchVals(h, b), Count(b);
    assert Extends(h, b) == WillExtend(v, InitialSize(n));
    ExtendingIsSafe(v, n);
    assert Safe(h, b) == LadderSafe(v, n);
    assert Complete(h, b) == Accounted(v, n);
  }

  /** A complete run covers the whole sum. */
  lemma CompleteCovers<G(!new)>(c: Curve<G>, h: HashFn, b: seq<Item>)
    requires |b| >= 1 && Abelian(c.g) && Complete(h, b)
    ensures CoveredSum(c, h, b) == BatchSum(c, h, b)
  {
    assert Complete(h, b) == Accounted(BatchVals(h, b), Count(b));
    AccountedIsWhole(c.g, BatchVals(h, b), BatchPoints(c, b), Count(b));
  }

  /** What the outcome of a batch means: each outcome exactly under its condition. */
  ghost predicate OutcomeOk<G(!new)>(c: Curve<G>, h: HashFn, b: seq<Item>, o: Outcome)
    requires |b| >= 1
  {
    && (o == Undecodable <==> !AllDecode(c, b))
    && (o == Undefined <==> AllDecode(c, b) && !Safe(h, b))
    && (o != Undecodable ==> NeutralTest(c, h, b, o))
    && (o != Undecodable && o != Undefined && OnlySmallTorsion8(c.g, M) ==>
      (o == Balanced <==> CoveredSum(c, h, b) == c.g.zero))
  }

  /** In terms of the signatures: the neutral test passes exactly when the weighted defects and the offsets cancel. */
  lemma BalancedMeans<G(!new)>(c: Curve<G>, h: HashFn, b: seq<Item>, o: Outcome)
    requires |b| >= 1 && GoodCurve(c) && OnlySmallTorsion8(c.g, M) && OutcomeOk(c, h, b, o)
    requires AllDecode(c, b) && Complete(h, b) && Safe(h, b)
    ensures o == Balanced <==> Add(c.g, DefectSum(c, h, b), OffsetSum(c, h, b)) == c.g.zero
    ensures (forall i :: 0 <= i < |b| ==> KeyInSubgroup(c, b[i])) ==>
      (o == Balanced <==> DefectSum(c, h, b) == c.g.zero)
  {
    CompleteCovers(c, h, b);
    BatchSumIsDefects(c, h, b);
  }

  ghost predicate Opens<G>(c: Curve<G>, h: HashFn, it: Item) {
    |it.rs| == 64 && Accepts(c, h, it.m, it.pk, it.rs)
  }

  /** A batch of signatures that are all accepted one by one is balanced exactly when its offsets cancel. */
  lemma AcceptedBalances<G(!new)>(c: Curve<G>, h: HashFn, b: seq<Item>, o: Outcome)
    requires |b| >= 1 && GoodItems(b) && GoodCurve(c) && OnlySmallTorsion8(c.g, M) && OutcomeOk(c, h, b, o)
      && Complete(h, b) && Safe(h, b)
    requires forall i :: 0 <= i < |b| ==> Opens(c, h, b[i])
    ensures o == if OffsetSum(c, h, b) == c.g.zero then Balanced else Unbalanced
  {
    CompleteCovers(c, h, b);
    AcceptedBatchVanishes(c, h, b);
  }

  /** The scalars of a batch are below m, the random ones below 2^128. */
  lemma BatchValsBounds(h: HashFn, b: seq<Item>)
    requires GoodItems(b)
    ensures forall k :: 0 <= k < Count(b) ==> BatchVals(h, b)[k] < M
    ensures forall k :: |b| + 1 <= k < Count(b) ==> BatchVals(h, b)[k] < TWO128
  {
    var v, n := BatchVals(h, b), |b|;
    forall k | 0 <= k < 2 * n + 1 ensures v[k] < M && (k > n ==> v[k] < TWO128) {
      if 0 < k <= n {
        assert v[k] == KeyScalars(h, b)[k - 1] == KeyScalar(h, b[k - 1]);
      } else if n < k {
        assert v[k] == Zs(b)[k - 1 - n] == Z(b[k - 1 - n]);
        assert GoodItem(b[k - 1 - n]);
        ZBound(b[k - 1 - n]);
      }
    }
  }

  /** The gcd of numbers below m is below m. */
  lemma GcdBelow(v: seq<int>, n: nat, m: int)
    requires 0 < n <= |v| && forall i :: 0 <= i < n ==> 0 <= v[i] < m
    ensures GcdOf(v, n) < m
  {
    if i :| 0 <= i < n && v[i] > 0 {
      GcdAtMost(v, n, i);
    } else {
      GcdOfLast(v, n, 0);
    }
  }

  lemma HeldVals(s: seq<seq<int>>, v: seq<int>)
    requires AllHold(s, v)
    ensures ScalarsOk(s, |v|, 5) && Vals(s)[..|v|] == v
  {
    forall k | 0 <= k < |v| ensures Limbs(s[k], B) && Vals(s)[k] == v[k] {
      assert Holds(s[k], v[k]);
    }
  }

  lemma HalfInHeap(n: nat, count: nat)
    requires count == 2 * n + 1
    ensures InitialSize(count) >= n + 1
  {
  }

  /** The scalars in the heap's array are the batch's, so the multi-scalar multiplication may be called. */
  lemma ReadyBatch<G>(batch: BatchHeap<G>, v: seq<int>, n: nat, count: nat)
    requires count == 2 * n + 1 && count % 2 == 1 && count >= 3 && batch.Shape() && |v| == count <= batch.heap.Length
    requires AllHold(batch.scalars[..], v) && forall k :: n + 1 <= k < count ==> v[k] < TWO128
    ensures Ready(batch, count) && ScalarVals(batch)[..count] == v
  {
    var s := batch.scalars[..];
    HeldVals(s, v);
    HalfInHeap(n, count);
    forall k | InitialSize(count) <= k < count ensures Val(batch.scalars[k]) < TWO128 {
      assert Holds(s[k], v[k]);
    }
  }

  lemma SamePrefix<G>(p: seq<G>, q: seq<G>, n: nat)
    requires n <= |p| && p[..n] == q
    ensures forall k :: 0 <= k < n ==> p[k] == q[k]
  {
    forall k | 0 <= k < n ensures p[k] == q[k] {
      assert p[..n][k] == q[k];
    }
  }

  /** The multiplication reads the first `count` entries only. */
  method RunPrefix<G(==, !new)>(g: Ops<G>, batch: BatchHeap<G>, count: nat, ghost w: seq<int>, ghost pts: seq<G>)
    returns (o: Outcome)
    requires Abelian(g) && Ready(batch, count) && |w| == |pts| == count && NonNegative(w, count)
    requires ScalarVals(batch)[..count] == w && batch.points[..count] == pts && forall i :: 0 <= i < count ==> w[i] < M
    modifies batch`size, batch.heap, batch.scalars, batch.points
    ensures batch.Shape() && o != Undecodable && SumTest(g, w, pts, count, o)
    ensures o == Undefined <==> !LadderSafe(w, count)
    ensures o != Undefined && OnlySmallTorsion8(g, M) ==>
      (o == Balanced <==> Weighted(g, w, pts, Covered(w, count)) == g.zero)
  {
    ghost var v, p := ScalarVals(batch), batch.points[..];
    SamePrefix(v, w, count);
    SamePrefix(p, pts, count);
    PrefixDecides(v, w, count);
    WeightedAgrees(g, v, p, w, pts, Covered(w, count));
    GcdBelow(w, Covered(w, count), M);
    var r, extended, q := MultiScalarmultVartime(g, batch, count, v, p);
    o := if r == OutOfRange then Undefined else if r == Point(g.zero) then Balanced else Unbalanced;
  }

  /** The multi-scalar multiplication of a filled batch, and the neutral test. */
  method RunBatch<G(==, !new)>(c: Curve<G>, batch: BatchHeap<G>, b: seq<Item>, ghost h: HashFn) returns (o: Outcome)
    requires GoodCurve(c) && GoodItems(b) && |b| >= 1 && AllDecode(c, b)
    requires batch.Shape() && Count(b) <= batch.heap.Length && AllHold(batch.scalars[..], BatchVals(h, b))
    requires batch.points[..Count(b)] == BatchPoints(c, b)
    modifies batch`size, batch.heap, batch.scalars, batch.points
    ensures batch.Shape() && OutcomeOk(c, h, b, o)
  {
    BatchValsNatural(h, b);
    BatchValsBounds(h, b);
    ReadyBatch(batch, BatchVals(h, b), |b|, Count(b));
    o := RunPrefix(c.g, batch, Count(b), BatchVals(h, b), BatchPoints(c, b));
  }

  method CheckBatch<G(==, !new)>(c: Curve<G>, batch: BatchHeap<G>, b: seq<Item>, ghost f: ShaFn, ghost h: HashFn)
    returns (o: Outcome)
    requires GoodCurve(c) && HashedBy(f, h) && GoodItems(b) && |b| >= 1
    requires batch.Shape() && Count(b) <= batch.heap.Length
    modifies batch`size, batch.heap, batch.scalars, batch.points
    ensures batch.Shape() && OutcomeOk(c, h, b, o)
  {
    FillScalars(batch.scalars, b, f, h);
    var ok := FillPoints(c, batch.points, b);
    if !ok {
      return Undecodable;
    }
    o := RunBatch(c, batch, b, h);
  }

  // ---------- the driver ----------

  /** How many batches n signatures make: full ones, and one more if more than 3 are left. */
  function BatchCount(n: nat): (k: nat)
    ensures 64 * k - 60 <= n <= 64 * k + 3
  {
    n / MAX_BATCH + if n % MAX_BATCH > 3 then 1 else 0
  }

  function Least(a: nat, b: nat): nat {
    if a < b then a else b
  }

  function BatchAt(items: seq<Item>, j: nat): (b: seq<Item>)
    requires j < BatchCount(|items|)
    ensures 4 <= |b| <= 64 && 64 * j + |b| <= |items| && b == items[64 * j..64 * j + |b|]
    ensures |b| < 64 ==> 64 * j + |b| == |items|
    ensures |b| == Least(MAX_BATCH, |items| - MAX_BATCH * j)
    ensures forall i :: 0 <= i < |b| ==> b[i] == items[MAX_BATCH * j + i]
  {
    items[MAX_BATCH * j..Least(MAX_BATCH * (j + 1), |items|)]
  }

  /** No batch sends the final ladder out of range. */
  ghost predicate AllSafe<G(!new)>(c: Curve<G>, h: HashFn, items: seq<Item>) {
    forall j :: 0 <= j < BatchCount(|items|) && AllDecode(c, BatchAt(items, j)) ==> Safe(h, BatchAt(items, j))
  }

  ghost predicate AllOutcomesOk<G(!new)>(c: Curve<G>, h: HashFn, items: seq<Item>, os: seq<Outcome>) {
    && |os| <= BatchCount(|items|)
    && forall j :: 0 <= j < |os| ==> OutcomeOk(c, h, BatchAt(items, j), os[j]) && os[j] != Undefined
  }

  /** Signature i is in a batch whose sum was neutral. */
  predicate InBalanced(os: seq<Outcome>, i: nat) {
    i / MAX_BATCH < |os| && os[i / MAX_BATCH] == Balanced
  }

  /** The verdicts on the signatures from..to: the batch's, or the individual one. */
  ghost predicate Verdicts<G>(c: Curve<G>, h: HashFn, items: seq<Item>, valid: seq<int>, from: nat, to: nat,
                              os: seq<Outcome>) {
    && from <= to <= |items| && to <= |valid|
    && forall i :: from <= i < to ==> valid[i] == if InBalanced(os, i) || Opens(c, h, items[i]) then 1 else 0
  }

  ghost predicate SomeInvalid(valid: seq<int>, n: nat) {
    exists i :: 0 <= i < n && i < |valid| && valid[i] == 0
  }

  ghost predicate SomeUnbalanced(os: seq<Outcome>) {
    exists j :: 0 <= j < |os| && os[j] == Unbalanced
  }

  /** The return code: bit 0 for an invalid signature, bit 1 for an unbalanced batch. */
  function Code(invalid: bool, unbalanced: bool): int {
    (if invalid then 1 else 0) + if unbalanced then 2 else 0
  }

  lemma CodeBits(invalid: bool, unbalanced: bool)
    ensures var r := Code(invalid, unbalanced);
      0 <= r < 4 && (r % 2 == 1 <==> invalid) && ((r / 2) % 2 == 1 <==> unbalanced)
  {
  }

  lemma XorOne(v: nat)
    requires v <= 1
    ensures BitXor(v, 1) == 1 - v
  {
    assert Pow2(1) == 2;
    XorOnes(v, 1);
  }

  /** `ret |= (v ^ 1)` */
  method OrInvalid(ret: nat, v: int, ghost a: bool, ghost b: bool) returns (r: nat)
    requires ret == Code(a, b) && (v == 0 || v == 1)
    ensures r == Code(a || v == 0, b)
  {
    XorOne(v);
    var bit := BitXor(v, 1);
    if bit == 0 {
      OrZeroRight(ret);
    } else {
      OrOne(ret);
    }
    r := BitOr(ret, bit);
  }

  /** `ret |= 2` */
  method OrUnbalanced(ret: nat, ghost a: bool, ghost b: bool) returns (r: nat)
    requires ret == Code(a, b)
    ensures r == Code(a, true)
  {
    OrEven(ret, 1);
    OrOneBit(ret / 2);
    r := BitOr(ret, 2);
  }

  lemma InvalidStep(was: seq<int>, valid: seq<int>, k: nat)
    requires k < |was| == |valid| && valid == was[k := valid[k]]
    ensures SomeInvalid(valid, k + 1) <==> SomeInvalid(was, k) || valid[k] == 0
  {
    if SomeInvalid(was, k) {
      var i :| 0 <= i < k && i < |was| && was[i] == 0;
      assert valid[i] == 0;
    }
    if SomeInvalid(valid, k + 1) && valid[k] != 0 {
      var i :| 0 <= i < k + 1 && i < |valid| && valid[i] == 0;
      assert was[i] == 0;
    }
  }

  lemma InvalidMeans(valid: seq<int>, n: nat)
    requires n <= |valid|
    ensures SomeInvalid(valid, n) <==> exists i :: 0 <= i < n && valid[i] == 0
  {
  }

  /** Open the signatures from..to one by one. */
  method OpenEach<G(!new)>(c: Curve<G>, items: seq<Item>, from: nat, to: nat, valid: array<int>, ret0: nat,
                           ghost f: ShaFn, ghost h: HashFn, ghost b: bool)
    returns (ret: nat)
    requires GoodCurve(c) && HashedBy(f, h) && GoodItems(items) && from <= to <= |items| <= valid.Length
    requires ret0 == Code(SomeInvalid(valid[..], from), b)
    modifies valid
    ensures forall i :: 0 <= i < from ==> valid[i] == old(valid[i])
    ensures forall i :: from <= i < to ==> valid[i] == if Opens(c, h, items[i]) then 1 else 0
    ensures forall i :: to <= i < valid.Length ==> valid[i] == old(valid[i])
    ensures ret == Code(SomeInvalid(valid[..], to), b)
    ensures ret < 4 && ((ret / 2) % 2 == 1 <==> b) && (ret % 2 == 1 <==> exists i :: 0 <= i < to && valid[i] == 0)
  {
    ret := ret0;
    for k := from to to
      invariant forall i :: 0 <= i < from ==> valid[i] == old(valid[i])
      invariant forall i :: from <= i < k ==> valid[i] == if Opens(c, h, items[i]) then 1 else 0
      invariant forall i :: k <= i < valid.Length ==> valid[i] == old(valid[i])
      invariant ret == Code(SomeInvalid(valid[..], k), b)
    {
      assert GoodItem(items[k]);
      var r := Open(c, items[k].m, items[k].pk, items[k].rs, f, h);
      ghost var was := valid[..];
      valid[k] := if r != 0 then 0 else 1;
      InvalidStep(was, valid[..], k);
      ret := OrInvalid(ret, valid[k], SomeInvalid(was, k), b);
    }
    CodeBits(SomeInvalid(valid[..], to), b);
    InvalidMeans(valid[..], to);
  }

  lemma InvalidSame(was: seq<int>, valid: seq<int>, from: nat, to: nat)
    requires from <= to <= |was| == |valid| && forall i :: 0 <= i < from ==> valid[i] == was[i]
    requires forall i :: from <= i < to ==> valid[i] == 1
    ensures SomeInvalid(valid, to) <==> SomeInvalid(was, from)
  {
    if SomeInvalid(was, from) {
      var i :| 0 <= i < from && i < |was| && was[i] == 0;
      assert valid[i] == 0;
    }
    if SomeInvalid(valid, to) {
      var i :| 0 <= i < to && i < |valid| && valid[i] == 0;
      assert was[i] == 0;
    }
  }

  method SetAll(valid: array<int>, n: nat)
    requires n <= valid.Length
    modifies valid
    ensures forall i :: 0 <= i < n ==> valid[i] == 1
  {
    for i := 0 to n
      invariant forall k :: 0 <= k < i ==> valid[k] == 1
    {
      valid[i] := 1;
    }
  }

  /** After |os| batches the signatures below `from` have their verdicts, and the code says so. */
  ghost predicate Progress<G(!new)>(c: Curve<G>, h: HashFn, items: seq<Item>, valid: seq<int>, from: nat, ret: int,
                                    os: seq<Outcome>) {
    && from == Least(MAX_BATCH * |os|, |items|) && (from < MAX_BATCH * |os| ==> |os| == BatchCount(|items|))
    && AllOutcomesOk(c, h, items, os) && Verdicts(c, h, items, valid, 0, from, os) && |items| <= |valid|
    && (forall i :: from <= i < |items| ==> valid[i] == 1)
    && ret == Code(SomeInvalid(valid, from), SomeUnbalanced(os))
  }

  lemma NextBatch(items: seq<Item>, from: nat, size: nat, j: nat)
    requires from == Least(MAX_BATCH * j, |items|) && |items| - from > 3 && size == Least(MAX_BATCH, |items| - from)
    requires from < MAX_BATCH * j ==> j == BatchCount(|items|)
    ensures from == MAX_BATCH * j && j < BatchCount(|items|) && items[from..from + size] == BatchAt(items, j)
    ensures from + size == Least(MAX_BATCH * (j + 1), |items|)
    ensures from + size < MAX_BATCH * (j + 1) ==> j + 1 == BatchCount(|items|)
  {
  }

  lemma NextVerdicts<G>(c: Curve<G>, h: HashFn, items: seq<Item>, was: seq<int>, valid: seq<int>, from: nat, to: nat,
                        os: seq<Outcome>, o: Outcome)
    requires Verdicts(c, h, items, was, 0, from, os) && from <= to <= |items| <= |valid| == |was|
    requires from == MAX_BATCH * |os| && to <= MAX_BATCH * (|os| + 1)
    requires forall i :: 0 <= i < from ==> valid[i] == was[i]
    requires forall i :: from <= i < to ==> valid[i] == if o == Balanced || Opens(c, h, items[i]) then 1 else 0
    ensures Verdicts(c, h, items, valid, 0, to, os + [o])
    ensures SomeUnbalanced(os + [o]) <==> SomeUnbalanced(os) || o == Unbalanced
  {
    var os' := os + [o];
    forall i | 0 <= i < to ensures valid[i] == if InBalanced(os', i) || Opens(c, h, items[i]) then 1 else 0 {
      if i < from {
        assert InBalanced(os', i) <==> InBalanced(os, i);
      } else {
        assert i / MAX_BATCH == |os|;
      }
    }
    if SomeUnbalanced(os) {
      var j :| 0 <= j < |os| && os[j] == Unbalanced;
      assert os'[j] == Unbalanced;
    }
    assert os'[|os|] == o;
  }

  lemma NextOutcomes<G(!new)>(c: Curve<G>, h: HashFn, items: seq<Item>, os: seq<Outcome>, o: Outcome)
    requires AllOutcomesOk(c, h, items, os) && |os| < BatchCount(|items|)
    requires OutcomeOk(c, h, BatchAt(items, |os|), o) && o != Undefined
    ensures AllOutcomesOk(c, h, items, os + [o])
  {
    var os' := os + [o];
    forall j | 0 <= j < |os'| ensures OutcomeOk(c, h, BatchAt(items, j), os'[j]) && os'[j] != Undefined {
      if j < |os| {
        assert OutcomeOk(c, h, BatchAt(items, j), os'[j]) == OutcomeOk(c, h, BatchAt(items, j), os[j]);
      }
    }
  }

  lemma NextProgress<G(!new)>(c: Curve<G>, h: HashFn, items: seq<Item>, was: seq<int>, valid: seq<int>, from: nat,
                              to: nat, ret0: int, ret: int, os: seq<Outcome>, o: Outcome)
    requires Progress(c, h, items, was, from, ret0, os) && |valid| == |was| && |os| < BatchCount(|items|)
    requires from == MAX_BATCH * |os| && to == Least(MAX_BATCH * (|os| + 1), |items|)
    requires to < MAX_BATCH * (|os| + 1) ==> |os| + 1 == BatchCount(|items|)
    requires OutcomeOk(c, h, BatchAt(items, |os|), o) && o != Undefined
    requires forall i :: 0 <= i < from ==> valid[i] == was[i]
    requires forall i :: from <= i < to ==> valid[i] == if o == Balanced || Opens(c, h, items[i]) then 1 else 0
    requires forall i :: to <= i < |items| ==> valid[i] == 1
    requires ret == Code(SomeInvalid(valid, to), SomeUnbalanced(os) || o == Unbalanced)
    ensures Progress(c, h, items, valid, to, ret, os + [o])
  {
    NextOutcomes(c, h, items, os, o);
    NextVerdicts(c, h, items, was, valid, from, to, os, o);
  }

  /** After the check of a batch: its signatures one by one, unless it was balanced. */
  method Settle<G(==, !new)>(c: Curve<G>, items: seq<Item>, from: nat, to: nat, valid: array<int>, ret0: nat,
                             o: Outcome, ghost f: ShaFn, ghost h: HashFn, ghost bad: bool)
    returns (ret: nat)
    requires GoodCurve(c) && HashedBy(f, h) && GoodItems(items) && from <= to <= |items| <= valid.Length
    requires ret0 == Code(SomeInvalid(valid[..], from), bad) && forall i :: from <= i < to ==> valid[i] == 1
    modifies valid
    ensures forall i :: 0 <= i < from || to <= i < valid.Length ==> valid[i] == old(valid[i])
    ensures forall i :: from <= i < to ==> valid[i] == if o == Balanced || Opens(c, h, items[i]) then 1 else 0
    ensures ret == Code(SomeInvalid(valid[..], to), bad || o == Unbalanced)
  {
    ret := ret0;
    if o == Unbalanced {
      ret := OrUnbalanced(ret, SomeInvalid(valid[..], from), bad);
    }
    if o != Balanced {
      ret := OpenEach(c, items, from, to, valid, ret, f, h, bad || o == Unbalanced);
    } else {
      InvalidSame(valid[..], valid[..], from, to);
    }
  }

  /** One batch: check it as a whole, and open its signatures one by one if that fails. */
  method OneBatch<G(==, !new)>(c: Curve<G>, batch: BatchHeap<G>, items: seq<Item>, from: nat, size: nat,
                               valid: array<int>, ret0: nat, ghost f: ShaFn, ghost h: HashFn, ghost bad: bool)
    returns (ret: nat, o: Outcome)
    requires GoodCurve(c) && HashedBy(f, h) && GoodItems(items) && from + size <= |items| <= valid.Length && 1 <= size
    requires batch.Shape() && 2 * size + 1 <= batch.heap.Length
    requires ret0 == Code(SomeInvalid(valid[..], from), bad)
    requires forall i :: from <= i < |items| ==> valid[i] == 1
    requires valid as object !in {batch.heap as object, batch.scalars as object, batch.points as object}
    modifies valid, batch`size, batch.heap, batch.scalars, batch.points
    ensures batch.Shape() && OutcomeOk(c, h, items[from..from + size], o)
    ensures forall i :: 0 <= i < from ==> valid[i] == old(valid[i])
    ensures o != Undefined ==>
      forall i :: from <= i < from + size ==> valid[i] == if o == Balanced || Opens(c, h, items[i]) then 1 else 0
    ensures forall i :: from + size <= i < |items| ==> valid[i] == 1
    ensures o != Undefined ==> ret == Code(SomeInvalid(valid[..], from + size), bad || o == Unbalanced)
  {
    o := CheckBatch(c, batch, items[from..from + size], f, h);
    ret := ret0;
    if o != Undefined {
      ret := Settle(c, items, from, from + size, valid, ret0, o, f, h, bad);
    }
  }

  method NextBatchOf<G(==, !new)>(c: Curve<G>, batch: BatchHeap<G>, items: seq<Item>, from: nat, size: nat,
                                  valid: array<int>, ret0: nat, ghost f: ShaFn, ghost h: HashFn, ghost os: seq<Outcome>)
    returns (ret: nat, o: Outcome)
    requires GoodCurve(c) && HashedBy(f, h) && GoodItems(items)
    requires Progress(c, h, items, valid[..], from, ret0, os) && |items| - from > 3
      && size == Least(MAX_BATCH, |items| - from)
    requires batch.Shape() && batch.heap.Length == 2 * MAX_BATCH + 1
    requires valid as object !in {batch.heap as object, batch.scalars as object, batch.points as object}
    modifies valid, batch`size, batch.heap, batch.scalars, batch.points
    ensures batch.Shape()
    ensures o == Undefined ==> !AllSafe(c, h, items)
    ensures o != Undefined ==> Progress(c, h, items, valid[..], from + size, ret, os + [o])
  {
    ghost var was := valid[..];
    NextBatch(items, from, size, |os|);
    ret, o := OneBatch(c, batch, items, from, size, valid, ret0, f, h, SomeUnbalanced(os));
    if o != Undefined {
      NextProgress(c, h, items, was, valid[..], from, from + size, ret0, ret, os, o);
    }
  }

  /** When all batches have been gone through, none was undefined. */
  lemma ProgressIsSafe<G(!new)>(c: Curve<G>, h: HashFn, items: seq<Item>, valid: seq<int>, from: nat, ret: int,
                                os: seq<Outcome>)
    requires Progress(c, h, items, valid, from, ret, os) && |items| - from <= 3
    ensures |os| == BatchCount(|items|) && AllSafe(c, h, items)
  {
  }

  /** `while (num > 3)` */
  method AllBatches<G(==, !new)>(c: Curve<G>, items: seq<Item>, valid: array<int>, ghost f: ShaFn, ghost h: HashFn)
    returns (defined: bool, from: nat, ret: nat, ghost os: seq<Outcome>)
    requires GoodCurve(c) && HashedBy(f, h) && GoodItems(items) && |items| <= valid.Length
    requires forall i :: 0 <= i < |items| ==> valid[i] == 1
    modifies valid
    ensures defined <==> AllSafe(c, h, items)
    ensures defined ==> Progress(c, h, items, valid[..], from, ret, os) && |items| - from <= 3
  {
    var batch := new BatchHeap<G>(2 * MAX_BATCH + 1, c.base);
    ret, os := 0, [];
    from := 0;
    var num := |items|;
    while num > 3
      invariant batch.Shape() && fresh(batch) && fresh(batch.heap) && fresh(batch.scalars) && fresh(batch.points)
      invariant batch.heap.Length == 2 * MAX_BATCH + 1
      invariant Progress(c, h, items, valid[..], from, ret, os) && num == |items| - from
    {
      var batchsize := if num > MAX_BATCH then MAX_BATCH else num;
      var o;
      ret, o := NextBatchOf(c, batch, items, from, batchsize, valid, ret, f, h, os);
      if o == Undefined {
        return false, from, ret, os;
      }
      os := os + [o];
      from := from + batchsize;
      num := num - batchsize;
    }
    defined := true;
    ProgressIsSafe(c, h, items, valid[..], from, ret, os);
  }

  lemma TailVerdicts<G>(c: Curve<G>, h: HashFn, items: seq<Item>, was: seq<int>, valid: seq<int>, from: nat,
                        os: seq<Outcome>)
    requires Verdicts(c, h, items, was, 0, from, os) && |items| <= |valid| == |was|
    requires from == Least(MAX_BATCH * |os|, |items|)
    requires forall i :: 0 <= i < from ==> valid[i] == was[i]
    requires forall i :: from <= i < |items| ==> valid[i] == if Opens(c, h, items[i]) then 1 else 0
    ensures forall i :: 0 <= i < |items| ==> valid[i] == if InBalanced(os, i) || Opens(c, h, items[i]) then 1 else 0
  {
    forall i | 0 <= i < |items| ensures valid[i] == if InBalanced(os, i) || Opens(c, h, items[i]) then 1 else 0 {
      if i >= from {
        assert i / MAX_BATCH >= |os|;
      }
    }
  }

  lemma CodeZero(valid: seq<int>, n: nat, os: seq<Outcome>, ret: nat)
    requires n <= |valid| && (forall i :: 0 <= i < n ==> valid[i] == 0 || valid[i] == 1)
    requires ret == Code(SomeInvalid(valid, n), SomeUnbalanced(os))
    ensures ret < 4 && (ret % 2 == 1 <==> exists i :: 0 <= i < n && valid[i] == 0)
    ensures (ret / 2) % 2 == 1 <==> exists j :: 0 <= j < |os| && os[j] == Unbalanced
    ensures ret == 0 <==>
      (forall i :: 0 <= i < n ==> valid[i] == 1) && forall j :: 0 <= j < |os| ==> os[j] != Unbalanced
  {
    CodeBits(SomeInvalid(valid, n), SomeUnbalanced(os));
    InvalidMeans(valid, n);
  }

  /**
   ed25519_sign_open_batch.  The call is defined exactly when no batch sends the final ladder out of
   range.  Then every signature is in exactly one batch or in the tail of at most 3; it gets its
   batch's verdict if the batch was balanced, and its own otherwise.
   */
  method SignOpenBatch<G(==, !new)>(c: Curve<G>, items: seq<Item>, valid: array<int>, ghost f: ShaFn, ghost h: HashFn)
    returns (defined: bool, ret: nat, ghost os: seq<Outcome>)
    requires GoodCurve(c) && HashedBy(f, h) && GoodItems(items) && |items| <= valid.Length
    modifies valid
    ensures defined <==> AllSafe(c, h, items)
    ensures defined ==> |os| == BatchCount(|items|) && AllOutcomesOk(c, h, items, os)
    ensures defined ==>
      forall i :: 0 <= i < |items| ==> valid[i] == if InBalanced(os, i) || Opens(c, h, items[i]) then 1 else 0
    ensures defined ==> ret == Code(SomeInvalid(valid[..], |items|), SomeUnbalanced(os))
    ensures defined ==> 64 * |os| - 60 <= |items| <= 64 * |os| + 3
    ensures defined ==> forall i :: 0 <= i < |items| ==>
      valid[i] == if (i / 64 < |os| && os[i / 64] == Balanced) || Opens(c, h, items[i]) then 1 else 0
    ensures defined ==> ret < 4 && (ret % 2 == 1 <==> exists i :: 0 <= i < |items| && valid[i] == 0)
    ensures defined ==> ((ret / 2) % 2 == 1 <==> exists j :: 0 <= j < |os| && os[j] == Unbalanced)
    ensures defined ==> (ret == 0 <==>
      (forall i :: 0 <= i < |items| ==> valid[i] == 1) && forall j :: 0 <= j < |os| ==> os[j] != Unbalanced)
  {
    SetAll(valid, |items|);
    var from;
    defined, from, ret, os := AllBatches(c, items, valid, f, h);
    if defined {
      ghost var was := valid[..];
      ret := OpenEach(c, items, from, |items|, valid, ret, f, h, SomeUnbalanced(os));
      TailVerdicts(c, h, items, was, valid[..], from, os);
      CodeZero(valid[..], |items|, os, ret);
    }
  }

  lemma InBatch(items: seq<Item>, j: nat, i: nat)
    requires j < BatchCount(|items|) && i < |BatchAt(items, j)| && GoodItems(items)
    ensures BatchAt(items, j)[i] in items && GoodItem(BatchAt(items, j)[i])
  {
    assert BatchAt(items, j)[i] == items[MAX_BATCH * j + i];
  }

  lemma CleanBatch<G(!new)>(c: Curve<G>, h: HashFn, items: seq<Item>, os: seq<Outcome>, j: nat)
    requires GoodCurve(c) && GoodItems(items) && OnlySmallTorsion8(c.g, M)
    requires AllOutcomesOk(c, h, items, os) && j < |os| && Complete(h, BatchAt(items, j))
    requires forall it :: it in items ==> Opens(c, h, it)
    ensures os[j] == if OffsetSum(c, h, BatchAt(items, j)) == c.g.zero then Balanced else Unbalanced
  {
    var b := BatchAt(items, j);
    forall i | 0 <= i < |b| ensures GoodItem(b[i]) && Opens(c, h, b[i]) {
      InBatch(items, j, i);
    }
    AcceptedBatchVanishes(c, h, b);
    AcceptedBalances(c, h, b, os[j]);
  }

  lemma SubgroupBatch<G(!new)>(c: Curve<G>, h: HashFn, items: seq<Item>, j: nat)
    requires GoodCurve(c) && GoodItems(items) && j < BatchCount(|items|)
    requires forall it :: it in items ==> KeyInSubgroup(c, it)
    ensures OffsetSum(c, h, BatchAt(items, j)) == c.g.zero
  {
    var b := BatchAt(items, j);
    forall i | 0 <= i < |b| ensures KeyInSubgroup(c, b[i]) {
      InBatch(items, j, i);
    }
    SubgroupOffsets(c, h, b);
  }

  /** The offsets of the first n batches cancel, batch by batch. */
  ghost predicate OffsetsCancel<G(!new)>(c: Curve<G>, h: HashFn, items: seq<Item>, n: nat)
    requires n <= BatchCount(|items|)
  {
    forall j :: 0 <= j < n ==> OffsetSum(c, h, BatchAt(items, j)) == c.g.zero
  }

  /**
   A clean run: if every signature is accepted on its own and every batch accounts for all its
   scalars, then every signature is valid, and the code is 0 or 2: it is 0 exactly when the offsets
   of every batch cancel, which they do under keys of the subgroup, whatever the random factors.
   */
  lemma CleanRun<G(!new)>(c: Curve<G>, h: HashFn, items: seq<Item>, os: seq<Outcome>, valid: seq<int>)
    requires GoodCurve(c) && GoodItems(items) && OnlySmallTorsion8(c.g, M) && |items| <= |valid|
    requires AllOutcomesOk(c, h, items, os)
    requires forall it :: it in items ==> Opens(c, h, it)
    requires forall j :: 0 <= j < |os| ==> Complete(h, BatchAt(items, j))
    requires forall i :: 0 <= i < |items| ==> valid[i] == if InBalanced(os, i) || Opens(c, h, items[i]) then 1 else 0
    ensures forall i :: 0 <= i < |items| ==> valid[i] == 1
    ensures Code(SomeInvalid(valid, |items|), SomeUnbalanced(os)) == if OffsetsCancel(c, h, items, |os|) then 0 else 2
    ensures (forall it :: it in items ==> KeyInSubgroup(c, it)) ==> OffsetsCancel(c, h, items, |os|)
  {
    forall j | 0 <= j < |os|
      ensures os[j] == if OffsetSum(c, h, BatchAt(items, j)) == c.g.zero then Balanced else Unbalanced {
      CleanBatch(c, h, items, os, j);
    }
    if forall it :: it in items ==> KeyInSubgroup(c, it) {
      forall j | 0 <= j < |os| ensures OffsetSum(c, h, BatchAt(items, j)) == c.g.zero {
        SubgroupBatch(c, h, items, j);
      }
    }
  }
}
