/** What a batch of signatures amounts to: one weighted sum of points, and what it means that it vanishes. */
module BatchEquation {
  import opened Words
  import opened Bytes
  import opened Modm
  import opened AbelianGroup
  import opened WeightedSum
  import opened Sha512
  import opened KeyBytes
  import opened SignOpen

  /** A message, a public key, a signature, and the 16 random bytes drawn for it. */
  datatype Item = Item(m: seq<byte>, pk: seq<byte>, rs: seq<byte>, z: seq<byte>)

  ghost predicate GoodItem(it: Item) {
    |it.rs| == 64 && |it.z| == 16
  }

  ghost predicate GoodItems(b: seq<Item>) {
    forall i :: 0 <= i < |b| ==> GoodItem(b[i])
  }

  /** The random factor. */
  function Z(it: Item): nat {
    LeNat(it.z)
  }

  function S(it: Item): nat {
    if |it.rs| == 64 then LeNat(it.rs[32..]) % M else 0
  }

  ghost function H(h: HashFn, it: Item): nat {
    if |it.rs| == 64 then Challenge(h, it.rs[..32], it.pk, it.m) % M else 0
  }

  lemma Pow256Double(a: nat)
    ensures Pow256(2 * a) == Pow256(a) * Pow256(a)
  {
    Pow256Add(a, a);
  }

  lemma Pow256Of16()
    ensures Pow256(16) == TWO128
  {
    assert LeNat(Zeros(8)) == 0 by { LeNatZeros(8); }
    Pow256Of8();
    Pow256Double(8);
  }

  lemma ZBound(it: Item)
    requires GoodItem(it)
    ensures Z(it) < TWO128 && Z(it) % M == Z(it)
  {
    LeNatBound(it.z);
    Pow256Of16();
    RemainderUnique(Z(it), M, 0, Z(it));
  }

  ghost function SZ(it: Item): nat {
    S(it) * Z(it)
  }

  ghost function SZs(b: seq<Item>): (v: seq<int>)
    ensures |v| == |b|
  {
    seq(|b|, i requires 0 <= i < |b| => SZ(b[i]))
  }

  ghost function BaseScalar(b: seq<Item>): nat {
    Sum(SZs(b), |b|) % M
  }

  ghost function KeyScalar(h: HashFn, it: Item): nat {
    (H(h, it) * Z(it)) % M
  }

  ghost function KeyScalars(h: HashFn, b: seq<Item>): (v: seq<int>)
    ensures |v| == |b|
  {
    seq(|b|, i requires 0 <= i < |b| => KeyScalar(h, b[i]))
  }

  function Zs(b: seq<Item>): (v: seq<int>)
    ensures |v| == |b|
  {
    seq(|b|, i requires 0 <= i < |b| => Z(b[i]))
  }

  /** How many scalars and points a batch makes. */
  function Count(b: seq<Item>): (n: nat)
    ensures n == 2 * |b| + 1 && n % 2 == 1 && (|b| >= 1 ==> n >= 3)
  {
    2 * |b| + 1
  }

  /** The scalars: the sum of s_i z_i, then h_i z_i, then z_i. */
  ghost function BatchVals(h: HashFn, b: seq<Item>): (v: seq<int>)
    ensures |v| == Count(b)
  {
    [BaseScalar(b)] + KeyScalars(h, b) + Zs(b)
  }

  predicate Decodes<G>(c: Curve<G>, it: Item) {
    |it.rs| == 64 && UnpackNegative(c, it.pk).Some? && UnpackNegative(c, it.rs[..32]).Some?
  }

  predicate AllDecode<G>(c: Curve<G>, b: seq<Item>) {
    forall i :: 0 <= i < |b| ==> Decodes(c, b[i])
  }

  /** The negated key and the negated commitment. */
  function NegKey<G>(c: Curve<G>, it: Item): G {
    if Decodes(c, it) then UnpackNegative(c, it.pk).value else c.g.zero
  }

  function NegR<G>(c: Curve<G>, it: Item): G {
    if Decodes(c, it) then UnpackNegative(c, it.rs[..32]).value else c.g.zero
  }

  function NegKeys<G>(c: Curve<G>, b: seq<Item>): (p: seq<G>)
    ensures |p| == |b|
  {
    seq(|b|, i requires 0 <= i < |b| => NegKey(c, b[i]))
  }

  function NegRs<G>(c: Curve<G>, b: seq<Item>): (p: seq<G>)
    ensures |p| == |b|
  {
    seq(|b|, i requires 0 <= i < |b| => NegR(c, b[i]))
  }

  /** The points: the base point, the negated keys, the negated commitments. */
  function BatchPoints<G>(c: Curve<G>, b: seq<Item>): (p: seq<G>)
    ensures |p| == Count(b)
  {
    [c.base] + NegKeys(c, b) + NegRs(c, b)
  }

  /** The sum the multi-scalar multiplication is asked for. */
  ghost function BatchSum<G>(c: Curve<G>, h: HashFn, b: seq<Item>): G {
    Weighted(c.g, BatchVals(h, b), BatchPoints(c, b), Count(b))
  }

  /** What one signature contributes: S B - h A - R, neutral when its verification equation holds. */
  ghost function Defect<G>(c: Curve<G>, h: HashFn, it: Item): G {
    Add(c.g, Add(c.g, Mul(c.g, S(it), c.base), Mul(c.g, H(h, it), NegKey(c, it))), NegR(c, it))
  }

  /** The key has no component outside the subgroup of order m. */
  ghost predicate KeyInSubgroup<G>(c: Curve<G>, it: Item) {
    Mul(c.g, M, NegKey(c, it)) == c.g.zero
  }

  /** What reducing h_i z_i modulo m changes: a multiple of m times the key. */
  ghost function Offset<G>(c: Curve<G>, h: HashFn, it: Item): G {
    Mul(c.g, KeyScalar(h, it) - H(h, it) * Z(it), NegKey(c, it))
  }

  ghost function Offsets<G>(c: Curve<G>, h: HashFn, b: seq<Item>): (t: seq<G>)
    ensures |t| == |b|
  {
    seq(|b|, i requires 0 <= i < |b| => Offset(c, h, b[i]))
  }

  ghost function OffsetSum<G>(c: Curve<G>, h: HashFn, b: seq<Item>): G {
    Total(c.g, Offsets(c, h, b), |b|)
  }

  // ---------- three sums of n terms each ----------

  ghost function PartS<G>(c: Curve<G>, b: seq<Item>): (t: seq<G>)
    ensures |t| == |b|
  {
    seq(|b|, i requires 0 <= i < |b| => Mul(c.g, Z(b[i]), Mul(c.g, S(b[i]), c.base)))
  }

  ghost function PartA<G>(c: Curve<G>, h: HashFn, b: seq<Item>): (t: seq<G>)
    ensures |t| == |b|
  {
    seq(|b|, i requires 0 <= i < |b| => Mul(c.g, Z(b[i]), Mul(c.g, H(h, b[i]), NegKey(c, b[i]))))
  }

  ghost function PartR<G>(c: Curve<G>, b: seq<Item>): (t: seq<G>)
    ensures |t| == |b|
  {
    seq(|b|, i requires 0 <= i < |b| => Mul(c.g, Z(b[i]), NegR(c, b[i])))
  }

  ghost function WeightedDefects<G>(c: Curve<G>, h: HashFn, b: seq<Item>): (t: seq<G>)
    ensures |t| == |b|
  {
    seq(|b|, i requires 0 <= i < |b| => Mul(c.g, Z(b[i]), Defect(c, h, b[i])))
  }

  /** The sum of z_i times the defect of signature i. */
  ghost function DefectSum<G>(c: Curve<G>, h: HashFn, b: seq<Item>): G {
    Total(c.g, WeightedDefects(c, h, b), |b|)
  }

  lemma {:induction false} TotalConcat<G(!new)>(g: Ops<G>, s: seq<G>, t: seq<G>, n: nat)
    requires Abelian(g) && n <= |t|
    ensures Total(g, s + t, |s| + n) == Add(g, Total(g, s, |s|), Total(g, t, n))
    decreases n
  {
    if n == 0 {
      TotalAgrees(g, s + t, s, |s|);
      Unit(g, Total(g, s, |s|));
    } else {
      TotalConcat(g, s, t, n - 1);
      assert (s + t)[|s| + n - 1] == t[n - 1];
      Assoc(g, Total(g, s, |s|), Total(g, t, n - 1), t[n - 1]);
    }
  }

  lemma {:induction false} TotalAdd<G(!new)>(g: Ops<G>, s: seq<G>, t: seq<G>, u: seq<G>, n: nat)
    requires Abelian(g) && n <= |s| && n <= |t| && n <= |u| && forall i :: 0 <= i < n ==> u[i] == Add(g, s[i], t[i])
    ensures Total(g, u, n) == Add(g, Total(g, s, n), Total(g, t, n))
  {
    if n == 0 {
      Unit(g, g.zero);
    } else {
      TotalAdd(g, s, t, u, n - 1);
      Interchange(g, Total(g, s, n - 1), Total(g, t, n - 1), s[n - 1], t[n - 1]);
    }
  }

  lemma {:induction false} TotalZero<G(!new)>(g: Ops<G>, t: seq<G>, n: nat)
    requires Abelian(g) && n <= |t| && forall i :: 0 <= i < n ==> t[i] == g.zero
    ensures Total(g, t, n) == g.zero
  {
    if n > 0 {
      TotalZero(g, t, n - 1);
      Unit(g, g.zero);
    }
  }

  lemma MulSwapped<G(!new)>(g: Ops<G>, s: int, z: int, p: G)
    requires Abelian(g)
    ensures Mul(g, s * z, p) == Mul(g, z, Mul(g, s, p))
  {
    assert s * z == z * s;
    MulMul(g, z, s, p);
  }

  lemma KeyTerm<G(!new)>(c: Curve<G>, h: HashFn, it: Item)
    requires GoodCurve(c)
    ensures Mul(c.g, KeyScalar(h, it), NegKey(c, it)) ==
      Add(c.g, Mul(c.g, Z(it), Mul(c.g, H(h, it), NegKey(c, it))), Offset(c, h, it))
  {
    var k, x, a := KeyScalar(h, it), H(h, it) * Z(it), NegKey(c, it);
    MulAdd(c.g, x, k - x, a);
    MulSwapped(c.g, H(h, it), Z(it), a);
  }

  /** A key of the subgroup has no offset. */
  lemma SubgroupOffset<G(!new)>(c: Curve<G>, h: HashFn, it: Item)
    requires GoodCurve(c) && KeyInSubgroup(c, it)
    ensures Offset(c, h, it) == c.g.zero
  {
    var k, x, a := KeyScalar(h, it), H(h, it) * Z(it), NegKey(c, it);
    MulModulo(c.g, x, M, a);
    MulAdd(c.g, k, -x, a);
    MulNeg(c.g, x, a);
    Inverse(c.g, Mul(c.g, x, a));
  }

  lemma SubgroupOffsets<G(!new)>(c: Curve<G>, h: HashFn, b: seq<Item>)
    requires GoodCurve(c) && forall i :: 0 <= i < |b| ==> KeyInSubgroup(c, b[i])
    ensures OffsetSum(c, h, b) == c.g.zero
  {
    forall i | 0 <= i < |b| ensures Offsets(c, h, b)[i] == c.g.zero {
      SubgroupOffset(c, h, b[i]);
    }
    TotalZero(c.g, Offsets(c, h, b), |b|);
  }

  lemma {:induction false} TotalOfMultiples<G(!new)>(g: Ops<G>, v: seq<int>, p: G, t: seq<G>, n: nat)
    requires Abelian(g) && n <= |v| == |t| && forall i :: 0 <= i < n ==> Mul(g, v[i], p) == t[i]
    ensures Mul(g, Sum(v, n), p) == Total(g, t, n)
  {
    if n > 0 {
      TotalOfMultiples(g, v, p, t, n - 1);
      MulAdd(g, Sum(v, n - 1), v[n - 1], p);
    }
  }

  lemma BaseTerm<G(!new)>(c: Curve<G>, b: seq<Item>)
    requires GoodCurve(c)
    ensures Mul(c.g, BaseScalar(b), c.base) == Total(c.g, PartS(c, b), |b|)
  {
    MulMod(c, Sum(SZs(b), |b|));
    forall i | 0 <= i < |b| ensures Mul(c.g, SZs(b)[i], c.base) == PartS(c, b)[i] {
      MulSwapped(c.g, S(b[i]), Z(b[i]), c.base);
    }
    TotalOfMultiples(c.g, SZs(b), c.base, PartS(c, b), |b|);
  }

  lemma KeyPart<G(!new)>(c: Curve<G>, h: HashFn, b: seq<Item>)
    requires GoodCurve(c)
    ensures Weighted(c.g, KeyScalars(h, b), NegKeys(c, b), |b|) ==
      Add(c.g, Total(c.g, PartA(c, h, b), |b|), OffsetSum(c, h, b))
  {
    var t, a, o := Terms(c.g, KeyScalars(h, b), NegKeys(c, b)), PartA(c, h, b), Offsets(c, h, b);
    forall i | 0 <= i < |b| ensures t[i] == Add(c.g, a[i], o[i]) {
      KeyTerm(c, h, b[i]);
    }
    TotalAdd(c.g, a, o, t, |b|);
  }

  lemma RPart<G(!new)>(c: Curve<G>, b: seq<Item>)
    ensures Weighted(c.g, Zs(b), NegRs(c, b), |b|) == Total(c.g, PartR(c, b), |b|)
  {
    var t, r := Terms(c.g, Zs(b), NegRs(c, b)), PartR(c, b);
    forall i | 0 <= i < |b| ensures t[i] == r[i] {
    }
    TotalAgrees(c.g, t, r, |b|);
  }

  lemma SingleTotal<G(!new)>(g: Ops<G>, x: G)
    requires Abelian(g)
    ensures Total(g, [x], 1) == x
  {
    Unit(g, x);
  }

  lemma TotalCons<G(!new)>(g: Ops<G>, x: G, a: seq<G>, n: nat)
    requires Abelian(g) && n <= |a|
    ensures Total(g, [x] + a, n + 1) == Add(g, x, Total(g, a, n))
  {
    TotalConcat(g, [x], a, n);
    SingleTotal(g, x);
  }

  lemma TotalInParts<G(!new)>(g: Ops<G>, x: G, a: seq<G>, r: seq<G>, n: nat)
    requires Abelian(g) && |a| == |r| == n
    ensures Total(g, [x] + a + r, 2 * n + 1) == Add(g, Add(g, x, Total(g, a, n)), Total(g, r, n))
  {
    TotalConcat(g, [x] + a, r, n);
    TotalCons(g, x, a, n);
  }

  lemma WeightedInParts<G(!new)>(g: Ops<G>, x: int, base: G, v: seq<int>, p: seq<G>, w: seq<int>, q: seq<G>, n: nat)
    requires Abelian(g) && |v| == |p| == |w| == |q| == n
    ensures Weighted(g, [x] + v + w, [base] + p + q, 2 * n + 1) ==
      Add(g, Add(g, Mul(g, x, base), Weighted(g, v, p, n)), Weighted(g, w, q, n))
  {
    var y, a, r := Mul(g, x, base), Terms(g, v, p), Terms(g, w, q);
    assert Terms(g, [x] + v + w, [base] + p + q) == [y] + a + r;
    TotalInParts(g, y, a, r, n);
  }

  lemma BatchInParts<G(!new)>(c: Curve<G>, h: HashFn, b: seq<Item>)
    requires Abelian(c.g)
    ensures BatchSum(c, h, b) ==
      Add(c.g, Add(c.g, Mul(c.g, BaseScalar(b), c.base), Weighted(c.g, KeyScalars(h, b), NegKeys(c, b), |b|)),
          Weighted(c.g, Zs(b), NegRs(c, b), |b|))
  {
    WeightedInParts(c.g, BaseScalar(b), c.base, KeyScalars(h, b), NegKeys(c, b), Zs(b), NegRs(c, b), |b|);
  }

  /** (s + (a + o)) + r = ((s + a) + r) + o */
  lemma OffsetLast<G(!new)>(g: Ops<G>, s: G, a: G, o: G, r: G)
    requires Abelian(g)
    ensures Add(g, Add(g, s, Add(g, a, o)), r) == Add(g, Add(g, Add(g, s, a), r), o)
  {
    Assoc(g, s, a, o);
    Swap(g, Add(g, s, a), o, r);
  }

  /** The terms of the sum, in three parts, and the offsets. */
  lemma SumInParts<G(!new)>(c: Curve<G>, h: HashFn, b: seq<Item>)
    requires GoodCurve(c)
    ensures BatchSum(c, h, b) == Add(c.g, Add(c.g,
      Add(c.g, Total(c.g, PartS(c, b), |b|), Total(c.g, PartA(c, h, b), |b|)), Total(c.g, PartR(c, b), |b|)),
      OffsetSum(c, h, b))
  {
    var s, a, r := Total(c.g, PartS(c, b), |b|), Total(c.g, PartA(c, h, b), |b|), Total(c.g, PartR(c, b), |b|);
    BaseTerm(c, b);
    KeyPart(c, h, b);
    RPart(c, b);
    BatchInParts(c, h, b);
    OffsetLast(c.g, s, a, OffsetSum(c, h, b), r);
  }

  lemma DefectsInParts<G(!new)>(c: Curve<G>, h: HashFn, b: seq<Item>)
    requires GoodCurve(c)
    ensures DefectSum(c, h, b) ==
      Add(c.g, Add(c.g, Total(c.g, PartS(c, b), |b|), Total(c.g, PartA(c, h, b), |b|)), Total(c.g, PartR(c, b), |b|))
  {
    var g, n := c.g, |b|;
    var s, a, r, d := PartS(c, b), PartA(c, h, b), PartR(c, b), WeightedDefects(c, h, b);
    var sa := seq(n, i requires 0 <= i < n => Add(g, s[i], a[i]));
    TotalAdd(g, s, a, sa, n);
    forall i | 0 <= i < n ensures d[i] == Add(g, sa[i], r[i]) {
      var z, x, y, w := Z(b[i]), Mul(g, S(b[i]), c.base), Mul(g, H(h, b[i]), NegKey(c, b[i])), NegR(c, b[i]);
      MulDist(g, z, Add(g, x, y), w);
      MulDist(g, z, x, y);
    }
    TotalAdd(g, sa, r, d, n);
  }

  /**
   The batch sum is the sum of the defects, each times its random factor, and of the offsets, which
   are neutral for keys of the subgroup.
   */
  lemma BatchSumIsDefects<G(!new)>(c: Curve<G>, h: HashFn, b: seq<Item>)
    requires GoodCurve(c)
    ensures BatchSum(c, h, b) == Add(c.g, DefectSum(c, h, b), OffsetSum(c, h, b))
    ensures (forall i :: 0 <= i < |b| ==> KeyInSubgroup(c, b[i])) ==>
      OffsetSum(c, h, b) == c.g.zero && BatchSum(c, h, b) == DefectSum(c, h, b)
  {
    SumInParts(c, h, b);
    DefectsInParts(c, h, b);
    if forall i :: 0 <= i < |b| ==> KeyInSubgroup(c, b[i]) {
      SubgroupOffsets(c, h, b);
      Unit(c.g, DefectSum(c, h, b));
    }
  }

  /** x + y = 0 iff x = -y */
  lemma DefectVanishes<G(!new)>(g: Ops<G>, x: G, y: G)
    requires Abelian(g)
    ensures Add(g, x, y) == g.zero <==> x == Neg(g, y)
  {
    Inverse(g, y);
    Comm(g, x, y);
    if Add(g, x, y) == g.zero {
      NegUnique(g, y, x);
    }
  }

  /**
   Opening one signature and its part in a batch: the batch looks at the defect only, opening also
   at the range of S and at the encoding of R.
   */
  lemma AcceptedExactly<G(!new)>(c: Curve<G>, h: HashFn, it: Item)
    requires GoodCurve(c) && GoodItem(it)
    ensures Accepts(c, h, it.m, it.pk, it.rs) <==>
      && Decodes(c, it) && Defect(c, h, it) == c.g.zero
      && LeNat(it.rs[32..]) < TWO253 && it.rs[..32] == Pack(c, Neg(c.g, NegR(c, it)))
  {
    var s, u := LeNat(it.rs[32..]), UnpackNegative(c, it.pk);
    if u.Some? {
      var sB, hA := Mul(c.g, s, c.base), Mul(c.g, H(h, it), u.value);
      MulMod(c, s);
      Comm(c.g, hA, sB);
      assert PackAt(c, Add(c.g, hA, sB));
      if Decodes(c, it) {
        DefectVanishes(c.g, Add(c.g, sB, hA), NegR(c, it));
      }
      NegNeg(c.g, Add(c.g, hA, sB));
    }
  }

  /**
   A batch of accepted signatures sums to its offsets; under keys of the subgroup it sums to zero,
   whatever the random factors.
   */
  lemma AcceptedBatchVanishes<G(!new)>(c: Curve<G>, h: HashFn, b: seq<Item>)
    requires GoodCurve(c) && GoodItems(b)
    requires forall i :: 0 <= i < |b| ==> Accepts(c, h, b[i].m, b[i].pk, b[i].rs)
    ensures AllDecode(c, b) && BatchSum(c, h, b) == OffsetSum(c, h, b)
    ensures (forall i :: 0 <= i < |b| ==> KeyInSubgroup(c, b[i])) ==> BatchSum(c, h, b) == c.g.zero
  {
    forall i | 0 <= i < |b| ensures Decodes(c, b[i]) && WeightedDefects(c, h, b)[i] == c.g.zero {
      AcceptedExactly(c, h, b[i]);
      MulZero(c.g, Z(b[i]));
    }
    BatchSumIsDefects(c, h, b);
    TotalZero(c.g, WeightedDefects(c, h, b), |b|);
    Unit(c.g, OffsetSum(c, h, b));
    Comm(c.g, c.g.zero, OffsetSum(c, h, b));
  }
}
