/** Filling the batch: the scalars and points of the multi-scalar multiplication, in the order of the code. */
module BatchFill {
  import opened Bytes
  import opened Modm
  import opened Scalar
  import opened WeightedSum
  import opened Sha512
  import opened SignOpen
  import opened BatchEquation

  /** The scalar s is reduced and has the value v. */
  ghost predicate Holds(s: seq<int>, v: int) {
    Reduced(s) && Val(s) == v
  }

  /** The first scalars are reduced and have the values v. */
  ghost predicate AllHold(s: seq<seq<int>>, v: seq<int>) {
    |v| <= |s| && forall k :: 0 <= k < |v| ==> Holds(s[k], v[k])
  }

  method ExpandScalar(input: seq<byte>) returns (r: seq<int>)
    requires |input| <= 64
    ensures Holds(r, LeNat(input) % M)
  {
    var a := Expand(input);
    r := a[..];
  }

  method MulScalars(x: seq<int>, y: seq<int>, ghost u: nat, ghost v: nat) returns (r: seq<int>)
    requires Holds(x, u) && Holds(y, v)
    ensures Holds(r, (u * v) % M)
  {
    ReducedTop(x);
    ReducedTop(y);
    var a := ToArray(x);
    var b := ToArray(y);
    Mul256Modm(a, a, b);
    r := a[..];
  }

  method AddScalars(x: seq<int>, y: seq<int>, ghost u: nat, ghost v: nat) returns (r: seq<int>)
    requires Holds(x, u % M) && Holds(y, v % M)
    ensures Holds(r, (u + v) % M)
  {
    var a := ToArray(x);
    var b := ToArray(y);
    Add256Modm(a, a, b);
    r := a[..];
    SumMod(v, u, M);
  }

  /** The random factors go behind the other scalars. */
  method FillFactors(scalars: array<seq<int>>, b: seq<Item>)
    requires GoodItems(b) && Count(b) <= scalars.Length
    modifies scalars
    ensures forall i :: 0 <= i < |b| ==> Holds(scalars[|b| + 1 + i], Z(b[i]))
  {
    var n := |b|;
    for i := 0 to n
      invariant forall j :: 0 <= j < i ==> Holds(scalars[n + 1 + j], Z(b[j]))
    {
      assert GoodItem(b[i]);
      var s := ExpandScalar(b[i].z);
      ZBound(b[i]);
      scalars[n + 1 + i] := s;
    }
  }

  /** scalars[i] = s_i z_i */
  method FillProducts(scalars: array<seq<int>>, b: seq<Item>)
    requires GoodItems(b) && Count(b) <= scalars.Length
    requires forall i :: 0 <= i < |b| ==> Holds(scalars[|b| + 1 + i], Z(b[i]))
    modifies scalars
    ensures forall i :: 0 <= i < |b| ==> Holds(scalars[i], SZ(b[i]) % M)
    ensures forall i :: 0 <= i < |b| ==> Holds(scalars[|b| + 1 + i], Z(b[i]))
  {
    var n := |b|;
    for i := 0 to n
      invariant forall j :: 0 <= j < i ==> Holds(scalars[j], SZ(b[j]) % M)
      invariant forall j :: 0 <= j < n ==> Holds(scalars[n + 1 + j], Z(b[j]))
    {
      assert GoodItem(b[i]);
      var s := ExpandScalar(b[i].rs[32..]);
      s := MulScalars(s, scalars[n + 1 + i], S(b[i]), Z(b[i]));
      scalars[i] := s;
    }
  }

  lemma SumOfOne(v: seq<int>)
    requires |v| >= 1
    ensures Sum(v, 1) == v[0]
  {
    assert Sum(v, 0) == 0;
  }

  method SumInto(scalars: array<seq<int>>, n: nat, ghost v: seq<int>)
    requires 1 <= n <= |v| && n <= scalars.Length
    requires forall i :: 0 <= i < n ==> Holds(scalars[i], v[i] % M) && v[i] >= 0
    modifies scalars
    ensures Holds(scalars[0], Sum(v, n) % M)
    ensures forall k :: 1 <= k < scalars.Length ==> scalars[k] == old(scalars[k])
  {
    SumOfOne(v);
    for i := 1 to n
      invariant Sum(v, i) >= 0 && Holds(scalars[0], Sum(v, i) % M)
      invariant forall k :: 1 <= k < scalars.Length ==> scalars[k] == old(scalars[k])
    {
      var s := AddScalars(scalars[0], scalars[i], Sum(v, i), v[i]);
      scalars[0] := s;
    }
  }

  /** scalars[0] = the sum of all s_i z_i */
  method SumProducts(scalars: array<seq<int>>, b: seq<Item>)
    requires 1 <= |b| && Count(b) <= scalars.Length
    requires forall i :: 0 <= i < |b| ==> Holds(scalars[i], SZ(b[i]) % M)
    requires forall i :: 0 <= i < |b| ==> Holds(scalars[|b| + 1 + i], Z(b[i]))
    modifies scalars
    ensures Holds(scalars[0], BaseScalar(b))
    ensures forall i :: 0 <= i < |b| ==> Holds(scalars[|b| + 1 + i], Z(b[i]))
  {
    ghost var v := SZs(b);
    assert forall i :: 0 <= i < |b| ==> Holds(scalars[i], v[i] % M) && v[i] >= 0;
    SumInto(scalars, |b|, v);
  }

  method ChallengeScalar(it: Item, z: seq<int>, ghost f: ShaFn, ghost h: HashFn) returns (s: seq<int>)
    requires GoodItem(it) && HashedBy(f, h) && Holds(z, Z(it))
    ensures Holds(s, KeyScalar(h, it))
  {
    var hram := Hram(it.rs, it.pk, it.m, f, h);
    s := ExpandScalar(hram);
    s := MulScalars(s, z, H(h, it), Z(it));
  }

  /** scalars[i + 1] = h_i z_i */
  method FillChallenges(scalars: array<seq<int>>, b: seq<Item>, ghost f: ShaFn, ghost h: HashFn)
    requires GoodItems(b) && Count(b) <= scalars.Length && HashedBy(f, h)
    requires Holds(scalars[0], BaseScalar(b))
    requires forall i :: 0 <= i < |b| ==> Holds(scalars[|b| + 1 + i], Z(b[i]))
    modifies scalars
    ensures Holds(scalars[0], BaseScalar(b))
    ensures forall i :: 0 <= i < |b| ==> Holds(scalars[i + 1], KeyScalar(h, b[i]))
    ensures forall i :: 0 <= i < |b| ==> Holds(scalars[|b| + 1 + i], Z(b[i]))
  {
    var n := |b|;
    for i := 0 to n
      invariant scalars[0] == old(scalars[0])
      invariant forall j :: 0 <= j < i ==> Holds(scalars[j + 1], KeyScalar(h, b[j]))
      invariant forall k :: n < k < scalars.Length ==> scalars[k] == old(scalars[k])
    {
      assert GoodItem(b[i]) && Holds(scalars[n + 1 + i], Z(b[i]));
      var s := ChallengeScalar(b[i], scalars[n + 1 + i], f, h);
      scalars[i + 1] := s;
    }
  }

  lemma InOrder(s: seq<seq<int>>, b: seq<Item>, h: HashFn)
    requires Count(b) <= |s| && Holds(s[0], BaseScalar(b))
    requires forall i :: 0 <= i < |b| ==> Holds(s[i + 1], KeyScalar(h, b[i]))
    requires forall i :: 0 <= i < |b| ==> Holds(s[|b| + 1 + i], Z(b[i]))
    ensures AllHold(s, BatchVals(h, b))
  {
    var v, n := BatchVals(h, b), |b|;
    forall k | 0 <= k < 2 * n + 1 ensures Holds(s[k], v[k]) {
      if 0 < k <= n {
        var i := k - 1;
        assert v[k] == KeyScalars(h, b)[i] == KeyScalar(h, b[i]);
        assert Holds(s[i + 1], KeyScalar(h, b[i]));
      } else if n < k {
        var i := k - 1 - n;
        assert v[k] == Zs(b)[i] == Z(b[i]);
        assert Holds(s[n + 1 + i], Z(b[i]));
      }
    }
  }

  lemma KeyScalarIs(h: HashFn, it: Item)
    requires GoodItem(it)
    ensures KeyScalar(h, it) == (LeNat(h(it.rs[..32] + it.pk + it.m)) * LeNat(it.z)) % M
  {
    ModFactor(LeNat(h(it.rs[..32] + it.pk + it.m)), LeNat(it.z));
  }

  lemma {:induction false} SumCong(v: seq<int>, w: seq<int>, n: nat)
    requires n <= |v| && n <= |w| && forall i :: 0 <= i < n ==> v[i] >= 0 && w[i] >= 0 && v[i] % M == w[i] % M
    ensures Sum(v, n) >= 0 && Sum(w, n) >= 0 && Sum(v, n) % M == Sum(w, n) % M
  {
    if n > 0 {
      SumCong(v, w, n - 1);
      SumMod(v[n - 1], Sum(v, n - 1), M);
      SumMod(w[n - 1], Sum(w, n - 1), M);
    }
  }

  lemma ShareIs(it: Item)
    requires GoodItem(it)
    ensures LeNat(it.rs[32..]) * LeNat(it.z) >= 0
    ensures SZ(it) % M == (LeNat(it.rs[32..]) * LeNat(it.z)) % M
  {
    ModFactor(LeNat(it.rs[32..]), LeNat(it.z));
  }

  /** The first scalar is the sum of S_i z_i modulo m. */
  lemma BaseScalarIs(b: seq<Item>, v: seq<int>)
    requires GoodItems(b) && |v| == |b|
    requires forall i :: 0 <= i < |b| ==> GoodItem(b[i]) && v[i] == LeNat(b[i].rs[32..]) * LeNat(b[i].z)
    ensures BaseScalar(b) == Sum(v, |b|) % M
  {
    forall i | 0 <= i < |b| ensures SZs(b)[i] >= 0 && v[i] >= 0 && SZs(b)[i] % M == v[i] % M {
      assert GoodItem(b[i]);
      ShareIs(b[i]);
    }
    SumCong(SZs(b), v, |b|);
  }

  lemma ScalarsAre(s: seq<seq<int>>, b: seq<Item>, h: HashFn)
    requires GoodItems(b) && AllHold(s, BatchVals(h, b))
    ensures Val(s[0]) == BaseScalar(b)
    ensures forall i :: 0 <= i < |b| ==>
      GoodItem(b[i]) && Val(s[i + 1]) == (LeNat(h(b[i].rs[..32] + b[i].pk + b[i].m)) * LeNat(b[i].z)) % M
    ensures forall i :: 0 <= i < |b| ==> Val(s[|b| + 1 + i]) == LeNat(b[i].z)
  {
    var v, n := BatchVals(h, b), |b|;
    assert Holds(s[0], v[0]);
    forall i | 0 <= i < n
      ensures GoodItem(b[i]) && Val(s[i + 1]) == (LeNat(h(b[i].rs[..32] + b[i].pk + b[i].m)) * LeNat(b[i].z)) % M
    {
      assert Holds(s[i + 1], v[i + 1]) && v[i + 1] == KeyScalars(h, b)[i];
      KeyScalarIs(h, b[i]);
    }
    forall i | 0 <= i < n ensures Val(s[n + 1 + i]) == LeNat(b[i].z) {
      assert Holds(s[n + 1 + i], v[n + 1 + i]) && v[n + 1 + i] == Zs(b)[i];
    }
  }

  /** All scalars of the batch. */
  method FillScalars(scalars: array<seq<int>>, b: seq<Item>, ghost f: ShaFn, ghost h: HashFn)
    requires GoodItems(b) && 1 <= |b| && Count(b) <= scalars.Length && HashedBy(f, h)
    modifies scalars
    ensures AllHold(scalars[..], BatchVals(h, b))
    ensures Val(scalars[0]) == BaseScalar(b)
    ensures forall i :: 0 <= i < |b| ==>
      GoodItem(b[i]) && Val(scalars[i + 1]) == (LeNat(h(b[i].rs[..32] + b[i].pk + b[i].m)) * LeNat(b[i].z)) % M
    ensures forall i :: 0 <= i < |b| ==> Val(scalars[|b| + 1 + i]) == LeNat(b[i].z)
  {
    FillFactors(scalars, b);
    FillProducts(scalars, b);
    SumProducts(scalars, b);
    FillChallenges(scalars, b, f, h);
    InOrder(scalars[..], b, h);
    ScalarsAre(scalars[..], b, h);
  }

  lemma PointsInOrder<G>(c: Curve<G>, p: seq<G>, b: seq<Item>)
    requires Count(b) <= |p| && p[0] == c.base
    requires forall j :: 0 <= j < |b| ==> UnpackNegative(c, b[j].pk) == Some(p[j + 1])
    requires forall j :: 0 <= j < |b| ==> GoodItem(b[j]) && UnpackNegative(c, b[j].rs[..32]) == Some(p[|b| + 1 + j])
    ensures AllDecode(c, b) && p[..Count(b)] == BatchPoints(c, b)
  {
    var q, n := BatchPoints(c, b), |b|;
    forall i | 0 <= i < n ensures Decodes(c, b[i]) && NegKey(c, b[i]) == p[i + 1] && NegR(c, b[i]) == p[n + 1 + i] {
      assert GoodItem(b[i]);
    }
    forall k | 0 <= k < 2 * n + 1 ensures p[k] == q[k] {
      if 0 < k <= n {
        var i := k - 1;
        assert q[k] == NegKeys(c, b)[i] == NegKey(c, b[i]);
      } else if n < k {
        var i := k - 1 - n;
        assert q[k] == NegRs(c, b)[i] == NegR(c, b[i]);
      }
    }
  }

  /** The points; false as soon as a key or a commitment does not decode. */
  method FillPoints<G(!new)>(c: Curve<G>, points: array<G>, b: seq<Item>) returns (ok: bool)
    requires GoodItems(b) && Count(b) <= points.Length
    modifies points
    ensures ok <==> AllDecode(c, b)
    ensures ok ==> points[..Count(b)] == BatchPoints(c, b) && points[0] == c.base
    ensures ok ==> forall i :: 0 <= i < |b| ==>
      && UnpackNegative(c, b[i].pk) == Some(points[i + 1])
      && GoodItem(b[i]) && UnpackNegative(c, b[i].rs[..32]) == Some(points[|b| + 1 + i])
  {
    var n := |b|;
    points[0] := c.base;
    for i := 0 to n
      invariant points[0] == c.base
      invariant forall j :: 0 <= j < i ==> UnpackNegative(c, b[j].pk) == Some(points[j + 1])
    {
      var a := UnpackNegative(c, b[i].pk);
      if a.None? {
        assert !Decodes(c, b[i]);
        return false;
      }
      points[i + 1] := a.value;
    }
    for i := 0 to n
      invariant points[0] == c.base
      invariant forall j :: 0 <= j < n ==> UnpackNegative(c, b[j].pk) == Some(points[j + 1])
      invariant forall j :: 0 <= j < i ==> GoodItem(b[j]) && UnpackNegative(c, b[j].rs[..32]) == Some(points[n + 1 + j])
    {
      assert GoodItem(b[i]);
      var r := UnpackNegative(c, b[i].rs[..32]);
      if r.None? {
        assert !Decodes(c, b[i]);
        return false;
      }
      points[n + 1 + i] := r.value;
    }
    PointsInOrder(c, points[..], b);
    ok := true;
  }
}
