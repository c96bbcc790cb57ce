/**
 A group that meets all hypotheses of the batch theorems at once: two elements, so every element is
 of 8-torsion, with the neutral one as base point.  On it, batch opening accepts what opening one
 by one does not.
 */
module TwoElements {
  import opened Words
  import opened Bytes
  import opened Modm
  import opened AbelianGroup
  import opened WeightedSum
  import opened Gcd
  import opened Points
  import opened BaseScalarmult
  import opened Sha512
  import opened KeyBytes
  import opened SignOpen
  import opened BatchEquation
  import opened MultiScalarmult
  import opened BatchOpen

  function Either(a: bool, b: bool): bool {
    a != b
  }

  function Same(a: bool): bool {
    a
  }

  function Two(): Ops<bool> {
    Ops(false, Either, Same)
  }

  function Bytes32(a: bool): seq<byte> {
    Zeros(31) + [if a then 1 else 0]
  }

  function TheCurve(): Curve<bool> {
    Curve(Two(), false, seq(256, _ => Niels(false, true, true)), seq(32, _ => Niels(false, true, true)), Bytes32,
          (b: seq<byte>) => if |b| == 32 then Some(b[31] == 1) else None)
  }

  lemma TwoAbelian()
    ensures Abelian(Two())
  {
    var g := Two();
    forall a: bool, b: bool, c: bool ensures AssocAt(g, a, b, c) {}
    forall a: bool, b: bool ensures CommAt(g, a, b) {}
    forall a: bool ensures UnitAt(g, a) {}
    forall a: bool ensures InverseAt(g, a) {}
  }

  /** Twice anything is neutral, so 8 times anything is. */
  lemma EightTimes(p: bool)
    ensures Mul(Two(), 8, p) == false
  {
    var g := Two();
    TwoAbelian();
    MulTwo(g, p);
    MulMul(g, 4, 2, p);
    MulZero(g, 4);
  }

  /** The hypotheses on the group hold together. */
  lemma Qualifies()
    ensures GoodCurve(TheCurve()) && OnlySmallTorsion8(Two(), M)
  {
    var c := TheCurve();
    TwoAbelian();
    forall p: bool ensures Mul(Two(), 8, p) == false {
      EightTimes(p);
    }
    MulZero(c.g, M);
    forall pos: nat, i: nat | pos < 32 && i < 8 ensures EntryOk(c.g, c.comb, c.base, pos, i) {
      MulZero(c.g, (i + 1) * Pow256(pos));
    }
    forall k | 0 <= k < 32 ensures c.sliding[k].val == Mul(c.g, 2 * k + 1, c.base) {
      MulZero(c.g, 2 * k + 1);
    }
    forall p: bool ensures PackAt(c, p) {}
  }

  /** Neutral key and commitment, and an S out of range. */
  function Odd(m: seq<byte>, z: seq<byte>): Item {
    Item(m, Bytes32(false), Bytes32(false) + (Zeros(31) + [255]), z)
  }

  function Four(m: seq<byte>, z: seq<byte>): (b: seq<Item>)
    ensures |b| == 4
  {
    [Odd(m, z), Odd(m, z), Odd(m, z), Odd(m, z)]
  }

  lemma OddIsRejected(m: seq<byte>, z: seq<byte>, h: HashFn)
    requires |z| == 16
    ensures var it := Odd(m, z); GoodItem(it) && Decodes(TheCurve(), it) && !Opens(TheCurve(), h, it)
  {
    var it := Odd(m, z);
    var s := Zeros(31) + [255];
    assert it.rs[32..] == s && it.rs[..32] == Bytes32(false);
    And224(255);
    TopThreeBits(s);
  }

  lemma FourNeutral(m: seq<byte>, z: seq<byte>, h: HashFn)
    requires |z| == 16
    ensures var c, b := TheCurve(), Four(m, z);
      AllDecode(c, b) && forall i :: 0 <= i < |b| ==> NegKey(c, b[i]) == NegR(c, b[i]) == false
  {
    OddIsRejected(m, z, h);
    var it := Odd(m, z);
    assert it.rs[..32] == Bytes32(false);
    assert forall i :: 0 <= i < 4 ==> Four(m, z)[i] == it;
  }

  lemma PointsNeutral(c: Curve<bool>, b: seq<Item>, k: nat)
    requires c == TheCurve() && k < Count(b)
    requires forall i :: 0 <= i < |b| ==> NegKey(c, b[i]) == NegR(c, b[i]) == false
    ensures BatchPoints(c, b)[k] == false
  {
    var n := |b|;
    if 0 < k <= n {
      assert BatchPoints(c, b)[k] == NegKeys(c, b)[k - 1];
    } else if n < k {
      assert BatchPoints(c, b)[k] == NegRs(c, b)[k - 1 - n];
    }
  }

  /** All points neutral: the sum is neutral, whatever the scalars. */
  lemma AllNeutral(c: Curve<bool>, h: HashFn, b: seq<Item>)
    requires c == TheCurve() && Abelian(c.g) && |b| >= 1
    requires forall i :: 0 <= i < |b| ==> NegKey(c, b[i]) == NegR(c, b[i]) == false
    ensures CoveredSum(c, h, b) == false
  {
    var p, v := BatchPoints(c, b), BatchVals(h, b);
    var t := Terms(c.g, v, p);
    forall k | 0 <= k < |p| ensures t[k] == false {
      PointsNeutral(c, b, k);
      MulZero(c.g, v[k]);
    }
    BatchValsNatural(h, b);
    TotalZero(c.g, t, Covered(v, |p|));
  }

  /**
   Four of them: each is rejected on its own, and the batch is balanced if it is safe, so that
   batch opening accepts all four.
   */
  lemma BatchAcceptsMore(m: seq<byte>, z: seq<byte>, h: HashFn, o: Outcome)
    requires |z| == 16
    requires OutcomeOk(TheCurve(), h, Four(m, z), o)
    ensures !Opens(TheCurve(), h, Odd(m, z)) && o == if Safe(h, Four(m, z)) then Balanced else Undefined
  {
    OddIsRejected(m, z, h);
    FourNeutral(m, z, h);
    Qualifies();
    AllNeutral(TheCurve(), h, Four(m, z));
  }

  lemma ZeroFactor(h: HashFn, it: Item)
    requires Z(it) == 0
    ensures SZ(it) == 0 && KeyScalar(h, it) == 0
  {
    assert S(it) * 0 == 0 && H(h, it) * 0 == 0;
    RemainderUnique(0, M, 0, 0);
  }

  lemma {:induction false} SumOfZeros(v: seq<int>, n: nat)
    requires n <= |v| && forall i :: 0 <= i < n ==> v[i] == 0
    ensures Sum(v, n) == 0
  {
    if n > 0 {
      SumOfZeros(v, n - 1);
    }
  }

  lemma ZeroScalars(h: HashFn, b: seq<Item>, k: nat)
    requires k < Count(b) && forall i :: 0 <= i < |b| ==> Z(b[i]) == 0
    ensures BatchVals(h, b)[k] == 0
  {
    var n := |b|;
    if k == 0 {
      forall i | 0 <= i < n ensures SZs(b)[i] == 0 {
        ZeroFactor(h, b[i]);
      }
      SumOfZeros(SZs(b), n);
      RemainderUnique(0, M, 0, 0);
    } else if k <= n {
      ZeroFactor(h, b[k - 1]);
      assert BatchVals(h, b)[k] == KeyScalars(h, b)[k - 1];
    } else {
      assert BatchVals(h, b)[k] == Zs(b)[k - 1 - n];
    }
  }

  lemma ZeroScalarsAreSafe(h: HashFn, b: seq<Item>)
    requires |b| >= 1 && forall i :: 0 <= i < |b| ==> Z(b[i]) == 0
    ensures Safe(h, b) && Complete(h, b) && !Extends(h, b)
  {
    var v := BatchVals(h, b);
    forall k | 0 <= k < |v| ensures v[k] == 0 {
      ZeroScalars(h, b, k);
    }
    BatchValsNatural(h, b);
    GcdOfLast(v, Covered(v, |v|), 0);
  }

  /** The batch is safe and complete, though it does not extend, for instance when the random factors are zero. */
  lemma ZeroFactorsAreSafe(m: seq<byte>, h: HashFn)
    ensures var b := Four(m, Zeros(16)); Safe(h, b) && Complete(h, b) && !Extends(h, b)
  {
    LeNatZeros(16);
    ZeroScalarsAreSafe(h, Four(m, Zeros(16)));
  }

  // ---------- a key outside the subgroup ----------

  /** A multiple depends on the parity of the factor. */
  lemma Parity(n: int)
    ensures Mul(Two(), n, true) == (n % 2 == 1)
  {
    TwoAbelian();
    MulTwo(Two(), true);
    MulModulo(Two(), n, 2, true);
    MulOne(Two(), true);
  }

  /** A hash whose challenge is m - 1. */
  function LastChallenge(): HashFn {
    (s: seq<byte>) => LeBytes(M - 1, 64)
  }

  /** The nonneutral key, a neutral commitment, S = 0 and the random factor 2. */
  function Twisted(m: seq<byte>): Item {
    Item(m, Bytes32(true), Bytes32(false) + Zeros(32), [2] + Zeros(15))
  }

  function Five(m: seq<byte>): (b: seq<Item>)
    ensures |b| == 5
  {
    seq(5, _ => Twisted(m))
  }

  lemma LastIsSmall()
    ensures M - 1 < Pow256(64)
  {
    Pow256Of16();
    Pow256Double(16);
    Pow256Double(32);
  }

  lemma TwistedScalars(m: seq<byte>)
    ensures var it, h := Twisted(m), LastChallenge();
      GoodItem(it) && H(h, it) == M - 1 && Z(it) == 2 && KeyScalar(h, it) == M - 2
  {
    var it, h := Twisted(m), LastChallenge();
    LastIsSmall();
    LeNatOfBytes(M - 1, 64);
    RemainderUnique(M - 1, M, 0, M - 1);
    LeNatZeros(15);
    assert it.z[1..] == Zeros(15);
    RemainderUnique(2 * (M - 1), M, 1, M - 2);
  }

  lemma TwistedOpens(m: seq<byte>)
    ensures Opens(TheCurve(), LastChallenge(), Twisted(m))
  {
    var it, h := Twisted(m), LastChallenge();
    TwistedScalars(m);
    Parity(M - 1);
    TwoAbelian();
    assert it.rs[32..] == Zeros(32) && it.rs[..32] == Bytes32(false);
    LeNatZeros(32);
    MulZero(Two(), 0);
  }

  lemma TwiceLast(x: int, y: int)
    requires x == M - 1 && y == 2
    ensures (M - 2) - x * y == -M && (-M) % 2 == 1
  {
    RemainderUnique(-M, 2, -(M / 2) - 1, 1);
  }

  lemma TwistedKey(m: seq<byte>)
    ensures NegKey(TheCurve(), Twisted(m)) == true
  {
    var it := Twisted(m);
    assert |it.rs| == 64 && it.rs[..32] == Bytes32(false);
  }

  /** h z is reduced by m, which is odd. */
  lemma TwistedOffset(m: seq<byte>)
    ensures Offset(TheCurve(), LastChallenge(), Twisted(m)) == true
  {
    var c, h, it := TheCurve(), LastChallenge(), Twisted(m);
    TwistedScalars(m);
    TwistedKey(m);
    TwiceLast(H(h, it), Z(it));
    Parity(KeyScalar(h, it) - H(h, it) * Z(it));
  }

  lemma FiveOffsets(m: seq<byte>)
    ensures OffsetSum(TheCurve(), LastChallenge(), Five(m)) == true
  {
    var t := Offsets(TheCurve(), LastChallenge(), Five(m));
    TwistedOffset(m);
    assert forall i :: 0 <= i < 5 ==> t[i] == true;
    assert Total(Two(), t, 1) == true;
    assert Total(Two(), t, 2) == false;
    assert Total(Two(), t, 3) == true;
    assert Total(Two(), t, 4) == false;
  }

  lemma FiveExtend(m: seq<byte>)
    ensures Extends(LastChallenge(), Five(m))
  {
    var b, h := Five(m), LastChallenge();
    var v := BatchVals(h, b);
    TwistedScalars(m);
    BatchValsNatural(h, b);
    assert v[5] == KeyScalars(h, b)[4] == M - 2;
    assert v[6] == Zs(b)[0] == 2;
    GcdAtMost(v, 7, 6);
  }

  lemma OnlyBatch(b: seq<Item>)
    requires 4 <= |b| <= MAX_BATCH
    ensures BatchCount(|b|) == 1 && BatchAt(b, 0) == b
  {
  }

  lemma OneOutcome<G(!new)>(c: Curve<G>, h: HashFn, b: seq<Item>, os: seq<Outcome>)
    requires GoodCurve(c) && GoodItems(b) && OnlySmallTorsion8(c.g, M) && 4 <= |b| <= MAX_BATCH
    requires |os| == BatchCount(|b|) && AllOutcomesOk(c, h, b, os) && Complete(h, b)
    requires forall it :: it in b ==> Opens(c, h, it)
    ensures |os| == 1 && os[0] == if OffsetSum(c, h, b) == c.g.zero then Balanced else Unbalanced
  {
    OnlyBatch(b);
    assert Complete(h, BatchAt(b, 0)) == Complete(h, b);
    CleanBatch(c, h, b, os, 0);
  }

  /** One batch of signatures that open one by one: the code tells whether the offsets cancel. */
  lemma OneCleanBatch<G(!new)>(c: Curve<G>, h: HashFn, b: seq<Item>, os: seq<Outcome>, valid: seq<int>)
    requires GoodCurve(c) && GoodItems(b) && OnlySmallTorsion8(c.g, M) && 4 <= |b| <= MAX_BATCH && |valid| == |b|
    requires |os| == BatchCount(|b|) && AllOutcomesOk(c, h, b, os) && Complete(h, b)
    requires forall it :: it in b ==> Opens(c, h, it)
    requires forall i :: 0 <= i < |b| ==> valid[i] == if InBalanced(os, i) || Opens(c, h, b[i]) then 1 else 0
    ensures forall i :: 0 <= i < |b| ==> valid[i] == 1
    ensures Code(SomeInvalid(valid, |b|), SomeUnbalanced(os)) == if OffsetSum(c, h, b) == c.g.zero then 0 else 2
  {
    OneOutcome(c, h, b, os);
    if os[0] == Unbalanced {
      assert SomeUnbalanced(os);
    }
  }

  /**
   Five signatures that open one by one and whose batch extends: the batch is unbalanced, so that
   batch opening falls back to opening one by one, and returns 2 with every signature valid.
   */
  lemma OffsetsUnbalance(m: seq<byte>, os: seq<Outcome>, valid: seq<int>)
    requires |os| == BatchCount(5) && AllOutcomesOk(TheCurve(), LastChallenge(), Five(m), os) && |valid| == 5
    requires forall i :: 0 <= i < 5 ==>
      valid[i] == if InBalanced(os, i) || Opens(TheCurve(), LastChallenge(), Five(m)[i]) then 1 else 0
    ensures Opens(TheCurve(), LastChallenge(), Twisted(m)) && Extends(LastChallenge(), Five(m))
    ensures (forall i :: 0 <= i < 5 ==> valid[i] == 1) && Code(SomeInvalid(valid, 5), SomeUnbalanced(os)) == 2
  {
    var c, h, b := TheCurve(), LastChallenge(), Five(m);
    Qualifies();
    TwistedOpens(m);
    TwistedScalars(m);
    FiveExtend(m);
    FiveOffsets(m);
    ExtendingIsComplete(h, b);
    OneCleanBatch(c, h, b, os, valid);
  }
}
