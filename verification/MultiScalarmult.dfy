/** ge25519_multi_scalarmult_vartime as a whole, and the verdict it supports. */
module MultiScalarmult {
  import opened Words
  import opened Modm
  import opened BatchScalar
  import opened BatchHeap
  import opened AbelianGroup
  import opened WeightedSum
  import opened Gcd
  import opened BosCoster
  import opened Ladder

  /** The scalar that the ladder multiplies by: the digits below 2^224, and one surplus digit above them. */
  ghost function LadderScalar(d: nat): nat {
    d % B4 + Pow2(BitLength(d % B4))
  }

  /** What the final ladder makes of the last scalar d and its point. */
  ghost function FinalPoint<G>(g: Ops<G>, d: nat, p: G): Reached<G> {
    if d == 0 then Point(g.zero)
    else if d == 1 then Point(p)
    else if d % B4 == 0 then OutOfRange
    else Point(Mul(g, LadderScalar(d), p))
  }

  lemma LowFour(a: seq<int>)
    requires Limbs(a, B)
    ensures 0 <= Low(a, 4) && Low(a, 4) == Val(a) % B4
  {
    LowIsVal(a);
    LowBound(a, 4);
    assert PowB(1) == B && PowB(2) == B2 && PowB(3) == B3 && PowB(4) == B4;
    RemainderUnique(Val(a), B4, a[4], Low(a, 4));
  }

  /** How many of the scalars a run accounts for. */
  ghost function Covered(v: seq<int>, count: nat): (n: nat)
    requires 3 <= count <= |v| && count % 2 == 1
    ensures n <= count
  {
    if WillExtend(v, InitialSize(count)) then count else InitialSize(count)
  }

  /** The run extends, or there is nothing behind the first scalars to extend to. */
  ghost predicate Accounted(v: seq<int>, count: nat)
    requires 3 <= count <= |v| && count % 2 == 1
  {
    var k := InitialSize(count);
    WillExtend(v, k) || forall i :: k <= i < count ==> v[i] == 0
  }

  /** Zero scalars add nothing to the sum. */
  lemma {:induction false} ZeroRest<G(!new)>(g: Ops<G>, v: seq<int>, p: seq<G>, k: nat, n: nat)
    requires Abelian(g) && k <= n <= |v| == |p| && forall i :: k <= i < n ==> v[i] == 0
    ensures Weighted(g, v, p, n) == Weighted(g, v, p, k)
    decreases n
  {
    if n > k {
      ZeroRest(g, v, p, k, n - 1);
      Unit(g, Weighted(g, v, p, n - 1));
    }
  }

  /** In every group, what is accounted for is the whole sum. */
  lemma AccountedIsWhole<G(!new)>(g: Ops<G>, v: seq<int>, p: seq<G>, count: nat)
    requires Abelian(g) && |v| == |p| && 3 <= count <= |v| && count % 2 == 1
    ensures Accounted(v, count) ==> Weighted(g, v, p, Covered(v, count)) == Weighted(g, v, p, count)
  {
    if Accounted(v, count) {
      ZeroRest(g, v, p, Covered(v, count), count);
    }
  }

  /**
   The final ladder looks at the limbs 0..3 only: it stays in range exactly when the last scalar,
   the gcd of the scalars covered, shows in those limbs or is zero.
   */
  ghost predicate LadderSafe(v: seq<int>, count: nat)
    requires 3 <= count <= |v| && count % 2 == 1
  {
    var d := GcdOf(v, Covered(v, count));
    d == 0 || d % B4 != 0
  }

  lemma ExtendingGcd(v: seq<int>, count: nat)
    requires NonNegative(v, count) && count >= 3 && count % 2 == 1 && WillExtend(v, InitialSize(count))
    ensures LadderSafe(v, count) && 0 < GcdOf(v, count) < TWO128
  {
    var k := InitialSize(count);
    var i, j :| 0 <= i < k && 0 <= j < k && i != j && i < |v| && j < |v| && v[i] != 0 && v[j] != 0;
    GcdAtMost(v, count, i);
    GcdAtMost(v, k, i);
    var x, y := GcdOf(v, count), GcdOf(v, k);
    DividesSelf(x);
    GcdOfDivisors(x, v, count);
    assert CommonDivisor(x, v, k);
    GcdOfDivisors(x, v, k);
    DividesAtMost(x, y);
    RemainderUnique(x, B4, 0, x);
  }

  /** A run that extends ends with a gcd the ladder can see, and accounts for all scalars. */
  lemma ExtendingIsSafe(v: seq<int>, count: nat)
    requires NonNegative(v, count) && count >= 3 && count % 2 == 1
    ensures WillExtend(v, InitialSize(count)) ==>
      LadderSafe(v, count) && 0 < GcdOf(v, count) < TWO128 && Accounted(v, count)
  {
    if WillExtend(v, InitialSize(count)) {
      ExtendingGcd(v, count);
    }
  }

  lemma GcdShows(d: nat)
    ensures 0 < d < TWO128 ==> d % B4 == d != 0
  {
    if 0 < d < TWO128 {
      RemainderUnique(d, B4, 0, d);
    }
  }

  lemma OneShows(d: nat)
    ensures d == 1 ==> d % B4 != 0
  {
    GcdShows(d);
  }

  method FinalOf<G(!new)>(g: Ops<G>, point: G, scalar: seq<int>) returns (r: Reached<G>)
    requires Abelian(g) && Limbs(scalar, B)
    ensures Val(scalar) >= 0 && r == FinalPoint(g, Val(scalar), point)
  {
    LowFour(scalar);
    LowIsVal(scalar);
    LowBound(scalar, 5);
    r := MultiScalarmultFinal(g, point, scalar);
    OneShows(Val(scalar));
  }

  lemma {:induction false} BitLengthBounds(d: nat, n: nat)
    requires d < Pow2(n)
    ensures BitLength(d) <= n
    decreases n
  {
    if d > 0 {
      BitLengthBounds(d / 2, n - 1);
    }
  }

  lemma LadderScalarBound(d: nat)
    ensures LadderScalar(d) < M
  {
    TwoTo224();
    DivMod(d, B4);
    BitLengthBounds(d % B4, 224);
    Pow2Monotonic(BitLength(d % B4), 224);
  }

  lemma KilledBy8<G(!new)>(g: Ops<G>, k: int, p: G)
    requires Abelian(g) && OnlySmallTorsion8(g, M) && 0 < k < M && Mul(g, k, p) == g.zero
    ensures Mul(g, 8, p) == g.zero
  {
    MulMul(g, k, 8, p);
    MulMul(g, 8, k, p);
    MulZero(g, 8);
  }

  lemma KillMultiple<G(!new)>(g: Ops<G>, k: int, l: int, p: G)
    requires Abelian(g) && Mul(g, l, p) == g.zero
    ensures Mul(g, k * l, p) == g.zero
  {
    MulMul(g, k, l, p);
    MulZero(g, k);
  }

  /** Multiples of 8 do not matter to a point of 8-torsion. */
  lemma DropMultiple<G(!new)>(g: Ops<G>, x: int, k: int, p: G)
    requires Abelian(g) && Mul(g, 8, p) == g.zero
    ensures Mul(g, x + k * 8, p) == Mul(g, x, p)
  {
    KillMultiple(g, k, 8, p);
    MulAdd(g, x, k * 8, p);
    Unit(g, Mul(g, x, p));
  }

  lemma ThreeDigits(x: nat)
    requires x >= 4
    ensures BitLength(x) >= 3
  {
    assert BitLength(x) == 1 + BitLength(x / 2);
    assert BitLength(x / 2) == 1 + BitLength(x / 2 / 2);
    assert BitLength(x / 2 / 2) == 1 + BitLength(x / 2 / 2 / 2);
  }

  /** From 4 on, the surplus of the ladder is a multiple of 8. */
  lemma SurplusVanishes<G(!new)>(g: Ops<G>, x: nat, p: G)
    requires Abelian(g) && x >= 4 && Mul(g, 8, p) == g.zero
    ensures Mul(g, x + Pow2(BitLength(x)), p) == Mul(g, x, p)
  {
    var l := BitLength(x);
    ThreeDigits(x);
    Pow2Add(l - 3, 3);
    assert Pow2(3) == 8;
    DropMultiple(g, x, Pow2(l - 3), p);
  }

  /** k p = 0 and l p = 0 give (k - l) p = 0. */
  lemma KillDifference<G(!new)>(g: Ops<G>, k: int, l: int, p: G)
    requires Abelian(g) && Mul(g, k, p) == g.zero && Mul(g, l, p) == g.zero
    ensures Mul(g, k - l, p) == g.zero
  {
    MulNeg(g, l, p);
    MulAdd(g, k, -l, p);
    NegZero(g);
    Unit(g, g.zero);
  }

  lemma OneAndThree<G(!new)>(g: Ops<G>, p: G)
    requires Abelian(g) && Mul(g, 8, p) == g.zero
    ensures BitLength(1) == 1 && Pow2(1) == 2
    ensures Mul(g, 1, p) == g.zero <==> Mul(g, 3, p) == g.zero
  {
    if Mul(g, 1, p) == g.zero { KillMultiple(g, 3, 1, p); }
    if Mul(g, 3, p) == g.zero { KillMultiple(g, 3, 3, p); KillDifference(g, 9, 8, p); }
  }

  lemma TwoAndSix<G(!new)>(g: Ops<G>, p: G)
    requires Abelian(g) && Mul(g, 8, p) == g.zero
    ensures BitLength(2) == 2 && Pow2(2) == 4
    ensures Mul(g, 2, p) == g.zero <==> Mul(g, 6, p) == g.zero
  {
    assert BitLength(2) == 1 + BitLength(1);
    if Mul(g, 2, p) == g.zero { KillMultiple(g, 3, 2, p); }
    if Mul(g, 6, p) == g.zero { KillDifference(g, 8, 6, p); }
  }

  lemma ThreeAndSeven<G(!new)>(g: Ops<G>, p: G)
    requires Abelian(g) && Mul(g, 8, p) == g.zero
    ensures BitLength(3) == 2 && Pow2(2) == 4
    ensures Mul(g, 3, p) == g.zero <==> Mul(g, 7, p) == g.zero
  {
    assert BitLength(3) == 1 + BitLength(1);
    if Mul(g, 3, p) == g.zero { KillMultiple(g, 5, 3, p); KillDifference(g, 15, 8, p); }
    if Mul(g, 7, p) == g.zero { KillDifference(g, 8, 7, p); KillMultiple(g, 3, 1, p); }
  }

  lemma SmallCases<G(!new)>(g: Ops<G>, x: nat, p: G)
    requires Abelian(g) && x >= 1 && Mul(g, 8, p) == g.zero
    ensures Mul(g, x, p) == g.zero <==> Mul(g, x + Pow2(BitLength(x)), p) == g.zero
  {
    if x >= 4 {
      SurplusVanishes(g, x, p);
    } else if x == 1 {
      OneAndThree(g, p);
    } else if x == 2 {
      TwoAndSix(g, p);
    } else {
      ThreeAndSeven(g, p);
    }
  }

  lemma TorsionVerdict<G(!new)>(g: Ops<G>, x: nat, k: int, p: G)
    requires Abelian(g) && x > 0 && Mul(g, 8, p) == g.zero
    ensures Mul(g, x + Pow2(BitLength(x)), p) == g.zero <==> Mul(g, x + k * 8, p) == g.zero
  {
    SmallCases(g, x, p);
    DropMultiple(g, x, k, p);
  }

  lemma LadderVerdict<G(!new)>(g: Ops<G>, d: nat, x: nat, k: int, e: nat, p: G)
    requires Abelian(g) && OnlySmallTorsion8(g, M) && 0 < d < M && d == x + k * 8 && x > 0
      && e == x + Pow2(BitLength(x)) < M
    ensures Mul(g, e, p) == g.zero <==> Mul(g, d, p) == g.zero
  {
    if Mul(g, d, p) == g.zero {
      KilledBy8(g, d, p);
      TorsionVerdict(g, x, k, p);
    } else if Mul(g, e, p) == g.zero {
      KilledBy8(g, e, p);
      TorsionVerdict(g, x, k, p);
    }
  }

  /** The digits from 2^224 on are a multiple of 8. */
  lemma HighDigits(d: nat) returns (k: int)
    ensures d == d % B4 + k * 8
  {
    DivMod(d, B4);
    k := (B4 / 8) * (d / B4);
  }

  /** Below m, and where the ladder stays in range, its result is neutral exactly when d p is. */
  lemma VerdictIsExact<G(!new)>(g: Ops<G>, d: nat, p: G)
    requires Abelian(g) && OnlySmallTorsion8(g, M) && d < M && (d == 0 || d % B4 != 0)
    ensures FinalPoint(g, d, p) == Point(g.zero) <==> Mul(g, d, p) == g.zero
  {
    if d == 0 {
    } else if d == 1 {
      MulOne(g, p);
    } else {
      LadderScalarBound(d);
      var k := HighDigits(d);
      LadderVerdict(g, d, d % B4, k, LadderScalar(d), p);
    }
  }

  lemma Verdict<G(!new)>(g: Ops<G>, v: seq<int>, p: seq<G>, count: nat, point: G, r: Reached<G>)
    requires Abelian(g) && |v| == |p| && NonNegative(v, count) && count >= 3 && count % 2 == 1
    requires Mul(g, GcdOf(v, Covered(v, count)), point) == Weighted(g, v, p, Covered(v, count))
    requires r == FinalPoint(g, GcdOf(v, Covered(v, count)), point)
    ensures r == OutOfRange <==> !LadderSafe(v, count)
    ensures r != OutOfRange && GcdOf(v, Covered(v, count)) < M && OnlySmallTorsion8(g, M) ==>
      (r == Point(g.zero) <==> Weighted(g, v, p, Covered(v, count)) == g.zero)
    ensures WillExtend(v, InitialSize(count)) ==> r != OutOfRange && GcdOf(v, count) < M
  {
    var d := GcdOf(v, Covered(v, count));
    OneShows(d);
    ExtendingIsSafe(v, count);
    if r != OutOfRange && d < M && OnlySmallTorsion8(g, M) {
      VerdictIsExact(g, d, point);
    }
  }

  /**
   The multi-scalar multiplication of the scalars v and the points p: the last scalar is the gcd d
   of the scalars covered, its point q satisfies d q = their weighted sum, and the ladder's result
   is FinalPoint(d, q).  The ladder leaves the scalar exactly when LadderSafe fails.  Otherwise, for
   scalars below m, the result is neutral exactly when the sum covered is, which is the whole sum
   when the scalars are accounted for; VerdictExactly shows that this condition is needed.
   */
  method MultiScalarmultVartime<G(!new)>(g: Ops<G>, batch: BatchHeap<G>, count: nat, ghost v: seq<int>, ghost p: seq<G>)
    returns (r: Reached<G>, extended: bool, ghost q: G)
    requires Abelian(g) && Ready(batch, count) && ScalarVals(batch) == v && batch.points[..] == p
      && NonNegative(v, count)
    modifies batch`size, batch.heap, batch.scalars, batch.points
    ensures batch.Shape()
    ensures extended <==> WillExtend(v, InitialSize(count))
    ensures var n := Covered(v, count);
      Mul(g, GcdOf(v, n), q) == Weighted(g, v, p, n) && r == FinalPoint(g, GcdOf(v, n), q)
    ensures r == OutOfRange <==> !LadderSafe(v, count)
    ensures var n := Covered(v, count);
      r != OutOfRange && GcdOf(v, n) < M && OnlySmallTorsion8(g, M) ==>
        (r == Point(g.zero) <==> Weighted(g, v, p, n) == g.zero)
    ensures extended ==> r != OutOfRange && Covered(v, count) == count && GcdOf(v, count) < M
    ensures Accounted(v, count) ==> Weighted(g, v, p, Covered(v, count)) == Weighted(g, v, p, count)
  {
    AccountedIsWhole(g, v, p, count);
    var max1;
    max1, extended := Reduce(g, batch, count);
    q := batch.points[max1];
    r := FinalOf(g, batch.points[max1], batch.scalars[max1]);
    Verdict(g, v, p, count, q, r);
  }

  // ---------- the verdict ----------

  lemma SurplusExact<G(!new)>(g: Ops<G>, d: int, l: int, p: G)
    requires Abelian(g)
    ensures Mul(g, d + l, p) == Mul(g, d, p) <==> Mul(g, l, p) == g.zero
  {
    MulAdd(g, d, l, p);
    Unit(g, Mul(g, d, p));
    if Mul(g, d + l, p) == Mul(g, d, p) {
      Comm(g, Mul(g, d, p), Mul(g, l, p));
      Comm(g, Mul(g, d, p), g.zero);
      Cancel(g, Mul(g, l, p), g.zero, Mul(g, d, p));
    }
  }

  /** The ladder returns d p exactly when d is at most 1, or it stays in range and the scalars' difference kills p. */
  lemma FinalPointExact<G(!new)>(g: Ops<G>, d: nat, p: G)
    requires Abelian(g)
    ensures FinalPoint(g, d, p) == Point(Mul(g, d, p)) <==>
      d <= 1 || (d % B4 != 0 && Mul(g, LadderScalar(d) - d, p) == g.zero)
  {
    if d <= 1 {
      MulOne(g, p);
      assert Mul(g, 0, p) == g.zero;
    } else {
      SurplusExact(g, d, LadderScalar(d) - d, p);
    }
  }

  // ---------- when the verdict on the whole sum is right ----------

  /** For these points: the result is neutral exactly when the whole sum is. */
  ghost predicate VerdictRight(v: seq<int>, count: nat, p: seq<int>, q: int)
    requires 3 <= count <= |v| && count % 2 == 1
  {
    var g, n := Integers(), Covered(v, count);
    |p| == |v| && Mul(g, GcdOf(v, n), q) == Weighted(g, v, p, n) ==>
      (FinalPoint(g, GcdOf(v, n), q) == Point(0) <==> Weighted(g, v, p, count) == 0)
  }

  ghost predicate SumsAgree(v: seq<int>, count: nat, p: seq<int>)
    requires 3 <= count <= |v| && count % 2 == 1
  {
    |p| == |v| ==> Weighted(Integers(), v, p, Covered(v, count)) == Weighted(Integers(), v, p, count)
  }

  /** One point at j, the others neutral. */
  ghost function OneAt(n: nat, j: nat): (p: seq<int>)
    ensures |p| == n
  {
    seq(n, i => if i == j then 1 else 0)
  }

  lemma {:induction false} UnitSum(v: seq<int>, j: nat, n: nat)
    requires n <= |v|
    ensures Weighted(Integers(), v, OneAt(|v|, j), n) == if j < n then v[j] else 0
    decreases n
  {
    var g, p := Integers(), OneAt(|v|, j);
    if n > 0 {
      UnitSum(v, j, n - 1);
      IntegersMul(v[n - 1], p[n - 1]);
    }
  }

  lemma MultipleVanishes(d: int, q: int)
    requires d > 0
    ensures Mul(Integers(), d, q) == 0 <==> q == 0
  {
    IntegersMul(d, q);
    if d * q == 0 {
      NoZeroDivisor(d, q);
    }
  }

  lemma LadderScalarPositive(d: nat)
    requires d % B4 != 0
    ensures LadderScalar(d) > 0
  {
    DivMod(d, B4);
  }

  /** The ladder on the integers: neutral exactly when the multiple is. */
  lemma IntegerVerdict(d: nat, q: int)
    requires d == 0 || d % B4 != 0
    ensures FinalPoint(Integers(), d, q) == Point(0) <==> Mul(Integers(), d, q) == 0
  {
    if d > 0 {
      LadderScalarPositive(d);
      MultipleVanishes(d, q);
      MultipleVanishes(LadderScalar(d), q);
    } else {
      IntegersMul(0, q);
    }
  }

  lemma NeutralIsRight(v: seq<int>, count: nat, p: seq<int>, q: int)
    requires 3 <= count <= |v| && count % 2 == 1 && Accounted(v, count) && LadderSafe(v, count)
    ensures VerdictRight(v, count, p, q)
  {
    IntegersQualify(M);
    IntegerVerdict(GcdOf(v, Covered(v, count)), q);
    if |p| == |v| {
      AccountedIsWhole(Integers(), v, p, count);
    }
  }

  /** With a nonzero scalar j left out, the point 1 at j and 0 elsewhere gives a wrong verdict. */
  lemma LeftOut(v: seq<int>, count: nat, j: nat)
    requires 3 <= count <= |v| && count % 2 == 1
    requires !WillExtend(v, InitialSize(count)) && InitialSize(count) <= j < count && v[j] != 0
    ensures LadderSafe(v, count) ==> !VerdictRight(v, count, OneAt(|v|, j), 0)
    ensures !SumsAgree(v, count, OneAt(|v|, j))
  {
    var d := GcdOf(v, Covered(v, count));
    UnitSum(v, j, Covered(v, count));
    UnitSum(v, j, count);
    IntegersMul(d, 0);
    if d == 0 || d % B4 != 0 {
      IntegerVerdict(d, 0);
    }
  }

  /** Out of range: wrong for neutral points. */
  lemma OutOfRangeIsWrong(v: seq<int>, count: nat)
    requires 3 <= count <= |v| && count % 2 == 1 && !LadderSafe(v, count)
    ensures !VerdictRight(v, count, OneAt(|v|, |v|), 0)
  {
    UnitSum(v, |v|, Covered(v, count));
    UnitSum(v, |v|, count);
    IntegersMul(GcdOf(v, Covered(v, count)), 0);
    OneShows(GcdOf(v, Covered(v, count)));
  }

  /**
   The verdict on the whole sum is right for all points exactly when the scalars are accounted for
   and the ladder stays in range.
   */
  lemma VerdictExactly(v: seq<int>, count: nat)
    requires 3 <= count <= |v| && count % 2 == 1
    ensures (forall p: seq<int>, q: int :: VerdictRight(v, count, p, q)) <==>
      Accounted(v, count) && LadderSafe(v, count)
  {
    if Accounted(v, count) && LadderSafe(v, count) {
      forall p: seq<int>, q: int ensures VerdictRight(v, count, p, q) {
        NeutralIsRight(v, count, p, q);
      }
    } else if !LadderSafe(v, count) {
      OutOfRangeIsWrong(v, count);
    } else {
      var j :| InitialSize(count) <= j < count && v[j] != 0;
      LeftOut(v, count, j);
    }
  }

  /** The sum covered is the whole sum for all points exactly when the scalars are accounted for. */
  lemma WholeSumExactly(v: seq<int>, count: nat)
    requires 3 <= count <= |v| && count % 2 == 1
    ensures (forall p: seq<int> :: SumsAgree(v, count, p)) <==> Accounted(v, count)
  {
    if Accounted(v, count) {
      IntegersQualify(M);
      forall p: seq<int> ensures SumsAgree(v, count, p) {
        if |p| == |v| {
          AccountedIsWhole(Integers(), v, p, count);
        }
      }
    } else {
      var j :| InitialSize(count) <= j < count && v[j] != 0;
      LeftOut(v, count, j);
    }
  }
}
