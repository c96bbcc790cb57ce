/** Concrete inputs on which the multi-scalar multiplication falls short of the weighted sum. */
module Limits {
  import opened Words
  import opened Modm
  import opened AbelianGroup
  import opened WeightedSum
  import opened Gcd
  import opened BosCoster
  import opened Ladder
  import opened MultiScalarmult

  const NINE: nat := 9  // the count of the smallest batch, of 4 signatures

  /** Nine scalars, all zero but the one at `place`. */
  ghost function Alone(place: nat, x: nat): (v: seq<int>)
    ensures |v| == 9
  {
    seq(9, i => if i == place then x else 0)
  }

  /** With one scalar alone the run does not extend, and covers the first five. */
  lemma AloneRun(place: nat, x: nat)
    requires place < 9
    ensures var v := Alone(place, x);
      && NonNegative(v, NINE) && InitialSize(NINE) == 5 && !WillExtend(v, 5) && Covered(v, NINE) == 5
      && GcdOf(v, 5) == if place < 5 then x else 0
  {
    GcdOfLast(Alone(place, x), 5, if place < 5 then place else 0);
  }

  /** The scalar 2^224 alone sends the final ladder out of range. */
  lemma LadderLeavesScalar<G(!new)>(g: Ops<G>, q: G)
    ensures var v := Alone(0, B4);
      NonNegative(v, NINE) && !LadderSafe(v, NINE) && FinalPoint(g, GcdOf(v, Covered(v, NINE)), q) == OutOfRange
  {
    AloneRun(0, B4);
    RemainderUnique(B4, B4, 1, 0);
  }

  /** The scalar 2^224 + 1 alone makes it return 3 times the point. */
  lemma LadderDropsLimb<G(!new)>(g: Ops<G>, q: G)
    ensures var v := Alone(0, B4 + 1);
      NonNegative(v, NINE) && LadderSafe(v, NINE) && FinalPoint(g, GcdOf(v, Covered(v, NINE)), q) == Point(Mul(g, 3, q))
  {
    AloneRun(0, B4 + 1);
    RemainderUnique(B4 + 1, B4, 1, 1);
    assert BitLength(1) == 1 && Pow2(1) == 2;
  }

  /**
   The exit test comes before the extension test: in the integers, with all points 1, the scalar 1
   alone in the last place is left out, so that the result is neutral and the weighted sum is 1.
   */
  lemma UnextendedMisses(q: int)
    ensures var v, p, g := Alone(8, 1), seq(9, _ => 1), Integers();
      && NonNegative(v, NINE) && LadderSafe(v, NINE) && !Accounted(v, NINE)
      && Mul(g, GcdOf(v, Covered(v, NINE)), q) == Weighted(g, v, p, Covered(v, NINE))
      && FinalPoint(g, GcdOf(v, Covered(v, NINE)), q) == Point(0) && Weighted(g, v, p, NINE) == 1
  {
    var v, p, g := Alone(8, 1), seq(9, _ => 1), Integers();
    IntegersQualify(M);
    AloneRun(8, 1);
    WeightedOfLast(g, v, p, 5, 8);
    WeightedOfLast(g, v, p, 9, 8);
    IntegersMul(1, 1);
    assert v[8] != 0;
  }

  type third = x: int | 0 <= x < 3

  function Plus(a: third, b: third): third {
    if a + b < 3 then a + b else a + b - 3
  }

  function Minus(a: third): third {
    if a == 0 then 0 else 3 - a
  }

  /** The group of order 3. */
  function Thirds(): Ops<third> {
    Ops(0, Plus, Minus)
  }

  lemma ThirdsAbelian()
    ensures Abelian(Thirds())
  {
    var g := Thirds();
    forall a: third, b: third, c: third ensures AssocAt(g, a, b, c) {}
    forall a: third, b: third ensures CommAt(g, a, b) {}
    forall a: third ensures UnitAt(g, a) {}
    forall a: third ensures InverseAt(g, a) {}
  }

  lemma LadderOfTwo()
    ensures FinalPoint(Thirds(), 2, 1) == Point(Mul(Thirds(), 6, 1))
  {
    RemainderUnique(2, B4, 0, 2);
    assert BitLength(2) == 2 && Pow2(2) == 4;
  }

  lemma SixTimesOne(g: Ops<third>)
    requires g == Thirds() && Abelian(g)
    ensures Mul(g, 6, 1) == 0 && Mul(g, 2, 1) == 2
  {
    MulTwo(g, 1);
    MulMul(g, 3, 2, 1);
    MulAdd(g, 1, 2, 2);
    MulTwo(g, 2);
    MulOne(g, 2);
  }

  /** With 3-torsion the ladder's extra 2^L P changes the verdict: 2 P is not neutral, (2 + 4) P is. */
  lemma TorsionMatters()
    ensures Abelian(Thirds()) && FinalPoint(Thirds(), 2, 1) == Point(0) && Mul(Thirds(), 2, 1) == 2
  {
    ThirdsAbelian();
    LadderOfTwo();
    SixTimesOne(Thirds());
  }
}
