/**
 Abelian groups as a record of operations.  The curve points enter the model only through such a
 record: every result about scalar multiplication holds in each group that satisfies Abelian.

 The laws are quantified over named instances (AssocAt, CommAt, ...) so that the verifier uses a
 law only where a proof names the instance.
 */
module AbelianGroup {

  datatype Ops<!G> = Ops(zero: G, add: (G, G) -> G, neg: G -> G)

  function Add<G>(g: Ops<G>, a: G, b: G): G {
    (g.add)(a, b)
  }

  function Neg<G>(g: Ops<G>, a: G): G {
    (g.neg)(a)
  }

  predicate AssocAt<G(==)>(g: Ops<G>, a: G, b: G, c: G) {
    Add(g, Add(g, a, b), c) == Add(g, a, Add(g, b, c))
  }

  predicate CommAt<G(==)>(g: Ops<G>, a: G, b: G) {
    Add(g, a, b) == Add(g, b, a)
  }

  predicate UnitAt<G(==)>(g: Ops<G>, a: G) {
    Add(g, a, g.zero) == a
  }

  predicate InverseAt<G(==)>(g: Ops<G>, a: G) {
    Add(g, a, Neg(g, a)) == g.zero
  }

  ghost predicate Abelian<G(!new)>(g: Ops<G>) {
    && (forall a, b, c :: AssocAt(g, a, b, c))
    && (forall a, b :: CommAt(g, a, b))
    && (forall a :: UnitAt(g, a))
    && (forall a :: InverseAt(g, a))
  }

  lemma Assoc<G(!new)>(g: Ops<G>, a: G, b: G, c: G)
    requires Abelian(g)
    ensures Add(g, Add(g, a, b), c) == Add(g, a, Add(g, b, c))
  {
    assert AssocAt(g, a, b, c);
  }

  lemma Comm<G(!new)>(g: Ops<G>, a: G, b: G)
    requires Abelian(g)
    ensures Add(g, a, b) == Add(g, b, a)
  {
    assert CommAt(g, a, b);
  }

  lemma Unit<G(!new)>(g: Ops<G>, a: G)
    requires Abelian(g)
    ensures Add(g, a, g.zero) == a && Add(g, g.zero, a) == a
  {
    assert UnitAt(g, a) && CommAt(g, a, g.zero);
  }

  lemma Inverse<G(!new)>(g: Ops<G>, a: G)
    requires Abelian(g)
    ensures Add(g, a, Neg(g, a)) == g.zero && Add(g, Neg(g, a), a) == g.zero
  {
    assert InverseAt(g, a) && CommAt(g, a, Neg(g, a));
  }

  /** (a + b) + (c + d) = (a + c) + (b + d) */
  lemma Interchange<G(!new)>(g: Ops<G>, a: G, b: G, c: G, d: G)
    requires Abelian(g)
    ensures Add(g, Add(g, a, b), Add(g, c, d)) == Add(g, Add(g, a, c), Add(g, b, d))
  {
    Assoc(g, a, b, Add(g, c, d));
    Assoc(g, b, c, d);
    Comm(g, b, c);
    Assoc(g, c, b, d);
    Assoc(g, a, c, Add(g, b, d));
  }

  lemma Cancel<G(!new)>(g: Ops<G>, a: G, b: G, c: G)
    requires Abelian(g) && Add(g, a, c) == Add(g, b, c)
    ensures a == b
  {
    Assoc(g, a, c, Neg(g, c));
    Assoc(g, b, c, Neg(g, c));
    Inverse(g, c);
    Unit(g, a);
    Unit(g, b);
  }

  lemma NegUnique<G(!new)>(g: Ops<G>, a: G, b: G)
    requires Abelian(g) && Add(g, a, b) == g.zero
    ensures b == Neg(g, a)
  {
    Inverse(g, a);
    Comm(g, a, b);
    Cancel(g, b, Neg(g, a), a);
  }

  lemma NegNeg<G(!new)>(g: Ops<G>, a: G)
    requires Abelian(g)
    ensures Neg(g, Neg(g, a)) == a
  {
    Inverse(g, a);
    NegUnique(g, Neg(g, a), a);
  }

  lemma NegAdd<G(!new)>(g: Ops<G>, a: G, b: G)
    requires Abelian(g)
    ensures Neg(g, Add(g, a, b)) == Add(g, Neg(g, a), Neg(g, b))
  {
    Interchange(g, a, b, Neg(g, a), Neg(g, b));
    Inverse(g, a);
    Inverse(g, b);
    Unit(g, g.zero);
    NegUnique(g, Add(g, a, b), Add(g, Neg(g, a), Neg(g, b)));
  }

  lemma NegZero<G(!new)>(g: Ops<G>)
    requires Abelian(g)
    ensures Neg(g, g.zero) == g.zero
  {
    Unit(g, g.zero);
    NegUnique(g, g.zero, g.zero);
  }

  /** n times p, for any integer n. */
  function Mul<G>(g: Ops<G>, n: int, p: G): G
    decreases g, if n >= 0 then n else 1 - n
  {
    if n == 0 then g.zero
    else if n > 0 then Add(g, Mul(g, n - 1, p), p)
    else Neg(g, Mul(g, -n, p))
  }

  lemma MulOne<G(!new)>(g: Ops<G>, p: G)
    requires Abelian(g)
    ensures Mul(g, 1, p) == p
  {
    Unit(g, p);
    assert Mul(g, 0, p) == g.zero;
  }

  lemma MulTwo<G(!new)>(g: Ops<G>, p: G)
    requires Abelian(g)
    ensures Mul(g, 2, p) == Add(g, p, p)
  {
    MulOne(g, p);
  }

  lemma MulNeg<G(!new)>(g: Ops<G>, n: int, p: G)
    requires Abelian(g)
    ensures Mul(g, -n, p) == Neg(g, Mul(g, n, p))
  {
    if n == 0 {
      NegZero(g);
    } else if n < 0 {
      NegNeg(g, Mul(g, -n, p));
    }
  }

  /** One step up, also across zero. */
  lemma MulSucc<G(!new)>(g: Ops<G>, n: int, p: G)
    requires Abelian(g)
    ensures Mul(g, n + 1, p) == Add(g, Mul(g, n, p), p)
  {
    if n < 0 {
      var k := -n;
      var q := Mul(g, k - 1, p);
      assert Mul(g, k, p) == Add(g, q, p);
      MulNeg(g, k - 1, p);
      assert Mul(g, n + 1, p) == Neg(g, q);
      NegAdd(g, q, p);
      Assoc(g, Neg(g, q), Neg(g, p), p);
      Inverse(g, p);
      Unit(g, Neg(g, q));
    }
  }

  lemma {:induction false} MulAddNat<G(!new)>(g: Ops<G>, a: int, b: nat, p: G)
    requires Abelian(g)
    ensures Mul(g, a + b, p) == Add(g, Mul(g, a, p), Mul(g, b, p))
    decreases b
  {
    if b == 0 {
      Unit(g, Mul(g, a, p));
    } else {
      MulAddNat(g, a, b - 1, p);
      MulSucc(g, a + b - 1, p);
      Assoc(g, Mul(g, a, p), Mul(g, b - 1, p), p);
    }
  }

  /** (a + b) p = a p + b p */
  lemma MulAdd<G(!new)>(g: Ops<G>, a: int, b: int, p: G)
    requires Abelian(g)
    ensures Mul(g, a + b, p) == Add(g, Mul(g, a, p), Mul(g, b, p))
  {
    if b >= 0 {
      MulAddNat(g, a, b, p);
    } else {
      var k := -b;
      MulAddNat(g, a + b, k, p);
      assert Mul(g, a, p) == Add(g, Mul(g, a + b, p), Mul(g, k, p));
      Assoc(g, Mul(g, a + b, p), Mul(g, k, p), Mul(g, b, p));
      Inverse(g, Mul(g, k, p));
      Unit(g, Mul(g, a + b, p));
    }
  }

  lemma {:induction false} MulDistNat<G(!new)>(g: Ops<G>, n: nat, p: G, q: G)
    requires Abelian(g)
    ensures Mul(g, n, Add(g, p, q)) == Add(g, Mul(g, n, p), Mul(g, n, q))
  {
    if n == 0 {
      Unit(g, g.zero);
    } else {
      MulDistNat(g, n - 1, p, q);
      Interchange(g, Mul(g, n - 1, p), Mul(g, n - 1, q), p, q);
    }
  }

  /** n (p + q) = n p + n q */
  lemma MulDist<G(!new)>(g: Ops<G>, n: int, p: G, q: G)
    requires Abelian(g)
    ensures Mul(g, n, Add(g, p, q)) == Add(g, Mul(g, n, p), Mul(g, n, q))
  {
    if n >= 0 {
      MulDistNat(g, n, p, q);
    } else {
      MulDistNat(g, -n, p, q);
      NegAdd(g, Mul(g, -n, p), Mul(g, -n, q));
    }
  }

  lemma {:induction false} MulZero<G(!new)>(g: Ops<G>, n: int)
    requires Abelian(g)
    ensures Mul(g, n, g.zero) == g.zero
    decreases if n >= 0 then n else 1 - n
  {
    if n > 0 {
      MulZero(g, n - 1);
      Unit(g, g.zero);
    } else if n < 0 {
      MulZero(g, -n);
      NegZero(g);
    }
  }

  lemma {:induction false} MulMulNat<G(!new)>(g: Ops<G>, a: nat, b: int, p: G)
    requires Abelian(g)
    ensures Mul(g, a * b, p) == Mul(g, a, Mul(g, b, p))
  {
    if a > 0 {
      MulMulNat(g, a - 1, b, p);
      assert a * b == (a - 1) * b + b;
      MulAdd(g, (a - 1) * b, b, p);
    }
  }

  /** (a b) p = a (b p) */
  lemma MulMul<G(!new)>(g: Ops<G>, a: int, b: int, p: G)
    requires Abelian(g)
    ensures Mul(g, a * b, p) == Mul(g, a, Mul(g, b, p))
  {
    if a >= 0 {
      MulMulNat(g, a, b, p);
    } else {
      MulMulNat(g, -a, b, p);
      assert a * b == -((-a) * b);
      MulNeg(g, (-a) * b, p);
    }
  }

  /** Where m p = 0, only the scalar modulo m matters. */
  lemma MulModulo<G(!new)>(g: Ops<G>, n: int, m: int, p: G)
    requires Abelian(g) && m > 0 && Mul(g, m, p) == g.zero
    ensures Mul(g, n % m, p) == Mul(g, n, p)
  {
    var q, r := n / m, n % m;
    assert n == q * m + r;
    MulAdd(g, q * m, r, p);
    MulMul(g, q, m, p);
    MulZero(g, q);
    Unit(g, Mul(g, r, p));
  }

  /**
   No multiple of 8 is killed by a scalar strictly between 0 and m, unless it is zero.  This is so
   in the direct product of a group of prime order m and a group of order 8, the shape of the
   curve group; and in particular in a group of prime order m.
   */
  ghost predicate OnlySmallTorsion8<G(!new)>(g: Ops<G>, m: int) {
    forall k: int, p: G :: 0 < k < m && Mul(g, k, Mul(g, 8, p)) == g.zero ==> Mul(g, 8, p) == g.zero
  }

  // ---------- the hypotheses are satisfiable ----------

  function Integers(): Ops<int> {
    Ops(0, (a: int, b: int) => a + b, (a: int) => -a)
  }

  lemma {:induction false} IntegersMul(n: int, p: int)
    ensures Mul(Integers(), n, p) == n * p
    decreases if n >= 0 then n else 1 - n
  {
    if n > 0 {
      IntegersMul(n - 1, p);
      assert n * p == (n - 1) * p + p;
    } else if n < 0 {
      IntegersMul(-n, p);
      assert n * p == -(-n * p);
    }
  }

  lemma NoZeroDivisor(k: int, x: int)
    requires k > 0 && k * x == 0
    ensures x == 0
  {
  }

  lemma IntegersQualify(m: int)
    ensures Abelian(Integers()) && OnlySmallTorsion8(Integers(), m)
  {
    var g := Integers();
    forall a, b, c ensures AssocAt(g, a, b, c) {}
    forall a, b ensures CommAt(g, a, b) {}
    forall a ensures UnitAt(g, a) {}
    forall a ensures InverseAt(g, a) {}
    forall k: int, p: int | 0 < k < m && Mul(g, k, Mul(g, 8, p)) == g.zero ensures Mul(g, 8, p) == g.zero {
      IntegersMul(8, p);
      IntegersMul(k, 8 * p);
      NoZeroDivisor(k, 8 * p);
    }
  }
}
