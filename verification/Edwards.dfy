/**
 The twisted Edwards curve -x^2 + y^2 = 1 + d x^2 y^2 modulo p, on integers up to congruence.  A
 projective point (X : Y : Z) with extra coordinate T stands for the affine point (X/Z, Y/Z);
 nothing here divides: "x = X/Z" is X = x Z together with an inverse for Z.
 */
module Edwards {
  import opened Field

  const D: int := 37095705934669439343138083508754565189542113879843219016388785533085940283555

  /** d m.  The detour over n keeps the constant out of sight where only its linearity matters. */
  ghost function Scaled(m: int, n: nat): int {
    if n == 0 then D * m else Scaled(m, n - 1)
  }

  ghost function ByD(m: int): int {
    Scaled(m, 9)
  }

  lemma {:induction false} ScaledIs(m: int, n: nat)
    ensures Scaled(m, n) == D * m
    decreases n
  {
    if n > 0 {
      ScaledIs(m, n - 1);
    }
  }

  lemma ByDIs(m: int)
    ensures ByD(m) == D * m
  {
    ScaledIs(m, 9);
  }

  lemma ByDCong(m: int, n: int)
    requires Cong(m, n)
    ensures Cong(ByD(m), ByD(n))
  {
    ByDIs(m);
    ByDIs(n);
    CongMul(D, D, m, n);
  }

  lemma ByDPull(m: int, n: int)
    ensures ByD(m * n) == ByD(m) * n
  {
    ByDIs(m * n);
    ByDIs(m);
  }

  lemma ByDNeg(m: int)
    ensures ByD(-m) == -ByD(m)
  {
    ByDIs(m);
    ByDIs(-m);
  }

  /** a = x y modulo p, with the product out of sight. */
  ghost predicate ProductAt(a: int, x: int, y: int, n: nat) {
    if n == 0 then Cong(a, x * y) else ProductAt(a, x, y, n - 1)
  }

  ghost predicate Product(a: int, x: int, y: int) {
    ProductAt(a, x, y, 9)
  }

  lemma {:induction false} ProductAtIs(a: int, x: int, y: int, n: nat)
    ensures ProductAt(a, x, y, n) <==> Cong(a, x * y)
    decreases n
  {
    if n > 0 {
      ProductAtIs(a, x, y, n - 1);
    }
  }

  lemma ProductIs(a: int, x: int, y: int)
    ensures Product(a, x, y) <==> Cong(a, x * y)
  {
    ProductAtIs(a, x, y, 9);
  }

  /** a has an inverse modulo p. */
  ghost predicate Unit(a: int) {
    exists i: int {:trigger Product(1, a, i)} :: Product(1, a, i)
  }

  lemma UnitOne()
    ensures Unit(1)
  {
    ProductIs(1, 1, 1);
  }

  lemma UnitTwo()
    ensures Unit(2)
  {
    CongBy(2 * ((P + 1) / 2), 1, 1);
    ProductIs(1, 2, (P + 1) / 2);
  }

  lemma Shuffle(a: int, i: int, b: int, j: int)
    ensures (a * i) * (b * j) == (a * b) * (i * j)
  {
    assert (a * i) * (b * j) == a * (i * (b * j));
    assert i * (b * j) == b * (i * j);
    assert a * (b * (i * j)) == (a * b) * (i * j);
  }

  lemma UnitMul(a: int, b: int)
    requires Unit(a) && Unit(b)
    ensures Unit(a * b)
  {
    var i :| Product(1, a, i);
    var j :| Product(1, b, j);
    ProductIs(1, a, i);
    ProductIs(1, b, j);
    CongMul(a * i, 1, b * j, 1);
    Shuffle(a, i, b, j);
    ProductIs(1, a * b, i * j);
  }

  lemma UnitCong(a: int, b: int)
    requires Unit(a) && Cong(a, b)
    ensures Unit(b)
  {
    var i :| Product(1, a, i);
    ProductIs(1, a, i);
    CongMul(a, b, i, i);
    ProductIs(1, b, i);
  }

  /** Units cancel: v = x u = y u only for x = y. */
  lemma UnitCancel(u: int, v: int, x: int, y: int)
    requires Unit(u) && Product(v, x, u) && Product(v, y, u)
    ensures Cong(x, y)
  {
    var i :| Product(1, u, i);
    ProductIs(1, u, i);
    ProductIs(v, x, u);
    ProductIs(v, y, u);
    CongMul(x * u, y * u, i, i);
    CongMul(x, x, u * i, 1);
    CongMul(y, y, u * i, 1);
    assert (x * u) * i == x * (u * i) && (y * u) * i == y * (u * i);
  }

  // ---------- affine points ----------

  ghost predicate OnCurve(x: int, y: int) {
    Cong(y * y - x * x, 1 + ByD((x * x) * (y * y)))
  }

  /** d x1 x2 y1 y2, in the grouping of the code. */
  ghost function Twist(x1: int, y1: int, x2: int, y2: int): int {
    ByD((x1 * y1) * (x2 * y2))
  }

  /** (x3, y3) is the sum of (x1, y1) and (x2, y2): the addition law of the curve, denominators cleared. */
  ghost predicate EdwardsSum(x1: int, y1: int, x2: int, y2: int, x3: int, y3: int) {
    var k := Twist(x1, y1, x2, y2);
    && Unit(1 + k) && Unit(1 - k)
    && Product(x1 * y2 + x2 * y1, x3, 1 + k)
    && Product(y1 * y2 + x1 * x2, y3, 1 - k)
  }

  // ---------- projective points, as numbers ----------

  /** (X, Y, Z) stands for (x, y). */
  ghost predicate Stands(X: int, Y: int, Z: int, x: int, y: int) {
    Product(X, x, Z) && Product(Y, y, Z) && Unit(Z)
  }

  ghost predicate StandsT(X: int, Y: int, Z: int, T: int, x: int, y: int) {
    Stands(X, Y, Z, x, y) && Product(T, x * y, Z)
  }

  /** The completed form ((X : Z), (Y : T)) of the code stands for (X/Z, Y/T). */
  ghost predicate StandsCompleted(X: int, Y: int, Z: int, T: int, x: int, y: int) {
    Product(X, x, Z) && Product(Y, y, T) && Unit(Z) && Unit(T)
  }

  /** From the completed form: X T, Y Z, Z T and X Y. */
  lemma CompletedToFull(X: int, Y: int, Z: int, T: int, x: int, y: int)
    requires StandsCompleted(X, Y, Z, T, x, y)
    ensures StandsT(X * T, Y * Z, Z * T, X * Y, x, y)
  {
    ProductIs(X, x, Z);
    ProductIs(Y, y, T);
    CongMul(X, x * Z, T, T);
    CongMul(Y, y * T, Z, Z);
    CongMul(X, x * Z, Y, y * T);
    UnitMul(Z, T);
    Shuffle(x, Z, y, T);
    assert (x * Z) * T == x * (Z * T);
    assert (y * T) * Z == y * (Z * T);
    ProductIs(X * T, x, Z * T);
    ProductIs(Y * Z, y, Z * T);
    ProductIs(X * Y, x * y, Z * T);
  }

  /** a = u z and b = v z give a + b = (u + v) z and a - b = (u - v) z. */
  lemma Linear(a: int, b: int, u: int, v: int, z: int)
    requires Product(a, u, z) && Product(b, v, z)
    ensures Product(a + b, u + v, z) && Product(a - b, u - v, z)
  {
    ProductIs(a, u, z);
    ProductIs(b, v, z);
    CongAdd(a, u * z, b, v * z);
    assert u * z + v * z == (u + v) * z && u * z - v * z == (u - v) * z;
    ProductIs(a + b, u + v, z);
    ProductIs(a - b, u - v, z);
  }

  /** a = u z and b = v w give a b = (u v) (z w). */
  lemma Bilinear(a: int, b: int, u: int, v: int, z: int, w: int)
    requires Product(a, u, z) && Product(b, v, w)
    ensures Product(a * b, u * v, z * w)
  {
    ProductIs(a, u, z);
    ProductIs(b, v, w);
    CongMul(a, u * z, b, v * w);
    Shuffle(u, z, v, w);
    ProductIs(a * b, u * v, z * w);
  }

  /** Congruent numbers may replace each other in a product. */
  lemma ProductCong(a: int, a': int, u: int, u': int, z: int, z': int)
    requires Product(a, u, z) && Cong(a, a') && Cong(u, u') && Cong(z, z')
    ensures Product(a', u', z')
  {
    ProductIs(a, u, z);
    CongMul(u, u', z, z');
    ProductIs(a', u', z');
  }

  /** a = e w and b = g w, with e = x g, give a = x b. */
  lemma Ratio(a: int, b: int, e: int, g: int, w: int, x: int)
    requires Product(a, e, w) && Product(b, g, w) && Product(e, x, g)
    ensures Product(a, x, b)
  {
    ProductIs(a, e, w);
    ProductIs(b, g, w);
    ProductIs(e, x, g);
    CongMul(e, x * g, w, w);
    CongMul(x, x, b, g * w);
    assert (x * g) * w == x * (g * w);
    ProductIs(a, x, b);
  }

  lemma RatioHalf(E: int, G: int, w: int, e: int, g: int, x: int)
    requires Product(E, e, w) && Product(G, g, w) && Unit(w) && Unit(g) && Product(e, x, g)
    ensures Product(E, x, G) && Unit(G)
  {
    Ratio(E, G, e, g, w, x);
    UnitMul(g, w);
    ProductIs(G, g, w);
    UnitCong(g * w, G);
  }

  lemma Doubled(e: int, x: int, g: int)
    requires Product(e, x, g) && Unit(g)
    ensures Product(2 * e, x, 2 * g) && Unit(2 * g)
  {
    ProductIs(e, x, g);
    CongMul(2, 2, e, x * g);
    assert 2 * (x * g) == x * (2 * g);
    ProductIs(2 * e, x, 2 * g);
    UnitTwo();
    UnitMul(2, g);
  }

  /** (y1 + x1)(y2 + x2) -+ (y1 - x1)(y2 - x2) */
  lemma CrossTerms(x1: int, y1: int, x2: int, y2: int)
    ensures (y1 + x1) * (y2 + x2) - (y1 - x1) * (y2 - x2) == 2 * (x1 * y2 + x2 * y1)
    ensures (y1 + x1) * (y2 + x2) + (y1 - x1) * (y2 - x2) == 2 * (y1 * y2 + x1 * x2)
  {
    assert (y1 + x1) * (y2 + x2) == y1 * y2 + y1 * x2 + x1 * y2 + x1 * x2;
    assert (y1 - x1) * (y2 - x2) == y1 * y2 - y1 * x2 - x1 * y2 + x1 * x2;
  }

  /**
   The terms of the unified addition of (x1, y1) and (x2, y2), each a multiple of w: A and B are
   (y1 - x1)(y2 - x2) and (y1 + x1)(y2 + x2), C is 2 d x1 x2 y1 y2 and N is 2.
   */
  ghost predicate SumTerms(A: int, B: int, C: int, N: int, w: int, x1: int, y1: int, x2: int, y2: int) {
    && Product(A, (y1 - x1) * (y2 - x2), w) && Product(B, (y1 + x1) * (y2 + x2), w)
    && Product(C, 2 * Twist(x1, y1, x2, y2), w) && Product(N, 2, w) && Unit(w)
  }

  /** The unified addition: from its terms, the completed form of the sum. */
  lemma AdditionFormula(A: int, B: int, C: int, N: int, w: int, x1: int, y1: int, x2: int, y2: int, x3: int, y3: int)
    requires SumTerms(A, B, C, N, w, x1, y1, x2, y2) && EdwardsSum(x1, y1, x2, y2, x3, y3)
    ensures StandsCompleted(B - A, B + A, N + C, N - C, x3, y3)
  {
    var k := Twist(x1, y1, x2, y2);
    Linear(B, A, (y1 + x1) * (y2 + x2), (y1 - x1) * (y2 - x2), w);
    CrossTerms(x1, y1, x2, y2);
    Linear(N, C, 2, 2 * k, w);
    Doubled(x1 * y2 + x2 * y1, x3, 1 + k);
    Doubled(y1 * y2 + x1 * x2, y3, 1 - k);
    RatioHalf(B - A, N + C, w, 2 * (x1 * y2 + x2 * y1), 2 * (1 + k), x3);
    RatioHalf(B + A, N - C, w, 2 * (y1 * y2 + x1 * x2), 2 * (1 - k), y3);
  }

  /** A second operand as the code prepares it: M = (y - x) Z, L = (y + x) Z and K = 2 d x y Z. */
  ghost predicate Operand(M: int, L: int, K: int, Z: int, x: int, y: int) {
    Product(M, y - x, Z) && Product(L, y + x, Z) && Product(K, 2 * ByD(x * y), Z) && Unit(Z)
  }

  lemma TwistGrouped(m: int, n: int)
    ensures m * (2 * ByD(n)) == 2 * ByD(m * n)
  {
    ByDIs(n);
    ByDIs(m * n);
    assert m * (2 * (D * n)) == 2 * (D * (m * n));
  }

  lemma TwiceIs(w: int)
    ensures Product(2 * w, 2, w)
  {
    ProductIs(2 * w, 2, w);
  }

  /** The terms of the addition of a projective point and an operand. */
  lemma OperandTerms(X: int, Y: int, Z: int, T: int, x1: int, y1: int, M: int, L: int, K: int, Z2: int, x2: int,
                     y2: int)
    requires StandsT(X, Y, Z, T, x1, y1) && Operand(M, L, K, Z2, x2, y2)
    ensures SumTerms((Y - X) * M, (Y + X) * L, T * K, 2 * (Z * Z2), Z * Z2, x1, y1, x2, y2)
  {
    UnitMul(Z, Z2);
    Linear(Y, X, y1, x1, Z);
    Bilinear(Y - X, M, y1 - x1, y2 - x2, Z, Z2);
    Bilinear(Y + X, L, y1 + x1, y2 + x2, Z, Z2);
    Bilinear(T, K, x1 * y1, 2 * ByD(x2 * y2), Z, Z2);
    TwistGrouped(x1 * y1, x2 * y2);
    TwiceIs(Z * Z2);
  }

  /** A projective point as an operand. */
  lemma PointOperand(X: int, Y: int, Z: int, T: int, x: int, y: int)
    requires StandsT(X, Y, Z, T, x, y)
    ensures Operand(Y - X, Y + X, 2 * ByD(T), Z, x, y)
  {
    Linear(Y, X, y, x, Z);
    ProductIs(T, x * y, Z);
    ByDCong(T, (x * y) * Z);
    ByDPull(x * y, Z);
    CongMul(2, 2, ByD(T), ByD(x * y) * Z);
    assert 2 * (ByD(x * y) * Z) == (2 * ByD(x * y)) * Z;
    ProductIs(2 * ByD(T), 2 * ByD(x * y), Z);
  }

  /** An affine point as an operand. */
  lemma AffineOperand(M: int, L: int, K: int, x: int, y: int)
    requires Cong(M, y - x) && Cong(L, y + x) && Cong(K, 2 * ByD(x * y))
    ensures Operand(M, L, K, 1, x, y)
  {
    ProductIs(M, y - x, 1);
    ProductIs(L, y + x, 1);
    ProductIs(K, 2 * ByD(x * y), 1);
    UnitOne();
  }

  /** The operand of (-x, y): M and L change places, K its sign. */
  lemma NegatedOperand(M: int, L: int, K: int, Z: int, x: int, y: int)
    requires Operand(M, L, K, Z, x, y)
    ensures Operand(L, M, -K, Z, -x, y)
  {
    ProductIs(K, 2 * ByD(x * y), Z);
    CongAdd(0, 0, K, (2 * ByD(x * y)) * Z);
    assert (-x) * y == -(x * y);
    ByDNeg(x * y);
    assert (2 * -ByD(x * y)) * Z == -((2 * ByD(x * y)) * Z);
    ProductIs(-K, 2 * ByD((-x) * y), Z);
  }

  /** Congruent numbers make the same operand. */
  lemma OperandCong(M: int, L: int, K: int, Z: int, M': int, L': int, K': int, x: int, y: int)
    requires Operand(M, L, K, Z, x, y) && Cong(M, M') && Cong(L, L') && Cong(K, K')
    ensures Operand(M', L', K', Z, x, y)
  {
    ProductCong(M, M', y - x, y - x, Z, Z);
    ProductCong(L, L', y + x, y + x, Z, Z);
    ProductCong(K, K', 2 * ByD(x * y), 2 * ByD(x * y), Z, Z);
  }

  /** Congruent coordinates stand for the same point. */
  lemma StandsCong(X: int, Y: int, Z: int, T: int, X': int, Y': int, Z': int, T': int, x: int, y: int)
    requires StandsT(X, Y, Z, T, x, y) && Cong(X', X) && Cong(Y', Y) && Cong(Z', Z) && Cong(T', T)
    ensures StandsT(X', Y', Z', T', x, y)
  {
    UnitCong(Z, Z');
    ProductCong(X, X', x, x, Z, Z');
    ProductCong(Y, Y', y, y, Z, Z');
    ProductCong(T, T', x * y, x * y, Z, Z');
  }

  lemma CompletedCong(X: int, Y: int, Z: int, T: int, X': int, Y': int, Z': int, T': int, x: int, y: int)
    requires StandsCompleted(X, Y, Z, T, x, y) && Cong(X', X) && Cong(Y', Y) && Cong(Z', Z) && Cong(T', T)
    ensures StandsCompleted(X', Y', Z', T', x, y)
  {
    UnitCong(Z, Z');
    UnitCong(T, T');
    ProductCong(X, X', x, x, Z, Z');
    ProductCong(Y, Y', y, y, T, T');
  }

  lemma CurveTerm(x: int, y: int)
    requires OnCurve(x, y)
    ensures Cong(y * y - x * x, 1 + Twist(x, y, x, y))
  {
    assert (x * y) * (x * y) == (x * x) * (y * y) by { Shuffle(x, y, x, y); }
  }

  lemma SquareOfSum(x: int, y: int)
    ensures (x + y) * (x + y) - (y * y + x * x) == x * y + x * y
  {
    assert (x + y) * (x + y) == x * x + x * y + y * x + y * y;
    assert y * x == x * y;
  }

  /** The doubling: the curve equation turns y^2 - x^2 into 1 + d x^2 y^2. */
  lemma DoublingFormula(X: int, Y: int, Z: int, x: int, y: int, x3: int, y3: int)
    requires Stands(X, Y, Z, x, y) && OnCurve(x, y) && EdwardsSum(x, y, x, y, x3, y3)
    ensures var A, B, N, S := X * X, Y * Y, 2 * (Z * Z), (X + Y) * (X + Y);
      StandsCompleted(S - (B + A), B + A, B - A, N - (B - A), x3, y3)
  {
    var A, B, S, w, k := X * X, Y * Y, (X + Y) * (X + Y), Z * Z, Twist(x, y, x, y);
    UnitMul(Z, Z);
    Bilinear(X, X, x, x, Z, Z);
    Bilinear(Y, Y, y, y, Z, Z);
    Linear(X, Y, x, y, Z);
    Bilinear(X + Y, X + Y, x + y, x + y, Z, Z);
    Linear(B, A, y * y, x * x, w);
    Linear(S, B + A, (x + y) * (x + y), y * y + x * x, w);
    CurveTerm(x, y);
    ProductCong(B - A, B - A, y * y - x * x, 1 + k, w, w);
    TwiceIs(w);
    Linear(2 * w, B - A, 2, 1 + k, w);
    SquareOfSum(x, y);
    RatioHalf(S - (B + A), B - A, w, x * y + x * y, 1 + k, x3);
    RatioHalf(B + A, 2 * w - (B - A), w, y * y + x * x, 1 - k, y3);
  }
}
