/** The sum of two points of the curve is on the curve, and the neutral and inverse laws. */
module EdwardsClosure {
  import opened Field
  import opened Edwards

  lemma BinomialSquare(m: int, n: int)
    ensures (m + n) * (m + n) == m * m + n * n + 2 * (m * n)
  {
  }

  /** (p q + r s)^2 = p^2 q^2 + r^2 s^2 + 2 (p q)(r s) */
  lemma SquareOfTwo(p: int, q: int, r: int, s: int)
    ensures (p * q + r * s) * (p * q + r * s) == (p * p) * (q * q) + (r * r) * (s * s) + 2 * ((p * q) * (r * s))
  {
    Shuffle(p, q, p, q);
    Shuffle(r, s, r, s);
    BinomialSquare(p * q, r * s);
  }

  lemma FourProducts(a: int, b: int, c: int, d: int)
    ensures (b - a) * (d - c) == (b * d + a * c) - (a * d + c * b)
    ensures (b + a) * (d + c) == (b * d + a * c) + (a * d + c * b)
  {
  }

  lemma NumeratorSquares(x1: int, y1: int, x2: int, y2: int)
    ensures var n1, n2 := x1 * y2 + x2 * y1, y1 * y2 + x1 * x2;
      && n2 * n2 - n1 * n1 == (y1 * y1 - x1 * x1) * (y2 * y2 - x2 * x2)
      && n2 * n2 + n1 * n1 == (y1 * y1 + x1 * x1) * (y2 * y2 + x2 * x2) + 4 * ((x1 * y1) * (x2 * y2))
  {
    // squares of products as products of squares
    var a, b, c, d := x1 * x1, y1 * y1, x2 * x2, y2 * y2;
    var q := (x1 * y1) * (x2 * y2);
    SquareOfTwo(x1, y2, x2, y1);
    SquareOfTwo(y1, y2, x1, x2);
    assert (x1 * y2) * (x2 * y1) == q by { Shuffle(x1, y2, x2, y1); Shuffle(x1, x2, y1, y2); }
    assert (y1 * y2) * (x1 * x2) == q by { Shuffle(y1, y2, x1, x2); }
    FourProducts(a, b, c, d);
  }

  lemma NumeratorProduct(x1: int, y1: int, x2: int, y2: int)
    ensures (x1 * y2 + x2 * y1) * (y1 * y2 + x1 * x2)
      == (x1 * y1) * (y2 * y2 + x2 * x2) + (x2 * y2) * (y1 * y1 + x1 * x1)
  {
  }

  /** The numerators n1 = x1 y2 + x2 y1 and n2 = y1 y2 + x1 x2 in terms of p = x y, s = y^2 + x^2 and u = y^2 - x^2. */
  lemma Numerators(x1: int, y1: int, x2: int, y2: int)
    ensures var n1, n2 := x1 * y2 + x2 * y1, y1 * y2 + x1 * x2;
      var p1, p2, s1, s2 := x1 * y1, x2 * y2, y1 * y1 + x1 * x1, y2 * y2 + x2 * x2;
      var u1, u2 := y1 * y1 - x1 * x1, y2 * y2 - x2 * x2;
      && n2 * n2 - n1 * n1 == u1 * u2
      && n2 * n2 + n1 * n1 == s1 * s2 + 4 * (p1 * p2)
      && n1 * n2 == p1 * s2 + p2 * s1
  {
    NumeratorSquares(x1, y1, x2, y2);
    NumeratorProduct(x1, y1, x2, y2);
  }

  lemma SumAndDifference(x: int, y: int)
    ensures (y * y + x * x) * (y * y + x * x) == (y * y - x * x) * (y * y - x * x) + 4 * ((x * y) * (x * y))
  {
  }

  /** n2^2 (1 + k)^2 - n1^2 (1 - k)^2, regrouped */
  lemma Regrouped(m1: int, m2: int, k: int)
    ensures m2 * ((1 + k) * (1 + k)) - m1 * ((1 - k) * (1 - k)) == (m2 - m1) * (1 + k * k) + 2 * (k * (m2 + m1))
  {
  }

  lemma ByDSum(a: int, b: int, c: int)
    ensures ByD(a + b + 2 * c) == ByD(a) + ByD(b) + 2 * ByD(c)
  {
    ByDIs(a);
    ByDIs(b);
    ByDIs(c);
    ByDIs(a + b + 2 * c);
  }

  /** d (n1 n2)^2, with a = d p1^2, b = d p2^2 and k = d p1 p2 */
  lemma TwistedSquare(p1: int, p2: int, s1: int, s2: int, n: int)
    requires n == p1 * s2 + p2 * s1
    ensures ByD(n * n) == (ByD(p1 * p1)) * (s2 * s2) + (ByD(p2 * p2)) * (s1 * s1) + 2 * ((ByD(p1 * p2)) * (s1 * s2))
  {
    var a, b, c := (p1 * p1) * (s2 * s2), (p2 * p2) * (s1 * s1), (p1 * p2) * (s1 * s2);
    assert n * n == a + b + 2 * c by { SquareOfTwo(p1, s2, p2, s1); Shuffle(p1, s2, p2, s1); }
    assert (p1 * s2) * (p2 * s1) == c by { Shuffle(p1, s2, p2, s1); }
    ByDPull(p1 * p1, s2 * s2);
    ByDPull(p2 * p2, s1 * s1);
    ByDPull(p1 * p2, s1 * s2);
    ByDSum(a, b, c);
  }

  lemma Distribute(k: int, s: int, q: int)
    ensures 2 * (k * (s + 4 * q)) == 2 * (k * s) + 8 * (k * q)
  {
  }

  lemma Distribute4(a: int, u: int, p: int)
    ensures a * (u + 4 * p) == a * u + 4 * (a * p)
  {
  }

  /** d p1^2 p2^2 in its three groupings, and k^2 = a b */
  lemma Quartic(p1: int, p2: int)
    ensures (ByD(p1 * p2)) * (p1 * p2) == (ByD(p1 * p1)) * (p2 * p2) == (ByD(p2 * p2)) * (p1 * p1)
    ensures (ByD(p1 * p2)) * (ByD(p1 * p2)) == (ByD(p1 * p1)) * (ByD(p2 * p2))
  {
    var m := (p1 * p2) * (p1 * p2);
    assert m == (p1 * p1) * (p2 * p2) by { Shuffle(p1, p2, p1, p2); }
    ByDPull(p1 * p2, p1 * p2);
    ByDPull(p1 * p1, p2 * p2);
    ByDPull(p2 * p2, p1 * p1);
    ByDIs(p1 * p2);
    ByDIs(p1 * p1);
    ByDIs(p2 * p2);
    Shuffle(D, p1 * p2, D, p1 * p2);
    Shuffle(D, p1 * p1, D, p2 * p2);
  }

  /** The curve equation of the sum, over both denominators, comes down to the operands' u and a. */
  lemma SumEquation(p1: int, p2: int, s1: int, s2: int, u1: int, u2: int, n1: int, n2: int)
    requires n2 * n2 - n1 * n1 == u1 * u2 && n2 * n2 + n1 * n1 == s1 * s2 + 4 * (p1 * p2)
      && n1 * n2 == p1 * s2 + p2 * s1
    requires s1 * s1 == u1 * u1 + 4 * (p1 * p1) && s2 * s2 == u2 * u2 + 4 * (p2 * p2)
    ensures var k, a, b := ByD(p1 * p2), ByD(p1 * p1), ByD(p2 * p2);
      && (n2 * n2) * ((1 + k) * (1 + k)) - (n1 * n1) * ((1 - k) * (1 - k)) - ByD((n1 * n2) * (n1 * n2))
         == (u1 * u2) * (1 + k * k) - a * (u2 * u2) - b * (u1 * u1)
      && k * k == a * b
  {
    var k, a, b, q := ByD(p1 * p2), ByD(p1 * p1), ByD(p2 * p2), p1 * p2;
    Regrouped(n1 * n1, n2 * n2, k);
    TwistedSquare(p1, p2, s1, s2, n1 * n2);
    Distribute(k, s1 * s2, q);
    Distribute4(a, u2 * u2, p2 * p2);
    Distribute4(b, u1 * u1, p1 * p1);
    Quartic(p1, p2);
  }

  lemma ScaledCong(x: int, y: int, z: int)
    requires Cong(x, y)
    ensures Cong(x * z, y * z) && Cong(z * x, z * y)
  {
    CongMul(x, y, z, z);
    CongMul(z, z, x, y);
  }

  lemma ThreeTerms(a: int, a': int, b: int, b': int, c: int, c': int)
    requires Cong(a, a') && Cong(b, b') && Cong(c, c')
    ensures Cong(a - b - c, a' - b' - c')
  {
    CongAdd(a, a', b, b');
    CongAdd(a - b, a' - b', c, c');
  }

  lemma CancelIdentity(a: int, b: int)
    ensures ((1 + a) * (1 + b)) * (1 + a * b) - a * ((1 + b) * (1 + b)) - b * ((1 + a) * (1 + a))
      == (1 - a * b) * (1 - a * b)
  {
  }

  /** With u1 = 1 + a and u2 = 1 + b the two sides agree. */
  lemma CurveCancels(u1: int, u2: int, a: int, b: int)
    requires Cong(u1, 1 + a) && Cong(u2, 1 + b)
    ensures Cong((u1 * u2) * (1 + a * b) - a * (u2 * u2) - b * (u1 * u1), (1 - a * b) * (1 - a * b))
  {
    CongMul(u1, 1 + a, u2, 1 + b);
    ScaledCong(u1 * u2, (1 + a) * (1 + b), 1 + a * b);
    CongMul(u2, 1 + b, u2, 1 + b);
    ScaledCong(u2 * u2, (1 + b) * (1 + b), a);
    CongMul(u1, 1 + a, u1, 1 + a);
    ScaledCong(u1 * u1, (1 + a) * (1 + a), b);
    ThreeTerms((u1 * u2) * (1 + a * b), ((1 + a) * (1 + b)) * (1 + a * b),
               a * (u2 * u2), a * ((1 + b) * (1 + b)), b * (u1 * u1), b * ((1 + a) * (1 + a)));
    CancelIdentity(a, b);
  }

  lemma ClearedTerms(x: int, y: int, g: int, h: int, n1: int, n2: int)
    requires Product(n1, x, g) && Product(n2, y, h)
    ensures var U := (g * h) * (g * h);
      && Cong((y * y) * U, (n2 * n2) * (g * g)) && Cong((x * x) * U, (n1 * n1) * (h * h))
      && Cong(((x * x) * (y * y)) * U, (n1 * n2) * (n1 * n2))
  {
    ProductIs(n1, x, g);
    ProductIs(n2, y, h);
    CongMul(x * g, n1, x * g, n1);
    CongMul(y * h, n2, y * h, n2);
    CongMul((y * h) * (y * h), n2 * n2, g * g, g * g);
    CongMul((x * g) * (x * g), n1 * n1, h * h, h * h);
    CongMul((x * g) * (x * g), n1 * n1, (y * h) * (y * h), n2 * n2);
    Shuffle(x, g, x, g);
    Shuffle(y, h, y, h);
    Shuffle(g, h, g, h);
    Shuffle(x * x, g * g, y * y, h * h);
    Shuffle(n1, n2, n1, n2);
    assert ((y * y) * (h * h)) * (g * g) == (y * y) * ((g * g) * (h * h));
    assert ((x * x) * (g * g)) * (h * h) == (x * x) * ((g * g) * (h * h));
  }

  /** Clear the denominators: x3 g = n1 and y3 h = n2 with units g and h. */
  lemma Cleared(x: int, y: int, g: int, h: int, n1: int, n2: int)
    requires Unit(g) && Unit(h) && Product(n1, x, g) && Product(n2, y, h)
    requires Cong((n2 * n2) * (g * g) - (n1 * n1) * (h * h) - ByD((n1 * n2) * (n1 * n2)), (g * h) * (g * h))
    ensures OnCurve(x, y)
  {
    var U := (g * h) * (g * h);
    UnitMul(g, h);
    UnitMul(g * h, g * h);
    ClearedTerms(x, y, g, h, n1, n2);
    var L, R := y * y - x * x, 1 + ByD((x * x) * (y * y));
    CongAdd((y * y) * U, (n2 * n2) * (g * g), (x * x) * U, (n1 * n1) * (h * h));
    ByDCong(((x * x) * (y * y)) * U, (n1 * n2) * (n1 * n2));
    CongAdd(U, U, ByD(((x * x) * (y * y)) * U), ByD((n1 * n2) * (n1 * n2)));
    assert L * U == (y * y) * U - (x * x) * U;
    assert R * U == U + ByD(((x * x) * (y * y)) * U) by { ByDPull((x * x) * (y * y), U); }
    CongAdd((n2 * n2) * (g * g) - (n1 * n1) * (h * h) - ByD((n1 * n2) * (n1 * n2)), U,
            ByD((n1 * n2) * (n1 * n2)), ByD((n1 * n2) * (n1 * n2)));
    ProductIs(L * U, L, U);
    ProductIs(L * U, R, U);
    UnitCancel(U, L * U, L, R);
  }

  /** The curve is closed under the addition law. */
  lemma SumOnCurve(x1: int, y1: int, x2: int, y2: int, x3: int, y3: int)
    requires OnCurve(x1, y1) && OnCurve(x2, y2) && EdwardsSum(x1, y1, x2, y2, x3, y3)
    ensures OnCurve(x3, y3)
  {
    var n1, n2 := x1 * y2 + x2 * y1, y1 * y2 + x1 * x2;
    var p1, p2, s1, s2 := x1 * y1, x2 * y2, y1 * y1 + x1 * x1, y2 * y2 + x2 * x2;
    var u1, u2 := y1 * y1 - x1 * x1, y2 * y2 - x2 * x2;
    var k, a, b := ByD(p1 * p2), ByD(p1 * p1), ByD(p2 * p2);
    Numerators(x1, y1, x2, y2);
    SumAndDifference(x1, y1);
    SumAndDifference(x2, y2);
    SumEquation(p1, p2, s1, s2, u1, u2, n1, n2);
    CurveTerm(x1, y1);
    CurveTerm(x2, y2);
    CurveCancels(u1, u2, a, b);
    assert (1 + k) * (1 - k) == 1 - k * k;
    Cleared(x3, y3, 1 + k, 1 - k, n1, n2);
  }

  /** (0, 1) is neutral. */
  lemma NeutralSum(x: int, y: int)
    ensures OnCurve(0, 1) && EdwardsSum(x, y, 0, 1, x, y)
  {
    UnitOne();
    ByDIs(0);
    assert Twist(x, y, 0, 1) == 0;
    ProductIs(x, x, 1);
    ProductIs(y, y, 1);
  }

  lemma NegTwist(m: int)
    ensures ByD(m * (-m)) == -(ByD(m * m))
  {
    assert m * (-m) == -(m * m);
    ByDNeg(m * m);
  }

  /** (-x, y) is the inverse of (x, y) on the curve. */
  lemma InverseSum(x: int, y: int)
    requires OnCurve(x, y) && Unit(1 + Twist(x, y, -x, y)) && Unit(1 - Twist(x, y, -x, y))
    ensures OnCurve(-x, y) && EdwardsSum(x, y, -x, y, 0, 1)
  {
    assert (-x) * (-x) == x * x && (-x) * y == -(x * y) && x * (-x) == -(x * x);
    CurveTerm(x, y);
    assert Twist(x, y, -x, y) == -Twist(x, y, x, y) by { NegTwist(x * y); }
    ProductIs(0, 0, 1 + Twist(x, y, -x, y));
    ProductIs(y * y - x * x, 1, 1 - Twist(x, y, -x, y));
  }

  lemma Quotient(n: int, g: int) returns (q: int)
    requires Unit(g)
    ensures Product(n, q, g)
  {
    var i :| Product(1, g, i);
    ProductIs(1, g, i);
    q := n * i;
    CongMul(n, n, g * i, 1);
    assert (n * i) * g == n * (g * i);
    ProductIs(n, q, g);
  }

  /** Where the denominators are units, the sum exists, ... */
  lemma SumExists(x1: int, y1: int, x2: int, y2: int) returns (x3: int, y3: int)
    requires var k := Twist(x1, y1, x2, y2); Unit(1 + k) && Unit(1 - k)
    ensures EdwardsSum(x1, y1, x2, y2, x3, y3)
  {
    var k := Twist(x1, y1, x2, y2);
    x3 := Quotient(x1 * y2 + x2 * y1, 1 + k);
    y3 := Quotient(y1 * y2 + x1 * x2, 1 - k);
  }

  /** ... and is unique modulo p. */
  lemma SumUnique(x1: int, y1: int, x2: int, y2: int, x3: int, y3: int, u: int, v: int)
    requires EdwardsSum(x1, y1, x2, y2, x3, y3) && EdwardsSum(x1, y1, x2, y2, u, v)
    ensures Cong(u, x3) && Cong(v, y3)
  {
    var k := Twist(x1, y1, x2, y2);
    UnitCancel(1 + k, x1 * y2 + x2 * y1, u, x3);
    UnitCancel(1 - k, y1 * y2 + x1 * x2, v, y3);
  }
}
