/**
 The point formulas of ed25519-donna-impl-base.h on limbs: no step overflows or underflows, every
 multiplication gets operands within its bounds, and the result is the Edwards sum of the operands.
 */
module PointFormulas {
  import opened Field
  import opened Edwards

  /** One addition or subtraction after a carry. */
  predicate Basic(a: seq<int>) {
    Small(a, 3 * F1 + 0x1_0000)
  }

  /** The number that five limbs stand for.  The detour over n keeps the sum of limbs out of sight. */
  ghost function Sealed(a: seq<int>, n: nat): int
    requires |a| == 5
  {
    if n == 0 then FVal(a) else Sealed(a, n - 1)
  }

  ghost function Num(a: seq<int>): int
    requires |a| == 5
  {
    Sealed(a, 9)
  }

  lemma {:induction false} SealedIs(a: seq<int>, n: nat)
    requires |a| == 5
    ensures Sealed(a, n) == FVal(a)
    decreases n
  {
    if n > 0 {
      SealedIs(a, n - 1);
    }
  }

  lemma NumIs(a: seq<int>)
    requires |a| == 5
    ensures Num(a) == FVal(a)
  {
    SealedIs(a, 9);
  }

  /** The limbs a stand for n modulo p. */
  ghost predicate Is(a: seq<int>, n: int) {
    |a| == 5 && Cong(Num(a), n)
  }

  const EC2D: seq<int> := [0x0006_9b94_26b2_f159, 0x0003_5050_762a_dd7a, 0x0003_cf44_c003_8052, 0x0006_738c_c740_7977,
    0x0002_406d_9dc5_6dff]

  lemma Ec2d()
    ensures Carried(EC2D) && Is(EC2D, 2 * D)
  {
    NumIs(EC2D);
    CongBy(FVal(EC2D), 2 * D, -1);
  }

  const ECD: seq<int> := [0x0003_4dca_1359_78a3, 0x0001_a828_3b15_6ebd, 0x0005_e7a2_6001_c029, 0x0007_39c6_63a0_3cbb,
    0x0005_2036_cee2_b6ff]

  /** d = -121665/121666 */
  lemma Ecd()
    ensures Carried(ECD) && Is(ECD, D) && Cong(121666 * D, -121665)
  {
    NumIs(ECD);
    CongBy(121666 * D, -121665, (121666 * D + 121665) / P);
  }

  lemma TwiceByD(t: int, u: int)
    ensures (t * u) * (2 * D) == t * (2 * ByD(u))
  {
    ByDIs(u);
    assert (t * u) * (2 * D) == t * (2 * (D * u));
  }

  // ---------- the operations with the bounds the formulas use ----------

  method Plus(a: seq<int>, b: seq<int>, ghost m: int, ghost n: int) returns (r: seq<int>)
    requires Carried(a) && Carried(b) && Is(a, m) && Is(b, n)
    ensures Basic(r) && Is(r, m + n)
  {
    r := FeAdd(a, b);
    NumIs(a);
    NumIs(b);
    NumIs(r);
    CongAdd(Num(a), m, Num(b), n);
  }

  method Minus(a: seq<int>, b: seq<int>, ghost m: int, ghost n: int) returns (r: seq<int>)
    requires Carried(a) && Carried(b) && Is(a, m) && Is(b, n)
    ensures Basic(r) && Is(r, m - n)
  {
    r := FeSub(a, b);
    NumIs(a);
    NumIs(b);
    NumIs(r);
    CongBy(Num(r), Num(a) - Num(b), 2);
    CongAdd(Num(a), m, Num(b), n);
  }

  /** curve25519_add_after_basic */
  method PlusAfter(a: seq<int>, b: seq<int>, ghost m: int, ghost n: int) returns (r: seq<int>)
    requires Basic(a) && Basic(b) && Is(a, m) && Is(b, n)
    ensures Loose(r) && Is(r, m + n)
  {
    r := FeAdd(a, b);
    NumIs(a);
    NumIs(b);
    NumIs(r);
    CongAdd(Num(a), m, Num(b), n);
  }

  method MinusAfter(a: seq<int>, b: seq<int>, ghost m: int, ghost n: int) returns (r: seq<int>)
    requires Basic(a) && Basic(b) && Is(a, m) && Is(b, n)
    ensures Loose(r) && Is(r, m - n)
  {
    r := FeSubAfterBasic(a, b);
    NumIs(a);
    NumIs(b);
    NumIs(r);
    CongBy(Num(r), Num(a) - Num(b), 4);
    CongAdd(Num(a), m, Num(b), n);
  }

  method PlusReduce(a: seq<int>, b: seq<int>, ghost m: int, ghost n: int) returns (r: seq<int>)
    requires Carried(a) && Carried(b) && Is(a, m) && Is(b, n)
    ensures Carried(r) && Is(r, m + n)
  {
    r := FeAddReduce(a, b);
    NumIs(a);
    NumIs(b);
    NumIs(r);
    CongAdd(Num(a), m, Num(b), n);
  }

  method Times(a: seq<int>, b: seq<int>, ghost m: int, ghost n: int) returns (r: seq<int>)
    requires Loose(a) && Loose(b) && Is(a, m) && Is(b, n)
    ensures Carried(r) && Is(r, m * n)
  {
    r := FeMul(a, b);
    NumIs(a);
    NumIs(b);
    NumIs(r);
    CongMul(Num(a), m, Num(b), n);
  }

  method MinusReduce(a: seq<int>, b: seq<int>, ghost m: int, ghost n: int) returns (r: seq<int>)
    requires Carried(a) && Carried(b) && Is(a, m) && Is(b, n)
    ensures Carried(r) && Is(r, m - n)
  {
    r := FeSubReduce(a, b);
    NumIs(a);
    NumIs(b);
    NumIs(r);
    CongAdd(Num(a), m, Num(b), n);
  }

  method Negate(a: seq<int>) returns (r: seq<int>)
    requires Carried(a)
    ensures Carried(r) && Cong(Num(r), -Num(a))
  {
    r := FeNeg(a);
    NumIs(a);
    NumIs(r);
  }

  method Square(a: seq<int>, ghost m: int) returns (r: seq<int>)
    requires Loose(a) && Is(a, m)
    ensures Carried(r) && Is(r, m * m)
  {
    r := FeSquare(a);
    NumIs(a);
    NumIs(r);
    CongMul(Num(a), m, Num(a), m);
  }

  // ---------- the point types ----------

  /** ge25519; after a partial conversion t is not up to date. */
  datatype Point = Point(x: seq<int>, y: seq<int>, z: seq<int>, t: seq<int>)

  /** ge25519_p1p1 */
  datatype Completed = Completed(x: seq<int>, y: seq<int>, z: seq<int>, t: seq<int>)

  /** ge25519_niels */
  datatype NielsLimbs = NielsLimbs(ysubx: seq<int>, xaddy: seq<int>, t2d: seq<int>)

  /** ge25519_pniels */
  datatype PnielsLimbs = PnielsLimbs(ysubx: seq<int>, xaddy: seq<int>, z: seq<int>, t2d: seq<int>)

  /** p is carried and stands for (x, y), except that t may be stale. */
  ghost predicate Partial(p: Point, x: int, y: int) {
    Carried(p.x) && Carried(p.y) && Carried(p.z) && Stands(Num(p.x), Num(p.y), Num(p.z), x, y)
  }

  ghost predicate Full(p: Point, x: int, y: int) {
    Carried(p.x) && Carried(p.y) && Carried(p.z) && Carried(p.t)
      && StandsT(Num(p.x), Num(p.y), Num(p.z), Num(p.t), x, y)
  }

  ghost predicate Complete(r: Completed, x: int, y: int) {
    Loose(r.x) && Loose(r.y) && Loose(r.z) && Loose(r.t)
      && StandsCompleted(Num(r.x), Num(r.y), Num(r.z), Num(r.t), x, y)
  }

  /** y - x, y + x and 2 d x y of an affine point. */
  ghost predicate Niels(q: NielsLimbs, x: int, y: int) {
    Carried(q.ysubx) && Carried(q.xaddy) && Carried(q.t2d) && Is(q.ysubx, y - x) && Is(q.xaddy, y + x)
      && Is(q.t2d, 2 * ByD(x * y))
  }

  /** Y - X, Y + X, Z and 2 d T of a projective point. */
  ghost predicate Pniels(q: PnielsLimbs, x: int, y: int) {
    && Loose(q.ysubx) && Loose(q.xaddy) && Carried(q.z) && Carried(q.t2d)
    && Operand(Num(q.ysubx), Num(q.xaddy), Num(q.t2d), Num(q.z), x, y)
  }

  // ---------- conversions ----------

  /** ge25519_p1p1_to_full */
  method ToFull(p: Completed, ghost x: int, ghost y: int) returns (r: Point)
    requires Complete(p, x, y)
    ensures Full(r, x, y)
  {
    ghost var X, Y, Z, T := Num(p.x), Num(p.y), Num(p.z), Num(p.t);
    var rx := Times(p.x, p.t, X, T);
    var ry := Times(p.y, p.z, Y, Z);
    var rz := Times(p.z, p.t, Z, T);
    var rt := Times(p.x, p.y, X, Y);
    CompletedToFull(X, Y, Z, T, x, y);
    StandsCong(X * T, Y * Z, Z * T, X * Y, Num(rx), Num(ry), Num(rz), Num(rt), x, y);
    r := Point(rx, ry, rz, rt);
  }

  /** ge25519_p1p1_to_partial: t keeps whatever it was. */
  method ToPartial(p: Completed, old_t: seq<int>, ghost x: int, ghost y: int) returns (r: Point)
    requires Complete(p, x, y)
    ensures Partial(r, x, y) && r.t == old_t
  {
    var f := ToFull(p, x, y);
    r := Point(f.x, f.y, f.z, old_t);
  }

  // ---------- addition and doubling ----------

  /** x = b - a, y = b + a, z = d + c, t = d - c */
  method Combine(a: seq<int>, b: seq<int>, c: seq<int>, d: seq<int>, ghost A: int, ghost B: int, ghost C: int,
                 ghost N: int)
    returns (r: Completed)
    requires Carried(a) && Carried(b) && Carried(c) && Basic(d) && Is(a, A) && Is(b, B) && Is(c, C) && Is(d, N)
    ensures Loose(r.x) && Loose(r.y) && Loose(r.z) && Loose(r.t)
    ensures Is(r.x, B - A) && Is(r.y, B + A) && Is(r.z, N + C) && Is(r.t, N - C)
  {
    var x := Minus(b, a, B, A);
    var y := Plus(b, a, B, A);
    var z := PlusAfter(d, c, N, C);
    var t := MinusAfter(d, c, N, C);
    r := Completed(x, y, z, t);
  }

  /** From the terms of the addition to the completed form. */
  lemma Sums(r: Completed, A: int, B: int, C: int, N: int, w: int, x1: int, y1: int, x2: int, y2: int, x3: int, y3: int)
    requires Is(r.x, B - A) && Is(r.y, B + A) && Is(r.z, N + C) && Is(r.t, N - C)
    requires SumTerms(A, B, C, N, w, x1, y1, x2, y2) && EdwardsSum(x1, y1, x2, y2, x3, y3)
    ensures StandsCompleted(Num(r.x), Num(r.y), Num(r.z), Num(r.t), x3, y3)
  {
    AdditionFormula(A, B, C, N, w, x1, y1, x2, y2, x3, y3);
    CompletedCong(B - A, B + A, N + C, N - C, Num(r.x), Num(r.y), Num(r.z), Num(r.t), x3, y3);
  }

  /** a = (Y - X) m and b = (Y + X) n */
  method Cross(p: Point, ysubx: seq<int>, xaddy: seq<int>, ghost m: int, ghost n: int)
    returns (a: seq<int>, b: seq<int>)
    requires Carried(p.y) && Carried(p.x) && Loose(ysubx) && Loose(xaddy) && Is(ysubx, m) && Is(xaddy, n)
    ensures Carried(a) && Carried(b) && Is(a, (Num(p.y) - Num(p.x)) * m) && Is(b, (Num(p.y) + Num(p.x)) * n)
  {
    a := Minus(p.y, p.x, Num(p.y), Num(p.x));
    b := Plus(p.y, p.x, Num(p.y), Num(p.x));
    a := Times(a, ysubx, Num(p.y) - Num(p.x), m);
    b := Times(b, xaddy, Num(p.y) + Num(p.x), n);
  }

  /** ge25519_add_p1p1 */
  method AddP1P1(p: Point, q: Point, ghost x1: int, ghost y1: int, ghost x2: int, ghost y2: int, ghost x3: int,
                 ghost y3: int)
    returns (r: Completed)
    requires Full(p, x1, y1) && Full(q, x2, y2) && EdwardsSum(x1, y1, x2, y2, x3, y3)
    ensures Complete(r, x3, y3)
  {
    ghost var X2, Y2, Z2, T2 := Num(q.x), Num(q.y), Num(q.z), Num(q.t);
    ghost var M, L, K := Y2 - X2, Y2 + X2, 2 * ByD(T2);
    var t := Minus(q.y, q.x, Y2, X2);
    var u := Plus(q.y, q.x, Y2, X2);
    var a, b := Cross(p, t, u, M, L);
    Ec2d();
    var c := Times(p.t, q.t, Num(p.t), T2);
    c := Times(c, EC2D, Num(p.t) * T2, 2 * D);
    TwiceByD(Num(p.t), T2);
    var d := Times(p.z, q.z, Num(p.z), Z2);
    d := Plus(d, d, Num(p.z) * Z2, Num(p.z) * Z2);
    PointOperand(X2, Y2, Z2, T2, x2, y2);
    OperandTerms(Num(p.x), Num(p.y), Num(p.z), Num(p.t), x1, y1, M, L, K, Z2, x2, y2);
    ghost var A, B := (Num(p.y) - Num(p.x)) * M, (Num(p.y) + Num(p.x)) * L;
    r := Combine(a, b, c, d, A, B, Num(p.t) * K, 2 * (Num(p.z) * Z2));
    Sums(r, A, B, Num(p.t) * K, 2 * (Num(p.z) * Z2), Num(p.z) * Z2, x1, y1, x2, y2, x3, y3);
  }

  /** ge25519_double_p1p1; it does not read t. */
  method DoubleP1P1(p: Point, ghost x: int, ghost y: int, ghost x3: int, ghost y3: int) returns (r: Completed)
    requires Partial(p, x, y) && OnCurve(x, y) && EdwardsSum(x, y, x, y, x3, y3)
    ensures Complete(r, x3, y3)
  {
    ghost var X, Y, Z := Num(p.x), Num(p.y), Num(p.z);
    ghost var A, B, N, S := X * X, Y * Y, 2 * (Z * Z), (X + Y) * (X + Y);
    var a := Square(p.x, X);
    var b := Square(p.y, Y);
    var c := Square(p.z, Z);
    c := PlusReduce(c, c, Z * Z, Z * Z);
    var rx := Plus(p.x, p.y, X, Y);
    rx := Square(rx, X + Y);
    var ry := Plus(b, a, B, A);
    var rz := Minus(b, a, B, A);
    rx := MinusAfter(rx, ry, S, B + A);
    var rt := MinusAfter(c, rz, N, B - A);
    r := Completed(rx, ry, rz, rt);
    DoublingFormula(X, Y, Z, x, y, x3, y3);
    CompletedCong(S - (B + A), B + A, B - A, N - (B - A), Num(rx), Num(ry), Num(rz), Num(rt), x3, y3);
  }

  // ---------- addition of a precomputed point ----------

  lemma NegProduct(a: int, b: int)
    ensures a * (-b) == -(a * b)
  {
  }

  /** r->y and r->x from the cross products; c goes to z and t with opposite signs. */
  method MixedCombine(p: Point, ysubx: seq<int>, xaddy: seq<int>, c: seq<int>, z: seq<int>, t: seq<int>, signbit: int,
                      ghost M: int, ghost L: int, ghost C: int, ghost N: int, ghost w: int, ghost x1: int,
                      ghost y1: int, ghost x2: int, ghost y2: int, ghost x3: int, ghost y3: int)
    returns (r: Completed)
    requires Carried(p.x) && Carried(p.y) && Loose(ysubx) && Loose(xaddy) && Carried(c) && Carried(z) && Carried(t)
    requires Is(ysubx, M) && Is(xaddy, L) && Is(c, C) && Is(z, N) && Is(t, N) && (signbit == 0 || signbit == 1)
    requires SumTerms((Num(p.y) - Num(p.x)) * M, (Num(p.y) + Num(p.x)) * L, if signbit == 1 then -C else C, N, w,
                      x1, y1, x2, y2)
    requires EdwardsSum(x1, y1, x2, y2, x3, y3)
    ensures Complete(r, x3, y3)
  {
    ghost var A, B := (Num(p.y) - Num(p.x)) * M, (Num(p.y) + Num(p.x)) * L;
    var a, rx := Cross(p, ysubx, xaddy, M, L);
    var ry := Plus(rx, a, B, A);
    rx := Minus(rx, a, B, A);
    var rz, rt;
    if signbit == 0 {
      rz := Plus(z, c, N, C);
      rt := Minus(t, c, N, C);
    } else {
      rt := Plus(t, c, N, C);
      rz := Minus(z, c, N, C);
    }
    r := Completed(rx, ry, rz, rt);
    Sums(r, A, B, if signbit == 1 then -C else C, N, w, x1, y1, x2, y2, x3, y3);
  }

  /**
   The common part of the mixed additions: for sign 0 the second operand is (x2, y2), for sign 1 it
   is (-x2, y2).  `rt` is 2 Z1 Z2.
   */
  method MixedAdd(p: Point, ysubx: seq<int>, xaddy: seq<int>, t2d: seq<int>, rt: seq<int>, signbit: int, ghost Z2: int,
                  ghost x1: int, ghost y1: int, ghost x2: int, ghost y2: int, ghost x3: int, ghost y3: int)
    returns (r: Completed)
    requires Full(p, x1, y1) && (signbit == 0 || signbit == 1)
    requires Loose(ysubx) && Loose(xaddy) && Carried(t2d) && Carried(rt)
    requires Operand(Num(ysubx), Num(xaddy), Num(t2d), Z2, x2, y2)
    requires Is(rt, 2 * (Num(p.z) * Z2))
    requires EdwardsSum(x1, y1, if signbit == 1 then -x2 else x2, y2, x3, y3)
    ensures Complete(r, x3, y3)
  {
    ghost var M, L, K, N := Num(ysubx), Num(xaddy), Num(t2d), 2 * (Num(p.z) * Z2);
    ghost var X, Y, Z, T := Num(p.x), Num(p.y), Num(p.z), Num(p.t);
    var c := Times(p.t, t2d, T, K);
    if signbit == 0 {
      OperandTerms(X, Y, Z, T, x1, y1, M, L, K, Z2, x2, y2);
      r := MixedCombine(p, ysubx, xaddy, c, rt, rt, signbit, M, L, T * K, N, Z * Z2, x1, y1, x2, y2, x3, y3);
    } else {
      NegatedOperand(M, L, K, Z2, x2, y2);
      OperandTerms(X, Y, Z, T, x1, y1, L, M, -K, Z2, -x2, y2);
      NegProduct(T, K);
      r := MixedCombine(p, xaddy, ysubx, c, rt, rt, signbit, L, M, T * K, N, Z * Z2, x1, y1, -x2, y2, x3, y3);
    }
  }

  /** ge25519_nielsadd2_p1p1 */
  method NielsAdd2P1P1(p: Point, q: NielsLimbs, signbit: int, ghost x1: int, ghost y1: int, ghost x2: int,
                       ghost y2: int, ghost x3: int, ghost y3: int)
    returns (r: Completed)
    requires Full(p, x1, y1) && Niels(q, x2, y2) && (signbit == 0 || signbit == 1)
    requires EdwardsSum(x1, y1, if signbit == 1 then -x2 else x2, y2, x3, y3)
    ensures Complete(r, x3, y3)
  {
    var rt := PlusReduce(p.z, p.z, Num(p.z), Num(p.z));
    AffineOperand(Num(q.ysubx), Num(q.xaddy), Num(q.t2d), x2, y2);
    r := MixedAdd(p, q.ysubx, q.xaddy, q.t2d, rt, signbit, 1, x1, y1, x2, y2, x3, y3);
  }

  /** ge25519_pnielsadd_p1p1 */
  method PnielsAddP1P1(p: Point, q: PnielsLimbs, signbit: int, ghost x1: int, ghost y1: int, ghost x2: int,
                       ghost y2: int, ghost x3: int, ghost y3: int)
    returns (r: Completed)
    requires Full(p, x1, y1) && Pniels(q, x2, y2) && (signbit == 0 || signbit == 1)
    requires EdwardsSum(x1, y1, if signbit == 1 then -x2 else x2, y2, x3, y3)
    ensures Complete(r, x3, y3)
  {
    var rt := Times(p.z, q.z, Num(p.z), Num(q.z));
    rt := PlusReduce(rt, rt, Num(p.z) * Num(q.z), Num(p.z) * Num(q.z));
    r := MixedAdd(p, q.ysubx, q.xaddy, q.t2d, rt, signbit, Num(q.z), x1, y1, x2, y2, x3, y3);
  }

  /** The additions without a sign, on a doubled Z1 Z2 that is not carried. */
  method UnsignedAdd(p: Point, ysubx: seq<int>, xaddy: seq<int>, t2d: seq<int>, d: seq<int>, ghost Z2: int,
                     ghost x1: int, ghost y1: int, ghost x2: int, ghost y2: int, ghost x3: int, ghost y3: int)
    returns (r: Completed)
    requires Full(p, x1, y1) && Loose(ysubx) && Loose(xaddy) && Carried(t2d) && Basic(d)
    requires Operand(Num(ysubx), Num(xaddy), Num(t2d), Z2, x2, y2)
    requires Is(d, 2 * (Num(p.z) * Z2)) && EdwardsSum(x1, y1, x2, y2, x3, y3)
    ensures Complete(r, x3, y3)
  {
    ghost var M, L, K, N := Num(ysubx), Num(xaddy), Num(t2d), 2 * (Num(p.z) * Z2);
    ghost var A, B := (Num(p.y) - Num(p.x)) * M, (Num(p.y) + Num(p.x)) * L;
    OperandTerms(Num(p.x), Num(p.y), Num(p.z), Num(p.t), x1, y1, M, L, K, Z2, x2, y2);
    var a, b := Cross(p, ysubx, xaddy, M, L);
    var c := Times(p.t, t2d, Num(p.t), K);
    r := Combine(a, b, c, d, A, B, Num(p.t) * K, N);
    Sums(r, A, B, Num(p.t) * K, N, Num(p.z) * Z2, x1, y1, x2, y2, x3, y3);
  }

  /** ge25519_nielsadd2: r += q */
  method NielsAdd2(p: Point, q: NielsLimbs, ghost x1: int, ghost y1: int, ghost x2: int, ghost y2: int, ghost x3: int,
                   ghost y3: int)
    returns (r: Point)
    requires Full(p, x1, y1) && Niels(q, x2, y2) && EdwardsSum(x1, y1, x2, y2, x3, y3)
    ensures Full(r, x3, y3)
  {
    var f := Plus(p.z, p.z, Num(p.z), Num(p.z));
    AffineOperand(Num(q.ysubx), Num(q.xaddy), Num(q.t2d), x2, y2);
    var t := UnsignedAdd(p, q.ysubx, q.xaddy, q.t2d, f, 1, x1, y1, x2, y2, x3, y3);
    r := ToFull(t, x3, y3);
  }

  /** ge25519_full_to_pniels */
  method FullToPniels(p: Point, ghost x: int, ghost y: int) returns (r: PnielsLimbs)
    requires Full(p, x, y)
    ensures Pniels(r, x, y)
  {
    ghost var X, Y, Z, T := Num(p.x), Num(p.y), Num(p.z), Num(p.t);
    var ysubx := Minus(p.y, p.x, Y, X);
    var xaddy := Plus(p.y, p.x, Y, X);
    Ec2d();
    var t2d := Times(p.t, EC2D, T, 2 * D);
    ByDIs(T);
    PointOperand(X, Y, Z, T, x, y);
    OperandCong(Y - X, Y + X, 2 * ByD(T), Z, Num(ysubx), Num(xaddy), Num(t2d), x, y);
    r := PnielsLimbs(ysubx, xaddy, p.z, t2d);
  }

  /** ge25519_pnielsadd: p + q, as a precomputed point again */
  method PnielsAdd(p: Point, q: PnielsLimbs, ghost x1: int, ghost y1: int, ghost x2: int, ghost y2: int, ghost x3: int,
                   ghost y3: int)
    returns (r: PnielsLimbs)
    requires Full(p, x1, y1) && Pniels(q, x2, y2) && EdwardsSum(x1, y1, x2, y2, x3, y3)
    ensures Pniels(r, x3, y3)
  {
    var t := Times(p.z, q.z, Num(p.z), Num(q.z));
    t := Plus(t, t, Num(p.z) * Num(q.z), Num(p.z) * Num(q.z));
    var s := UnsignedAdd(p, q.ysubx, q.xaddy, q.t2d, t, Num(q.z), x1, y1, x2, y2, x3, y3);
    var f := ToFull(s, x3, y3);
    r := FullToPniels(f, x3, y3);
  }

  /** ge25519_add */
  method Add(p: Point, q: Point, ghost x1: int, ghost y1: int, ghost x2: int, ghost y2: int, ghost x3: int,
             ghost y3: int)
    returns (r: Point)
    requires Full(p, x1, y1) && Full(q, x2, y2) && EdwardsSum(x1, y1, x2, y2, x3, y3)
    ensures Full(r, x3, y3)
  {
    var t := AddP1P1(p, q, x1, y1, x2, y2, x3, y3);
    r := ToFull(t, x3, y3);
  }

  /** ge25519_double */
  method Double(p: Point, ghost x: int, ghost y: int, ghost x3: int, ghost y3: int) returns (r: Point)
    requires Partial(p, x, y) && OnCurve(x, y) && EdwardsSum(x, y, x, y, x3, y3)
    ensures Full(r, x3, y3)
  {
    var t := DoubleP1P1(p, x, y, x3, y3);
    r := ToFull(t, x3, y3);
  }

  // ---------- table entries ----------

  /** An entry of the base table at position 0: its t2d is 2 x y, without the factor d. */
  ghost predicate NielsAtZero(q: NielsLimbs, x: int, y: int) {
    Carried(q.ysubx) && Carried(q.xaddy) && Carried(q.t2d) && Is(q.ysubx, y - x) && Is(q.xaddy, y + x)
      && Is(q.t2d, 2 * (x * y))
  }

  /** The first digit of the comb: (2 x, 2 y, 2, 2 x y) stands for (x, y). */
  method FromNiels(q: NielsLimbs, ghost x: int, ghost y: int) returns (r: Point)
    requires NielsAtZero(q, x, y)
    ensures Full(r, x, y)
  {
    var rx := MinusReduce(q.xaddy, q.ysubx, y + x, y - x);
    var ry := PlusReduce(q.xaddy, q.ysubx, y + x, y - x);
    r := Point(rx, ry, [2, 0, 0, 0, 0], q.t2d);
    UnitTwo();
    NumIs(r.z);
    ProductIs(Num(rx), x, 2);
    ProductIs(Num(ry), y, 2);
    ProductIs(Num(q.t2d), x * y, 2);
  }

  lemma TwistPulled2(m: int)
    ensures (2 * m) * D == 2 * ByD(m)
  {
    ByDIs(m);
  }

  /** The even digits' first entry is scaled by d before it is added. */
  method ScaleT(q: NielsLimbs, ghost x: int, ghost y: int) returns (r: NielsLimbs)
    requires NielsAtZero(q, x, y)
    ensures Niels(r, x, y)
  {
    Ecd();
    var t2d := Times(q.t2d, ECD, 2 * (x * y), D);
    TwistPulled2(x * y);
    r := NielsLimbs(q.ysubx, q.xaddy, t2d);
  }

  lemma NegatedT(t: int, n: int, x: int, y: int)
    requires Cong(n, -t)
    ensures Cong(t, 2 * ByD(x * y)) ==> Cong(n, 2 * ByD((-x) * y))
    ensures Cong(t, 2 * (x * y)) ==> Cong(n, 2 * ((-x) * y))
  {
    var m := x * y;
    assert (-x) * y == -m;
    ByDNeg(m);
    if Cong(t, 2 * ByD(m)) {
      CongAdd(0, 0, t, 2 * ByD(m));
    }
    if Cong(t, 2 * m) {
      CongAdd(0, 0, t, 2 * m);
    }
  }

  /** The sign adjustment of an entry: exchange y - x with y + x, negate 2 d x y, or 2 x y at position 0. */
  method AdjustSign(q: NielsLimbs, sign: int, ghost x: int, ghost y: int) returns (r: NielsLimbs)
    requires (Niels(q, x, y) || NielsAtZero(q, x, y)) && (sign == 0 || sign == 1)
    ensures Niels(q, x, y) ==> Niels(r, if sign == 1 then -x else x, y)
    ensures NielsAtZero(q, x, y) ==> NielsAtZero(r, if sign == 1 then -x else x, y)
  {
    var neg := Negate(q.t2d);
    r := q;
    if sign == 1 {
      NegatedT(Num(q.t2d), Num(neg), x, y);
      r := NielsLimbs(q.xaddy, q.ysubx, neg);
    }
  }

  /** The entry that the selection starts from, (1, 1, 0), is the neutral point, at every position. */
  lemma NeutralEntry()
    ensures var q := NielsLimbs([1, 0, 0, 0, 0], [1, 0, 0, 0, 0], [0, 0, 0, 0, 0]);
      Niels(q, 0, 1) && NielsAtZero(q, 0, 1)
  {
    NumIs([1, 0, 0, 0, 0]);
    NumIs([0, 0, 0, 0, 0]);
  }
}
