/**
 Arithmetic modulo p = 2^255 - 19 on five 51-bit limbs with delayed carries
 (curve25519-donna-64bit.h).  A limb may exceed 51 bits; every operation states how far its
 operands may, and how far its result does.
 */
module Field {
  import opened Words

  const P: int := 0x7fffffffffffffffffffffffffffffffffffffffffffffffffffffffffffffed
  const F1: int := 0x8_0000_0000_0000                                      // 2^51
  const F2: int := 0x40_0000_0000_0000_0000_0000_0000                      // 2^102
  const F3: int := 0x200_0000_0000_0000_0000_0000_0000_0000_0000_0000      // 2^153
  const F4: int := 0x1000_0000_0000_0000_0000_0000_0000_0000_0000_0000_0000_0000_0000  // 2^204
  const TWO54: int := 0x40_0000_0000_0000
  const TWO108: int := 0x1000_0000_0000_0000_0000_0000_0000

  /** The number that five limbs stand for. */
  function FVal(a: seq<int>): int
    requires |a| == 5
  {
    a[0] + F1 * a[1] + F2 * a[2] + F3 * a[3] + F4 * a[4]
  }

  predicate Small(a: seq<int>, bound: int) {
    |a| == 5 && 0 <= a[0] < bound && 0 <= a[1] < bound && 0 <= a[2] < bound && 0 <= a[3] < bound && 0 <= a[4] < bound
  }

  /** After a carry: at most a little over 51 bits in each limb. */
  predicate Carried(a: seq<int>) {
    Small(a, F1 + 0x1_0000)
  }

  /** What multiplication accepts. */
  predicate Loose(a: seq<int>) {
    Small(a, TWO54)
  }

  lemma FieldPrime()
    ensures P == Pow2(255) - 19
  {
    TwoTo255();
  }

  // ---------- congruence modulo p ----------

  /** x mod p.  The detour over n keeps the remainder out of sight where only congruence matters. */
  ghost function Residue(x: int, n: nat): int {
    if n == 0 then x % P else Residue(x, n - 1)
  }

  ghost predicate Cong(x: int, y: int) {
    Residue(x, 9) == Residue(y, 9)
  }

  lemma {:induction false} ResidueIsMod(x: int, n: nat)
    ensures Residue(x, n) == x % P
    decreases n
  {
    if n > 0 {
      ResidueIsMod(x, n - 1);
    }
  }

  lemma CongIsMod(x: int, y: int)
    ensures Cong(x, y) <==> x % P == y % P
  {
    ResidueIsMod(x, 9);
    ResidueIsMod(y, 9);
  }

  lemma ModPlus(y: int, k: int, d: int)
    requires d > 0
    ensures (y + d * k) % d == y % d
  {
    var q, r := y / d, y % d;
    assert y == d * q + r;
    assert y + d * k == d * (q + k) + r;
    RemainderUnique(y + d * k, d, q + k, r);
  }

  lemma CongBy(x: int, y: int, k: int)
    requires x == y + P * k
    ensures Cong(x, y)
  {
    ModPlus(y, k, P);
    CongIsMod(x, y);
  }

  lemma CongWitness(x: int, y: int) returns (k: int)
    requires Cong(x, y)
    ensures x == y + P * k
  {
    CongIsMod(x, y);
    k := x / P - y / P;
  }

  lemma CongAdd(a: int, b: int, c: int, d: int)
    requires Cong(a, b) && Cong(c, d)
    ensures Cong(a + c, b + d) && Cong(a - c, b - d)
  {
    var j := CongWitness(a, b);
    var k := CongWitness(c, d);
    CongBy(a + c, b + d, j + k);
    CongBy(a - c, b - d, j - k);
  }

  lemma Expanded(b: int, j: int, d: int, k: int, p: int)
    ensures (b + p * j) * (d + p * k) == b * d + p * (j * d + b * k + p * (j * k))
  {
    assert (b + p * j) * (d + p * k) == b * (d + p * k) + (p * j) * (d + p * k);
    assert b * (d + p * k) == b * d + p * (b * k);
    assert (p * j) * (d + p * k) == p * (j * d) + p * (p * (j * k));
  }

  lemma CongMul(a: int, b: int, c: int, d: int)
    requires Cong(a, b) && Cong(c, d)
    ensures Cong(a * c, b * d)
  {
    var j := CongWitness(a, b);
    var k := CongWitness(c, d);
    Expanded(b, j, d, k, P);
    CongBy(a * c, b * d, j * d + b * k + P * (j * k));
  }

  // ---------- addition and subtraction ----------

  /** curve25519_add, curve25519_add_after_basic */
  method FeAdd(a: seq<int>, b: seq<int>) returns (out: seq<int>)
    requires Loose(a) && Loose(b)
    ensures |out| == 5 && FVal(out) == FVal(a) + FVal(b)
    ensures forall i :: 0 <= i < 5 ==> out[i] == a[i] + b[i]
  {
    out := [Add64(a[0], b[0]), Add64(a[1], b[1]), Add64(a[2], b[2]), Add64(a[3], b[3]), Add64(a[4], b[4])];
  }

  /** No limb of b exceeds the matching limb of the multiple of p that is added first. */
  predicate Below(b: seq<int>, low: int, rest: int) {
    |b| == 5 && 0 <= b[0] <= low && 0 <= b[1] <= rest && 0 <= b[2] <= rest && 0 <= b[3] <= rest && 0 <= b[4] <= rest
  }

  const TWO_P0: int := 0x0f_ffff_ffff_ffda
  const TWO_P1234: int := 0x0f_ffff_ffff_fffe
  const FOUR_P0: int := 0x1f_ffff_ffff_ffb4
  const FOUR_P1234: int := 0x1f_ffff_ffff_fffc

  /** `a + m - b` on a 64-bit word, which must not go below zero. */
  function AddSub(a: int, m: int, b: int): (r: int)
    requires 0 <= a < TWO54 && 0 <= b <= m < TWO54
    ensures U64(r)
  {
    a + m - b
  }

  /** curve25519_sub: a + 2 p - b */
  method FeSub(a: seq<int>, b: seq<int>) returns (out: seq<int>)
    requires Loose(a) && Below(b, TWO_P0, TWO_P1234)
    ensures |out| == 5 && FVal(out) == FVal(a) - FVal(b) + 2 * P
    ensures forall i :: 0 <= i < 5 ==> 0 <= out[i] <= a[i] + TWO_P1234
  {
    out := [AddSub(a[0], TWO_P0, b[0]), AddSub(a[1], TWO_P1234, b[1]), AddSub(a[2], TWO_P1234, b[2]),
            AddSub(a[3], TWO_P1234, b[3]), AddSub(a[4], TWO_P1234, b[4])];
  }

  /** curve25519_sub_after_basic: a + 4 p - b */
  method FeSubAfterBasic(a: seq<int>, b: seq<int>) returns (out: seq<int>)
    requires Loose(a) && Below(b, FOUR_P0, FOUR_P1234)
    ensures |out| == 5 && FVal(out) == FVal(a) - FVal(b) + 4 * P
    ensures forall i :: 0 <= i < 5 ==> 0 <= out[i] <= a[i] + FOUR_P1234
  {
    out := [AddSub(a[0], FOUR_P0, b[0]), AddSub(a[1], FOUR_P1234, b[1]), AddSub(a[2], FOUR_P1234, b[2]),
            AddSub(a[3], FOUR_P1234, b[3]), AddSub(a[4], FOUR_P1234, b[4])];
  }

  /** One limb of a carry chain. */
  method Carry(x: int) returns (l: int, c: int)
    requires U64(x)
    ensures x == F1 * c + l && 0 <= l < F1 && 0 <= c <= x / F1
  {
    l, c := x % F1, x / F1;
  }

  /** Carry through the limbs of t, folding the last carry back as 19 c. */
  method CarryAround(t: seq<int>) returns (out: seq<int>, ghost k: int)
    requires Small(t, 4 * TWO54)
    ensures Carried(out) && FVal(out) == FVal(t) - P * k && 0 <= k <= 64
  {
    var r0, c := Carry(t[0]);
    var r1, r2, r3, r4;
    r1, c := Carry(Add64(t[1], c));
    r2, c := Carry(Add64(t[2], c));
    r3, c := Carry(Add64(t[3], c));
    r4, c := Carry(Add64(t[4], c));
    out := [Add64(r0, c * 19), r1, r2, r3, r4];
    k := c;
  }

  /** curve25519_add_reduce */
  method FeAddReduce(a: seq<int>, b: seq<int>) returns (out: seq<int>)
    requires Loose(a) && Loose(b)
    ensures Carried(out) && Cong(FVal(out), FVal(a) + FVal(b))
  {
    var s := FeAdd(a, b);
    ghost var k;
    out, k := CarryAround(s);
    CongBy(FVal(out), FVal(a) + FVal(b), -k);
  }

  /** curve25519_sub_reduce */
  method FeSubReduce(a: seq<int>, b: seq<int>) returns (out: seq<int>)
    requires Loose(a) && Below(b, FOUR_P0, FOUR_P1234)
    ensures Carried(out) && Cong(FVal(out), FVal(a) - FVal(b))
  {
    var s := FeSubAfterBasic(a, b);
    ghost var k;
    out, k := CarryAround(s);
    CongBy(FVal(out), FVal(a) - FVal(b), 4 - k);
  }

  /** curve25519_neg: 2 p - a, carried */
  method FeNeg(a: seq<int>) returns (out: seq<int>)
    requires Below(a, TWO_P0, TWO_P1234)
    ensures Carried(out) && Cong(FVal(out), -FVal(a))
  {
    var s := FeSub([0, 0, 0, 0, 0], a);
    ghost var k;
    out, k := CarryAround(s);
    CongBy(FVal(out), -FVal(a), 2 - k);
  }

  // ---------- multiplication ----------

  /** 64-bit multiplication that must not carry out. */
  function Times64(a: int, b: int): (r: int)
    requires U64(a * b)
  {
    a * b
  }

  /** The five columns of the product, the ones above 2^255 folded back with a factor 19. */
  function Columns(r: seq<int>, s: seq<int>): (t: seq<int>)
    requires |r| == |s| == 5
  {
    var q1, q2, q3, q4 := r[1] * 19, r[2] * 19, r[3] * 19, r[4] * 19;
    [r[0] * s[0] + (q4 * s[1] + q1 * s[4] + q2 * s[3] + q3 * s[2]),
     r[0] * s[1] + r[1] * s[0] + (q4 * s[2] + q2 * s[4] + q3 * s[3]),
     r[0] * s[2] + r[2] * s[0] + r[1] * s[1] + (q4 * s[3] + q3 * s[4]),
     r[0] * s[3] + r[3] * s[0] + r[1] * s[2] + r[2] * s[1] + q4 * s[4],
     r[0] * s[4] + r[4] * s[0] + r[3] * s[1] + r[1] * s[3] + r[2] * s[2]]
  }

  /** The part of the product that the folding takes out, over p. */
  ghost function Folded(r: seq<int>, s: seq<int>): int
    requires |r| == |s| == 5
  {
    (r[4] * s[1] + r[1] * s[4] + r[2] * s[3] + r[3] * s[2])
    + F1 * (r[4] * s[2] + r[2] * s[4] + r[3] * s[3])
    + F2 * (r[4] * s[3] + r[3] * s[4]) + F3 * (r[4] * s[4])
  }

  lemma ColumnsAreProduct(r: seq<int>, s: seq<int>)
    requires |r| == |s| == 5
    ensures FVal(Columns(r, s)) == FVal(r) * FVal(s) - P * Folded(r, s)
  {
  }

  predicate Wide(t: seq<int>) {
    && |t| == 5 && 0 <= t[0] < 77 * TWO108 && 0 <= t[1] < 59 * TWO108 && 0 <= t[2] < 41 * TWO108
    && 0 <= t[3] < 23 * TWO108 && 0 <= t[4] < 5 * TWO108
  }

  lemma Nineteen(r: seq<int>, s: seq<int>)
    requires |r| == |s| == 5
    ensures forall i, j :: 0 <= i < 5 && 0 <= j < 5 ==> (r[i] * 19) * s[j] == 19 * (r[i] * s[j])
  {
  }

  lemma ColumnsAreWide(r: seq<int>, s: seq<int>)
    requires Loose(r) && Loose(s)
    ensures Wide(Columns(r, s))
  {
    forall i, j | 0 <= i < 5 && 0 <= j < 5 ensures 0 <= r[i] * s[j] < TWO108 {
      MulBound(r[i], s[j], TWO54, TWO54);
    }
    Nineteen(r, s);
  }

  lemma ModOfMod(t: int)
    requires 0 <= t
    ensures (t % TWO64) % F1 == t % F1
  {
    var q, r := t / TWO64, t % TWO64;
    RemainderUnique(t, F1, 0x2000 * q + r / F1, r % F1);
  }

  /** `lo128(t) & mask` and `t >> 51` of a 128-bit column. */
  method Column(t: int) returns (l: int, c: int)
    requires 0 <= t < 128 * TWO108
    ensures t == F1 * c + l && 0 <= l < F1 && 0 <= c && U64(c)
  {
    l := Lo128(t) % F1;
    ModOfMod(t);
    c := Shr128(t, F1);
  }

  /** The carries of mul and square: through the columns, around, and once more into limb 1. */
  method CarryColumns(t: seq<int>) returns (out: seq<int>, ghost k: int)
    requires Wide(t)
    ensures Small(out, F1 + 0x2000) && out[0] < F1 && out[2] < F1 && out[3] < F1 && out[4] < F1
    ensures FVal(out) == FVal(t) - P * k
  {
    var r0, r1, r2, r3, r4, c;
    r0, c := Column(t[0]);
    r1, c := Column(Fits128(t[1] + c));
    r2, c := Column(Fits128(t[2] + c));
    r3, c := Column(Fits128(t[3] + c));
    r4, c := Column(Fits128(t[4] + c));
    k := c;
    r0, c := Carry(Add64(r0, c * 19));
    r1 := Add64(r1, c);
    out := [r0, r1, r2, r3, r4];
  }

  /** The columns as 128-bit words; 19 r_i is a 64-bit word. */
  method ProductColumns(r: seq<int>, s: seq<int>) returns (t: seq<int>)
    requires Loose(r) && Loose(s)
    ensures t == Columns(r, s) && Wide(t)
  {
    ColumnsAreWide(r, s);
    var r1, r2, r3, r4 := Times64(r[1], 19), Times64(r[2], 19), Times64(r[3], 19), Times64(r[4], 19);
    t := [Fits128(r[0] * s[0] + (r4 * s[1] + r1 * s[4] + r2 * s[3] + r3 * s[2])),
          Fits128(r[0] * s[1] + r[1] * s[0] + (r4 * s[2] + r2 * s[4] + r3 * s[3])),
          Fits128(r[0] * s[2] + r[2] * s[0] + r[1] * s[1] + (r4 * s[3] + r3 * s[4])),
          Fits128(r[0] * s[3] + r[3] * s[0] + r[1] * s[2] + r[2] * s[1] + r4 * s[4]),
          Fits128(r[0] * s[4] + r[4] * s[0] + r[3] * s[1] + r[1] * s[3] + r[2] * s[2])];
  }

  lemma Folds(out: int, s: int, r: int, f: int, k: int)
    requires out == r * s - P * f - P * k
    ensures Cong(out, s * r)
  {
    assert r * s == s * r;
    CongBy(out, s * r, -f - k);
  }

  method FeMul(s: seq<int>, r: seq<int>) returns (out: seq<int>)
    requires Loose(s) && Loose(r)
    ensures Small(out, F1 + 0x2000) && out[0] < F1 && out[2] < F1 && out[3] < F1 && out[4] < F1
    ensures Cong(FVal(out), FVal(s) * FVal(r))
  {
    ColumnsAreProduct(r, s);
    var t := ProductColumns(r, s);
    ghost var k;
    out, k := CarryColumns(t);
    Folds(FVal(out), FVal(s), FVal(r), Folded(r, s), k);
  }

  // ---------- squaring ----------

  /** 2 r_0, 2 r_1, 38 r_2, 19 r_4 and 38 r_4 as 64-bit words. */
  method Doubled(r: seq<int>) returns (d0: int, d1: int, d2: int, d419: int, d4: int)
    requires Loose(r)
    ensures d0 == 2 * r[0] && d1 == 2 * r[1] && d2 == 38 * r[2] && d419 == 19 * r[4] && d4 == 38 * r[4]
  {
    d0, d1, d2, d419 := Times64(r[0], 2), Times64(r[1], 2), Times64(Times64(r[2], 2), 19), Times64(r[4], 19);
    d4 := Times64(d419, 2);
  }

  /** (2 f x) y = (f x) y + (f y) x */
  lemma DoubledProduct(x: int, y: int, f: int)
    ensures (2 * f * x) * y == (x * f) * y + (y * f) * x && x * y == y * x
  {
    assert (2 * f * x) * y == 2 * ((x * f) * y);
    assert (x * f) * y == (y * f) * x;
  }

  method SquareColumn0(r: seq<int>, d4: int, d2: int) returns (t: int)
    requires |r| == 5 && d4 == 38 * r[4] && d2 == 38 * r[2] && U128(Columns(r, r)[0])
    ensures t == Columns(r, r)[0]
  {
    DoubledProduct(r[4], r[1], 19);
    DoubledProduct(r[2], r[3], 19);
    t := Fits128(r[0] * r[0] + d4 * r[1] + d2 * r[3]);
  }

  method SquareColumn1(r: seq<int>, d0: int, d4: int, q3: int) returns (t: int)
    requires |r| == 5 && d0 == 2 * r[0] && d4 == 38 * r[4] && q3 == 19 * r[3] && U128(Columns(r, r)[1])
    ensures t == Columns(r, r)[1]
  {
    DoubledProduct(r[0], r[1], 1);
    DoubledProduct(r[4], r[2], 19);
    assert r[3] * q3 == q3 * r[3];
    t := Fits128(d0 * r[1] + d4 * r[2] + r[3] * q3);
  }

  method SquareColumn2(r: seq<int>, d0: int, d4: int) returns (t: int)
    requires |r| == 5 && d0 == 2 * r[0] && d4 == 38 * r[4] && U128(Columns(r, r)[2])
    ensures t == Columns(r, r)[2]
  {
    DoubledProduct(r[0], r[2], 1);
    DoubledProduct(r[4], r[3], 19);
    t := Fits128(d0 * r[2] + r[1] * r[1] + d4 * r[3]);
  }

  method SquareColumn3(r: seq<int>, d0: int, d1: int, d419: int) returns (t: int)
    requires |r| == 5 && d0 == 2 * r[0] && d1 == 2 * r[1] && d419 == 19 * r[4] && U128(Columns(r, r)[3])
    ensures t == Columns(r, r)[3]
  {
    DoubledProduct(r[0], r[3], 1);
    DoubledProduct(r[1], r[2], 1);
    assert r[4] * d419 == d419 * r[4];
    t := Fits128(d0 * r[3] + d1 * r[2] + r[4] * d419);
  }

  method SquareColumn4(r: seq<int>, d0: int, d1: int) returns (t: int)
    requires |r| == 5 && d0 == 2 * r[0] && d1 == 2 * r[1] && U128(Columns(r, r)[4])
    ensures t == Columns(r, r)[4]
  {
    DoubledProduct(r[0], r[4], 1);
    DoubledProduct(r[1], r[3], 1);
    t := Fits128(d0 * r[4] + d1 * r[3] + r[2] * r[2]);
  }

  /** The columns of a square, with the symmetric products taken once and doubled. */
  method SquareColumns(r: seq<int>) returns (t: seq<int>)
    requires Loose(r)
    ensures t == Columns(r, r) && Wide(t)
  {
    ColumnsAreWide(r, r);
    var d0, d1, d2, d419, d4 := Doubled(r);
    ghost var c := Columns(r, r);
    var t0 := SquareColumn0(r, d4, d2);
    var t1 := SquareColumn1(r, d0, d4, Times64(r[3], 19));
    var t2 := SquareColumn2(r, d0, d4);
    var t3 := SquareColumn3(r, d0, d1, d419);
    var t4 := SquareColumn4(r, d0, d1);
    t := [t0, t1, t2, t3, t4];
  }

  /** curve25519_square */
  method FeSquare(r: seq<int>) returns (out: seq<int>)
    requires Loose(r)
    ensures Small(out, F1 + 0x2000) && out[0] < F1 && out[2] < F1 && out[3] < F1 && out[4] < F1
    ensures Cong(FVal(out), FVal(r) * FVal(r))
  {
    ColumnsAreProduct(r, r);
    var t := SquareColumns(r);
    ghost var k;
    out, k := CarryColumns(t);
    Folds(FVal(out), FVal(r), FVal(r), Folded(r, r), k);
  }

  lemma HighBits(t: int)
    requires U128(t)
    ensures U64(((t * 0x2000) % TWO128) / TWO64)
    ensures t < 128 * TWO108 ==> ((t * 0x2000) % TWO128) / TWO64 == t / F1
  {
    if t < 128 * TWO108 {
      var q, r := t / F1, t % F1;
      RemainderUnique(t * 0x2000, TWO128, 0, t * 0x2000);
      RemainderUnique(t * 0x2000, TWO64, q, 0x2000 * r);
    }
  }

  /** `(t << 13) >> 64`, the bits of t from 51 on as a 64-bit word. */
  function High51(t: int): (c: int)
    requires U128(t)
    ensures U64(c) && (t < 128 * TWO108 ==> c == t / F1)
  {
    HighBits(t);
    ((t * 0x2000) % TWO128) / TWO64
  }

  method Spread1(t: int) returns (l: int, c: int)
    requires 0 <= t < 128 * TWO108
    ensures t == F1 * c + l && 0 <= l < F1 && 0 <= c
  {
    ModOfMod(t);
    l, c := Lo128(t) % F1, High51(t);
  }

  /** The columns' high parts move up one limb at once, before any carry. */
  method Spread(t: seq<int>) returns (r: seq<int>, ghost k: int)
    requires Wide(t)
    ensures |r| == 5 && FVal(r) == FVal(t) - P * k && 0 <= r[0] < TWO64 - F1
    ensures forall i :: 0 <= i < 5 ==> 0 <= r[i] < TWO64 - F1
    ensures r[4] < 192 * TWO54
  {
    var l0, c0 := Spread1(t[0]);
    var l1, c1 := Spread1(t[1]);
    var l2, c2 := Spread1(t[2]);
    var l3, c3 := Spread1(t[3]);
    var l4, c4 := Spread1(t[4]);
    r := [Add64(l0, Times64(c4, 19)), Add64(l1, c0), Add64(l2, c1), Add64(l3, c2), Add64(l4, c3)];
    k := c4;
  }

  /** The carry chain of square_times, on nearly full words. */
  method CarryWide(t: seq<int>) returns (out: seq<int>, ghost k: int)
    requires |t| == 5 && (forall i :: 0 <= i < 5 ==> 0 <= t[i] < TWO64 - F1) && t[4] < 192 * TWO54
    ensures Carried(out) && FVal(out) == FVal(t) - P * k
  {
    var r0, c := Carry(t[0]);
    var r1, r2, r3, r4;
    r1, c := Carry(Add64(t[1], c));
    r2, c := Carry(Add64(t[2], c));
    r3, c := Carry(Add64(t[3], c));
    r4, c := Carry(Add64(t[4], c));
    out := [Add64(r0, Times64(c, 19)), r1, r2, r3, r4];
    k := c;
  }

  /** One round of square_times: square, spread, carry around. */
  method SquareRound(r: seq<int>) returns (out: seq<int>)
    requires Loose(r)
    ensures Carried(out) && Cong(FVal(out), FVal(r) * FVal(r))
  {
    ColumnsAreProduct(r, r);
    var t := SquareColumns(r);
    ghost var k, j;
    t, k := Spread(t);
    out, j := CarryWide(t);
    Folds(FVal(out), FVal(r), FVal(r), Folded(r, r), k + j);
  }
}
