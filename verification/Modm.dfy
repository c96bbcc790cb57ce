/**
 Scalars modulo the group order m = 2^252 + 27742317777372353535851937790883648493,
 five 56-bit limbs in 64-bit words (modm-donna-64bit.h).
 */
module Modm {
  import opened Words

  const M: int := 0x1000000000000000000000000000000014def9dea2f79cd65812631a5cf5d3ed

  /** floor(2^512 / m), see MuIsFloor. */
  const MU: int := 0xfffffffffffffffffffffffffffffffeb2106215d086329a7ed9ce5a30a2c131b

  const B: int := 0x100_0000_0000_0000                                  // 2^56
  const B2: int := 0x1_0000_0000_0000_0000_0000_0000_0000              // 2^112
  const B3: int := 0x100_0000_0000_0000_0000_0000_0000_0000_0000_0000_0000  // 2^168
  const B4: int := 0x1_0000_0000_0000_0000_0000_0000_0000_0000_0000_0000_0000_0000_0000_0000  // 2^224
  const TWO40: int := 0x100_0000_0000
  const TWO248: int := B4 * 0x100_0000
  const TWO264: int := B4 * TWO40
  const TWO512: int := TWO248 * TWO264

  /** The number that five limbs stand for. */
  function Val(a: seq<int>): int
    requires |a| == 5
  {
    a[0] + B * a[1] + B2 * a[2] + B3 * a[3] + B4 * a[4]
  }

  /** Five limbs, each in 56 bits and the top one below `top`. */
  predicate Limbs(a: seq<int>, top: int) {
    && |a| == 5
    && 0 <= a[0] < B && 0 <= a[1] < B && 0 <= a[2] < B && 0 <= a[3] < B && 0 <= a[4] < top
  }

  /** What every scalar operation delivers: limbs in range and the value below m. */
  predicate Reduced(a: seq<int>) {
    Limbs(a, B) && Val(a) < M
  }

  lemma TwoTo224()
    ensures Pow2(224) == B4
  {
    TwoTo56();
    Pow2Add(56, 56);
    Pow2Add(112, 112);
  }

  lemma GroupOrder()
    ensures M == Pow2(252) + 27742317777372353535851937790883648493
  {
    TwoTo224();
    assert Pow2(14) == 0x4000;
    Pow2Add(14, 14);
    Pow2Add(224, 28);
  }

  lemma MuIsFloor()
    ensures MU * M <= TWO512 < (MU + 1) * M
  {
  }

  /** Bit 63 of the wrapped difference; the comparison a < b when both are below 2^63. */
  function LtModm(a: int, b: int): (r: int)
    requires U64(a) && U64(b)
    ensures r == 0 || r == 1
    ensures a < 0x8000_0000_0000_0000 && b < 0x8000_0000_0000_0000 ==> r == if a < b then 1 else 0
  {
    Top64(Sub64(a, b))
  }

  /**
   One limb of a borrowing subtraction: `b = lt_modm(a, pb)`, then `a - pb + (b << k)` in 64 bits,
   where `pow` is 2^k.  The result is the digit and the borrow.
   */
  function SubLimb(a: int, pb: int, pow: int): (res: (int, int))
    requires 0 <= a < 0x4000_0000_0000_0000 && 0 <= pb <= pow <= 0x4000_0000_0000_0000
    ensures res.1 == if a < pb then 1 else 0
    ensures res.0 == if a < pb then a - pb + pow else a - pb
  {
    var b := LtModm(a, pb);
    (Sub64(a + (if b == 1 then pow else 0), pb), b)
  }

  lemma SubLimbs(a: seq<int>, s: seq<int>, t: seq<int>, b0: int, b1: int, b2: int, b3: int, b4: int)
    requires |a| == |s| == |t| == 5
    requires t[0] == a[0] - s[0] + B * b0
    requires t[1] == a[1] - s[1] - b0 + B * b1
    requires t[2] == a[2] - s[2] - b1 + B * b2
    requires t[3] == a[3] - s[3] - b2 + B * b3
    requires t[4] == a[4] - s[4] - b3 + b4
    ensures Val(t) == Val(a) - Val(s) + B4 * b4
  {
  }

  method BorrowLimb(a: int, pb: int) returns (t: int, b: int)
    requires 0 <= a < B && 0 <= pb <= B
    ensures t == a - pb + B * b && 0 <= t < B && 0 <= b <= 1
  {
    var d := SubLimb(a, pb, B);
    t, b := d.0, d.1;
  }

  /** t = a - m with borrows; `b` is the borrow out of the top limb. */
  method SubtractM(a: seq<int>) returns (t: seq<int>, b: int)
    requires Limbs(a, B)
    ensures Limbs(t, B) && (b == 0 || b == 1)
    ensures b == 0 ==> Val(t) == Val(a) - M && Val(a) >= M
    ensures b == 1 ==> Val(a) < M
  {
    var m := [0x12631a5cf5d3ed, 0xf9dea2f79cd658, 0x14de, 0, 0x10000000];
    var t0, t1, t2, t3, b0, b1, b2, b3;
    t0, b0 := BorrowLimb(a[0], m[0]);
    t1, b1 := BorrowLimb(a[1], b0 + m[1]);
    t2, b2 := BorrowLimb(a[2], b1 + m[2]);
    t3, b3 := BorrowLimb(a[3], b2 + m[3]);
    var top := SubLimb(a[4], b3 + m[4], 0x1_0000_0000);
    b := top.1;
    t := [t0, t1, t2, t3, top.0];
    SubLimbs(a, m, t, b0, b1, b2, b3, 0x1_0000_0000 * b);
  }

  method SelectLimb(b: int, r: int, t: int) returns (s: int)
    requires U64(r) && U64(t) && (b == 0 || b == 1)
    ensures s == if b == 0 then t else r
  {
    s := MaskSelect(b, r, t);
  }

  /**
   Conditional subtraction of m.  The limbs of `r - m` are computed with borrows and chosen
   over `r` by mask.
   */
  method Reduce256Modm(r: array<int>)
    requires r.Length == 5 && Limbs(r[..], B)
    modifies r
    ensures Limbs(r[..], B)
    ensures Val(r[..]) == if old(Val(r[..])) < M then old(Val(r[..])) else old(Val(r[..])) - M
  {
    ghost var a := r[..];
    var t, b := SubtractM(r[..]);
    var s0 := SelectLimb(b, r[0], t[0]);
    var s1 := SelectLimb(b, r[1], t[1]);
    var s2 := SelectLimb(b, r[2], t[2]);
    var s3 := SelectLimb(b, r[3], t[3]);
    var s4 := SelectLimb(b, r[4], t[4]);
    r[0], r[1], r[2], r[3], r[4] := s0, s1, s2, s3, s4;
    assert r[..] == if b == 0 then t else a;
  }

  /** Masking to 56 bits after a 64-bit shift sees only what the unbounded shift leaves there. */
  lemma LowAfterShift(x: int, q: int, l: int)
    requires x == B * q + l && 0 <= l < B
    ensures (x % TWO64) % B == l
  {
    var a, z := x / TWO64, x % TWO64;
    RemainderUnique(x, B, q, l);
    RemainderUnique(x, B, 0x100 * a + z / B, z % B);
  }

  /**
   A finished 115-bit column taken apart: `hi` is `(lo128(c) >> 40) & 0xffff`, `lo` is
   `(lo128(c) << 16) & 0xffffffffffffff` and `f` the carry `c >> 56`.
   */
  method SplitColumn(c: int) returns (hi: int, lo: int, f: int, ghost l: int)
    requires 0 <= c < 8 * B2
    ensures c == B * f + TWO40 * hi + l && lo == 0x1_0000 * l
    ensures 0 <= hi < 0x1_0000 && 0 <= l < TWO40 && 0 <= f < 8 * B
  {
    var w := Lo128(c);
    hi := (w / TWO40) % 0x1_0000;
    lo := Shl64(w, 0x1_0000) % B;
    f := Shr128(c, B);
    l := w % TWO40;
    ghost var a, u := c / TWO64, w / TWO40;
    RemainderUnique(c, B, 0x100 * a + u / 0x1_0000, TWO40 * hi + l);
    LowAfterShift(w * 0x1_0000, u, 0x1_0000 * l);
  }

  /** A column of which only the carry is kept. */
  method CarryColumn(c: int) returns (f: int, ghost l: int)
    requires 0 <= c < 8 * B2
    ensures 0 <= f < 8 * B
    ensures c == B * f + l && 0 <= l < B
  {
    f := Shr128(c, B);
    l := c % B;
  }

  method ShiftUp16(f: int) returns (r: int)
    requires 0 <= f < 0x1000_0000
    ensures r == 0x1_0000 * f
  {
    r := Shl64(f, 0x1_0000);
  }

  // The columns of the full product mu * q1.
  ghost function MuColumn3(q1: seq<int>): int requires |q1| == 5 {
    0x9ce5a30a2c131b * q1[3] + 0xffffffffffffff * q1[0] + 0x215d086329a7ed * q1[2] + 0xffffffffeb2106 * q1[1]
  }
  ghost function MuColumn4(q1: seq<int>): int requires |q1| == 5 {
    0x9ce5a30a2c131b * q1[4] + 0xfffffffff * q1[0] + 0xffffffffffffff * q1[1] + 0x215d086329a7ed * q1[3]
      + 0xffffffffeb2106 * q1[2]
  }
  ghost function MuColumn5(q1: seq<int>): int requires |q1| == 5 {
    0xfffffffff * q1[1] + 0x215d086329a7ed * q1[4] + 0xffffffffeb2106 * q1[3] + 0xffffffffffffff * q1[2]
  }
  ghost function MuColumn6(q1: seq<int>): int requires |q1| == 5 {
    0xfffffffff * q1[2] + 0xffffffffeb2106 * q1[4] + 0xffffffffffffff * q1[3]
  }
  ghost function MuColumn7(q1: seq<int>): int requires |q1| == 5 {
    0xfffffffff * q1[3] + 0xffffffffffffff * q1[4]
  }
  ghost function MuColumn8(q1: seq<int>): int requires |q1| == 5 {
    0xfffffffff * q1[4]
  }

  /** The columns of mu * q1 at B^3, B^4 and B^5: the first digit of q3, half of the second, the carry. */
  method QuotientLow(q1: seq<int>) returns (d0: int, h5: int, f5: int, ghost l3: int, ghost l4: int)
    requires Limbs(q1, TWO40)
    ensures 0 <= d0 < B && 0 <= h5 < 0x1_0000 && 0 <= f5 < 8 * B && 0 <= l3 < B && 0 <= l4 < TWO40
    ensures MuColumn3(q1) + B * MuColumn4(q1) + B2 * MuColumn5(q1)
         == l3 + B * l4 + B * TWO40 * d0 + B2 * TWO40 * h5 + B3 * f5
  {
    var c, f3, f4, h4, lo, lo5;
    ghost var l5;
    c := Fits128(0x9ce5a30a2c131b * q1[3] + 0xffffffffffffff * q1[0] + 0x215d086329a7ed * q1[2]
      + 0xffffffffeb2106 * q1[1]);
    f3, l3 := CarryColumn(c);
    c := Fits128(0x9ce5a30a2c131b * q1[4] + f3 + 0xfffffffff * q1[0] + 0xffffffffffffff * q1[1]
      + 0x215d086329a7ed * q1[3] + 0xffffffffeb2106 * q1[2]);
    h4, lo, f4, l4 := SplitColumn(c);
    c := Fits128(0xfffffffff * q1[1] + f4 + 0x215d086329a7ed * q1[4] + 0xffffffffeb2106 * q1[3]
      + 0xffffffffffffff * q1[2]);
    h5, lo5, f5, l5 := SplitColumn(c);
    d0 := Or(h4, lo5, 0x1_0000, l5);
  }

  /** The columns of mu * q1 from B^6 up: the other digits of q3. */
  method QuotientHigh(q1: seq<int>, h5: int, f5: int) returns (d1: int, d2: int, d3: int, d4: int)
    requires Limbs(q1, TWO40) && 0 <= h5 < 0x1_0000 && 0 <= f5 < 8 * B
    ensures 0 <= d1 < B && 0 <= d2 < B && 0 <= d3 < B && 0 <= d4 < TWO40
    ensures TWO40 * h5 + B * (f5 + MuColumn6(q1)) + B2 * MuColumn7(q1) + B3 * MuColumn8(q1)
         == TWO40 * (d1 + B * d2 + B2 * d3 + B3 * d4)
  {
    var c, f6, f7, f8, h6, h7, h8, lo6, lo7, lo8, lo;
    ghost var l6, l7, l8;
    c := Fits128(0xfffffffff * q1[2] + f5 + 0xffffffffeb2106 * q1[4] + 0xffffffffffffff * q1[3]);
    h6, lo6, f6, l6 := SplitColumn(c);
    d1 := Or(h5, lo6, 0x1_0000, l6);
    c := Fits128(0xfffffffff * q1[3] + f6 + 0xffffffffffffff * q1[4]);
    h7, lo7, f7, l7 := SplitColumn(c);
    d2 := Or(h6, lo7, 0x1_0000, l7);
    c := Fits128(0xfffffffff * q1[4] + f7);
    h8, lo8, f8, l8 := SplitColumn(c);
    d3 := Or(h7, lo8, 0x1_0000, l8);
    lo := ShiftUp16(f8);
    d4 := Or(h8, lo, 0x1_0000, f8);
  }

  /** What the code leaves out of mu * q1: three whole columns and the low limb of the fourth. */
  ghost function DroppedPart(q1: seq<int>, l3: int): int
    requires |q1| == 5
  {
    0x9ce5a30a2c131b * q1[0]
    + B * (0x9ce5a30a2c131b * q1[1] + 0x215d086329a7ed * q1[0])
    + B2 * (0x9ce5a30a2c131b * q1[2] + 0x215d086329a7ed * q1[1] + 0xffffffffeb2106 * q1[0])
    + B3 * l3
  }

  lemma QuotientSum(q1: seq<int>, q3: seq<int>, h5: int, f5: int, l3: int, l4: int)
    requires |q1| == |q3| == 5
    requires MuColumn3(q1) + B * MuColumn4(q1) + B2 * MuColumn5(q1)
         == l3 + B * l4 + B * TWO40 * q3[0] + B2 * TWO40 * h5 + B3 * f5
    requires TWO40 * h5 + B * (f5 + MuColumn6(q1)) + B2 * MuColumn7(q1) + B3 * MuColumn8(q1)
         == TWO40 * (q3[1] + B * q3[2] + B2 * q3[3] + B3 * q3[4])
    ensures MU * Val(q1) == DroppedPart(q1, l3) + B4 * l4 + TWO264 * Val(q3)
  {
  }

  lemma DroppedBound(q1: seq<int>, l3: int)
    requires Limbs(q1, TWO40) && 0 <= l3 < B
    ensures 0 <= DroppedPart(q1, l3) < 8 * B4
  {
  }

  /**
   q3 = floor(mu * q1 / 2^264), up to the dropped partial products: the columns below B^3 are
   never formed and of the column at B^3 only the carry is kept.
   */
  method BarrettQuotient(q1: seq<int>) returns (q3: seq<int>, ghost dropped: int)
    requires Limbs(q1, TWO40)
    ensures Limbs(q3, TWO40)
    ensures 0 <= dropped < 8 * B4
    ensures 0 <= MU * Val(q1) - dropped - TWO264 * Val(q3) < TWO264
  {
    var d0, h5, f5, l3, l4 := QuotientLow(q1);
    var d1, d2, d3, d4 := QuotientHigh(q1, h5, f5);
    q3 := [d0, d1, d2, d3, d4];
    dropped := DroppedPart(q1, l3);
    DroppedBound(q1, l3);
    QuotientSum(q1, q3, h5, f5, l3, l4);
  }

  /** A column cut to one limb: `lo128(c) & 0xffffffffffffff` and the carry `c >> 56`. */
  method LowColumn(c: int) returns (l: int, f: int)
    requires 0 <= c < 8 * B2
    ensures c == B * f + l && 0 <= l < B && 0 <= f < 8 * B
  {
    l := Lo128(c) % B;
    f := Shr128(c, B);
    LowAfterShift(c, f, c % B);
  }

  /** A column cut to its low 40 bits, `lo128(c) & 0x0000ffffffffff`. */
  method TopColumn(c: int) returns (l: int, ghost k: int)
    requires 0 <= c < 8 * B2
    ensures c == TWO40 * k + l && 0 <= l < TWO40
  {
    var w := Lo128(c);
    l := w % TWO40;
    k := 0x100_0000 * (c / TWO64) + w / TWO40;
  }

  /** The columns of m * q below B^4. */
  method ProductLow(q: seq<int>) returns (r0: int, r1: int, r2: int, r3: int, f: int)
    requires Limbs(q, TWO40)
    ensures 0 <= r0 < B && 0 <= r1 < B && 0 <= r2 < B && 0 <= r3 < B && 0 <= f < 8 * B
    ensures r0 + B * r1 + B2 * r2 + B3 * r3 + B4 * f
         == 0x12631a5cf5d3ed * q[0] + B * (0x12631a5cf5d3ed * q[1] + 0xf9dea2f79cd658 * q[0])
            + B2 * (0x12631a5cf5d3ed * q[2] + 0x14de * q[0] + 0xf9dea2f79cd658 * q[1])
            + B3 * (0x12631a5cf5d3ed * q[3] + 0 * q[0] + 0xf9dea2f79cd658 * q[2] + 0x14de * q[1])
  {
    var c;
    c := Fits128(0x12631a5cf5d3ed * q[0]);
    r0, f := LowColumn(c);
    c := Fits128(0x12631a5cf5d3ed * q[1] + f + 0xf9dea2f79cd658 * q[0]);
    r1, f := LowColumn(c);
    c := Fits128(0x12631a5cf5d3ed * q[2] + f + 0x14de * q[0] + 0xf9dea2f79cd658 * q[1]);
    r2, f := LowColumn(c);
    c := Fits128(0x12631a5cf5d3ed * q[3] + f + 0 * q[0] + 0xf9dea2f79cd658 * q[2] + 0x14de * q[1]);
    r3, f := LowColumn(c);
  }

  /** The column of m * q at B^4, cut at 2^264. */
  method ProductTop(q: seq<int>, f: int) returns (l: int, ghost k: int)
    requires Limbs(q, TWO40) && 0 <= f < 8 * B
    ensures 0 <= l < TWO40
    ensures TWO40 * k + l == f + 0x12631a5cf5d3ed * q[4] + 0x10000000 * q[0] + 0xf9dea2f79cd658 * q[3] + 0x14de * q[2]
  {
    var c := Fits128(0x12631a5cf5d3ed * q[4] + f + 0x10000000 * q[0] + 0 * q[1] + 0xf9dea2f79cd658 * q[3]
      + 0x14de * q[2]);
    l, k := TopColumn(c);
  }

  /** The columns of m * q at B^5 and above, in units of 2^264; the code never forms them. */
  ghost function HighColumns(q: seq<int>): int
    requires |q| == 5
  {
    0x1_0000 * (0xf9dea2f79cd658 * q[4] + 0x14de * q[3] + 0x10000000 * q[1])
    + 0x1_0000 * B * (0x14de * q[4] + 0x10000000 * q[2])
    + 0x1_0000 * B2 * (0x10000000 * q[3]) + 0x1_0000 * B3 * (0x10000000 * q[4])
  }

  lemma ProductSum(q: seq<int>, r2: seq<int>, f: int, k: int)
    requires |q| == |r2| == 5
    requires r2[0] + B * r2[1] + B2 * r2[2] + B3 * r2[3] + B4 * f
         == 0x12631a5cf5d3ed * q[0] + B * (0x12631a5cf5d3ed * q[1] + 0xf9dea2f79cd658 * q[0])
            + B2 * (0x12631a5cf5d3ed * q[2] + 0x14de * q[0] + 0xf9dea2f79cd658 * q[1])
            + B3 * (0x12631a5cf5d3ed * q[3] + 0 * q[0] + 0xf9dea2f79cd658 * q[2] + 0x14de * q[1])
    requires TWO40 * k + r2[4]
      == f + 0x12631a5cf5d3ed * q[4] + 0x10000000 * q[0] + 0xf9dea2f79cd658 * q[3] + 0x14de * q[2]
    ensures Val(q) * M == TWO264 * (k + HighColumns(q)) + Val(r2)
  {
  }

  /** r2 = q3 * m mod 2^264. */
  method BarrettProduct(q: seq<int>) returns (r2: seq<int>, ghost high: int)
    requires Limbs(q, TWO40)
    ensures Limbs(r2, TWO40)
    ensures Val(q) * M == TWO264 * high + Val(r2)
  {
    var a0, a1, a2, a3, f := ProductLow(q);
    var a4, k := ProductTop(q, f);
    r2 := [a0, a1, a2, a3, a4];
    high := k + HighColumns(q);
    ProductSum(q, r2, f, k);
  }

  /** The quotient estimate is never too large and at most 2 too small. */
  lemma EstimateError(x: int, q1: int, dropped: int, q3: int)
    requires 0 <= x < TWO512 && q1 == x / TWO248
    requires 0 <= dropped < 8 * B4
    requires 0 <= MU * q1 - dropped - TWO264 * q3 < TWO264
    ensures 0 <= x - q3 * M < 3 * M
    ensures x / M - 2 <= q3 <= x / M
  {
  }

  lemma RemainderBySubtraction(x: int, v: int, q: int)
    requires v == x - q * M && 0 <= v < M
    ensures x % M == v
  {
  }

  method BorrowTop(a: int, pb: int) returns (t: int, b: int)
    requires 0 <= a < TWO40 && 0 <= pb <= TWO40
    ensures t == a - pb + TWO40 * b && 0 <= t < TWO40 && 0 <= b <= 1
  {
    var d := SubLimb(a, pb, TWO40);
    t, b := d.0, d.1;
  }

  /** r = r1 - r2 mod 2^264, limb by limb; `r` may be the same array as `r1`. */
  method SubtractMod264(r: array<int>, r1: array<int>, r2: seq<int>) returns (ghost borrow: int)
    requires r.Length == r1.Length == 5 && Limbs(r1[..], TWO40) && Limbs(r2, TWO40)
    modifies r
    ensures Limbs(r[..], TWO40)
    ensures Val(r[..]) == old(Val(r1[..])) - Val(r2) + TWO264 * borrow
  {
    var a := r1[..];
    var b0, b1, b2, b3, b4, t;
    t, b0 := BorrowLimb(r1[0], r2[0]);      r[0] := t;
    t, b1 := BorrowLimb(r1[1], b0 + r2[1]); r[1] := t;
    t, b2 := BorrowLimb(r1[2], b1 + r2[2]); r[2] := t;
    t, b3 := BorrowLimb(r1[3], b2 + r2[3]); r[3] := t;
    t, b4 := BorrowTop(r1[4], b3 + r2[4]);  r[4] := t;
    borrow := b4;
    SubLimbs(a, r2, r[..], b0, b1, b2, b3, TWO40 * b4);
  }

  lemma RemainderAfterTwo(x: int, q: int, v: int)
    requires 0 <= x - q * M < 3 * M
    requires var v1 := if x - q * M < M then x - q * M else x - q * M - M;
             v == if v1 < M then v1 else v1 - M
    ensures 0 <= v < M && v == x % M
  {
    var d := x - q * M;
    RemainderBySubtraction(x, v, if d < M then q else if d < 2 * M then q + 1 else q + 2);
  }

  /** Subtracting modulo 2^264 loses nothing, because the true difference is that small. */
  lemma SameResidue(x: int, r1: int, p: int, high: int, r2: int, r: int, b: int)
    requires r1 == x % TWO264 && p == TWO264 * high + r2 && r == r1 - r2 + TWO264 * b
    requires 0 <= r < TWO264 && 0 <= x - p < TWO264
    ensures r == x - p
  {
    assert r - (x - p) == TWO264 * (high + b - x / TWO264);
  }

  /**
   Barrett reduction (HAC 14.42): from q1 = x >> 248 and r1 = x mod 2^264 of a 512-bit x to
   x mod m.  `r` may be the same array as `r1` (or `q1`).
   */
  method BarrettReduce256Modm(r: array<int>, q1: array<int>, r1: array<int>, ghost x: int)
    requires r.Length == q1.Length == r1.Length == 5
    requires 0 <= x < TWO512
    requires Limbs(q1[..], TWO40) && Val(q1[..]) == x / TWO248
    requires Limbs(r1[..], TWO40) && Val(r1[..]) == x % TWO264
    modifies r
    ensures Reduced(r[..]) && Val(r[..]) == x % M
  {
    var q3, dropped := BarrettQuotient(q1[..]);
    EstimateError(x, Val(q1[..]), dropped, Val(q3));
    var r2, high := BarrettProduct(q3);

    ghost var a := Val(r1[..]);
    ghost var b := SubtractMod264(r, r1, r2);
    SameResidue(x, a, Val(q3) * M, high, Val(r2), Val(r[..]), b);
    Reduce256Modm(r);
    Reduce256Modm(r);
    RemainderAfterTwo(x, Val(q3), Val(r[..]));
  }
}
