/** Addition, multiplication, import and export of scalars modulo m (modm-donna-64bit.h). */
module Scalar {
  import opened Words
  import opened Bytes
  import opened Modm

  const TWO24: int := 0x100_0000

  lemma ReducedTop(a: seq<int>)
    requires Reduced(a)
    ensures Limbs(a, 0x1000_0001)
  {
  }

  /** `c & 0xffffffffffffff` and `c >> 56` of a 64-bit sum. */
  method CarryLimb(c: int) returns (l: int, f: int)
    requires U64(c) && c < 4 * B
    ensures c == B * f + l && 0 <= l < B && 0 <= f < 4
  {
    l, f := c % B, c / B;
  }

  lemma AddLimbs(a: seq<int>, b: seq<int>, t: seq<int>, f0: int, f1: int, f2: int, f3: int)
    requires |a| == |b| == |t| == 5
    requires B * f0 + t[0] == a[0] + b[0]
    requires B * f1 + t[1] == f0 + a[1] + b[1]
    requires B * f2 + t[2] == f1 + a[2] + b[2]
    requires B * f3 + t[3] == f2 + a[3] + b[3]
    requires t[4] == f3 + a[4] + b[4]
    ensures Val(t) == Val(a) + Val(b)
  {
  }

  method AddCarry(r: array<int>, x: array<int>, y: array<int>)
    requires r.Length == x.Length == y.Length == 5
    requires Reduced(x[..]) && Reduced(y[..])
    modifies r
    ensures Limbs(r[..], B) && Val(r[..]) == old(Val(x[..])) + old(Val(y[..]))
    ensures 0 <= Val(r[..])
  {
    var l0, l1, l2, l3, f0, f1, f2, f3;
    ReducedTop(x[..]);
    ReducedTop(y[..]);
    l0, f0 := CarryLimb(x[0] + y[0]);
    l1, f1 := CarryLimb(f0 + x[1] + y[1]);
    l2, f2 := CarryLimb(f1 + x[2] + y[2]);
    l3, f3 := CarryLimb(f2 + x[3] + y[3]);
    var l4 := f3 + x[4] + y[4];
    AddLimbs(x[..], y[..], [l0, l1, l2, l3, l4], f0, f1, f2, f3);
    r[0], r[1], r[2], r[3], r[4] := l0, l1, l2, l3, l4;
    assert r[..] == [l0, l1, l2, l3, l4];
  }

  /** r = x + y mod m; the three arrays may coincide. */
  method Add256Modm(r: array<int>, x: array<int>, y: array<int>)
    requires r.Length == x.Length == y.Length == 5
    requires Reduced(x[..]) && Reduced(y[..])
    modifies r
    ensures Reduced(r[..]) && Val(r[..]) == (old(Val(x[..])) + old(Val(y[..]))) % M
  {
    ghost var a, b := Val(x[..]), Val(y[..]);
    AddCarry(r, x, y);
    Reduce256Modm(r);
    RemainderBySubtraction(a + b, Val(r[..]), if a + b < M then 0 else 1);
  }

  // ---------- multiplication ----------

  /** The nine columns of the schoolbook product, each a chain of 64 by 64 bit products. */
  function ProductColumns(x: seq<int>, y: seq<int>): (s: seq<int>)
    requires |x| == |y| == 5
  {
    [x[0] * y[0],
     x[0] * y[1] + x[1] * y[0],
     x[0] * y[2] + x[2] * y[0] + x[1] * y[1],
     x[0] * y[3] + x[3] * y[0] + x[1] * y[2] + x[2] * y[1],
     x[0] * y[4] + x[4] * y[0] + x[3] * y[1] + x[1] * y[3] + x[2] * y[2],
     x[4] * y[1] + x[1] * y[4] + x[2] * y[3] + x[3] * y[2],
     x[4] * y[2] + x[2] * y[4] + x[3] * y[3],
     x[4] * y[3] + x[3] * y[4],
     x[4] * y[4]]
  }

  function ColumnsVal(s: seq<int>): int
    requires |s| == 9
  {
    s[0] + B * s[1] + B2 * s[2] + B3 * s[3] + B4 * (s[4] + B * s[5] + B2 * s[6] + B3 * s[7] + B4 * s[8])
  }

  predicate SmallColumns(s: seq<int>) {
    && |s| == 9
    && 0 <= s[0] < 5 * B2 && 0 <= s[1] < 5 * B2 && 0 <= s[2] < 5 * B2 && 0 <= s[3] < 5 * B2 && 0 <= s[4] < 5 * B2
    && 0 <= s[5] < 5 * B2 && 0 <= s[6] < 5 * B2 && 0 <= s[7] < 5 * B2 && 0 <= s[8] < TWO64
  }

  lemma ProductExpands(x: seq<int>, y: seq<int>)
    requires |x| == |y| == 5
    ensures ColumnsVal(ProductColumns(x, y)) == Val(x) * Val(y)
  {
  }

  lemma ProductBounds(x: seq<int>, y: seq<int>)
    requires Limbs(x, TWO32) && Limbs(y, TWO32)
    ensures SmallColumns(ProductColumns(x, y))
  {
    forall i, j | 0 <= i < 5 && 0 <= j < 5 ensures 0 <= x[i] * y[j] < B2 {
      MulBound(x[i], y[j], B, B);
    }
    MulBound(x[4], y[4], TWO32, TWO32);
  }

  /** `hi` is `(lo128(c) >> 24) & 0xffffffff`, `lo` is `(lo128(c) << 32) & 0xffffffffffffff`, `f` is `c >> 56`. */
  method SplitColumn24(c: int) returns (hi: int, lo: int, f: int, ghost l: int)
    requires 0 <= c < 8 * B2
    ensures c == B * f + TWO24 * hi + l && lo == TWO32 * l
    ensures 0 <= hi < TWO32 && 0 <= l < TWO24 && 0 <= f < 8 * B
  {
    var w := Lo128(c);
    hi := (w / TWO24) % TWO32;
    lo := Shl64(w, TWO32) % B;
    f := Shr128(c, B);
    l := w % TWO24;
    ghost var a, u := c / TWO64, w / TWO24;
    RemainderUnique(c, B, 0x100 * a + u / TWO32, TWO24 * hi + l);
    LowAfterShift(w * TWO32, u, TWO32 * l);
  }

  method ShiftUp32(f: int) returns (r: int)
    requires 0 <= f < 0x1000
    ensures r == TWO32 * f
  {
    r := Shl64(f, TWO32);
  }

  /** Carries through the low columns: r1 = product mod 2^264, the first half digit of q1 and the carry. */
  method MulLow(s: seq<int>) returns (r1: seq<int>, h4: int, f4: int, ghost k: int, ghost l4: int)
    requires SmallColumns(s)
    ensures Limbs(r1, TWO40) && 0 <= h4 < TWO32 && 0 <= l4 < TWO24 && 0 <= f4 < 8 * B
    ensures r1[4] + TWO40 * k == l4 + TWO24 * h4 + B * f4
    ensures s[0] + B * s[1] + B2 * s[2] + B3 * s[3] + B4 * s[4] == Val(r1) + TWO264 * k
  {
    var c, a0, a1, a2, a3, a4, f, lo;
    c := Fits128(s[0]);      a0, f := LowColumn(c);
    c := Fits128(s[1] + f);  a1, f := LowColumn(c);
    c := Fits128(s[2] + f);  a2, f := LowColumn(c);
    c := Fits128(s[3] + f);  a3, f := LowColumn(c);
    c := Fits128(s[4] + f);  a4, k := TopColumn(c);
    h4, lo, f4, l4 := SplitColumn24(c);
    r1 := [a0, a1, a2, a3, a4];
  }

  /** Carries through the high columns: q1 = product >> 248. */
  method MulHigh(s: seq<int>, h4: int, f4: int) returns (q1: seq<int>)
    requires SmallColumns(s) && 0 <= h4 < TWO32 && 0 <= f4 < 8 * B
    ensures Limbs(q1, 0x1000 * TWO32)
    ensures TWO24 * h4 + B * (f4 + s[5] + B * s[6] + B2 * s[7] + B3 * s[8]) == TWO24 * Val(q1)
  {
    var c, h5, h6, h7, h8, lo5, lo6, lo7, lo8, lo, f;
    ghost var l5, l6, l7, l8;
    c := Fits128(s[5] + f4); h5, lo5, f, l5 := SplitColumn24(c);
    c := Fits128(s[6] + f);  h6, lo6, f, l6 := SplitColumn24(c);
    c := Fits128(s[7] + f);  h7, lo7, f, l7 := SplitColumn24(c);
    c := Fits128(s[8] + f);  h8, lo8, f, l8 := SplitColumn24(c);
    assert f < 0x1000;
    lo := ShiftUp32(f);
    q1 := [Or(h4, lo5, TWO32, l5), Or(h5, lo6, TWO32, l6), Or(h6, lo7, TWO32, l7),
           Or(h7, lo8, TWO32, l8), Or(h8, lo, TWO32, f)];
  }

  lemma SplitEquation(p: int, rest: int, low: int, r4: int, q: int, h4: int, f4: int, k: int, l4: int)
    requires p == low + B4 * r4 + TWO264 * k + B4 * B * rest
    requires r4 + TWO40 * k == l4 + TWO24 * h4 + B * f4
    requires TWO24 * h4 + B * (f4 + rest) == TWO24 * q
    ensures p == TWO248 * q + (low + B4 * l4)
  {
  }

  lemma TopLimb(a: seq<int>)
    requires Limbs(a, 0x1000 * TWO32) && Val(a) < TWO264
    ensures Limbs(a, TWO40)
  {
  }

  lemma Split248(p: int, q: int, l: int)
    requires p == TWO248 * q + l && 0 <= l < TWO248
    ensures p / TWO248 == q
    ensures p < TWO512 ==> q < TWO264
  {
  }

  lemma Split264(p: int, q: int, l: int)
    requires p == TWO264 * q + l && 0 <= l < TWO264
    ensures p % TWO264 == l
  {
  }

  lemma ProductSplit(p: int, s: seq<int>, r1: seq<int>, q1: seq<int>, h4: int, f4: int, k: int, l4: int)
    requires SmallColumns(s) && Limbs(r1, TWO40) && Limbs(q1, 0x1000 * TWO32) && 0 <= l4 < TWO24
    requires p == ColumnsVal(s) && p < TWO512
    requires r1[4] + TWO40 * k == l4 + TWO24 * h4 + B * f4
    requires s[0] + B * s[1] + B2 * s[2] + B3 * s[3] + B4 * s[4] == Val(r1) + TWO264 * k
    requires TWO24 * h4 + B * (f4 + s[5] + B * s[6] + B2 * s[7] + B3 * s[8]) == TWO24 * Val(q1)
    ensures Limbs(q1, TWO40) && p / TWO248 == Val(q1) && p % TWO264 == Val(r1)
  {
    var rest := s[5] + B * s[6] + B2 * s[7] + B3 * s[8];
    Split264(p, k + 0x1_0000 * rest, Val(r1));
    var low := r1[0] + B * r1[1] + B2 * r1[2] + B3 * r1[3];
    SplitEquation(p, rest, low, r1[4], Val(q1), h4, f4, k, l4);
    Split248(p, Val(q1), low + B4 * l4);
    TopLimb(q1);
  }

  lemma ProductTotal(a: seq<int>, b: seq<int>)
    requires Limbs(a, TWO32) && Limbs(b, TWO32)
    ensures 0 <= Val(a) * Val(b) < TWO512
  {
    MulBound(Val(a), Val(b), B4 * TWO32, B4 * TWO32);
  }

  method ToArray(s: seq<int>) returns (a: array<int>)
    requires |s| == 5
    ensures fresh(a) && a[..] == s
  {
    a := new int[5](i requires 0 <= i < 5 => s[i]);
  }

  /** r = x * y mod m; the arrays may coincide. */
  method Mul256Modm(r: array<int>, x: array<int>, y: array<int>)
    requires r.Length == x.Length == y.Length == 5
    requires Limbs(x[..], TWO32) && Limbs(y[..], TWO32)
    modifies r
    ensures Reduced(r[..]) && Val(r[..]) == (old(Val(x[..])) * old(Val(y[..]))) % M
  {
    var a, b := x[..], y[..];
    var s := ProductColumns(a, b);
    ghost var p := Val(a) * Val(b);
    ProductExpands(a, b);
    ProductBounds(a, b);
    var r1, h4, f4, k, l4 := MulLow(s);
    var q1 := MulHigh(s, h4, f4);
    ProductTotal(a, b);
    ProductSplit(p, s, r1, q1, h4, f4, k, l4);
    var qa := ToArray(q1);
    var ra := ToArray(r1);
    BarrettReduce256Modm(r, qa, ra, p);
  }

  // ---------- import and export ----------

  // `((x >> a) | (y << (64 - a))) & 0xffffffffffffff` for the four shifts in use.

  lemma Shifted56(x: int, y: int)
    requires U64(x) && U64(y)
    ensures Shl64(y, 0x100) == 0x100 * (y % 0x100_0000_0000_0000)
    ensures (x / 0x100_0000_0000_0000 + 0x100 * (y % 0x100_0000_0000_0000)) % B
      == x / 0x100_0000_0000_0000 + 0x100 * (y % 0x1_0000_0000_0000)
  {
    var a, b := y / 0x100_0000_0000_0000, y % 0x100_0000_0000_0000;
    var c, d := b / 0x1_0000_0000_0000, b % 0x1_0000_0000_0000;
    RemainderUnique(y * 0x100, TWO64, a, 0x100 * b);
    RemainderUnique(y, 0x1_0000_0000_0000, 0x100 * a + c, d);
    RemainderUnique(x / 0x100_0000_0000_0000 + 0x100 * b, B, c, x / 0x100_0000_0000_0000 + 0x100 * d);
  }

  function Join56(x: int, y: int): (r: int)
    requires U64(x) && U64(y)
    ensures r == x / 0x100_0000_0000_0000 + 0x100 * (y % 0x1_0000_0000_0000)
  {
    Shifted56(x, y);
    Or(x / 0x100_0000_0000_0000, Shl64(y, 0x100), 0x100, y % 0x100_0000_0000_0000) % B
  }

  lemma Shifted48(x: int, y: int)
    requires U64(x) && U64(y)
    ensures Shl64(y, 0x1_0000) == 0x1_0000 * (y % 0x1_0000_0000_0000)
    ensures (x / 0x1_0000_0000_0000 + 0x1_0000 * (y % 0x1_0000_0000_0000)) % B
      == x / 0x1_0000_0000_0000 + 0x1_0000 * (y % 0x100_0000_0000)
  {
    var a, b := y / 0x1_0000_0000_0000, y % 0x1_0000_0000_0000;
    var c, d := b / 0x100_0000_0000, b % 0x100_0000_0000;
    RemainderUnique(y * 0x1_0000, TWO64, a, 0x1_0000 * b);
    RemainderUnique(y, 0x100_0000_0000, 0x100 * a + c, d);
    RemainderUnique(x / 0x1_0000_0000_0000 + 0x1_0000 * b, B, c, x / 0x1_0000_0000_0000 + 0x1_0000 * d);
  }

  function Join48(x: int, y: int): (r: int)
    requires U64(x) && U64(y)
    ensures r == x / 0x1_0000_0000_0000 + 0x1_0000 * (y % 0x100_0000_0000)
  {
    Shifted48(x, y);
    Or(x / 0x1_0000_0000_0000, Shl64(y, 0x1_0000), 0x1_0000, y % 0x1_0000_0000_0000) % B
  }

  lemma Shifted40(x: int, y: int)
    requires U64(x) && U64(y)
    ensures Shl64(y, 0x100_0000) == 0x100_0000 * (y % 0x100_0000_0000)
    ensures (x / 0x100_0000_0000 + 0x100_0000 * (y % 0x100_0000_0000)) % B
      == x / 0x100_0000_0000 + 0x100_0000 * (y % 0x1_0000_0000)
  {
    var a, b := y / 0x100_0000_0000, y % 0x100_0000_0000;
    var c, d := b / 0x1_0000_0000, b % 0x1_0000_0000;
    RemainderUnique(y * 0x100_0000, TWO64, a, 0x100_0000 * b);
    RemainderUnique(y, 0x1_0000_0000, 0x100 * a + c, d);
    RemainderUnique(x / 0x100_0000_0000 + 0x100_0000 * b, B, c, x / 0x100_0000_0000 + 0x100_0000 * d);
  }

  function Join40(x: int, y: int): (r: int)
    requires U64(x) && U64(y)
    ensures r == x / 0x100_0000_0000 + 0x100_0000 * (y % 0x1_0000_0000)
  {
    Shifted40(x, y);
    Or(x / 0x100_0000_0000, Shl64(y, 0x100_0000), 0x100_0000, y % 0x100_0000_0000) % B
  }

  lemma Shifted32(x: int, y: int)
    requires U64(x) && U64(y)
    ensures Shl64(y, 0x1_0000_0000) == 0x1_0000_0000 * (y % 0x1_0000_0000)
    ensures (x / 0x1_0000_0000 + 0x1_0000_0000 * (y % 0x1_0000_0000)) % B
      == x / 0x1_0000_0000 + 0x1_0000_0000 * (y % 0x100_0000)
  {
    var a, b := y / 0x1_0000_0000, y % 0x1_0000_0000;
    var c, d := b / 0x100_0000, b % 0x100_0000;
    RemainderUnique(y * 0x1_0000_0000, TWO64, a, 0x1_0000_0000 * b);
    RemainderUnique(y, 0x100_0000, 0x100 * a + c, d);
    RemainderUnique(x / 0x1_0000_0000 + 0x1_0000_0000 * b, B, c, x / 0x1_0000_0000 + 0x1_0000_0000 * d);
  }

  function Join32(x: int, y: int): (r: int)
    requires U64(x) && U64(y)
    ensures r == x / 0x1_0000_0000 + 0x1_0000_0000 * (y % 0x100_0000)
  {
    Shifted32(x, y);
    Or(x / 0x1_0000_0000, Shl64(y, 0x1_0000_0000), 0x1_0000_0000, y % 0x1_0000_0000) % B
  }

  function Low5(x0: int, x1: int, x2: int, x3: int, x4: int): int {
    x0 + TWO64 * x1 + TWO128 * x2 + TWO64 * TWO128 * x3 + TWO128 * TWO128 * x4
  }

  lemma WordsVal4(x: seq<int>)
    requires |x| == 4
    ensures WordsVal(x) == Low5(x[0], x[1], x[2], x[3], 0)
  {
    assert x[1..][1..] == x[2..] && x[2..][1..] == x[3..] && x[3..][1..] == [];
    assert WordsVal(x) == x[0] + TWO64 * WordsVal(x[1..]);
    assert WordsVal(x[1..]) == x[1] + TWO64 * WordsVal(x[2..]);
    assert WordsVal(x[2..]) == x[2] + TWO64 * WordsVal(x[3..]);
    assert WordsVal(x[3..]) == x[3] + TWO64 * WordsVal([]);
  }

  lemma WordsVal8(x: seq<int>)
    requires |x| == 8
    ensures WordsVal(x) == Low5(x[0], x[1], x[2], x[3], Low5(x[4], x[5], x[6], x[7], 0))
  {
    assert x[1..][1..] == x[2..] && x[2..][1..] == x[3..] && x[3..][1..] == x[4..];
    assert WordsVal(x) == x[0] + TWO64 * WordsVal(x[1..]);
    assert WordsVal(x[1..]) == x[1] + TWO64 * WordsVal(x[2..]);
    assert WordsVal(x[2..]) == x[2] + TWO64 * WordsVal(x[3..]);
    assert WordsVal(x[3..]) == x[3] + TWO64 * WordsVal(x[4..]);
    WordsVal4(x[4..]);
  }

  lemma Join32Top(x: int, y: int)
    requires U64(x) && U64(y)
    ensures Join32(x, y) % TWO40 == x / TWO32 + TWO32 * (y % 0x100)
  {
    var a, b := y / TWO24, y % TWO24;
    var c, d := b / 0x100, b % 0x100;
    RemainderUnique(y, 0x100, 0x1_0000 * a + c, d);
    RemainderUnique(Join32(x, y), TWO40, c, x / TWO32 + TWO32 * d);
  }

  lemma LowSum(r1: seq<int>, h0: int, h1: int, h2: int, h3: int, l0: int, l1: int, l2: int, l3: int, l4: int)
    requires |r1| == 5
    requires r1[0] == l0 && r1[1] == h0 + 0x100 * l1 && r1[2] == h1 + 0x1_0000 * l2 && r1[3] == h2 + 0x100_0000 * l3
      && r1[4] == h3 + TWO32 * l4
    ensures Val(r1) == Low5(l0 + B * h0, l1 + 0x1_0000_0000_0000 * h1, l2 + 0x100_0000_0000 * h2, l3 + TWO32 * h3, l4)
  {
  }

  /** The 264 low bits of five words, as limbs. */
  lemma ExpandLow(x0: int, x1: int, x2: int, x3: int, x4: int, r1: seq<int>)
    requires U64(x0) && U64(x1) && U64(x2) && U64(x3) && U64(x4)
    requires r1 == [x0 % B, Join56(x0, x1), Join48(x1, x2), Join40(x2, x3), Join32(x3, x4) % TWO40]
    ensures Limbs(r1, TWO40)
    ensures Val(r1) == Low5(x0, x1, x2, x3, x4 % 0x100)
  {
    Join32Top(x3, x4);
    LowSum(r1, x0 / B, x1 / 0x1_0000_0000_0000, x2 / 0x100_0000_0000, x3 / TWO32,
           x0 % B, x1 % 0x1_0000_0000_0000, x2 % 0x100_0000_0000, x3 % TWO32, x4 % 0x100);
  }

  lemma HighSum(q1: seq<int>, h3: int, h4: int, h5: int, h6: int, h7: int, l4: int, l5: int, l6: int, l7: int)
    requires |q1| == 5
    requires q1[0] == h3 + 0x100 * l4 && q1[1] == h4 + 0x1_0000 * l5 && q1[2] == h5 + 0x100_0000 * l6
      && q1[3] == h6 + TWO32 * l7 && q1[4] == h7
    ensures Val(q1) == h3 + 0x100 * Low5(l4 + 0x1_0000_0000_0000 * h4, l5 + 0x100_0000_0000 * h5, l6 + TWO32 * h6,
      l7 + TWO24 * h7, 0)
  {
  }

  /** The bits from 248 up of eight words, as limbs. */
  lemma ExpandHigh(x3: int, x4: int, x5: int, x6: int, x7: int, q1: seq<int>)
    requires U64(x3) && U64(x4) && U64(x5) && U64(x6) && U64(x7)
    requires q1 == [Join56(x3, x4), Join48(x4, x5), Join40(x5, x6), Join32(x6, x7), x7 / TWO24]
    ensures Limbs(q1, TWO40)
    ensures Val(q1) == x3 / B + 0x100 * Low5(x4, x5, x6, x7, 0)
  {
    HighSum(q1, x3 / B, x4 / 0x1_0000_0000_0000, x5 / 0x100_0000_0000, x6 / TWO32, x7 / TWO24,
            x4 % 0x1_0000_0000_0000, x5 % 0x100_0000_0000, x6 % TWO32, x7 % TWO24);
  }

  lemma TwoHalves(w: int, lo: int, hi: int)
    requires w == lo + TWO128 * TWO128 * hi && 0 <= lo < TWO128 * TWO128 && 0 <= hi < TWO128 * TWO128
    ensures 0 <= w < TWO512
  {
  }

  lemma LowBounds(x0: int, x1: int, x2: int, x3: int, l4: int, l3: int)
    requires U64(x0) && U64(x1) && U64(x2) && U64(x3) && 0 <= l4 < 0x100 && 0 <= l3 < B
    ensures 0 <= Low5(x0, x1, x2, x3, l4) < TWO264
    ensures 0 <= Low5(x0, x1, x2, l3, 0) < TWO248
    ensures 0 <= Low5(x0, x1, x2, x3, 0) < TWO128 * TWO128
  {
  }

  lemma WordsBound8(x: seq<int>)
    requires |x| == 8 && forall i :: 0 <= i < 8 ==> U64(x[i])
    ensures 0 <= WordsVal(x) < TWO512
  {
    WordsVal8(x);
    LowBounds(x[0], x[1], x[2], x[3], 0, 0);
    LowBounds(x[4], x[5], x[6], x[7], 0, 0);
    TwoHalves(WordsVal(x), Low5(x[0], x[1], x[2], x[3], 0), Low5(x[4], x[5], x[6], x[7], 0));
  }

  lemma SplitEquations(x0: int, x1: int, x2: int, h3: int, l3: int, h4: int, l4: int, x5: int, x6: int, x7: int)
    ensures var w := Low5(x0, x1, x2, B * h3 + l3, Low5(0x100 * h4 + l4, x5, x6, x7, 0));
            && w == TWO264 * (h4 + B * Low5(x5, x6, x7, 0, 0)) + Low5(x0, x1, x2, B * h3 + l3, l4)
            && w == TWO248 * (h3 + 0x100 * Low5(0x100 * h4 + l4, x5, x6, x7, 0)) + Low5(x0, x1, x2, l3, 0)
  {
  }

  lemma ExpandSplitAt(x: seq<int>, r1: int, q1: int)
    requires |x| == 8 && forall i :: 0 <= i < 8 ==> U64(x[i])
    requires r1 == Low5(x[0], x[1], x[2], x[3], x[4] % 0x100)
    requires q1 == x[3] / B + 0x100 * Low5(x[4], x[5], x[6], x[7], 0)
    ensures r1 == WordsVal(x) % TWO264 && q1 == WordsVal(x) / TWO248
  {
    WordsVal8(x);
    var w := WordsVal(x);
    var h3, l3, h4, l4 := x[3] / B, x[3] % B, x[4] / 0x100, x[4] % 0x100;
    LowBounds(x[0], x[1], x[2], x[3], l4, l3);
    SplitEquations(x[0], x[1], x[2], h3, l3, h4, l4, x[5], x[6], x[7]);
    Split264(w, h4 + B * Low5(x[5], x[6], x[7], 0, 0), r1);
    Split248(w, q1, Low5(x[0], x[1], x[2], l3, 0));
  }

  /** r1 and q1 of a 512-bit number given by its eight words. */
  lemma ExpandSplits(x: seq<int>, r1: seq<int>, q1: seq<int>)
    requires |x| == 8 && forall i :: 0 <= i < 8 ==> U64(x[i])
    requires r1 == [x[0] % B, Join56(x[0], x[1]), Join48(x[1], x[2]), Join40(x[2], x[3]), Join32(x[3], x[4]) % TWO40]
    requires q1 == [Join56(x[3], x[4]), Join48(x[4], x[5]), Join40(x[5], x[6]), Join32(x[6], x[7]), x[7] / TWO24]
    ensures 0 <= WordsVal(x) < TWO512
    ensures Limbs(r1, TWO40) && Val(r1) == WordsVal(x) % TWO264
    ensures Limbs(q1, TWO40) && Val(q1) == WordsVal(x) / TWO248
  {
    WordsVal8(x);
    ExpandLow(x[0], x[1], x[2], x[3], x[4], r1);
    ExpandHigh(x[3], x[4], x[5], x[6], x[7], q1);
    ExpandSplitAt(x, Val(r1), Val(q1));
    WordsBound8(x);
  }

  lemma PaddingKeepsValue(input: seq<byte>, zeros: seq<byte>)
    requires LeNat(zeros) == 0
    ensures LeNat(input + zeros) == LeNat(input)
  {
    LeNatConcat(input, zeros);
    assert Pow256(|input|) * 0 == 0;
  }

  lemma PaddedValue(input: seq<byte>)
    requires |input| <= 64
    ensures WordsVal(AllWords(input + Zeros(64 - |input|), 8)) == LeNat(input)
  {
    var zeros := Zeros(64 - |input|);
    WordsOfBytes(input + zeros, 8);
    LeNatZeros(64 - |input|);
    PaddingKeepsValue(input, zeros);
  }

  lemma {:induction false} Pow256Monotonic(a: nat, b: nat)
    requires a <= b
    ensures Pow256(a) <= Pow256(b)
    decreases b
  {
    if a < b {
      Pow256Monotonic(a, b - 1);
    }
  }

  lemma Pow256Of31()
    ensures Pow256(31) == TWO248
  {
    assert Pow256(4) == 0x1_0000_0000;
    assert Pow256(8) == 0x1_0000_0000_0000_0000;
    assert Pow256(12) == 0x1_0000_0000_0000_0000_0000_0000;
    assert Pow256(16) == TWO128;
    assert Pow256(20) == TWO128 * 0x1_0000_0000;
    assert Pow256(24) == TWO128 * TWO64;
    assert Pow256(28) == TWO128 * TWO64 * 0x1_0000_0000;
  }

  lemma ShortInput(input: seq<byte>)
    requires |input| < 32
    ensures 0 <= LeNat(input) < TWO248
    ensures LeNat(input) % TWO264 == LeNat(input) == LeNat(input) % M
  {
    LeNatBound(input);
    Pow256Monotonic(|input|, 31);
    Pow256Of31();
  }

  /** Up to 64 little-endian bytes, reduced modulo m.  Below 32 bytes nothing needs reducing. */
  method Expand256Modm(out: array<int>, input: seq<byte>)
    requires out.Length == 5 && |input| <= 64
    modifies out
    ensures Reduced(out[..]) && Val(out[..]) == LeNat(input) % M
  {
    var work := input + Zeros(64 - |input|);
    var x := AllWords(work, 8);
    PaddedValue(input);
    ghost var r1 := [x[0] % B, Join56(x[0], x[1]), Join48(x[1], x[2]), Join40(x[2], x[3]), Join32(x[3], x[4]) % TWO40];
    out[0], out[1], out[2], out[3], out[4] :=
      x[0] % B, Join56(x[0], x[1]), Join48(x[1], x[2]), Join40(x[2], x[3]), Join32(x[3], x[4]) % TWO40;
    assert out[..] == r1;
    var q := [Join56(x[3], x[4]), Join48(x[4], x[5]), Join40(x[5], x[6]), Join32(x[6], x[7]), x[7] / TWO24];
    ExpandSplits(x, r1, q);
    if |input| < 32 {
      ShortInput(input);
      return;
    }
    var q1 := ToArray(q);
    BarrettReduce256Modm(out, q1, out, LeNat(input));
  }

  lemma RawSplits(x: seq<int>, r: seq<int>)
    requires |x| == 4 && U64(x[0]) && U64(x[1]) && U64(x[2]) && U64(x[3])
    requires r == [x[0] % B, Join56(x[0], x[1]), Join48(x[1], x[2]), Join40(x[2], x[3]), (x[3] / TWO32) % TWO32]
    ensures Limbs(r, TWO32) && Val(r) == WordsVal(x)
  {
    WordsVal4(x);
    var h3 := x[3] / TWO32;
    RemainderUnique(h3, TWO32, 0, h3);
    Join32Top(x[3], 0);
    assert r[4] == Join32(x[3], 0) % TWO40;
    ExpandLow(x[0], x[1], x[2], x[3], 0, r);
  }

  /** Exactly 32 bytes, unreduced. */
  method ExpandRaw256Modm(out: array<int>, input: seq<byte>)
    requires out.Length == 5 && |input| == 32
    modifies out
    ensures Limbs(out[..], TWO32) && Val(out[..]) == LeNat(input)
  {
    var x := AllWords(input, 4);
    WordsOfBytes(input, 4);
    var r := [x[0] % B, Join56(x[0], x[1]), Join48(x[1], x[2]), Join40(x[2], x[3]), (x[3] / TWO32) % TWO32];
    RawSplits(x, r);
    out[0], out[1], out[2], out[3], out[4] := r[0], r[1], r[2], r[3], r[4];
    assert out[..] == r;
  }

  /** `x | (y << 56)` */
  function Pack56(x: int, y: int): (r: int)
    requires 0 <= x < B && 0 <= y < B
    ensures r == x + 0x100_0000_0000_0000 * (y % 0x100) && U64(r)
  {
    RemainderUnique(y * 0x100_0000_0000_0000, TWO64, y / 0x100, 0x100_0000_0000_0000 * (y % 0x100));
    Or(x, Shl64(y, 0x100_0000_0000_0000), 0x100_0000_0000_0000, y % 0x100)
  }

  /** `(x >> 8) | (y << 48)` */
  function Pack48(x: int, y: int): (r: int)
    requires 0 <= x < B && 0 <= y < B
    ensures r == x / 0x100 + 0x1_0000_0000_0000 * (y % 0x1_0000) && U64(r)
  {
    RemainderUnique(y * 0x1_0000_0000_0000, TWO64, y / 0x1_0000, 0x1_0000_0000_0000 * (y % 0x1_0000));
    Or(x / 0x100, Shl64(y, 0x1_0000_0000_0000), 0x1_0000_0000_0000, y % 0x1_0000)
  }

  /** `(x >> 16) | (y << 40)` */
  function Pack40(x: int, y: int): (r: int)
    requires 0 <= x < B && 0 <= y < B
    ensures r == x / 0x1_0000 + 0x100_0000_0000 * (y % 0x100_0000) && U64(r)
  {
    RemainderUnique(y * 0x100_0000_0000, TWO64, y / 0x100_0000, 0x100_0000_0000 * (y % 0x100_0000));
    Or(x / 0x1_0000, Shl64(y, 0x100_0000_0000), 0x100_0000_0000, y % 0x100_0000)
  }

  /** `(x >> 24) | (y << 32)` */
  function Pack32(x: int, y: int): (r: int)
    requires 0 <= x < B && 0 <= y < B
    ensures r == x / 0x100_0000 + 0x1_0000_0000 * (y % 0x1_0000_0000) && U64(r)
  {
    RemainderUnique(y * 0x1_0000_0000, TWO64, y / 0x1_0000_0000, 0x1_0000_0000 * (y % 0x1_0000_0000));
    Or(x / 0x100_0000, Shl64(y, 0x1_0000_0000), 0x1_0000_0000, y % 0x1_0000_0000)
  }

  lemma BytesOfWords(w0: int, w1: int, w2: int, w3: int)
    requires U64(w0) && U64(w1) && U64(w2) && U64(w3)
    ensures LeNat(LeBytes(w0, 8) + LeBytes(w1, 8) + LeBytes(w2, 8) + LeBytes(w3, 8)) == Low5(w0, w1, w2, w3, 0)
  {
    Pow256Of8();
    LeNatOfBytes(w0, 8);
    LeNatOfBytes(w1, 8);
    LeNatOfBytes(w2, 8);
    LeNatOfBytes(w3, 8);
    var b0, b1, b2, b3 := LeBytes(w0, 8), LeBytes(w1, 8), LeBytes(w2, 8), LeBytes(w3, 8);
    LeNatConcat(b2, b3);
    LeNatConcat(b1, b2 + b3);
    LeNatConcat(b0, b1 + (b2 + b3));
    assert b0 + b1 + b2 + b3 == b0 + (b1 + (b2 + b3));
  }

  lemma PackedSum(a0: int, h1: int, l1: int, h2: int, l2: int, h3: int, l3: int, a4: int)
    ensures Low5(a0 + 0x100_0000_0000_0000 * l1, h1 + 0x1_0000_0000_0000 * l2, h2 + 0x100_0000_0000 * l3,
      h3 + TWO32 * a4, 0)
         == Val([a0, 0x100 * h1 + l1, 0x1_0000 * h2 + l2, TWO24 * h3 + l3, a4])
  {
  }

  lemma PackedValue(a0: int, a1: int, a2: int, a3: int, a4: int)
    requires 0 <= a0 < B && 0 <= a1 < B && 0 <= a2 < B && 0 <= a3 < B && 0 <= a4 < TWO32
    ensures Low5(Pack56(a0, a1), Pack48(a1, a2), Pack40(a2, a3), Pack32(a3, a4), 0) == Val([a0, a1, a2, a3, a4])
  {
    PackedSum(a0, a1 / 0x100, a1 % 0x100, a2 / 0x1_0000, a2 % 0x1_0000, a3 / TWO24, a3 % TWO24, a4);
  }

  /** The 32 little-endian bytes of a scalar below 2^256. */
  method Contract256Modm(a: array<int>) returns (out: seq<byte>)
    requires a.Length == 5 && Limbs(a[..], TWO32)
    ensures |out| == 32 && LeNat(out) == Val(a[..])
  {
    var w := [Pack56(a[0], a[1]), Pack48(a[1], a[2]), Pack40(a[2], a[3]), Pack32(a[3], a[4])];
    out := LeBytes(w[0], 8) + LeBytes(w[1], 8) + LeBytes(w[2], 8) + LeBytes(w[3], 8);
    BytesOfWords(w[0], w[1], w[2], w[3]);
    PackedValue(a[0], a[1], a[2], a[3], a[4]);
  }

  lemma CanonicalBytes(b: seq<byte>)
    ensures b == LeBytes(LeNat(b), |b|)
  {
    LeNatBound(b);
    LeNatOfBytes(LeNat(b), |b|);
    LeNatInjective(b, LeBytes(LeNat(b), |b|));
  }

  /** Exporting what was imported gives the bytes of the value modulo m. */
  method ContractOfExpand(input: seq<byte>) returns (out: seq<byte>)
    requires |input| <= 64
    ensures out == LeBytes(LeNat(input) % M, 32)
  {
    var a := new int[5];
    Expand256Modm(a, input);
    ReducedTop(a[..]);
    out := Contract256Modm(a);
    CanonicalBytes(out);
  }
}
