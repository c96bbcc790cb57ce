/** ge25519_pack and ge25519_unpack_negative_vartime on limbs. */
module PackUnpack {
  import opened Words
  import opened Bytes
  import opened Modm
  import opened Scalar
  import opened KeyBytes
  import opened Field
  import opened FieldPower
  import opened FieldBytes
  import opened Edwards
  import opened PointFormulas

  const ONE: seq<int> := [1, 0, 0, 0, 0]
  const SQRTNEG1: seq<int> := [0x0006_1b27_4a0e_a0b0, 0x0000_d5a5_fc8f_189d, 0x0007_ef5e_9cbd_0c60,
    0x0007_8595_a680_4c9e, 0x0002_b832_4804_fc1d]

  lemma Constants()
    ensures Carried(ONE) && Is(ONE, 1) && Carried(ECD) && Is(ECD, D) && Carried(SQRTNEG1)
  {
    Ecd();
  }

  /** The constant is a square root of -1. */
  lemma SqrtNeg1()
    ensures Cong(Num(SQRTNEG1) * Num(SQRTNEG1), -1)
  {
    NumIs(SQRTNEG1);
    var i := FVal(SQRTNEG1);
    CongBy(i * i, -1, (i * i + 1) / P);
  }

  // ---------- bytes of a field element ----------

  lemma PBelow()
    ensures P < Pow256(32) && Pow256(32) == 256 * TWO248
  {
    Pow256Of31();
    assert Pow256(32) == 256 * Pow256(31);
  }

  lemma LeNatInjectiveZeros(b: seq<byte>)
    ensures LeNat(b) == 0 <==> b == Zeros(|b|)
  {
    LeNatZeros(|b|);
    if LeNat(b) == 0 {
      LeNatInjective(b, Zeros(|b|));
    }
  }

  /** The bytes are all zero exactly for the value zero. */
  lemma ZeroBytes(v: nat)
    requires v < P
    ensures LeBytes(v, 32) == Zeros(32) <==> v == 0
  {
    PBelow();
    LeNatOfBytes(v, 32);
    LeNatZeros(32);
    LeNatInjectiveZeros(LeBytes(v, 32));
  }

  lemma ZeroCong(n: int, v: int)
    requires Cong(v, n)
    ensures v % P == 0 <==> Cong(n, 0)
  {
    CongIsMod(v, n);
    CongIsMod(n, 0);
    RemainderUnique(0, P, 0, 0);
  }

  /** Contract and compare with zero. */
  method IsZero(a: seq<int>, ghost n: int) returns (zero: bool)
    requires Carried(a) && Is(a, n)
    ensures zero <==> Cong(n, 0)
  {
    var check := Contract(a);
    NumIs(a);
    ZeroBytes(Num(a) % P);
    ZeroCong(n, Num(a));
    var same := Verify(check, Zeros(32));
    zero := same == 1;
  }

  lemma FirstByteOf(v: nat, n: nat, b: seq<byte>)
    requires n > 0 && b == LeBytes(v, n)
    ensures b[0] == v % 256 && b[0] % 2 == v % 2
  {
    RemainderUnique(v, 2, 128 * (v / 256) + (v % 256) / 2, (v % 256) % 2);
  }

  lemma FirstByte(v: nat, b: seq<byte>)
    requires b == LeBytes(v, 32)
    ensures b[0] % 2 == v % 2
  {
    FirstByteOf(v, 32, b);
  }

  /** The lowest bit of the value modulo p. */
  method LowBit(a: seq<int>) returns (bit: int)
    requires Carried(a)
    ensures bit == (Num(a) % P) % 2
  {
    var check := Contract(a);
    NumIs(a);
    bit := check[0] % 2;
    FirstByte(Num(a) % P, check);
  }

  // ---------- powers on values ----------

  method Invert(a: seq<int>) returns (r: seq<int>)
    requires Loose(a)
    ensures Carried(r) && Is(r, Power(Num(a), P - 2))
  {
    var input, out := new int[5], new int[5];
    Store(input, a);
    Recip(out, input);
    r := out[..];
    NumIs(a);
    NumIs(r);
  }

  const E252: nat := 4 * T250 - 3

  method PowE252(a: seq<int>, ghost m: int) returns (r: seq<int>)
    requires Loose(a) && Is(a, m)
    ensures Carried(r) && Is(r, Power(m, E252))
  {
    var input, out := new int[5], new int[5];
    Store(input, a);
    PowTwo252m3(out, input);
    r := out[..];
    NumIs(a);
    NumIs(r);
    CongPower(Num(a), m, E252);
  }

  // ---------- unpacking ----------

  function V3(v: int): int {
    (v * v) * v
  }

  /** u v^3 (u v^7)^((p - 5) / 8), the candidate for a square root of u / v */
  function Candidate(u: int, v: int): int {
    (Power(((V3(v) * V3(v)) * v) * u, E252) * V3(v)) * u
  }

  /** num = y^2 - 1 and den = d y^2 + 1 */
  method NumDen(y: seq<int>, ghost m: int) returns (num: seq<int>, den: seq<int>)
    requires Carried(y) && Is(y, m)
    ensures Carried(num) && Is(num, m * m - 1) && Basic(den) && Is(den, ByD(m * m) + 1)
  {
    Constants();
    num := Square(y, m);
    den := Times(num, ECD, m * m, D);
    ByDIs(m * m);
    num := MinusReduce(num, ONE, m * m, 1);
    den := Plus(den, ONE, ByD(m * m), 1);
  }

  method RootCandidate(num: seq<int>, den: seq<int>, ghost u: int, ghost v: int) returns (x: seq<int>)
    requires Carried(num) && Is(num, u) && Basic(den) && Is(den, v)
    ensures Carried(x) && Is(x, Candidate(u, v))
  {
    var t := Square(den, v);
    var d3 := Times(t, den, v * v, v);
    x := Square(d3, V3(v));
    x := Times(x, den, V3(v) * V3(v), v);
    x := Times(x, num, (V3(v) * V3(v)) * v, u);
    x := PowE252(x, ((V3(v) * V3(v)) * v) * u);
    x := Times(x, d3, Power(((V3(v) * V3(v)) * v) * u, E252), V3(v));
    x := Times(x, num, Power(((V3(v) * V3(v)) * v) * u, E252) * V3(v), u);
  }

  /** x^2 v = u */
  ghost predicate Root(x: int, u: int, v: int) {
    Cong((x * x) * v, u)
  }

  /** u (u v^7)^((p - 1) / 4), which is v times the square of the candidate */
  function Trial(u: int, v: int): int {
    u * Power(u * Power(v, 7), (P - 1) / 4)
  }

  /** The condition under which unpacking finds a root of u / v. */
  ghost predicate HasRoot(u: int, v: int) {
    Cong(Trial(u, v), u) || Cong(Trial(u, v), -u)
  }

  lemma PowerSeven(v: int)
    ensures Power(v, 7) == (V3(v) * V3(v)) * v
  {
    PowerOne(v);
    PowerAdd(v, 1, 1);
    PowerAdd(v, 2, 1);
    PowerAdd(v, 3, 3);
    PowerAdd(v, 6, 1);
  }

  lemma SquareOfProduct(a: int, b: int)
    ensures (a * b) * (a * b) == (a * a) * (b * b)
  {
  }

  lemma CandidateTerms(e: int, t: int, u: int, v: int)
    ensures v * (((e * t) * u) * ((e * t) * u)) == u * ((e * e) * (((t * t) * v) * u))
  {
    SquareOfProduct(e * t, u);
    SquareOfProduct(e, t);
    assert v * (((e * e) * (t * t)) * (u * u)) == u * ((e * e) * (((t * t) * v) * u));
  }

  /** v c^2 = u (u v^7)^((p - 1) / 4) for the candidate c, over the integers. */
  lemma CandidateSquare(u: int, v: int)
    ensures var c := Candidate(u, v); v * (c * c) == u * Power(u * Power(v, 7), (P - 1) / 4)
  {
    var w := ((V3(v) * V3(v)) * v) * u;
    PowerSeven(v);
    PowerDouble(w, E252);
    PowerOne(w);
    PowerAdd(w, 2 * E252, 1);
    assert 2 * E252 + 1 == (P - 1) / 4;
    CandidateTerms(Power(w, E252), V3(v), u, v);
  }

  /** The two tests of the code decide the condition. */
  lemma CandidateDecides(u: int, v: int)
    ensures Root(Candidate(u, v), u, v) <==> Cong(Trial(u, v), u)
    ensures Root(Candidate(u, v), -u, v) <==> Cong(Trial(u, v), -u)
  {
    var c := Candidate(u, v);
    CandidateSquare(u, v);
    assert (c * c) * v == v * (c * c);
  }

  lemma DifferenceZero(s: int, u: int)
    ensures Cong(s, u) <==> Cong(s - u, 0)
  {
    if Cong(s, u) {
      CongAdd(s, u, u, u);
    }
    if Cong(s - u, 0) {
      CongAdd(s - u, 0, u, u);
    }
  }

  lemma RootTest(x: int, u: int, v: int)
    ensures Root(x, u, v) <==> Cong((x * x) * v - u, 0)
    ensures Root(x, -u, v) <==> Cong((x * x) * v + u, 0)
  {
    var s := (x * x) * v;
    DifferenceZero(s, u);
    DifferenceZero(s, -u);
  }

  /** (i x)^2 v = u when x^2 v = -u and i^2 = -1 */
  lemma OtherRoot(x: int, i: int, u: int, v: int)
    requires Root(x, -u, v) && Cong(i * i, -1)
    ensures Root(x * i, u, v)
  {
    Shuffle(x, i, x, i);
    CongMul((x * x) * v, -u, i * i, -1);
    assert ((x * i) * (x * i)) * v == ((x * x) * v) * (i * i) by {
      assert ((x * x) * (i * i)) * v == ((x * x) * v) * (i * i);
    }
    assert (-u) * (-1) == u;
  }

  lemma RootCong(x: int, c: int, u: int, v: int)
    requires Cong(x, c) && Root(c, u, v)
    ensures Root(x, u, v)
  {
    CongMul(x, c, x, c);
    CongMul(x * x, c * c, v, v);
  }

  /** Steps 1 to 3: a square root of num / den, found exactly when u (u v^7)^((p - 1) / 4) is u or -u. */
  method SquareRoot(num: seq<int>, den: seq<int>, ghost u: int, ghost v: int) returns (ok: bool, x: seq<int>)
    requires Carried(num) && Is(num, u) && Basic(den) && Is(den, v)
    ensures ok <==> var t := u * Power(u * Power(v, 7), (P - 1) / 4); Cong(t, u) || Cong(t, -u)
    ensures ok ==> Carried(x) && Root(Num(x), u, v)
  {
    x := RootCandidate(num, den, u, v);
    ghost var c := Candidate(u, v);
    CandidateDecides(u, v);
    var t := Square(x, c);
    t := Times(t, den, c * c, v);
    RootTest(c, u, v);
    var root := MinusReduce(t, num, (c * c) * v, u);
    var zero := IsZero(root, (c * c) * v - u);
    ok := true;
    if zero {
      RootCong(Num(x), c, u, v);
    } else {
      t := PlusReduce(t, num, (c * c) * v, u);
      zero := IsZero(t, (c * c) * v + u);
      if !zero {
        return false, x;
      }
      SqrtNeg1();
      Constants();
      OtherRoot(c, Num(SQRTNEG1), u, v);
      x := Times(x, SQRTNEG1, c, Num(SQRTNEG1));
      RootCong(Num(x), c * Num(SQRTNEG1), u, v);
    }
  }

  /** The value of the y coordinate that the bytes encode. */
  function EncodedY(p: seq<byte>): int {
    LeNat(p) % TWO255
  }

  function SignBit(p: seq<byte>): int
    requires |p| == 32
  {
    p[31] / 128
  }

  /** A root of the curve equation for y is a point of the curve. */
  lemma RootOnCurve(x: int, y: int)
    requires Root(x, y * y - 1, ByD(y * y) + 1)
    ensures OnCurve(x, y)
  {
    var s := (x * x) * (ByD(y * y) + 1);
    assert s == ByD((x * x) * (y * y)) + x * x by {
      assert (x * x) * (ByD(y * y) + 1) == (x * x) * (ByD(y * y)) + x * x;
      ByDPull(y * y, x * x);
      assert (y * y) * (x * x) == (x * x) * (y * y);
    }
    CongAdd(1 - x * x, 1 - x * x, s, y * y - 1);
  }

  lemma OddDifference(v: int)
    ensures (P - v) % 2 != v % 2
  {
  }

  lemma NegParity(x: int, r: int)
    requires Cong(r, -x)
    ensures r % P == if x % P == 0 then 0 else P - x % P
    ensures r % P == 0 || (r % P) % 2 != (x % P) % 2
  {
    CongIsMod(r, -x);
    var q, v := x / P, x % P;
    if v == 0 {
      RemainderUnique(-x, P, -q, 0);
    } else {
      RemainderUnique(-x, P, -q - 1, P - v);
      OddDifference(v);
    }
  }

  lemma NegRoot(x: int, r: int, u: int, v: int)
    requires Cong(r, -x) && Root(x, u, v)
    ensures Root(r, u, v)
  {
    assert (-x) * (-x) == x * x;
    RootCong(r, -x, u, v);
  }

  /** Negate x if its parity is the encoded one; a nonzero x then has the other parity. */
  method Negated(x: seq<int>, parity: int, ghost u: int, ghost v: int) returns (r: seq<int>)
    requires Carried(x) && Root(Num(x), u, v) && (parity == 0 || parity == 1)
    ensures Carried(r) && Root(Num(r), u, v)
    ensures Num(r) % P == 0 || (Num(r) % P) % 2 != parity
  {
    var bit := LowBit(x);
    r := x;
    if bit == parity {
      r := Negate(x);
      NegParity(Num(x), Num(r));
      NegRoot(Num(x), Num(r), u, v);
    }
  }

  /** r is a point of the curve with the y that p encodes, z = 1, and not the x that p encodes but its negative. */
  ghost predicate Unpacked(r: Point, p: seq<byte>)
    requires |p| == 32
  {
    && Carried(r.x) && Carried(r.y) && Num(r.y) == EncodedY(p) && r.z == ONE
    && Full(r, Num(r.x), EncodedY(p)) && OnCurve(Num(r.x), EncodedY(p))
    && (Num(r.x) % P == 0 || (Num(r.x) % P) % 2 != SignBit(p))
  }

  ghost predicate Unpackable(p: seq<byte>) {
    var y := EncodedY(p);
    HasRoot(y * y - 1, ByD(y * y) + 1)
  }

  /** z = 1 and t = x y */
  method WithT(x: seq<int>, y: seq<int>, ghost m: int) returns (r: Point)
    requires Carried(x) && Carried(y) && Num(y) == m
    ensures r.x == x && r.y == y && r.z == ONE && Full(r, Num(x), m)
  {
    var t := Times(x, y, Num(x), m);
    r := Point(x, y, ONE, t);
    ProductIs(Num(x), Num(x), 1);
    ProductIs(m, m, 1);
    ProductIs(Num(t), Num(x) * m, 1);
    UnitOne();
    NumIs(ONE);
  }

  /**
   ge25519_unpack_negative_vartime: for the encoded y, u = y^2 - 1 and v = d y^2 + 1, succeeds
   exactly when u (u v^7)^((p - 1) / 4) is u or -u modulo p.  The point is then on the curve, has
   the encoded y and z = 1, t = x y, and a nonzero x has the parity opposite to the sign bit.
   */
  method UnpackNegativeVartime(p: seq<byte>) returns (ok: bool, r: Point)
    requires |p| == 32
    ensures ok <==> Unpackable(p)
    ensures ok <==>
      var y := LeNat(p) % TWO255; var u, v := y * y - 1, D * (y * y) + 1;
      var t := u * Power(u * Power(v, 7), (P - 1) / 4); Cong(t, u) || Cong(t, -u)
    ensures ok ==> Unpacked(r, p)
  {
    ByDIs(EncodedY(p) * EncodedY(p));
    ghost var m := EncodedY(p);
    var y := ExpandField(p);
    NumIs(y);
    var num, den := NumDen(y, m);
    var x;
    ok, x := SquareRoot(num, den, m * m - 1, ByD(m * m) + 1);
    r := Point(x, y, ONE, x);
    if ok {
      x := Negated(x, p[31] / 128, m * m - 1, ByD(m * m) + 1);
      r := WithT(x, y, m);
      RootOnCurve(Num(x), m);
    }
  }

  // ---------- the base point ----------

  const BASEPOINT: Point := Point(
    [0x0006_2d60_8f25_d51a, 0x0004_12a4_b4f6_592a, 0x0007_5b71_71a4_b31d, 0x0001_ff60_5271_18fe, 0x0002_1693_6d3c_d6e5],
    [0x0006_6666_6666_6658, 0x0004_cccc_cccc_cccc, 0x0001_9999_9999_9999, 0x0003_3333_3333_3333, 0x0006_6666_6666_6666],
    ONE,
    [0x0006_8ab3_a5b7_dda3, 0x0000_0eea_2a5e_adbb, 0x0002_af8d_f483_c27e, 0x0003_32b3_7527_4732, 0x0006_7875_f0fd_78b7])

  const BASE_X: int := 15112221349535400772501151409588531511454012693041857206046113283949847762202
  const BASE_Y: int := 46316835694926478169428394003475163141307993866256225615783033603165251855960

  lemma BaseOnCurve(x: int, y: int)
    requires x == BASE_X && y == BASE_Y
    ensures OnCurve(x, y)
  {
    ByDIs((x * x) * (y * y));
    var l, r := y * y - x * x, 1 + D * ((x * x) * (y * y));
    CongBy(l, r, (l - r) / P);
  }

  lemma BaseT(x: int, y: int, t: int)
    requires x == BASE_X && y == BASE_Y && t == FVal(BASEPOINT.t)
    ensures Cong(t, x * y)
  {
    CongBy(t, x * y, (t - x * y) / P);
  }

  /** The base point is on the curve, its y is 4/5, its x is even and its t is x y. */
  lemma BasePoint()
    ensures Full(BASEPOINT, BASE_X, BASE_Y) && OnCurve(BASE_X, BASE_Y)
    ensures Cong(5 * BASE_Y, 4) && 0 <= BASE_X < P && BASE_X % 2 == 0
  {
    NumIs(BASEPOINT.x);
    NumIs(BASEPOINT.y);
    NumIs(ONE);
    UnitOne();
    NumIs(BASEPOINT.t);
    BaseT(BASE_X, BASE_Y, FVal(BASEPOINT.t));
    BaseOnCurve(BASE_X, BASE_Y);
    CongBy(5 * BASE_Y, 4, 4);
  }

  // ---------- packing ----------

  /** The encoding of (x, y): the reduced y, with the parity of the reduced x as the top bit. */
  function Encoding(x: int, y: int): int {
    y % P + TWO255 * ((x % P) % 2)
  }

  lemma TopByteSmall(v: int, low: int, top: int)
    requires v == low + TWO248 * top && 0 <= low && v < P
    ensures top < 128
  {
  }

  lemma TopByteMoved(low: int, top: int, bit: int)
    ensures low + TWO248 * (top + 128 * bit) == (low + TWO248 * top) + TWO255 * bit
  {
  }

  lemma XorEven(a: nat, b: nat)
    ensures BitXor(a, 2 * b) == 2 * BitXor(a / 2, b) + a % 2
  {
    XorParts(a, 2 * b);
  }

  lemma XorTimes8(a: nat, b: nat)
    ensures BitXor(a, 8 * b) == 8 * BitXor(a / 8, b) + a % 8
  {
    XorEven(a, 4 * b);
    XorEven(a / 2, 2 * b);
    XorEven(a / 2 / 2, b);
    assert a / 2 / 2 / 2 == a / 8;
  }

  lemma XorTimes64(a: nat, b: nat)
    ensures BitXor(a, 64 * b) == 64 * BitXor(a / 64, b) + a % 64
  {
    XorTimes8(a, 8 * b);
    XorTimes8(a / 8, b);
    assert a / 8 / 8 == a / 64;
  }

  lemma {:induction false} XorWithZero(x: nat)
    ensures BitXor(0, x) == x
  {
    if x != 0 {
      XorWithZero(x / 2);
    }
  }

  lemma XorLow(c: nat, bit: nat)
    requires c < 2
    ensures BitXor(c, 2 * bit) == c + 2 * bit
  {
    XorEven(c, bit);
    assert c / 2 == 0;
    XorWithZero(bit);
  }

  lemma XorHigh(b: nat, bit: nat)
    requires b < 128 && bit <= 1
    ensures BitXor(b, 128 * bit) == b + 128 * bit
  {
    XorTimes64(b, 2 * bit);
    XorLow(b / 64, bit);
  }

  method XorTop(b: byte, bit: int) returns (r: byte)
    requires b < 128 && (bit == 0 || bit == 1)
    ensures r == b + 128 * bit
  {
    XorHigh(b, bit);
    r := BitXor(b, 128 * bit);
  }

  /** `r[31] ^= bit << 7`: the top bit is free, so the exclusive or adds it. */
  method WithTopBit(b: seq<byte>, bit: int, ghost v: nat) returns (r: seq<byte>)
    requires v < P && b == LeBytes(v, 32) && (bit == 0 || bit == 1)
    ensures |r| == 32 && LeNat(r) == v + TWO255 * bit
  {
    PBelow();
    LeNatOfBytes(v, 32);
    LowMiddleTop(b);
    TopByteSmall(v, b[0] + 256 * LeNat(b[1..31]), b[31]);
    var top := XorTop(b[31], bit);
    r := b[31 := top];
    assert r[1..31] == b[1..31];
    LowMiddleTop(r);
    TopByteMoved(b[0] + 256 * LeNat(b[1..31]), b[31], bit);
  }

  /** ge25519_pack: the encoding of (X i, Y i) for i = Z^(p - 2). */
  method Pack(p: Point) returns (r: seq<byte>)
    requires Carried(p.x) && Carried(p.y) && Carried(p.z)
    ensures var i := Power(Num(p.z), P - 2); |r| == 32 && LeNat(r) == Encoding(Num(p.x) * i, Num(p.y) * i)
  {
    var zi := Invert(p.z);
    ghost var i := Power(Num(p.z), P - 2);
    var tx := Times(p.x, zi, Num(p.x), i);
    var ty := Times(p.y, zi, Num(p.y), i);
    CongIsMod(Num(tx), Num(p.x) * i);
    CongIsMod(Num(ty), Num(p.y) * i);
    NumIs(ty);
    r := Contract(ty);
    var bit := LowBit(tx);
    r := WithTopBit(r, bit, (Num(p.y) * i) % P);
  }

  /** X = x Z and Z i = 1 give X i = x. */
  lemma Divided(X: int, Z: int, i: int, x: int)
    requires Product(X, x, Z) && Product(1, Z, i)
    ensures Cong(X * i, x)
  {
    ProductIs(X, x, Z);
    ProductIs(1, Z, i);
    CongMul(X, x * Z, i, i);
    CongMul(x, x, Z * i, 1);
    assert (x * Z) * i == x * (Z * i);
  }

  /** For a z that the inversion chain inverts, that is the encoding of the affine point. */
  lemma PackedAffine(p: Point, x: int, y: int, i: int)
    requires Partial(p, x, y) && Product(1, Num(p.z), i)
    ensures Encoding(Num(p.x) * i, Num(p.y) * i) == Encoding(x, y)
  {
    Divided(Num(p.x), Num(p.z), i, x);
    Divided(Num(p.y), Num(p.z), i, y);
    CongIsMod(Num(p.x) * i, x);
    CongIsMod(Num(p.y) * i, y);
  }

  lemma {:induction false} PowerOfOne(e: nat)
    ensures Power(1, e) == 1
  {
    if e > 0 {
      PowerOfOne(e - 1);
    }
  }

  lemma TopBitSplit(n: int, low: int, top: int, s: int, b: int)
    requires n == low + TWO248 * top && 0 <= low < TWO248 && top == 128 * s + b && 0 <= b < 128 && 0 <= s <= 1
    ensures n == n % TWO255 + TWO255 * s
  {
    RemainderUnique(n, TWO255, s, low + TWO248 * b);
  }

  /** The bytes are y and the sign bit. */
  lemma EncodedParts(p: seq<byte>)
    requires |p| == 32
    ensures LeNat(p) == EncodedY(p) + TWO255 * SignBit(p) && 0 <= SignBit(p) <= 1
  {
    LowMiddleTop(p);
    var s, b, low := p[31] / 128, p[31] % 128, p[0] + 256 * LeNat(p[1..31]);
    TopBitSplit(LeNat(p), low, p[31], s, b);
  }

  /** A point with x = 0 has y^2 = 1. */
  lemma ZeroX(x: int, y: int)
    requires OnCurve(x, y) && x % P == 0
    ensures Cong(y * y, 1)
  {
    RemainderUnique(0, P, 0, 0);
    CongIsMod(x, 0);
    CongMul(x, 0, x, 0);
    CongMul(x * x, 0, y * y, y * y);
    ByDCong((x * x) * (y * y), 0);
    ByDIs(0);
    CongAdd(1, 1, ByD((x * x) * (y * y)), 0);
    CongAdd(y * y - x * x, 1, x * x, 0);
  }

  /** Pack a point with z = 1: the inversion chain gives 1. */
  method PackAtOne(q: Point, ghost x: int, ghost y: int) returns (r: seq<byte>)
    requires q.z == ONE && Partial(q, x, y)
    ensures |r| == 32 && LeNat(r) == Encoding(x, y)
  {
    PowerOfOne(P - 2);
    NumIs(ONE);
    r := Pack(q);
    ProductIs(1, 1, 1);
    PackedAffine(q, x, y, 1);
  }

  lemma EncodingCases(x: int, y: int, s: int)
    ensures Encoding(x, y) == y % P || Encoding(x, y) == y % P + TWO255
    ensures 0 <= y < P && 0 <= s <= 1 && (x % P) % 2 != s ==> Encoding(x, y) == y + TWO255 * (1 - s)
  {
    var b := (x % P) % 2;
    assert b == 0 || b == 1;
    if 0 <= y < P {
      RemainderUnique(y, P, 0, y);
    }
  }

  /**
   Unpack, then pack: y comes back reduced; and if it was reduced and its square is not 1, so does
   the sign bit, flipped.
   */
  method PackOfUnpacked(p: seq<byte>) returns (ok: bool, r: seq<byte>)
    requires |p| == 32
    ensures ok <==> Unpackable(p)
    ensures ok ==> |r| == 32 && (LeNat(r) == EncodedY(p) % P || LeNat(r) == EncodedY(p) % P + TWO255)
    ensures ok && EncodedY(p) < P && !Cong(EncodedY(p) * EncodedY(p), 1) ==>
      LeNat(r) == EncodedY(p) + TWO255 * (1 - SignBit(p))
  {
    var q;
    ok, q := UnpackNegativeVartime(p);
    r := [];
    if ok {
      ghost var x, y := Num(q.x), EncodedY(p);
      r := PackAtOne(q, x, y);
      EncodedParts(p);
      EncodingCases(x, y, SignBit(p));
      if x % P == 0 {
        ZeroX(x, y);
      }
    }
  }

  // ---------- the neutral test ----------

  /** Equal bytes are equal values modulo p. */
  lemma SameBytes(v: nat, w: nat)
    requires v < P && w < P
    ensures LeBytes(v, 32) == LeBytes(w, 32) <==> v == w
  {
    PBelow();
    LeNatOfBytes(v, 32);
    LeNatOfBytes(w, 32);
  }

  /** X = x Z with a unit Z: X = c Z exactly for x = c. */
  lemma TimesUnit(X: int, Z: int, x: int, c: int)
    requires Product(X, x, Z) && Unit(Z)
    ensures Cong(X, c * Z) <==> Cong(x, c)
  {
    ProductIs(X, c, Z);
    if Cong(X, c * Z) {
      UnitCancel(Z, X, x, c);
    }
    if Cong(x, c) {
      ProductCong(X, X, x, c, Z, Z);
    }
  }

  /** ge25519_is_neutral_vartime: x = 0 and y = z say that the point is (0, 1). */
  method IsNeutral(p: Point, ghost x: int, ghost y: int) returns (neutral: bool)
    requires Partial(p, x, y)
    ensures neutral <==> Cong(x, 0) && Cong(y, 1)
  {
    var zero := IsZero(p.x, Num(p.x));
    var yBytes := Contract(p.y);
    var zBytes := Contract(p.z);
    NumIs(p.y);
    NumIs(p.z);
    SameBytes(Num(p.y) % P, Num(p.z) % P);
    CongIsMod(Num(p.y), Num(p.z));
    neutral := zero && yBytes == zBytes;
    TimesUnit(Num(p.x), Num(p.z), x, 0);
    TimesUnit(Num(p.y), Num(p.z), y, 1);
  }
}
