/** ge25519_scalarmult_base_niels: [s]B by a radix-16 comb over a table of multiples. */
module BaseScalarmult {
  import opened Words
  import opened Bytes
  import opened Modm
  import opened AbelianGroup
  import opened Points
  import opened Window4

  ghost predicate EntryOk<G>(g: Ops<G>, table: seq<Niels<G>>, base: G, pos: nat, i: nat)
    requires |table| == 256 && pos < 32 && i < 8
  {
    var e := table[pos * 8 + i];
    e.val == Mul(g, (i + 1) * Pow256(pos), base) && if pos == 0 then e.hasT2 else e.hasT2d
  }

  /**
   The contract of the base table: entry 8 pos + i is (i + 1) 256^pos B; t2d is 2 x y at position
   0, 2 d x y elsewhere.
   */
  ghost predicate CombTable<G>(g: Ops<G>, table: seq<Niels<G>>, base: G) {
    |table| == 256 && forall pos, i :: 0 <= pos < 32 && 0 <= i < 8 ==> EntryOk(g, table, base, pos, i)
  }

  lemma Pow2Of31()
    ensures Pow2(31) == 0x8000_0000
  {
    TwoTo32();
  }

  /** `((b ^ c) - 1) >> 31` on 32-bit words: 1 if the words are equal, else 0. */
  function WindowbEqual(b: nat, c: nat): (r: int)
    requires b < 0x8000_0000 && c < 0x8000_0000
    ensures r == if b == c then 1 else 0
  {
    XorIsZero(b, c);
    Pow2Of31();
    XorBound(b, c, 31);
    ((BitXor(b, c) - 1) % TWO32) / 0x8000_0000
  }

  lemma MaskedAbsCases(b: int, sign: int, mask: int)
    requires -128 <= b < 128 && sign == (b % 256) / 128 && mask == TWO32 - 1 - (sign - 1) % TWO32
    ensures 0 <= mask && BitXor((b + mask) % TWO32, mask) == if b < 0 then -b else b
  {
    TwoTo32();
    if b < 0 {
      assert sign == 1 && mask == TWO32 - 1;
      RemainderUnique(b + mask, TWO32, 0, b + mask);
      XorOnes(b + mask, 32);
    } else {
      assert sign == 0 && mask == 0;
      RemainderUnique(b, TWO32, 0, b);
      XorZero(b);
    }
  }

  /** `(b + mask) ^ mask` with `mask = ~(sign - 1)`: the absolute value, on 32-bit words. */
  function MaskedAbs(b: int): (u: nat)
    requires -128 <= b < 128
    ensures u == if b < 0 then -b else b
  {
    var sign := (b % 256) / 128;
    var mask := TWO32 - 1 - (sign - 1) % TWO32;
    MaskedAbsCases(b, sign, mask);
    BitXor((b + mask) % TWO32, mask)
  }

  lemma NegTimes(u: int, w: int)
    ensures (-u) * w == -(u * w)
  {
  }

  method SignAndAbs(b: int) returns (sign: int, u: nat)
    requires -128 <= b < 128
    ensures sign == (if b < 0 then 1 else 0) && u == if b < 0 then -b else b
  {
    sign := (b % 256) / 128;
    u := MaskedAbs(b);
  }

  method IsEqual(u: nat, i: nat) returns (same: bool)
    requires u < 0x8000_0000 && i < 0x8000_0000
    ensures same <==> u == i
  {
    same := WindowbEqual(u, i) == 1;
  }

  /** Look at all eight entries of a position and keep the one numbered u, or the neutral point. */
  method Select<G(!new)>(g: Ops<G>, table: seq<Niels<G>>, pos: nat, u: nat, ghost base: G) returns (t: Niels<G>)
    requires CombTable(g, table, base) && pos < 32 && u <= 8
    ensures t.val == Mul(g, u * Pow256(pos), base)
    ensures if pos == 0 then t.hasT2 else t.hasT2d
  {
    t := Niels(g.zero, true, true);
    ghost var k, w := 0, Pow256(pos);
    for i := 0 to 8
      invariant k == if u <= i then u else 0
      invariant t.val == Mul(g, k * w, base) && if pos == 0 then t.hasT2 else t.hasT2d
    {
      var same := IsEqual(u, i + 1);
      if same {
        t := table[pos * 8 + i];
        assert EntryOk(g, table, base, pos, i);
        k := i + 1;
      }
    }
  }

  /** Constant-time selection of b 256^pos B: every entry is looked at, the matching one is kept. */
  method ChooseNiels<G(!new)>(g: Ops<G>, table: seq<Niels<G>>, pos: nat, b: int, ghost base: G) returns (t: Niels<G>)
    requires Abelian(g) && CombTable(g, table, base) && pos < 32 && -8 <= b <= 8
    ensures t.val == Mul(g, b * Pow256(pos), base)
    ensures if pos == 0 then t.hasT2 else t.hasT2d
  {
    var sign, u := SignAndAbs(b);
    t := Select(g, table, pos, u, base);
    if sign == 1 {
      t := t.(val := Neg(g, t.val));
      MulNeg(g, u * Pow256(pos), base);
      NegTimes(u, Pow256(pos));
    }
  }

  /** The digits at odd (parity 1) or even (parity 0) places below 2 n + parity, in radix 256. */
  ghost function Half(b: seq<int>, parity: nat, n: nat): int
    requires parity <= 1 && 2 * n <= |b|
  {
    if n == 0 then 0 else Half(b, parity, n - 1) + b[2 * (n - 1) + parity] * Pow256(n - 1)
  }

  lemma HalfOne(b: seq<int>, parity: nat)
    requires parity <= 1 && 2 <= |b|
    ensures Half(b, parity, 1) == b[parity] * Pow256(0) == b[parity]
  {
    assert Half(b, parity, 0) == 0 && Pow256(0) == 1;
  }

  lemma {:induction false} Pow16Square(n: nat)
    ensures Pow16(2 * n) == Pow256(n) && Pow16(2 * n + 1) == 16 * Pow256(n)
  {
    if n > 0 {
      Pow16Square(n - 1);
    }
  }

  lemma Weights(p: int, d0: int, d1: int)
    ensures p * d0 == d0 * p && (16 * p) * d1 == 16 * (d1 * p)
  {
  }

  /** Odd and even digits recombine to the number. */
  lemma {:induction false} Recombine(b: seq<int>, n: nat)
    requires 2 * n <= |b|
    ensures Radix16(b, 2 * n) == Half(b, 0, n) + 16 * Half(b, 1, n)
  {
    if n > 0 {
      Recombine(b, n - 1);
      Pow16Square(n - 1);
      var p, d0, d1 := Pow256(n - 1), b[2 * n - 2], b[2 * n - 1];
      assert Radix16(b, 2 * n - 1) == Radix16(b, 2 * n - 2) + p * d0;
      assert Radix16(b, 2 * n) == Radix16(b, 2 * n - 1) + (16 * p) * d1;
      assert Half(b, 0, n) == Half(b, 0, n - 1) + d0 * p;
      assert Half(b, 1, n) == Half(b, 1, n - 1) + d1 * p;
      Weights(p, d0, d1);
    }
  }

  lemma HalfStep(b: seq<int>, parity: nat, n: nat)
    requires parity <= 1 && 2 * n + 1 < |b|
    ensures Half(b, parity, n + 1) == Half(b, parity, n) + b[2 * n + parity] * Pow256(n)
  {
  }

  /** Add one digit's multiple from the table. */
  method AddDigit<G(!new)>(g: Ops<G>, r0: Ge<G>, table: seq<Niels<G>>, pos: nat, digit: int, ghost k: int,
                           ghost base: G)
    returns (r: Ge<G>)
    requires Abelian(g) && CombTable(g, table, base) && 0 < pos < 32 && -8 <= digit <= 8
    requires r0.hasT && r0.val == Mul(g, k, base)
    ensures r.hasT && r.val == Mul(g, k + digit * Pow256(pos), base)
  {
    var t := ChooseNiels(g, table, pos, digit, base);
    r := NielsAdd2(g, r0, t);
    MulAdd(g, k, digit * Pow256(pos), base);
  }

  /** Add the digits 1.. of one parity to r, which already holds digit 0 of that parity. */
  method AddDigits<G(!new)>(g: Ops<G>, r0: Ge<G>, table: seq<Niels<G>>, b: array<int>, first: nat, ghost parity: nat,
                            ghost c: int, ghost base: G)
    returns (r: Ge<G>)
    requires Abelian(g) && CombTable(g, table, base) && b.Length == 64 && parity <= 1 && first == 2 + parity
    requires forall i :: 0 <= i < 64 ==> -8 <= b[i] <= 8
    requires r0.hasT && r0.val == Mul(g, c + Half(b[..], parity, 1), base)
    ensures r.hasT && r.val == Mul(g, c + Half(b[..], parity, 32), base)
  {
    r := r0;
    var i := first;
    ghost var n := 1;
    while i < 64
      invariant 1 <= n <= 32 && i == 2 * n + parity
      invariant r.hasT && r.val == Mul(g, c + Half(b[..], parity, n), base)
    {
      r := AddDigit(g, r, table, i / 2, b[i], c + Half(b[..], parity, n), base);
      HalfStep(b[..], parity, n);
      i := i + 2;
      n := n + 1;
    }
  }

  lemma SixteenTimes<G(!new)>(g: Ops<G>, n: int, p: G)
    requires Abelian(g)
    ensures var q := Mul(g, n, p);
      var q2 := Add(g, q, q);
      var q4 := Add(g, q2, q2);
      var q8 := Add(g, q4, q4);
      Add(g, q8, q8) == Mul(g, 16 * n, p)
  {
    MulAdd(g, n, n, p);
    MulAdd(g, 2 * n, 2 * n, p);
    MulAdd(g, 4 * n, 4 * n, p);
    MulAdd(g, 8 * n, 8 * n, p);
  }

  /** Three partial doublings and a full one. */
  method FourDoublings<G(!new)>(g: Ops<G>, p: Ge<G>, ghost n: int, ghost base: G) returns (r: Ge<G>)
    requires Abelian(g) && p.val == Mul(g, n, base)
    ensures r.hasT && r.val == Mul(g, 16 * n, base)
  {
    r := DoublePartial(g, p);
    r := DoublePartial(g, r);
    r := DoublePartial(g, r);
    r := Double(g, r);
    SixteenTimes(g, n, base);
  }

  /** The digits at odd places; the first one is unpacked rather than added. */
  method OddDigits<G(!new)>(g: Ops<G>, table: seq<Niels<G>>, b: array<int>, ghost base: G) returns (r: Ge<G>)
    requires Abelian(g) && CombTable(g, table, base) && b.Length == 64 && forall i :: 0 <= i < 64 ==> -8 <= b[i] <= 8
    ensures r.hasT && r.val == Mul(g, Half(b[..], 1, 32), base)
  {
    var t := ChooseNiels(g, table, 0, b[1], base);
    r := FromNiels(t);
    HalfOne(b[..], 1);
    r := AddDigits(g, r, table, b, 3, 1, 0, base);
  }

  /** The digits at even places; the first one needs its t2d scaled by d. */
  method EvenDigits<G(!new)>(g: Ops<G>, r0: Ge<G>, table: seq<Niels<G>>, b: array<int>, ghost c: int, ghost base: G)
    returns (r: Ge<G>)
    requires Abelian(g) && CombTable(g, table, base) && b.Length == 64 && forall i :: 0 <= i < 64 ==> -8 <= b[i] <= 8
    requires r0.hasT && r0.val == Mul(g, c, base)
    ensures r.hasT && r.val == Mul(g, c + Half(b[..], 0, 32), base)
  {
    var t := ChooseNiels(g, table, 0, b[0], base);
    t := ScaleT(t);
    r := NielsAdd2(g, r0, t);
    HalfOne(b[..], 0);
    MulAdd(g, c, b[0] * Pow256(0), base);
    r := AddDigits(g, r, table, b, 2, 0, c, base);
  }

  /** r = [s]B for every scalar below 2^255. */
  method ScalarmultBaseNiels<G(!new)>(g: Ops<G>, table: seq<Niels<G>>, s: seq<int>, ghost base: G) returns (r: Ge<G>)
    requires Abelian(g) && CombTable(g, table, base) && Limbs(s, 0x8000_0000)
    ensures r.hasT && r.val == Mul(g, Val(s), base)
  {
    var b := new int[64];
    Contract256Window4(b, s);
    r := OddDigits(g, table, b, base);
    ghost var odd := Half(b[..], 1, 32);
    r := FourDoublings(g, r, odd, base);
    r := EvenDigits(g, r, table, b, 16 * odd, base);
    Recombine(b[..], 32);
  }
}
