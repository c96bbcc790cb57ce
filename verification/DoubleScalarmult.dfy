/** ge25519_double_scalarmult_vartime: [s1]P + [s2]B by interleaved sliding windows. */
module DoubleScalarmult {
  import opened Words
  import opened Modm
  import opened AbelianGroup
  import opened Points
  import opened Digits
  import opened SlidingWindow

  const S1_SWINDOWSIZE: nat := 5
  const S2_SWINDOWSIZE: nat := 7
  const S1_TABLE_SIZE: nat := 8
  const S2_TABLE_SIZE: nat := 32

  /** The contract of the precomputed table: entry k is (2 k + 1) B, ready for addition. */
  ghost predicate OddMultiples<G>(g: Ops<G>, table: seq<Niels<G>>, base: G) {
    |table| == S2_TABLE_SIZE
      && forall k :: 0 <= k < |table| ==> table[k].val == Mul(g, 2 * k + 1, base) && table[k].hasT2d
  }

  /** `(unsigned char)d >> 7` */
  function SignBit(d: int): (r: int)
    requires -128 <= d < 128
    ensures r == if d < 0 then 1 else 0
  {
    (d % 256) / 128
  }

  /** `abs(d)` */
  function Abs(d: int): (r: nat) {
    if d < 0 then -d else d
  }

  /** An odd digit picks its multiple from the table, by absolute value and sign. */
  lemma DigitMultiple<G(!new)>(g: Ops<G>, d: int, p: G)
    requires Abelian(g) && d % 2 == 1
    ensures var q := Mul(g, 2 * (Abs(d) / 2) + 1, p);
      Mul(g, d, p) == if d < 0 then Neg(g, q) else q
  {
    assert 2 * (Abs(d) / 2) + 1 == Abs(d);
    MulNeg(g, -d, p);
  }

  /** The odd multiples P, 3P, ..., 15P. */
  method OddTable<G(!new)>(g: Ops<G>, p: Ge<G>) returns (pre: array<Pniels<G>>)
    requires Abelian(g) && p.hasT
    ensures pre.Length == S1_TABLE_SIZE && fresh(pre)
    ensures forall k :: 0 <= k < S1_TABLE_SIZE ==> pre[k].val == Mul(g, 2 * k + 1, p.val)
  {
    var d1 := Double(g, p);
    MulTwo(g, p.val);
    MulOne(g, p.val);
    pre := new Pniels<G>[S1_TABLE_SIZE](_ => ToPniels(p));
    for i := 0 to S1_TABLE_SIZE - 1
      invariant forall k :: 0 <= k <= i ==> pre[k].val == Mul(g, 2 * k + 1, p.val)
    {
      pre[i + 1] := PnielsAdd(g, d1, pre[i]);
      MulAdd(g, 2, 2 * i + 1, p.val);
    }
  }

  /** u P + v B */
  ghost function Combo<G>(g: Ops<G>, u: int, v: int, p: G, b: G): G {
    Add(g, Mul(g, u, p), Mul(g, v, b))
  }

  lemma ComboDouble<G(!new)>(g: Ops<G>, u: int, v: int, p: G, b: G)
    requires Abelian(g)
    ensures var c := Combo(g, u, v, p, b); Add(g, c, c) == Combo(g, 2 * u, 2 * v, p, b)
  {
    var x, y := Mul(g, u, p), Mul(g, v, b);
    Interchange(g, x, y, x, y);
    MulAdd(g, u, u, p);
    MulAdd(g, v, v, b);
  }

  lemma ComboAddP<G(!new)>(g: Ops<G>, u: int, v: int, p: G, b: G, d: int)
    requires Abelian(g)
    ensures Add(g, Combo(g, u, v, p, b), Mul(g, d, p)) == Combo(g, u + d, v, p, b)
  {
    var x, y, z := Mul(g, u, p), Mul(g, v, b), Mul(g, d, p);
    Assoc(g, x, y, z);
    Comm(g, y, z);
    Assoc(g, x, z, y);
    MulAdd(g, u, d, p);
  }

  lemma ComboAddB<G(!new)>(g: Ops<G>, u: int, v: int, p: G, b: G, d: int)
    requires Abelian(g)
    ensures Add(g, Combo(g, u, v, p, b), Mul(g, d, b)) == Combo(g, u, v + d, p, b)
  {
    Assoc(g, Mul(g, u, p), Mul(g, v, b), Mul(g, d, b));
    MulAdd(g, v, d, b);
  }

  /** One digit of both recodings: double, then add the two table entries that the digits pick. */
  method HornerDigit<G(!new)>(g: Ops<G>, r0: Ge<G>, pre1: array<Pniels<G>>, sliding: seq<Niels<G>>, d1: int, d2: int,
                              ghost u: int, ghost v: int, ghost p: G, ghost base: G) returns (r: Ge<G>)
    requires Abelian(g) && r0.val == Combo(g, u, v, p, base)
    requires pre1.Length == S1_TABLE_SIZE && forall k :: 0 <= k < S1_TABLE_SIZE ==> pre1[k].val == Mul(g, 2 * k + 1, p)
    requires OddMultiples(g, sliding, base)
    requires IsDigit(d1, 15) && IsDigit(d2, 63)
    ensures r.val == Combo(g, 2 * u + d1, 2 * v + d2, p, base)
  {
    var t := DoubleP1P1(g, r0);
    ComboDouble(g, u, v, p, base);
    if d1 != 0 {
      r := ToFull(t);
      t := PnielsAddP1P1(g, r, pre1[Abs(d1) / 2], SignBit(d1));
      DigitMultiple(g, d1, p);
      ComboAddP(g, 2 * u, 2 * v, p, base, d1);
    }
    if d2 != 0 {
      r := ToFull(t);
      t := NielsAdd2P1P1(g, r, sliding[Abs(d2) / 2], SignBit(d2));
      DigitMultiple(g, d2, base);
      ComboAddB(g, 2 * u + d1, 2 * v, p, base, d2);
    }
    r := ToPartial(t);
  }

  /** Skip the leading zeros, then Horner over the digits from the top. */
  method HornerLoop<G(!new)>(g: Ops<G>, ghost p: G, pre1: array<Pniels<G>>, slide1: array<int>, slide2: array<int>,
                             sliding: seq<Niels<G>>, ghost base: G) returns (r: Ge<G>)
    requires Abelian(g) && slide1.Length == slide2.Length == 256 && OddMultiples(g, sliding, base)
    requires pre1.Length == S1_TABLE_SIZE && forall k :: 0 <= k < S1_TABLE_SIZE ==> pre1[k].val == Mul(g, 2 * k + 1, p)
    requires forall k :: 0 <= k < 256 ==> IsDigit(slide1[k], 15) && IsDigit(slide2[k], 63)
    ensures r.val == Combo(g, Eval(slide1[0..]), Eval(slide2[0..]), p, base)
  {
    r := Neutral(g);
    Unit(g, g.zero);
    var i := 255;
    while i >= 0 && slide1[i] == 0 && slide2[i] == 0
      invariant -1 <= i <= 255
      invariant Eval(slide1[i + 1..]) == 0 && Eval(slide2[i + 1..]) == 0
    {
      assert slide1[i..][1..] == slide1[i + 1..] && slide2[i..][1..] == slide2[i + 1..];
      i := i - 1;
    }
    while i >= 0
      invariant -1 <= i <= 255
      invariant r.val == Combo(g, Eval(slide1[i + 1..]), Eval(slide2[i + 1..]), p, base)
    {
      assert slide1[i..][1..] == slide1[i + 1..] && slide2[i..][1..] == slide2[i + 1..];
      r := HornerDigit(g, r, pre1, sliding, slide1[i], slide2[i], Eval(slide1[i + 1..]), Eval(slide2[i + 1..]), p,
        base);
      i := i - 1;
    }
    assert i + 1 == 0;
    assert slide1[i + 1..] == slide1[0..] && slide2[i + 1..] == slide2[0..];
  }

  /** r = [s1]P + [s2]B for all scalars below 2^255. */
  method DoubleScalarmultVartime<G(!new)>(g: Ops<G>, p1: Ge<G>, s1: seq<int>, s2: seq<int>, sliding: seq<Niels<G>>,
                                          ghost base: G)
    returns (r: Ge<G>)
    requires Abelian(g) && p1.hasT && OddMultiples(g, sliding, base)
    requires Limbs(s1, 0x1_0000_0000) && Val(s1) < TWO255 && Limbs(s2, 0x1_0000_0000) && Val(s2) < TWO255
    ensures r.val == Add(g, Mul(g, Val(s1), p1.val), Mul(g, Val(s2), base))
  {
    var slide1, slide2 := new int[256], new int[256];
    Contract256SlidingWindow(slide1, s1, S1_SWINDOWSIZE);
    Contract256SlidingWindow(slide2, s2, S2_SWINDOWSIZE);
    assert MaxDigit(5) == 15 && MaxDigit(7) == 63;

    var pre1 := OddTable(g, p1);
    r := HornerLoop(g, p1.val, pre1, slide1, slide2, sliding, base);
    assert slide1[..] == slide1[0..] && slide2[..] == slide2[0..];
  }
}
