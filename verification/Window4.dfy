/** contract256_window4_modm: recoding a scalar into 64 signed radix-16 digits. */
module Window4 {
  import opened Words
  import opened Modm
  import opened BatchScalar

  function Pow16(n: nat): (r: nat)
    ensures r >= 1
  {
    if n == 0 then 1 else 16 * Pow16(n - 1)
  }

  /** The value of the first n radix-16 digits. */
  function Radix16(s: seq<int>, n: nat): int
    requires n <= |s|
  {
    if n == 0 then 0 else Radix16(s, n - 1) + Pow16(n - 1) * s[n - 1]
  }

  lemma {:induction false} Radix16Agrees(s: seq<int>, t: seq<int>, n: nat)
    requires n <= |s| && n <= |t| && forall i :: 0 <= i < n ==> s[i] == t[i]
    ensures Radix16(s, n) == Radix16(t, n)
  {
    if n > 0 {
      Radix16Agrees(s, t, n - 1);
    }
  }

  lemma Spread(p: int, x: int, y: int)
    ensures p * (x - y) == p * x - p * y
  {
  }

  lemma {:induction false} Radix16Update(s: seq<int>, n: nat, i: nat, x: int)
    requires i < n <= |s|
    ensures Radix16(s[i := x], n) == Radix16(s, n) + Pow16(i) * (x - s[i])
  {
    if i == n - 1 {
      Radix16Agrees(s, s[i := x], n - 1);
      Spread(Pow16(i), x, s[i]);
    } else {
      Radix16Update(s, n - 1, i, x);
    }
  }

  lemma {:induction false} Pow16Add(a: nat, b: nat)
    ensures Pow16(a + b) == Pow16(a) * Pow16(b)
  {
    if a > 0 {
      Pow16Add(a - 1, b);
      assert 16 * (Pow16(a - 1) * Pow16(b)) == (16 * Pow16(a - 1)) * Pow16(b);
    }
  }

  lemma ConcatStep(p: int, q: int, v: int, d: int)
    ensures p * v + p * q * d == p * (v + q * d)
  {
    assert p * (q * d) == p * q * d;
  }

  lemma {:induction false} Radix16Concat(a: seq<int>, b: seq<int>, n: nat)
    requires n <= |b|
    ensures Radix16(a + b, |a| + n) == Radix16(a, |a|) + Pow16(|a|) * Radix16(b, n)
  {
    if n == 0 {
      Radix16Agrees(a + b, a, |a|);
    } else {
      Radix16Concat(a, b, n - 1);
      Pow16Add(|a|, n - 1);
      ConcatStep(Pow16(|a|), Pow16(n - 1), Radix16(b, n - 1), b[n - 1]);
    }
  }

  /** The n low radix-16 digits of v. */
  function QuadsOf(v: nat, n: nat): (s: seq<int>)
    ensures |s| == n && forall i :: 0 <= i < n ==> 0 <= s[i] <= 15
  {
    if n == 0 then [] else [v % 16] + QuadsOf(v / 16, n - 1)
  }

  lemma {:induction false} QuadsOfValue(v: nat, n: nat)
    requires v < Pow16(n)
    ensures Radix16(QuadsOf(v, n), n) == v
    decreases n
  {
    if n > 0 {
      QuadsOfValue(v / 16, n - 1);
      Radix16Concat([v % 16], QuadsOf(v / 16, n - 1), n - 1);
      assert Pow16(1) == 16;
      assert Radix16([v % 16], 1) == Radix16([v % 16], 0) + Pow16(0) * (v % 16);
    }
  }

  /** The inner loop of the expansion. */
  method PutQuads(r: array<int>, pos: nat, v: nat, n: nat)
    requires pos + n <= r.Length
    modifies r
    ensures r[..pos] == old(r[..pos]) && r[pos..pos + n] == QuadsOf(v, n)
  {
    var x: nat := v;
    for j := 0 to n
      invariant r[..pos] == old(r[..pos])
      invariant r[pos..pos + j] + QuadsOf(x, n - j) == QuadsOf(v, n)
    {
      ghost var done := r[pos..pos + j];
      r[pos + j] := x % 16;
      assert r[pos..pos + j + 1] == done + [x % 16];
      assert done + [x % 16] + QuadsOf(x / 16, n - j - 1) == done + QuadsOf(x, n - j);
      x := x / 16;
    }
  }

  lemma Pow16Of14()
    ensures Pow16(14) == B && Pow16(8) == 0x1_0000_0000
  {
    assert Pow16(4) == 0x1_0000;
    Pow16Add(4, 4);
    assert Pow16(6) == 0x100_0000;
    Pow16Add(8, 6);
  }

  lemma {:induction false} LimbPower16(i: nat)
    ensures Pow16(14 * i) == PowB(i)
  {
    if i > 0 {
      LimbPower16(i - 1);
      Pow16Of14();
      Pow16Add(14, 14 * (i - 1));
    }
  }

  lemma QuadsLimb(done: seq<int>, s: seq<int>, i: nat, n: nat)
    requires i < |s| && |done| == 14 * i && Radix16(done, |done|) == Low(s, i) && 0 <= s[i] < Pow16(n)
    ensures Radix16(done + QuadsOf(s[i], n), |done| + n) == Low(s, i + 1)
  {
    QuadsOfValue(s[i], n);
    Radix16Concat(done, QuadsOf(s[i], n), n);
    LimbPower16(i);
  }

  ghost predicate AreQuads(s: seq<int>) {
    forall i :: 0 <= i < |s| ==> 0 <= s[i] <= 15
  }

  /** The m quads of limb i, behind those of the limbs before it. */
  method PutLimb(r: array<int>, s: seq<int>, i: nat, m: nat)
    requires i < |s| && 14 * i + m <= r.Length && 0 <= s[i] < Pow16(m)
    requires AreQuads(r[..14 * i]) && Radix16(r[..14 * i], 14 * i) == Low(s, i)
    modifies r
    ensures AreQuads(r[..14 * i + m]) && Radix16(r[..14 * i + m], 14 * i + m) == Low(s, i + 1)
  {
    ghost var done := r[..14 * i];
    PutQuads(r, 14 * i, s[i], m);
    assert r[..14 * i + m] == done + QuadsOf(s[i], m);
    QuadsLimb(done, s, i, m);
  }

  /** The unsigned expansion: 14 quads from each of four limbs, 8 from the last. */
  method Quads(r: array<int>, s: seq<int>)
    requires r.Length == 64 && Limbs(s, 0x1_0000_0000)
    modifies r
    ensures AreQuads(r[..]) && Radix16(r[..], 64) == Val(s)
  {
    Pow16Of14();
    for i := 0 to 4
      invariant AreQuads(r[..14 * i]) && Radix16(r[..14 * i], 14 * i) == Low(s, i)
    {
      PutLimb(r, s, i, 14);
    }
    PutLimb(r, s, 4, 8);
    assert r[..64] == r[..];
    LowIsVal(s);
  }

  lemma SignArithmetic(p: int, d: int, carry: int, x: int, q: int, c: int)
    requires d + carry == x + 16 * q + 16 * c
    ensures p * (x - d) + 16 * p * q + 16 * p * c == p * carry
  {
    assert p * (x - d) + p * (16 * q) + p * (16 * c) == p * (x - d + 16 * q + 16 * c);
    assert p * (16 * q) == 16 * p * q && p * (16 * c) == 16 * p * c;
  }

  /** Moving 16 c from digit i to the next, and folding in the carry, keeps the value. */
  lemma SignStep(s: seq<int>, i: nat, carry: int, x: int, q: int, c: int)
    requires i + 1 < |s| && s[i] + carry == x + 16 * q + 16 * c
    ensures Radix16(s[i := x][i + 1 := s[i + 1] + q], |s|) + Pow16(i + 1) * c == Radix16(s, |s|) + Pow16(i) * carry
  {
    Radix16Update(s, |s|, i, x);
    Radix16Update(s[i := x], |s|, i + 1, s[i + 1] + q);
    SignArithmetic(Pow16(i), s[i], carry, x, q, c);
  }

  /** One turn of the signing loop. */
  method SignDigit(r: array<int>, i: nat, carry: int) returns (c: int)
    requires r.Length == 64 && i < 63 && 0 <= carry <= 1 && 0 <= r[i] && r[i] + carry <= 16
    modifies r
    ensures forall k :: 0 <= k < 64 && k != i && k != i + 1 ==> r[k] == old(r[k])
    ensures -8 <= r[i] <= 7 && 0 <= c && old(r[i + 1]) <= r[i + 1] && r[i + 1] + c <= old(r[i + 1]) + 1
    ensures Radix16(r[..], 64) + Pow16(i + 1) * c == old(Radix16(r[..], 64)) + Pow16(i) * carry
  {
    ghost var before := r[..];
    r[i] := r[i] + carry;
    ghost var q := r[i] / 16;
    r[i + 1] := r[i + 1] + r[i] / 16;
    r[i] := r[i] % 16;
    c := r[i] / 8;
    r[i] := r[i] - c * 16;
    SignStep(before, i, carry, r[i], q, c);
    assert r[..] == before[i := r[i]][i + 1 := before[i + 1] + q];
  }

  /** The carry goes to the last digit. */
  method LastDigit(r: array<int>, carry: int)
    requires r.Length == 64
    modifies r
    ensures forall k :: 0 <= k < 63 ==> r[k] == old(r[k])
    ensures r[63] == old(r[63]) + carry && Radix16(r[..], 64) == old(Radix16(r[..], 64)) + Pow16(63) * carry
  {
    ghost var before := r[..];
    Radix16Update(before, 64, 63, r[63] + carry);
    r[63] := r[63] + carry;
    assert r[..] == before[63 := before[63] + carry];
  }

  lemma ValBelow255(s: seq<int>)
    requires Limbs(s, 0x8000_0000)
    ensures Val(s) < B4 * 0x8000_0000
  {
  }

  lemma {:induction false} Radix16NonNegative(q: seq<int>, n: nat)
    requires n <= |q| && forall i :: 0 <= i < n ==> q[i] >= 0
    ensures Radix16(q, n) >= 0
  {
    if n > 0 {
      Radix16NonNegative(q, n - 1);
      MulMono(Pow16(n - 1), 0, q[n - 1]);
    }
  }

  /** Below 2^255 the top quad is at most 7. */
  lemma TopQuad(q: seq<int>, s: seq<int>)
    requires |q| == 64 && AreQuads(q)
    requires Limbs(s, 0x8000_0000) && Radix16(q, 64) == Val(s)
    ensures q[63] <= 7
  {
    Radix16NonNegative(q, 63);
    LimbPower16(4);
    assert PowB(1) == B && PowB(2) == B2 && PowB(3) == B3 && PowB(4) == B4;
    assert Pow16(7) == 0x1000_0000;
    Pow16Add(56, 7);
    ValBelow255(s);
    if q[63] >= 8 {
      MulMono(Pow16(63), 8, q[63]);
    }
  }

  /**
   The signed recoding: for every scalar below 2^255 the digits lie in [-8, 8] (the last in [0, 8])
   and carry its value.
   */
  method Contract256Window4(r: array<int>, s: seq<int>)
    requires r.Length == 64 && Limbs(s, 0x8000_0000)
    modifies r
    ensures (forall i :: 0 <= i < 63 ==> -8 <= r[i] <= 7) && 0 <= r[63] <= 8
    ensures Radix16(r[..], 64) == Val(s)
  {
    Quads(r, s);
    TopQuad(r[..], s);
    var carry := 0;
    for i := 0 to 63
      invariant forall k :: 0 <= k < i ==> -8 <= r[k] <= 7
      invariant forall k :: i < k < 64 ==> 0 <= r[k] <= (if k == 63 then 7 else 15)
      invariant 0 <= carry <= 1 && 0 <= r[i] && r[i] + carry <= (if i == 63 then 8 else 16)
      invariant Radix16(r[..], 64) + Pow16(i) * carry == Val(s)
    {
      carry := SignDigit(r, i, carry);
    }
    LastDigit(r, carry);
  }
}
