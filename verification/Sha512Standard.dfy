/**
 The hash stated a second time, without the functions that the code is proved against: sigma, choice
 and majority bit by bit, the compression function as recurrences (section 6.4.2 of FIPS 180-4), the
 padding and the digest byte by byte.
 */
module Sha512Standard {
  import opened Words
  import opened Bytes
  import opened Sha512Block
  import opened Sha512

  // ---------- bits ----------

  /** Bit i of x, the lowest one being bit 0. */
  function Bit(x: nat, i: nat): (b: nat)
    ensures b <= 1
    decreases i
  {
    if i == 0 then x % 2 else Bit(x / 2, i - 1)
  }

  lemma {:induction false} XorBit(a: nat, b: nat, i: nat)
    ensures Bit(BitXor(a, b), i) == (Bit(a, i) + Bit(b, i)) % 2
    decreases i
  {
    XorParts(a, b);
    if i > 0 {
      XorBit(a / 2, b / 2, i - 1);
    }
  }

  /** Choice takes the bit of y where x has a one, else that of z. */
  lemma {:induction false} ChBit(x: nat, y: nat, z: nat, i: nat)
    ensures Bit(Ch(x, y, z), i) == if Bit(x, i) == 1 then Bit(y, i) else Bit(z, i)
    decreases i
  {
    var c := Ch(x, y, z);
    assert c % 2 == (if x % 2 == 1 then y % 2 else z % 2) && c / 2 == Ch(x / 2, y / 2, z / 2);
    if i > 0 {
      ChBit(x / 2, y / 2, z / 2, i - 1);
    }
  }

  /** Majority takes the bit that two of the three have. */
  lemma {:induction false} MajBit(x: nat, y: nat, z: nat, i: nat)
    ensures Bit(Maj(x, y, z), i) == if Bit(x, i) + Bit(y, i) + Bit(z, i) >= 2 then 1 else 0
    decreases i
  {
    var c := Maj(x, y, z);
    assert c % 2 == (if x % 2 + y % 2 + z % 2 >= 2 then 1 else 0) && c / 2 == Maj(x / 2, y / 2, z / 2);
    if i > 0 {
      MajBit(x / 2, y / 2, z / 2, i - 1);
    }
  }

  lemma {:induction false} ZeroBit(i: nat)
    ensures Bit(0, i) == 0
  {
    if i > 0 {
      ZeroBit(i - 1);
    }
  }

  lemma HalfOfSum(lo: nat, hi: nat, p: nat)
    requires p > 0
    ensures (lo + (2 * p) * hi) % 2 == lo % 2 && (lo + (2 * p) * hi) / 2 == lo / 2 + p * hi
  {
    assert (2 * p) * hi == 2 * (p * hi);
  }

  /** lo below 2^n, hi from bit n on. */
  lemma {:induction false} TwoParts(lo: nat, hi: nat, n: nat, i: nat)
    requires lo < Pow2(n)
    ensures lo + Pow2(n) * hi >= 0 && Bit(lo + Pow2(n) * hi, i) == if i < n then Bit(lo, i) else Bit(hi, i - n)
    decreases n
  {
    MulMono(Pow2(n), 0, hi);
    if n > 0 {
      HalfOfSum(lo, hi, Pow2(n - 1));
      if i > 0 {
        TwoParts(lo / 2, hi, n - 1, i - 1);
      }
    }
  }

  lemma {:induction false} ManyZeros(x: nat, n: nat, i: nat)
    requires x < Pow2(n) && i >= n
    ensures Bit(x, i) == 0
    decreases n
  {
    if n == 0 {
      ZeroBit(i);
    } else {
      ManyZeros(x / 2, n - 1, i - 1);
    }
  }

  /** The bits of a word above and below place k. */
  lemma PartBits(x: nat, k: nat, i: nat)
    ensures Bit(Shr(x, Pow2(k)), i) == Bit(x, i + k)
    ensures i < k ==> x % Pow2(k) >= 0 && Bit(x % Pow2(k), i) == Bit(x, i)
  {
    var p := Pow2(k);
    DivMod(x, p);
    TwoParts(x % p, x / p, k, i + k);
    TwoParts(x % p, x / p, k, i);
  }

  lemma RotrValue(x: word, k: nat)
    requires 0 < k < 64
    ensures Shr(x, Pow2(k)) < Pow2(64 - k) && Rotr(x, k) == Shr(x, Pow2(k)) + Pow2(64 - k) * (x % Pow2(k))
  {
    var p, u := Pow2(k), Pow2(64 - k);
    Pow2Add(k, 64 - k);
    TwoTo64();
    DivMod(x, p);
    RotrParts(x, p, u, Shr(x, p), x % p);
    RotatedIs(x, k, 9);
  }

  lemma WrapAround(i: nat, k: nat)
    requires i < 64 && k < 64
    ensures (i + k) % 64 == if i < 64 - k then i + k else i + k - 64
  {
  }

  /** Bit i of a rotation by k is bit i + k, counted around the word. */
  lemma RotrBit(x: word, k: nat, i: nat)
    requires 0 < k < 64 && i < 64
    ensures Bit(Rotr(x, k), i) == Bit(x, (i + k) % 64)
  {
    WrapAround(i, k);
    RotrValue(x, k);
    DivMod(x, Pow2(k));
    TwoParts(Shr(x, Pow2(k)), x % Pow2(k), 64 - k, i);
    if i < 64 - k {
      PartBits(x, k, i);
    } else {
      PartBits(x, k, i + k - 64);
    }
  }

  lemma Xor3Bit(x: nat, y: nat, z: nat, i: nat)
    ensures Bit(Xor3(x, y, z), i) == (Bit(x, i) + Bit(y, i) + Bit(z, i)) % 2
  {
    XorBit(x, y, i);
    XorBit(BitXor(x, y), z, i);
  }

  lemma ThreeRotations(x: word, k: nat, l: nat, m: nat, i: nat)
    requires 0 < k < 64 && 0 < l < 64 && 0 < m < 64 && i < 64
    ensures Bit(Xor3(Rotr(x, k), Rotr(x, l), Rotr(x, m)), i)
      == (Bit(x, (i + k) % 64) + Bit(x, (i + l) % 64) + Bit(x, (i + m) % 64)) % 2
  {
    RotrBit(x, k, i);
    RotrBit(x, l, i);
    RotrBit(x, m, i);
    Xor3Bit(Rotr(x, k), Rotr(x, l), Rotr(x, m), i);
  }

  /** The last operand is shifted. */
  lemma TwoRotations(x: word, k: nat, l: nat, m: nat, i: nat)
    requires 0 < k < 64 && 0 < l < 64 && i < 64
    ensures Bit(Xor3(Rotr(x, k), Rotr(x, l), Shr(x, Pow2(m))), i)
      == (Bit(x, (i + k) % 64) + Bit(x, (i + l) % 64) + Bit(x, i + m)) % 2
  {
    RotrBit(x, k, i);
    RotrBit(x, l, i);
    PartBits(x, m, i);
    Xor3Bit(Rotr(x, k), Rotr(x, l), Shr(x, Pow2(m)), i);
  }

  /** Section 4.1.3: the rotations of the sigma functions, bit by bit. */
  lemma BigSigmaBits(x: word, i: nat)
    requires i < 64
    ensures Bit(BigSigma0(x), i) == (Bit(x, (i + 28) % 64) + Bit(x, (i + 34) % 64) + Bit(x, (i + 39) % 64)) % 2
    ensures Bit(BigSigma1(x), i) == (Bit(x, (i + 14) % 64) + Bit(x, (i + 18) % 64) + Bit(x, (i + 41) % 64)) % 2
  {
    ThreeRotations(x, 28, 34, 39, i);
    ThreeRotations(x, 14, 18, 41, i);
  }

  /** The places above a word are zero. */
  lemma BitsAbove(x: word, i: nat)
    ensures i >= 64 ==> Bit(x, i) == 0
  {
    TwoTo64();
    if i >= 64 {
      ManyZeros(x, 64, i);
    }
  }

  /** The last operand is a shift; the places above the word count as zero. */
  lemma SmallSigmaBits(x: word, i: nat)
    requires i < 64
    ensures Bit(SmallSigma0(x), i) == (Bit(x, (i + 1) % 64) + Bit(x, (i + 8) % 64) + Bit(x, i + 7)) % 2
    ensures Bit(SmallSigma1(x), i) == (Bit(x, (i + 19) % 64) + Bit(x, (i + 61) % 64) + Bit(x, i + 6)) % 2
    ensures (i + 7 >= 64 ==> Bit(x, i + 7) == 0) && (i + 6 >= 64 ==> Bit(x, i + 6) == 0)
  {
    assert Pow2(7) == 0x80 && Pow2(6) == 0x40;
    TwoRotations(x, 1, 8, 7, i);
    TwoRotations(x, 19, 61, 6, i);
    BitsAbove(x, i + 7);
    BitsAbove(x, i + 6);
  }

  // ---------- the compression function ----------

  ghost predicate Expands(w: seq<word>, t: nat)
    requires 16 <= t < |w|
  {
    w[t] == (SmallSigma1(w[t - 2]) + w[t - 7] + SmallSigma0(w[t - 15]) + w[t - 16]) % TWO64
  }

  /** The message schedule. */
  ghost predicate IsSchedule(block: seq<byte>, w: seq<word>) {
    && |block| == 128 && |w| == 80
    && (forall t :: 0 <= t < 16 ==> w[t] == BeNat(block[8 * t..8 * t + 8]))
    && forall t :: 16 <= t < 80 ==> Expands(w, t)
  }

  /** One step: the working variables v become v'. */
  ghost predicate IsStep(v: Vars, v': Vars, k: word, w: word) {
    var t1 := v.h + BigSigma1(v.e) + Ch(v.e, v.f, v.g) + k + w;
    var t2 := BigSigma0(v.a) + Maj(v.a, v.b, v.c);
    v' == Vars((t1 + t2) % TWO64, v.a, v.b, v.c, (v.d + t1) % TWO64, v.e, v.f, v.g)
  }

  /** The working variables before and after each of the 80 steps. */
  ghost predicate IsRun(h: seq<word>, w: seq<word>, vs: seq<Vars>) {
    && |h| == 8 && |w| == 80 && |vs| == 81
    && vs[0] == Vars(h[0], h[1], h[2], h[3], h[4], h[5], h[6], h[7])
    && forall t :: 0 <= t < 80 ==> IsStep(vs[t], vs[t + 1], K[t], w[t])
  }

  lemma PlusMod(m: nat, n: nat)
    ensures Plus(m % TWO64, n) == (m + n) % TWO64 && Plus(n, m % TWO64) == (n + m) % TWO64
  {
    var q, s := m / TWO64, m % TWO64 + n;
    PlusIs(m % TWO64, n);
    PlusIs(n, m % TWO64);
    RemainderUnique(m + n, TWO64, q + s / TWO64, s % TWO64);
  }

  lemma PlusBoth(m: nat, n: nat)
    ensures Plus(m % TWO64, n % TWO64) == (m + n) % TWO64
  {
    var q, s := m / TWO64 + n / TWO64, m % TWO64 + n % TWO64;
    PlusIs(m % TWO64, n % TWO64);
    RemainderUnique(m + n, TWO64, q + s / TWO64, s % TWO64);
  }

  lemma FourTerms(x: nat, y: nat, z: nat, u: nat)
    ensures Plus(Plus(Plus(x, y), z), u) == (x + y + z + u) % TWO64
  {
    PlusIs(x, y);
    PlusMod(x + y, z);
    PlusMod(x + y + z, u);
  }

  lemma ScheduleStep(block: seq<byte>, w: seq<word>, t: nat)
    requires |block| == 128 && 16 <= t < |w| && Expands(w, t) && Schedule(block, t) == w[..t]
    ensures Schedule(block, t + 1) == w[..t] + [w[t]]
  {
    var a, b, c, d := w[t - 2], w[t - 7], w[t - 15], w[t - 16];
    ScheduleNext(block, t, w[..t]);
    FourTerms(SmallSigma1(a), b, SmallSigma0(c), d);
  }

  lemma {:induction false} ScheduleIs(block: seq<byte>, w: seq<word>, n: nat)
    requires IsSchedule(block, w) && n <= 80
    ensures Schedule(block, n) == w[..n]
  {
    if n > 0 {
      ScheduleIs(block, w, n - 1);
      assert w[..n] == w[..n - 1] + [w[n - 1]];
      if n - 1 >= 16 {
        ScheduleStep(block, w, n - 1);
      } else {
        assert w[n - 1] == Load(block, n - 1);
      }
    }
  }

  lemma T1Is(e: word, f: word, g: word, h: word, k: word, w: word)
    ensures T1(e, f, g, h, k, w) == (h + BigSigma1(e) + Ch(e, f, g) + k + w) % TWO64
  {
    FourTerms(h, BigSigma1(e), Ch(e, f, g), k);
    PlusMod(h + BigSigma1(e) + Ch(e, f, g) + k, w);
  }

  lemma ShiftedIs(v: Vars, t1: nat, t2: nat)
    ensures Shifted(v, t1 % TWO64, t2 % TWO64)
      == Vars((t1 + t2) % TWO64, v.a, v.b, v.c, (v.d + t1) % TWO64, v.e, v.f, v.g)
  {
    PlusMod(t1, v.d);
    PlusBoth(t1, t2);
  }

  lemma RoundIs(v: Vars, k: word, w: word)
    ensures Round(v, k, w) == Shifted(v, (v.h + BigSigma1(v.e) + Ch(v.e, v.f, v.g) + k + w) % TWO64,
                                      (BigSigma0(v.a) + Maj(v.a, v.b, v.c)) % TWO64)
  {
    T1Is(v.e, v.f, v.g, v.h, k, w);
    PlusIs(BigSigma0(v.a), Maj(v.a, v.b, v.c));
  }

  lemma OneStep(v: Vars, v': Vars, k: word, w: word)
    requires IsStep(v, v', k, w)
    ensures Round(v, k, w) == v'
  {
    RoundIs(v, k, w);
    ShiftedIs(v, v.h + BigSigma1(v.e) + Ch(v.e, v.f, v.g) + k + w, BigSigma0(v.a) + Maj(v.a, v.b, v.c));
  }

  lemma {:induction false} RunIs(h: seq<word>, w: seq<word>, vs: seq<Vars>, n: nat)
    requires IsRun(h, w, vs) && n <= 80
    ensures Rounds(ToVars(h), w, n) == vs[n]
  {
    if n > 0 {
      RunIs(h, w, vs, n - 1);
      OneStep(vs[n - 1], vs[n], K[n - 1], w[n - 1]);
    }
  }

  lemma AddedWords(v: Vars, h: seq<word>)
    requires |h| == 8
    ensures AddWords(FromVars(v), h) == [
      (v.a + h[0]) % TWO64, (v.b + h[1]) % TWO64, (v.c + h[2]) % TWO64, (v.d + h[3]) % TWO64,
      (v.e + h[4]) % TWO64, (v.f + h[5]) % TWO64, (v.g + h[6]) % TWO64, (v.h + h[7]) % TWO64]
  {
    PlusIs(v.a, h[0]);
    PlusIs(v.b, h[1]);
    PlusIs(v.c, h[2]);
    PlusIs(v.d, h[3]);
    PlusIs(v.e, h[4]);
    PlusIs(v.f, h[5]);
    PlusIs(v.g, h[6]);
    PlusIs(v.h, h[7]);
  }

  lemma CompressedVars(h: seq<word>, block: seq<byte>, w: seq<word>, vs: seq<Vars>, v: Vars)
    requires IsSchedule(block, w) && IsRun(h, w, vs) && v == vs[80]
    ensures Compress(h, block) == AddWords(FromVars(v), h)
  {
    ScheduleIs(block, w, 80);
    assert w[..80] == w;
    RunIs(h, w, vs, 80);
  }

  /** The compression function, section 6.4.2: schedule, steps, and the sum with the old hash value. */
  lemma CompressIs(h: seq<word>, block: seq<byte>, w: seq<word>, vs: seq<Vars>, v: Vars)
    requires IsSchedule(block, w) && IsRun(h, w, vs) && v == vs[80]
    ensures Compress(h, block) == [
      (v.a + h[0]) % TWO64, (v.b + h[1]) % TWO64, (v.c + h[2]) % TWO64, (v.d + h[3]) % TWO64,
      (v.e + h[4]) % TWO64, (v.f + h[5]) % TWO64, (v.g + h[6]) % TWO64, (v.h + h[7]) % TWO64]
  {
    CompressedVars(h, block, w, vs, v);
    AddedWords(v, h);
  }

  // ---------- padding, blocks and digest ----------

  lemma {:induction false} BeNatOfBytes(v: nat, n: nat)
    ensures BeNat(BeBytes(v, n)) == v % Pow256(n)
    decreases n
  {
    if n > 0 {
      var s := BeBytes(v, n);
      BeNatOfBytes(v / 256, n - 1);
      assert s[..n - 1] == BeBytes(v / 256, n - 1);
      ModSteps(v, Pow256(n - 1));
    }
  }

  lemma LengthNumber(v: nat)
    ensures BeNat(BeBytes(v, 16)) == v % TWO128
  {
    BeNatOfBytes(v, 16);
    Pow256Of8();
    Pow256Add(8, 8);
  }

  /** Section 5.1.2: the message, a one bit, the fewest zeros that fill a block, and the length in bits. */
  lemma PadIs(m: seq<byte>)
    ensures var p := Pad(m);
      && |p| % 128 == 0 && |m| + 17 <= |p| < |m| + 17 + 128
      && p[..|m|] == m && p[|m|] == 128 && (forall i :: |m| < i < |p| - 16 ==> p[i] == 0)
      && BeNat(p[|p| - 16..]) == (8 * |m|) % TWO128
  {
    var p, len := Pad(m), BeBytes(8 * |m|, 16);
    assert p[|p| - 16..] == len;
    LengthNumber(8 * |m|);
  }

  lemma {:induction false} DigestWord(h: seq<word>, i: nat)
    requires i < |h|
    ensures |Digest(h)| == 8 * |h| && Digest(h)[8 * i..8 * i + 8] == BeBytes(h[i], 8)
  {
    DigestLength(h);
    var d, n := Digest(h[..|h| - 1]), |h| - 1;
    DigestLength(h[..n]);
    if i < n {
      DigestWord(h[..n], i);
      assert Digest(h)[8 * i..8 * i + 8] == d[8 * i..8 * i + 8];
    }
  }

  lemma WordBytes(x: word)
    ensures BeNat(BeBytes(x, 8)) == x
  {
    BeNatOfBytes(x, 8);
    Pow256Of8();
    RemainderUnique(x, TWO64, 0, x);
  }

  /** The hash values from block to block, for the block function f. */
  ghost predicate IsChain(f: BlockFn, p: seq<byte>, hs: seq<seq<word>>) {
    && |hs| >= 1 && |p| == 128 * (|hs| - 1) && hs[0] == IV
    && forall i :: 0 <= i < |hs| - 1 ==> hs[i + 1] == f(hs[i], p[128 * i..128 * i + 128])
  }

  lemma {:induction false} ChainIs(f: BlockFn, p: seq<byte>, hs: seq<seq<word>>, n: nat)
    requires IsChain(f, p, hs) && n < |hs|
    ensures Fold(f, p, n) == hs[n]
  {
    if n > 0 {
      ChainIs(f, p, hs, n - 1);
    }
  }

  lemma LastValue(f: ShaFn, p: seq<byte>, hs: seq<seq<word>>, n: nat)
    requires IsChain(f, p, hs) && |hs| == n + 1
    ensures Fold(f, p, |p| / 128) == hs[n] && |hs[n]| == 8
  {
    ChainIs(f, p, hs, n);
    FoldLength(f, p, n);
  }

  /** The digest, section 6.4.2: word i of the last hash value, most significant byte first, at byte 8 i. */
  lemma HashIs(f: ShaFn, m: seq<byte>, hs: seq<seq<word>>, n: nat, i: nat)
    requires IsChain(f, Pad(m), hs) && |hs| == n + 1 && i < 8
    ensures |Hash(f, m)| == 64 && |hs[n]| == 8 && BeNat(Hash(f, m)[8 * i..8 * i + 8]) == hs[n][i]
  {
    LastValue(f, Pad(m), hs, n);
    DigestWord(hs[n], i);
    WordBytes(hs[n][i]);
  }
}
