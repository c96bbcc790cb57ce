/** The SHA-512 block function (section 6.4.2 of FIPS 180-4) and the C code that computes it. */
module Sha512Block {
  import opened Words
  import opened Bytes

  /** A 64-bit word: what the hash value, the schedule and the working variables are made of. */
  type word = x: int | 0 <= x < TWO64

  // The round constants, ten at a time.

  const K0: seq<word> := [
    0x428a_2f98_d728_ae22, 0x7137_4491_23ef_65cd, 0xb5c0_fbcf_ec4d_3b2f, 0xe9b5_dba5_8189_dbbc,
    0x3956_c25b_f348_b538, 0x59f1_11f1_b605_d019, 0x923f_82a4_af19_4f9b, 0xab1c_5ed5_da6d_8118,
    0xd807_aa98_a303_0242, 0x1283_5b01_4570_6fbe
  ]

  const K1: seq<word> := [
    0x2431_85be_4ee4_b28c, 0x550c_7dc3_d5ff_b4e2, 0x72be_5d74_f27b_896f, 0x80de_b1fe_3b16_96b1,
    0x9bdc_06a7_25c7_1235, 0xc19b_f174_cf69_2694, 0xe49b_69c1_9ef1_4ad2, 0xefbe_4786_384f_25e3,
    0x0fc1_9dc6_8b8c_d5b5, 0x240c_a1cc_77ac_9c65
  ]

  const K2: seq<word> := [
    0x2de9_2c6f_592b_0275, 0x4a74_84aa_6ea6_e483, 0x5cb0_a9dc_bd41_fbd4, 0x76f9_88da_8311_53b5,
    0x983e_5152_ee66_dfab, 0xa831_c66d_2db4_3210, 0xb003_27c8_98fb_213f, 0xbf59_7fc7_beef_0ee4,
    0xc6e0_0bf3_3da8_8fc2, 0xd5a7_9147_930a_a725
  ]

  const K3: seq<word> := [
    0x06ca_6351_e003_826f, 0x1429_2967_0a0e_6e70, 0x27b7_0a85_46d2_2ffc, 0x2e1b_2138_5c26_c926,
    0x4d2c_6dfc_5ac4_2aed, 0x5338_0d13_9d95_b3df, 0x650a_7354_8baf_63de, 0x766a_0abb_3c77_b2a8,
    0x81c2_c92e_47ed_aee6, 0x9272_2c85_1482_353b
  ]

  const K4: seq<word> := [
    0xa2bf_e8a1_4cf1_0364, 0xa81a_664b_bc42_3001, 0xc24b_8b70_d0f8_9791, 0xc76c_51a3_0654_be30,
    0xd192_e819_d6ef_5218, 0xd699_0624_5565_a910, 0xf40e_3585_5771_202a, 0x106a_a070_32bb_d1b8,
    0x19a4_c116_b8d2_d0c8, 0x1e37_6c08_5141_ab53
  ]

  const K5: seq<word> := [
    0x2748_774c_df8e_eb99, 0x34b0_bcb5_e19b_48a8, 0x391c_0cb3_c5c9_5a63, 0x4ed8_aa4a_e341_8acb,
    0x5b9c_ca4f_7763_e373, 0x682e_6ff3_d6b2_b8a3, 0x748f_82ee_5def_b2fc, 0x78a5_636f_4317_2f60,
    0x84c8_7814_a1f0_ab72, 0x8cc7_0208_1a64_39ec
  ]

  const K6: seq<word> := [
    0x90be_fffa_2363_1e28, 0xa450_6ceb_de82_bde9, 0xbef9_a3f7_b2c6_7915, 0xc671_78f2_e372_532b,
    0xca27_3ece_ea26_619c, 0xd186_b8c7_21c0_c207, 0xeada_7dd6_cde0_eb1e, 0xf57d_4f7f_ee6e_d178,
    0x06f0_67aa_7217_6fba, 0x0a63_7dc5_a2c8_98a6
  ]

  const K7: seq<word> := [
    0x113f_9804_bef9_0dae, 0x1b71_0b35_131c_471b, 0x28db_77f5_2304_7d84, 0x32ca_ab7b_40c7_2493,
    0x3c9e_be0a_15c9_bebc, 0x431d_67c4_9c10_0d4c, 0x4cc5_d4be_cb3e_42b6, 0x597f_299c_fc65_7e2a,
    0x5fcb_6fab_3ad6_faec, 0x6c44_198c_4a47_5817
  ]

  const K: seq<word> := K0 + K1 + K2 + K3 + K4 + K5 + K6 + K7

  const IV: seq<word> := [
    0x6a09_e667_f3bc_c908, 0xbb67_ae85_84ca_a73b, 0x3c6e_f372_fe94_f82b, 0xa54f_f53a_5f1d_36f1,
    0x510e_527f_ade6_82d1, 0x9b05_688c_2b3e_6c1f, 0x1f83_d9ab_fb41_bd6b, 0x5be0_cd19_137e_2179
  ]

  // ---------- the standard ----------

  /** The sum modulo 2^64.  Here and in Rotated the detour over n keeps the arithmetic out of sight. */
  function Added(x: nat, y: nat, n: nat): word {
    if n == 0 then (x + y) % TWO64 else Added(x, y, n - 1)
  }

  /** Addition modulo 2^64. */
  function Plus(x: nat, y: nat): word {
    Added(x, y, 9)
  }

  lemma {:induction false} AddedIs(x: nat, y: nat, n: nat)
    ensures Added(x, y, n) == (x + y) % TWO64
    decreases n
  {
    if n > 0 {
      AddedIs(x, y, n - 1);
    }
  }

  lemma PlusIs(x: nat, y: nat)
    ensures Plus(x, y) == (x + y) % TWO64
  {
    AddedIs(x, y, 9);
  }

  function Join(low: nat, high: int, pow: nat): nat
    requires high >= 0
  {
    MulMono(pow, 0, high);
    low + pow * high
  }

  /** The low k bits go to the top. */
  function Rotated(x: word, k: nat, n: nat): nat
    requires 0 < k < 64
  {
    if n == 0 then Join(Shr(x, Pow2(k)), x % Pow2(k), Pow2(64 - k)) else Rotated(x, k, n - 1)
  }

  /** Rotation to the right by k places. */
  function Rotr(x: word, k: nat): nat
    requires 0 < k < 64
  {
    Rotated(x, k, 9)
  }

  lemma {:induction false} RotatedIs(x: word, k: nat, n: nat)
    requires 0 < k < 64
    ensures Rotated(x, k, n) == Shr(x, Pow2(k)) + Pow2(64 - k) * (x % Pow2(k))
    decreases n
  {
    if n > 0 {
      RotatedIs(x, k, n - 1);
    }
  }

  // Section 4.1.3.  Ch takes each bit from y or z as x says; Maj takes the bit that two of the three share.

  function Ch(x: nat, y: nat, z: nat): nat
    decreases x + y + z
  {
    if x == 0 && y == 0 && z == 0 then 0
    else (if x % 2 == 1 then y % 2 else z % 2) + 2 * Ch(x / 2, y / 2, z / 2)
  }

  function Maj(x: nat, y: nat, z: nat): nat
    decreases x + y + z
  {
    if x == 0 && y == 0 && z == 0 then 0
    else (if x % 2 + y % 2 + z % 2 >= 2 then 1 else 0) + 2 * Maj(x / 2, y / 2, z / 2)
  }

  function Xor3(x: nat, y: nat, z: nat): nat {
    BitXor(BitXor(x, y), z)
  }

  function BigSigma0(x: word): nat {
    Xor3(Rotr(x, 28), Rotr(x, 34), Rotr(x, 39))
  }

  function BigSigma1(x: word): nat {
    Xor3(Rotr(x, 14), Rotr(x, 18), Rotr(x, 41))
  }

  function SmallSigma0(x: word): nat {
    Xor3(Rotr(x, 1), Rotr(x, 8), x / 0x80)
  }

  function SmallSigma1(x: word): nat {
    Xor3(Rotr(x, 19), Rotr(x, 61), x / 0x40)
  }

  lemma {:induction false} BeNatBound(s: seq<byte>)
    ensures BeNat(s) < Pow256(|s|)
  {
    if s != [] {
      BeNatBound(s[..|s| - 1]);
    }
  }

  /** A big-endian 64-bit word of the block. */
  function Load(block: seq<byte>, i: nat): word
    requires |block| == 128 && i < 16
  {
    BeNatBound(block[8 * i..8 * i + 8]);
    Pow256Of8();
    BeNat(block[8 * i..8 * i + 8])
  }

  /** The first n words of the message schedule. */
  function Schedule(block: seq<byte>, n: nat): (w: seq<word>)
    requires |block| == 128
    ensures |w| == n
  {
    if n == 0 then []
    else
      var w := Schedule(block, n - 1);
      var t := n - 1;
      w + [if t < 16 then Load(block, t)
           else Plus(Plus(Plus(SmallSigma1(w[t - 2]), w[t - 7]), SmallSigma0(w[t - 15])), w[t - 16])]
  }

  datatype Vars = Vars(a: word, b: word, c: word, d: word, e: word, f: word, g: word, h: word)

  function T1(e: word, f: word, g: word, h: word, k: word, w: word): word {
    Plus(Plus(Plus(Plus(h, BigSigma1(e)), Ch(e, f, g)), k), w)
  }

  function T2(a: word, b: word, c: word): word {
    Plus(BigSigma0(a), Maj(a, b, c))
  }

  function Shifted(v: Vars, t1: word, t2: word): Vars {
    Vars(Plus(t1, t2), v.a, v.b, v.c, Plus(v.d, t1), v.e, v.f, v.g)
  }

  function Round(v: Vars, k: word, w: word): Vars {
    Shifted(v, T1(v.e, v.f, v.g, v.h, k, w), T2(v.a, v.b, v.c))
  }

  function Rounds(v: Vars, w: seq<word>, n: nat): Vars
    requires n <= 80 && n <= |w|
  {
    if n == 0 then v else Round(Rounds(v, w, n - 1), K[n - 1], w[n - 1])
  }

  function ToVars(h: seq<word>): Vars
    requires |h| == 8
  {
    Vars(h[0], h[1], h[2], h[3], h[4], h[5], h[6], h[7])
  }

  function FromVars(v: Vars): (h: seq<word>)
    ensures |h| == 8
  {
    [v.a, v.b, v.c, v.d, v.e, v.f, v.g, v.h]
  }

  function AddWords(x: seq<word>, y: seq<word>): (z: seq<word>)
    requires |x| == |y| == 8
    ensures |z| == 8
  {
    seq(8, i requires 0 <= i < 8 => Plus(x[i], y[i]))
  }

  /** The intermediate hash value after one more block. */
  function Compress(h: seq<word>, block: seq<byte>): (r: seq<word>)
    requires |h| == 8 && |block| == 128
    ensures |r| == 8
  {
    AddWords(FromVars(Rounds(ToVars(h), Schedule(block, 80), 80)), h)
  }

  // ---------- the code ----------

  /** The macro Ch of the code, `z ^ (x & (y ^ z))`. */
  lemma {:induction false} CodeCh(x: nat, y: nat, z: nat)
    ensures BitXor(z, BitAnd(x, BitXor(y, z))) == Ch(x, y, z)
    decreases x + y + z
  {
    if x != 0 || y != 0 || z != 0 {
      CodeCh(x / 2, y / 2, z / 2);
      var d := BitXor(y, z);
      var a := BitAnd(x, d);
      XorParts(y, z);
      AndParts(x, d);
      XorParts(z, a);
    }
  }

  /** The macro Maj of the code, `((x | y) & z) | (x & y)`. */
  lemma {:induction false} CodeMaj(x: nat, y: nat, z: nat)
    ensures BitOr(BitAnd(BitOr(x, y), z), BitAnd(x, y)) == Maj(x, y, z)
    decreases x + y + z
  {
    if x != 0 || y != 0 || z != 0 {
      CodeMaj(x / 2, y / 2, z / 2);
      var o, q := BitOr(x, y), BitAnd(x, y);
      var p := BitAnd(o, z);
      OrParts(x, y);
      AndParts(x, y);
      AndParts(o, z);
      OrParts(p, q);
    }
  }

  /** sha512_ROTR64: `(x >> k) | (x << (64 - k))`. */
  function Rotr64(x: word, k: nat): nat
    requires 0 < k < 64
  {
    BitOr(Shr(x, Pow2(k)), Shl64(x, Pow2(64 - k)))
  }

  /** The two parts of a rotation: q = x >> k below 2^(64 - k), and the low bits r moved up by u = 2^(64 - k). */
  lemma RotrParts(x: int, p: int, u: int, q: int, r: int)
    requires p > 0 && u > 0 && p * u == TWO64 && 0 <= x < TWO64 && x == p * q + r && 0 <= r < p
    ensures 0 <= q < u && (x * u) % TWO64 == r * u && 0 <= q + r * u < TWO64
  {
    if q < 0 {
      MulMono(p, q, -1);
    } else if q >= u {
      MulMono(p, u, q);
    }
    assert x * u == TWO64 * q + r * u by {
      assert (p * q) * u == (p * u) * q;
    }
    MulMono(u, r, p - 1);
    MulMono(u, 0, r);
    RemainderUnique(x * u, TWO64, q, r * u);
  }

  /** The code's rotation is the standard's, and gives a 64-bit word. */
  lemma CodeRotr(x: word, k: nat)
    requires 0 < k < 64
    ensures Rotr64(x, k) == Rotr(x, k) && U64(Rotr(x, k))
  {
    var p, u := Pow2(k), Pow2(64 - k);
    var q, r := x / p, x % p;
    RotatedIs(x, k, 9);
    Pow2Add(k, 64 - k);
    TwoTo64();
    DivMod(x, p);
    RotrParts(x, p, u, q, r);
    RemainderUnique(r * u, u, r, 0);
    OrDisjoint(q, r * u, 64 - k);
  }

  lemma Xor3Word(x: nat, y: nat, z: nat)
    requires U64(x) && U64(y) && U64(z)
    ensures U64(Xor3(x, y, z))
  {
    TwoTo64();
    XorBound(x, y, 64);
    XorBound(BitXor(x, y), z, 64);
  }

  /** The macros S0, S1, G0 and G1. */
  method S0(x: word) returns (r: word)
    ensures r == BigSigma0(x)
  {
    CodeRotr(x, 28);
    CodeRotr(x, 34);
    CodeRotr(x, 39);
    Xor3Word(Rotr(x, 28), Rotr(x, 34), Rotr(x, 39));
    r := BitXor(BitXor(Rotr64(x, 28), Rotr64(x, 34)), Rotr64(x, 39));
  }

  method S1(x: word) returns (r: word)
    ensures r == BigSigma1(x)
  {
    CodeRotr(x, 14);
    CodeRotr(x, 18);
    CodeRotr(x, 41);
    Xor3Word(Rotr(x, 14), Rotr(x, 18), Rotr(x, 41));
    r := BitXor(BitXor(Rotr64(x, 14), Rotr64(x, 18)), Rotr64(x, 41));
  }

  method G0(x: word) returns (r: word)
    ensures r == SmallSigma0(x)
  {
    CodeRotr(x, 1);
    CodeRotr(x, 8);
    Xor3Word(Rotr(x, 1), Rotr(x, 8), x / 0x80);
    r := BitXor(BitXor(Rotr64(x, 1), Rotr64(x, 8)), x / 0x80);
  }

  method G1(x: word) returns (r: word)
    ensures r == SmallSigma1(x)
  {
    CodeRotr(x, 19);
    CodeRotr(x, 61);
    Xor3Word(Rotr(x, 19), Rotr(x, 61), x / 0x40);
    r := BitXor(BitXor(Rotr64(x, 19), Rotr64(x, 61)), x / 0x40);
  }

  /** A high part and a low part that share no bit. */
  lemma OrBelow(hi: nat, lo: nat, pow: int, k: int)
    requires lo < pow && hi == pow * k && Shift(pow)
    ensures BitOr(hi, lo) == hi + lo
  {
    OrOfMultiple(lo, hi, pow, k);
    OrComm(hi, lo);
  }

  lemma BeNatNext(p: seq<byte>, i: nat)
    requires i < |p|
    ensures BeNat(p[..i + 1]) == 256 * BeNat(p[..i]) + p[i]
  {
    assert p[..i + 1][..i] == p[..i];
  }

  lemma ByteBelow(n: nat, b: nat, low: nat)
    requires b < 256 && low > 0
    ensures n * (256 * low) + b * low == (256 * n + b) * low && b * low < 256 * low
  {
    assert n * (256 * low) == (256 * n) * low;
    MulMono(low, b, 255);
  }

  lemma OrTimes(n: nat, pow: nat, t: nat)
    requires t < pow && Shift(pow)
    ensures BitOr(n * pow, t) == n * pow + t
  {
    OrBelow(n * pow, t, pow, n);
  }

  /** One more byte b, below the n bytes so far. */
  lemma LoadStep(n: nat, b: nat, acc: nat, t: nat, pow: nat, low: nat)
    requires b < 256 && low > 0 && pow == 256 * low && Shift(pow) && acc == n * pow && t == b * low
    ensures BitOr(acc, t) == (256 * n + b) * low
  {
    ByteBelow(n, b, low);
    OrTimes(n, pow, t);
  }

  /** `acc | ((uint64_t)p[i] << e)`, for low = 2^e */
  method LoadNext(p: seq<byte>, i: nat, acc: nat, ghost pow: int, low: int) returns (r: nat)
    requires i < |p| && 0 < low && pow == 256 * low && Shift(pow) && acc == BeNat(p[..i]) * pow
    ensures r == BeNat(p[..i + 1]) * low
  {
    MulMono(low, 0, p[i]);
    MulMono(low, p[i], 255);
    BeNatNext(p, i);
    LoadStep(BeNat(p[..i]), p[i], acc, Shl64(p[i], low), pow, low);
    r := BitOr(acc, Shl64(p[i], low));
  }

  /** sha512_LOAD64_BE */
  method Load64(p: seq<byte>) returns (r: nat)
    requires |p| == 8
    ensures r == BeNat(p)
  {
    r := Shl64(p[0], 0x100_0000_0000_0000);
    BeNatNext(p, 0);
    r := LoadNext(p, 1, r, 0x100_0000_0000_0000, 0x1_0000_0000_0000);
    r := LoadNext(p, 2, r, 0x1_0000_0000_0000, 0x100_0000_0000);
    r := LoadNext(p, 3, r, 0x100_0000_0000, 0x1_0000_0000);
    r := LoadNext(p, 4, r, 0x1_0000_0000, 0x100_0000);
    r := LoadNext(p, 5, r, 0x100_0000, 0x1_0000);
    r := LoadNext(p, 6, r, 0x1_0000, 0x100);
    r := LoadNext(p, 7, r, 0x100, 1);
    assert p[..8] == p;
  }

  /** v / low / 256 = v / high for high = 256 low */
  lemma DivTwice(v: nat, low: nat, high: nat)
    requires low > 0 && high == 256 * low
    ensures Shr(v, low) / 256 == Shr(v, high)
  {
    var q, r := v / low, v % low;
    DivMod(v, low);
    var t := q / 256;
    assert v == high * t + (low * (q % 256) + r) by {
      assert low * (256 * t + q % 256) == 256 * low * t + low * (q % 256);
    }
    MulMono(low, q % 256, 255);
    MulMono(low, 0, q % 256);
    RemainderUnique(v, high, t, low * (q % 256) + r);
  }

  lemma StoreStep(v: nat, n: nat, low: nat, high: nat)
    requires low > 0 && high == 256 * low
    ensures BeBytes(Shr(v, low), n + 1) == BeBytes(Shr(v, high), n) + [Shr(v, low) % 256]
  {
    DivTwice(v, low, high);
  }

  /** sha512_STORE64_BE */
  method Store64(v: word) returns (p: seq<byte>)
    ensures |p| == 8 && p == BeBytes(v, 8)
  {
    StoreStep(v, 0, 0x100_0000_0000_0000, TWO64);
    StoreStep(v, 1, 0x1_0000_0000_0000, 0x100_0000_0000_0000);
    StoreStep(v, 2, 0x100_0000_0000, 0x1_0000_0000_0000);
    StoreStep(v, 3, 0x1_0000_0000, 0x100_0000_0000);
    StoreStep(v, 4, 0x100_0000, 0x1_0000_0000);
    StoreStep(v, 5, 0x1_0000, 0x100_0000);
    StoreStep(v, 6, 0x100, 0x1_0000);
    StoreStep(v, 7, 1, 0x100);
    p := [Shr(v, 0x100_0000_0000_0000) % 256, Shr(v, 0x1_0000_0000_0000) % 256, Shr(v, 0x100_0000_0000) % 256,
          Shr(v, 0x1_0000_0000) % 256, Shr(v, 0x100_0000) % 256, Shr(v, 0x1_0000) % 256, Shr(v, 0x100) % 256, v % 256];
  }

  method CodeT1(e: word, f: word, g: word, h: word, k: word, w: word) returns (t0: word)
    ensures t0 == T1(e, f, g, h, k, w)
  {
    CodeCh(e, f, g);
    var s1 := S1(e);
    t0 := Plus(Plus(Plus(Plus(h, s1), BitXor(g, BitAnd(e, BitXor(f, g)))), k), w);
  }

  method CodeT2(a: word, b: word, c: word) returns (t1: word)
    ensures t1 == T2(a, b, c)
  {
    CodeMaj(a, b, c);
    var s0 := S0(a);
    t1 := Plus(s0, BitOr(BitAnd(BitOr(a, b), c), BitAnd(a, b)));
  }

  /** The second half of STEP(i): the eight working variables shift through the array r. */
  method ShiftVars(r: array<word>, t0: word, t1: word)
    requires r.Length == 8
    modifies r
    ensures r[..] == FromVars(Shifted(ToVars(old(r[..])), t0, t1))
  {
    r[7] := r[6];
    r[6] := r[5];
    r[5] := r[4];
    r[4] := Plus(r[3], t0);
    r[3] := r[2];
    r[2] := r[1];
    r[1] := r[0];
    r[0] := Plus(t0, t1);
    assert r[..] == [r[0], r[1], r[2], r[3], r[4], r[5], r[6], r[7]];
  }

  /** STEP(i) */
  method Step(r: array<word>, k: word, w: word)
    requires r.Length == 8
    modifies r
    ensures r[..] == FromVars(Round(ToVars(old(r[..])), k, w))
  {
    var t1 := CodeT2(r[0], r[1], r[2]);
    var t0 := CodeT1(r[4], r[5], r[6], r[7], k, w);
    ShiftVars(r, t0, t1);
  }

  /** W1(i) */
  method Expanded(w: array<word>, i: nat) returns (r: word)
    requires 16 <= i < w.Length
    ensures r == Plus(Plus(Plus(SmallSigma1(w[i - 2]), w[i - 7]), SmallSigma0(w[i - 15])), w[i - 16])
  {
    var g1 := G1(w[i - 2]);
    var g0 := G0(w[i - 15]);
    r := Plus(Plus(Plus(g1, w[i - 7]), g0), w[i - 16]);
  }

  lemma ScheduleNext(block: seq<byte>, i: nat, w: seq<word>)
    requires |block| == 128 && i >= 16 && w == Schedule(block, i)
    ensures Schedule(block, i + 1) ==
      w + [Plus(Plus(Plus(SmallSigma1(w[i - 2]), w[i - 7]), SmallSigma0(w[i - 15])), w[i - 16])]
  {
  }

  /** W0(in, i) */
  method LoadWord(block: seq<byte>, i: nat) returns (r: word)
    requires |block| == 128 && i < 16
    ensures r == Load(block, i)
  {
    var x := Load64(block[8 * i..8 * i + 8]);
    assert x == Load(block, i);
    r := x;
  }

  /** The schedule loops of the code fill w[0..16) from the block and w[16..80) from earlier entries. */
  method FillSchedule(w: array<word>, block: seq<byte>)
    requires w.Length == 80 && |block| == 128
    modifies w
    ensures w[..] == Schedule(block, 80)
  {
    for i := 0 to 16
      invariant w[..i] == Schedule(block, i)
    {
      var x := LoadWord(block, i);
      w[i] := x;
      assert w[..i + 1] == Schedule(block, i) + [Load(block, i)];
    }
    for i := 16 to 80
      invariant w[..i] == Schedule(block, i)
    {
      var x := Expanded(w, i);
      w[i] := x;
      assert w[..i + 1] == w[..i] + [w[i]];
      ScheduleNext(block, i, w[..i]);
    }
    assert w[..] == w[..80];
  }

  /** The step i of the block. */
  method StepAt(r: array<word>, w: array<word>, i: nat, ghost v: Vars)
    requires r.Length == 8 && w.Length == 80 && r != w && i < 80 && r[..] == FromVars(Rounds(v, w[..], i))
    modifies r
    ensures r[..] == FromVars(Rounds(v, w[..], i + 1))
  {
    Step(r, K[i], w[i]);
  }

  method RunSteps(r: array<word>, w: array<word>)
    requires r.Length == 8 && w.Length == 80 && r != w
    modifies r
    ensures r[..] == FromVars(Rounds(ToVars(old(r[..])), w[..], 80))
  {
    ghost var v := ToVars(r[..]);
    for i := 0 to 80
      invariant r[..] == FromVars(Rounds(v, w[..], i))
    {
      StepAt(r, w, i, v);
    }
  }

  method FeedForward(H: array<word>, r: array<word>)
    requires H.Length == r.Length == 8 && H != r
    modifies H, r
    ensures H[..] == r[..] == AddWords(old(r[..]), old(H[..]))
  {
    ghost var h, q := H[..], r[..];
    for i := 0 to 8
      invariant forall k :: 0 <= k < i ==> r[k] == H[k] == Plus(q[k], h[k])
      invariant forall k :: i <= k < 8 ==> r[k] == q[k] && H[k] == h[k]
    {
      r[i] := Plus(r[i], H[i]);
      H[i] := r[i];
    }
  }

  /** The steps and the feed-forward, for a schedule w. */
  method Mix(H: array<word>, r: array<word>, w: array<word>)
    requires H.Length == r.Length == 8 && w.Length == 80 && H != r && H != w && r != w && r[..] == H[..]
    modifies H, r
    ensures H[..] == r[..] == AddWords(FromVars(Rounds(ToVars(old(H[..])), old(w[..]), 80)), old(H[..]))
  {
    RunSteps(r, w);
    FeedForward(H, r);
  }

  /** One turn of the block loop: schedule, 80 steps, feed-forward.  On entry and exit r is a copy of H. */
  method CompressBlock(H: array<word>, r: array<word>, block: seq<byte>)
    requires H.Length == r.Length == 8 && H != r && r[..] == H[..] && |block| == 128
    modifies H, r
    ensures H[..] == r[..] == Compress(old(H[..]), block)
  {
    var w := new word[80];
    FillSchedule(w, block);
    Mix(H, r, w);
  }
}
