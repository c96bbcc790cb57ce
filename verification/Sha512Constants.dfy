/**
 Where the constants of SHA-512 come from, sections 4.2.3 and 5.3.5 of FIPS 180-4: the first 64 bits
 of the fractional parts of the cube roots of the first 80 primes and of the square roots of the
 first 8.
 */
module Sha512Constants {
  import opened Words
  import opened Sha512Block

  const TWO192: int := TWO128 * TWO64

  predicate Divisor(d: nat, q: nat) {
    2 <= d < q && q % d == 0
  }

  ghost predicate Prime(q: nat) {
    q >= 2 && forall d :: !Divisor(d, q)
  }

  const PRIMES0: seq<nat> := [2, 3, 5, 7, 11, 13, 17, 19, 23, 29]
  const PRIMES1: seq<nat> := [31, 37, 41, 43, 47, 53, 59, 61, 67, 71]
  const PRIMES2: seq<nat> := [73, 79, 83, 89, 97, 101, 103, 107, 109, 113]
  const PRIMES3: seq<nat> := [127, 131, 137, 139, 149, 151, 157, 163, 167, 173]
  const PRIMES4: seq<nat> := [179, 181, 191, 193, 197, 199, 211, 223, 227, 229]
  const PRIMES5: seq<nat> := [233, 239, 241, 251, 257, 263, 269, 271, 277, 281]
  const PRIMES6: seq<nat> := [283, 293, 307, 311, 313, 317, 331, 337, 347, 349]
  const PRIMES7: seq<nat> := [353, 359, 367, 373, 379, 383, 389, 397, 401, 409]
  const PRIMES: seq<nat> := PRIMES0 + PRIMES1 + PRIMES2 + PRIMES3 + PRIMES4 + PRIMES5 + PRIMES6 + PRIMES7

  // ---------- the first 80 primes ----------

  /** The numbers below 441 that no prime below 20 divides properly. */
  predicate Sieved(q: nat) {
    && (q % 2 != 0 || q == 2) && (q % 3 != 0 || q == 3) && (q % 5 != 0 || q == 5) && (q % 7 != 0 || q == 7)
    && (q % 11 != 0 || q == 11) && (q % 13 != 0 || q == 13) && (q % 17 != 0 || q == 17) && (q % 19 != 0 || q == 19)
  }

  lemma SmallFactor(m: nat) returns (s: nat)
    requires 2 <= m <= 20
    ensures s in {2, 3, 5, 7, 11, 13, 17, 19} && m % s == 0
  {
    s := if m % 2 == 0 then 2 else if m % 3 == 0 then 3 else if m % 5 == 0 then 5 else m;
  }

  lemma FactorOfFactor(q: nat, m: nat, s: nat)
    requires m > 0 && s > 0 && q % m == 0 && m % s == 0
    ensures q % s == 0
  {
    var e, f := q / m, m / s;
    DivMod(q, m);
    DivMod(m, s);
    assert q == s * (f * e) by { assert (s * f) * e == s * (f * e); }
    RemainderUnique(q, s, f * e, 0);
  }

  /** A proper divisor, or its cofactor, is at most 20. */
  lemma SmallDivisor(d: nat, q: nat) returns (m: nat)
    requires Divisor(d, q) && q < 441
    ensures 2 <= m <= 20 && m < q && q % m == 0
  {
    var e := q / d;
    DivMod(q, d);
    if d <= 20 {
      m := d;
    } else {
      m := e;
      if e <= 1 {
        MulMono(d, e, 1);
      } else if e >= 21 {
        MulMono(d, 21, e);
      }
      RemainderUnique(q, e, d, 0);
    }
  }

  lemma SievedIsPrime(q: nat)
    requires 2 <= q < 441 && Sieved(q)
    ensures Prime(q)
  {
    forall d ensures !Divisor(d, q) {
      if Divisor(d, q) {
        var m := SmallDivisor(d, q);
        var s := SmallFactor(m);
        FactorOfFactor(q, m, s);
        DivMod(m, s);
      }
    }
  }

  lemma PrimeIsSieved(q: nat)
    requires Prime(q)
    ensures Sieved(q)
  {
    assert !Divisor(2, q) && !Divisor(3, q) && !Divisor(5, q) && !Divisor(7, q);
    assert !Divisor(11, q) && !Divisor(13, q) && !Divisor(17, q) && !Divisor(19, q);
  }

  /** q is a prime and the next one after p. */
  ghost predicate NextPrime(p: nat, q: nat) {
    Prime(q) && p < q && forall n :: p < n < q ==> !Prime(n)
  }

  /** No number strictly between p and q passes the sieve. */
  predicate Gap(p: nat, q: nat)
    decreases q - p
  {
    q <= p + 1 || (!Sieved(p + 1) && Gap(p + 1, q))
  }

  lemma {:induction false} GapHolds(p: nat, q: nat, n: nat)
    requires Gap(p, q) && p < n < q
    ensures !Sieved(n)
    decreases q - p
  {
    if n > p + 1 {
      GapHolds(p + 1, q, n);
    }
  }

  predicate InOrder(p: nat, q: nat) {
    2 <= q < 441 && p < q && Sieved(q) && Gap(p, q)
  }

  lemma Follow(p: nat, q: nat)
    requires InOrder(p, q)
    ensures NextPrime(p, q)
  {
    SievedIsPrime(q);
    forall n | p < n < q ensures !Prime(n) {
      GapHolds(p, q, n);
      if Prime(n) {
        PrimeIsSieved(n);
      }
    }
  }

  // ---------- roots ----------

  /** n.k, with 64 bits of fraction, is the cube root of q, rounded down. */
  predicate CubeRoot(n: nat, k: nat, q: nat) {
    var c := TWO64 * n + k;
    c * c * c <= q * TWO192 < (c + 1) * (c + 1) * (c + 1)
  }

  predicate SquareRoot(n: nat, k: nat, q: nat) {
    var c := TWO64 * n + k;
    c * c <= q * TWO128 < (c + 1) * (c + 1)
  }

  /** q is the prime after p, and k the first 64 bits of the fractional part of its cube root. */
  ghost predicate CubeFraction(k: nat, p: nat, q: nat) {
    NextPrime(p, q) && exists n: nat :: CubeRoot(n, k, q)
  }

  ghost predicate SquareFraction(k: nat, p: nat, q: nat) {
    NextPrime(p, q) && exists n: nat :: SquareRoot(n, k, q)
  }

  lemma Cube(p: nat, q: nat, n: nat, k: nat)
    requires InOrder(p, q) && CubeRoot(n, k, q)
    ensures CubeFraction(k, p, q)
  {
    Follow(p, q);
  }

  lemma Square(p: nat, q: nat, n: nat, k: nat)
    requires InOrder(p, q) && SquareRoot(n, k, q)
    ensures SquareFraction(k, p, q)
  {
    Follow(p, q);
  }

  function Before(t: nat): nat
    requires t < 80
  {
    if t == 0 then 1 else PRIMES[t - 1]
  }

  lemma Constants0(t: nat)
    requires t < 10
    ensures CubeFraction(K0[t], if t == 0 then 1 else PRIMES0[t - 1], PRIMES0[t])
  {
    match t
    case 0 => Cube(1, 2, 1, 0x428a_2f98_d728_ae22);
    case 1 => Cube(2, 3, 1, 0x7137_4491_23ef_65cd);
    case 2 => Cube(3, 5, 1, 0xb5c0_fbcf_ec4d_3b2f);
    case 3 => Cube(5, 7, 1, 0xe9b5_dba5_8189_dbbc);
    case 4 => Cube(7, 11, 2, 0x3956_c25b_f348_b538);
    case 5 => Cube(11, 13, 2, 0x59f1_11f1_b605_d019);
    case 6 => Cube(13, 17, 2, 0x923f_82a4_af19_4f9b);
    case 7 => Cube(17, 19, 2, 0xab1c_5ed5_da6d_8118);
    case 8 => Cube(19, 23, 2, 0xd807_aa98_a303_0242);
    case _ => Cube(23, 29, 3, 0x1283_5b01_4570_6fbe);
  }

  lemma Constants1(t: nat)
    requires t < 10
    ensures CubeFraction(K1[t], if t == 0 then 29 else PRIMES1[t - 1], PRIMES1[t])
  {
    match t
    case 0 => Cube(29, 31, 3, 0x2431_85be_4ee4_b28c);
    case 1 => Cube(31, 37, 3, 0x550c_7dc3_d5ff_b4e2);
    case 2 => Cube(37, 41, 3, 0x72be_5d74_f27b_896f);
    case 3 => Cube(41, 43, 3, 0x80de_b1fe_3b16_96b1);
    case 4 => Cube(43, 47, 3, 0x9bdc_06a7_25c7_1235);
    case 5 => Cube(47, 53, 3, 0xc19b_f174_cf69_2694);
    case 6 => Cube(53, 59, 3, 0xe49b_69c1_9ef1_4ad2);
    case 7 => Cube(59, 61, 3, 0xefbe_4786_384f_25e3);
    case 8 => Cube(61, 67, 4, 0x0fc1_9dc6_8b8c_d5b5);
    case _ => Cube(67, 71, 4, 0x240c_a1cc_77ac_9c65);
  }

  lemma Constants2(t: nat)
    requires t < 10
    ensures CubeFraction(K2[t], if t == 0 then 71 else PRIMES2[t - 1], PRIMES2[t])
  {
    match t
    case 0 => Cube(71, 73, 4, 0x2de9_2c6f_592b_0275);
    case 1 => Cube(73, 79, 4, 0x4a74_84aa_6ea6_e483);
    case 2 => Cube(79, 83, 4, 0x5cb0_a9dc_bd41_fbd4);
    case 3 => Cube(83, 89, 4, 0x76f9_88da_8311_53b5);
    case 4 => Cube(89, 97, 4, 0x983e_5152_ee66_dfab);
    case 5 => Cube(97, 101, 4, 0xa831_c66d_2db4_3210);
    case 6 => Cube(101, 103, 4, 0xb003_27c8_98fb_213f);
    case 7 => Cube(103, 107, 4, 0xbf59_7fc7_beef_0ee4);
    case 8 => Cube(107, 109, 4, 0xc6e0_0bf3_3da8_8fc2);
    case _ => Cube(109, 113, 4, 0xd5a7_9147_930a_a725);
  }

  lemma Constants3(t: nat)
    requires t < 10
    ensures CubeFraction(K3[t], if t == 0 then 113 else PRIMES3[t - 1], PRIMES3[t])
  {
    match t
    case 0 => Cube(113, 127, 5, 0x06ca_6351_e003_826f);
    case 1 => Cube(127, 131, 5, 0x1429_2967_0a0e_6e70);
    case 2 => Cube(131, 137, 5, 0x27b7_0a85_46d2_2ffc);
    case 3 => Cube(137, 139, 5, 0x2e1b_2138_5c26_c926);
    case 4 => Cube(139, 149, 5, 0x4d2c_6dfc_5ac4_2aed);
    case 5 => Cube(149, 151, 5, 0x5338_0d13_9d95_b3df);
    case 6 => Cube(151, 157, 5, 0x650a_7354_8baf_63de);
    case 7 => Cube(157, 163, 5, 0x766a_0abb_3c77_b2a8);
    case 8 => Cube(163, 167, 5, 0x81c2_c92e_47ed_aee6);
    case _ => Cube(167, 173, 5, 0x9272_2c85_1482_353b);
  }

  lemma Constants4(t: nat)
    requires t < 10
    ensures CubeFraction(K4[t], if t == 0 then 173 else PRIMES4[t - 1], PRIMES4[t])
  {
    match t
    case 0 => Cube(173, 179, 5, 0xa2bf_e8a1_4cf1_0364);
    case 1 => Cube(179, 181, 5, 0xa81a_664b_bc42_3001);
    case 2 => Cube(181, 191, 5, 0xc24b_8b70_d0f8_9791);
    case 3 => Cube(191, 193, 5, 0xc76c_51a3_0654_be30);
    case 4 => Cube(193, 197, 5, 0xd192_e819_d6ef_5218);
    case 5 => Cube(197, 199, 5, 0xd699_0624_5565_a910);
    case 6 => Cube(199, 211, 5, 0xf40e_3585_5771_202a);
    case 7 => Cube(211, 223, 6, 0x106a_a070_32bb_d1b8);
    case 8 => Cube(223, 227, 6, 0x19a4_c116_b8d2_d0c8);
    case _ => Cube(227, 229, 6, 0x1e37_6c08_5141_ab53);
  }

  lemma Constants5(t: nat)
    requires t < 10
    ensures CubeFraction(K5[t], if t == 0 then 229 else PRIMES5[t - 1], PRIMES5[t])
  {
    match t
    case 0 => Cube(229, 233, 6, 0x2748_774c_df8e_eb99);
    case 1 => Cube(233, 239, 6, 0x34b0_bcb5_e19b_48a8);
    case 2 => Cube(239, 241, 6, 0x391c_0cb3_c5c9_5a63);
    case 3 => Cube(241, 251, 6, 0x4ed8_aa4a_e341_8acb);
    case 4 => Cube(251, 257, 6, 0x5b9c_ca4f_7763_e373);
    case 5 => Cube(257, 263, 6, 0x682e_6ff3_d6b2_b8a3);
    case 6 => Cube(263, 269, 6, 0x748f_82ee_5def_b2fc);
    case 7 => Cube(269, 271, 6, 0x78a5_636f_4317_2f60);
    case 8 => Cube(271, 277, 6, 0x84c8_7814_a1f0_ab72);
    case _ => Cube(277, 281, 6, 0x8cc7_0208_1a64_39ec);
  }

  lemma Constants6(t: nat)
    requires t < 10
    ensures CubeFraction(K6[t], if t == 0 then 281 else PRIMES6[t - 1], PRIMES6[t])
  {
    match t
    case 0 => Cube(281, 283, 6, 0x90be_fffa_2363_1e28);
    case 1 => Cube(283, 293, 6, 0xa450_6ceb_de82_bde9);
    case 2 => Cube(293, 307, 6, 0xbef9_a3f7_b2c6_7915);
    case 3 => Cube(307, 311, 6, 0xc671_78f2_e372_532b);
    case 4 => Cube(311, 313, 6, 0xca27_3ece_ea26_619c);
    case 5 => Cube(313, 317, 6, 0xd186_b8c7_21c0_c207);
    case 6 => Cube(317, 331, 6, 0xeada_7dd6_cde0_eb1e);
    case 7 => Cube(331, 337, 6, 0xf57d_4f7f_ee6e_d178);
    case 8 => Cube(337, 347, 7, 0x06f0_67aa_7217_6fba);
    case _ => Cube(347, 349, 7, 0x0a63_7dc5_a2c8_98a6);
  }

  lemma Constants7(t: nat)
    requires t < 10
    ensures CubeFraction(K7[t], if t == 0 then 349 else PRIMES7[t - 1], PRIMES7[t])
  {
    match t
    case 0 => Cube(349, 353, 7, 0x113f_9804_bef9_0dae);
    case 1 => Cube(353, 359, 7, 0x1b71_0b35_131c_471b);
    case 2 => Cube(359, 367, 7, 0x28db_77f5_2304_7d84);
    case 3 => Cube(367, 373, 7, 0x32ca_ab7b_40c7_2493);
    case 4 => Cube(373, 379, 7, 0x3c9e_be0a_15c9_bebc);
    case 5 => Cube(379, 383, 7, 0x431d_67c4_9c10_0d4c);
    case 6 => Cube(383, 389, 7, 0x4cc5_d4be_cb3e_42b6);
    case 7 => Cube(389, 397, 7, 0x597f_299c_fc65_7e2a);
    case 8 => Cube(397, 401, 7, 0x5fcb_6fab_3ad6_faec);
    case _ => Cube(401, 409, 7, 0x6c44_198c_4a47_5817);
  }

  /** The initial hash value: square roots of the first 8 primes. */
  lemma InitialValues(t: nat)
    requires t < 8
    ensures SquareFraction(IV[t], Before(t), PRIMES[t])
  {
    match t
    case 0 => Square(1, 2, 1, 0x6a09_e667_f3bc_c908);
    case 1 => Square(2, 3, 1, 0xbb67_ae85_84ca_a73b);
    case 2 => Square(3, 5, 2, 0x3c6e_f372_fe94_f82b);
    case 3 => Square(5, 7, 2, 0xa54f_f53a_5f1d_36f1);
    case 4 => Square(7, 11, 3, 0x510e_527f_ade6_82d1);
    case 5 => Square(11, 13, 3, 0x9b05_688c_2b3e_6c1f);
    case 6 => Square(13, 17, 4, 0x1f83_d9ab_fb41_bd6b);
    case _ => Square(17, 19, 4, 0x5be0_cd19_137e_2179);
  }

  lemma Tens0(t: nat)
    requires 0 <= t < 10
    ensures CubeFraction(K[t], Before(t), PRIMES[t])
  {
    var i := t - 0;
    Constants0(i);
    var p, q := if i == 0 then 1 else PRIMES0[i - 1], PRIMES0[i];
    assert K[t] == K0[i] && Before(t) == p && PRIMES[t] == q;
    assert CubeFraction(K[t], Before(t), PRIMES[t]) == CubeFraction(K0[i], p, q);
  }

  lemma Tens1(t: nat)
    requires 10 <= t < 20
    ensures CubeFraction(K[t], Before(t), PRIMES[t])
  {
    var i := t - 10;
    Constants1(i);
    var p, q := if i == 0 then 29 else PRIMES1[i - 1], PRIMES1[i];
    assert K[t] == K1[i] && Before(t) == p && PRIMES[t] == q;
    assert CubeFraction(K[t], Before(t), PRIMES[t]) == CubeFraction(K1[i], p, q);
  }

  lemma Tens2(t: nat)
    requires 20 <= t < 30
    ensures CubeFraction(K[t], Before(t), PRIMES[t])
  {
    var i := t - 20;
    Constants2(i);
    var p, q := if i == 0 then 71 else PRIMES2[i - 1], PRIMES2[i];
    assert K[t] == K2[i] && Before(t) == p && PRIMES[t] == q;
    assert CubeFraction(K[t], Before(t), PRIMES[t]) == CubeFraction(K2[i], p, q);
  }

  lemma Tens3(t: nat)
    requires 30 <= t < 40
    ensures CubeFraction(K[t], Before(t), PRIMES[t])
  {
    var i := t - 30;
    Constants3(i);
    var p, q := if i == 0 then 113 else PRIMES3[i - 1], PRIMES3[i];
    assert K[t] == K3[i] && Before(t) == p && PRIMES[t] == q;
    assert CubeFraction(K[t], Before(t), PRIMES[t]) == CubeFraction(K3[i], p, q);
  }

  lemma Tens4(t: nat)
    requires 40 <= t < 50
    ensures CubeFraction(K[t], Before(t), PRIMES[t])
  {
    var i := t - 40;
    Constants4(i);
    var p, q := if i == 0 then 173 else PRIMES4[i - 1], PRIMES4[i];
    assert K[t] == K4[i] && Before(t) == p && PRIMES[t] == q;
    assert CubeFraction(K[t], Before(t), PRIMES[t]) == CubeFraction(K4[i], p, q);
  }

  lemma Tens5(t: nat)
    requires 50 <= t < 60
    ensures CubeFraction(K[t], Before(t), PRIMES[t])
  {
    var i := t - 50;
    Constants5(i);
    var p, q := if i == 0 then 229 else PRIMES5[i - 1], PRIMES5[i];
    assert K[t] == K5[i] && Before(t) == p && PRIMES[t] == q;
    assert CubeFraction(K[t], Before(t), PRIMES[t]) == CubeFraction(K5[i], p, q);
  }

  lemma Tens6(t: nat)
    requires 60 <= t < 70
    ensures CubeFraction(K[t], Before(t), PRIMES[t])
  {
    var i := t - 60;
    Constants6(i);
    var p, q := if i == 0 then 281 else PRIMES6[i - 1], PRIMES6[i];
    assert K[t] == K6[i] && Before(t) == p && PRIMES[t] == q;
    assert CubeFraction(K[t], Before(t), PRIMES[t]) == CubeFraction(K6[i], p, q);
  }

  lemma Tens7(t: nat)
    requires 70 <= t < 80
    ensures CubeFraction(K[t], Before(t), PRIMES[t])
  {
    var i := t - 70;
    Constants7(i);
    var p, q := if i == 0 then 349 else PRIMES7[i - 1], PRIMES7[i];
    assert K[t] == K7[i] && Before(t) == p && PRIMES[t] == q;
    assert CubeFraction(K[t], Before(t), PRIMES[t]) == CubeFraction(K7[i], p, q);
  }

  /** The round constants: cube roots of the first 80 primes. */
  lemma RoundConstants(t: nat)
    requires t < 80
    ensures CubeFraction(K[t], Before(t), PRIMES[t])
  {
    match t / 10
    case 0 => Tens0(t);
    case 1 => Tens1(t);
    case 2 => Tens2(t);
    case 3 => Tens3(t);
    case 4 => Tens4(t);
    case 5 => Tens5(t);
    case 6 => Tens6(t);
    case _ => Tens7(t);
  }

  lemma CubesIncrease(a: nat, b: nat)
    requires a <= b
    ensures a * a * a <= b * b * b
  {
    MulMono(a, a, b);
    MulMono(b, a, b);
    MulMono(a, a * a, b * b);
    MulMono(b * b, a, b);
  }

  lemma OneCubeRoot(c: nat, d: nat, q: nat)
    requires c * c * c <= q < (c + 1) * (c + 1) * (c + 1) && d * d * d <= q < (d + 1) * (d + 1) * (d + 1)
    ensures c == d
  {
    if c < d {
      CubesIncrease(c + 1, d);
    } else if d < c {
      CubesIncrease(d + 1, c);
    }
  }

  lemma OneCubeFraction(n: nat, k: word, n': nat, k': word, q: nat)
    requires CubeRoot(n, k, q) && CubeRoot(n', k', q)
    ensures k == k'
  {
    OneCubeRoot(TWO64 * n + k, TWO64 * n' + k', q * TWO192);
    RemainderUnique(TWO64 * n + k, TWO64, n, k);
    RemainderUnique(TWO64 * n' + k', TWO64, n', k');
  }

  /** There is only one such word, so the table is right exactly as it is. */
  lemma RoundConstantsExactly(t: nat, k: word)
    requires t < 80
    ensures k == K[t] <==> CubeFraction(k, Before(t), PRIMES[t])
  {
    RoundConstants(t);
    var p, q, kt := Before(t), PRIMES[t], K[t];
    if CubeFraction(k, p, q) {
      var n: nat :| CubeRoot(n, k, q);
      var n': nat :| CubeRoot(n', kt, q);
      OneCubeFraction(n, k, n', kt, q);
    }
  }

  lemma OneSquareRoot(c: nat, d: nat, q: nat)
    requires c * c <= q < (c + 1) * (c + 1) && d * d <= q < (d + 1) * (d + 1)
    ensures c == d
  {
    if c < d {
      MulBound(c + 1, c + 1, d + 1, d + 1);
    } else if d < c {
      MulBound(d + 1, d + 1, c + 1, c + 1);
    }
  }

  lemma OneSquareFraction(n: nat, k: word, n': nat, k': word, q: nat)
    requires SquareRoot(n, k, q) && SquareRoot(n', k', q)
    ensures k == k'
  {
    OneSquareRoot(TWO64 * n + k, TWO64 * n' + k', q * TWO128);
    RemainderUnique(TWO64 * n + k, TWO64, n, k);
    RemainderUnique(TWO64 * n' + k', TWO64, n', k');
  }

  lemma InitialValuesExactly(i: nat, k: word)
    requires i < 8
    ensures k == IV[i] <==> SquareFraction(k, Before(i), PRIMES[i])
  {
    InitialValues(i);
    var p, q, ki := Before(i), PRIMES[i], IV[i];
    if SquareFraction(k, p, q) {
      var n: nat :| SquareRoot(n, k, q);
      var n': nat :| SquareRoot(n', ki, q);
      OneSquareFraction(n, k, n', ki, q);
    }
  }
}
