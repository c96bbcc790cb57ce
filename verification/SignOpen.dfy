/**
 Key generation, signing and opening (ed25519.c) over any group with a base point whose order
 divides m and an encoding that unpacking undoes.
 */
module SignOpen {
  import opened Words
  import opened Bytes
  import opened Modm
  import opened Scalar
  import opened AbelianGroup
  import opened Points
  import opened BaseScalarmult
  import opened DoubleScalarmult
  import opened Sha512
  import opened KeyBytes

  datatype Option<T> = None | Some(value: T)

  /** What the signature scheme takes from the curve: the group, the precomputed tables, pack and unpack-negative. */
  datatype Curve<!G> = Curve(
    g: Ops<G>, base: G, comb: seq<Niels<G>>, sliding: seq<Niels<G>>,
    pack: G -> seq<byte>, unpackNegative: seq<byte> -> Option<G>)

  function Pack<G>(c: Curve<G>, p: G): seq<byte> {
    (c.pack)(p)
  }

  function UnpackNegative<G>(c: Curve<G>, b: seq<byte>): Option<G> {
    (c.unpackNegative)(b)
  }

  /** The encoding has 32 bytes, and unpacking it gives the negative of the point. */
  predicate PackAt<G(==)>(c: Curve<G>, p: G) {
    |Pack(c, p)| == 32 && UnpackNegative(c, Pack(c, p)) == Some(Neg(c.g, p))
  }

  ghost predicate GoodCurve<G(!new)>(c: Curve<G>) {
    && Abelian(c.g) && Mul(c.g, M, c.base) == c.g.zero
    && CombTable(c.g, c.comb, c.base) && OddMultiples(c.g, c.sliding, c.base)
    && forall p :: PackAt(c, p)
  }

  lemma PackLength<G(!new)>(c: Curve<G>, p: G)
    requires GoodCurve(c)
    ensures |Pack(c, p)| == 32
  {
    assert PackAt(c, p);
  }

  /** Different points have different encodings. */
  lemma PackInjective<G(!new)>(c: Curve<G>, p: G, q: G)
    requires GoodCurve(c)
    ensures Pack(c, p) == Pack(c, q) <==> p == q
  {
    assert PackAt(c, p) && PackAt(c, q);
    NegNeg(c.g, p);
    NegNeg(c.g, q);
  }

  /** Multiples of the base point depend on the scalar modulo m only. */
  lemma MulMod<G(!new)>(c: Curve<G>, n: int)
    requires GoodCurve(c)
    ensures Mul(c.g, n % M, c.base) == Mul(c.g, n, c.base)
  {
    MulModulo(c.g, n, M, c.base);
  }

  // ---------- the scheme, as sections 5.1.5 to 5.1.7 of RFC 8032 state it ----------

  ghost function Secret(h: HashFn, sk: seq<byte>): (e: seq<byte>)
    ensures |e| == 64
  {
    if |h(sk)| == 64 then Clamped(h(sk)) else Zeros(64)
  }

  ghost function SecretScalar(h: HashFn, sk: seq<byte>): nat {
    LeNat(Secret(h, sk)[..32])
  }

  ghost function Nonce(h: HashFn, sk: seq<byte>, m: seq<byte>): nat {
    LeNat(h(Secret(h, sk)[32..] + m))
  }

  ghost function Challenge(h: HashFn, r: seq<byte>, pk: seq<byte>, m: seq<byte>): nat {
    LeNat(h(r + pk + m))
  }

  ghost function PublicKey<G>(c: Curve<G>, h: HashFn, sk: seq<byte>): seq<byte> {
    Pack(c, Mul(c.g, SecretScalar(h, sk), c.base))
  }

  ghost function CommitmentOf<G>(c: Curve<G>, h: HashFn, sk: seq<byte>, m: seq<byte>): seq<byte> {
    Pack(c, Mul(c.g, Nonce(h, sk, m), c.base))
  }

  ghost function ResponseOf<G>(c: Curve<G>, h: HashFn, m: seq<byte>, sk: seq<byte>, pk: seq<byte>): nat {
    (Nonce(h, sk, m) + Challenge(h, CommitmentOf(c, h, sk, m), pk, m) * SecretScalar(h, sk)) % M
  }

  ghost function Signature<G>(c: Curve<G>, h: HashFn, m: seq<byte>, sk: seq<byte>, pk: seq<byte>): seq<byte> {
    CommitmentOf(c, h, sk, m) + LeBytes(ResponseOf(c, h, m, sk, pk), 32)
  }

  /** A signature (R, S) is accepted: S is in range, the key decodes, and R encodes S B - k A. */
  ghost predicate Accepts<G>(c: Curve<G>, h: HashFn, m: seq<byte>, pk: seq<byte>, rs: seq<byte>)
    requires |rs| == 64
  {
    var s, a := LeNat(rs[32..]), UnpackNegative(c, pk);
    && s < TWO253 && a.Some?
    && rs[..32] == Pack(c, Add(c.g, Mul(c.g, Challenge(h, rs[..32], pk, m) % M, a.value), Mul(c.g, s, c.base)))
  }

  lemma MulOfNeg<G(!new)>(g: Ops<G>, k: int, a: G)
    requires Abelian(g)
    ensures Mul(g, k, Neg(g, a)) == Neg(g, Mul(g, k, a))
  {
    MulDist(g, k, a, Neg(g, a));
    Inverse(g, a);
    MulZero(g, k);
    NegUnique(g, Mul(g, k, a), Mul(g, k, Neg(g, a)));
  }

  /** r = -x + y iff y = r + x */
  lemma MoveOver<G(!new)>(g: Ops<G>, r: G, x: G, y: G)
    requires Abelian(g)
    ensures r == Add(g, Neg(g, x), y) <==> y == Add(g, r, x)
  {
    Comm(g, Neg(g, x), y);
    Assoc(g, y, Neg(g, x), x);
    Assoc(g, r, x, Neg(g, x));
    Inverse(g, x);
    Unit(g, y);
    Unit(g, r);
  }

  /** For a properly encoded R, acceptance is the group equation S B = R + k A. */
  lemma AcceptsIsEquation<G(!new)>(c: Curve<G>, h: HashFn, m: seq<byte>, pk: seq<byte>, rs: seq<byte>, r: G, a: G)
    requires GoodCurve(c) && |rs| == 64 && rs[..32] == Pack(c, r) && UnpackNegative(c, pk) == Some(Neg(c.g, a))
    ensures Accepts(c, h, m, pk, rs) <==>
      && LeNat(rs[32..]) < TWO253
      && Mul(c.g, LeNat(rs[32..]), c.base) == Add(c.g, r, Mul(c.g, LeNat(h(rs[..32] + pk + m)) % M, a))
  {
    var k, s := Challenge(h, rs[..32], pk, m) % M, LeNat(rs[32..]);
    PackInjective(c, r, Add(c.g, Mul(c.g, k, Neg(c.g, a)), Mul(c.g, s, c.base)));
    MulOfNeg(c.g, k, a);
    MoveOver(c.g, r, Mul(c.g, k, a), Mul(c.g, s, c.base));
  }

  /**
   What ties a signature to its message: accepted on m, it is accepted on m' as well exactly when
   the two hashes, modulo m, send the key to the same point.
   */
  lemma OtherMessage<G(!new)>(c: Curve<G>, h: HashFn, m: seq<byte>, m': seq<byte>, pk: seq<byte>, rs: seq<byte>)
    requires GoodCurve(c) && |rs| == 64 && Accepts(c, h, m, pk, rs)
    ensures UnpackNegative(c, pk).Some?
    ensures var a := UnpackNegative(c, pk).value;
      Accepts(c, h, m', pk, rs) <==>
        Mul(c.g, LeNat(h(rs[..32] + pk + m')) % M, a) == Mul(c.g, LeNat(h(rs[..32] + pk + m)) % M, a)
  {
    var a, sB := UnpackNegative(c, pk).value, Mul(c.g, LeNat(rs[32..]), c.base);
    var x, y := Mul(c.g, LeNat(h(rs[..32] + pk + m)) % M, a), Mul(c.g, LeNat(h(rs[..32] + pk + m')) % M, a);
    PackInjective(c, Add(c.g, x, sB), Add(c.g, y, sB));
    if Add(c.g, x, sB) == Add(c.g, y, sB) {
      Cancel(c.g, x, y, sB);
    }
  }

  /** The two halves of the hashed secret key: the clamped scalar and the prefix of the nonce. */
  lemma SecretParts(h: HashFn, sk: seq<byte>)
    requires |h(sk)| == 64
    ensures Secret(h, sk)[32..] == h(sk)[32..]
    ensures var n := LeNat(h(sk)[..32]); LeNat(Secret(h, sk)[..32]) == TWO254 + n % TWO254 - n % 8
  {
    var d := h(sk)[..32];
    assert Secret(h, sk)[..32] == Clamped(d);
    ClampedValue(d);
  }

  // ---------- signing, then opening ----------

  lemma ResponseBytes(s: nat)
    requires s < M
    ensures LeNat(LeBytes(s, 32)) == s && s < TWO253
  {
    Pow256Of31();
    assert Pow256(32) == 256 * Pow256(31);
    LeNatOfBytes(s, 32);
  }

  lemma ResponseMultiple<G(!new)>(c: Curve<G>, r: int, x: int, y: int, s: int)
    requires GoodCurve(c) && s == (r + x) % M && x % M == y % M
    ensures Mul(c.g, s, c.base) == Add(c.g, Mul(c.g, r, c.base), Mul(c.g, y, c.base))
  {
    calc {
      Mul(c.g, s, c.base);
      { MulMod(c, r + x); }
      Mul(c.g, r + x, c.base);
      { MulAdd(c.g, r, x, c.base); }
      Add(c.g, Mul(c.g, r, c.base), Mul(c.g, x, c.base));
      { MulMod(c, x); MulMod(c, y); }
      Add(c.g, Mul(c.g, r, c.base), Mul(c.g, y, c.base));
    }
  }

  lemma ModFactorBy(k: nat, a: nat, d: nat)
    requires d > 0
    ensures ((k % d) * a) % d == (k * a) % d
  {
    var q, r := k / d, k % d;
    DivMod(k, d);
    DivMod(r * a, d);
    assert k * a == d * (q * a) + r * a by { assert (d * q + r) * a == d * (q * a) + r * a; }
    var u, v := (r * a) / d, (r * a) % d;
    assert k * a == d * (q * a + u) + v;
    RemainderUnique(k * a, d, q * a + u, v);
  }

  lemma ModFactor(k: nat, a: nat)
    ensures ((k % M) * a) % M == (k * a) % M
  {
    ModFactorBy(k, a, M);
  }

  /** s B = r B + k (a B) for the response s = (r + k a) mod m. */
  lemma SignedEquation<G(!new)>(c: Curve<G>, r: nat, k: nat, a: nat, s: nat)
    requires GoodCurve(c) && s == (r + k * a) % M
    ensures Mul(c.g, s, c.base) == Add(c.g, Mul(c.g, r, c.base), Mul(c.g, k % M, Mul(c.g, a, c.base)))
  {
    ModFactor(k, a);
    MulMul(c.g, k % M, a, c.base);
    ResponseMultiple(c, r, k * a, (k % M) * a, s);
  }

  lemma CancelLeft<G(!new)>(g: Ops<G>, a: G, b: G, c: G)
    requires Abelian(g)
    ensures Add(g, a, b) == Add(g, a, c) <==> b == c
  {
    Comm(g, a, b);
    Comm(g, a, c);
    if Add(g, a, b) == Add(g, a, c) {
      Cancel(g, b, c, a);
    }
  }

  /**
   Opening a signature made with the secret key sk under any public key: it is accepted exactly
   when the challenge sends the decoded key and the signer's own key to the same point.
   */
  lemma OpenUnderKey<G(!new)>(c: Curve<G>, h: HashFn, m: seq<byte>, sk: seq<byte>, pk: seq<byte>)
    requires GoodCurve(c)
    ensures |Signature(c, h, m, sk, pk)| == 64
    ensures Accepts(c, h, m, pk, Signature(c, h, m, sk, pk)) <==>
      && UnpackNegative(c, pk).Some?
      && var k := Challenge(h, CommitmentOf(c, h, sk, m), pk, m) % M;
         Mul(c.g, k, Neg(c.g, UnpackNegative(c, pk).value)) == Mul(c.g, k, Mul(c.g, SecretScalar(h, sk), c.base))
  {
    var rs, cr := Signature(c, h, m, sk, pk), CommitmentOf(c, h, sk, m);
    var r, k, a, s := Nonce(h, sk, m), Challenge(h, cr, pk, m), SecretScalar(h, sk), ResponseOf(c, h, m, sk, pk);
    PackLength(c, Mul(c.g, r, c.base));
    assert rs[..32] == cr && rs[32..] == LeBytes(s, 32);
    ResponseBytes(s);
    if UnpackNegative(c, pk).Some? {
      var nA := UnpackNegative(c, pk).value;
      NegNeg(c.g, nA);
      AcceptsIsEquation(c, h, m, pk, rs, Mul(c.g, r, c.base), Neg(c.g, nA));
      SignedEquation(c, r, k, a, s);
      CancelLeft(c.g, Mul(c.g, r, c.base), Mul(c.g, k % M, Neg(c.g, nA)), Mul(c.g, k % M, Mul(c.g, a, c.base)));
    }
  }

  /** Every signature made under the matching public key is accepted. */
  lemma SignThenOpen<G(!new)>(c: Curve<G>, h: HashFn, m: seq<byte>, sk: seq<byte>)
    requires GoodCurve(c)
    ensures var pk := PublicKey(c, h, sk); var rs := Signature(c, h, m, sk, pk);
      |pk| == 32 && |rs| == 64 && Accepts(c, h, m, pk, rs)
  {
    var A, pk := Mul(c.g, SecretScalar(h, sk), c.base), PublicKey(c, h, sk);
    assert PackAt(c, A);
    NegNeg(c.g, A);
    OpenUnderKey(c, h, m, sk, pk);
  }

  // ---------- the code ----------

  method ToBytes(s: seq<byte>) returns (a: array<byte>)
    ensures fresh(a) && a[..] == s
  {
    a := new byte[|s|](i requires 0 <= i < |s| => s[i]);
  }

  /** ed25519_extsk */
  method ExtSk(sk: seq<byte>, ghost f: ShaFn, ghost h: HashFn) returns (extsk: seq<byte>)
    requires HashedBy(f, h)
    ensures extsk == Secret(h, sk) && |h(sk)| == 64
  {
    var hash := HashMessage(sk, f);
    HashLength(f, sk);
    var buffer := ToBytes(hash);
    Clamp(buffer);
    extsk := buffer[..];
  }

  /** ed25519_hram: three updates of one hash context. */
  method Hram(rs: seq<byte>, pk: seq<byte>, m: seq<byte>, ghost f: ShaFn, ghost h: HashFn) returns (hram: seq<byte>)
    requires HashedBy(f, h)
    requires |rs| >= 32
    ensures |hram| == 64 && hram == h(rs[..32] + pk + m) && LeNat(hram) == Challenge(h, rs[..32], pk, m)
  {
    hram := HashParts([rs[..32], pk, m], f);
    FlattenThree(rs[..32], pk, m);
  }

  /** The nonce's hash: two updates. */
  method HashNonce(prefix: seq<byte>, m: seq<byte>, ghost f: ShaFn, ghost h: HashFn) returns (hashr: seq<byte>)
    requires HashedBy(f, h)
    ensures |hashr| == 64 && hashr == h(prefix + m)
  {
    hashr := HashParts([prefix, m], f);
    FlattenTwo(prefix, m);
  }

  /** expand256_modm into a fresh scalar. */
  method Expand(input: seq<byte>) returns (out: array<int>)
    requires |input| <= 64
    ensures fresh(out) && out.Length == 5 && Reduced(out[..]) && Val(out[..]) == LeNat(input) % M
  {
    out := new int[5];
    Expand256Modm(out, input);
  }

  /** [s]B, packed. */
  method PackedMultiple<G(!new)>(c: Curve<G>, s: array<int>, ghost n: nat) returns (r: seq<byte>)
    requires GoodCurve(c) && s.Length == 5 && Reduced(s[..]) && Val(s[..]) == n % M
    ensures r == Pack(c, Mul(c.g, n, c.base)) && |r| == 32
  {
    ReducedTop(s[..]);
    var p := ScalarmultBaseNiels(c.g, c.comb, s[..], c.base);
    MulMod(c, n);
    r := Pack(c, p.val);
    PackLength(c, p.val);
  }

  /** ed25519_publickey */
  method MakePublicKey<G(!new)>(c: Curve<G>, sk: seq<byte>, ghost f: ShaFn, ghost h: HashFn) returns (pk: seq<byte>)
    requires HashedBy(f, h)
    requires GoodCurve(c)
    ensures pk == PublicKey(c, h, sk) && |h(sk)| == 64
    ensures var n := LeNat(h(sk)[..32]); pk == Pack(c, Mul(c.g, TWO254 + n % TWO254 - n % 8, c.base))
  {
    var extsk := ExtSk(sk, f, h);
    var a := Expand(extsk[..32]);
    pk := PackedMultiple(c, a, SecretScalar(h, sk));
    SecretParts(h, sk);
  }

  lemma SumMod(a: nat, b: nat, d: nat)
    requires d > 0
    ensures (a % d + b % d) % d == (b + a) % d
  {
    DivMod(a, d);
    DivMod(b, d);
    var s := a % d + b % d;
    DivMod(s, d);
    var x, y, z := a / d, b / d, s / d;
    assert a + b == d * (x + y + z) + s % d;
    RemainderUnique(a + b, d, x + y + z, s % d);
  }

  lemma ResponseValue(n: nat, k: nat, x: nat)
    ensures ((((k % M) * (x % M)) % M) + n % M) % M == (n + k * x) % M
  {
    ModFactor(k, x % M);
    ModFactor(x, k);
    SumMod(k * x, n, M);
  }

  /** S = (r + k a) mod m, in little-endian bytes; S is computed in place. */
  method Respond(S: array<int>, r: array<int>, a: array<int>, ghost k: nat, ghost n: nat, ghost x: nat)
    returns (bytes: seq<byte>)
    requires S.Length == r.Length == a.Length == 5
    requires Reduced(S[..]) && Val(S[..]) == k % M
    requires Reduced(r[..]) && Val(r[..]) == n % M && S != r
    requires Reduced(a[..]) && Val(a[..]) == x % M
    modifies S
    ensures bytes == LeBytes((n + k * x) % M, 32)
  {
    ReducedTop(S[..]);
    ReducedTop(a[..]);
    Mul256Modm(S, S, a);
    Add256Modm(S, S, r);
    ReducedTop(S[..]);
    bytes := Contract256Modm(S);
    CanonicalBytes(bytes);
    ResponseValue(n, k, x);
  }

  /** r = H(prefix, m) and the encoding of R = r B. */
  method Commit<G(!new)>(c: Curve<G>, prefix: seq<byte>, m: seq<byte>, ghost f: ShaFn, ghost h: HashFn, ghost n: nat)
    returns (r: array<int>, cr: seq<byte>)
    requires HashedBy(f, h)
    requires GoodCurve(c) && n == LeNat(h(prefix + m))
    ensures fresh(r) && r.Length == 5 && Reduced(r[..]) && Val(r[..]) == n % M
    ensures cr == Pack(c, Mul(c.g, n, c.base)) && |cr| == 32
  {
    var hashr := HashNonce(prefix, m, f, h);
    r := Expand(hashr);
    cr := PackedMultiple(c, r, n);
  }

  /** S = (r + H(R, A, m) a) mod m */
  method Answer(key: seq<byte>, m: seq<byte>, pk: seq<byte>, r: array<int>, cr: seq<byte>, ghost f: ShaFn,
                ghost h: HashFn, ghost n: nat, ghost s: nat)
    returns (bytes: seq<byte>)
    requires HashedBy(f, h)
    requires |key| == |cr| == 32 && r.Length == 5 && Reduced(r[..]) && Val(r[..]) == n % M
    requires s == (n + Challenge(h, cr, pk, m) * LeNat(key)) % M
    ensures bytes == LeBytes(s, 32)
  {
    var hram := Hram(cr, pk, m, f, h);
    assert cr[..32] == cr;
    var S := Expand(hram);
    var a := Expand(key);
    bytes := Respond(S, r, a, LeNat(hram), n, LeNat(key));
  }

  /** The two halves of a signature, with the nonce n and the scalar x. */
  lemma SignatureParts<G(!new)>(c: Curve<G>, h: HashFn, m: seq<byte>, sk: seq<byte>, pk: seq<byte>, n: nat, x: nat)
    requires GoodCurve(c) && n == Nonce(h, sk, m) && x == SecretScalar(h, sk)
    ensures var rs := Signature(c, h, m, sk, pk);
      && |rs| == 64 && rs[..32] == Pack(c, Mul(c.g, n, c.base))
      && LeNat(rs[32..]) == (n + LeNat(h(rs[..32] + pk + m)) * x) % M
  {
    var rs, cr, s := Signature(c, h, m, sk, pk), CommitmentOf(c, h, sk, m), ResponseOf(c, h, m, sk, pk);
    PackLength(c, Mul(c.g, n, c.base));
    assert rs[..32] == cr && rs[32..] == LeBytes(s, 32);
    ResponseBytes(s);
  }

  method SignedBytes<G(!new)>(c: Curve<G>, m: seq<byte>, sk: seq<byte>, pk: seq<byte>, ghost f: ShaFn, ghost h: HashFn)
    returns (rs: seq<byte>)
    requires HashedBy(f, h)
    requires GoodCurve(c)
    ensures rs == Signature(c, h, m, sk, pk) && |h(sk)| == 64
  {
    var extsk := ExtSk(sk, f, h);
    ghost var n := Nonce(h, sk, m);
    var r, cr := Commit(c, extsk[32..], m, f, h, n);
    var bytes := Answer(extsk[..32], m, pk, r, cr, f, h, n, ResponseOf(c, h, m, sk, pk));
    rs := cr + bytes;
  }

  /** ed25519_sign: R = H(prefix, m) B and S = (H(prefix, m) + H(R, A, m) x) mod m. */
  method Sign<G(!new)>(c: Curve<G>, m: seq<byte>, sk: seq<byte>, pk: seq<byte>, ghost f: ShaFn, ghost h: HashFn)
    returns (rs: seq<byte>)
    requires HashedBy(f, h)
    requires GoodCurve(c)
    ensures rs == Signature(c, h, m, sk, pk) && |rs| == 64 && |h(sk)| == 64
    ensures var d := h(sk);
      var n, x := LeNat(h(d[32..] + m)), TWO254 + LeNat(d[..32]) % TWO254 - LeNat(d[..32]) % 8;
      && rs[..32] == Pack(c, Mul(c.g, n, c.base))
      && LeNat(rs[32..]) == (n + LeNat(h(rs[..32] + pk + m)) * x) % M
  {
    rs := SignedBytes(c, m, sk, pk, f, h);
    ghost var d := h(sk);
    SecretParts(h, sk);
    SignatureParts(c, h, m, sk, pk, LeNat(h(d[32..] + m)), TWO254 + LeNat(d[..32]) % TWO254 - LeNat(d[..32]) % 8);
  }

  /** The encoding of S B + k A, for A the negated key. */
  method CheckPoint<G(!new)>(c: Curve<G>, a: G, hram: array<int>, S: array<int>, ghost k: nat, ghost s: nat)
    returns (checkR: seq<byte>)
    requires GoodCurve(c) && hram.Length == S.Length == 5
    requires Reduced(hram[..]) && Val(hram[..]) == k % M && Reduced(S[..]) && Val(S[..]) == s % M
    ensures checkR == Pack(c, Add(c.g, Mul(c.g, k % M, a), Mul(c.g, s, c.base))) && |checkR| == 32
  {
    ReducedTop(hram[..]);
    ReducedTop(S[..]);
    var p := DoubleScalarmultVartime(c.g, Ge(a, true), hram[..], S[..], c.sliding, c.base);
    MulMod(c, s);
    checkR := Pack(c, p.val);
    PackLength(c, p.val);
  }

  /** ed25519_sign_open: 0 if the signature is accepted, -1 if not. */
  method Open<G(!new)>(c: Curve<G>, m: seq<byte>, pk: seq<byte>, rs: seq<byte>, ghost f: ShaFn, ghost h: HashFn)
    returns (r: int)
    requires HashedBy(f, h)
    requires GoodCurve(c) && |rs| == 64
    ensures r == if Accepts(c, h, m, pk, rs) then 0 else -1
    ensures var s, a, k := LeNat(rs[32..]), UnpackNegative(c, pk), LeNat(h(rs[..32] + pk + m)) % M;
      r == 0 <==>
        && s < TWO253 && a.Some?
        && rs[..32] == Pack(c, Add(c.g, Mul(c.g, k, a.value), Mul(c.g, s, c.base)))
  {
    TopThreeBits(rs[32..]);
    var a := UnpackNegative(c, pk);
    if BitAnd(rs[63], 224) != 0 || a.None? {
      return -1;
    }
    var hash := Hram(rs, pk, m, f, h);
    var hram := Expand(hash);
    var S := Expand(rs[32..]);
    var checkR := CheckPoint(c, a.value, hram, S, LeNat(hash), LeNat(rs[32..]));
    var same := Verify(rs[..32], checkR);
    r := if same == 1 then 0 else -1;
  }
}
