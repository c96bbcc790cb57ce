/** The byte-level parts of ed25519.c: clamping, the range check on S, and comparing byte strings. */
module KeyBytes {
  import opened Words
  import opened Bytes
  import opened Modm
  import opened Scalar

  const TWO245: int := B4 * 0x20_0000
  const TWO253: int := B4 * 0x2000_0000
  const TWO254: int := B4 * 0x4000_0000

  /** The bounds are powers of two. */
  lemma PowersOfTwo()
    ensures TWO253 == Pow2(253) && TWO254 == Pow2(254)
  {
    TwoTo224();
    assert Pow2(14) == 0x4000 && Pow2(15) == 0x8000;
    Pow2Add(14, 15);
    Pow2Add(15, 15);
    Pow2Add(224, 29);
    Pow2Add(224, 30);
  }

  // ---------- masks ----------

  lemma AndEven(a: nat, b: nat)
    ensures BitAnd(a, 2 * b) == 2 * BitAnd(a / 2, b)
  {
    AndParts(a, 2 * b);
  }

  lemma OrEven(a: nat, b: nat)
    ensures BitOr(a, 2 * b) == 2 * BitOr(a / 2, b) + a % 2
  {
    OrParts(a, 2 * b);
  }

  lemma AndTimes8(a: nat, b: nat)
    ensures BitAnd(a, 8 * b) == 8 * BitAnd(a / 8, b)
  {
    AndEven(a, 4 * b);
    AndEven(a / 2, 2 * b);
    AndEven(a / 2 / 2, b);
    assert a / 2 / 2 / 2 == a / 8;
  }

  lemma OrTimes8(a: nat, b: nat)
    ensures BitOr(a, 8 * b) == 8 * BitOr(a / 8, b) + a % 8
  {
    OrEven(a, 4 * b);
    OrEven(a / 2, 2 * b);
    OrEven(a / 2 / 2, b);
    assert a / 2 / 2 / 2 == a / 8;
  }

  lemma AndTimes32(a: nat, b: nat)
    ensures BitAnd(a, 32 * b) == 32 * BitAnd(a / 32, b)
  {
    AndTimes8(a, 4 * b);
    AndEven(a / 8, 2 * b);
    AndEven(a / 8 / 2, b);
    assert a / 8 / 2 / 2 == a / 32;
  }

  lemma OrTimes64(a: nat, b: nat)
    ensures BitOr(a, 64 * b) == 64 * BitOr(a / 64, b) + a % 64
  {
    OrTimes8(a, 8 * b);
    OrTimes8(a / 8, b);
    assert a / 8 / 8 == a / 64;
  }

  lemma LowBits(c: nat, k: nat, p: nat)
    requires p == Pow2(k) && c < p
    ensures BitAnd(c, p - 1) == c
  {
    AndLowMask(c, k);
    RemainderUnique(c, p, 0, c);
  }

  lemma And248(b: byte)
    ensures BitAnd(b, 248) == b - b % 8
  {
    assert Pow2(5) == 32;
    AndTimes8(b, 31);
    LowBits(b / 8, 5, 32);
  }

  lemma And224(b: byte)
    ensures BitAnd(b, 224) == b - b % 32
  {
    assert Pow2(3) == 8;
    AndTimes32(b, 7);
    LowBits(b / 32, 3, 8);
  }

  lemma And127(b: byte)
    ensures BitAnd(b, 127) == b % 128
  {
    assert Pow2(7) == 128;
    AndLowMask(b, 7);
  }

  lemma OrOneBit(c: nat)
    requires c < 2
    ensures BitOr(c, 1) == 1
  {
    OrParts(c, 1);
    assert BitOr(0, 0) == 0;
  }

  lemma Or64(x: nat)
    requires x < 128
    ensures BitOr(x, 64) == 64 + x % 64
  {
    OrTimes64(x, 1);
    OrOneBit(x / 64);
  }

  // ---------- clamping ----------

  /** The secret scalar's bytes: the low three bits and the top bit cleared, the bit below the top set. */
  function Clamped(s: seq<byte>): (r: seq<byte>)
    requires |s| >= 32
    ensures |r| == |s| && r[32..] == s[32..]
  {
    s[0 := s[0] - s[0] % 8][31 := 64 + s[31] % 64]
  }

  lemma LowMiddleTop(s: seq<byte>)
    requires |s| == 32
    ensures LeNat(s) == s[0] + 256 * LeNat(s[1..31]) + TWO248 * s[31]
    ensures 0 <= s[0] + 256 * LeNat(s[1..31]) < TWO248
  {
    var low, top := s[..31], s[31..];
    assert s == low + top;
    LeNatConcat(low, top);
    Pow256Of31();
    assert LeNat(top) == s[31] by { assert top[1..] == []; assert LeNat(top[1..]) == 0; }
    assert low[1..] == s[1..31];
    LeNatBound(low);
  }

  lemma ClampedNumber(l: int, lr: int, mid: nat, th: int, t: int, n: nat, c: nat)
    requires 0 <= l && 0 <= lr < 8 && 0 <= th && 0 <= t < 64 && 8 * l + lr + 256 * mid < TWO248
    requires n == 8 * l + lr + 256 * mid + TWO248 * (64 * th + t)
    requires c == 8 * l + 256 * mid + TWO248 * (64 + t)
    ensures c == TWO254 + n % TWO254 - n % 8 && c % 8 == 0 && TWO254 <= c < 2 * TWO254
  {
    RemainderUnique(n, TWO254, th, 8 * l + lr + 256 * mid + TWO248 * t);
    RemainderUnique(n, 8, l + 32 * mid + TWO245 * (64 * th + t), lr);
    RemainderUnique(c, 8, l + 32 * mid + TWO245 * (64 + t), 0);
  }

  lemma ClampedDigits(low: byte, mid: nat, top: byte, low': byte, top': byte, n: nat, c: nat)
    requires low + 256 * mid < TWO248
    requires low' == low - low % 8 && top' == 64 + top % 64
    requires n == low + 256 * mid + TWO248 * top && c == low' + 256 * mid + TWO248 * top'
    ensures c == TWO254 + n % TWO254 - n % 8 && c % 8 == 0 && TWO254 <= c < 2 * TWO254
  {
    var l, lr, th, t := low / 8, low % 8, top / 64, top % 64;
    assert low == 8 * l + lr && top == 64 * th + t && low' == 8 * l && top' == 64 + t;
    ClampedNumber(l, lr, mid, th, t, n, c);
  }

  /** A clamped scalar is a multiple of 8 in [2^254, 2^255); the other bits are those of the hash. */
  lemma ClampedValue(s: seq<byte>)
    requires |s| == 32
    ensures LeNat(Clamped(s)) == TWO254 + LeNat(s) % TWO254 - LeNat(s) % 8
    ensures LeNat(Clamped(s)) % 8 == 0 && TWO254 <= LeNat(Clamped(s)) < 2 * TWO254
  {
    var c := Clamped(s);
    assert c[1..31] == s[1..31];
    LowMiddleTop(s);
    LowMiddleTop(c);
    ClampedDigits(s[0], LeNat(s[1..31]), s[31], c[0], c[31], LeNat(s), LeNat(c));
  }

  method Mask248(b: byte) returns (r: byte)
    ensures r == b - b % 8
  {
    And248(b);
    r := BitAnd(b, 248);
  }

  method Mask127(b: byte) returns (r: byte)
    ensures r == b % 128
  {
    And127(b);
    r := BitAnd(b, 127);
  }

  method Set64(b: byte) returns (r: byte)
    requires b < 128
    ensures r == 64 + b % 64
  {
    Or64(b);
    r := BitOr(b, 64);
  }

  /** extsk[0] &= 248; extsk[31] &= 127; extsk[31] |= 64 */
  method Clamp(extsk: array<byte>)
    requires extsk.Length >= 32
    modifies extsk
    ensures extsk[..] == Clamped(old(extsk[..]))
  {
    extsk[0] := Mask248(extsk[0]);
    extsk[31] := Mask127(extsk[31]);
    extsk[31] := Set64(extsk[31]);
  }

  lemma BelowTwo253(n: int, low: int, top: int)
    requires n == low + TWO248 * top && 0 <= low < TWO248
    ensures n < TWO253 <==> top < 32
  {
  }

  /** The check on the top three bits of S is exactly S < 2^253. */
  lemma TopThreeBits(s: seq<byte>)
    requires |s| == 32
    ensures BitAnd(s[31], 224) == 0 <==> LeNat(s) < TWO253
  {
    And224(s[31]);
    LowMiddleTop(s);
    assert s[31] - s[31] % 32 == 0 <==> s[31] < 32;
    BelowTwo253(LeNat(s), s[0] + 256 * LeNat(s[1..31]), s[31]);
  }

  // ---------- comparison ----------

  lemma {:induction false} OrIsZero(a: nat, b: nat)
    ensures BitOr(a, b) == 0 <==> a == 0 && b == 0
    decreases a + b
  {
    if a != 0 || b != 0 {
      OrIsZero(a / 2, b / 2);
    }
  }

  lemma {:induction false} OrBound(a: nat, b: nat, k: nat)
    requires a < Pow2(k) && b < Pow2(k)
    ensures BitOr(a, b) < Pow2(k)
    decreases k
  {
    if k > 0 {
      OrBound(a / 2, b / 2, k - 1);
    }
  }

  lemma Accumulate(d: nat, a: byte, b: byte)
    requires d < 256
    ensures BitOr(d, BitXor(a, b)) < 256
    ensures BitOr(d, BitXor(a, b)) == 0 <==> d == 0 && a == b
  {
    assert Pow2(8) == 256;
    XorBound(a, b, 8);
    XorIsZero(a, b);
    OrBound(d, BitXor(a, b), 8);
    OrIsZero(d, BitXor(a, b));
  }

  /** `1 & ((d - 1) >> 8)` on 64-bit words: 1 exactly for d = 0. */
  function ZeroFlag(d: nat): (r: int)
    requires d < 256
    ensures r == if d == 0 then 1 else 0
  {
    (Sub64(d, 1) / 256) % 2
  }

  /** ed25519_verify: 1 if the byte strings are equal, else 0, looking at every byte. */
  method Verify(x: seq<byte>, y: seq<byte>) returns (r: int)
    requires |x| == |y|
    ensures r == if x == y then 1 else 0
  {
    var differentbits: nat := 0;
    for i := 0 to |x|
      invariant differentbits < 256
      invariant differentbits == 0 <==> x[..i] == y[..i]
    {
      Accumulate(differentbits, x[i], y[i]);
      assert x[..i + 1] == x[..i] + [x[i]] && y[..i + 1] == y[..i] + [y[i]];
      differentbits := BitOr(differentbits, BitXor(x[i], y[i]));
    }
    assert x[..|x|] == x && y[..|y|] == y;
    r := ZeroFlag(differentbits);
  }
}
