/**
 Fixed-width unsigned arithmetic of the C code, on unbounded integers.

 A 64-bit or 128-bit operation that the C code relies on NOT to wrap is a function
 with a precondition, so that every call is a proof that no overflow happens.  An
 operation that is meant to wrap says so (`Sub64`).
 */
module Words {
  const TWO32: int := 0x1_0000_0000
  const TWO64: int := 0x1_0000_0000_0000_0000
  const TWO128: int := 0x1_0000_0000_0000_0000_0000_0000_0000_0000
  const TWO255: int := TWO128 * 0x8000_0000_0000_0000_0000_0000_0000_0000

  predicate U64(x: int) {
    0 <= x < TWO64
  }

  predicate U128(x: int) {
    0 <= x < TWO128
  }

  /** Wrapping 64-bit subtraction. */
  function Sub64(a: int, b: int): (r: int)
    ensures U64(r)
  {
    (a - b) % TWO64
  }

  /** The sign bit of a 64-bit word. */
  function Top64(a: int): (r: int)
    requires U64(a)
    ensures r == 0 || r == 1
  {
    a / 0x8000_0000_0000_0000
  }

  /** 64-bit addition that must not carry out. */
  function Add64(a: int, b: int): (r: int)
    requires U64(a + b)
  {
    a + b
  }

  /**
   The value of a chain of 128-bit additions.  The terms are never negative, so no partial sum
   carries out of 128 bits when the whole sum does not.
   */
  function Fits128(sum: int): (r: int)
    requires U128(sum)
  {
    sum
  }

  /** The low 64 bits of a 128-bit word. */
  function Lo128(c: int): (r: int)
    requires U128(c)
    ensures U64(r)
  {
    c % TWO64
  }

  /** `shr128`: a 128-bit word shifted right into 64 bits; no set bit may be lost at the top. */
  function Shr128(c: int, pow: int): (r: int)
    requires U128(c) && pow > 0 && c / pow < TWO64
  {
    c / pow
  }

  /** Left shift of a 64-bit word by the exponent of `pow`; high bits fall off. */
  function Shl64(a: int, pow: int): (r: int)
    ensures U64(r)
    ensures U64(a * pow) ==> r == a * pow
  {
    (a * pow) % TWO64
  }

  /** The powers of two by which words are shifted before they are combined. */
  predicate Shift(pow: int) {
    || pow == 0x100 || pow == 0x1000 || pow == 0x2000 || pow == 0x1_0000
    || pow == 0x100_0000 || pow == 0x200_0000 || pow == 0x400_0000 || pow == 0x1_0000_0000
    || pow == 0x40_0000_0000 || pow == 0x80_0000_0000 || pow == 0x100_0000_0000 || pow == 0x1_0000_0000_0000
    || pow == 0x8_0000_0000_0000 || pow == 0x100_0000_0000_0000
  }

  function Pow2(n: nat): (r: nat)
    ensures r >= 1
  {
    if n == 0 then 1 else 2 * Pow2(n - 1)
  }

  lemma {:induction false} Pow2Add(a: nat, b: nat)
    ensures Pow2(a + b) == Pow2(a) * Pow2(b)
  {
    if a == 0 {
    } else {
      Pow2Add(a - 1, b);
      assert Pow2(a + b) == 2 * (Pow2(a - 1) * Pow2(b));
    }
  }

  lemma Pow2Sum(a: nat, b: nat, x: int, y: int)
    requires Pow2(a) == x && Pow2(b) == y
    ensures Pow2(a + b) == x * y
  {
    Pow2Add(a, b);
  }

  lemma ShiftPowers()
    ensures Pow2(8) == 0x100 && Pow2(12) == 0x1000 && Pow2(13) == 0x2000 && Pow2(16) == 0x1_0000
      && Pow2(24) == 0x100_0000
    ensures Pow2(25) == 0x200_0000 && Pow2(26) == 0x400_0000 && Pow2(32) == 0x1_0000_0000 && Pow2(38) == 0x40_0000_0000
      && Pow2(39) == 0x80_0000_0000
    ensures Pow2(40) == 0x100_0000_0000 && Pow2(48) == 0x1_0000_0000_0000 && Pow2(51) == 0x8_0000_0000_0000
      && Pow2(56) == 0x100_0000_0000_0000
  {
    Pow2Sum(8, 4, 0x100, 0x10);
    Pow2Sum(12, 1, 0x1000, 0x2);
    Pow2Sum(8, 8, 0x100, 0x100);
    Pow2Sum(16, 8, 0x1_0000, 0x100);
    Pow2Sum(24, 1, 0x100_0000, 0x2);
    Pow2Sum(25, 1, 0x200_0000, 0x2);
    Pow2Sum(16, 16, 0x1_0000, 0x1_0000);
    Pow2Sum(26, 12, 0x400_0000, 0x1000);
    Pow2Sum(38, 1, 0x40_0000_0000, 0x2);
    Pow2Sum(32, 8, 0x1_0000_0000, 0x100);
    Pow2Sum(40, 8, 0x100_0000_0000, 0x100);
    Pow2Sum(39, 12, 0x80_0000_0000, 0x1000);
    Pow2Sum(48, 8, 0x1_0000_0000_0000, 0x100);
  }

  lemma ExponentOf(pow: int) returns (e: nat)
    requires Shift(pow)
    ensures Pow2(e) == pow
  {
    ShiftPowers();
    e := if pow == 0x100 then 8
         else if pow == 0x1000 then 12
         else if pow == 0x2000 then 13
         else if pow == 0x1_0000 then 16
         else if pow == 0x100_0000 then 24
         else if pow == 0x200_0000 then 25
         else if pow == 0x400_0000 then 26
         else if pow == 0x1_0000_0000 then 32
         else if pow == 0x40_0000_0000 then 38
         else if pow == 0x80_0000_0000 then 39
         else if pow == 0x100_0000_0000 then 40
         else if pow == 0x1_0000_0000_0000 then 48
         else if pow == 0x8_0000_0000_0000 then 51
         else 56;
  }

  function BitOr(a: nat, b: nat): nat
    decreases a + b
  {
    if a == 0 && b == 0 then 0 else (if a % 2 == 1 || b % 2 == 1 then 1 else 0) + 2 * BitOr(a / 2, b / 2)
  }

  lemma MulAtLeast(d: int, k: int)
    requires d > 0 && k >= 1
    ensures d * k >= d
  {
  }

  lemma RemainderUnique(x: int, d: int, q: int, r: int)
    requires d > 0 && 0 <= r < d && x == d * q + r
    ensures x / d == q && x % d == r
  {
    var q', r' := x / d, x % d;
    assert x == d * q' + r' && 0 <= r' < d;
    if q > q' {
      MulAtLeast(d, q - q');
    } else if q < q' {
      MulAtLeast(d, q' - q);
    }
  }

  lemma ModDouble(x: nat, h: nat)
    requires h > 0
    ensures x % (2 * h) == x % 2 + 2 * ((x / 2) % h)
  {
    var q, r := (x / 2) / h, (x / 2) % h;
    assert x == (2 * h) * q + (x % 2 + 2 * r) by {
      assert x / 2 == h * q + r;
      assert (2 * h) * q == 2 * (h * q);
    }
    RemainderUnique(x, 2 * h, q, x % 2 + 2 * r);
  }

  lemma {:induction false} OrZero(x: nat)
    ensures BitOr(0, x) == x
  {
    if x != 0 {
      OrZero(x / 2);
    }
  }

  lemma {:induction false} OrDisjoint(lo: nat, hi: nat, k: nat)
    requires lo < Pow2(k) && hi % Pow2(k) == 0
    ensures BitOr(lo, hi) == lo + hi
    decreases k
  {
    if k == 0 {
      OrZero(hi);
    } else {
      var h := Pow2(k - 1);
      ModDouble(hi, h);
      OrDisjoint(lo / 2, hi / 2, k - 1);
    }
  }

  lemma OrOfMultiple(lo: int, hi: int, pow: int, k: int)
    requires 0 <= lo < pow && 0 <= hi == pow * k && Shift(pow)
    ensures BitOr(lo, hi) == lo + hi
  {
    var e := ExponentOf(pow);
    RemainderUnique(hi, pow, k, 0);
    OrDisjoint(lo, hi, e);
  }

  /** Bitwise OR of two words that share no bit: `lo` lies below `pow`, `hi` is `k` times `pow`. */
  function Or(lo: int, hi: int, pow: int, ghost k: int): (r: int)
    requires 0 <= lo < pow && 0 <= hi == pow * k && Shift(pow)
    ensures r == lo + hi
  {
    OrOfMultiple(lo, hi, pow, k);
    BitOr(lo, hi)
  }

  lemma {:induction false} Pow2Monotonic(a: nat, b: nat)
    requires a <= b
    ensures Pow2(a) <= Pow2(b)
  {
    if a < b {
      Pow2Monotonic(a, b - 1);
    }
  }

  // Bitwise operations on naturals.  The rest of the model writes `x & (2^k - 1)` as `x % 2^k`;
  // AndLowMask is the licence for that.

  function BitAnd(a: nat, b: nat): nat {
    if a == 0 then 0 else (if a % 2 == 1 && b % 2 == 1 then 1 else 0) + 2 * BitAnd(a / 2, b / 2)
  }

  function BitXor(a: nat, b: nat): nat
    decreases a + b
  {
    if a == 0 && b == 0 then 0 else (if a % 2 != b % 2 then 1 else 0) + 2 * BitXor(a / 2, b / 2)
  }

  lemma DivMod(x: nat, d: nat)
    requires d > 0
    ensures x == d * (x / d) + x % d && 0 <= x % d < d && 0 <= x / d
  {
  }

  /** Right shift by the exponent of `pow`. */
  function Shr(x: nat, pow: nat): (r: nat)
    requires pow > 0
  {
    DivMod(x, pow);
    x / pow
  }

  lemma {:induction false} AndZero(x: nat)
    ensures BitAnd(x, 0) == 0
  {
    if x != 0 {
      AndZero(x / 2);
    }
  }

  lemma {:induction false} AndLowMaskAt(x: nat, k: nat, q: nat, lo: nat)
    requires x == Pow2(k) * q + lo && lo < Pow2(k)
    ensures BitAnd(x, Pow2(k) - 1) == lo
    decreases k
  {
    if k == 0 {
      AndZero(x);
    } else {
      var hq := Pow2(k - 1) * q;
      assert x == 2 * hq + lo;
      AndLowMaskAt(x / 2, k - 1, q, lo / 2);
    }
  }

  lemma AndLowMask(x: nat, k: nat)
    ensures BitAnd(x, Pow2(k) - 1) == x % Pow2(k)
  {
    DivMod(x, Pow2(k));
    AndLowMaskAt(x, k, x / Pow2(k), x % Pow2(k));
  }

  lemma XorParts(a: nat, b: nat)
    ensures BitXor(a, b) % 2 == (if a % 2 != b % 2 then 1 else 0) && BitXor(a, b) / 2 == BitXor(a / 2, b / 2)
  {
  }

  lemma AndParts(a: nat, b: nat)
    ensures BitAnd(a, b) % 2 == (if a % 2 == 1 && b % 2 == 1 then 1 else 0) && BitAnd(a, b) / 2 == BitAnd(a / 2, b / 2)
  {
  }

  lemma OrParts(a: nat, b: nat)
    ensures BitOr(a, b) % 2 == (if a % 2 == 1 || b % 2 == 1 then 1 else 0) && BitOr(a, b) / 2 == BitOr(a / 2, b / 2)
  {
  }

  lemma {:induction false} OrComm(a: nat, b: nat)
    ensures BitOr(a, b) == BitOr(b, a)
    decreases a + b
  {
    if a != 0 || b != 0 {
      OrComm(a / 2, b / 2);
    }
  }

  lemma {:induction false} XorCancel(r: nat, t: nat)
    ensures BitXor(r, BitXor(r, t)) == t
    decreases r + t
  {
    if r != 0 || t != 0 {
      XorCancel(r / 2, t / 2);
      XorParts(r, t);
      XorParts(r, BitXor(r, t));
    }
  }

  lemma {:induction false} XorBound(a: nat, b: nat, k: nat)
    requires a < Pow2(k) && b < Pow2(k)
    ensures BitXor(a, b) < Pow2(k)
    decreases k
  {
    if k > 0 {
      XorBound(a / 2, b / 2, k - 1);
    }
  }

  lemma {:induction false} XorZero(x: nat)
    ensures BitXor(x, 0) == x
  {
    if x != 0 {
      XorZero(x / 2);
    }
  }

  lemma {:induction false} XorOnes(x: nat, k: nat)
    requires x < Pow2(k)
    ensures BitXor(x, Pow2(k) - 1) == Pow2(k) - 1 - x
    decreases k
  {
    if k > 0 {
      XorOnes(x / 2, k - 1);
      var mask := Pow2(k) - 1;
      assert mask / 2 == Pow2(k - 1) - 1 && mask % 2 == 1;
    }
  }

  lemma {:induction false} XorIsZero(a: nat, b: nat)
    ensures BitXor(a, b) == 0 <==> a == b
    decreases a + b
  {
    if a != 0 || b != 0 {
      XorIsZero(a / 2, b / 2);
    }
  }

  lemma TwoTo32()
    ensures Pow2(32) == 0x1_0000_0000
  {
    assert Pow2(8) == 0x100;
    Pow2Add(8, 8);
    assert Pow2(16) == 0x1_0000;
    Pow2Add(16, 16);
  }

  lemma TwoTo64()
    ensures Pow2(64) == TWO64
  {
    TwoTo32();
    Pow2Add(32, 32);
  }

  /** The branch-free choice `r ^ (mask & (r ^ t))` with `mask = b - 1` on 64-bit words. */
  function MaskSelect(b: int, r: int, t: int): (s: int)
    requires U64(r) && U64(t) && (b == 0 || b == 1)
    ensures s == if b == 0 then t else r
  {
    var mask := Sub64(b, 1);
    assert b == 0 ==> BitAnd(BitXor(r, t), mask) == BitXor(r, t) by {
      TwoTo64();
      XorBound(r, t, 64);
      if b == 0 {
        AndLowMask(BitXor(r, t), 64);
        RemainderUnique(BitXor(r, t), Pow2(64), 0, BitXor(r, t));
      }
    }
    XorCancel(r, t);
    XorZero(r);
    AndZero(BitXor(r, t));
    BitXor(r, BitAnd(BitXor(r, t), mask))
  }

  lemma TwoTo56()
    ensures Pow2(56) == 0x100_0000_0000_0000
  {
    TwoTo32();
    assert Pow2(8) == 0x100;
    Pow2Add(8, 8);
    Pow2Add(16, 8);
    Pow2Add(24, 32);
  }

  lemma TwoTo255()
    ensures Pow2(255) == TWO255
  {
    TwoTo64();
    TwoTo56();
    Pow2Add(64, 64);
    Pow2Add(128, 64);
    Pow2Add(192, 56);
    Pow2Add(248, 7);
  }

  lemma MulMono(p: int, x: int, y: int)
    requires p >= 0 && x <= y
    ensures p * x <= p * y
  {
  }

  lemma MulBound(a: int, b: int, p: int, q: int)
    requires 0 <= a < p && 0 <= b < q
    ensures 0 <= a * b <= (p - 1) * (q - 1)
  {
    MulMono(b, 0, a);
    MulMono(b, a, p - 1);
    MulMono(p - 1, b, q - 1);
  }
}
