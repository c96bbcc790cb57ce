/**
 The scalar helpers of batch verification (modm-donna-64bit.h): comparisons and a subtraction
 that look only at the limbs 0..limbsize.
 */
module BatchScalar {
  import opened Words
  import opened Modm

  /** B^n for the limb positions in use. */
  function PowB(n: nat): (r: nat)
    ensures r >= 1
  {
    if n == 0 then 1 else B * PowB(n - 1)
  }

  /** The value of the n lowest limbs. */
  function Low(a: seq<int>, n: nat): int
    requires n <= |a|
  {
    if n == 0 then 0 else Low(a, n - 1) + PowB(n - 1) * a[n - 1]
  }

  lemma LowIsVal(a: seq<int>)
    requires |a| == 5
    ensures Low(a, 5) == Val(a)
  {
    assert PowB(1) == B && PowB(2) == B2 && PowB(3) == B3 && PowB(4) == B4;
    assert Low(a, 1) == a[0];
    assert Low(a, 2) == a[0] + B * a[1];
    assert Low(a, 3) == a[0] + B * a[1] + B2 * a[2];
    assert Low(a, 4) == a[0] + B * a[1] + B2 * a[2] + B3 * a[3];
  }

  /** All limbs from position n up vanish. */
  predicate ZeroFrom(a: seq<int>, n: nat) {
    forall k :: n <= k < |a| ==> a[k] == 0
  }

  lemma {:induction false} ZeroFromVal(a: seq<int>, n: nat)
    requires n <= |a| && ZeroFrom(a, n)
    ensures Low(a, |a|) == Low(a, n)
    decreases |a| - n
  {
    if n < |a| {
      ZeroFromVal(a, n + 1);
      assert PowB(n) * 0 == 0;
    }
  }

  /** A truncated view loses nothing when the limbs it skips are zero. */
  lemma TruncatedIsFull(a: seq<int>, n: nat)
    requires |a| == 5 && n <= 5 && ZeroFrom(a, n)
    ensures Low(a, n) == Val(a)
  {
    ZeroFromVal(a, n);
    LowIsVal(a);
  }

  lemma DigitBound(low: int, p: int, d: int)
    requires 0 <= low < p && 0 <= d < B
    ensures 0 <= low + p * d < B * p
  {
    MulMono(p, d, B - 1);
    MulMono(p, 0, d);
  }

  lemma {:induction false} LowBound(a: seq<int>, n: nat)
    requires Limbs(a, B) && n <= 5
    ensures 0 <= Low(a, n) < PowB(n)
  {
    if n > 0 {
      LowBound(a, n - 1);
      DigitBound(Low(a, n - 1), PowB(n - 1), a[n - 1]);
    }
  }

  /** Limb i of a - b with the borrow: the difference of the i lowest limbs, made non-negative. */
  ghost function Diff(a: seq<int>, b: seq<int>, i: nat, carry: int): int
    requires i <= |a| && i <= |b|
  {
    Low(a, i) - Low(b, i) + PowB(i) * carry
  }

  lemma BorrowDigit(x: int, y: int, carry: int, t: int, c: int)
    requires 0 <= x < B && 0 <= y < B && 0 <= carry <= 1
    requires t == Sub64(Sub64(x, y), carry) && c == Top64(t)
    ensures t % B == x - y - carry + B * c && (c == 0 || c == 1)
    ensures c == 0 ==> t == t % B
  {
    var d := x - y - carry;
    if d < 0 {
      assert t == d + TWO64;
      RemainderUnique(t, B, 0xff, d + B);
    } else {
      assert t == d;
      RemainderUnique(t, B, 0, d);
    }
  }

  lemma DiffStep(la: int, lb: int, p: int, x: int, y: int, carry: int, c: int, d: int)
    requires 0 <= la - lb + p * carry < p && 0 <= d < B && d == x - y - carry + B * c
    ensures (la + p * x) - (lb + p * y) + B * p * c == (la - lb + p * carry) + p * d
    ensures 0 <= (la - lb + p * carry) + p * d < B * p
  {
    assert p * d == p * x - p * y - p * carry + p * (B * c);
    assert p * (B * c) == B * p * c;
    DigitBound(la - lb + p * carry, p, d);
  }

  /** One case of the switch: `t = (a[i] - b[i]) - carry; carry = t >> 63`. */
  method BorrowStep(a: seq<int>, b: seq<int>, i: nat, carry: int) returns (t: int, c: int)
    requires Limbs(a, B) && Limbs(b, B) && i < 5 && 0 <= carry <= 1
    requires 0 <= Diff(a, b, i, carry) < PowB(i)
    ensures 0 <= c <= 1 && U64(t)
    ensures 0 <= Diff(a, b, i + 1, c) < PowB(i + 1)
    ensures Diff(a, b, i + 1, c) == Diff(a, b, i, carry) + PowB(i) * (t % B)
    ensures c == 0 ==> t == t % B
  {
    t := Sub64(Sub64(a[i], b[i]), carry);
    c := Top64(t);
    BorrowDigit(a[i], b[i], carry, t, c);
    DiffStep(Low(a, i), Low(b, i), PowB(i), a[i], b[i], carry, c, t % B);
  }

  lemma SignOf(d: int, p: int, c: int)
    requires 0 <= c <= 1 && 0 <= d + p * c < p
    ensures c == 1 <==> d < 0
  {
  }

  /** The final borrow decides the comparison. */
  lemma BorrowDecides(a: seq<int>, b: seq<int>, n: nat, c: int)
    requires n <= |a| && n <= |b| && 0 <= c <= 1 && 0 <= Diff(a, b, n, c) < PowB(n)
    ensures c == 1 <==> Low(a, n) < Low(b, n)
  {
    SignOf(Low(a, n) - Low(b, n), PowB(n), c);
  }

  // The C code is a switch whose cases fall through: one step for each limb 0..limbsize, which
  // the model writes as a loop.

  /** Is a < b, by the limbs 0..limbsize? */
  method Lt256Batch(a: seq<int>, b: seq<int>, limbsize: nat) returns (lt: bool)
    requires Limbs(a, B) && Limbs(b, B) && limbsize <= 4
    ensures lt <==> Low(a, limbsize + 1) < Low(b, limbsize + 1)
  {
    var t, carry := 0, 0;
    for i := 0 to limbsize + 1
      invariant 0 <= carry <= 1 && 0 <= Diff(a, b, i, carry) < PowB(i)
    {
      t, carry := BorrowStep(a, b, i, carry);
    }
    BorrowDecides(a, b, limbsize + 1, carry);
    lt := carry == 1;
  }

  /** Is a <= b, by the limbs 0..limbsize? */
  method Lte256Batch(a: seq<int>, b: seq<int>, limbsize: nat) returns (lte: bool)
    requires Limbs(a, B) && Limbs(b, B) && limbsize <= 4
    ensures lte <==> Low(a, limbsize + 1) <= Low(b, limbsize + 1)
  {
    var t, carry := 0, 0;
    for i := 0 to limbsize + 1
      invariant 0 <= carry <= 1 && 0 <= Diff(b, a, i, carry) < PowB(i)
    {
      t, carry := BorrowStep(b, a, i, carry);
    }
    BorrowDecides(b, a, limbsize + 1, carry);
    lte := carry != 1;
  }

  lemma {:induction false} LowUpdate(s: seq<int>, i: nat, v: int, n: nat)
    requires n <= i < |s|
    ensures Low(s[i := v], n) == Low(s, n)
  {
    if n > 0 {
      LowUpdate(s, i, v, n - 1);
    }
  }

  /** A masked limb of the subtraction, `out[i] = t & 0xffffffffffffff`. */
  method SubStep(out: seq<int>, a: seq<int>, b: seq<int>, i: nat, carry: int) returns (r: seq<int>, c: int)
    requires Limbs(out, B) && Limbs(a, B) && Limbs(b, B) && i < 5 && 0 <= carry <= 1
    requires 0 <= Diff(a, b, i, carry) < PowB(i) && Low(out, i) == Diff(a, b, i, carry)
    ensures Limbs(r, B) && 0 <= c <= 1
    ensures 0 <= Diff(a, b, i + 1, c) < PowB(i + 1) && Low(r, i + 1) == Diff(a, b, i + 1, c)
    ensures r[i + 1..] == out[i + 1..]
  {
    var t;
    t, c := BorrowStep(a, b, i, carry);
    r := out[i := t % B];
    LowUpdate(out, i, t % B, i);
  }

  /** out = a - b on the limbs 0..limbsize, for a >= b there; the top limb in use is not masked. */
  method Sub256Batch(out: seq<int>, a: seq<int>, b: seq<int>, limbsize: nat) returns (r: seq<int>)
    requires Limbs(out, B) && Limbs(a, B) && Limbs(b, B) && limbsize <= 4
    requires Low(b, limbsize + 1) <= Low(a, limbsize + 1)
    ensures Limbs(r, B) && Low(r, limbsize + 1) == Low(a, limbsize + 1) - Low(b, limbsize + 1)
    ensures r[limbsize + 1..] == out[limbsize + 1..]
  {
    var carry := 0;
    r := out;
    for i := 0 to limbsize
      invariant Limbs(r, B) && 0 <= carry <= 1
      invariant 0 <= Diff(a, b, i, carry) < PowB(i) && Low(r, i) == Diff(a, b, i, carry)
      invariant r[i..] == out[i..]
    {
      r, carry := SubStep(r, a, b, i, carry);
    }
    var t, c := BorrowStep(a, b, limbsize, carry);
    BorrowDecides(a, b, limbsize + 1, c);
    LowUpdate(r, limbsize, t, limbsize);
    r := r[limbsize := t];
  }

  predicate ZeroTo(a: seq<int>, n: nat) {
    forall k :: 0 <= k < n && k < |a| ==> a[k] == 0
  }

  lemma LimbsZero(a: seq<int>)
    requires Limbs(a, B)
    ensures Val(a) == 0 <==> ZeroTo(a, 5)
  {
  }

  /** Is a zero?  The loop stops at the first set limb. */
  method IsZero256Batch(a: seq<int>) returns (z: bool)
    requires Limbs(a, B)
    ensures z <==> Val(a) == 0
  {
    for i := 0 to 5
      invariant ZeroTo(a, i)
    {
      if a[i] != 0 {
        LimbsZero(a);
        return false;
      }
    }
    return true;
  }

  lemma LimbsOne(a: seq<int>)
    requires Limbs(a, B)
    ensures Val(a) == 1 <==> forall k :: 0 <= k < 5 ==> a[k] == if k == 0 then 1 else 0
  {
  }

  /** Is a one? */
  method IsOne256Batch(a: seq<int>) returns (one: bool)
    requires Limbs(a, B)
    ensures one <==> Val(a) == 1
  {
    for i := 0 to 5
      invariant forall k :: 0 <= k < i ==> a[k] == if k == 0 then 1 else 0
    {
      if a[i] != (if i != 0 then 0 else 1) {
        LimbsOne(a);
        return false;
      }
    }
    return true;
  }

  /** Do 128 bits hold a?  `(a[4] | a[3] | (a[2] & 0xffffffffff0000)) == 0` */
  predicate IsAtMost128Bits(a: seq<int>)
    requires |a| == 5
  {
    a[4] == 0 && a[3] == 0 && a[2] - a[2] % 0x1_0000 == 0
  }

  lemma AtMost128Bits(a: seq<int>)
    requires Limbs(a, B)
    ensures IsAtMost128Bits(a) <==> Val(a) < TWO128
  {
  }
}
