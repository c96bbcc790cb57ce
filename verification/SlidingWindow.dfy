/** contract256_slidingwindow_modm: recoding a scalar into sparse signed odd digits. */
module SlidingWindow {
  import opened Words
  import opened Modm
  import opened BatchScalar
  import opened Digits

  /** Largest digit of window size w: 2^(w-1) - 1. */
  function MaxDigit(w: nat): (m: int)
    requires w >= 1
  {
    Pow2(w - 1) - 1
  }

  predicate IsDigit(d: int, m: int) {
    d == 0 || (d % 2 == 1 && -m <= d <= m)
  }

  /** How large the part of the number from digit j up may be. */
  ghost function Cap(j: nat): (c: nat)
    requires j <= 256
  {
    if j == 256 then 0 else Pow2(255 - j)
  }

  /** Adding one to bits: ones turn to zeros up to the first zero, which turns to one. */
  function Increment(s: seq<int>): (t: seq<int>)
    ensures |t| == |s|
  {
    if s == [] then [] else if s[0] == 0 then [1] + s[1..] else [0] + Increment(s[1..])
  }

  lemma {:induction false} IncrementValue(s: seq<int>)
    requires Bits(s) && Eval(s) + 1 < Pow2(|s|)
    ensures Bits(Increment(s)) && Eval(Increment(s)) == Eval(s) + 1
  {
    if s[0] == 0 {
      assert ([1] + s[1..])[1..] == s[1..];
    } else {
      IncrementValue(s[1..]);
      assert ([0] + Increment(s[1..]))[1..] == Increment(s[1..]);
    }
  }

  lemma {:induction false} IncrementAt(s: seq<int>, n: nat)
    requires n <= |s| && forall k :: 0 <= k < n ==> s[k] == 1
    ensures forall k :: 0 <= k < n ==> Increment(s)[k] == 0
    ensures n < |s| && s[n] == 0 ==> Increment(s)[n] == 1 && Increment(s)[n + 1..] == s[n + 1..]
  {
    if n > 0 {
      IncrementAt(s[1..], n - 1);
      assert Increment(s) == [0] + Increment(s[1..]);
    }
  }

  /** The carry loop: add one at position p. */
  method CarryFrom(r: array<int>, p: nat)
    requires r.Length == 256 && p < 256 && Bits(r[p..])
    modifies r
    ensures r[..p] == old(r[..p]) && r[p..] == Increment(old(r[p..]))
  {
    ghost var s := r[p..];
    var k := p;
    while k < 256
      invariant p <= k <= 256
      invariant r[..p] == old(r[..p]) && r[k..] == old(r[k..])
      invariant forall t :: p <= t < k ==> r[t] == 0
      invariant forall u :: 0 <= u < k - p ==> s[u] == 1
    {
      if r[k] == 0 {
        IncrementAt(s, k - p);
        r[k] := 1;
        assert r[p..] == Increment(s) by {
          forall t | 0 <= t < |s| ensures r[p..][t] == Increment(s)[t] {
            if t > k - p {
              assert Increment(s)[t] == Increment(s)[k - p + 1..][t - (k - p + 1)] == s[k - p + 1..][t - (k - p + 1)];
              assert r[p + t] == old(r[p + t]);
            }
          }
        }
        return;
      }
      r[k] := 0;
      k := k + 1;
    }
    IncrementAt(s, 256 - p);
    assert r[p..] == Increment(s);
  }

  /**
   While digit j absorbs its neighbours, at distance b: the digit d, zeros in between, and the bits
   W from j + b on.  Their value is what it was, and leaves room for a carry.
   */
  ghost predicate Absorbing(d: int, bits: seq<int>, j: nat, b: nat, w: nat, u: int)
    requires 2 <= w && j + b <= 256
  {
    && |bits| == 256 - j - b && Bits(bits)
    && u == d + Pow2(b) * Eval(bits)
    && d % 2 == 1 && -MaxDigit(w) <= d <= MaxDigit(w)
    && (b < w ==> 1 <= d < Pow2(b))
    && (d > 0 ==> u <= Cap(j))
    && (d < 0 ==> Pow2(b) * Eval(bits) <= Cap(j))
  }

  lemma AbsorbStart(bits: seq<int>, j: nat, w: nat, u: int)
    requires 2 <= w && j < 256 && |bits| == 255 - j && Bits(bits) && u == 1 + 2 * Eval(bits) && u <= Cap(j)
    ensures Absorbing(1, bits, j, 1, w, u)
  {
    Pow2Monotonic(1, w - 1);
    assert Pow2(1) == 2;
  }

  lemma Distribute(p: int, e: int)
    ensures p * (1 + 2 * e) == p + 2 * p * e
    ensures p * (2 * e) == 2 * p * e
  {
  }

  /** A zero neighbour is skipped. */
  lemma AbsorbZero(d: int, bits: seq<int>, j: nat, b: nat, w: nat, u: int)
    requires 2 <= w && 1 <= b && j + b < 256 && Absorbing(d, bits, j, b, w, u) && bits[0] == 0
    ensures Absorbing(d, bits[1..], j, b + 1, w, u)
  {
    assert Eval(bits) == 2 * Eval(bits[1..]) && Pow2(b + 1) == 2 * Pow2(b);
    Distribute(Pow2(b), Eval(bits[1..]));
  }

  /** Pow2(b) against the digit bound, by the place of b relative to w. */
  lemma WindowPowers(b: nat, w: nat)
    requires 2 <= w && 1 <= b
    ensures b + 1 < w ==> 2 * Pow2(b) <= Pow2(w - 1)
    ensures b + 1 == w ==> Pow2(b) == Pow2(w - 1)
    ensures b >= w ==> Pow2(b) >= 2 * Pow2(w - 1)
    ensures Pow2(b) % 2 == 0
  {
    if b + 1 < w {
      Pow2Monotonic(b + 1, w - 1);
    } else if b >= w {
      Pow2Monotonic(w, b);
    }
  }

  lemma OddPlusEven(d: int, p: int)
    requires d % 2 == 1 && p % 2 == 0
    ensures (d + p) % 2 == 1
  {
  }

  /** A set neighbour is added while the sum stays a digit. */
  lemma AbsorbAdd(d: int, bits: seq<int>, j: nat, b: nat, w: nat, u: int)
    requires 2 <= w && 1 <= b && j + b < 256 && Absorbing(d, bits, j, b, w, u) && bits[0] == 1
      && d + Pow2(b) <= MaxDigit(w)
    ensures b + 1 < w && Absorbing(d + Pow2(b), bits[1..], j, b + 1, w, u)
  {
    WindowPowers(b, w);
    Distribute(Pow2(b), Eval(bits[1..]));
    OddPlusEven(d, Pow2(b));
    assert Pow2(b + 1) == 2 * Pow2(b);
  }

  /** d + p e <= p c with d > 0 leaves room for one more. */
  lemma RoomForOne(d: int, p: int, e: int, c: int)
    requires d > 0 && p > 0 && d + p * e <= p * c
    ensures e + 1 <= c && p * (e + 1) <= p * c
  {
    if e >= c {
      MulMono(p, c, e);
    }
    MulMono(p, e + 1, c);
  }

  lemma OddMinusEven(d: int, p: int)
    requires d % 2 == 1 && p % 2 == 0
    ensures (d - p) % 2 == 1
  {
  }

  lemma AfterCarry(d: int, p: int, e: int, f: int)
    requires e + 1 == 2 * f
    ensures d + p * e == (d - p) + 2 * p * f
    ensures p * (e + 1) == 2 * p * f
  {
    assert p * (e + 1) == p * e + p;
    assert p * (2 * f) == 2 * p * f;
  }

  /** Otherwise it is subtracted, and the bits from there on go up by one. */
  lemma AbsorbSubtract(d: int, bits: seq<int>, j: nat, b: nat, w: nat, u: int)
    requires 2 <= w && 1 <= b && j + b < 256 && Absorbing(d, bits, j, b, w, u) && bits[0] == 1
    requires d + Pow2(b) > MaxDigit(w) && d - Pow2(b) >= -MaxDigit(w)
    ensures b == w - 1
    ensures Absorbing(d - Pow2(b), Increment(bits)[1..], j, b + 1, w, u) && Increment(bits)[0] == 0
  {
    WindowPowers(b, w);
    var p, e, c := Pow2(b), Eval(bits), Pow2(255 - j - b);
    Pow2Add(b, 255 - j - b);
    RoomForOne(d, p, e, c);
    IncrementValue(bits);
    var t := Increment(bits);
    assert t == [0] + Increment(bits[1..]) && t[1..] == Increment(bits[1..]);
    Distribute(p, Eval(t[1..]));
    AfterCarry(d, p, e, Eval(t[1..]));
    assert Pow2(b + 1) == 2 * p;
    OddMinusEven(d, p);
    assert Cap(j) == p * c;
  }

  /** Or it ends the window. */
  lemma AbsorbStop(d: int, bits: seq<int>, j: nat, b: nat, w: nat, u: int)
    requires 2 <= w && 1 <= b && j + b < 256 && Absorbing(d, bits, j, b, w, u) && bits[0] == 1
    requires d + Pow2(b) > MaxDigit(w) && d - Pow2(b) < -MaxDigit(w)
    ensures b >= w
  {
    WindowPowers(b, w);
  }

  /** Digits below j are final: zero or odd and small, each nonzero one followed by w - 1 zeros. */
  ghost predicate Recoded(r: seq<int>, j: nat, w: nat)
    requires j <= |r| && w >= 1
  {
    && (forall k :: 0 <= k < j ==> IsDigit(r[k], MaxDigit(w)))
    && (forall k, t :: 0 <= k < j && r[k] != 0 && k < t < k + w && t < |r| ==> r[t] == 0)
  }

  /** `bit << b` */
  function Shifted(bit: int, b: nat): (x: int)
    ensures bit == 0 ==> x == 0
    ensures bit == 1 ==> x == Pow2(b)
  {
    bit * Pow2(b)
  }

  /** The three cases of one neighbour, together. */
  lemma AbsorbCases(d: int, bits: seq<int>, j: nat, b: nat, w: nat, u: int, x: int) returns (d': int, rest: seq<int>)
    requires 2 <= w && 1 <= b && j + b < 256 && Absorbing(d, bits, j, b, w, u) && x == Shifted(bits[0], b)
    ensures d + x <= MaxDigit(w) ==> d' == d + x && rest == bits[1..] && Absorbing(d', rest, j, b + 1, w, u)
    ensures d + x > MaxDigit(w) ==> bits[0] == 1
    ensures d + x > MaxDigit(w) && d - x >= -MaxDigit(w) ==>
      d' == d - x && Increment(bits)[0] == 0 && rest == Increment(bits)[1..] && Absorbing(d', rest, j, b + 1, w, u)
    ensures d + x > MaxDigit(w) && d - x < -MaxDigit(w) ==> b >= w
  {
    if bits[0] == 0 {
      AbsorbZero(d, bits, j, b, w, u);
      d', rest := d, bits[1..];
    } else if d + x <= MaxDigit(w) {
      AbsorbAdd(d, bits, j, b, w, u);
      d', rest := d + x, bits[1..];
    } else if d - x >= -MaxDigit(w) {
      AbsorbSubtract(d, bits, j, b, w, u);
      d', rest := d - x, Increment(bits)[1..];
    } else {
      AbsorbStop(d, bits, j, b, w, u);
      d', rest := 0, [];
    }
  }

  /** One neighbour: added, subtracted with a carry, or the end of the window. */
  method AbsorbOne(r: array<int>, j: nat, b: nat, m: int, w: nat, ghost u: int) returns (stop: bool)
    requires r.Length == 256 && 1 <= b && j + b < 256 && 2 <= w && m == MaxDigit(w)
    requires (forall t :: j < t < j + b ==> r[t] == 0) && Absorbing(r[j], r[j + b..], j, b, w, u)
    modifies r
    ensures r[..j] == old(r[..j])
    ensures stop ==> b >= w && r[..] == old(r[..])
    ensures !stop ==> (forall t :: j < t < j + b + 1 ==> r[t] == 0) && Absorbing(r[j], r[j + b + 1..], j, b + 1, w, u)
  {
    ghost var d, bits := r[j], r[j + b..];
    var x := Shifted(r[j + b], b);
    ghost var d', rest := AbsorbCases(d, bits, j, b, w, u, x);
    if r[j] + x <= m {
      r[j] := r[j] + x;
      r[j + b] := 0;
      assert r[j + b + 1..] == rest;
    } else if r[j] - x >= -m {
      r[j] := r[j] - x;
      assert r[j + b..] == bits;
      CarryFrom(r, j + b);
      assert r[j + b + 1..] == rest;
    } else if r[j + b] != 0 {
      return true;
    }
    return false;
  }

  lemma AbsorbEnd(r: seq<int>, j: nat, b: nat, w: nat, u: int)
    requires |r| == 256 && j < 256 && 1 <= b && j + b <= 256 && 2 <= w
    requires (forall t :: j < t < j + b ==> r[t] == 0) && Absorbing(r[j], r[j + b..], j, b, w, u)
    ensures Bits(r[j + 1..]) && 0 <= Eval(r[j + 1..]) <= Cap(j + 1) && Eval(r[j..]) == u
  {
    EvalRun(r, j, b);
    var t := r[j + 1..];
    forall k | 0 <= k < |t| ensures t[k] == 0 || t[k] == 1 {
      if k >= b - 1 {
        assert t[k] == r[j + b..][k - (b - 1)];
      }
    }
    BitsBound(r[j + 1..]);
    assert r[j..][1..] == r[j + 1..];
    // u - r[j] = 2 Eval(r[j + 1..]) = Pow2(b) Eval(r[j + b..])
    if j == 255 {
      assert r[256..] == [];
    }
  }

  /** Digit j absorbs what it can of the next six bits. */
  method AbsorbFrom(r: array<int>, j: nat, w: nat)
    requires r.Length == 256 && j < 256 && 2 <= w <= 7
    requires r[j] == 1 && Bits(r[j..]) && Eval(r[j..]) <= Cap(j)
    modifies r
    ensures r[..j] == old(r[..j])
    ensures IsDigit(r[j], MaxDigit(w)) && (forall t :: j < t < j + w && t < 256 ==> r[t] == 0)
    ensures Bits(r[j + 1..]) && 0 <= Eval(r[j + 1..]) <= Cap(j + 1)
    ensures Eval(r[j..]) == old(Eval(r[j..]))
  {
    ghost var u := Eval(r[j..]);
    var m := MaxDigit(w);
    assert r[j..][1..] == r[j + 1..];
    AbsorbStart(r[j + 1..], j, w, u);
    var b := 1;
    while b < 256 - j && b <= 6
      invariant 1 <= b <= 7 && j + b <= 256
      invariant r[..j] == old(r[..j]) && (forall t :: j < t < j + b ==> r[t] == 0)
      invariant Absorbing(r[j], r[j + b..], j, b, w, u)
    {
      var stop := AbsorbOne(r, j, b, m, w, u);
      if stop {
        break;
      }
      b := b + 1;
    }
    AbsorbEnd(r[..], j, b, w, u);
  }

  /** The n low binary digits of v. */
  function BitsOf(v: nat, n: nat): (s: seq<int>)
    ensures |s| == n
  {
    if n == 0 then [] else [v % 2] + BitsOf(v / 2, n - 1)
  }

  lemma {:induction false} BitsOfValue(v: nat, n: nat)
    requires v < Pow2(n)
    ensures Bits(BitsOf(v, n)) && Eval(BitsOf(v, n)) == v
    decreases n
  {
    if n > 0 {
      BitsOfValue(v / 2, n - 1);
      assert BitsOf(v, n)[1..] == BitsOf(v / 2, n - 1);
    }
  }

  /** The inner loop of the expansion, from position pos on. */
  method PutBits(r: array<int>, pos: nat, v: nat, n: nat)
    requires pos + n <= r.Length
    modifies r
    ensures r[..pos] == old(r[..pos]) && r[pos..pos + n] == BitsOf(v, n)
  {
    var x: nat := v;
    for j := 0 to n
      invariant r[..pos] == old(r[..pos])
      invariant r[pos..pos + j] + BitsOf(x, n - j) == BitsOf(v, n)
    {
      ghost var done := r[pos..pos + j];
      r[pos + j] := x % 2;
      assert r[pos..pos + j + 1] == done + [x % 2];
      assert done + [x % 2] + BitsOf(x / 2, n - j - 1) == done + BitsOf(x, n - j);
      x := x / 2;
    }
  }

  lemma {:induction false} LimbPower(i: nat)
    ensures Pow2(56 * i) == PowB(i)
  {
    if i == 0 {
      assert Pow2(0) == 1;
    } else {
      LimbPower(i - 1);
      TwoTo56();
      Pow2Add(56, 56 * (i - 1));
    }
  }

  lemma ExpandLimb(done: seq<int>, s: seq<int>, i: nat, n: nat)
    requires i < |s| && |done| == 56 * i && Bits(done) && Eval(done) == Low(s, i) && 0 <= s[i] < Pow2(n)
    ensures Bits(done + BitsOf(s[i], n)) && Eval(done + BitsOf(s[i], n)) == Low(s, i + 1)
  {
    BitsOfValue(s[i], n);
    EvalConcat(done, BitsOf(s[i], n));
    LimbPower(i);
  }

  lemma FullLimb(s: seq<int>, i: nat)
    requires Limbs(s, 0x1_0000_0000) && i < 4
    ensures 0 <= s[i] < Pow2(56)
  {
    TwoTo56();
  }

  /** The 56 digits of limb i, behind those of the limbs below it. */
  method PutLimb(r: array<int>, s: seq<int>, i: nat, ghost done: seq<int>) returns (ghost next: seq<int>)
    requires r.Length == 256 && Limbs(s, 0x1_0000_0000) && i < 4
    requires |done| == 56 * i && r[..56 * i] == done && Bits(done) && Eval(done) == Low(s, i)
    modifies r
    ensures |next| == 56 * (i + 1) && r[..56 * (i + 1)] == next && Bits(next) && Eval(next) == Low(s, i + 1)
  {
    PutBits(r, 56 * i, s[i], 56);
    next := done + BitsOf(s[i], 56);
    assert r[..56 * i + 56] == next;
    FullLimb(s, i);
    ExpandLimb(done, s, i, 56);
  }

  lemma LastLimb(done: seq<int>, s: seq<int>)
    requires Limbs(s, 0x1_0000_0000) && |done| == 224 && Bits(done) && Eval(done) == Low(s, 4)
    ensures Bits(done + BitsOf(s[4], 32)) && Eval(done + BitsOf(s[4], 32)) == Val(s)
  {
    TwoTo32();
    ExpandLimb(done, s, 4, 32);
    LowIsVal(s);
  }

  /** The binary expansion of the scalar: 56 digits from each of four limbs, 32 from the last. */
  method BinaryExpansion(r: array<int>, s: seq<int>)
    requires r.Length == 256 && Limbs(s, 0x1_0000_0000)
    modifies r
    ensures Bits(r[..]) && Eval(r[..]) == Val(s)
  {
    ghost var done := [];
    for i := 0 to 4
      invariant |done| == 56 * i && r[..56 * i] == done && Bits(done) && Eval(done) == Low(s, i)
    {
      done := PutLimb(r, s, i, done);
    }
    PutBits(r, 224, s[4], 32);
    assert r[..] == done + BitsOf(s[4], 32);
    LastLimb(done, s);
  }

  lemma StartsBelowCap(s: seq<int>)
    requires |s| == 256 && Bits(s) && Eval(s) < TWO255
    ensures 0 <= Eval(s) <= Cap(0)
  {
    BitsBound(s);
    TwoTo255();
  }

  lemma SameTotal(a: seq<int>, b: seq<int>, j: nat)
    requires j <= |a| == |b| && a[..j] == b[..j] && Eval(a[j..]) == Eval(b[j..])
    ensures Eval(a) == Eval(b)
  {
    EvalSplit(a, j);
    EvalSplit(b, j);
  }

  lemma BitsTail(s: seq<int>)
    requires s != [] && Bits(s)
    ensures Bits(s[1..]) && 0 <= Eval(s[1..])
  {
    BitsBound(s[1..]);
  }

  lemma HalveCap(j: nat, e: int)
    requires j < 256 && 2 * e <= Cap(j)
    ensures e <= Cap(j + 1)
  {
  }

  lemma RecodedNext(before: seq<int>, r: seq<int>, j: nat, w: nat)
    requires |before| == |r| == 256 && j < 256 && w >= 1 && Recoded(before, j, w) && before[j] != 0
    requires r[..j] == before[..j] && IsDigit(r[j], MaxDigit(w))
    requires forall t :: j < t < j + w && t < 256 ==> r[t] == 0
    ensures Recoded(r, j + 1, w)
  {
    forall k, t | 0 <= k < j + 1 && r[k] != 0 && k < t < k + w && t < |r| ensures r[t] == 0 {
      if k < j {
        assert r[k] == r[..j][k] == before[..j][k] == before[k];
        assert before[t] == 0;
        if t < j {
          assert r[t] == r[..j][t] == before[..j][t] == before[t];
        }
      }
    }
    forall k | 0 <= k < j ensures IsDigit(r[k], MaxDigit(w)) {
      assert r[k] == r[..j][k] == before[..j][k] == before[k];
    }
  }

  method RecodeDigit(r: array<int>, j: nat, w: nat)
    requires r.Length == 256 && j < 256 && 2 <= w <= 7
    requires Recoded(r[..], j, w) && Bits(r[j..]) && 0 <= Eval(r[j..]) <= Cap(j)
    modifies r
    ensures Recoded(r[..], j + 1, w) && Bits(r[j + 1..]) && 0 <= Eval(r[j + 1..]) <= Cap(j + 1)
    ensures Eval(r[..]) == old(Eval(r[..]))
  {
    ghost var before := r[..];
    assert r[j..][1..] == r[j + 1..] && r[j..][0] == r[j];
    if r[j] == 0 {
      HalveCap(j, Eval(r[j + 1..]));
      BitsTail(r[j..]);
    } else {
      AbsorbFrom(r, j, w);
      SameTotal(before, r[..], j);
      RecodedNext(before, r[..], j, w);
    }
  }

  /**
   The sliding-window recoding.  For every scalar below 2^255 the digits are a width-w
   non-adjacent form of it: same value, odd digits of absolute value below 2^(w-1), and no two
   nonzero digits within w places.
   */
  method Contract256SlidingWindow(r: array<int>, s: seq<int>, w: nat)
    requires r.Length == 256 && Limbs(s, 0x1_0000_0000) && Val(s) < TWO255 && 2 <= w <= 7
    modifies r
    ensures Recoded(r[..], 256, w) && Eval(r[..]) == Val(s)
  {
    BinaryExpansion(r, s);
    StartsBelowCap(r[..]);
    assert r[..] == r[0..];
    for j := 0 to 256
      invariant Recoded(r[..], j, w) && Bits(r[j..]) && 0 <= Eval(r[j..]) <= Cap(j)
      invariant Eval(r[..]) == Val(s)
    {
      RecodeDigit(r, j, w);
    }
  }
}
