/**
 The last step of the multi-scalar multiplication: a double-and-add ladder over the one scalar
 that is left (ge25519_multi_scalarmult_vartime_final), and the verdict drawn from it.
 */
module Ladder {
  import opened Words
  import opened Modm
  import opened BatchScalar
  import opened AbelianGroup

  /** The number of binary digits of n. */
  function BitLength(n: nat): (l: nat) {
    if n == 0 then 0 else 1 + BitLength(n / 2)
  }

  lemma {:induction false} BitLengthUnique(n: nat, l: nat)
    requires l > 0 && Pow2(l - 1) <= n < Pow2(l)
    ensures BitLength(n) == l
  {
    if l > 1 {
      BitLengthUnique(n / 2, l - 1);
    }
  }

  lemma DivDiv(x: nat, h: nat)
    requires h > 0
    ensures x / (2 * h) == (x / 2) / h
  {
    var q, r := (x / 2) / h, (x / 2) % h;
    DivMod(x / 2, h);
    assert (2 * h) * q == 2 * (h * q);
    RemainderUnique(x, 2 * h, q, 2 * r + x % 2);
  }

  /** `x & flag` for a one-bit flag tests the binary digit at its place. */
  lemma {:induction false} AndBit(x: nat, e: nat)
    ensures BitAnd(x, Pow2(e)) != 0 <==> (x / Pow2(e)) % 2 == 1
    decreases e
  {
    if e == 0 {
      AndZero(x / 2);
    } else if x != 0 {
      AndBit(x / 2, e - 1);
      DivDiv(x, Pow2(e - 1));
    }
  }

  /** Taking one more binary digit off the low end. */
  lemma DigitOff(x: nat, e: nat)
    ensures x % Pow2(e + 1) == Pow2(e) * ((x / Pow2(e)) % 2) + x % Pow2(e)
  {
    var h := Pow2(e);
    DivMod(x, h);
    var q, r := x / h, x % h;
    var d := q % 2;
    assert h * q == (2 * h) * (q / 2) + h * d by {
      assert q == 2 * (q / 2) + d;
      assert h * (2 * (q / 2)) == (2 * h) * (q / 2);
    }
    RemainderUnique(x, 2 * h, q / 2, h * d + r);
  }

  /**
   The value of the binary digits above the ones still to come: x = (hi 2^(e+1) + low digits of
   limb) B^limb + lower limbs.
   */
  ghost predicate Split(scalar: seq<int>, limb: nat, e: int, hi: int)
    requires |scalar| == 5 && limb < 4 && -1 <= e < 56 && scalar[limb] >= 0
  {
    Low(scalar, 4) == (hi * Pow2(e + 1) + scalar[limb] % Pow2(e + 1)) * PowB(limb) + Low(scalar, limb)
  }

  lemma Regroup(hi: int, h: int, d: int, m: int)
    ensures hi * (2 * h) + (h * d + m) == (2 * hi + d) * h + m
  {
  }

  /** Consuming the digit at place e. */
  lemma SplitDigit(scalar: seq<int>, limb: nat, e: nat, hi: int)
    requires Limbs(scalar, B) && limb < 4 && e < 56 && Split(scalar, limb, e, hi)
    ensures Split(scalar, limb, e - 1, 2 * hi + (scalar[limb] / Pow2(e)) % 2)
  {
    var x, h := scalar[limb], Pow2(e);
    var d := (x / h) % 2;
    DigitOff(x, e);
    Regroup(hi, h, d, x % h);
  }

  /** Moving on to the next lower limb. */
  lemma SplitLimb(scalar: seq<int>, limb: nat, hi: int)
    requires Limbs(scalar, B) && 0 < limb < 4 && Split(scalar, limb, -1, hi)
    ensures Split(scalar, limb - 1, 55, hi)
  {
    var p, x, l := PowB(limb - 1), scalar[limb - 1], Low(scalar, limb - 1);
    TwoTo56();
    assert Pow2(0) == 1;
    RemainderUnique(x, B, 0, x);
    assert hi * Pow2(0) + scalar[limb] % Pow2(0) == hi;
    assert hi * (B * p) + (l + p * x) == (hi * B + x) * p + l;
  }

  lemma SplitEnd(scalar: seq<int>, hi: int)
    requires Limbs(scalar, B) && Split(scalar, 0, -1, hi)
    ensures Low(scalar, 4) == hi
  {
    assert Pow2(0) == 1 && PowB(0) == 1 && Low(scalar, 0) == 0;
  }

  lemma NoHighDigits(x: int, p: int, m: int)
    ensures (0 * m + x) * p == p * x
  {
  }

  lemma {:induction false} LowSkip(scalar: seq<int>, n: nat)
    requires |scalar| == 5 && n <= 4 && forall k :: n <= k < 4 ==> scalar[k] == 0
    ensures Low(scalar, 4) == Low(scalar, n)
    decreases 4 - n
  {
    if n < 4 {
      LowSkip(scalar, n + 1);
      assert PowB(n) * 0 == 0;
    }
  }

  /** Everything above the first set digit is zero. */
  lemma SplitStart(scalar: seq<int>, limb: nat)
    requires Limbs(scalar, B) && limb < 4 && forall k :: limb < k < 4 ==> scalar[k] == 0
    ensures Split(scalar, limb, 55, 0)
  {
    TwoTo56();
    var x, p := scalar[limb], PowB(limb);
    RemainderUnique(x, B, 0, x);
    LowSkip(scalar, limb + 1);
    assert Low(scalar, limb + 1) == Low(scalar, limb) + p * x;
    NoHighDigits(x, p, Pow2(56));
  }

  /** Dropping a digit that is zero. */
  lemma SplitZero(scalar: seq<int>, limb: nat, e: nat)
    requires Limbs(scalar, B) && limb < 4 && e < 56 && Split(scalar, limb, e, 0) && (scalar[limb] / Pow2(e)) % 2 == 0
    requires scalar[limb] < Pow2(e + 1)
    ensures Split(scalar, limb, e - 1, 0) && scalar[limb] < Pow2(e)
  {
    SplitDigit(scalar, limb, e, 0);
    var x, h := scalar[limb], Pow2(e);
    DivMod(x, h);
    if x >= h {
      RemainderUnique(x, h, 1, x - h);
    }
  }

  /** 2 (h + c) P + d P = ((2 h + d) + 2 c) P */
  lemma LadderStep<G(!new)>(g: Ops<G>, hi: int, c: int, d: int, p: G)
    requires Abelian(g) && 0 <= d <= 1
    ensures var q := Mul(g, hi + c, p);
      Mul(g, (2 * hi + d) + 2 * c, p) == if d == 1 then Add(g, Add(g, q, q), p) else Add(g, q, q)
  {
    var q := Mul(g, hi + c, p);
    MulTwo(g, q);
    MulMul(g, 2, hi + c, p);
    if d == 1 {
      MulSucc(g, 2 * (hi + c), p);
    }
  }

  /** Where the ladder gets to: a point, or a read below limb 0 of the scalar. */
  datatype Reached<G> = Point(value: G) | OutOfRange

  lemma LowNonzero(scalar: seq<int>, limb: nat)
    requires Limbs(scalar, B) && limb <= 3 && scalar[limb] != 0 && forall k :: limb < k < 4 ==> scalar[k] == 0
    ensures Low(scalar, 4) > 0
  {
    LowSkip(scalar, limb + 1);
    LowBound(scalar, limb);
    MulAtLeast(PowB(limb), scalar[limb]);
  }

  /** `while (!scalar[limb]) limb--`: the search leaves the limbs 3..0 exactly when all of them are zero. */
  method FirstLimb(scalar: seq<int>) returns (found: bool, limb: nat)
    requires Limbs(scalar, B)
    ensures found <==> Low(scalar, 4) != 0
    ensures found ==> limb <= 3 && scalar[limb] != 0 && forall k :: limb < k < 4 ==> scalar[k] == 0
  {
    limb := 3;
    while scalar[limb] == 0
      invariant 0 <= limb <= 3 && forall k :: limb < k < 4 ==> scalar[k] == 0
      decreases limb
    {
      if limb == 0 {
        LowSkip(scalar, 0);
        return false, 0;
      }
      limb := limb - 1;
    }
    found := true;
    LowNonzero(scalar, limb);
  }

  lemma LowOfOne(scalar: seq<int>)
    requires Limbs(scalar, B) && Val(scalar) == 1
    ensures Low(scalar, 4) != 0
  {
    LowIsVal(scalar);
    LowBound(scalar, 4);
    assert PowB(4) * 0 == 0;
  }

  lemma LastFlag(x: nat, e: nat)
    requires 0 < x < Pow2(e)
    ensures e > 0
  {
  }

  method FirstFlag(scalar: seq<int>, limb: nat) returns (flag: nat, ghost e: nat)
    requires Limbs(scalar, B) && limb <= 3 && scalar[limb] != 0 && Split(scalar, limb, 55, 0)
    ensures e <= 55 && flag == Pow2(e)
    ensures Split(scalar, limb, e, 0) && (scalar[limb] / Pow2(e)) % 2 == 1
  {
    flag, e := Pow2(55), 55;
    TwoTo56();
    while BitAnd(scalar[limb], flag) == 0
      invariant 0 <= e <= 55 && flag == Pow2(e) && 0 < scalar[limb] < Pow2(e + 1)
      invariant Split(scalar, limb, e, 0)
      decreases e
    {
      AndBit(scalar[limb], e);
      SplitZero(scalar, limb, e);
      LastFlag(scalar[limb], e);
      flag := flag / 2;
      e := e - 1;
    }
    AndBit(scalar[limb], e);
  }

  /** One digit of the ladder: double, and add the point if the digit is set. */
  method LadderDigit<G(!new)>(g: Ops<G>, r0: G, point: G, scalar: seq<int>, limb: nat, flag: nat, ghost e: nat,
                              ghost hi: nat, ghost n: nat)
    returns (r: G, ghost hi': nat)
    requires Abelian(g) && Limbs(scalar, B) && limb <= 3 && e <= 55 && flag == Pow2(e) && Split(scalar, limb, e, hi)
    requires r0 == Mul(g, hi + Pow2(n), point)
    requires if n == 0 then hi == 0 && (scalar[limb] / Pow2(e)) % 2 == 1 else Pow2(n - 1) <= hi < Pow2(n)
    ensures Split(scalar, limb, e - 1, hi')
    ensures r == Mul(g, hi' + Pow2(n + 1), point)
    ensures Pow2(n) <= hi' < Pow2(n + 1)
  {
    ghost var d := (scalar[limb] / Pow2(e)) % 2;
    LadderStep(g, hi, Pow2(n), d, point);
    AndBit(scalar[limb], e);
    SplitDigit(scalar, limb, e, hi);
    r := Add(g, r0, r0);
    if BitAnd(scalar[limb], flag) != 0 {
      r := Add(g, r, point);
    }
    hi' := 2 * hi + d;
  }

  /** `flag >>= 1`, and on to the next limb, or done, when the flag runs out. */
  method NextDigit(scalar: seq<int>, limb: nat, flag: nat, ghost e: nat, ghost hi: nat)
    returns (done: bool, limb': nat, flag': nat, ghost e': nat)
    requires Limbs(scalar, B) && limb <= 3 && e <= 55 && flag == Pow2(e) && Split(scalar, limb, e - 1, hi)
    ensures done ==> Low(scalar, 4) == hi
    ensures !done ==> limb' <= 3 && e' <= 55 && flag' == Pow2(e') && Split(scalar, limb', e', hi)
    ensures !done ==> limb' < limb || (limb' == limb && e' < e)
  {
    done, limb', flag', e' := false, limb, flag / 2, if e == 0 then 0 else e - 1;
    if flag' == 0 {
      if limb' == 0 {
        SplitEnd(scalar, hi);
        done := true;
      } else {
        SplitLimb(scalar, limb, hi);
        limb' := limb' - 1;
        flag', e' := Pow2(55), 55;
      }
    }
  }

  /** The ladder stands at the digit 2^e of a limb: hi is the value of the n digits above it, the first of them set. */
  ghost predicate AtDigit(scalar: seq<int>, limb: nat, flag: nat, e: nat, hi: nat, n: nat)
    requires Limbs(scalar, B)
  {
    && limb <= 3 && e <= 55 && flag == Pow2(e) && Split(scalar, limb, e, hi)
    && if n == 0 then hi == 0 && (scalar[limb] / Pow2(e)) % 2 == 1 else Pow2(n - 1) <= hi < Pow2(n)
  }

  /** What the ladder holds after n digits with the value hi. */
  ghost function Held<G>(g: Ops<G>, hi: nat, n: nat, point: G): G {
    Mul(g, hi + Pow2(n), point)
  }

  /** One turn of the ladder: a digit, and on to the next. */
  method LadderTurn<G(!new)>(g: Ops<G>, r0: G, point: G, scalar: seq<int>, limb: nat, flag: nat,
                             ghost e: nat, ghost hi: nat, ghost n: nat)
    returns (r: G, done: bool, limb': nat, flag': nat, ghost e': nat, ghost hi': nat)
    requires Abelian(g) && Limbs(scalar, B) && AtDigit(scalar, limb, flag, e, hi, n)
      && r0 == Held(g, hi, n, point)
    ensures r == Held(g, hi', n + 1, point) && Pow2(n) <= hi' < Pow2(n + 1)
    ensures done ==> Low(scalar, 4) == hi'
    ensures !done ==> AtDigit(scalar, limb', flag', e', hi', n + 1) && (limb' < limb || (limb' == limb && e' < e))
  {
    r, hi' := LadderDigit(g, r0, point, scalar, limb, flag, e, hi, n);
    done, limb', flag', e' := NextDigit(scalar, limb, flag, e, hi');
  }

  method AllDigits<G(!new)>(g: Ops<G>, point: G, scalar: seq<int>, first: nat)
    returns (r: G, ghost hi: nat, ghost n: nat)
    requires Abelian(g) && Limbs(scalar, B)
    requires first <= 3 && scalar[first] != 0 && forall k :: first < k < 4 ==> scalar[k] == 0
    ensures n > 0 && Pow2(n - 1) <= hi < Pow2(n) && Low(scalar, 4) == hi && r == Held(g, hi, n, point)
  {
    r := point;
    var limb := first;
    SplitStart(scalar, limb);
    var flag, e := FirstFlag(scalar, limb);
    hi, n := 0, 0;
    MulOne(g, point);
    while true
      invariant AtDigit(scalar, limb, flag, e, hi, n) && r == Held(g, hi, n, point)
      decreases limb, e
    {
      var done;
      r, done, limb, flag, e, hi := LadderTurn(g, r, point, scalar, limb, flag, e, hi, n);
      n := n + 1;
      if done {
        break;
      }
    }
  }

  method DigitLoop<G(!new)>(g: Ops<G>, point: G, scalar: seq<int>, first: nat) returns (r: G)
    requires Abelian(g) && Limbs(scalar, B)
    requires first <= 3 && scalar[first] != 0 && forall k :: first < k < 4 ==> scalar[k] == 0
    ensures Low(scalar, 4) > 0 && r == Mul(g, Low(scalar, 4) + Pow2(BitLength(Low(scalar, 4))), point)
  {
    ghost var hi, n;
    r, hi, n := AllDigits(g, point, scalar, first);
    BitLengthUnique(hi, n);
  }

  /**
   The ladder over the limbs 3..0.  It is seeded with the point and then runs over all digits
   including the first, so for a scalar of bit length L in those limbs it returns (s + 2^L) P.  A
   scalar above 1 without a digit in those limbs sends the search for the first one out of range.
   */
  method MultiScalarmultFinal<G(!new)>(g: Ops<G>, point: G, scalar: seq<int>) returns (r: Reached<G>)
    requires Abelian(g) && Limbs(scalar, B)
    ensures r == OutOfRange <==> Val(scalar) != 0 && Low(scalar, 4) == 0
    ensures Val(scalar) == 0 ==> r == Point(g.zero)
    ensures Val(scalar) == 1 ==> r == Point(point)
    ensures Val(scalar) != 0 && Val(scalar) != 1 && Low(scalar, 4) != 0 ==>
      Low(scalar, 4) > 0 && r == Point(Mul(g, Low(scalar, 4) + Pow2(BitLength(Low(scalar, 4))), point))
  {
    LowBound(scalar, 4);
    LowIsVal(scalar);
    var one := IsOne256Batch(scalar);
    if one {
      LowOfOne(scalar);
      return Point(point);
    }
    var zero := IsZero256Batch(scalar);
    if zero {
      return Point(g.zero);
    }
    var found, limb := FirstLimb(scalar);
    if !found {
      return OutOfRange;
    }
    var p := DigitLoop(g, point, scalar, limb);
    r := Point(p);
  }
}
