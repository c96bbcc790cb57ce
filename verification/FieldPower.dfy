/** Powers modulo p: square_times and the addition chains of curve25519-donna-helpers.h. */
module FieldPower {
  import opened Words
  import opened Field

  function Power(x: int, e: nat): int {
    if e == 0 then 1 else x * Power(x, e - 1)
  }

  lemma Regroup(x: int, y: int, z: int)
    ensures x * (y * z) == (x * y) * z
  {
  }

  lemma {:induction false} PowerAdd(x: int, a: nat, b: nat)
    ensures Power(x, a + b) == Power(x, a) * Power(x, b)
    decreases a
  {
    if a > 0 {
      PowerAdd(x, a - 1, b);
      Regroup(x, Power(x, a - 1), Power(x, b));
    }
  }

  lemma PowerOne(x: int)
    ensures Power(x, 1) == x
  {
    assert Power(x, 0) == 1;
  }

  /** x^(2 e) = (x^e)^2 */
  lemma PowerDouble(x: int, e: nat)
    ensures Power(x, 2 * e) == Power(x, e) * Power(x, e)
  {
    PowerAdd(x, e, e);
  }

  lemma {:induction false} PowerTimes(x: int, a: nat, b: nat)
    ensures Power(Power(x, a), b) == Power(x, a * b)
    decreases b
  {
    if b > 0 {
      PowerTimes(x, a, b - 1);
      assert a * b == a + a * (b - 1);
      PowerAdd(x, a, a * (b - 1));
    }
  }

  lemma {:induction false} CongPower(x: int, y: int, e: nat)
    requires Cong(x, y)
    ensures Cong(Power(x, e), Power(y, e))
    decreases e
  {
    if e > 0 {
      CongPower(x, y, e - 1);
      CongMul(x, y, Power(x, e - 1), Power(y, e - 1));
    }
  }

  /** The limbs a stand for z^e modulo p. */
  ghost predicate IsPower(a: seq<int>, z: int, e: nat) {
    Loose(a) && Cong(FVal(a), Power(z, e))
  }

  method Store(out: array<int>, r: seq<int>)
    requires out.Length == 5 == |r|
    modifies out
    ensures out[..] == r
  {
    out[0], out[1], out[2], out[3], out[4] := r[0], r[1], r[2], r[3], r[4];
  }

  /** curve25519_square_times: in^(2^count); out and in may coincide. */
  method SquareTimes(out: array<int>, input: array<int>, count: nat)
    requires out.Length == input.Length == 5 && Loose(input[..]) && count >= 1
    modifies out
    ensures Carried(out[..]) && Cong(FVal(out[..]), Power(old(FVal(input[..])), Pow2(count)))
  {
    var r := input[..];
    ghost var z := FVal(r);
    var n := count;
    PowerOne(z);
    assert Pow2(0) == 1;
    while true
      invariant 1 <= n <= count && Loose(r) && Cong(FVal(r), Power(z, Pow2(count - n)))
      decreases n
    {
      ghost var was := FVal(r);
      r := SquareRound(r);
      CongMul(was, Power(z, Pow2(count - n)), was, Power(z, Pow2(count - n)));
      PowerDouble(z, Pow2(count - n));
      n := n - 1;
      if n == 0 {
        break;
      }
    }
    Store(out, r);
  }

  /** curve25519_mul: in2 * in; the arrays may coincide. */
  method Mul(out: array<int>, in2: array<int>, input: array<int>)
    requires out.Length == in2.Length == input.Length == 5 && Loose(in2[..]) && Loose(input[..])
    modifies out
    ensures Small(out[..], F1 + 0x2000) && Cong(FVal(out[..]), old(FVal(in2[..])) * old(FVal(input[..])))
  {
    var r := FeMul(in2[..], input[..]);
    Store(out, r);
  }

  // ---------- the chains ----------

  method SquareStep(out: array<int>, input: array<int>, count: nat, ghost z: int, ghost e: nat, ghost f: nat)
    requires out.Length == input.Length == 5 && IsPower(input[..], z, e) && count >= 1 && f == Pow2(count)
    modifies out
    ensures IsPower(out[..], z, e * f)
  {
    ghost var x := FVal(input[..]);
    SquareTimes(out, input, count);
    CongPower(x, Power(z, e), f);
    PowerTimes(z, e, f);
  }

  method MulStep(out: array<int>, in2: array<int>, input: array<int>, ghost z: int, ghost a: nat, ghost b: nat)
    requires out.Length == in2.Length == input.Length == 5 && IsPower(in2[..], z, a) && IsPower(input[..], z, b)
    modifies out
    ensures IsPower(out[..], z, a + b)
  {
    CongMul(FVal(in2[..]), Power(z, a), FVal(input[..]), Power(z, b));
    PowerAdd(z, a, b);
    Mul(out, in2, input);
  }

  const T50: int := 0x4_0000_0000_0000
  const T100: int := 0x10_0000_0000_0000_0000_0000_0000
  const T200: int := T100 * T100
  const T250: int := T200 * T50
  const T255: int := T250 * 32

  /** 2^k for the larger counts that the chains use. */
  lemma Counts()
    ensures Pow2(20) == 0x10_0000 && Pow2(50) == T50 && Pow2(100) == T100
  {
    Pow2Sum(10, 10, 0x400, 0x400);
    Pow2Sum(20, 20, 0x10_0000, 0x10_0000);
    Pow2Sum(40, 10, 0x100_0000_0000, 0x400);
    Pow2Sum(50, 50, T50, T50);
  }

  /** From z^(2^5 - 1) to z^(2^50 - 1). */
  method ChainTo50(b: array<int>, ghost z: int)
    requires b.Length == 5 && IsPower(b[..], z, 31)
    modifies b
    ensures IsPower(b[..], z, T50 - 1)
  {
    Counts();
    var t0, c := new int[5], new int[5];
    SquareStep(t0, b, 5, z, 31, 0x20);
    MulStep(b, t0, b, z, 0x3e0, 31);
    SquareStep(t0, b, 10, z, 0x3ff, 0x400);
    MulStep(c, t0, b, z, 0xf_fc00, 0x3ff);
    SquareStep(t0, c, 20, z, 0xf_ffff, 0x10_0000);
    MulStep(t0, t0, c, z, 0xff_fff0_0000, 0xf_ffff);
    SquareStep(t0, t0, 10, z, 0xff_ffff_ffff, 0x400);
    MulStep(b, t0, b, z, T50 - 0x400, 0x3ff);
  }

  /** From z^(2^50 - 1) to z^(2^200 - 1), which goes to t0. */
  method ChainTo200(t0: array<int>, b: array<int>, ghost z: int)
    requires t0.Length == b.Length == 5 && t0 != b && IsPower(b[..], z, T50 - 1)
    modifies t0
    ensures IsPower(t0[..], z, T200 - 1)
  {
    Counts();
    var c := new int[5];
    SquareStep(t0, b, 50, z, T50 - 1, T50);
    MulStep(c, t0, b, z, T100 - T50, T50 - 1);
    SquareStep(t0, c, 100, z, T100 - 1, T100);
    MulStep(t0, t0, c, z, T200 - T100, T100 - 1);
  }

  /** From z^(2^50 - 1) to z^(2^250 - 1). */
  method ChainTo250(b: array<int>, ghost z: int)
    requires b.Length == 5 && IsPower(b[..], z, T50 - 1)
    modifies b
    ensures IsPower(b[..], z, T250 - 1)
  {
    Counts();
    var t0 := new int[5];
    ChainTo200(t0, b, z);
    SquareStep(t0, t0, 50, z, T200 - 1, T50);
    MulStep(b, t0, b, z, T250 - T50, T50 - 1);
  }

  /** curve25519_pow_two5mtwo0_two250mtwo0 */
  method PowTwo5ToTwo250(b: array<int>, ghost z: int)
    requires b.Length == 5 && IsPower(b[..], z, 31)
    modifies b
    ensures IsPower(b[..], z, T250 - 1)
  {
    ChainTo50(b, z);
    ChainTo250(b, z);
  }

  /** The common start of both chains: a = z^11 and b = z^31. */
  method ChainStart(a: array<int>, b: array<int>, input: array<int>, ghost z: int)
    requires a.Length == b.Length == input.Length == 5 && a != b && a != input && b != input
    requires Loose(input[..]) && z == FVal(input[..])
    modifies a, b
    ensures IsPower(a[..], z, 11) && IsPower(b[..], z, 31)
  {
    PowerOne(z);
    var t0 := new int[5];
    SquareStep(a, input, 1, z, 1, 2);
    SquareStep(t0, a, 2, z, 2, 4);
    MulStep(b, t0, input, z, 8, 1);
    MulStep(a, b, a, z, 9, 2);
    SquareStep(t0, a, 1, z, 11, 2);
    MulStep(b, t0, b, z, 22, 9);
  }

  method LastStep(out: array<int>, in2: array<int>, input: array<int>, ghost z: int, ghost a: nat, ghost b: nat)
    requires out.Length == in2.Length == input.Length == 5 && IsPower(in2[..], z, a) && IsPower(input[..], z, b)
    modifies out
    ensures Small(out[..], F1 + 0x2000) && Cong(FVal(out[..]), Power(z, a + b))
  {
    CongMul(FVal(in2[..]), Power(z, a), FVal(input[..]), Power(z, b));
    PowerAdd(z, a, b);
    Mul(out, in2, input);
  }

  /** curve25519_recip: z^(2^255 - 21), the exponent p - 2; out and z may coincide. */
  method Recip(out: array<int>, input: array<int>)
    requires out.Length == input.Length == 5 && Loose(input[..])
    modifies out
    ensures Small(out[..], F1 + 0x2000) && Cong(FVal(out[..]), Power(old(FVal(input[..])), P - 2))
  {
    ghost var z := FVal(input[..]);
    var a, b := new int[5], new int[5];
    ChainStart(a, b, input, z);
    PowTwo5ToTwo250(b, z);
    SquareStep(b, b, 5, z, T250 - 1, 0x20);
    LastStep(out, b, a, z, T255 - 32, 11);
  }

  /** curve25519_pow_two252m3: z^(2^252 - 3); out and z may coincide. */
  method PowTwo252m3(out: array<int>, input: array<int>)
    requires out.Length == input.Length == 5 && Loose(input[..])
    modifies out
    ensures Small(out[..], F1 + 0x2000) && Cong(FVal(out[..]), Power(old(FVal(input[..])), 4 * T250 - 3))
  {
    ghost var z := FVal(input[..]);
    var b, c := new int[5], new int[5];
    ChainStart(c, b, input, z);
    PowTwo5ToTwo250(b, z);
    SquareStep(b, b, 2, z, T250 - 1, 4);
    PowerOne(z);
    LastStep(out, b, input, z, 4 * T250 - 4, 1);
  }
}
