/** Field elements as 32 little-endian bytes: expand and the canonical contract. */
module FieldBytes {
  import opened Words
  import opened Bytes
  import opened Scalar
  import opened Field

  // ---------- contract ----------

  /** The carry pass: through the limbs, the last carry c left to the caller. */
  method CarryPass(t: seq<int>) returns (l: seq<int>, c: int, ghost c0: int)
    requires Small(t, TWO64 - 0x2000)
    ensures Small(l, F1) && FVal(t) == FVal(l) + TWO255 * c && 0 <= c < 0x2000
    ensures 0 <= c0 && t[0] == F1 * c0 + l[0]
    ensures t[1] < F1 && t[2] < F1 && t[3] < F1 && t[4] < F1 && c0 <= 1 ==> c <= c0
  {
    var l0, l1, l2, l3, l4;
    l0, c := Carry(t[0]);
    c0 := c;
    l1, c := Carry(Add64(t[1], c));
    l2, c := Carry(Add64(t[2], c));
    l3, c := Carry(Add64(t[3], c));
    l4, c := Carry(Add64(t[4], c));
    l := [l0, l1, l2, l3, l4];
  }

  /** curve25519_contract_carry_full: the last carry comes back as 19 c. */
  method CarryFull(t: seq<int>) returns (r: seq<int>, ghost c: int, ghost c0: int)
    requires Small(t, TWO64 - 0x2000)
    ensures |r| == 5 && r[1] < F1 && r[2] < F1 && r[3] < F1 && r[4] < F1 && Small(r, F1 + 0x4_0000)
    ensures FVal(r) == FVal(t) - P * c && 0 <= c < 0x2000 && 0 <= c0 && t[0] == F1 * c0 + (r[0] - 19 * c)
    ensures 0 <= r[0] - 19 * c < F1 && FVal(r) - 19 * c < TWO255
    ensures t[1] < F1 && t[2] < F1 && t[3] < F1 && t[4] < F1 && c0 <= 1 ==> c <= c0
  {
    var l, k;
    l, k, c0 := CarryPass(t);
    r := [Add64(l[0], k * 19), l[1], l[2], l[3], l[4]];
    c := k;
  }

  /** A second carry out of the top needs a carry out of limb 0, which then is small. */
  lemma SecondCarry(u: int, d0: int, d: int, r: int)
    requires 0 <= u < F1 + 0x4_0000 && u == F1 * d0 + (r - 19 * d) && 0 <= r - 19 * d < F1 && 0 <= d0 && 0 <= d
    ensures d0 <= 1 && (d <= d0 ==> r < F1)
  {
  }

  /** Two passes bring every limb below 2^51. */
  method TwoPasses(t: seq<int>) returns (r: seq<int>, ghost k: int)
    requires Small(t, TWO64 - 0x2000)
    ensures Small(r, F1) && FVal(r) == FVal(t) - P * k
  {
    ghost var c, c0, d, d0;
    r, c, c0 := CarryFull(t);
    ghost var u := r[0];
    r, d, d0 := CarryFull(r);
    SecondCarry(u, d0, d, r[0]);
    k := c + d;
  }

  lemma ReducedBy(v: int, r: int, c: int)
    requires 0 <= v < TWO255 && r == v + 19 - P * c && 0 <= c <= 1 && 19 * c <= r && r - 19 * c < TWO255
    ensures r == v % P + 19
  {
    RemainderUnique(v, P, c, v - P * c);
  }

  lemma SmallFirst(r: seq<int>, c: int)
    requires |r| == 5 && Small(r, F1 + 0x4_0000) && r[0] >= 19 * c && 0 <= c <= 1
    requires c == 0 ==> r[0] < F1
    requires c == 1 ==> FVal(r) < 38
    ensures r[0] < F1
  {
  }

  /** The 19 pass: afterwards the value is offset by 19 and p has been taken off if it fitted. */
  method Offset19(t: seq<int>) returns (r: seq<int>)
    requires Small(t, F1)
    ensures Small(r, F1) && FVal(t) >= 0 && FVal(r) == FVal(t) % P + 19
  {
    ghost var c, c0;
    r, c, c0 := CarryFull(t[0 := Add64(t[0], 19)]);
    ReducedBy(FVal(t), FVal(r), c);
    SmallFirst(r, c);
  }

  /** Adding the limbs of 2^255 - 19 adds their value. */
  lemma AddedP(t: seq<int>, u: seq<int>)
    requires |t| == 5 && u == [t[0] + F1 - 19, t[1] + F1 - 1, t[2] + F1 - 1, t[3] + F1 - 1, t[4] + F1 - 1]
    ensures FVal(u) == FVal(t) + TWO255 - 19
  {
  }

  lemma FValBelow(r: seq<int>)
    requires Small(r, F1)
    ensures 0 <= FVal(r) < TWO255
  {
  }

  /** The carry is the bit 2^255. */
  lemma TopBit(v: int, r: int, c: int)
    requires 19 <= v < TWO255 && v + TWO255 - 19 == r + TWO255 * c && 0 <= r < TWO255
    ensures c == 1 && r == v - 19
  {
  }

  /** Take the offset off again: add 2^255 - 19 and drop the bit 2^255. */
  method Unoffset19(t: seq<int>) returns (r: seq<int>)
    requires Small(t, F1) && 19 <= FVal(t) < P + 19
    ensures Small(r, F1) && FVal(r) == FVal(t) - 19
  {
    var u := [Add64(t[0], F1 - 19), Add64(t[1], F1 - 1), Add64(t[2], F1 - 1), Add64(t[3], F1 - 1), Add64(t[4], F1 - 1)];
    var c;
    ghost var c0;
    r, c, c0 := CarryPass(u);
    AddedP(t, u);
    FValBelow(r);
    TopBit(FVal(t), FVal(r), c);
  }

  /** `x | (y << 51)` */
  function Write0(x: int, y: int): (f: int)
    requires 0 <= x < F1 && 0 <= y < F1
    ensures f == x + 0x8_0000_0000_0000 * (y % 0x2000) && U64(f)
  {
    RemainderUnique(y * 0x8_0000_0000_0000, TWO64, y / 0x2000, 0x8_0000_0000_0000 * (y % 0x2000));
    Or(x, Shl64(y, 0x8_0000_0000_0000), 0x8_0000_0000_0000, y % 0x2000)
  }

  /** `(x >> 13) | (y << 38)` */
  function Write1(x: int, y: int): (f: int)
    requires 0 <= x < F1 && 0 <= y < F1
    ensures f == x / 0x2000 + 0x40_0000_0000 * (y % 0x400_0000) && U64(f)
  {
    RemainderUnique(y * 0x40_0000_0000, TWO64, y / 0x400_0000, 0x40_0000_0000 * (y % 0x400_0000));
    Or(x / 0x2000, Shl64(y, 0x40_0000_0000), 0x40_0000_0000, y % 0x400_0000)
  }

  /** `(x >> 26) | (y << 25)` */
  function Write2(x: int, y: int): (f: int)
    requires 0 <= x < F1 && 0 <= y < F1
    ensures f == x / 0x400_0000 + 0x200_0000 * (y % 0x80_0000_0000) && U64(f)
  {
    RemainderUnique(y * 0x200_0000, TWO64, y / 0x80_0000_0000, 0x200_0000 * (y % 0x80_0000_0000));
    Or(x / 0x400_0000, Shl64(y, 0x200_0000), 0x200_0000, y % 0x80_0000_0000)
  }

  /** `(x >> 39) | (y << 12)` */
  function Write3(x: int, y: int): (f: int)
    requires 0 <= x < F1 && 0 <= y < F1
    ensures f == x / 0x80_0000_0000 + 0x1000 * (y % 0x10_0000_0000_0000) && U64(f)
  {
    RemainderUnique(y * 0x1000, TWO64, y / 0x10_0000_0000_0000, 0x1000 * (y % 0x10_0000_0000_0000));
    Or(x / 0x80_0000_0000, Shl64(y, 0x1000), 0x1000, y % 0x10_0000_0000_0000)
  }

  lemma WrittenSum(t0: int, h1: int, l1: int, h2: int, l2: int, h3: int, l3: int, t4: int)
    ensures Low5(t0 + F1 * l1, h1 + 0x40_0000_0000 * l2, h2 + 0x200_0000 * l3, h3 + 0x1000 * t4, 0)
         == FVal([t0, 0x2000 * h1 + l1, 0x400_0000 * h2 + l2, 0x80_0000_0000 * h3 + l3, t4])
  {
  }

  lemma WrittenValue(t: seq<int>)
    requires Small(t, F1)
    ensures Low5(Write0(t[0], t[1]), Write1(t[1], t[2]), Write2(t[2], t[3]), Write3(t[3], t[4]), 0) == FVal(t)
  {
    WrittenSum(t[0], t[1] / 0x2000, t[1] % 0x2000, t[2] / 0x400_0000, t[2] % 0x400_0000, t[3] / 0x80_0000_0000,
      t[3] % 0x80_0000_0000, t[4]);
    assert t[4] % 0x10_0000_0000_0000 == t[4];
    assert t == [t[0], t[1], t[2], t[3], t[4]];
  }

  /** `for (i = 0; i < 8; i++, f >>= 8) *out++ = (unsigned char)f` */
  method WriteBytes(f: nat) returns (out: seq<byte>)
    ensures out == LeBytes(f, 8)
  {
    out := [];
    var g := f;
    for i := 0 to 8
      invariant g >= 0 && |out| == i && LeBytes(f, 8) == out + LeBytes(g, 8 - i)
    {
      out := out + [g % 256];
      g := g / 256;
    }
  }

  method WriteLimbs(t: seq<int>) returns (out: seq<byte>)
    requires Small(t, F1)
    ensures FVal(t) >= 0 && out == LeBytes(FVal(t), 32)
  {
    var f := [Write0(t[0], t[1]), Write1(t[1], t[2]), Write2(t[2], t[3]), Write3(t[3], t[4])];
    var b0 := WriteBytes(f[0]);
    var b1 := WriteBytes(f[1]);
    var b2 := WriteBytes(f[2]);
    var b3 := WriteBytes(f[3]);
    BytesOfWords(f[0], f[1], f[2], f[3]);
    WrittenValue(t);
    out := b0 + b1 + b2 + b3;
    CanonicalBytes(out);
  }

  /** curve25519_contract: the 32 little-endian bytes of the value modulo p. */
  method Contract(input: seq<int>) returns (out: seq<byte>)
    requires Small(input, TWO64 - 0x2000)
    ensures out == LeBytes(FVal(input) % P, 32)
  {
    ghost var k;
    var t;
    t, k := TwoPasses(input);
    ghost var v := FVal(t);
    ModPlus(FVal(input), -k, P);
    t := Offset19(t);
    t := Unoffset19(t);
    out := WriteLimbs(t);
  }

  // ---------- expand ----------

  lemma Shifted1(x: int, y: int)
    requires U64(x) && U64(y)
    ensures Shl64(y, 0x2000) == 0x2000 * (y % 0x8_0000_0000_0000)
    ensures (x / 0x8_0000_0000_0000 + 0x2000 * (y % 0x8_0000_0000_0000)) % F1
      == x / 0x8_0000_0000_0000 + 0x2000 * (y % 0x40_0000_0000)
  {
    var a, b := y / 0x8_0000_0000_0000, y % 0x8_0000_0000_0000;
    var c, d := b / 0x40_0000_0000, b % 0x40_0000_0000;
    RemainderUnique(y * 0x2000, TWO64, a, 0x2000 * b);
    RemainderUnique(y, 0x40_0000_0000, 0x2000 * a + c, d);
    RemainderUnique(x / 0x8_0000_0000_0000 + 0x2000 * b, F1, c, x / 0x8_0000_0000_0000 + 0x2000 * d);
  }

  /** `((x >> 51) | (y << 13)) & mask` */
  function Read1(x: int, y: int): (r: int)
    requires U64(x) && U64(y)
    ensures r == x / 0x8_0000_0000_0000 + 0x2000 * (y % 0x40_0000_0000) && 0 <= r < F1
  {
    Shifted1(x, y);
    Or(x / 0x8_0000_0000_0000, Shl64(y, 0x2000), 0x2000, y % 0x8_0000_0000_0000) % F1
  }

  lemma Shifted2(x: int, y: int)
    requires U64(x) && U64(y)
    ensures Shl64(y, 0x400_0000) == 0x400_0000 * (y % 0x40_0000_0000)
    ensures (x / 0x40_0000_0000 + 0x400_0000 * (y % 0x40_0000_0000)) % F1
      == x / 0x40_0000_0000 + 0x400_0000 * (y % 0x200_0000)
  {
    var a, b := y / 0x40_0000_0000, y % 0x40_0000_0000;
    var c, d := b / 0x200_0000, b % 0x200_0000;
    RemainderUnique(y * 0x400_0000, TWO64, a, 0x400_0000 * b);
    RemainderUnique(y, 0x200_0000, 0x2000 * a + c, d);
    RemainderUnique(x / 0x40_0000_0000 + 0x400_0000 * b, F1, c, x / 0x40_0000_0000 + 0x400_0000 * d);
  }

  /** `((x >> 38) | (y << 26)) & mask` */
  function Read2(x: int, y: int): (r: int)
    requires U64(x) && U64(y)
    ensures r == x / 0x40_0000_0000 + 0x400_0000 * (y % 0x200_0000) && 0 <= r < F1
  {
    Shifted2(x, y);
    Or(x / 0x40_0000_0000, Shl64(y, 0x400_0000), 0x400_0000, y % 0x40_0000_0000) % F1
  }

  lemma Shifted3(x: int, y: int)
    requires U64(x) && U64(y)
    ensures Shl64(y, 0x80_0000_0000) == 0x80_0000_0000 * (y % 0x200_0000)
    ensures (x / 0x200_0000 + 0x80_0000_0000 * (y % 0x200_0000)) % F1 == x / 0x200_0000 + 0x80_0000_0000 * (y % 0x1000)
  {
    var a, b := y / 0x200_0000, y % 0x200_0000;
    var c, d := b / 0x1000, b % 0x1000;
    RemainderUnique(y * 0x80_0000_0000, TWO64, a, 0x80_0000_0000 * b);
    RemainderUnique(y, 0x1000, 0x2000 * a + c, d);
    RemainderUnique(x / 0x200_0000 + 0x80_0000_0000 * b, F1, c, x / 0x200_0000 + 0x80_0000_0000 * d);
  }

  /** `((x >> 25) | (y << 39)) & mask` */
  function Read3(x: int, y: int): (r: int)
    requires U64(x) && U64(y)
    ensures r == x / 0x200_0000 + 0x80_0000_0000 * (y % 0x1000) && 0 <= r < F1
  {
    Shifted3(x, y);
    Or(x / 0x200_0000, Shl64(y, 0x80_0000_0000), 0x80_0000_0000, y % 0x200_0000) % F1
  }

  lemma ReadSum(l0: int, h0: int, l1: int, h1: int, l2: int, h2: int, l3: int, h3: int, top: int)
    ensures Low5(F1 * h0 + l0, 0x40_0000_0000 * h1 + l1, 0x200_0000 * h2 + l2, 0x1000 * (F1 * top + h3) + l3, 0)
         == FVal([l0, h0 + 0x2000 * l1, h1 + 0x400_0000 * l2, h2 + 0x80_0000_0000 * l3, h3]) + TWO255 * top
  {
  }

  lemma ReadValue(x: seq<int>, r: seq<int>)
    requires |x| == 4 && U64(x[0]) && U64(x[1]) && U64(x[2]) && U64(x[3])
    requires r == [x[0] % F1, Read1(x[0], x[1]), Read2(x[1], x[2]), Read3(x[2], x[3]), (x[3] / 0x1000) % F1]
    ensures Small(r, F1) && FVal(r) == WordsVal(x) % TWO255
  {
    WordsVal4(x);
    var top, h3 := x[3] / 0x1000 / F1, (x[3] / 0x1000) % F1;
    ReadSum(x[0] % F1, x[0] / F1, x[1] % 0x40_0000_0000, x[1] / 0x40_0000_0000, x[2] % 0x200_0000, x[2] / 0x200_0000,
      x[3] % 0x1000, h3, top);
    RemainderUnique(WordsVal(x), TWO255, top, FVal(r));
  }

  /** curve25519_expand: the low 255 bits of a little-endian number. */
  method ExpandField(input: seq<byte>) returns (out: seq<int>)
    requires |input| == 32
    ensures Small(out, F1) && FVal(out) == LeNat(input) % TWO255
  {
    var x := AllWords(input, 4);
    WordsOfBytes(input, 4);
    out := [x[0] % F1, Read1(x[0], x[1]), Read2(x[1], x[2]), Read3(x[2], x[3]), (x[3] / 0x1000) % F1];
    ReadValue(x, out);
  }

  /** Exporting what was imported reduces the low 255 bits modulo p: the identity below p. */
  method ContractOfExpandField(input: seq<byte>) returns (out: seq<byte>)
    requires |input| == 32
    ensures out == LeBytes((LeNat(input) % TWO255) % P, 32)
    ensures LeNat(input) < P ==> out == input
  {
    var a := ExpandField(input);
    out := Contract(a);
    if LeNat(input) < P {
      RemainderUnique(LeNat(input), TWO255, 0, LeNat(input));
      RemainderUnique(LeNat(input), P, 0, LeNat(input));
      CanonicalBytes(input);
    }
  }
}
