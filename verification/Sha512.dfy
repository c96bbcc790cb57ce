/**
 Streaming SHA-512 (the reference hash of ed25519-hash.h) against the one-shot definition of
 sections 5.1.2 and 6.4.2 of FIPS 180-4.

 Hashing is stated over an arbitrary function f from hash values and blocks to hash values; the
 predicate Computes ties f to the block function.
 */
module Sha512 {
  import opened Words
  import opened Bytes
  import opened Sha512Block

  type BlockFn = (seq<word>, seq<byte>) -> seq<word>

  /** f is the SHA-512 block function. */
  ghost predicate Computes(f: BlockFn) {
    forall h: seq<word>, b: seq<byte> {:trigger Compress(h, b)} :: |h| == 8 && |b| == 128 ==> f(h, b) == Compress(h, b)
  }

  function TheBlockFn(): BlockFn {
    (h: seq<word>, b: seq<byte>) => if |h| == 8 && |b| == 128 then Compress(h, b) else h
  }

  /** The functions that are the SHA-512 block function; there is one. */
  type ShaFn = f: BlockFn | Computes(f) ghost witness TheBlockFn()

  // ---------- the standard ----------

  /** The n-th 128-byte block of a byte string. */
  function Block(s: seq<byte>, n: nat): (b: seq<byte>)
    requires 128 * n + 128 <= |s|
    ensures |b| == 128
  {
    s[128 * n..128 * n + 128]
  }

  /** The intermediate hash value after the first n blocks of s. */
  function Fold(f: BlockFn, s: seq<byte>, n: nat): (r: seq<word>)
    requires 128 * n <= |s|
  {
    if n == 0 then IV else f(Fold(f, s, n - 1), Block(s, n - 1))
  }

  function PadWith(m: seq<byte>, len: seq<byte>): (p: seq<byte>)
    requires |len| == 16
    ensures |p| % 128 == 0
  {
    m + [0x80] + Zeros((239 - |m| % 128) % 128) + len
  }

  /** Section 5.1.2: a one bit, zeros, and the length in bits as a 128-bit big-endian number. */
  function Pad(m: seq<byte>): (p: seq<byte>) {
    PadWith(m, BeBytes(8 * |m|, 16))
  }

  function Digest(h: seq<word>): (d: seq<byte>) {
    if h == [] then [] else Digest(h[..|h| - 1]) + BeBytes(h[|h| - 1], 8)
  }

  /** The hash of a message under the block function f. */
  function Hash(f: BlockFn, m: seq<byte>): (d: seq<byte>) {
    var p := Pad(m);
    Digest(Fold(f, p, |p| / 128))
  }

  lemma {:induction false} FoldLength(f: ShaFn, s: seq<byte>, n: nat)
    requires 128 * n <= |s|
    ensures |Fold(f, s, n)| == 8
  {
    if n > 0 {
      FoldLength(f, s, n - 1);
      var c := Compress(Fold(f, s, n - 1), Block(s, n - 1));
    }
  }

  lemma {:induction false} DigestLength(h: seq<word>)
    ensures |Digest(h)| == 8 * |h|
  {
    if h != [] {
      DigestLength(h[..|h| - 1]);
    }
  }

  lemma HashLength(f: ShaFn, m: seq<byte>)
    ensures |Hash(f, m)| == 64
  {
    var p := Pad(m);
    FoldLength(f, p, |p| / 128);
    DigestLength(Fold(f, p, |p| / 128));
  }

  lemma {:induction false} FoldAgrees(f: BlockFn, s: seq<byte>, t: seq<byte>, n: nat)
    requires 128 * n <= |s| && 128 * n <= |t| && s[..128 * n] == t[..128 * n]
    ensures Fold(f, s, n) == Fold(f, t, n)
  {
    if n > 0 {
      assert s[..128 * (n - 1)] == s[..128 * n][..128 * (n - 1)];
      assert t[..128 * (n - 1)] == t[..128 * n][..128 * (n - 1)];
      FoldAgrees(f, s, t, n - 1);
      assert Block(s, n - 1) == s[..128 * n][128 * (n - 1)..];
      assert Block(t, n - 1) == t[..128 * n][128 * (n - 1)..];
    }
  }

  // ---------- the length counter ----------

  /** T[1] and T[0] hold the number of bits in n blocks, modulo 2^128. */
  ghost predicate Counter(t0: int, t1: int, n: nat) {
    U64(t0) && U64(t1) && t0 % 1024 == 0 && TWO64 * t1 + t0 == (1024 * n) % TWO128
  }

  /** One more block: the low word wraps exactly to zero, and then the high word goes up. */
  lemma CounterStep(t0: int, t1: int, n: nat)
    requires Counter(t0, t1, n)
    ensures var s0 := (t0 + 1024) % TWO64; Counter(s0, (t1 + if s0 == 0 then 1 else 0) % TWO64, n + 1)
  {
    var q := (1024 * n) / TWO128;
    assert 1024 * n == TWO128 * q + TWO64 * t1 + t0;
    var s0 := (t0 + 1024) % TWO64;
    if t0 + 1024 < TWO64 {
      RemainderUnique(t0 + 1024, TWO64, 0, t0 + 1024);
      RemainderUnique(1024 * (n + 1), TWO128, q, TWO64 * t1 + t0 + 1024);
    } else {
      assert t0 + 1024 == TWO64;
      if t1 + 1 < TWO64 {
        RemainderUnique(1024 * (n + 1), TWO128, q, TWO64 * (t1 + 1));
      } else {
        RemainderUnique(1024 * (n + 1), TWO128, q + 1, 0);
      }
    }
  }

  /** v without its n low bytes. */
  function HighPart(v: nat, n: nat): nat {
    if n == 0 then v else HighPart(v / 256, n - 1)
  }

  lemma {:induction false} HighPartIs(v: nat, n: nat, q: nat, lo: nat)
    requires v == Pow256(n) * q + lo && lo < Pow256(n)
    ensures HighPart(v, n) == q
    decreases n
  {
    if n > 0 {
      var pq := Pow256(n - 1) * q;
      assert v == 256 * pq + lo by { assert 256 * Pow256(n - 1) * q == 256 * pq; }
      HighPartIs(v / 256, n - 1, q, lo / 256);
    }
  }

  lemma {:induction false} BeBytesSplit(v: nat, a: nat, b: nat)
    ensures BeBytes(v, a + b) == BeBytes(HighPart(v, b), a) + BeBytes(v, b)
    decreases b
  {
    if b > 0 {
      BeBytesSplit(v / 256, a, b - 1);
    }
  }

  lemma ModSteps(v: nat, p: nat)
    requires p > 0
    ensures v % (256 * p) == 256 * ((v / 256) % p) + v % 256
  {
    var q, r := v / 256 / p, (v / 256) % p;
    DivMod(v / 256, p);
    assert 256 * (p * q) == 256 * p * q;
    RemainderUnique(v, 256 * p, q, 256 * r + v % 256);
  }

  /** Only the value modulo 256^n matters. */
  lemma {:induction false} BeBytesMod(u: nat, v: nat, n: nat)
    requires u % Pow256(n) == v % Pow256(n)
    ensures BeBytes(u, n) == BeBytes(v, n)
    decreases n
  {
    if n > 0 {
      ModSteps(u, Pow256(n - 1));
      ModSteps(v, Pow256(n - 1));
      BeBytesMod(u / 256, v / 256, n - 1);
    }
  }

  lemma SameRemainder(x: int, d: int, q: int, r: int)
    requires d > 0 && 0 <= r < d && x == d * q + r
    ensures x % d == r % d
  {
    RemainderUnique(x, d, q, r);
    RemainderUnique(r, d, 0, r);
  }

  /** Two words of a number v = 2^64 (2^64 q + t1) + lo. */
  lemma TwoWords(v: nat, q: nat, t1: nat, lo: nat)
    requires v == TWO64 * (TWO64 * q + t1) + lo && U64(t1) && U64(lo)
    ensures BeBytes(v, 16) == BeBytes(t1, 8) + BeBytes(lo, 8)
  {
    var high := TWO64 * q + t1;
    Pow256Of8();
    BeBytesSplit(v, 8, 8);
    HighPartIs(v, 8, high, lo);
    SameRemainder(v, TWO64, high, lo);
    BeBytesMod(v, lo, 8);
    SameRemainder(high, TWO64, q, t1);
    BeBytesMod(high, t1, 8);
  }

  /** The low word has room for the bits still in the buffer. */
  lemma RoomBelow(t0: int, leftover: nat)
    requires U64(t0) && t0 % 1024 == 0 && leftover < 128
    ensures (t0 + leftover * 8) % TWO64 == t0 + leftover * 8
  {
    assert t0 <= TWO64 - 1024;
    RemainderUnique(t0 + leftover * 8, TWO64, 0, t0 + leftover * 8);
  }

  /** The 16 length bytes: t1 and then t0 plus the bits still in the buffer. */
  lemma LengthBytes(t0: int, t1: int, n: nat, leftover: nat, lo: nat)
    requires Counter(t0, t1, n) && leftover < 128 && lo == (t0 + leftover * 8) % TWO64
    ensures BeBytes(t1, 8) + BeBytes(lo, 8) == BeBytes(8 * (128 * n + leftover), 16)
  {
    DivMod(1024 * n, TWO128);
    RoomBelow(t0, leftover);
    TwoWords(8 * (128 * n + leftover), (1024 * n) / TWO128, t1, lo);
  }

  // ---------- the code ----------

  /** Eight big-endian words. */
  method WriteDigest(h: array<word>) returns (hash: seq<byte>)
    requires h.Length == 8
    ensures hash == Digest(h[..]) && |hash| == 64
  {
    hash := [];
    for i := 0 to 8
      invariant hash == Digest(h[..i]) && |hash| == 8 * i
    {
      assert h[..i + 1][..i] == h[..i];
      var p := Store64(h[i]);
      hash := hash + p;
    }
    assert h[..8] == h[..];
  }

  method LengthEncoding(t0: int, t1: int, leftover: nat, ghost n: nat) returns (b1: seq<byte>, b0: seq<byte>)
    requires Counter(t0, t1, n) && leftover < 128
    ensures |b1| == |b0| == 8 && b1 + b0 == BeBytes(8 * (128 * n + leftover), 16)
  {
    var lo := (t0 + leftover * 8) % TWO64;
    b1 := Store64(t1);
    b0 := Store64(lo);
    LengthBytes(t0, t1, n, leftover, lo);
  }

  method InitialHash() returns (h: array<word>)
    ensures fresh(h) && h.Length == 8 && h[..] == IV
  {
    h := new word[8](i requires 0 <= i < 8 => IV[i]);
  }

  method Copy(h: array<word>) returns (r: array<word>)
    requires h.Length == 8
    ensures fresh(r) && r.Length == 8 && r[..] == h[..]
  {
    r := new word[8];
    for i := 0 to 8
      invariant r[..i] == h[..i]
    {
      r[i] := h[i];
    }
    assert r[..] == r[..8] && h[..] == h[..8];
  }

  method AbsorbBlock(h: array<word>, r: array<word>, block: seq<byte>, ghost f: ShaFn)
    requires h.Length == r.Length == 8 && h != r && r[..] == h[..] && |block| == 128
    modifies h, r
    ensures h[..] == r[..] == f(old(h[..]), block)
  {
    CompressBlock(h, r, block);
  }

  lemma BlockOf(m: seq<byte>, n: nat, blocks: nat, input: seq<byte>, k: nat)
    requires k < blocks && 128 * blocks <= |input| && 128 * (n + blocks) <= |m|
    requires m[128 * n..128 * (n + blocks)] == input[..128 * blocks]
    ensures Block(m, n + k) == input[128 * k..128 * k + 128]
  {
    var b, c := Block(m, n + k), input[128 * k..128 * k + 128];
    forall i | 0 <= i < 128 ensures b[i] == c[i] {
      assert m[128 * n..128 * (n + blocks)][128 * k + i] == input[..128 * blocks][128 * k + i];
    }
  }

  lemma Empty(f: BlockFn)
    ensures Fold(f, [], 0) == IV && Counter(0, 0, 0)
  {
  }

  /** What the fields of the state say about the message absorbed so far. */
  ghost predicate Absorbed(f: ShaFn, msg: seq<byte>, leftover: nat, buffer: seq<byte>, h: seq<word>, t0: int, t1: int) {
    && leftover == |msg| % 128 && leftover <= |buffer|
    && buffer[..leftover] == msg[|msg| - leftover..]
    && h == Fold(f, msg, |msg| / 128)
    && Counter(t0, t1, |msg| / 128)
  }

  lemma Slices(m: seq<byte>, n: nat, blocks: nat, rest: seq<byte>)
    requires 128 * n <= |m| && rest == m[128 * n..] && blocks == |rest| / 128
    ensures var l := |rest| - 128 * blocks;
      && 0 <= l < 128 && |m| / 128 == n + blocks && |m| % 128 == l
      && m[128 * n..128 * (n + blocks)] == rest[..128 * blocks]
      && rest[128 * blocks..] == m[|m| - l..] && (l == 0 ==> m[|m| - l..] == [])
  {
  }

  lemma AbsorbedAfter(f: ShaFn, m: seq<byte>, n: nat, blocks: nat, rest: seq<byte>, leftover: nat, buffer: seq<byte>,
                      h: seq<word>, t0: int, t1: int)
    requires 128 * n <= |m| && rest == m[128 * n..] && blocks == |rest| / 128 && leftover == |rest| - 128 * blocks
    requires leftover <= |buffer| && buffer[..leftover] == rest[128 * blocks..]
    requires 128 * (n + blocks) <= |m| && h == Fold(f, m, n + blocks) && Counter(t0, t1, n + blocks)
    ensures Absorbed(f, m, leftover, buffer, h, t0, t1)
  {
    Slices(m, n, blocks, rest);
  }

  /** What follows the last whole block of the message. */
  function PadRest(m: seq<byte>, len: seq<byte>): (t: seq<byte>)
    requires |len| == 16
    ensures |t| == if |m| % 128 <= 111 then 128 else 256
  {
    var l := |m| % 128;
    m[|m| - l..] + [0x80] + Zeros(if l <= 111 then 111 - l else 239 - l) + len
  }

  lemma Reassociate(a: seq<byte>, b: seq<byte>, c: seq<byte>, d: seq<byte>, e: seq<byte>)
    ensures a + b + c + d + e == a + (b + c + d + e)
    ensures (a + b + c + d + e)[..|a|] == a && (a + b + c + d + e)[|a|..] == b + c + d + e
  {
  }

  lemma PadZeros(l: nat)
    requires l < 128
    ensures (239 - l) % 128 == if l <= 111 then 111 - l else 239 - l
  {
  }

  lemma WholeBlocks(m: seq<byte>)
    ensures var n, l := |m| / 128, |m| % 128;
      128 * n == |m| - l && m == m[..128 * n] + m[|m| - l..]
  {
  }

  lemma PadTail(m: seq<byte>, len: seq<byte>)
    requires |len| == 16
    ensures var n, p := |m| / 128, PadWith(m, len);
      && 128 * n <= |m| && |p| == 128 * n + |PadRest(m, len)|
      && p[..128 * n] == m[..128 * n] && p[128 * n..] == PadRest(m, len)
  {
    var n, l := |m| / 128, |m| % 128;
    WholeBlocks(m);
    PadZeros(l);
    Reassociate(m[..128 * n], m[|m| - l..], [0x80], Zeros((239 - l) % 128), len);
  }

  lemma ZerosAdd(a: nat, b: nat)
    ensures Zeros(a + b) == Zeros(a) + Zeros(b)
  {
  }

  lemma SplitAt(a: seq<byte>, b: seq<byte>, c: seq<byte>, d: seq<byte>)
    ensures (a + (b + c) + d)[..|a| + |b|] == a + b && (a + (b + c) + d)[|a| + |b|..] == c + d
  {
  }

  /** When the length does not fit, the first of the two last blocks ends in zeros. */
  lemma PadSplit(m: seq<byte>, len: seq<byte>)
    requires |len| == 16 && |m| % 128 > 111
    ensures var l := |m| % 128;
      && PadRest(m, len)[..128] == m[|m| - l..] + [0x80] + Zeros(127 - l)
      && PadRest(m, len)[128..] == Zeros(112) + len
  {
    var l := |m| % 128;
    ZerosAdd(127 - l, 112);
    SplitAt(m[|m| - l..] + [0x80], Zeros(127 - l), Zeros(112), len);
  }

  lemma TailLength(m: seq<byte>, n: nat, blocks: nat, leftover: nat)
    requires |m| == 128 * n + 128 * blocks + leftover && leftover < 128
    ensures |m| / 128 == n + blocks && |m| % 128 == leftover
  {
  }

  /** The buffer after topping it up holds the next bytes of the message. */
  lemma Filled(msg: seq<byte>, input: seq<byte>, leftover: nat, want: nat, buffer: seq<byte>)
    requires leftover == |msg| % 128 && want <= |input| && leftover + want <= 128 == |buffer|
    requires buffer[..leftover + want] == msg[|msg| - leftover..] + input[..want]
    ensures var m, n := msg + input, |msg| / 128;
      && buffer[..leftover + want] == m[128 * n..128 * n + leftover + want]
      && (leftover + want == 128 ==> buffer == m[128 * n..128 * (n + 1)] && input[want..] == m[128 * (n + 1)..])
  {
    if leftover + want == 128 {
      assert buffer == buffer[..128];
    }
  }

  /** memcpy */
  method CopyBytes(dst: array<byte>, at: nat, src: seq<byte>)
    requires at + |src| <= dst.Length
    modifies dst
    ensures dst[..at + |src|] == old(dst[..at]) + src && dst[at + |src|..] == old(dst[at + |src|..])
  {
    for i := 0 to |src|
      invariant dst[..at + i] == old(dst[..at]) + src[..i] && dst[at + |src|..] == old(dst[at + |src|..])
    {
      dst[at + i] := src[i];
    }
  }

  function Flatten(parts: seq<seq<byte>>): (m: seq<byte>) {
    if parts == [] then [] else Flatten(parts[..|parts| - 1]) + parts[|parts| - 1]
  }

  lemma FlattenNext(parts: seq<seq<byte>>, i: nat, m: seq<byte>)
    requires i < |parts|
    ensures m + Flatten(parts[..i]) + parts[i] == m + Flatten(parts[..i + 1])
  {
    assert parts[..i + 1][..i] == parts[..i];
  }

  class State {
    var H: array<word>
    var T0: int
    var T1: int
    var leftover: nat
    var buffer: array<byte>
    ghost const f: ShaFn
    ghost var msg: seq<byte>  // everything absorbed since the start

    ghost predicate Shape()
      reads this
    {
      H.Length == 8 && buffer.Length == 128 && H as object != buffer as object
    }

    ghost predicate Valid()
      reads this, H, buffer
    {
      Shape() && Absorbed(f, msg, leftover, buffer[..], H[..], T0, T1)
    }

    constructor (ghost g: ShaFn)
      ensures Valid() && fresh(H) && fresh(buffer) && msg == [] && f == g
    {
      var h := InitialHash();
      var b := new byte[128];
      H, buffer := h, b;
      T0, T1, leftover := 0, 0, 0;
      f := g;
      msg := [];
      new;
      Empty(f);
      assert buffer[..0] == [];
    }

    /** sha512_blocks: absorb `blocks` blocks of `input`, which are the blocks n.. of m. */
    method Blocks(input: seq<byte>, blocks: nat, ghost m: seq<byte>, ghost n: nat)
      requires Shape() && 128 * blocks <= |input| && 128 * (n + blocks) <= |m|
      requires m[128 * n..128 * (n + blocks)] == input[..128 * blocks]
      requires H[..] == Fold(f, m, n) && Counter(T0, T1, n)
      modifies H, this`T0, this`T1
      ensures H[..] == Fold(f, m, n + blocks) && Counter(T0, T1, n + blocks)
    {
      var r := Copy(H);
      for k := 0 to blocks
        invariant r[..] == H[..] && H[..] == Fold(f, m, n + k) && Counter(T0, T1, n + k)
      {
        BlockOf(m, n, blocks, input, k);
        BlockTurn(r, input[128 * k..128 * k + 128], m, n + k);
      }
    }

    /** One turn of the block loop. */
    method BlockTurn(r: array<word>, block: seq<byte>, ghost m: seq<byte>, ghost n: nat)
      requires Shape() && r.Length == 8 && r != H && r[..] == H[..] && 128 * n + 128 <= |m| && block == Block(m, n)
      requires H[..] == Fold(f, m, n) && Counter(T0, T1, n)
      modifies H, r, this`T0, this`T1
      ensures r[..] == H[..] && H[..] == Fold(f, m, n + 1) && Counter(T0, T1, n + 1)
    {
      AbsorbBlock(H, r, block, f);
      CounterStep(T0, T1, n);
      T0 := (T0 + 1024) % TWO64;
      T1 := (T1 + if T0 == 0 then 1 else 0) % TWO64;
    }

    /** Whole blocks of the input go straight to the hash, the tail to the buffer. */
    method AbsorbRest(rest: seq<byte>, ghost m: seq<byte>, ghost n: nat)
      requires Shape() && 128 * n <= |m| && rest == m[128 * n..]
      requires H[..] == Fold(f, m, n) && Counter(T0, T1, n)
      modifies this, H, buffer
      ensures Valid() && H == old(H) && buffer == old(buffer) && msg == m
    {
      var blocks := |rest| / 128;
      leftover := |rest| - 128 * blocks;
      Slices(m, n, blocks, rest);
      AbsorbWhole(rest, blocks, m, n);
      KeepTail(rest[128 * blocks..]);
      msg := m;
      assert buffer[..][..leftover] == buffer[..leftover];
      AbsorbedAfter(f, m, n, blocks, rest, leftover, buffer[..], H[..], T0, T1);
    }

    method AbsorbWhole(rest: seq<byte>, blocks: nat, ghost m: seq<byte>, ghost n: nat)
      requires Shape() && 128 * blocks <= |rest| && 128 * (n + blocks) <= |m|
      requires m[128 * n..128 * (n + blocks)] == rest[..128 * blocks]
      requires H[..] == Fold(f, m, n) && Counter(T0, T1, n)
      modifies H, this`T0, this`T1
      ensures H[..] == Fold(f, m, n + blocks) && Counter(T0, T1, n + blocks)
    {
      if blocks != 0 {
        Blocks(rest, blocks, m, n);
      }
    }

    /** What is left over goes to the buffer. */
    method KeepTail(tail: seq<byte>)
      requires buffer.Length == 128 && |tail| == leftover < 128
      modifies buffer
      ensures buffer[..leftover] == tail
    {
      if leftover != 0 {
        CopyBytes(buffer, 0, tail);
      }
    }

    /** ed25519_hash_update */
    method Update(input: seq<byte>)
      requires Valid()
      modifies this, H, buffer
      ensures Valid() && H == old(H) && buffer == old(buffer) && msg == old(msg) + input
    {
      ghost var m, n := msg + input, |msg| / 128;
      FoldAgrees(f, msg, m, n);
      var want := 0;
      if leftover != 0 {
        want := TopUp(input);
        if leftover < 128 {
          TailLength(m, n, 0, leftover);
          msg := m;
          return;
        }
        Blocks(buffer[..], 1, m, n);
        n := n + 1;
      }
      assert input[want..] == m[128 * n..];
      AbsorbRest(input[want..], m, n);
    }

    /** One update for each part. */
    method UpdateAll(parts: seq<seq<byte>>)
      requires Valid()
      modifies this, H, buffer
      ensures Valid() && H == old(H) && buffer == old(buffer) && msg == old(msg) + Flatten(parts)
    {
      ghost var m := msg;
      assert m + [] == m && parts[..0] == [];
      for i := 0 to |parts|
        invariant Valid() && H == old(H) && buffer == old(buffer) && msg == m + Flatten(parts[..i])
      {
        FlattenNext(parts, i, m);
        Update(parts[i]);
      }
      assert parts[..|parts|] == parts;
    }

    /** Write the padding and the length bytes b1, b0, absorbing the one or two last blocks. */
    method PadAndAbsorb(b1: seq<byte>, b0: seq<byte>, ghost p: seq<byte>)
      requires Valid() && |b1| == |b0| == 8 && p == PadWith(msg, b1 + b0)
      modifies H, buffer, this`T0, this`T1
      ensures H[..] == Fold(f, p, |p| / 128)
    {
      ghost var n := PadBuffer(b1 + b0, p);
      AbsorbLength(b1, b0, p, n);
    }

    /** Everything up to the place of the length. */
    method PadBuffer(ghost len: seq<byte>, ghost p: seq<byte>) returns (ghost n: nat)
      requires Valid() && |len| == 16 && p == PadWith(msg, len)
      modifies H, buffer, this`T0, this`T1
      ensures |p| == 128 * (n + 1) && H[..] == Fold(f, p, n) && Counter(T0, T1, n)
      ensures p[128 * n..] == buffer[..112] + len
    {
      n := |msg| / 128;
      PadTail(msg, len);
      FoldAgrees(f, msg, p, n);
      CopyBytes(buffer, leftover, [0x80]);
      if leftover <= 111 {
        CopyBytes(buffer, leftover + 1, Zeros(111 - leftover));
      } else {
        CopyBytes(buffer, leftover + 1, Zeros(127 - leftover));
        PadSplit(msg, len);
        assert buffer[..] == buffer[..128];
        assert p[128 * n..128 * (n + 1)] == PadRest(msg, len)[..128];
        AbsorbFull(p, n);
        n := n + 1;
        assert p[128 * n..] == PadRest(msg, len)[128..];
      }
    }

    /** A full block of message end and padding; the next one starts with zeros. */
    method AbsorbFull(ghost p: seq<byte>, ghost n: nat)
      requires Shape() && 128 * (n + 1) <= |p| && p[128 * n..128 * (n + 1)] == buffer[..]
      requires H[..] == Fold(f, p, n) && Counter(T0, T1, n)
      modifies H, buffer, this`T0, this`T1
      ensures H[..] == Fold(f, p, n + 1) && Counter(T0, T1, n + 1) && buffer[..112] == Zeros(112)
    {
      assert buffer[..][..128 * 1] == buffer[..];
      Blocks(buffer[..], 1, p, n);
      CopyBytes(buffer, 0, Zeros(112));
      assert buffer[..112] == Zeros(112);
    }

    /** The last block: 112 bytes are in place, the length goes behind them. */
    method AbsorbLength(b1: seq<byte>, b0: seq<byte>, ghost p: seq<byte>, ghost n: nat)
      requires Shape() && |b1| == |b0| == 8 && |p| == 128 * (n + 1)
      requires H[..] == Fold(f, p, n) && Counter(T0, T1, n)
      requires p[128 * n..] == buffer[..112] + (b1 + b0)
      modifies H, buffer, this`T0, this`T1
      ensures H[..] == Fold(f, p, |p| / 128)
    {
      PutLength(b1, b0);
      assert p[128 * n..128 * (n + 1)] == p[128 * n..] == buffer[..][..128 * 1];
      Blocks(buffer[..], 1, p, n);
    }

    method PutLength(b1: seq<byte>, b0: seq<byte>)
      requires Shape() && |b1| == |b0| == 8
      modifies buffer
      ensures buffer[..] == old(buffer[..112]) + (b1 + b0)
    {
      ghost var front := buffer[..112];
      CopyBytes(buffer, 112, b1);
      CopyBytes(buffer, 120, b0);
      assert buffer[..] == buffer[..128] == front + b1 + b0;
    }

    /** ed25519_hash_final */
    method Final() returns (hash: seq<byte>)
      requires Valid()
      modifies H, buffer, this`T0, this`T1
      ensures hash == Hash(f, msg) && |hash| == 64
    {
      var b1, b0 := LengthWords();
      PadAndAbsorb(b1, b0, Pad(msg));
      hash := WriteDigest(H);
    }

    /** The two words of the length in bits. */
    method LengthWords() returns (b1: seq<byte>, b0: seq<byte>)
      requires Valid()
      ensures |b1| == |b0| == 8 && Pad(msg) == PadWith(msg, b1 + b0)
    {
      ghost var n := |msg| / 128;
      assert |msg| == 128 * n + leftover;
      b1, b0 := LengthEncoding(T0, T1, leftover, n);
    }

    /** Top up the buffer from the input, as far as it goes. */
    method TopUp(input: seq<byte>) returns (want: nat)
      requires Valid() && leftover != 0
      modifies this`leftover, buffer
      ensures Shape() && want <= |input| && leftover == old(leftover) + want <= 128
      ensures var m, n := msg + input, |msg| / 128;
        && buffer[..leftover] == m[128 * n..128 * n + leftover]
        && (leftover < 128 ==> want == |input|)
        && (leftover == 128 ==> buffer[..] == m[128 * n..128 * (n + 1)] && input[want..] == m[128 * (n + 1)..])
    {
      want := 128 - leftover;
      want := if want < |input| then want else |input|;
      ghost var front := buffer[..leftover];
      CopyBytes(buffer, leftover, input[..want]);
      assert buffer[..][..leftover + want] == buffer[..leftover + want] == front + input[..want];
      Filled(msg, input, leftover, want, buffer[..]);
      leftover := leftover + want;
    }
  }

  lemma FlattenTwo(a: seq<byte>, b: seq<byte>)
    ensures Flatten([a, b]) == a + b
  {
    assert [a, b][..1] == [a] && [a][..0] == [];
    assert Flatten([a]) == Flatten([]) + a;
  }

  lemma FlattenThree(a: seq<byte>, b: seq<byte>, c: seq<byte>)
    ensures Flatten([a, b, c]) == a + b + c
  {
    assert [a, b, c][..2] == [a, b];
    FlattenTwo(a, b);
  }

  method Finish(state: State, ghost m: seq<byte>) returns (hash: seq<byte>)
    requires state.Valid() && state.msg == [] + m
    modifies state.H, state.buffer, state`T0, state`T1
    ensures hash == Hash(state.f, m) && |hash| == 64
  {
    assert [] + m == m;
    hash := state.Final();
  }

  /** ed25519_hash: one call for a whole message. */
  method HashMessage(input: seq<byte>, ghost f: ShaFn) returns (hash: seq<byte>)
    ensures hash == Hash(f, input)
  {
    var state := new State(f);
    state.Update(input);
    hash := Finish(state, input);
  }

  /** Any split of a message into updates, empty ones included, gives the hash of the whole. */
  method HashParts(parts: seq<seq<byte>>, ghost f: ShaFn) returns (hash: seq<byte>)
    ensures hash == Hash(f, Flatten(parts)) && |hash| == 64
  {
    var state := new State(f);
    state.UpdateAll(parts);
    hash := Finish(state, Flatten(parts));
  }

  type HashFn = seq<byte> -> seq<byte>

  /** h is SHA-512 as a function on messages. */
  ghost predicate HashedBy(f: ShaFn, h: HashFn) {
    forall m {:trigger Hash(f, m)} :: h(m) == Hash(f, m)
  }
}
