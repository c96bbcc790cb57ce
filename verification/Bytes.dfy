/** Little-endian byte strings and 64-bit words. */
module Bytes {
  import opened Words

  type byte = b: int | 0 <= b < 256

  /** The number a little-endian byte string stands for. */
  function LeNat(s: seq<byte>): (n: nat)
  {
    if s == [] then 0 else s[0] + 256 * LeNat(s[1..])
  }

  /** The `n` low bytes of `v`, least significant first. */
  function LeBytes(v: nat, n: nat): (s: seq<byte>)
    ensures |s| == n
  {
    if n == 0 then [] else [v % 256] + LeBytes(v / 256, n - 1)
  }

  function Zeros(n: nat): (s: seq<byte>)
    ensures |s| == n && forall i :: 0 <= i < n ==> s[i] == 0
  {
    seq(n, _ => 0)
  }

  function Pow256(n: nat): (r: nat)
    ensures r >= 1
  {
    if n == 0 then 1 else 256 * Pow256(n - 1)
  }

  lemma Pow256Of8()
    ensures Pow256(8) == TWO64
  {
    assert Pow256(4) == 0x1_0000_0000;
  }

  lemma {:induction false} Pow256Add(a: nat, b: nat)
    ensures Pow256(a + b) == Pow256(a) * Pow256(b)
    decreases b
  {
    if b > 0 {
      Pow256Add(a, b - 1);
      assert Pow256(a + b) == 256 * (Pow256(a) * Pow256(b - 1)) == Pow256(a) * (256 * Pow256(b - 1));
    }
  }

  lemma ConcatStep(d: int, x: int, y: int, p: int, n: int)
    requires x == y + p * n
    ensures d + 256 * x == d + 256 * y + 256 * p * n
  {
    assert 256 * (p * n) == 256 * p * n;
  }

  lemma {:induction false} LeNatConcat(a: seq<byte>, b: seq<byte>)
    ensures LeNat(a + b) == LeNat(a) + Pow256(|a|) * LeNat(b)
  {
    if a == [] {
      assert a + b == b;
    } else {
      assert (a + b)[1..] == a[1..] + b;
      LeNatConcat(a[1..], b);
      ConcatStep(a[0], LeNat(a[1..] + b), LeNat(a[1..]), Pow256(|a| - 1), LeNat(b));
    }
  }

  lemma {:induction false} LeNatBound(s: seq<byte>)
    ensures LeNat(s) < Pow256(|s|)
  {
    if s != [] {
      LeNatBound(s[1..]);
    }
  }

  lemma {:induction false} LeNatZeros(n: nat)
    ensures LeNat(Zeros(n)) == 0
  {
    if n > 0 {
      assert Zeros(n)[1..] == Zeros(n - 1);
      LeNatZeros(n - 1);
    }
  }

  lemma {:induction false} LeNatOfBytes(v: nat, n: nat)
    requires v < Pow256(n)
    ensures LeNat(LeBytes(v, n)) == v
    decreases n
  {
    if n > 0 {
      LeNatOfBytes(v / 256, n - 1);
      assert LeBytes(v, n)[1..] == LeBytes(v / 256, n - 1);
    }
  }

  lemma {:induction false} LeNatInjective(a: seq<byte>, b: seq<byte>)
    requires |a| == |b| && LeNat(a) == LeNat(b)
    ensures a == b
  {
    if a != [] {
      LeNatInjective(a[1..], b[1..]);
      assert a == [a[0]] + a[1..] && b == [b[0]] + b[1..];
    }
  }

  /** `U8TO64_LE(p + 8 * i)`: the i-th little-endian 64-bit word. */
  function Word(s: seq<byte>, i: nat): (w: int)
    requires 8 * i + 8 <= |s|
    ensures U64(w)
  {
    LeNatBound(s[8 * i..8 * i + 8]);
    Pow256Of8();
    LeNat(s[8 * i..8 * i + 8])
  }

  /** The number whose 64-bit words, least significant first, are `ws`. */
  function WordsVal(ws: seq<int>): int {
    if ws == [] then 0 else ws[0] + TWO64 * WordsVal(ws[1..])
  }

  function AllWords(s: seq<byte>, n: nat): (ws: seq<int>)
    requires |s| == 8 * n
    ensures |ws| == n && forall i :: 0 <= i < n ==> ws[i] == Word(s, i)
  {
    seq(n, i requires 0 <= i < n => Word(s, i))
  }

  lemma {:induction false} WordsOfBytes(s: seq<byte>, n: nat)
    requires |s| == 8 * n
    ensures WordsVal(AllWords(s, n)) == LeNat(s)
    decreases n
  {
    if n > 0 {
      var t := s[8..];
      WordsOfBytes(t, n - 1);
      assert s == s[..8] + t;
      LeNatConcat(s[..8], t);
      Pow256Of8();
      assert AllWords(s, n)[1..] == AllWords(t, n - 1) by {
        forall i | 0 <= i < n - 1 ensures AllWords(s, n)[1..][i] == AllWords(t, n - 1)[i] {
          assert s[8 * (i + 1)..8 * (i + 1) + 8] == t[8 * i..8 * i + 8];
        }
      }
      assert s[8 * 0..8 * 0 + 8] == s[..8];
    }
  }

  /** The number a big-endian byte string stands for. */
  function BeNat(s: seq<byte>): (n: nat) {
    if s == [] then 0 else 256 * BeNat(s[..|s| - 1]) + s[|s| - 1]
  }

  /** The `n` low bytes of `v`, most significant first. */
  function BeBytes(v: nat, n: nat): (s: seq<byte>)
    ensures |s| == n
  {
    if n == 0 then [] else BeBytes(v / 256, n - 1) + [v % 256]
  }
}
