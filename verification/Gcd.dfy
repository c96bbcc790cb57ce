/** Greatest common divisors of sequences of naturals, by their common divisors. */
module Gcd {
  ghost predicate IsMultiple(x: int, d: int, k: int) {
    x == d * k
  }

  ghost predicate Divides(d: nat, x: int) {
    exists k :: IsMultiple(x, d, k)
  }

  lemma DividesIntro(d: nat, x: int, k: int)
    requires x == d * k
    ensures Divides(d, x)
  {
    assert IsMultiple(x, d, k);
  }

  lemma DividesAdd(d: nat, x: int, y: int)
    requires Divides(d, x) && Divides(d, y)
    ensures Divides(d, x + y) && Divides(d, x - y)
  {
    var k :| IsMultiple(x, d, k);
    var l :| IsMultiple(y, d, l);
    assert d * (k + l) == d * k + d * l && d * (k - l) == d * k - d * l;
    DividesIntro(d, x + y, k + l);
    DividesIntro(d, x - y, k - l);
  }

  lemma DividesZero(d: nat)
    ensures Divides(d, 0)
  {
    DividesIntro(d, 0, 0);
  }

  lemma DividesSelf(d: nat)
    ensures Divides(d, d)
  {
    DividesIntro(d, d, 1);
  }

  lemma DividesAtMost(d: nat, x: int)
    requires Divides(d, x) && x > 0
    ensures 0 < d <= x
  {
    var k :| IsMultiple(x, d, k);
    if k <= 0 {
      assert false;
    }
    assert d * k >= d;
  }

  lemma DividesAntisymmetric(x: nat, y: nat)
    requires Divides(x, y) && Divides(y, x)
    ensures x == y
  {
    if x > 0 {
      DividesAtMost(y, x);
      DividesAtMost(x, y);
    } else {
      var k :| IsMultiple(y, x, k);
    }
  }

  /** Subtractive Euclid. */
  function Gcd(a: nat, b: nat): (r: nat)
    decreases a + b
  {
    if a == 0 then b else if b == 0 then a else if a >= b then Gcd(a - b, b) else Gcd(a, b - a)
  }

  /** One subtraction keeps the common divisors. */
  lemma SubtractDivisors(d: nat, x: int, y: int)
    ensures Divides(d, x) && Divides(d, y) <==> Divides(d, x - y) && Divides(d, y)
  {
    if Divides(d, x) && Divides(d, y) {
      DividesAdd(d, x, y);
    }
    if Divides(d, x - y) && Divides(d, y) {
      DividesAdd(d, x - y, y);
    }
  }

  lemma {:induction false} GcdDivisors(d: nat, a: nat, b: nat)
    ensures Divides(d, Gcd(a, b)) <==> Divides(d, a) && Divides(d, b)
    decreases a + b
  {
    if a == 0 || b == 0 {
      DividesZero(d);
    } else if a >= b {
      GcdDivisors(d, a - b, b);
      SubtractDivisors(d, a, b);
    } else {
      GcdDivisors(d, a, b - a);
      SubtractDivisors(d, b, a);
    }
  }

  ghost predicate CommonDivisor(d: nat, s: seq<int>, n: nat)
    requires n <= |s|
  {
    forall i :: 0 <= i < n ==> Divides(d, s[i])
  }

  /** The gcd of the first n numbers; 0 when they are all 0. */
  function GcdOf(s: seq<int>, n: nat): (r: nat)
    requires n <= |s|
  {
    if n == 0 then 0 else Gcd(GcdOf(s, n - 1), if s[n - 1] >= 0 then s[n - 1] else -s[n - 1])
  }

  /** The defining property: the common divisors are the divisors of the gcd. */
  lemma {:induction false} GcdOfDivisors(d: nat, s: seq<int>, n: nat)
    requires n <= |s| && forall i :: 0 <= i < n ==> s[i] >= 0
    ensures CommonDivisor(d, s, n) <==> Divides(d, GcdOf(s, n))
  {
    if n == 0 {
      DividesZero(d);
    } else {
      GcdOfDivisors(d, s, n - 1);
      GcdDivisors(d, GcdOf(s, n - 1), s[n - 1]);
      assert CommonDivisor(d, s, n) <==> CommonDivisor(d, s, n - 1) && Divides(d, s[n - 1]);
    }
  }

  /** Sequences with the same common divisors have the same gcd. */
  lemma SameDivisorsSameGcd(s: seq<int>, t: seq<int>, n: nat)
    requires n <= |s| && n <= |t|
    requires forall i :: 0 <= i < n ==> s[i] >= 0 && t[i] >= 0
    requires forall d: nat :: CommonDivisor(d, s, n) <==> CommonDivisor(d, t, n)
    ensures GcdOf(s, n) == GcdOf(t, n)
  {
    var x, y := GcdOf(s, n), GcdOf(t, n);
    DividesSelf(x);
    DividesSelf(y);
    GcdOfDivisors(x, s, n);
    GcdOfDivisors(x, t, n);
    GcdOfDivisors(y, s, n);
    GcdOfDivisors(y, t, n);
    DividesAntisymmetric(x, y);
  }

  /** Replacing an entry by its difference with another keeps the gcd. */
  lemma GcdAfterSubtraction(s: seq<int>, n: nat, a: nat, b: nat)
    requires a < n && b < n && n <= |s| && a != b
    requires forall i :: 0 <= i < n ==> s[i] >= 0
    requires s[a] >= s[b]
    ensures GcdOf(s[a := s[a] - s[b]], n) == GcdOf(s, n)
  {
    var t := s[a := s[a] - s[b]];
    forall d: nat ensures CommonDivisor(d, s, n) <==> CommonDivisor(d, t, n) {
      SubtractDivisors(d, s[a], s[b]);
      if CommonDivisor(d, s, n) {
        forall i | 0 <= i < n ensures Divides(d, t[i]) {
          assert Divides(d, s[i]) && Divides(d, s[a]) && Divides(d, s[b]);
        }
      }
      if CommonDivisor(d, t, n) {
        forall i | 0 <= i < n ensures Divides(d, s[i]) {
          assert Divides(d, t[i]) && Divides(d, t[a]) && Divides(d, t[b]);
        }
      }
    }
    SameDivisorsSameGcd(s, t, n);
  }

  /** When only one entry is not zero, it is the gcd. */
  lemma GcdOfLast(s: seq<int>, n: nat, a: nat)
    requires a < n <= |s| && s[a] >= 0 && forall i :: 0 <= i < n && i != a ==> s[i] == 0
    ensures GcdOf(s, n) == s[a]
  {
    var x := GcdOf(s, n);
    DividesSelf(x);
    GcdOfDivisors(x, s, n);
    assert Divides(x, s[a]);
    var y := s[a];
    DividesSelf(y);
    DividesZero(y);
    GcdOfDivisors(y, s, n);
    DividesAntisymmetric(x, y);
  }

  /** The gcd is at most any positive entry. */
  lemma GcdAtMost(s: seq<int>, n: nat, a: nat)
    requires a < n <= |s| && s[a] > 0 && forall i :: 0 <= i < n ==> s[i] >= 0
    ensures 0 < GcdOf(s, n) <= s[a]
  {
    var x := GcdOf(s, n);
    DividesSelf(x);
    GcdOfDivisors(x, s, n);
    DividesAtMost(x, s[a]);
  }
}
