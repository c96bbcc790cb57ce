/** Numbers written with signed digits, least significant first, in base 2. */
module Digits {
  import opened Words

  /** The value of base-2 digits. */
  function Eval(s: seq<int>): int {
    if s == [] then 0 else s[0] + 2 * Eval(s[1..])
  }

  lemma {:induction false} EvalConcat(a: seq<int>, b: seq<int>)
    ensures Eval(a + b) == Eval(a) + Pow2(|a|) * Eval(b)
  {
    if a == [] {
      assert a + b == b;
    } else {
      assert (a + b)[1..] == a[1..] + b;
      EvalConcat(a[1..], b);
      var p, n := Pow2(|a| - 1), Eval(b);
      assert 2 * (p * n) == (2 * p) * n;
    }
  }

  /** From digit i on: the low digits and the rest. */
  lemma EvalSplit(s: seq<int>, i: nat)
    requires i <= |s|
    ensures Eval(s) == Eval(s[..i]) + Pow2(i) * Eval(s[i..])
  {
    var low, high := s[..i], s[i..];
    assert s == low + high && |low| == i;
    EvalConcat(low, high);
  }

  lemma {:induction false} EvalZeros(s: seq<int>)
    requires forall k :: 0 <= k < |s| ==> s[k] == 0
    ensures Eval(s) == 0
  {
    if s != [] {
      EvalZeros(s[1..]);
    }
  }

  /** A digit, a run of zeros, and the rest. */
  lemma EvalRun(s: seq<int>, j: nat, b: nat)
    requires 1 <= b && j + b <= |s| && forall k :: j < k < j + b ==> s[k] == 0
    ensures Eval(s[j..]) == s[j] + Pow2(b) * Eval(s[j + b..])
  {
    var t := s[j..];
    EvalSplit(t, b);
    assert t[b..] == s[j + b..];
    var low := t[..b];
    assert low[0] == s[j];
    EvalZeros(low[1..]);
  }

  ghost predicate Bits(s: seq<int>) {
    forall k :: 0 <= k < |s| ==> s[k] == 0 || s[k] == 1
  }

  lemma {:induction false} BitsBound(s: seq<int>)
    requires Bits(s)
    ensures 0 <= Eval(s) < Pow2(|s|)
  {
    if s != [] {
      BitsBound(s[1..]);
    }
  }
}
