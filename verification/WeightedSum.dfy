/** Sums of scalar multiples, the quantity that multi-scalar multiplication computes. */
module WeightedSum {
  import opened AbelianGroup

  // ---------- sums of numbers ----------

  ghost function Sum(v: seq<int>, n: nat): int
    requires n <= |v|
  {
    if n == 0 then 0 else Sum(v, n - 1) + v[n - 1]
  }

  lemma {:induction false} SumAgrees(v: seq<int>, w: seq<int>, n: nat)
    requires n <= |v| && n <= |w| && forall i :: 0 <= i < n ==> v[i] == w[i]
    ensures Sum(v, n) == Sum(w, n)
  {
    if n > 0 {
      SumAgrees(v, w, n - 1);
    }
  }

  lemma {:induction false} SumUpdate(v: seq<int>, n: nat, a: nat, x: int)
    requires a < n <= |v|
    ensures Sum(v[a := x], n) == Sum(v, n) - v[a] + x
  {
    if a == n - 1 {
      SumAgrees(v, v[a := x], n - 1);
    } else {
      SumUpdate(v, n - 1, a, x);
    }
  }

  lemma {:induction false} SumNonNegative(v: seq<int>, n: nat)
    requires n <= |v| && forall i :: 0 <= i < n ==> v[i] >= 0
    ensures Sum(v, n) >= 0
  {
    if n > 0 {
      SumNonNegative(v, n - 1);
    }
  }

  // ---------- sums of group elements ----------

  /** The sum of the first n terms. */
  function Total<G>(g: Ops<G>, t: seq<G>, n: nat): G
    requires n <= |t|
  {
    if n == 0 then g.zero else Add(g, Total(g, t, n - 1), t[n - 1])
  }

  function Terms<G>(g: Ops<G>, s: seq<int>, p: seq<G>): (t: seq<G>)
    requires |s| == |p|
    ensures |t| == |s|
  {
    seq(|s|, i requires 0 <= i < |s| => Mul(g, s[i], p[i]))
  }

  /** The sum of s[i] p[i] over the first n entries. */
  function Weighted<G>(g: Ops<G>, s: seq<int>, p: seq<G>, n: nat): G
    requires n <= |s| == |p|
  {
    Total(g, Terms(g, s, p), n)
  }

  lemma {:induction false} TotalAgrees<G>(g: Ops<G>, t: seq<G>, u: seq<G>, n: nat)
    requires n <= |t| && n <= |u| && forall i :: 0 <= i < n ==> t[i] == u[i]
    ensures Total(g, t, n) == Total(g, u, n)
  {
    if n > 0 {
      TotalAgrees(g, t, u, n - 1);
    }
  }

  /** (r + y) + z = (r + z) + y */
  lemma Swap<G(!new)>(g: Ops<G>, r: G, y: G, z: G)
    requires Abelian(g)
    ensures Add(g, Add(g, r, y), z) == Add(g, Add(g, r, z), y)
  {
    Assoc(g, r, y, z);
    Comm(g, y, z);
    Assoc(g, r, z, y);
  }

  /** Changing one term changes the total by the difference. */
  lemma {:induction false} TotalUpdate<G(!new)>(g: Ops<G>, t: seq<G>, n: nat, a: nat, x: G)
    requires Abelian(g) && a < n <= |t|
    ensures Add(g, Total(g, t[a := x], n), t[a]) == Add(g, Total(g, t, n), x)
  {
    var u := t[a := x];
    if a == n - 1 {
      TotalAgrees(g, t, u, n - 1);
      var r := Total(g, t, n - 1);
      Assoc(g, r, x, t[a]);
      Assoc(g, r, t[a], x);
      Comm(g, x, t[a]);
    } else {
      TotalUpdate(g, t, n - 1, a, x);
      var y := t[n - 1];
      Swap(g, Total(g, u, n - 1), y, t[a]);
      Swap(g, Total(g, t, n - 1), y, x);
    }
  }

  /** Changing two terms without changing their sum keeps the total. */
  lemma TotalTwoUpdates<G(!new)>(g: Ops<G>, t: seq<G>, n: nat, a: nat, b: nat, x: G, y: G)
    requires Abelian(g) && a < n <= |t| && b < n && a != b
    requires Add(g, x, y) == Add(g, t[a], t[b])
    ensures Total(g, t[a := x][b := y], n) == Total(g, t, n)
  {
    var u := t[a := x];
    TotalUpdate(g, t, n, a, x);
    TotalUpdate(g, u, n, b, y);
    var T, U, W := Total(g, t, n), Total(g, u, n), Total(g, u[b := y], n);
    // U + t[a] = T + x and W + t[b] = U + y, so W + (t[a] + t[b]) = T + (x + y)
    var q := Add(g, t[a], t[b]);
    calc {
      Add(g, W, q);
      { Comm(g, t[a], t[b]); Assoc(g, W, t[b], t[a]); }
      Add(g, Add(g, W, t[b]), t[a]);
      Add(g, Add(g, U, y), t[a]);
      { Swap(g, U, y, t[a]); }
      Add(g, Add(g, U, t[a]), y);
      Add(g, Add(g, T, x), y);
      { Assoc(g, T, x, y); }
      Add(g, T, q);
    }
    Cancel(g, W, T, q);
  }

  /** s_a P_a + s_b P_b = (s_a - s_b) P_a + s_b (P_b + P_a) */
  lemma PairIdentity<G(!new)>(g: Ops<G>, sa: int, sb: int, pa: G, pb: G)
    requires Abelian(g)
    ensures Add(g, Mul(g, sa - sb, pa), Mul(g, sb, Add(g, pb, pa))) == Add(g, Mul(g, sa, pa), Mul(g, sb, pb))
  {
    var x, y, z := Mul(g, sa - sb, pa), Mul(g, sb, pa), Mul(g, sb, pb);
    MulDist(g, sb, pb, pa);
    MulAdd(g, sa - sb, sb, pa);
    Comm(g, z, y);
    Assoc(g, x, y, z);
  }

  /** One Bos-Coster step, on scalars and points, keeps the weighted sum. */
  lemma StepKeepsWeighted<G(!new)>(g: Ops<G>, s: seq<int>, p: seq<G>, n: nat, a: nat, b: nat)
    requires Abelian(g) && n <= |s| == |p| && a < n && b < n && a != b
    ensures Weighted(g, s[a := s[a] - s[b]], p[b := Add(g, p[b], p[a])], n) == Weighted(g, s, p, n)
  {
    var s', p' := s[a := s[a] - s[b]], p[b := Add(g, p[b], p[a])];
    var t := Terms(g, s, p);
    var x, y := Mul(g, s[a] - s[b], p[a]), Mul(g, s[b], Add(g, p[b], p[a]));
    assert Terms(g, s', p') == t[a := x][b := y];
    PairIdentity(g, s[a], s[b], p[a], p[b]);
    TotalTwoUpdates(g, t, n, a, b, x, y);
  }

  lemma WeightedAgrees<G>(g: Ops<G>, s: seq<int>, p: seq<G>, t: seq<int>, q: seq<G>, n: nat)
    requires n <= |s| == |p| && n <= |t| == |q|
    requires forall i :: 0 <= i < n ==> s[i] == t[i] && p[i] == q[i]
    ensures Weighted(g, s, p, n) == Weighted(g, t, q, n)
  {
    TotalAgrees(g, Terms(g, s, p), Terms(g, t, q), n);
  }

  /** When only one scalar is not zero the sum is its multiple. */
  lemma {:induction false} WeightedOfLast<G(!new)>(g: Ops<G>, s: seq<int>, p: seq<G>, n: nat, a: nat)
    requires Abelian(g) && n <= |s| == |p| && forall i :: 0 <= i < n && i != a ==> s[i] == 0
    ensures Weighted(g, s, p, n) == if a < n then Mul(g, s[a], p[a]) else g.zero
  {
    if n > 0 {
      WeightedOfLast(g, s, p, n - 1, a);
      if a == n - 1 {
        Unit(g, Mul(g, s[a], p[a]));
      } else {
        Unit(g, Weighted(g, s, p, n - 1));
      }
    }
  }
}
