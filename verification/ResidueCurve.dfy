/** The residues modulo m are a group of the kind the signature scheme asks for: its hypotheses are consistent. */
module ResidueCurve {
  import opened Words
  import opened Bytes
  import opened Modm
  import opened AbelianGroup
  import opened Points
  import opened BaseScalarmult
  import opened SignOpen

  type residue = r: int | 0 <= r < M

  function Plus(a: residue, b: residue): residue {
    if a + b < M then a + b else a + b - M
  }

  function Minus(a: residue): residue {
    if a == 0 then 0 else M - a
  }

  function Residues(): Ops<residue> {
    Ops(0, Plus, Minus)
  }

  lemma ResiduesAbelian()
    ensures Abelian(Residues())
  {
    var g := Residues();
    forall a: residue, b: residue, c: residue ensures AssocAt(g, a, b, c) {}
    forall a: residue, b: residue ensures CommAt(g, a, b) {}
    forall a: residue ensures UnitAt(g, a) {}
    forall a: residue ensures InverseAt(g, a) {}
  }

  lemma {:induction false} ResiduesMul(n: nat)
    requires n < M
    ensures Mul(Residues(), n, 1) == n
  {
    if n > 0 {
      ResiduesMul(n - 1);
    }
  }

  function CombEntries(): (t: seq<Niels<residue>>) {
    seq(256, k requires 0 <= k < 256 => Niels(Mul(Residues(), (k % 8 + 1) * Pow256(k / 8), 1), true, true))
  }

  function OddEntries(): (t: seq<Niels<residue>>) {
    seq(32, k requires 0 <= k < 32 => Niels(Mul(Residues(), 2 * k + 1, 1), true, true))
  }

  function TheCurve(): Curve<residue> {
    Curve(Residues(), 1, CombEntries(), OddEntries(), (p: residue) => LeBytes(p, 32),
      (b: seq<byte>) => Some(Minus(LeNat(b) % M)))
  }

  lemma CombEntriesOk(c: Curve<residue>)
    requires c == TheCurve()
    ensures CombTable(c.g, c.comb, c.base)
  {
    forall pos: nat, i: nat | pos < 32 && i < 8 ensures EntryOk(c.g, c.comb, c.base, pos, i) {
      var k := pos * 8 + i;
      assert k / 8 == pos && k % 8 == i;
    }
  }

  lemma CurveExists()
    ensures GoodCurve(TheCurve())
  {
    var c := TheCurve();
    ResiduesAbelian();
    ResiduesMul(M - 1);
    CombEntriesOk(c);
    forall p: residue ensures PackAt(c, p) {
      ResponseBytes(p);
      RemainderUnique(p, M, 0, p);
    }
  }
}
