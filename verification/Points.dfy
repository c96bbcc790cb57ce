/**
 The point types of ed25519-donna-impl-base.h over an abstract group.  Coordinates are not
 modelled; what is modelled is which redundant coordinate is up to date, because the partial
 conversions leave it stale and the additions read it.
 */
module Points {
  import opened AbelianGroup

  /** ge25519: `hasT` says that t is the product x y / z. */
  datatype Ge<G> = Ge(val: G, hasT: bool)

  /** ge25519_p1p1 */
  datatype P1P1<G> = P1P1(val: G)

  /** ge25519_pniels */
  datatype Pniels<G> = Pniels(val: G)

  /**
   ge25519_niels: `hasT2d` says that the field t2d holds 2 d x y, `hasT2` that it holds 2 x y.
   The entries of the base table at position 0 are of the second kind; the neutral point is of both.
   */
  datatype Niels<G> = Niels(val: G, hasT2d: bool, hasT2: bool)

  function Neutral<G>(g: Ops<G>): (r: Ge<G>) {
    Ge(g.zero, true)
  }

  function ToPartial<G>(p: P1P1<G>): (r: Ge<G>) {
    Ge(p.val, false)
  }

  function ToFull<G>(p: P1P1<G>): (r: Ge<G>) {
    Ge(p.val, true)
  }

  function DoubleP1P1<G>(g: Ops<G>, p: Ge<G>): (r: P1P1<G>) {
    P1P1(Add(g, p.val, p.val))
  }

  function Double<G>(g: Ops<G>, p: Ge<G>): (r: Ge<G>) {
    ToFull(DoubleP1P1(g, p))
  }

  function DoublePartial<G>(g: Ops<G>, p: Ge<G>): (r: Ge<G>) {
    ToPartial(DoubleP1P1(g, p))
  }

  function ToPniels<G>(p: Ge<G>): (r: Pniels<G>)
    requires p.hasT
  {
    Pniels(p.val)
  }

  function PnielsAdd<G>(g: Ops<G>, p: Ge<G>, q: Pniels<G>): (r: Pniels<G>)
    requires p.hasT
  {
    Pniels(Add(g, p.val, q.val))
  }

  function PnielsAddP1P1<G>(g: Ops<G>, p: Ge<G>, q: Pniels<G>, sign: int): (r: P1P1<G>)
    requires p.hasT
  {
    P1P1(Add(g, p.val, if sign == 1 then Neg(g, q.val) else q.val))
  }

  function NielsAdd2P1P1<G>(g: Ops<G>, p: Ge<G>, q: Niels<G>, sign: int): (r: P1P1<G>)
    requires p.hasT && q.hasT2d
  {
    P1P1(Add(g, p.val, if sign == 1 then Neg(g, q.val) else q.val))
  }

  function NielsAdd2<G>(g: Ops<G>, p: Ge<G>, q: Niels<G>): (r: Ge<G>)
    requires p.hasT && q.hasT2d
  {
    Ge(Add(g, p.val, q.val), true)
  }

  /** x = xaddy - ysubx, y = xaddy + ysubx, z = 2, t = t2d: a point whose t is right for 2 x y. */
  function FromNiels<G>(q: Niels<G>): (r: Ge<G>)
    requires q.hasT2
  {
    Ge(q.val, true)
  }

  /** t2d multiplied by the curve constant d. */
  function ScaleT<G>(q: Niels<G>): (r: Niels<G>)
    requires q.hasT2
  {
    Niels(q.val, true, false)
  }
}
