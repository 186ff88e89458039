/**
 * Multiplication and powers: the product of two polynomials, the product
 * of two monomials, and raising an integer or a polynomial to a power by
 * repeated squaring.
 */
module PolyProduct {
  import opened PolyBase
  import opened PolySum

  /**
   * Orders the cases of Mul for termination: a scalar operand is swapped
   * to the front, then turned into a one-term list, then the lists are
   * multiplied term by term.
   */
  function MulRank(p: Poly, q: Poly): nat {
    if IsZero(p) || IsZero(q) || (IsCoeff(p) && IsCoeff(q)) then 0
    else if IsCoeff(q) then 4
    else if IsCoeff(p) then 3
    else 2
  }

  lemma ScalarTermDepth(c: int)
    ensures Depth(Terms([Mono(0, Coeff(c))])) == 1
  {
    assert DepthUpTo(Terms([Mono(0, Coeff(c))]), 1) == 0;
  }

  /** The product of two polynomials. */
  function Mul(p: Poly, q: Poly): (r: Poly)
    ensures TopWellFormed(r)
    decreases Max(Depth(p), Depth(q)), MulRank(p, q), 0
  {
    if IsZero(p) || IsZero(q) then Zero()
    else if IsCoeff(p) && IsCoeff(q) then FromCoeff(p.c * q.c)
    else if IsCoeff(q) then Mul(q, p)
    else if IsCoeff(p) then
      ScalarTermDepth(p.c);
      Mul(TransformIfCoeff(p), q)
    else
      CoeffsShallower(p);
      CoeffsShallower(q);
      AddMonos(Products(p.ms, q.ms, Max(Depth(p), Depth(q))))
  }

  /** The product of two monomials: exponents add, coefficients multiply. */
  function MonoMul(a: Mono, b: Mono, ghost d: nat): Mono
    requires Depth(a.p) < d && Depth(b.p) < d
    decreases d, 0, 0
  {
    Mono(a.exp + b.exp, Mul(a.p, b.p))
  }

  /** The inner loop of PolyMul: `a` times each monomial of `qs`, zero products dropped. */
  function Row(a: Mono, qs: seq<Mono>, ghost d: nat): seq<Mono>
    requires Depth(a.p) < d && CoeffsBelow(qs, d)
    decreases d, 0, |qs|
  {
    if qs == [] then []
    else
      var last := qs[|qs| - 1];
      assert last in qs;
      var mm := MonoMul(a, last, d);
      Row(a, qs[..|qs| - 1], d) + (if IsZero(mm.p) then [] else [mm])
  }

  /** The outer loop of PolyMul: the rows of every monomial of `ps`, in order. */
  function Products(ps: seq<Mono>, qs: seq<Mono>, ghost d: nat): seq<Mono>
    requires CoeffsBelow(ps, d) && CoeffsBelow(qs, d)
    decreases d, 1, |ps|
  {
    if ps == [] then []
    else
      assert ps[|ps| - 1] in ps;
      Products(ps[..|ps| - 1], qs, d) + Row(ps[|ps| - 1], qs, d)
  }

  /** `x` to the power `e` on integers, by repeated squaring. */
  function PowI(x: int, e: nat): int
    decreases e
  {
    if e == 0 then 1
    else if e % 2 == 1 then x * PowI(x, e - 1)
    else var a := PowI(x, e / 2); a * a
  }

  /** `p` to the power `e`, by repeated squaring. */
  function Pow(p: Poly, e: nat): Poly
    decreases e
  {
    if e == 0 then FromCoeff(1)
    else if e % 2 == 1 then Mul(p, Pow(p, e - 1))
    else var h := Pow(p, e / 2); Mul(h, h)
  }
}
