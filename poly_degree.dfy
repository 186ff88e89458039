/**
 * Degrees: the total degree of a polynomial and its degree in one
 * variable, as recursive definitions and as the list-walking loops of the
 * calculator, proved equal.
 */
module PolyDegree {
  import opened PolyBase
  import opened PolySum

  /** The total degree: -1 for zero, 0 for a non-zero scalar, else the largest exponent sum. */
  function Deg(p: Poly): int
    decreases p, 1, 0
  {
    if IsZero(p) then -1
    else if IsCoeff(p) then 0
    else DegUpTo(p, |p.ms|)
  }

  /** The largest `exp + Deg(coefficient)` among the first `k` monomials, -1 for none. */
  function DegUpTo(p: Poly, k: nat): int
    requires p.Terms? && k <= |p.ms|
    decreases p, 0, k
  {
    if k == 0 then -1
    else Max(DegUpTo(p, k - 1), Deg(p.ms[k - 1].p) + p.ms[k - 1].exp)
  }

  /**
   * The degree in variable `idx`: -1 for zero, 0 for a non-zero scalar, the
   * last exponent for the main variable, else the largest degree in
   * variable `idx - 1` among the coefficients.
   */
  function DegBy(p: Poly, idx: nat): int
    requires WellFormed(p)
    decreases p, 1, 0
  {
    if IsZero(p) then -1
    else if IsCoeff(p) then 0
    else if idx == 0 then p.ms[|p.ms| - 1].exp
    else DegByUpTo(p, |p.ms|, idx - 1)
  }

  function DegByUpTo(p: Poly, k: nat, idx: nat): int
    requires WellFormed(p) && p.Terms? && k <= |p.ms|
    decreases p, 0, k
  {
    if k == 0 then -1
    else
      assert p.ms[k - 1] in p.ms;
      Max(DegByUpTo(p, k - 1, idx), DegBy(p.ms[k - 1].p, idx))
  }

  // ---------------------------------------------------------------------
  // Properties
  // ---------------------------------------------------------------------

  /** A non-zero canonical polynomial has a degree of at least 0, so -1 means exactly zero. */
  lemma {:induction false} DegNonNegative(p: Poly)
    requires Valid(p)
    ensures Deg(p) >= -1
    ensures Deg(p) == -1 <==> IsZero(p)
    decreases p
  {
    if p.Terms? {
      var last := p.ms[|p.ms| - 1];
      assert last in p.ms;
      DegNonNegative(last.p);
    }
  }

  /** The degree in one variable is -1 exactly for zero. */
  lemma {:induction false} DegByNonNegative(p: Poly, idx: nat)
    requires Valid(p)
    ensures WellFormed(p) && DegBy(p, idx) >= -1
    ensures DegBy(p, idx) == -1 <==> IsZero(p)
    decreases p
  {
    ValidIsWellFormed(p);
    if p.Terms? && idx > 0 {
      var last := p.ms[|p.ms| - 1];
      assert last in p.ms;
      DegByNonNegative(last.p, idx - 1);
    }
  }

  /** The degree in the main variable is the largest exponent of a canonical polynomial. */
  lemma DegByMainIsLargestExp(p: Poly)
    requires Valid(p) && p.Terms?
    ensures WellFormed(p)
    ensures forall m | m in p.ms :: m.exp <= DegBy(p, 0)
  {
    ValidIsWellFormed(p);
  }

  /** The degree in any one variable is at most the total degree. */
  lemma {:induction false} DegByAtMostDeg(p: Poly, idx: nat)
    requires Valid(p)
    ensures WellFormed(p) && DegBy(p, idx) <= Deg(p)
    decreases p, 1, 0
  {
    ValidIsWellFormed(p);
    if p.Terms? {
      var last := p.ms[|p.ms| - 1];
      assert last in p.ms;
      if idx == 0 {
        DegNonNegative(last.p);
      } else {
        DegByUpToAtMost(p, |p.ms|, idx - 1);
      }
    }
  }

  lemma {:induction false} DegByUpToAtMost(p: Poly, k: nat, idx: nat)
    requires Valid(p) && p.Terms? && k <= |p.ms|
    ensures WellFormed(p) && DegByUpTo(p, k, idx) <= DegUpTo(p, k)
    decreases p, 0, k
  {
    ValidIsWellFormed(p);
    if k > 0 {
      var m := p.ms[k - 1];
      assert m in p.ms;
      DegByUpToAtMost(p, k - 1, idx);
      DegByAtMostDeg(m.p, idx);
    }
  }

  /** Negation keeps the degree. */
  lemma {:induction false} DegNeg(p: Poly)
    ensures Deg(Neg(p)) == Deg(p)
    decreases p, 1, 0
  {
    if p.Terms? {
      DegNegUpTo(p, |p.ms|);
    }
  }

  lemma {:induction false} DegNegUpTo(p: Poly, k: nat)
    requires p.Terms? && k <= |p.ms|
    ensures DegUpTo(Neg(p), k) == DegUpTo(p, k)
    decreases p, 0, k
  {
    if k > 0 {
      var q := Neg(p);
      var m := p.ms[k - 1];
      assert q.ms[k - 1] == Mono(m.exp, Neg(m.p));
      DegNegUpTo(p, k - 1);
      DegNeg(m.p);
      DegUpToStep(q, p, k);
    }
  }

  /** Two lists that agree on the degrees of their first `k - 1` monomials and on the `k`-th agree on `k`. */
  lemma DegUpToStep(q: Poly, p: Poly, k: nat)
    requires p.Terms? && q.Terms? && 0 < k <= |p.ms| && k <= |q.ms|
    requires DegUpTo(q, k - 1) == DegUpTo(p, k - 1)
    requires q.ms[k - 1].exp == p.ms[k - 1].exp && Deg(q.ms[k - 1].p) == Deg(p.ms[k - 1].p)
    ensures DegUpTo(q, k) == DegUpTo(p, k)
  {
  }

  // ---------------------------------------------------------------------
  // The loops
  // ---------------------------------------------------------------------

  /** PolyDeg: walks the monomial list keeping the largest exponent sum. */
  method PolyDeg(p: Poly) returns (d: int)
    ensures d == Deg(p)
    decreases p
  {
    if IsZero(p) {
      return -1;
    }
    if IsCoeff(p) {
      return 0;
    }
    var maxExp := -1;
    var i := 0;
    while i < |p.ms|
      invariant 0 <= i <= |p.ms|
      invariant maxExp == DegUpTo(p, i)
    {
      var currPolyDeg := PolyDeg(p.ms[i].p);
      currPolyDeg := currPolyDeg + p.ms[i].exp;
      maxExp := Max(maxExp, currPolyDeg);
      i := i + 1;
    }
    return maxExp;
  }

  /** PolyDegBy: the last exponent for the main variable, else the largest degree among the coefficients. */
  method PolyDegBy(p: Poly, varIdx: nat) returns (d: int)
    requires WellFormed(p)
    ensures d == DegBy(p, varIdx)
    decreases p
  {
    if IsZero(p) {
      return -1;
    }
    if IsCoeff(p) {
      return 0;
    }
    if varIdx == 0 {
      return p.ms[|p.ms| - 1].exp;
    }
    var maxExp := -1;
    var i := 0;
    while i < |p.ms|
      invariant 0 <= i <= |p.ms|
      invariant maxExp == DegByUpTo(p, i, varIdx - 1)
    {
      assert p.ms[i] in p.ms;
      var currPolyDeg := PolyDegBy(p.ms[i].p, varIdx - 1);
      maxExp := Max(maxExp, currPolyDeg);
      i := i + 1;
    }
    return maxExp;
  }
}
