/**
 * Normalisation and addition: appending a monomial to a polynomial being
 * built in ascending order of exponents, adding an arbitrary array of
 * monomials, and the sum, negation and difference of polynomials.
 *
 * These are the value-level definitions; their meaning (evaluation) and
 * the canonical form they produce are proved in PolySumFacts.
 */
module PolySum {
  import opened PolyBase
  import opened MonoSort

  /** The top-level shape of the linked representation: a list is never empty. */
  predicate TopWellFormed(p: Poly) {
    p.Coeff? || p.ms != []
  }

  /** A scalar `c` becomes the one-term list `c * x^0`; other polynomials are unchanged. */
  function TransformIfCoeff(p: Poly): (r: Poly)
    ensures r.Terms?
    ensures TopWellFormed(p) ==> r.ms != []
    ensures p.Terms? ==> r == p
  {
    if IsCoeff(p) then Terms([Mono(0, p)]) else p
  }

  /**
   * Turns a one-term list whose term is a constant into that scalar.
   * The caller guarantees the term is a scalar at exponent 0, or zero.
   */
  function TurnToCoeff(p: Poly): (r: Poly)
    requires p.Terms? && |p.ms| == 1 && p.ms[0].p.Coeff?
    requires p.ms[0].exp == 0 || p.ms[0].p.c == 0
    ensures r.Coeff? && r == p.ms[0].p
  {
    FromCoeff(p.ms[0].p.c)
  }

  lemma TransformedCoeffsBelow(p: Poly, d: nat)
    requires d >= 1 && Depth(p) <= d
    ensures CoeffsBelow(TransformIfCoeff(p).ms, d)
  {
    if p.Terms? {
      CoeffsShallower(p);
    }
  }

  /** The start of PolyAppendMono on a zero polynomial: `m` alone, or its scalar when it is `c * x^0`. */
  function StartWith(m: Mono): (r: Poly)
    ensures TopWellFormed(r)
  {
    if m.exp != 0 || !IsCoeff(m.p) then Terms([m]) else FromCoeff(m.p.c)
  }

  /**
   * The end of PolyAppendMono once the last coefficient has become `s`:
   * `init` followed by `s * x^e`, where a zero `s` is removed and a result
   * that is a constant is stored as a scalar.
   */
  function MergeLast(init: seq<Mono>, e: nat, s: Poly): (r: Poly)
    ensures TopWellFormed(r)
  {
    var merged := init + [Mono(e, s)];
    if IsCoeff(s) then
      if |merged| == 1 && (e == 0 || IsZero(s)) then
        TurnToCoeff(Terms(merged))
      else if IsZero(s) then
        if |init| == 1 && IsCoeff(init[0].p) && init[0].exp == 0 then
          TurnToCoeff(Terms(init))
        else
          Terms(init)
      else
        Terms(merged)
    else
      Terms(merged)
  }

  lemma MergeLastDepth(init: seq<Mono>, e: nat, s: Poly, d: nat)
    requires d >= 1 && CoeffsBelow(init, d) && Depth(s) < d
    ensures Depth(MergeLast(init, e, s)) <= d
  {
    TermsDepthAtMost(init + [Mono(e, s)], d);
    TermsDepthAtMost(init, d);
  }

  /**
   * Adds the monomial `m` to a non-empty list `ms`, where `m.exp` is at
   * least every exponent in `ms`: a new exponent goes at the end, an equal
   * one is merged into the last monomial by adding the coefficients.
   */
  function AppendToList(ms: seq<Mono>, m: Mono, ghost d: nat): (r: Poly)
    requires ms != [] && CoeffsBelow(ms, d) && Depth(m.p) < d
    ensures TopWellFormed(r) && Depth(r) <= d
    decreases d, 0, 0
  {
    var init, last := ms[..|ms| - 1], ms[|ms| - 1];
    assert last in ms;
    if last.exp != m.exp then
      TermsDepthAtMost(ms + [m], d);
      Terms(ms + [m])
    else
      var s := Add(last.p, m.p);
      MergeLastDepth(init, last.exp, s, d);
      MergeLast(init, last.exp, s)
  }

  /**
   * Adds the monomial `m` to `p`, where `m.exp` is at least every exponent
   * of `p`: a zero coefficient is dropped, and a scalar `p` is first turned
   * into a one-term list. The ghost bound `d` on nesting depth only serves
   * termination.
   */
  function AppendMono(p: Poly, m: Mono, ghost d: nat): (r: Poly)
    requires TopWellFormed(p) && Depth(p) <= d && Depth(m.p) < d
    ensures TopWellFormed(r) && Depth(r) <= d
    decreases d, 1, 0
  {
    if IsZero(m.p) then p
    else if IsZero(p) then
      TermsDepthAtMost([m], d);
      StartWith(m)
    else
      TransformedCoeffsBelow(p, d);
      AppendToList(TransformIfCoeff(p).ms, m, d)
  }

  /** The loop of PolyAddMonos: appends the monomials of `ms`, in order, to `acc`. */
  function AppendAll(acc: Poly, ms: seq<Mono>, ghost d: nat): (r: Poly)
    requires TopWellFormed(acc) && Depth(acc) <= d && CoeffsBelow(ms, d)
    ensures TopWellFormed(r) && Depth(r) <= d
    decreases d, 2, |ms|
  {
    if ms == [] then acc
    else
      assert ms[0] in ms;
      AppendAll(AppendMono(acc, ms[0], d), ms[1..], d)
  }

  /** The sum of an arbitrary array of monomials, in canonical form. */
  function AddMonos(ms: seq<Mono>): (r: Poly)
    ensures TopWellFormed(r) && Depth(r) <= Depth(Terms(ms))
    decreases Depth(Terms(ms)), 3, 0
  {
    CoeffsShallower(Terms(ms));
    SortByExpMembers(ms);
    AppendAll(Zero(), SortByExp(ms), Depth(Terms(ms)))
  }

  /** The monomials of `p`: none for zero, `c * x^0` for a non-zero scalar `c`. */
  function MonosOf(p: Poly): seq<Mono> {
    if IsCoeff(p) then (if IsZero(p) then [] else [Mono(0, p)]) else p.ms
  }

  lemma MonosOfBelow(p: Poly, d: nat)
    requires d >= 1 && Depth(p) <= d
    ensures CoeffsBelow(MonosOf(p), d)
  {
    if p.Terms? {
      CoeffsShallower(p);
    }
  }

  /** The sum of two polynomials. */
  function Add(p: Poly, q: Poly): (r: Poly)
    ensures TopWellFormed(r) && Depth(r) <= Max(Depth(p), Depth(q))
    decreases Max(Depth(p), Depth(q)), 4, 0
  {
    if IsCoeff(p) && IsCoeff(q) then FromCoeff(p.c + q.c)
    else
      var d := Max(Depth(p), Depth(q));
      MonosOfBelow(p, d);
      MonosOfBelow(q, d);
      TermsDepthAtMost(MonosOf(p) + MonosOf(q), d);
      AddMonos(MonosOf(p) + MonosOf(q))
  }

  /** The opposite polynomial: every scalar coefficient negated, the shape kept. */
  function Neg(p: Poly): (r: Poly)
    ensures r.Coeff? <==> p.Coeff?
    ensures r.Terms? ==> |r.ms| == |p.ms| && forall i :: 0 <= i < |p.ms| ==> r.ms[i].exp == p.ms[i].exp
    decreases p
  {
    match p
    case Coeff(c) => Coeff(-c)
    case Terms(ms) => Terms(seq(|ms|, i requires 0 <= i < |ms| => Mono(ms[i].exp, Neg(ms[i].p))))
  }

  /** The difference `p - q`, as the sum of `p` and the opposite of `q`. */
  function Sub(p: Poly, q: Poly): Poly {
    Add(p, Neg(q))
  }
}
