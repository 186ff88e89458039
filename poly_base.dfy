/**
 * Sparse multivariate polynomials with integer coefficients, as the
 * calculator represents them: a polynomial is either a scalar or a list of
 * monomials `p * x^e`, where the coefficient `p` is itself a polynomial
 * over the next variable.
 *
 * This module holds the data model, the canonical-form predicate, the
 * nesting depth used as a termination measure, and the evaluation
 * semantics every operation is proved against.
 */
module PolyBase {

  /** A polynomial: a scalar, or a list of monomials in the current variable. */
  datatype Poly = Coeff(c: int) | Terms(ms: seq<Mono>)

  /** The monomial `p * x^exp`; `p` is a polynomial over the next variable. */
  datatype Mono = Mono(exp: nat, p: Poly)

  function FromCoeff(c: int): Poly { Coeff(c) }

  function Zero(): Poly { Coeff(0) }

  function MonoFromPoly(p: Poly, e: nat): Mono { Mono(e, p) }

  predicate IsCoeff(p: Poly) { p.Coeff? }

  predicate IsZero(p: Poly) { p.Coeff? && p.c == 0 }

  /** The monomial list of `p`; a scalar has an empty list. */
  function TermList(p: Poly): seq<Mono> {
    if p.Coeff? then [] else p.ms
  }

  /** Exponents strictly ascending along the list. */
  predicate StrictlyIncreasing(ms: seq<Mono>) {
    forall i, j :: 0 <= i < j < |ms| ==> ms[i].exp < ms[j].exp
  }

  /** Exponents ascending along the list, repetitions allowed. */
  predicate Sorted(ms: seq<Mono>) {
    forall i, j :: 0 <= i < j < |ms| ==> ms[i].exp <= ms[j].exp
  }

  /**
   * The only shape the linked representation can take: a polynomial with
   * an empty monomial list is a scalar, at every level.
   */
  predicate WellFormed(p: Poly)
    decreases p
  {
    match p
    case Coeff(_) => true
    case Terms(ms) => ms != [] && forall m | m in ms :: WellFormed(m.p)
  }

  /** A list of monomials with strictly ascending exponents and non-zero canonical coefficients. */
  predicate ValidList(ms: seq<Mono>) {
    && ms != []
    && StrictlyIncreasing(ms)
    && forall m | m in ms :: !IsZero(m.p) && Valid(m.p)
  }

  /** A single `c * x^0` term with a scalar `c`: the form that must be stored as a scalar. */
  predicate LoneScalar(ms: seq<Mono>) {
    |ms| == 1 && ms[0].exp == 0 && ms[0].p.Coeff?
  }

  /**
   * Canonical form: every list is non-empty, strictly ascending in
   * exponents, holds no zero coefficient, and is not a lone scalar term.
   */
  predicate Valid(p: Poly)
    decreases p
  {
    match p
    case Coeff(_) => true
    case Terms(ms) =>
      && ms != []
      && StrictlyIncreasing(ms)
      && (forall m | m in ms :: !IsZero(m.p) && Valid(m.p))
      && !LoneScalar(ms)
  }

  /** The coefficients of `p` are canonical (a scalar trivially so). */
  predicate CoeffsValid(p: Poly) {
    p.Coeff? || forall m | m in p.ms :: Valid(m.p)
  }

  predicate AllCoeffsValid(ms: seq<Mono>) {
    forall m | m in ms :: Valid(m.p)
  }

  /** The exponent of the last monomial (the largest one in a sorted list). */
  function LastExp(p: Poly): nat
    requires p.Terms? && p.ms != []
  {
    p.ms[|p.ms| - 1].exp
  }

  function Max(a: int, b: int): int { if a > b then a else b }

  /** Nesting depth: 0 for a scalar, one more than the deepest coefficient otherwise. */
  function Depth(p: Poly): nat
    decreases p, 1
  {
    match p
    case Coeff(_) => 0
    case Terms(ms) => 1 + DepthUpTo(p, |ms|)
  }

  /** The largest depth among the first `k` coefficients of `p`. */
  function DepthUpTo(p: Poly, k: nat): nat
    requires p.Terms? && k <= |p.ms|
    decreases p, 0, k
  {
    if k == 0 then 0 else Max(DepthUpTo(p, k - 1), Depth(p.ms[k - 1].p))
  }

  /** Every coefficient of the list is shallower than `d`. */
  predicate CoeffsBelow(ms: seq<Mono>, d: nat) {
    forall m | m in ms :: Depth(m.p) < d
  }

  lemma {:induction false} DepthUpToBounds(p: Poly, k: nat, i: nat)
    requires p.Terms? && i < k <= |p.ms|
    ensures Depth(p.ms[i].p) <= DepthUpTo(p, k)
    decreases k
  {
    if i < k - 1 {
      DepthUpToBounds(p, k - 1, i);
    }
  }

  /** Each coefficient is strictly shallower than the polynomial holding it. */
  lemma CoeffsShallower(p: Poly)
    requires p.Terms?
    ensures CoeffsBelow(p.ms, Depth(p))
  {
    forall m | m in p.ms ensures Depth(m.p) < Depth(p) {
      var i :| 0 <= i < |p.ms| && p.ms[i] == m;
      DepthUpToBounds(p, |p.ms|, i);
    }
  }

  lemma {:induction false} DepthUpToAtMost(p: Poly, k: nat, d: nat)
    requires p.Terms? && k <= |p.ms| && CoeffsBelow(p.ms, d + 1)
    ensures DepthUpTo(p, k) <= d
    decreases k
  {
    if k > 0 {
      DepthUpToAtMost(p, k - 1, d);
      assert p.ms[k - 1] in p.ms;
    }
  }

  /** A list whose coefficients are all shallower than `d >= 1` makes a polynomial of depth at most `d`. */
  lemma TermsDepthAtMost(ms: seq<Mono>, d: nat)
    requires d >= 1 && CoeffsBelow(ms, d)
    ensures Depth(Terms(ms)) <= d
  {
    DepthUpToAtMost(Terms(ms), |ms|, d - 1);
  }

  // ---------------------------------------------------------------------
  // Evaluation: the meaning of a polynomial. Variable x_0 takes Head(xs),
  // the coefficients are evaluated at Tail(xs); variables beyond the end of
  // `xs` are 0.
  // ---------------------------------------------------------------------

  function Head(xs: seq<int>): int { if xs == [] then 0 else xs[0] }

  function Tail(xs: seq<int>): seq<int> { if xs == [] then [] else xs[1..] }

  function Power(x: int, e: nat): int
    decreases e
  {
    if e == 0 then 1 else x * Power(x, e - 1)
  }

  function Eval(p: Poly, xs: seq<int>): int
    decreases p, 1, 0
  {
    match p
    case Coeff(c) => c
    case Terms(ms) => EvalUpTo(p, |ms|, xs)
  }

  /** The sum of the first `k` monomials of `p`. */
  function EvalUpTo(p: Poly, k: nat, xs: seq<int>): int
    requires p.Terms? && k <= |p.ms|
    decreases p, 0, k
  {
    if k == 0 then 0 else EvalUpTo(p, k - 1, xs) + EvalMono(p.ms[k - 1], xs)
  }

  function EvalMono(m: Mono, xs: seq<int>): int
    decreases m, 2, 0
  {
    Power(Head(xs), m.exp) * Eval(m.p, Tail(xs))
  }

  /** The value of a monomial list read as a sum (0 for the empty list). */
  function EvalMonos(ms: seq<Mono>, xs: seq<int>): int {
    Eval(Terms(ms), xs)
  }

  lemma EvalMonosEmpty(xs: seq<int>)
    ensures EvalMonos([], xs) == 0
  {
    assert EvalMonos([], xs) == EvalUpTo(Terms([]), 0, xs);
  }

  lemma {:induction false} EvalUpToPrefix(p: Poly, q: Poly, k: nat, xs: seq<int>)
    requires p.Terms? && q.Terms? && k <= |p.ms| && k <= |q.ms|
    requires p.ms[..k] == q.ms[..k]
    ensures EvalUpTo(p, k, xs) == EvalUpTo(q, k, xs)
    decreases k
  {
    if k > 0 {
      assert p.ms[..k - 1] == q.ms[..k - 1] by {
        assert p.ms[..k - 1] == p.ms[..k][..k - 1];
        assert q.ms[..k - 1] == q.ms[..k][..k - 1];
      }
      assert p.ms[k - 1] == p.ms[..k][k - 1];
      assert q.ms[k - 1] == q.ms[..k][k - 1];
      EvalUpToPrefix(p, q, k - 1, xs);
    }
  }

  /** Appending a monomial adds its value. */
  lemma EvalMonosAppend(ms: seq<Mono>, m: Mono, xs: seq<int>)
    ensures EvalMonos(ms + [m], xs) == EvalMonos(ms, xs) + EvalMono(m, xs)
  {
    var p, q := Terms(ms + [m]), Terms(ms);
    assert p.ms[|ms|] == m;
    assert EvalMonos(ms + [m], xs) == EvalUpTo(p, |ms| + 1, xs);
    assert EvalMonos(ms + [m], xs) == EvalUpTo(p, |ms|, xs) + EvalMono(m, xs);
    EvalUpToPrefix(p, q, |ms|, xs);
  }

  /** The value of a concatenation is the sum of the values. */
  lemma {:induction false} EvalMonosConcat(a: seq<Mono>, b: seq<Mono>, xs: seq<int>)
    ensures EvalMonos(a + b, xs) == EvalMonos(a, xs) + EvalMonos(b, xs)
    decreases |b|
  {
    if b == [] {
      assert a + b == a;
      assert EvalMonos(b, xs) == EvalUpTo(Terms(b), 0, xs) == 0;
    } else {
      var b' := b[..|b| - 1];
      var m := b[|b| - 1];
      assert b == b' + [m];
      assert a + b == (a + b') + [m];
      EvalMonosConcat(a, b', xs);
      EvalMonosAppend(a + b', m, xs);
      EvalMonosAppend(b', m, xs);
    }
  }

  lemma EvalMonosSingle(m: Mono, xs: seq<int>)
    ensures EvalMonos([m], xs) == EvalMono(m, xs)
  {
    EvalMonosAppend([], m, xs);
    assert [] + [m] == [m];
    assert EvalMonos([], xs) == EvalUpTo(Terms([]), 0, xs) == 0;
  }

  /** A scalar coefficient at exponent 0 has the scalar's value. */
  lemma EvalScalarTerm(c: int, xs: seq<int>)
    ensures EvalMonos([Mono(0, Coeff(c))], xs) == c
  {
    EvalMonosSingle(Mono(0, Coeff(c)), xs);
  }

  lemma PowerAdd(x: int, a: nat, b: nat)
    ensures Power(x, a + b) == Power(x, a) * Power(x, b)
    decreases a
  {
    if a > 0 {
      PowerAdd(x, a - 1, b);
      assert Power(x, a + b) == x * Power(x, a - 1 + b);
    }
  }

  lemma {:induction false} ValidIsWellFormed(p: Poly)
    requires Valid(p)
    ensures WellFormed(p)
    decreases p
  {
    if p.Terms? {
      forall m | m in p.ms ensures WellFormed(m.p) {
        ValidIsWellFormed(m.p);
      }
    }
  }
}
