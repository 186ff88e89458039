/**
 * What normalisation and addition mean: every function of PolySum is
 * proved to compute the expected value under Eval, and to produce the
 * canonical form of PolyBase.Valid.
 *
 * The lemma clusters follow the recursion of the functions they are about,
 * with the same termination measures.
 */
module PolySumFacts {
  import opened PolyBase
  import opened MonoSort
  import opened PolySum

  lemma MulDistributes(k: int, a: int, b: int)
    ensures k * (a + b) == k * a + k * b
  {
  }

  /** Turning a scalar into a one-term list keeps its value. */
  lemma TransformIfCoeffEval(p: Poly, xs: seq<int>)
    ensures Eval(TransformIfCoeff(p), xs) == Eval(p, xs)
  {
    if p.Coeff? {
      EvalScalarTerm(p.c, xs);
    }
  }

  /** Turning a one-term constant list into a scalar keeps its value. */
  lemma TurnToCoeffEval(p: Poly, xs: seq<int>)
    requires p.Terms? && |p.ms| == 1 && p.ms[0].p.Coeff?
    requires p.ms[0].exp == 0 || p.ms[0].p.c == 0
    ensures Eval(TurnToCoeff(p), xs) == Eval(p, xs)
  {
    var m := p.ms[0];
    assert Eval(p, xs) == EvalUpTo(p, 0, xs) + EvalMono(m, xs);
    assert EvalMono(m, xs) == Power(Head(xs), m.exp) * m.p.c;
  }

  /** The monomials of `p`, read as a sum, are worth `p`. */
  lemma MonosOfEval(p: Poly, xs: seq<int>)
    ensures EvalMonos(MonosOf(p), xs) == Eval(p, xs)
  {
    if IsZero(p) {
      EvalMonosEmpty(xs);
    } else if IsCoeff(p) {
      EvalScalarTerm(p.c, xs);
    }
  }

  // ---------------------------------------------------------------------
  // Values
  // ---------------------------------------------------------------------

  lemma StartWithEval(m: Mono, xs: seq<int>)
    ensures Eval(StartWith(m), xs) == EvalMono(m, xs)
  {
    EvalMonosSingle(m, xs);
  }

  /** Replacing the last coefficient by `s` and tidying up keeps the value of the list. */
  lemma MergeLastEval(init: seq<Mono>, e: nat, s: Poly, xs: seq<int>)
    ensures Eval(MergeLast(init, e, s), xs) == EvalMonos(init, xs) + EvalMono(Mono(e, s), xs)
  {
    var merged := init + [Mono(e, s)];
    EvalMonosAppend(init, Mono(e, s), xs);
    if IsCoeff(s) {
      if |merged| == 1 && (e == 0 || IsZero(s)) {
        assert init == [];
        EvalMonosEmpty(xs);
      } else if IsZero(s) {
        if |init| == 1 && IsCoeff(init[0].p) && init[0].exp == 0 {
          assert init == [Mono(0, Coeff(init[0].p.c))];
          EvalScalarTerm(init[0].p.c, xs);
        }
      }
    }
  }

  lemma AppendToListEval(ms: seq<Mono>, m: Mono, d: nat, xs: seq<int>)
    requires ms != [] && CoeffsBelow(ms, d) && Depth(m.p) < d
    ensures Eval(AppendToList(ms, m, d), xs) == EvalMonos(ms, xs) + EvalMono(m, xs)
    decreases d, 0, 0
  {
    var init, last := ms[..|ms| - 1], ms[|ms| - 1];
    assert last in ms;
    if last.exp != m.exp {
      EvalMonosAppend(ms, m, xs);
    } else {
      var s := Add(last.p, m.p);
      AddEval(last.p, m.p, Tail(xs));
      MulDistributes(Power(Head(xs), m.exp), Eval(last.p, Tail(xs)), Eval(m.p, Tail(xs)));
      MergeLastEval(init, last.exp, s, xs);
      assert ms == init + [last];
      EvalMonosAppend(init, last, xs);
    }
  }

  /** Appending a monomial adds its value, whatever the exponents. */
  lemma AppendMonoEval(p: Poly, m: Mono, d: nat, xs: seq<int>)
    requires TopWellFormed(p) && Depth(p) <= d && Depth(m.p) < d
    ensures Eval(AppendMono(p, m, d), xs) == Eval(p, xs) + EvalMono(m, xs)
    decreases d, 1, 0
  {
    if IsZero(m.p) {
    } else if IsZero(p) {
      StartWithEval(m, xs);
    } else {
      TransformedCoeffsBelow(p, d);
      TransformIfCoeffEval(p, xs);
      AppendToListEval(TransformIfCoeff(p).ms, m, d, xs);
    }
  }

  /** The loop of PolyAddMonos adds the value of every monomial it appends. */
  lemma AppendAllEval(acc: Poly, ms: seq<Mono>, d: nat, xs: seq<int>)
    requires TopWellFormed(acc) && Depth(acc) <= d && CoeffsBelow(ms, d)
    ensures Eval(AppendAll(acc, ms, d), xs) == Eval(acc, xs) + EvalMonos(ms, xs)
    decreases d, 2, |ms|
  {
    if ms == [] {
      EvalMonosEmpty(xs);
    } else {
      assert ms[0] in ms;
      AppendMonoEval(acc, ms[0], d, xs);
      AppendAllEval(AppendMono(acc, ms[0], d), ms[1..], d, xs);
      assert ms == [ms[0]] + ms[1..];
      EvalMonosConcat([ms[0]], ms[1..], xs);
      EvalMonosSingle(ms[0], xs);
    }
  }

  /** PolyAddMonos computes the sum of its monomials. */
  lemma AddMonosEval(ms: seq<Mono>, xs: seq<int>)
    ensures Eval(AddMonos(ms), xs) == EvalMonos(ms, xs)
    decreases Depth(Terms(ms)), 3, 0
  {
    CoeffsShallower(Terms(ms));
    SortByExpMembers(ms);
    AppendAllEval(Zero(), SortByExp(ms), Depth(Terms(ms)), xs);
    SortByExpEval(ms, xs);
  }

  /** PolyAdd computes the sum. */
  lemma AddEval(p: Poly, q: Poly, xs: seq<int>)
    ensures Eval(Add(p, q), xs) == Eval(p, xs) + Eval(q, xs)
    decreases Max(Depth(p), Depth(q)), 4, 0
  {
    if !(IsCoeff(p) && IsCoeff(q)) {
      var d := Max(Depth(p), Depth(q));
      MonosOfBelow(p, d);
      MonosOfBelow(q, d);
      TermsDepthAtMost(MonosOf(p) + MonosOf(q), d);
      AddMonosEval(MonosOf(p) + MonosOf(q), xs);
      EvalMonosConcat(MonosOf(p), MonosOf(q), xs);
      MonosOfEval(p, xs);
      MonosOfEval(q, xs);
    }
  }

  // ---------------------------------------------------------------------
  // Canonical form
  // ---------------------------------------------------------------------

  lemma ValidCoeffsValid(p: Poly)
    requires Valid(p)
    ensures CoeffsValid(p)
  {
  }

  /** The list after TransformIfCoeff of a non-zero canonical polynomial. */
  lemma TransformIfCoeffList(p: Poly)
    requires Valid(p) && !IsZero(p)
    ensures ValidList(TransformIfCoeff(p).ms)
  {
  }

  lemma StartWithValid(m: Mono)
    requires Valid(m.p) && !IsZero(m.p)
    ensures var r := StartWith(m); Valid(r) && (r.Terms? ==> LastExp(r) <= m.exp)
  {
  }

  /**
   * Tidying up after the last coefficient of a canonical list became `s`
   * gives a canonical polynomial ending no later than exponent `e`.
   */
  lemma MergeLastValid(init: seq<Mono>, e: nat, s: Poly)
    requires init != [] ==> ValidList(init) && init[|init| - 1].exp < e
    requires Valid(s)
    ensures var r := MergeLast(init, e, s); Valid(r) && (r.Terms? ==> LastExp(r) <= e)
  {
    var merged := init + [Mono(e, s)];
    if IsCoeff(s) && |merged| == 1 && (e == 0 || IsZero(s)) {
    } else if IsCoeff(s) && IsZero(s) {
    } else {
      assert StrictlyIncreasing(merged) by {
        forall i, j | 0 <= i < j < |merged| ensures merged[i].exp < merged[j].exp {
          if j == |init| {
            assert merged[i].exp <= init[|init| - 1].exp;
          }
        }
      }
      assert ValidList(merged);
    }
  }

  /** A monomial with a larger exponent and a non-zero canonical coefficient extends a canonical list. */
  lemma ExtendValid(ms: seq<Mono>, m: Mono)
    requires ValidList(ms) && Valid(m.p) && !IsZero(m.p) && ms[|ms| - 1].exp < m.exp
    ensures Valid(Terms(ms + [m]))
  {
    var r := ms + [m];
    assert StrictlyIncreasing(r) by {
      forall i, j | 0 <= i < j < |r| ensures r[i].exp < r[j].exp {
        if j == |ms| {
          assert r[i].exp <= ms[|ms| - 1].exp;
        }
      }
    }
    assert ValidList(r);
  }

  /** The list without its last monomial still meets the conditions of MergeLastValid. */
  lemma InitValid(ms: seq<Mono>)
    requires ValidList(ms)
    ensures var init := ms[..|ms| - 1];
      init != [] ==> ValidList(init) && init[|init| - 1].exp < ms[|ms| - 1].exp
  {
  }

  lemma AppendToListValid(ms: seq<Mono>, m: Mono, d: nat)
    requires ms != [] && CoeffsBelow(ms, d) && Depth(m.p) < d
    requires ValidList(ms) && Valid(m.p) && !IsZero(m.p) && ms[|ms| - 1].exp <= m.exp
    ensures var r := AppendToList(ms, m, d); Valid(r) && (r.Terms? ==> LastExp(r) <= m.exp)
    decreases d, 0, 0
  {
    var init, last := ms[..|ms| - 1], ms[|ms| - 1];
    assert last in ms;
    if last.exp != m.exp {
      ExtendValid(ms, m);
    } else {
      AddValid(last.p, m.p);
      InitValid(ms);
      MergeLastValid(init, last.exp, Add(last.p, m.p));
    }
  }

  /**
   * Appending a monomial whose exponent is at least the last exponent of a
   * canonical polynomial gives a canonical polynomial whose last exponent is
   * at most that of the monomial.
   */
  lemma AppendMonoValid(p: Poly, m: Mono, d: nat)
    requires Depth(p) <= d && Depth(m.p) < d
    requires Valid(p) && Valid(m.p)
    requires p.Terms? ==> LastExp(p) <= m.exp
    ensures var r := AppendMono(p, m, d); Valid(r) && (r.Terms? ==> LastExp(r) <= m.exp)
    decreases d, 1, 0
  {
    if IsZero(m.p) {
    } else if IsZero(p) {
      StartWithValid(m);
    } else {
      TransformedCoeffsBelow(p, d);
      TransformIfCoeffList(p);
      AppendToListValid(TransformIfCoeff(p).ms, m, d);
    }
  }

  /** Appending a sorted list of monomials with canonical coefficients keeps the form canonical. */
  lemma AppendAllValid(acc: Poly, ms: seq<Mono>, d: nat)
    requires Depth(acc) <= d && CoeffsBelow(ms, d)
    requires Valid(acc) && Sorted(ms) && AllCoeffsValid(ms)
    requires acc.Terms? && ms != [] ==> LastExp(acc) <= ms[0].exp
    ensures Valid(AppendAll(acc, ms, d))
    decreases d, 2, |ms|
  {
    if ms != [] {
      assert ms[0] in ms;
      AppendMonoValid(acc, ms[0], d);
      AppendAllValid(AppendMono(acc, ms[0], d), ms[1..], d);
    }
  }

  /**
   * PolyAddMonos returns a canonical polynomial for any order of its input,
   * repeated exponents and zero coefficients included.
   */
  lemma AddMonosValid(ms: seq<Mono>)
    requires AllCoeffsValid(ms)
    ensures Valid(AddMonos(ms))
    decreases Depth(Terms(ms)), 3, 0
  {
    CoeffsShallower(Terms(ms));
    SortByExpMembers(ms);
    SortByExpSorts(ms);
    AppendAllValid(Zero(), SortByExp(ms), Depth(Terms(ms)));
  }

  /** The sum of two polynomials with canonical coefficients is canonical. */
  lemma AddValid(p: Poly, q: Poly)
    requires CoeffsValid(p) && CoeffsValid(q)
    ensures Valid(Add(p, q))
    decreases Max(Depth(p), Depth(q)), 4, 0
  {
    if !(IsCoeff(p) && IsCoeff(q)) {
      var d := Max(Depth(p), Depth(q));
      MonosOfBelow(p, d);
      MonosOfBelow(q, d);
      TermsDepthAtMost(MonosOf(p) + MonosOf(q), d);
      AddMonosValid(MonosOf(p) + MonosOf(q));
    }
  }

  // ---------------------------------------------------------------------
  // Normalising a canonical polynomial gives it back
  // ---------------------------------------------------------------------

  /** The polynomial a canonical list stands for: zero, a lone scalar, or the list itself. */
  function Canon(ms: seq<Mono>): Poly {
    if ms == [] then Zero() else if LoneScalar(ms) then ms[0].p else Terms(ms)
  }

  lemma CanonDepth(ms: seq<Mono>, d: nat)
    requires d >= 1 && CoeffsBelow(ms, d)
    ensures TopWellFormed(Canon(ms)) && Depth(Canon(ms)) <= d
  {
    TermsDepthAtMost(ms, d);
  }

  /** Appending the next monomial of a canonical list to the polynomial of its prefix. */
  lemma AppendMonoRebuilds(l: seq<Mono>, m: Mono, d: nat)
    requires ValidList(l + [m]) && d >= 1 && CoeffsBelow(l + [m], d)
    ensures CoeffsBelow(l, d) && Depth(Canon(l)) <= d
    ensures AppendMono(Canon(l), m, d) == Canon(l + [m])
  {
    assert l + [m] == l + [m];
    assert m in l + [m];
    assert forall x | x in l :: x in l + [m];
    CanonDepth(l, d);
    if l != [] {
      assert l[|l| - 1] == (l + [m])[|l| - 1];
      if LoneScalar(l) {
        assert l == [Mono(0, Coeff(l[0].p.c))];
      }
      assert TransformIfCoeff(Canon(l)) == Terms(l);
      assert (l + [m])[|l| - 1].exp < (l + [m])[|l|].exp;
      assert AppendToList(l, m, d) == Terms(l + [m]);
    }
  }

  lemma ValidListPrefix(ms: seq<Mono>, k: nat)
    requires ValidList(ms) && 1 <= k <= |ms|
    ensures ValidList(ms[..k])
  {
    assert forall x | x in ms[..k] :: x in ms;
  }

  lemma CoeffsBelowSlice(ms: seq<Mono>, i: nat, j: nat, d: nat)
    requires CoeffsBelow(ms, d) && i <= j <= |ms|
    ensures CoeffsBelow(ms[i..j], d)
  {
    forall x | x in ms[i..j] ensures Depth(x.p) < d {
      var k :| 0 <= k < j - i && ms[i..j][k] == x;
      assert ms[i + k] in ms;
    }
  }

  lemma {:induction false} AppendAllRebuilds(ms: seq<Mono>, k: nat, d: nat)
    requires ValidList(ms) && k <= |ms| && d >= 1 && CoeffsBelow(ms, d)
    ensures CoeffsBelow(ms[k..], d) && Depth(Canon(ms[..k])) <= d
    ensures AppendAll(Canon(ms[..k]), ms[k..], d) == Canon(ms)
    decreases |ms| - k
  {
    CoeffsBelowSlice(ms, k, |ms|, d);
    CoeffsBelowSlice(ms, 0, k, d);
    CanonDepth(ms[..k], d);
    if k < |ms| {
      ValidListPrefix(ms, k + 1);
      CoeffsBelowSlice(ms, 0, k + 1, d);
      assert ms[..k + 1] == ms[..k] + [ms[k]];
      AppendMonoRebuilds(ms[..k], ms[k], d);
      AppendAllRebuilds(ms, k + 1, d);
      assert ms[k..][1..] == ms[k + 1..];
    } else {
      assert ms[..k] == ms;
    }
  }

  /** PolyAddMonos applied to the list of a canonical polynomial returns that polynomial. */
  lemma AddMonosOfValid(p: Poly)
    requires Valid(p) && p.Terms?
    ensures AddMonos(p.ms) == p
  {
    SortByExpOfSorted(p.ms);
    CoeffsShallower(p);
    AppendAllRebuilds(p.ms, 0, Depth(p));
    assert p.ms[..0] == [] && p.ms[0..] == p.ms;
  }

  /** Zero is neutral for addition on canonical polynomials. */
  lemma AddZero(p: Poly)
    requires Valid(p)
    ensures Add(p, Zero()) == p && Add(Zero(), p) == p
  {
    if p.Terms? {
      assert MonosOf(p) + MonosOf(Zero()) == p.ms;
      assert MonosOf(Zero()) + MonosOf(p) == p.ms;
      AddMonosOfValid(p);
    }
  }

  // ---------------------------------------------------------------------
  // Negation and subtraction
  // ---------------------------------------------------------------------

  /** Negating twice gives the polynomial back. */
  lemma {:induction false} NegInvolutive(p: Poly)
    ensures Neg(Neg(p)) == p
    decreases p
  {
    if p.Terms? {
      forall i | 0 <= i < |p.ms| ensures Neg(Neg(p.ms[i].p)) == p.ms[i].p {
        NegInvolutive(p.ms[i].p);
      }
      assert Neg(Neg(p)).ms == p.ms;
    }
  }

  /** PolyNeg computes the opposite value. */
  lemma {:induction false} NegEval(p: Poly, xs: seq<int>)
    ensures Eval(Neg(p), xs) == -Eval(p, xs)
    decreases p, 1
  {
    if p.Terms? {
      NegEvalUpTo(p, |p.ms|, xs);
    }
  }

  lemma {:induction false} NegEvalUpTo(p: Poly, k: nat, xs: seq<int>)
    requires p.Terms? && k <= |p.ms|
    ensures EvalUpTo(Neg(p), k, xs) == -EvalUpTo(p, k, xs)
    decreases p, 0, k
  {
    if k > 0 {
      NegEvalUpTo(p, k - 1, xs);
      var m := p.ms[k - 1];
      NegEval(m.p, Tail(xs));
      assert Neg(p).ms[k - 1] == Mono(m.exp, Neg(m.p));
      MulDistributes(Power(Head(xs), m.exp), Eval(m.p, Tail(xs)), -Eval(m.p, Tail(xs)));
    }
  }

  /** The opposite of a canonical polynomial is canonical. */
  lemma {:induction false} NegValid(p: Poly)
    requires Valid(p)
    ensures Valid(Neg(p))
    decreases p
  {
    if p.Terms? {
      var r := Neg(p);
      forall m | m in r.ms ensures !IsZero(m.p) && Valid(m.p) {
        var i :| 0 <= i < |r.ms| && r.ms[i] == m;
        assert p.ms[i] in p.ms;
        NegValid(p.ms[i].p);
      }
      assert StrictlyIncreasing(r.ms);
    }
  }

  /** PolySub computes the difference. */
  lemma SubEval(p: Poly, q: Poly, xs: seq<int>)
    ensures Eval(Sub(p, q), xs) == Eval(p, xs) - Eval(q, xs)
  {
    AddEval(p, Neg(q), xs);
    NegEval(q, xs);
  }

  /** The difference of canonical polynomials is canonical. */
  lemma SubValid(p: Poly, q: Poly)
    requires Valid(p) && Valid(q)
    ensures Valid(Sub(p, q))
  {
    NegValid(q);
    AddValid(p, Neg(q));
  }
}
