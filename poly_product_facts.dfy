/**
 * What multiplication and powers mean: Mul, MonoMul and Pow compute the
 * product and the power under Eval, PowI is the integer power, products of
 * canonical polynomials are canonical, and one is neutral.
 */
module PolyProductFacts {
  import opened PolyBase
  import opened MonoSort
  import opened PolySum
  import opened PolySumFacts
  import opened PolyProduct

  lemma MulRearrange(w: int, x: int, y: int, z: int)
    ensures (w * y) * (x * z) == (w * x) * (y * z)
  {
  }

  // ---------------------------------------------------------------------
  // Values
  // ---------------------------------------------------------------------

  /** PolyMul computes the product. */
  lemma MulEval(p: Poly, q: Poly, xs: seq<int>)
    ensures Eval(Mul(p, q), xs) == Eval(p, xs) * Eval(q, xs)
    decreases Max(Depth(p), Depth(q)), MulRank(p, q), 0, 0
  {
    if IsZero(p) || IsZero(q) {
    } else if IsCoeff(p) && IsCoeff(q) {
    } else if IsCoeff(q) {
      MulEval(q, p, xs);
    } else if IsCoeff(p) {
      ScalarTermDepth(p.c);
      MulEval(TransformIfCoeff(p), q, xs);
      TransformIfCoeffEval(p, xs);
    } else {
      CoeffsShallower(p);
      CoeffsShallower(q);
      var d := Max(Depth(p), Depth(q));
      AddMonosEval(Products(p.ms, q.ms, d), xs);
      ProductsEval(p.ms, q.ms, d, xs);
    }
  }

  /** MonoMul computes the product of two monomials. */
  lemma MonoMulEval(a: Mono, b: Mono, d: nat, xs: seq<int>)
    requires Depth(a.p) < d && Depth(b.p) < d
    ensures EvalMono(MonoMul(a, b, d), xs) == EvalMono(a, xs) * EvalMono(b, xs)
    decreases d, 0, 0, 0
  {
    MulEval(a.p, b.p, Tail(xs));
    PowerAdd(Head(xs), a.exp, b.exp);
    MulRearrange(Power(Head(xs), a.exp), Power(Head(xs), b.exp), Eval(a.p, Tail(xs)), Eval(b.p, Tail(xs)));
  }

  lemma RowStep(a: int, i: int, l: int, t: int)
    requires t == a * l
    ensures a * i + t == a * (i + l)
  {
  }

  /** The product of `a` and one monomial, dropped when zero, is worth the product of the values. */
  lemma RowTailEval(a: Mono, b: Mono, d: nat, xs: seq<int>)
    requires Depth(a.p) < d && Depth(b.p) < d
    ensures var mm := MonoMul(a, b, d);
      EvalMonos(if IsZero(mm.p) then [] else [mm], xs) == EvalMono(a, xs) * EvalMono(b, xs)
    decreases d, 0, 0, 1
  {
    var mm := MonoMul(a, b, d);
    MonoMulEval(a, b, d, xs);
    if IsZero(mm.p) {
      EvalMonosEmpty(xs);
      assert EvalMono(mm, xs) == Power(Head(xs), mm.exp) * 0;
    } else {
      EvalMonosSingle(mm, xs);
    }
  }

  /** A row is worth `a` times the value of `qs`. */
  lemma RowEval(a: Mono, qs: seq<Mono>, d: nat, xs: seq<int>)
    requires Depth(a.p) < d && CoeffsBelow(qs, d)
    ensures EvalMonos(Row(a, qs, d), xs) == EvalMono(a, xs) * EvalMonos(qs, xs)
    decreases d, 0, |qs|, 2
  {
    if qs == [] {
      EvalMonosEmpty(xs);
    } else {
      var init, last := qs[..|qs| - 1], qs[|qs| - 1];
      assert last in qs;
      assert qs == init + [last];
      var mm := MonoMul(a, last, d);
      var tail := if IsZero(mm.p) then [] else [mm];
      assert Row(a, qs, d) == Row(a, init, d) + tail;
      RowEval(a, init, d, xs);
      RowTailEval(a, last, d, xs);
      EvalMonosConcat(Row(a, init, d), tail, xs);
      EvalMonosAppend(init, last, xs);
      RowStep(EvalMono(a, xs), EvalMonos(init, xs), EvalMono(last, xs), EvalMonos(tail, xs));
    }
  }

  lemma ProductsStep(i: int, l: int, q: int)
    ensures i * q + l * q == (i + l) * q
  {
  }

  /** The list of all pairwise products is worth the product of the values. */
  lemma ProductsEval(ps: seq<Mono>, qs: seq<Mono>, d: nat, xs: seq<int>)
    requires CoeffsBelow(ps, d) && CoeffsBelow(qs, d)
    ensures EvalMonos(Products(ps, qs, d), xs) == EvalMonos(ps, xs) * EvalMonos(qs, xs)
    decreases d, 1, |ps|, 0
  {
    if ps == [] {
      EvalMonosEmpty(xs);
    } else {
      var init, last := ps[..|ps| - 1], ps[|ps| - 1];
      assert last in ps;
      assert ps == init + [last];
      assert Products(ps, qs, d) == Products(init, qs, d) + Row(last, qs, d);
      ProductsEval(init, qs, d, xs);
      RowEval(last, qs, d, xs);
      EvalMonosConcat(Products(init, qs, d), Row(last, qs, d), xs);
      EvalMonosAppend(init, last, xs);
      ProductsStep(EvalMonos(init, xs), EvalMono(last, xs), EvalMonos(qs, xs));
    }
  }

  // ---------------------------------------------------------------------
  // Canonical form
  // ---------------------------------------------------------------------

  /** The product of two polynomials with canonical coefficients is canonical. */
  lemma MulValid(p: Poly, q: Poly)
    requires CoeffsValid(p) && CoeffsValid(q)
    ensures Valid(Mul(p, q))
    decreases Max(Depth(p), Depth(q)), MulRank(p, q), 0
  {
    if IsZero(p) || IsZero(q) {
    } else if IsCoeff(p) && IsCoeff(q) {
    } else if IsCoeff(q) {
      MulValid(q, p);
    } else if IsCoeff(p) {
      ScalarTermDepth(p.c);
      MulValid(TransformIfCoeff(p), q);
    } else {
      CoeffsShallower(p);
      CoeffsShallower(q);
      var d := Max(Depth(p), Depth(q));
      ProductsValid(p.ms, q.ms, d);
      AddMonosValid(Products(p.ms, q.ms, d));
    }
  }

  lemma RowValid(a: Mono, qs: seq<Mono>, d: nat)
    requires Depth(a.p) < d && CoeffsBelow(qs, d)
    requires Valid(a.p) && AllCoeffsValid(qs)
    ensures AllCoeffsValid(Row(a, qs, d))
    decreases d, 0, |qs|
  {
    if qs != [] {
      var init, last := qs[..|qs| - 1], qs[|qs| - 1];
      assert last in qs;
      RowValid(a, init, d);
      MulValid(a.p, last.p);
    }
  }

  lemma ProductsValid(ps: seq<Mono>, qs: seq<Mono>, d: nat)
    requires CoeffsBelow(ps, d) && CoeffsBelow(qs, d)
    requires AllCoeffsValid(ps) && AllCoeffsValid(qs)
    ensures AllCoeffsValid(Products(ps, qs, d))
    decreases d, 1, |ps|
  {
    if ps != [] {
      var init, last := ps[..|ps| - 1], ps[|ps| - 1];
      assert last in ps;
      ProductsValid(init, qs, d);
      RowValid(last, qs, d);
    }
  }

  // ---------------------------------------------------------------------
  // One is neutral
  // ---------------------------------------------------------------------

  lemma {:induction false} RowOfOne(p: Poly, k: nat, d: nat)
    requires Valid(p) && p.Terms? && k <= |p.ms| && d >= 1 && CoeffsBelow(p.ms, d)
    ensures CoeffsBelow(p.ms[..k], d)
    ensures Row(Mono(0, Coeff(1)), p.ms[..k], d) == p.ms[..k]
    decreases p, 0, k
  {
    CoeffsBelowSlice(p.ms, 0, k, d);
    assert p.ms[0..k] == p.ms[..k];
    if k > 0 {
      var a := Mono(0, Coeff(1));
      var last := p.ms[k - 1];
      assert last in p.ms;
      RowOfOne(p, k - 1, d);
      assert MonoMul(a, last, d) == last by {
        OneTimes(last.p);
      }
      assert p.ms[..k][..k - 1] == p.ms[..k - 1];
      assert p.ms[..k] == p.ms[..k - 1] + [last];
    }
  }

  /** Multiplying a canonical polynomial by one on the left gives it back. */
  lemma {:induction false} OneTimes(p: Poly)
    requires Valid(p)
    ensures Mul(FromCoeff(1), p) == p
    decreases p, 1, 0
  {
    if p.Terms? {
      var a := Mono(0, Coeff(1));
      var one := Terms([a]);
      ScalarTermDepth(1);
      CoeffsShallower(p);
      var d := Max(Depth(one), Depth(p));
      assert CoeffsBelow(one.ms, d);
      assert Mul(FromCoeff(1), p) == Mul(one, p);
      assert Mul(one, p) == AddMonos(Products(one.ms, p.ms, d));
      assert Products(one.ms, p.ms, d) == Row(a, p.ms, d) by {
        assert one.ms[..0] == [];
        assert Products([], p.ms, d) == [];
      }
      RowOfOne(p, |p.ms|, d);
      assert p.ms[..|p.ms|] == p.ms;
      AddMonosOfValid(p);
    }
  }

  /** One is neutral for multiplication on canonical polynomials. */
  lemma MulOne(p: Poly)
    requires Valid(p)
    ensures Mul(p, FromCoeff(1)) == p && Mul(FromCoeff(1), p) == p
  {
    OneTimes(p);
  }

  // ---------------------------------------------------------------------
  // Powers
  // ---------------------------------------------------------------------

  /** Squaring by halves computes the integer power. */
  lemma {:induction false} PowIIsPower(x: int, e: nat)
    ensures PowI(x, e) == Power(x, e)
    decreases e
  {
    if e > 0 {
      if e % 2 == 1 {
        PowIIsPower(x, e - 1);
      } else {
        PowIIsPower(x, e / 2);
        PowerAdd(x, e / 2, e / 2);
      }
    }
  }

  /** PolyPow computes the power of the value. */
  lemma {:induction false} PowEval(p: Poly, e: nat, xs: seq<int>)
    ensures Eval(Pow(p, e), xs) == Power(Eval(p, xs), e)
    decreases e
  {
    if e > 0 {
      if e % 2 == 1 {
        PowEval(p, e - 1, xs);
        MulEval(p, Pow(p, e - 1), xs);
      } else {
        PowEval(p, e / 2, xs);
        MulEval(Pow(p, e / 2), Pow(p, e / 2), xs);
        PowerAdd(Eval(p, xs), e / 2, e / 2);
      }
    }
  }

  /** A power of a canonical polynomial is canonical. */
  lemma {:induction false} PowValid(p: Poly, e: nat)
    requires Valid(p)
    ensures Valid(Pow(p, e))
    decreases e
  {
    if e > 0 {
      if e % 2 == 1 {
        PowValid(p, e - 1);
        MulValid(p, Pow(p, e - 1));
      } else {
        PowValid(p, e / 2);
        MulValid(Pow(p, e / 2), Pow(p, e / 2));
      }
    }
  }

  /** The first power of a canonical polynomial is the polynomial itself. */
  lemma PowOne(p: Poly)
    requires Valid(p)
    ensures Pow(p, 1) == p
  {
    MulOne(p);
  }
}
