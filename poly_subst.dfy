/**
 * Substitution: evaluating the main variable at an integer (PolyAt) and
 * substituting polynomials for the variables (PolyCompose).
 */
module PolySubst {
  import opened PolyBase
  import opened PolySum
  import opened PolySumFacts
  import opened PolyProduct
  import opened PolyProductFacts

  // ---------------------------------------------------------------------
  // PolyAt
  // ---------------------------------------------------------------------

  /**
   * The loop of PolyAt over the first `k` monomials of `p`: each coefficient
   * times `x^exp`, contributed as its list of monomials.
   */
  function AtTerms(p: Poly, k: nat, x: int): seq<Mono>
    requires p.Terms? && k <= |p.ms|
  {
    if k == 0 then []
    else
      var m := p.ms[k - 1];
      AtTerms(p, k - 1, x) + MonosOf(Mul(m.p, FromCoeff(PowI(x, m.exp))))
  }

  /** `p` with `x` substituted for its main variable; a scalar is returned unchanged. */
  function At(p: Poly, x: int): Poly {
    if IsCoeff(p) then p else AddMonos(AtTerms(p, |p.ms|, x))
  }

  lemma {:induction false} AtTermsEval(p: Poly, k: nat, x: int, xs: seq<int>)
    requires p.Terms? && k <= |p.ms|
    ensures EvalMonos(AtTerms(p, k, x), xs) == EvalUpTo(p, k, [x] + xs)
    decreases k
  {
    if k == 0 {
      EvalMonosEmpty(xs);
    } else {
      var m := p.ms[k - 1];
      var mul := Mul(m.p, FromCoeff(PowI(x, m.exp)));
      AtTermsEval(p, k - 1, x, xs);
      EvalMonosConcat(AtTerms(p, k - 1, x), MonosOf(mul), xs);
      MonosOfEval(mul, xs);
      MulEval(m.p, FromCoeff(PowI(x, m.exp)), xs);
      PowIIsPower(x, m.exp);
      assert Head([x] + xs) == x && Tail([x] + xs) == xs;
    }
  }

  /**
   * PolyAt computes p(x, x0, x1, ...): its value at `xs` is the value of
   * `p` with `x` prepended to `xs`.
   */
  lemma AtEval(p: Poly, x: int, xs: seq<int>)
    ensures Eval(At(p, x), xs) == Eval(p, [x] + xs)
  {
    if p.Terms? {
      AddMonosEval(AtTerms(p, |p.ms|, x), xs);
      AtTermsEval(p, |p.ms|, x, xs);
    }
  }

  lemma {:induction false} AtTermsValid(p: Poly, k: nat, x: int)
    requires Valid(p) && p.Terms? && k <= |p.ms|
    ensures AllCoeffsValid(AtTerms(p, k, x))
    decreases k
  {
    if k > 0 {
      var m := p.ms[k - 1];
      assert m in p.ms;
      var mul := Mul(m.p, FromCoeff(PowI(x, m.exp)));
      AtTermsValid(p, k - 1, x);
      MulValid(m.p, FromCoeff(PowI(x, m.exp)));
    }
  }

  /** The value of a canonical polynomial at a point is canonical. */
  lemma AtValid(p: Poly, x: int)
    requires Valid(p)
    ensures Valid(At(p, x))
  {
    if p.Terms? {
      AtTermsValid(p, |p.ms|, x);
      AddMonosValid(AtTerms(p, |p.ms|, x));
    }
  }

  // ---------------------------------------------------------------------
  // PolyCompose
  // ---------------------------------------------------------------------

  /**
   * PolyComposeExecute: a scalar passes through at any level; otherwise
   * the sum of what the monomials contribute, accumulated from zero.
   */
  function ComposeAt(p: Poly, x: seq<Poly>, level: nat): Poly
    decreases p, 2, 0
  {
    if IsCoeff(p) then FromCoeff(p.c) else ComposeSum(p, |p.ms|, x, level)
  }

  /** The accumulation loop of PolyComposeExecute over the first `k` monomials. */
  function ComposeSum(p: Poly, k: nat, x: seq<Poly>, level: nat): Poly
    requires p.Terms? && k <= |p.ms|
    decreases p, 1, k
  {
    if k == 0 then Zero()
    else Add(ComposeSum(p, k - 1, x, level), ComposeMono(p.ms[k - 1], x, level))
  }

  /**
   * MonoComposeExecute: a monomial at a level with no polynomial to
   * substitute contributes zero, whatever its exponent; otherwise its
   * composed coefficient times `x[level]` to the power of its exponent,
   * or zero when that coefficient composes to zero.
   */
  function ComposeMono(m: Mono, x: seq<Poly>, level: nat): Poly
    decreases m, 0, 0
  {
    if level >= |x| then Zero()
    else
      var further := ComposeAt(m.p, x, level + 1);
      if IsZero(further) then Zero() else Mul(further, Pow(x[level], m.exp))
  }

  /** `p` with `x[i]` substituted for variable `i`; zero when there is nothing to substitute. */
  function Compose(p: Poly, x: seq<Poly>): Poly {
    if |x| == 0 then Zero() else ComposeAt(p, x, 0)
  }

  /** The values of the substituted polynomials at `xs`. */
  function Vals(x: seq<Poly>, xs: seq<int>): (v: seq<int>)
    ensures |v| == |x| && forall i :: 0 <= i < |x| ==> v[i] == Eval(x[i], xs)
  {
    seq(|x|, i requires 0 <= i < |x| => Eval(x[i], xs))
  }

  lemma {:induction false} ComposeAtEval(p: Poly, x: seq<Poly>, level: nat, xs: seq<int>)
    requires level + Depth(p) <= |x|
    ensures Eval(ComposeAt(p, x, level), xs) == Eval(p, Vals(x, xs)[level..])
    decreases p, 2, 0
  {
    if p.Terms? {
      ComposeSumEval(p, |p.ms|, x, level, xs);
    }
  }

  lemma {:induction false} ComposeSumEval(p: Poly, k: nat, x: seq<Poly>, level: nat, xs: seq<int>)
    requires p.Terms? && k <= |p.ms| && level + Depth(p) <= |x|
    ensures Eval(ComposeSum(p, k, x, level), xs) == EvalUpTo(p, k, Vals(x, xs)[level..])
    decreases p, 1, k
  {
    if k > 0 {
      var m := p.ms[k - 1];
      assert m in p.ms;
      CoeffsShallower(p);
      ComposeSumEval(p, k - 1, x, level, xs);
      ComposeMonoEval(m, x, level, xs);
      AddEval(ComposeSum(p, k - 1, x, level), ComposeMono(m, x, level), xs);
    }
  }

  lemma {:induction false} ComposeMonoEval(m: Mono, x: seq<Poly>, level: nat, xs: seq<int>)
    requires level + 1 + Depth(m.p) <= |x|
    ensures Eval(ComposeMono(m, x, level), xs) == EvalMono(m, Vals(x, xs)[level..])
    decreases m, 0, 0
  {
    var env := Vals(x, xs)[level..];
    assert Head(env) == Eval(x[level], xs);
    assert Tail(env) == Vals(x, xs)[level + 1..];
    var further := ComposeAt(m.p, x, level + 1);
    ComposeAtEval(m.p, x, level + 1, xs);
    if IsZero(further) {
      assert EvalMono(m, env) == Power(Head(env), m.exp) * 0;
    } else {
      MulEval(further, Pow(x[level], m.exp), xs);
      PowEval(x[level], m.exp, xs);
    }
  }

  /**
   * When every variable of `p` has a polynomial to substitute (its depth is
   * at most the count), PolyCompose is substitution: its value is the value
   * of `p` at the values of the substituted polynomials.
   */
  lemma ComposeEval(p: Poly, x: seq<Poly>, xs: seq<int>)
    requires |x| > 0 && Depth(p) <= |x|
    ensures Eval(Compose(p, x), xs) == Eval(p, Vals(x, xs))
  {
    ComposeAtEval(p, x, 0, xs);
    assert Vals(x, xs)[0..] == Vals(x, xs);
  }

  // ---------------------------------------------------------------------
  // Composition with fewer polynomials than variables
  // ---------------------------------------------------------------------

  /**
   * Evaluation of `p` read from variable `level` on, where variable `i`
   * takes `v[i]` and every monomial list met at a level `>= |v|` is worth 0
   * as a whole (a scalar is worth itself at any level).
   */
  function EvalTrunc(p: Poly, v: seq<int>, level: nat): int
    decreases p, 1, 0
  {
    match p
    case Coeff(c) => c
    case Terms(ms) => if level >= |v| then 0 else EvalTruncUpTo(p, |ms|, v, level)
  }

  /** The truncated value of the first `k` monomials of `p`. */
  function EvalTruncUpTo(p: Poly, k: nat, v: seq<int>, level: nat): int
    requires p.Terms? && k <= |p.ms| && level < |v|
    decreases p, 0, k
  {
    if k == 0 then 0 else EvalTruncUpTo(p, k - 1, v, level) + EvalTruncMono(p.ms[k - 1], v, level)
  }

  function EvalTruncMono(m: Mono, v: seq<int>, level: nat): int
    requires level < |v|
    decreases m, 2, 0
  {
    Power(v[level], m.exp) * EvalTrunc(m.p, v, level + 1)
  }

  lemma {:induction false} ComposeAtTrunc(p: Poly, x: seq<Poly>, level: nat, xs: seq<int>)
    ensures Eval(ComposeAt(p, x, level), xs) == EvalTrunc(p, Vals(x, xs), level)
    decreases p, 2, 0
  {
    if p.Terms? {
      ComposeSumTrunc(p, |p.ms|, x, level, xs);
    }
  }

  lemma {:induction false} ComposeSumTrunc(p: Poly, k: nat, x: seq<Poly>, level: nat, xs: seq<int>)
    requires p.Terms? && k <= |p.ms|
    ensures Eval(ComposeSum(p, k, x, level), xs)
      == if level >= |x| then 0 else EvalTruncUpTo(p, k, Vals(x, xs), level)
    decreases p, 1, k
  {
    if k == 0 {
      EvalMonosEmpty(xs);
    } else {
      var m := p.ms[k - 1];
      assert m in p.ms;
      ComposeSumTrunc(p, k - 1, x, level, xs);
      AddEval(ComposeSum(p, k - 1, x, level), ComposeMono(m, x, level), xs);
      if level >= |x| {
        EvalMonosEmpty(xs);
      } else {
        ComposeMonoTrunc(m, x, level, xs);
      }
    }
  }

  lemma {:induction false} ComposeMonoTrunc(m: Mono, x: seq<Poly>, level: nat, xs: seq<int>)
    requires level < |x|
    ensures Eval(ComposeMono(m, x, level), xs) == EvalTruncMono(m, Vals(x, xs), level)
    decreases m, 0, 0
  {
    var further := ComposeAt(m.p, x, level + 1);
    ComposeAtTrunc(m.p, x, level + 1, xs);
    if IsZero(further) {
      EvalMonosEmpty(xs);
      assert EvalTruncMono(m, Vals(x, xs), level) == Power(Vals(x, xs)[level], m.exp) * 0;
    } else {
      MulEval(further, Pow(x[level], m.exp), xs);
      PowEval(x[level], m.exp, xs);
    }
  }

  /**
   * PolyCompose for any count `k > 0`, as the code computes it: variable
   * `x_i` for `i < k` takes the value of the `i`-th polynomial, and any
   * monomial list reached at level `k` or deeper contributes 0, constant
   * terms included.
   */
  lemma ComposeTruncEval(p: Poly, x: seq<Poly>, xs: seq<int>)
    requires |x| > 0
    ensures Eval(Compose(p, x), xs) == EvalTrunc(p, Vals(x, xs), 0)
  {
    ComposeAtTrunc(p, x, 0, xs);
  }

  lemma {:induction false} ComposeAtValid(p: Poly, x: seq<Poly>, level: nat)
    requires Valid(p) && forall i :: 0 <= i < |x| ==> Valid(x[i])
    ensures Valid(ComposeAt(p, x, level))
    decreases p, 2, 0
  {
    if p.Terms? {
      ComposeSumValid(p, |p.ms|, x, level);
    }
  }

  lemma {:induction false} ComposeSumValid(p: Poly, k: nat, x: seq<Poly>, level: nat)
    requires Valid(p) && p.Terms? && k <= |p.ms| && forall i :: 0 <= i < |x| ==> Valid(x[i])
    ensures Valid(ComposeSum(p, k, x, level))
    decreases p, 1, k
  {
    if k > 0 {
      var m := p.ms[k - 1];
      assert m in p.ms;
      ComposeSumValid(p, k - 1, x, level);
      ComposeMonoValid(m, x, level);
      AddValid(ComposeSum(p, k - 1, x, level), ComposeMono(m, x, level));
    }
  }

  lemma {:induction false} ComposeMonoValid(m: Mono, x: seq<Poly>, level: nat)
    requires Valid(m.p) && forall i :: 0 <= i < |x| ==> Valid(x[i])
    ensures Valid(ComposeMono(m, x, level))
    decreases m, 0, 0
  {
    if level < |x| {
      var further := ComposeAt(m.p, x, level + 1);
      ComposeAtValid(m.p, x, level + 1);
      PowValid(x[level], m.exp);
      MulValid(further, Pow(x[level], m.exp));
    }
  }

  /** Composing canonical polynomials gives a canonical polynomial. */
  lemma ComposeValid(p: Poly, x: seq<Poly>)
    requires Valid(p) && forall i :: 0 <= i < |x| ==> Valid(x[i])
    ensures Valid(Compose(p, x))
  {
    if |x| > 0 {
      ComposeAtValid(p, x, 0);
    }
  }

  /** `5 + x1` as a polynomial in x0 of degree 0: its only coefficient lies one level down. */
  function DeeperConstant(): Poly {
    Terms([Mono(0, Terms([Mono(0, Coeff(5)), Mono(1, Coeff(1))]))])
  }

  /**
   * Past the last substituted variable the code drops a whole coefficient,
   * exponent-0 constant included, where reading the missing variables as 0
   * would keep that constant: (5 + x1) composed with [7] gives 0, while the
   * polynomial is worth 5 with x0 = 7 and x1 = 0.
   */
  lemma ComposeDropsDeeperConstant()
    ensures Valid(DeeperConstant())
    ensures Compose(DeeperConstant(), [Coeff(7)]) == Zero()
    ensures Eval(DeeperConstant(), Vals([Coeff(7)], [])) == 5
  {
    DeeperConstantValid();
    DeeperConstantComposesToZero();
    DeeperConstantValue();
  }

  lemma DeeperConstantValid()
    ensures Valid(DeeperConstant())
  {
    var inner := DeeperConstant().ms[0].p;
    assert ValidList([Mono(0, Coeff(5))]);
    ExtendValid([Mono(0, Coeff(5))], Mono(1, Coeff(1)));
    assert [Mono(0, Coeff(5))] + [Mono(1, Coeff(1))] == inner.ms;
  }

  lemma DeeperConstantComposesToZero()
    ensures Compose(DeeperConstant(), [Coeff(7)]) == Zero()
  {
    var p := DeeperConstant();
    var inner := p.ms[0].p;
    var x := [Coeff(7)];
    AddZero(Zero());
    assert ComposeSum(inner, 1, x, 1) == Zero() by {
      assert ComposeMono(inner.ms[0], x, 1) == Zero();
      assert ComposeSum(inner, 0, x, 1) == Zero();
    }
    assert ComposeSum(inner, 2, x, 1) == Zero() by {
      assert ComposeMono(inner.ms[1], x, 1) == Zero();
    }
    assert ComposeMono(p.ms[0], x, 0) == Zero() by {
      assert ComposeAt(inner, x, 1) == ComposeSum(inner, 2, x, 1);
    }
    assert ComposeSum(p, 1, x, 0) == Zero() by {
      assert ComposeSum(p, 0, x, 0) == Zero();
    }
  }

  lemma DeeperConstantValue()
    ensures Eval(DeeperConstant(), Vals([Coeff(7)], [])) == 5
  {
    var p := DeeperConstant();
    var inner := p.ms[0].p;
    assert Vals([Coeff(7)], []) == [7];
    assert Eval(inner, [0]) == 5 by {
      assert EvalUpTo(inner, 1, [0]) == 5;
    }
    assert Eval(p, [7]) == 5 by {
      assert Tail([7]) == [];
      assert EvalUpTo(p, 1, [7]) == 5;
    }
  }

  /** The polynomial x0, as the unit tests build it with PolyAddMonos. */
  function X0(): Poly { AddMonos([Mono(1, Coeff(1))]) }

  lemma X0IsTheVariable()
    ensures X0() == Terms([Mono(1, Coeff(1))]) && Valid(X0())
  {
    AddMonosOfValid(Terms([Mono(1, Coeff(1))]));
  }

  /**
   * The composition cases of the unit tests: 0 and 1337 with no and with one
   * polynomial, and x0 with none, with 1337 and with x0.
   */
  lemma ComposeUnitCases()
    ensures Compose(Zero(), []) == Zero()
    ensures Compose(Zero(), [FromCoeff(1337)]) == Zero()
    ensures Compose(FromCoeff(1337), []) == Zero()
    ensures Compose(FromCoeff(1337), [FromCoeff(1)]) == FromCoeff(1337)
    ensures Compose(X0(), []) == Zero()
    ensures Compose(X0(), [FromCoeff(1337)]) == FromCoeff(1337)
    ensures Compose(X0(), [X0()]) == X0()
  {
    X0IsTheVariable();
    var x0 := X0();
    var m := Mono(1, Coeff(1));
    assert ComposeAt(x0, [FromCoeff(1337)], 0) == FromCoeff(1337) by {
      assert Pow(Coeff(1337), 1) == Coeff(1337);
      assert ComposeMono(m, [FromCoeff(1337)], 0) == Coeff(1337);
      assert ComposeSum(x0, 1, [FromCoeff(1337)], 0) == Add(Zero(), Coeff(1337));
    }
    assert ComposeAt(x0, [x0], 0) == x0 by {
      PowOne(x0);
      MulOne(x0);
      AddZero(x0);
      assert ComposeAt(Coeff(1), [x0], 1) == Coeff(1);
      assert ComposeMono(m, [x0], 0) == Mul(Coeff(1), x0);
      assert ComposeSum(x0, 1, [x0], 0) == Add(Zero(), x0);
    }
  }
}
