/**
 * Canonical form is unique: two canonical polynomials that take the same
 * value at every point are the same polynomial. The algebraic laws of the
 * calculator's arithmetic then hold as equalities of the canonical
 * polynomials it stores, not only of their values.
 *
 * The argument reads a polynomial as a polynomial in its main variable
 * whose coefficients are evaluated at the remaining variables, and uses
 * that an integer polynomial of one variable that is zero everywhere has
 * only zero coefficients (its leading term outgrows the rest).
 */
module PolyUnique {
  import opened PolyBase
  import opened PolySum
  import opened PolySumFacts
  import opened PolyProduct
  import opened PolyProductFacts

  // ---------------------------------------------------------------------
  // Dense polynomials of one variable
  // ---------------------------------------------------------------------

  /** The value of `a[0] + a[1]·x + … + a[n-1]·x^(n-1)`. */
  function DenseVal(a: seq<int>, x: int): int
    decreases |a|
  {
    if a == [] then 0 else DenseVal(a[..|a| - 1], x) + a[|a| - 1] * Power(x, |a| - 1)
  }

  function Abs(v: int): nat { if v < 0 then -v else v }

  /** The sum of the absolute values of the coefficients. */
  function AbsSum(a: seq<int>): nat
    decreases |a|
  {
    if a == [] then 0 else AbsSum(a[..|a| - 1]) + Abs(a[|a| - 1])
  }

  lemma {:induction false} PowerPositive(x: int, n: nat)
    requires x >= 1
    ensures Power(x, n) >= 1
    decreases n
  {
    if n > 0 {
      PowerPositive(x, n - 1);
      MulAtLeast(x, Power(x, n - 1));
    }
  }

  lemma MulAtLeast(x: int, y: int)
    requires x >= 1 && y >= 0
    ensures x * y >= y
  {
    assert x * y == (x - 1) * y + y;
  }

  lemma MulLe(u: int, v: int, k: int)
    requires u <= v && k >= 0
    ensures u * k <= v * k
  {
    assert v * k - u * k == (v - u) * k;
  }

  /** For `x >= 1`, `|DenseVal(a, x)|·x` is at most `AbsSum(a)·x^|a|`. */
  lemma {:induction false} DenseBound(a: seq<int>, x: int)
    requires x >= 1
    ensures Abs(DenseVal(a, x)) * x <= AbsSum(a) * Power(x, |a|)
    decreases |a|
  {
    if a != [] {
      var b, c, n := a[..|a| - 1], a[|a| - 1], |a| - 1;
      DenseBound(b, x);
      PowerPositive(x, n);
      assert DenseVal(a, x) == DenseVal(b, x) + c * Power(x, n);
      assert Power(x, |a|) == x * Power(x, n);
      BoundStep(DenseVal(b, x), c, x, Power(x, n), AbsSum(b));
    }
  }

  /** One step of DenseBound: from `|d|·x <= s·p` to `|d + c·p|·x <= (s + |c|)·(x·p)`. */
  lemma BoundStep(d: int, c: int, x: int, p: int, s: nat)
    requires x >= 1 && p >= 1 && Abs(d) * x <= s * p
    ensures Abs(d + c * p) * x <= (s + Abs(c)) * (x * p)
  {
    var a, k := Abs(d), Abs(c);
    calc {
      Abs(d + c * p) * x;
    <= { AbsMul(c, p); MulLe(Abs(d + c * p), a + k * p, x); }
      (a + k * p) * x;
    == { Distrib(a, k * p, x); }
      a * x + (k * p) * x;
    == { MulShuffle(k, p, x); }
      a * x + k * (x * p);
    <= { MulAtLeast(x, p); MulLe(p, x * p, s); }
      s * (x * p) + k * (x * p);
    == { Distrib(s, k, x * p); }
      (s + k) * (x * p);
    }
  }

  lemma AbsMul(c: int, p: int)
    requires p >= 0
    ensures Abs(c * p) == Abs(c) * p
  {
    if c < 0 {
      assert c * p == -((-c) * p);
    }
  }

  lemma Distrib(a: int, b: int, k: int)
    ensures (a + b) * k == a * k + b * k
  {
  }

  lemma MulShuffle(k: int, p: int, x: int)
    ensures (k * p) * x == k * (x * p)
  {
  }

  /** With a non-zero leading coefficient the polynomial is non-zero at `AbsSum(b) + 1`. */
  lemma LeadingTermWins(b: seq<int>, c: int)
    requires c != 0
    ensures DenseVal(b + [c], AbsSum(b) + 1) != 0
  {
    var x := AbsSum(b) + 1;
    var a := b + [c];
    var pn := Power(x, |b|);
    assert a[..|a| - 1] == b;
    assert DenseVal(a, x) == DenseVal(b, x) + c * pn;
    DenseBound(b, x);
    PowerPositive(x, |b|);
    var db := DenseVal(b, x);
    // |db|·x <= (x - 1)·pn < x·pn, so |db| < pn
    assert Abs(db) * x < pn * x;
    if Abs(db) >= pn {
      MulLe(pn, Abs(db), x);
      assert false;
    }
    assert Abs(c * pn) >= pn by {
      if c > 0 {
        MulAtLeast(c, pn);
      } else {
        MulAtLeast(-c, pn);
        assert c * pn == -((-c) * pn);
      }
    }
  }

  /** A polynomial of one variable that is zero at every integer has only zero coefficients. */
  lemma {:induction false} DenseVanishes(a: seq<int>)
    requires forall x :: DenseVal(a, x) == 0
    ensures forall i | 0 <= i < |a| :: a[i] == 0
    decreases |a|
  {
    if a != [] {
      var b, c := a[..|a| - 1], a[|a| - 1];
      assert a == b + [c];
      if c != 0 {
        LeadingTermWins(b, c);
        assert false;
      }
      forall x ensures DenseVal(b, x) == 0 {
        assert DenseVal(a, x) == DenseVal(b, x) + c * Power(x, |b|);
      }
      DenseVanishes(b);
      forall i | 0 <= i < |a| ensures a[i] == 0 {
        if i < |b| {
          assert a[i] == b[i];
        }
      }
    }
  }

  function DenseMinus(a: seq<int>, b: seq<int>): (r: seq<int>)
    requires |a| == |b|
    ensures |r| == |a| && forall i | 0 <= i < |a| :: r[i] == a[i] - b[i]
  {
    seq(|a|, i requires 0 <= i < |a| => a[i] - b[i])
  }

  lemma {:induction false} DenseValMinus(a: seq<int>, b: seq<int>, x: int)
    requires |a| == |b|
    ensures DenseVal(DenseMinus(a, b), x) == DenseVal(a, x) - DenseVal(b, x)
    decreases |a|
  {
    if a != [] {
      var n := |a| - 1;
      var d := DenseMinus(a, b);
      assert d[..n] == DenseMinus(a[..n], b[..n]);
      DenseValMinus(a[..n], b[..n], x);
      assert (a[n] - b[n]) * Power(x, n) == a[n] * Power(x, n) - b[n] * Power(x, n);
    }
  }

  /** Adding `v` to the coefficient of `x^e` adds `v·x^e` to the value. */
  lemma {:induction false} DenseValUpdate(a: seq<int>, e: nat, v: int, x: int)
    requires e < |a|
    ensures DenseVal(a[e := a[e] + v], x) == DenseVal(a, x) + Power(x, e) * v
    decreases |a|
  {
    var n := |a| - 1;
    var a' := a[e := a[e] + v];
    if e == n {
      assert a'[..n] == a[..n];
      assert (a[n] + v) * Power(x, n) == a[n] * Power(x, n) + Power(x, n) * v;
    } else {
      assert a'[..n] == a[..n][e := a[e] + v];
      DenseValUpdate(a[..n], e, v, x);
    }
  }

  lemma {:induction false} DenseValZeros(a: seq<int>, x: int)
    requires forall i | 0 <= i < |a| :: a[i] == 0
    ensures DenseVal(a, x) == 0
    decreases |a|
  {
    if a != [] {
      DenseValZeros(a[..|a| - 1], x);
    }
  }

  // ---------------------------------------------------------------------
  // A monomial list as a dense polynomial in its variable
  // ---------------------------------------------------------------------

  /** The coefficient of `x^e` in a monomial list: the last monomial with exponent `e`, or zero. */
  function CoeffOf(ms: seq<Mono>, e: nat): (r: Poly)
    ensures r == Zero() || Mono(e, r) in ms
    decreases |ms|
  {
    if ms == [] then Zero()
    else if ms[|ms| - 1].exp == e then ms[|ms| - 1].p
    else CoeffOf(ms[..|ms| - 1], e)
  }

  /** In a list with strictly ascending exponents, each monomial is the coefficient of its power. */
  lemma {:induction false} CoeffOfAt(ms: seq<Mono>, i: nat)
    requires StrictlyIncreasing(ms) && i < |ms|
    ensures CoeffOf(ms, ms[i].exp) == ms[i].p
    decreases |ms|
  {
    if i < |ms| - 1 {
      var ms' := ms[..|ms| - 1];
      assert ms'[i] == ms[i];
      CoeffOfAt(ms', i);
    }
  }

  /** A bound above every exponent of the list. */
  function ExpBound(ms: seq<Mono>): (r: nat)
    ensures forall m | m in ms :: m.exp < r
    decreases |ms|
  {
    if ms == [] then 0
    else
      var b := ExpBound(ms[..|ms| - 1]);
      assert forall m | m in ms :: m in ms[..|ms| - 1] || m == ms[|ms| - 1];
      if b > ms[|ms| - 1].exp then b else ms[|ms| - 1].exp + 1
  }

  /** The first `n` coefficients of the list, evaluated at `t`. */
  function Dense(ms: seq<Mono>, t: seq<int>, n: nat): (r: seq<int>)
    ensures |r| == n
  {
    seq(n, e requires 0 <= e < n => Eval(CoeffOf(ms, e), t))
  }

  /**
   * With every exponent below `n`, the list's value at `[x] + t` is the dense
   * polynomial of its coefficients' values at `t`, evaluated at `x`.
   */
  lemma {:induction false} EvalDense(ms: seq<Mono>, t: seq<int>, x: int, n: nat)
    requires StrictlyIncreasing(ms) && forall m | m in ms :: m.exp < n
    ensures EvalMonos(ms, [x] + t) == DenseVal(Dense(ms, t, n), x)
    decreases |ms|
  {
    if ms == [] {
      EvalMonosEmpty([x] + t);
      DenseValZeros(Dense(ms, t, n), x);
    } else {
      var ms' := ms[..|ms| - 1];
      assert StrictlyIncreasing(ms') && forall m' | m' in ms' :: m'.exp < n by {
        assert forall m' | m' in ms' :: m' in ms;
      }
      EvalDense(ms', t, x, n);
      EvalLastTerm(ms, t, x);
      DenseLastTerm(ms, t, x, n);
    }
  }

  lemma EvalLastTerm(ms: seq<Mono>, t: seq<int>, x: int)
    requires ms != []
    ensures var m := ms[|ms| - 1];
      EvalMonos(ms, [x] + t) == EvalMonos(ms[..|ms| - 1], [x] + t) + Power(x, m.exp) * Eval(m.p, t)
  {
    var ms', m := ms[..|ms| - 1], ms[|ms| - 1];
    assert ms == ms' + [m];
    var xs := [x] + t;
    assert Head(xs) == x && Tail(xs) == t;
    EvalMonosAppend(ms', m, xs);
  }

  lemma DenseLastTerm(ms: seq<Mono>, t: seq<int>, x: int, n: nat)
    requires StrictlyIncreasing(ms) && ms != [] && ms[|ms| - 1].exp < n
    ensures var m := ms[|ms| - 1];
      DenseVal(Dense(ms, t, n), x) == DenseVal(Dense(ms[..|ms| - 1], t, n), x) + Power(x, m.exp) * Eval(m.p, t)
  {
    var m := ms[|ms| - 1];
    var d' := Dense(ms[..|ms| - 1], t, n);
    DenseAppend(ms, t, n);
    DenseValUpdate(d', m.exp, Eval(m.p, t), x);
  }

  /** Appending the last monomial adds its coefficient's value at its power. */
  lemma DenseAppend(ms: seq<Mono>, t: seq<int>, n: nat)
    requires StrictlyIncreasing(ms) && ms != [] && ms[|ms| - 1].exp < n
    ensures var ms', m := ms[..|ms| - 1], ms[|ms| - 1];
      Dense(ms, t, n) == Dense(ms', t, n)[m.exp := Dense(ms', t, n)[m.exp] + Eval(m.p, t)]
  {
    var ms', m := ms[..|ms| - 1], ms[|ms| - 1];
    PrefixLacksLast(ms);
    var d, d' := Dense(ms, t, n), Dense(ms', t, n);
    forall e | 0 <= e < n ensures d[e] == d'[m.exp := d'[m.exp] + Eval(m.p, t)][e] {
      if e == m.exp {
        assert d'[e] == Eval(Zero(), t) == 0;
      }
    }
  }

  /** Below the last monomial of an ascending list, its power has no coefficient. */
  lemma PrefixLacksLast(ms: seq<Mono>)
    requires StrictlyIncreasing(ms) && ms != []
    ensures CoeffOf(ms[..|ms| - 1], ms[|ms| - 1].exp) == Zero()
  {
  }

  // ---------------------------------------------------------------------
  // Uniqueness of canonical form
  // ---------------------------------------------------------------------

  /** The monomials of a canonical polynomial: ascending, canonical, non-zero and shallower. */
  lemma MonosOfShape(p: Poly)
    requires Valid(p)
    ensures StrictlyIncreasing(MonosOf(p))
    ensures forall m | m in MonosOf(p) :: Valid(m.p) && !IsZero(m.p) && Depth(m.p) <= Depth(p)
    ensures p.Terms? ==> CoeffsBelow(MonosOf(p), Depth(p))
  {
    if p.Terms? {
      CoeffsShallower(p);
    }
  }

  /** A canonical polynomial is determined by its monomials. */
  lemma MonosOfInjective(p: Poly, q: Poly)
    requires Valid(p) && Valid(q) && MonosOf(p) == MonosOf(q)
    ensures p == q
  {
    if p.Coeff? && q.Terms? {
      assert false;
    } else if p.Terms? && q.Coeff? {
      assert false;
    }
  }

  /**
   * Two ascending lists of non-zero monomials with the same coefficient at
   * every power are the same list.
   */
  lemma {:induction false} SameCoeffsSameList(a: seq<Mono>, b: seq<Mono>)
    requires StrictlyIncreasing(a) && StrictlyIncreasing(b)
    requires forall m | m in a :: !IsZero(m.p)
    requires forall m | m in b :: !IsZero(m.p)
    requires forall e: nat :: CoeffOf(a, e) == CoeffOf(b, e)
    ensures a == b
    decreases |a| + |b|
  {
    if a == [] && b == [] {
    } else if a == [] {
      assert b[|b| - 1] in b;
      CoeffOfAt(b, |b| - 1);
    } else if b == [] {
      assert a[|a| - 1] in a;
      CoeffOfAt(a, |a| - 1);
    } else {
      var a', b' := a[..|a| - 1], b[..|b| - 1];
      assert a[|a| - 1] in a && b[|b| - 1] in b;
      LastsAgree(a, b);
      forall e: nat ensures CoeffOf(a', e) == CoeffOf(b', e) {
        PrefixCoeff(a, e);
        PrefixCoeff(b, e);
      }
      SameCoeffsSameList(a', b');
      assert a == a' + [a[|a| - 1]] && b == b' + [b[|b| - 1]];
    }
  }

  /** A power with a non-zero coefficient is at most the last exponent of an ascending list. */
  lemma CoeffBelowLast(ms: seq<Mono>, e: nat)
    requires StrictlyIncreasing(ms) && ms != [] && CoeffOf(ms, e) != Zero()
    ensures e <= ms[|ms| - 1].exp
  {
    var j :| 0 <= j < |ms| && ms[j] == Mono(e, CoeffOf(ms, e));
    assert j == |ms| - 1 || ms[j].exp < ms[|ms| - 1].exp;
  }

  /** Lists with the same coefficients at every power end in the same non-zero monomial. */
  lemma LastsAgree(a: seq<Mono>, b: seq<Mono>)
    requires StrictlyIncreasing(a) && StrictlyIncreasing(b) && a != [] && b != []
    requires !IsZero(a[|a| - 1].p) && !IsZero(b[|b| - 1].p)
    requires forall e: nat :: CoeffOf(a, e) == CoeffOf(b, e)
    ensures a[|a| - 1] == b[|b| - 1]
  {
    var la, lb := a[|a| - 1], b[|b| - 1];
    CoeffOfAt(a, |a| - 1);
    CoeffOfAt(b, |b| - 1);
    CoeffBelowLast(b, la.exp);
    CoeffBelowLast(a, lb.exp);
  }

  /** Dropping the last monomial removes exactly its power. */
  lemma PrefixCoeff(ms: seq<Mono>, e: nat)
    requires StrictlyIncreasing(ms) && ms != []
    ensures CoeffOf(ms[..|ms| - 1], e) == if e == ms[|ms| - 1].exp then Zero() else CoeffOf(ms, e)
  {
    if e == ms[|ms| - 1].exp {
      PrefixLacksLast(ms);
    }
  }

  /**
   * Two canonical polynomials with the same value everywhere have, at every
   * power of the main variable, coefficients with the same value everywhere.
   */
  lemma SameCoeffValues(p: Poly, q: Poly, e: nat)
    requires Valid(p) && Valid(q)
    requires forall xs :: Eval(p, xs) == Eval(q, xs)
    ensures forall t :: Eval(CoeffOf(MonosOf(p), e), t) == Eval(CoeffOf(MonosOf(q), e), t)
  {
    var a, b := MonosOf(p), MonosOf(q);
    MonosOfShape(p);
    MonosOfShape(q);
    var n := ExpBound(a) + ExpBound(b);
    forall t ensures Eval(CoeffOf(a, e), t) == Eval(CoeffOf(b, e), t) {
      var da, db := Dense(a, t, n), Dense(b, t, n);
      forall x ensures DenseVal(DenseMinus(da, db), x) == 0 {
        EvalDense(a, t, x, n);
        EvalDense(b, t, x, n);
        MonosOfEval(p, [x] + t);
        MonosOfEval(q, [x] + t);
        DenseValMinus(da, db, x);
      }
      DenseVanishes(DenseMinus(da, db));
      if e < n {
        assert DenseMinus(da, db)[e] == 0;
      } else {
        assert CoeffOf(a, e) == Zero() && CoeffOf(b, e) == Zero();
      }
    }
  }

  /** Canonical form is unique: canonical polynomials with the same value everywhere are equal. */
  lemma {:induction false} CanonicalUnique(p: Poly, q: Poly)
    requires Valid(p) && Valid(q)
    requires forall xs :: Eval(p, xs) == Eval(q, xs)
    ensures p == q
    decreases Depth(p) + Depth(q)
  {
    if p.Coeff? && q.Coeff? {
      assert Eval(p, []) == Eval(q, []);
    } else {
      var a, b := MonosOf(p), MonosOf(q);
      MonosOfShape(p);
      MonosOfShape(q);
      forall e: nat ensures CoeffOf(a, e) == CoeffOf(b, e) {
        SameCoeffValues(p, q, e);
        var cp, cq := CoeffOf(a, e), CoeffOf(b, e);
        assert Valid(cp) && Valid(cq);
        assert Depth(cp) + Depth(cq) < Depth(p) + Depth(q);
        CanonicalUnique(cp, cq);
      }
      SameCoeffsSameList(a, b);
      MonosOfInjective(p, q);
    }
  }

  // ---------------------------------------------------------------------
  // Algebraic laws of the stored polynomials
  // ---------------------------------------------------------------------

  /** Reordering a monomial list keeps its value. */
  lemma {:induction false} EvalMonosPermutation(a: seq<Mono>, b: seq<Mono>, xs: seq<int>)
    requires multiset(a) == multiset(b)
    ensures EvalMonos(a, xs) == EvalMonos(b, xs)
    decreases |a|
  {
    if a == [] {
      assert |b| == |multiset(b)| == 0;
    } else {
      var a', m := a[..|a| - 1], a[|a| - 1];
      assert a == a' + [m];
      assert m in multiset(b);
      var i :| 0 <= i < |b| && b[i] == m;
      var rest := b[..i] + b[i + 1..];
      assert multiset(a') == multiset(a) - multiset{m} by {
        assert multiset(a) == multiset(a') + multiset{m};
      }
      RemoveAt(b, i);
      EvalMonosPermutation(a', rest, xs);
      EvalMonosAppend(a', m, xs);
      EvalRemoveAt(b, i, xs);
    }
  }

  lemma RemoveAt(b: seq<Mono>, i: nat)
    requires i < |b|
    ensures multiset(b[..i] + b[i + 1..]) == multiset(b) - multiset{b[i]}
  {
    assert b == b[..i] + [b[i]] + b[i + 1..];
    assert multiset(b) == multiset(b[..i] + b[i + 1..]) + multiset{b[i]};
  }

  /** Taking out the monomial at `i` takes out its value. */
  lemma EvalRemoveAt(b: seq<Mono>, i: nat, xs: seq<int>)
    requires i < |b|
    ensures EvalMonos(b, xs) == EvalMonos(b[..i] + b[i + 1..], xs) + EvalMono(b[i], xs)
  {
    var b1, m, b2 := b[..i], b[i], b[i + 1..];
    assert b == b1 + [m] + b2;
    EvalMonosConcat(b1 + [m], b2, xs);
    EvalMonosAppend(b1, m, xs);
    EvalMonosConcat(b1, b2, xs);
  }

  /**
   * Summing a monomial list gives the same canonical polynomial whatever
   * the order of the list: the sort's treatment of equal exponents does
   * not show in the result.
   */
  lemma AddMonosOrderFree(a: seq<Mono>, b: seq<Mono>)
    requires multiset(a) == multiset(b) && AllCoeffsValid(a)
    ensures AddMonos(a) == AddMonos(b)
  {
    assert AllCoeffsValid(b) by {
      forall m | m in b ensures Valid(m.p) {
        assert m in multiset(a);
      }
    }
    AddMonosValid(a);
    AddMonosValid(b);
    forall xs ensures Eval(AddMonos(a), xs) == Eval(AddMonos(b), xs) {
      AddMonosEval(a, xs);
      AddMonosEval(b, xs);
      EvalMonosPermutation(a, b, xs);
    }
    CanonicalUnique(AddMonos(a), AddMonos(b));
  }

  lemma AddComm(p: Poly, q: Poly)
    requires Valid(p) && Valid(q)
    ensures Add(p, q) == Add(q, p)
  {
    AddValid(p, q);
    AddValid(q, p);
    forall xs ensures Eval(Add(p, q), xs) == Eval(Add(q, p), xs) {
      AddEval(p, q, xs);
      AddEval(q, p, xs);
    }
    CanonicalUnique(Add(p, q), Add(q, p));
  }

  lemma AddAssoc(p: Poly, q: Poly, r: Poly)
    requires Valid(p) && Valid(q) && Valid(r)
    ensures Add(Add(p, q), r) == Add(p, Add(q, r))
  {
    AddValid(p, q);
    AddValid(q, r);
    AddValid(Add(p, q), r);
    AddValid(p, Add(q, r));
    forall xs ensures Eval(Add(Add(p, q), r), xs) == Eval(Add(p, Add(q, r)), xs) {
      AddEval(Add(p, q), r, xs);
      AddEval(p, q, xs);
      AddEval(p, Add(q, r), xs);
      AddEval(q, r, xs);
    }
    CanonicalUnique(Add(Add(p, q), r), Add(p, Add(q, r)));
  }

  /** `p - p` is the zero polynomial. */
  lemma SubSelf(p: Poly)
    requires Valid(p)
    ensures Sub(p, p) == Zero()
  {
    SubValid(p, p);
    forall xs ensures Eval(Sub(p, p), xs) == Eval(Zero(), xs) {
      SubEval(p, p, xs);
    }
    CanonicalUnique(Sub(p, p), Zero());
  }

  lemma MulComm(p: Poly, q: Poly)
    requires Valid(p) && Valid(q)
    ensures Mul(p, q) == Mul(q, p)
  {
    MulValid(p, q);
    MulValid(q, p);
    forall xs ensures Eval(Mul(p, q), xs) == Eval(Mul(q, p), xs) {
      MulEval(p, q, xs);
      MulEval(q, p, xs);
    }
    CanonicalUnique(Mul(p, q), Mul(q, p));
  }

  lemma MulAssoc(p: Poly, q: Poly, r: Poly)
    requires Valid(p) && Valid(q) && Valid(r)
    ensures Mul(Mul(p, q), r) == Mul(p, Mul(q, r))
  {
    MulValid(p, q);
    MulValid(q, r);
    MulValid(Mul(p, q), r);
    MulValid(p, Mul(q, r));
    forall xs ensures Eval(Mul(Mul(p, q), r), xs) == Eval(Mul(p, Mul(q, r)), xs) {
      MulEval(Mul(p, q), r, xs);
      MulEval(p, q, xs);
      MulEval(p, Mul(q, r), xs);
      MulEval(q, r, xs);
      IntMulAssoc(Eval(p, xs), Eval(q, xs), Eval(r, xs));
    }
    CanonicalUnique(Mul(Mul(p, q), r), Mul(p, Mul(q, r)));
  }

  lemma IntMulAssoc(u: int, v: int, w: int)
    ensures (u * v) * w == u * (v * w)
  {
  }

  /** Multiplication distributes over addition. */
  lemma MulAddDistrib(p: Poly, q: Poly, r: Poly)
    requires Valid(p) && Valid(q) && Valid(r)
    ensures Mul(p, Add(q, r)) == Add(Mul(p, q), Mul(p, r))
  {
    AddValid(q, r);
    MulValid(p, Add(q, r));
    MulValid(p, q);
    MulValid(p, r);
    AddValid(Mul(p, q), Mul(p, r));
    forall xs ensures Eval(Mul(p, Add(q, r)), xs) == Eval(Add(Mul(p, q), Mul(p, r)), xs) {
      MulAddDistribAt(p, q, r, xs);
    }
    CanonicalUnique(Mul(p, Add(q, r)), Add(Mul(p, q), Mul(p, r)));
  }

  lemma MulAddDistribAt(p: Poly, q: Poly, r: Poly, xs: seq<int>)
    ensures Eval(Mul(p, Add(q, r)), xs) == Eval(Add(Mul(p, q), Mul(p, r)), xs)
  {
    MulEval(p, Add(q, r), xs);
    AddEval(q, r, xs);
    AddEval(Mul(p, q), Mul(p, r), xs);
    MulEval(p, q, xs);
    MulEval(p, r, xs);
    DistribLeft(Eval(p, xs), Eval(q, xs), Eval(r, xs));
  }

  lemma DistribLeft(u: int, v: int, w: int)
    ensures u * (v + w) == u * v + u * w
  {
  }

  /** `p^(e1 + e2) == p^e1 · p^e2`. */
  lemma PowAdd(p: Poly, e1: nat, e2: nat)
    requires Valid(p)
    ensures Pow(p, e1 + e2) == Mul(Pow(p, e1), Pow(p, e2))
  {
    PowValid(p, e1 + e2);
    PowValid(p, e1);
    PowValid(p, e2);
    MulValid(Pow(p, e1), Pow(p, e2));
    forall xs ensures Eval(Pow(p, e1 + e2), xs) == Eval(Mul(Pow(p, e1), Pow(p, e2)), xs) {
      PowEval(p, e1 + e2, xs);
      PowEval(p, e1, xs);
      PowEval(p, e2, xs);
      MulEval(Pow(p, e1), Pow(p, e2), xs);
      PowerAdd(Eval(p, xs), e1, e2);
    }
    CanonicalUnique(Pow(p, e1 + e2), Mul(Pow(p, e1), Pow(p, e2)));
  }
}
