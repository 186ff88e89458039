/**
 * The list-walking procedures of the polynomial engine, written as the
 * calculator runs them: copying monomials into an array, sorting it in
 * place, appending the sorted monomials one by one, multiplying term lists
 * in two nested loops, substituting into each monomial, and cloning and
 * comparing term lists. Each is proved to compute its recursive
 * definition.
 */
module PolyLoops {
  import opened PolyBase
  import opened MonoSort
  import opened PolySum
  import opened PolySumFacts
  import PolyProduct
  import opened PolySubst

  // ---------------------------------------------------------------------
  // Sorting and summing an array of monomials
  // ---------------------------------------------------------------------

  /** Inserting `key` into a sorted prefix lands it after every exponent at most its own. */
  lemma {:induction false} InsertLandsAt(s: seq<Mono>, j: nat, key: Mono)
    requires j <= |s| && (j == 0 || s[j - 1].exp <= key.exp)
    requires forall k :: j <= k < |s| ==> s[k].exp > key.exp
    ensures Insert(s, key) == s[..j] + [key] + s[j..]
    decreases |s| - j
  {
    if |s| > j {
      var init, last := s[..|s| - 1], s[|s| - 1];
      InsertLandsAt(init, j, key);
      assert init[..j] == s[..j];
      assert init[j..] + [last] == s[j..];
    } else {
      assert s[..j] == s;
    }
  }

  /** The in-place insertion sort standing for `qsort` with `MonoCmp`. */
  method SortMonos(a: array<Mono>)
    modifies a
    ensures a[..] == SortByExp(old(a[..]))
  {
    ghost var orig := a[..];
    var i := 0;
    while i < a.Length
      invariant 0 <= i <= a.Length
      invariant a[..i] == SortByExp(orig[..i])
      invariant a[i..] == orig[i..]
    {
      assert a[i] == orig[i];
      InsertIntoPrefix(a, i);
      assert orig[..i + 1][..i] == orig[..i];
      i := i + 1;
    }
    assert a[..] == a[..a.Length];
    assert orig == orig[..a.Length];
  }

  /** One pass of the sort: shifts the larger exponents of `a[..i]` up one place and drops `a[i]` in the gap. */
  method InsertIntoPrefix(a: array<Mono>, i: nat)
    requires i < a.Length
    modifies a
    ensures a[..i + 1] == Insert(old(a[..i]), old(a[i]))
    ensures a[i + 1..] == old(a[i + 1..])
  {
    var key := a[i];
    ghost var sorted := a[..i];
    var j := i;
    while j > 0 && a[j - 1].exp > key.exp
      invariant 0 <= j <= i
      invariant forall k :: 0 <= k < j ==> a[k] == sorted[k]
      invariant forall k :: j < k <= i ==> a[k] == sorted[k - 1]
      invariant forall k :: i < k < a.Length ==> a[k] == old(a[k])
      invariant forall k :: j <= k < i ==> sorted[k].exp > key.exp
    {
      a[j] := a[j - 1];
      j := j - 1;
    }
    a[j] := key;
    InsertLandsAt(sorted, j, key);
    assert a[..i + 1] == sorted[..j] + [key] + sorted[j..];
  }

  /** PolyAddMonos: copy, sort by exponent, then append the monomials in order to zero. */
  method PolyAddMonos(monos: array<Mono>) returns (res: Poly)
    ensures res == AddMonos(monos[..])
  {
    var count := monos.Length;
    var monosSorted := new Mono[count];
    var i := 0;
    while i < count
      invariant 0 <= i <= count
      invariant monosSorted[..i] == monos[..i]
    {
      monosSorted[i] := monos[i];
      i := i + 1;
    }
    assert monosSorted[..] == monosSorted[..count];
    assert monos[..] == monos[..count];
    SortMonos(monosSorted);
    ghost var d := Depth(Terms(monos[..]));
    ghost var sorted := monosSorted[..];
    CoeffsShallower(Terms(monos[..]));
    SortByExpMembers(monos[..]);
    assert CoeffsBelow(sorted, d);
    res := Zero();
    i := 0;
    assert sorted[0..] == sorted;
    while i < count
      invariant 0 <= i <= count
      invariant TopWellFormed(res) && Depth(res) <= d
      invariant AppendAll(res, sorted[i..], d) == AddMonos(monos[..])
    {
      assert sorted[i] in sorted;
      assert sorted[i..][1..] == sorted[i + 1..];
      res := AppendMono(res, monosSorted[i], d);
      i := i + 1;
    }
  }

  /** PolyAddMonosFromMonoList: the list copied into an array and summed. */
  method PolyAddMonosFromMonoList(ml: seq<Mono>) returns (res: Poly)
    ensures res == AddMonos(ml)
  {
    var monos := new Mono[|ml|];
    var index := 0;
    while index < |ml|
      invariant 0 <= index <= |ml|
      invariant monos[..index] == ml[..index]
    {
      monos[index] := ml[index];
      index := index + 1;
    }
    assert monos[..] == monos[..|ml|];
    assert ml == ml[..|ml|];
    res := PolyAddMonos(monos);
  }

  // ---------------------------------------------------------------------
  // Sum
  // ---------------------------------------------------------------------

  /** MonoListAppendCopiedMonosFromPoly: appends the monomials of `p` (none for zero, `c * x^0` for a scalar). */
  method AppendCopiedMonos(ml: seq<Mono>, p: Poly) returns (r: seq<Mono>)
    ensures r == ml + MonosOf(p)
  {
    r := ml;
    if IsCoeff(p) {
      if !IsZero(p) {
        var m := MonoFromPoly(p, 0);
        r := r + [m];
      }
    } else {
      var i := 0;
      while i < |p.ms|
        invariant 0 <= i <= |p.ms|
        invariant r == ml + p.ms[..i]
      {
        r := r + [p.ms[i]];
        assert p.ms[..i + 1] == p.ms[..i] + [p.ms[i]];
        i := i + 1;
      }
      assert p.ms[..|p.ms|] == p.ms;
    }
  }

  /** PolyAdd: the scalar sum, or the sum of both monomial lists brought to canonical form. */
  method PolyAdd(p: Poly, q: Poly) returns (r: Poly)
    ensures r == Add(p, q)
  {
    if IsCoeff(p) && IsCoeff(q) {
      return FromCoeff(p.c + q.c);
    }
    var ml := AppendCopiedMonos([], p);
    ml := AppendCopiedMonos(ml, q);
    assert ml == MonosOf(p) + MonosOf(q);
    r := PolyAddMonosFromMonoList(ml);
  }

  // ---------------------------------------------------------------------
  // Product
  // ---------------------------------------------------------------------

  /** MonoMul: exponents add, coefficients multiply. */
  method MonoMul(a: Mono, b: Mono, ghost d: nat) returns (r: Mono)
    requires Depth(a.p) < d && Depth(b.p) < d
    ensures r == PolyProduct.MonoMul(a, b, d)
    decreases d, 1, 0
  {
    var p := PolyMul(a.p, b.p);
    r := MonoFromPoly(p, a.exp + b.exp);
  }

  /** PolyMul: zero and scalar cases first, then every pair of monomials, zero products dropped. */
  method PolyMul(p: Poly, q: Poly) returns (r: Poly)
    ensures r == PolyProduct.Mul(p, q)
    decreases Max(Depth(p), Depth(q)), PolyProduct.MulRank(p, q), 0
  {
    if IsZero(p) || IsZero(q) {
      return Zero();
    }
    if IsCoeff(p) && IsCoeff(q) {
      return FromCoeff(p.c * q.c);
    }
    if IsCoeff(q) {
      r := PolyMul(q, p);
      return;
    }
    if IsCoeff(p) {
      var pCopy := TransformIfCoeff(p);
      PolyProduct.ScalarTermDepth(p.c);
      r := PolyMul(pCopy, q);
      return;
    }
    ghost var d := Max(Depth(p), Depth(q));
    CoeffsShallower(p);
    CoeffsShallower(q);
    var res: seq<Mono> := [];
    var i := 0;
    while i < |p.ms|
      invariant 0 <= i <= |p.ms|
      invariant res == PolyProduct.Products(p.ms[..i], q.ms, d)
    {
      assert p.ms[i] in p.ms;
      var row := MulRow(p.ms[i], q.ms, d);
      res := res + row;
      assert p.ms[..i + 1][..i] == p.ms[..i];
      i := i + 1;
    }
    assert p.ms[..|p.ms|] == p.ms;
    r := PolyAddMonosFromMonoList(res);
  }

  /** The inner loop of PolyMul: `a` times each monomial of `qs` in turn, zero products dropped. */
  method MulRow(a: Mono, qs: seq<Mono>, ghost d: nat) returns (row: seq<Mono>)
    requires Depth(a.p) < d && CoeffsBelow(qs, d)
    ensures row == PolyProduct.Row(a, qs, d)
    decreases d, 1, 1
  {
    row := [];
    var j := 0;
    while j < |qs|
      invariant 0 <= j <= |qs|
      invariant row == PolyProduct.Row(a, qs[..j], d)
    {
      assert qs[j] in qs;
      var mulMono := MonoMul(a, qs[j], d);
      if !IsZero(mulMono.p) {
        row := row + [mulMono];
      }
      assert qs[..j + 1][..j] == qs[..j];
      j := j + 1;
    }
    assert qs[..|qs|] == qs;
  }

  /** PolySub: `p` plus the opposite of `q`. */
  method PolySub(p: Poly, q: Poly) returns (r: Poly)
    ensures r == Sub(p, q)
  {
    var negQ := Neg(q);
    r := PolyAdd(p, negQ);
  }

  // ---------------------------------------------------------------------
  // Substitution into the main variable
  // ---------------------------------------------------------------------

  /** PolyAt: every coefficient times `x^exp`, the monomials of the products collected and summed. */
  method PolyAt(p: Poly, x: int) returns (r: Poly)
    ensures r == At(p, x)
  {
    if IsCoeff(p) {
      r := PolyClone(p);
      return;
    }
    var ml: seq<Mono> := [];
    var i := 0;
    while i < |p.ms|
      invariant 0 <= i <= |p.ms|
      invariant ml == AtTerms(p, i, x)
    {
      var coeff := FromCoeff(PolyProduct.PowI(x, p.ms[i].exp));
      var mul := PolyMul(p.ms[i].p, coeff);
      if IsCoeff(mul) {
        if !IsZero(mul) {
          var nm := MonoFromPoly(mul, 0);
          ml := ml + [nm];
        }
      } else {
        ml := AppendCopiedMonos(ml, mul);
      }
      i := i + 1;
    }
    r := PolyAddMonosFromMonoList(ml);
  }

  // ---------------------------------------------------------------------
  // Clone and equality
  // ---------------------------------------------------------------------

  /** PolyClone: a deep copy, equal to the original. */
  method PolyClone(p: Poly) returns (r: Poly)
    ensures r == p
    decreases p
  {
    if IsCoeff(p) {
      return FromCoeff(p.c);
    }
    var ms: seq<Mono> := [];
    var i := 0;
    while i < |p.ms|
      invariant 0 <= i <= |p.ms|
      invariant ms == p.ms[..i]
    {
      var mClone := MonoClone(p.ms[i]);
      ms := ms + [mClone];
      assert p.ms[..i + 1] == p.ms[..i] + [p.ms[i]];
      i := i + 1;
    }
    assert p.ms[..|p.ms|] == p.ms;
    r := Terms(ms);
  }

  /** MonoClone: the same exponent over a deep copy of the coefficient. */
  method MonoClone(m: Mono) returns (r: Mono)
    ensures r == m
    decreases m
  {
    var pClone := PolyClone(m.p);
    r := MonoFromPoly(pClone, m.exp);
  }

  /**
   * PolyIsEq: scalars compare by value; otherwise the two term lists are
   * walked together and must agree in exponents, coefficients and length.
   */
  method PolyIsEq(p: Poly, q: Poly) returns (b: bool)
    requires WellFormed(p) && WellFormed(q)
    ensures b <==> p == q
    decreases p
  {
    if IsCoeff(p) && IsCoeff(q) {
      return p.c == q.c;
    }
    var ps, qs := TermList(p), TermList(q);
    var i := 0;
    while i < |ps| && i < |qs|
      invariant 0 <= i <= |ps| && 0 <= i <= |qs|
      invariant ps[..i] == qs[..i]
    {
      assert ps[i] in ps;
      assert ps[i] in p.ms;
      assert qs[i] in q.ms;
      var same := PolyIsEq(ps[i].p, qs[i].p);
      if !same || ps[i].exp != qs[i].exp {
        assert ps[i] != qs[i];
        return false;
      }
      assert ps[..i + 1] == ps[..i] + [ps[i]];
      assert qs[..i + 1] == qs[..i] + [qs[i]];
      i := i + 1;
    }
    if i < |ps| || i < |qs| {
      assert |ps| != |qs|;
      return false;
    }
    assert ps == ps[..i] && qs == qs[..i];
    return true;
  }
}
