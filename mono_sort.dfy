/**
 * Ordering monomials by exponent. The calculator sorts the monomial array
 * with the C library's `qsort` and the comparison `MonoCmp`; the model fixes
 * one order with that property: a stable insertion sort by exponent.
 */
module MonoSort {
  import opened PolyBase

  /** Places `m` after every element of `s` whose exponent is at most `m.exp`. */
  function Insert(s: seq<Mono>, m: Mono): seq<Mono>
    decreases |s|
  {
    if s == [] then [m]
    else if s[|s| - 1].exp <= m.exp then s + [m]
    else Insert(s[..|s| - 1], m) + [s[|s| - 1]]
  }

  /** `ms` sorted by ascending exponent. */
  function SortByExp(ms: seq<Mono>): seq<Mono>
    decreases |ms|
  {
    if ms == [] then [] else Insert(SortByExp(ms[..|ms| - 1]), ms[|ms| - 1])
  }

  lemma {:induction false} InsertPermutes(s: seq<Mono>, m: Mono)
    ensures multiset(Insert(s, m)) == multiset(s) + multiset{m}
    decreases |s|
  {
    if s != [] && s[|s| - 1].exp > m.exp {
      var init, last := s[..|s| - 1], s[|s| - 1];
      assert s == init + [last];
      InsertPermutes(init, m);
    }
  }

  lemma {:induction false} InsertKeepsSorted(s: seq<Mono>, m: Mono)
    requires Sorted(s)
    ensures Sorted(Insert(s, m))
    decreases |s|
  {
    if s != [] && s[|s| - 1].exp > m.exp {
      var init, last := s[..|s| - 1], s[|s| - 1];
      InsertKeepsSorted(init, m);
      InsertPermutes(init, m);
      var r := Insert(init, m);
      forall i | 0 <= i < |r| ensures r[i].exp <= last.exp {
        assert r[i] in multiset(r);
        if r[i] != m {
          assert r[i] in init;
        }
      }
    }
  }

  /** The sort returns a sorted permutation of its input. */
  lemma {:induction false} SortByExpSorts(ms: seq<Mono>)
    ensures Sorted(SortByExp(ms))
    ensures multiset(SortByExp(ms)) == multiset(ms)
    decreases |ms|
  {
    if ms != [] {
      var init, last := ms[..|ms| - 1], ms[|ms| - 1];
      assert ms == init + [last];
      SortByExpSorts(init);
      InsertKeepsSorted(SortByExp(init), last);
      InsertPermutes(SortByExp(init), last);
    }
  }

  /** Every monomial of the sorted list comes from the input and vice versa. */
  lemma SortByExpMembers(ms: seq<Mono>)
    ensures forall m :: m in SortByExp(ms) <==> m in ms
  {
    SortByExpSorts(ms);
    forall m ensures m in SortByExp(ms) <==> m in ms {
      assert m in SortByExp(ms) <==> m in multiset(SortByExp(ms));
      assert m in ms <==> m in multiset(ms);
    }
  }

  lemma {:induction false} InsertEval(s: seq<Mono>, m: Mono, xs: seq<int>)
    ensures EvalMonos(Insert(s, m), xs) == EvalMonos(s, xs) + EvalMono(m, xs)
    decreases |s|
  {
    if s == [] {
      EvalMonosAppend(s, m, xs);
      assert s + [m] == [m];
    } else if s[|s| - 1].exp <= m.exp {
      EvalMonosAppend(s, m, xs);
    } else {
      var init, last := s[..|s| - 1], s[|s| - 1];
      assert s == init + [last];
      InsertEval(init, m, xs);
      EvalMonosAppend(Insert(init, m), last, xs);
      EvalMonosAppend(init, last, xs);
    }
  }

  /** Sorting a monomial list does not change its value. */
  lemma {:induction false} SortByExpEval(ms: seq<Mono>, xs: seq<int>)
    ensures EvalMonos(SortByExp(ms), xs) == EvalMonos(ms, xs)
    decreases |ms|
  {
    if ms != [] {
      var init, last := ms[..|ms| - 1], ms[|ms| - 1];
      assert ms == init + [last];
      SortByExpEval(init, xs);
      InsertEval(SortByExp(init), last, xs);
      EvalMonosAppend(init, last, xs);
    }
  }

  /** An already sorted list is left as it is. */
  lemma {:induction false} SortByExpOfSorted(ms: seq<Mono>)
    requires Sorted(ms)
    ensures SortByExp(ms) == ms
    decreases |ms|
  {
    if ms != [] {
      var init, last := ms[..|ms| - 1], ms[|ms| - 1];
      assert ms == init + [last];
      SortByExpOfSorted(init);
    }
  }
}
