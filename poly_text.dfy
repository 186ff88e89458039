/**
 * The printed form of a polynomial: a scalar as its decimal value, a
 * monomial as `(coefficient,exponent)`, and a list of monomials joined by
 * `+` in list order. A reference parser for the same text shows that the
 * rendering loses nothing.
 */
module PolyText {
  import opened PolyBase
  import opened Decimal

  /** PrintPoly as a string. */
  function PolyToString(p: Poly): string
    decreases p, 1, 0
  {
    if IsCoeff(p) then IntToString(p.c)
    else if p.ms == [] then ""
    else MonosFrom(p, 0)
  }

  /** The monomials of `p` from index `k` on, separated by `+`. */
  function MonosFrom(p: Poly, k: nat): string
    requires p.Terms? && k < |p.ms|
    decreases p, 0, |p.ms| - k
  {
    MonoToString(p.ms[k]) + (if k + 1 < |p.ms| then "+" + MonosFrom(p, k + 1) else "")
  }

  /** PrintMono as a string. */
  function MonoToString(m: Mono): string
    decreases m, 2, 0
  {
    "(" + PolyToString(m.p) + "," + NatToString(m.exp) + ")"
  }

  // ---------------------------------------------------------------------
  // A reference parser for the printed form
  // ---------------------------------------------------------------------

  datatype Option<T> = None | Some(value: T)

  /** The number of digits at the front of `s`. */
  function LeadingDigits(s: string): (n: nat)
    ensures n <= |s| && AllDigits(s[..n]) && (n < |s| ==> !IsDigit(s[n]))
  {
    if s != [] && IsDigit(s[0]) then
      var n := 1 + LeadingDigits(s[1..]);
      assert s[..n] == [s[0]] + s[1..][..n - 1];
      n
    else 0
  }

  /** A non-empty run of digits; the value and what follows. */
  function ParseNat(s: string): (r: Option<(nat, string)>)
    ensures r.Some? ==> |r.value.1| < |s|
  {
    var n := LeadingDigits(s);
    if n == 0 then None else Some((Value(s[..n]), s[n..]))
  }

  /** An optional '-' and a non-empty run of digits. */
  function ParseInt(s: string): (r: Option<(int, string)>)
    ensures r.Some? ==> |r.value.1| < |s|
  {
    if s != [] && s[0] == '-' then
      var n := ParseNat(s[1..]);
      if n.None? then None else Some((-(n.value.0 as int), n.value.1))
    else
      var n := ParseNat(s);
      if n.None? then None else Some((n.value.0 as int, n.value.1))
  }

  /** A scalar, or one or more monomials separated by '+'; the polynomial and what follows. */
  function ParsePoly(s: string): (r: Option<(Poly, string)>)
    ensures r.Some? ==> |r.value.1| < |s|
    decreases |s|, 2
  {
    if s != [] && s[0] == '(' then
      var l := ParseMonos(s);
      if l.None? then None else Some((Terms(l.value.0), l.value.1))
    else
      var c := ParseInt(s);
      if c.None? then None else Some((Coeff(c.value.0), c.value.1))
  }

  function ParseMonos(s: string): (r: Option<(seq<Mono>, string)>)
    ensures r.Some? ==> |r.value.1| < |s|
    decreases |s|, 1
  {
    var first := ParseMono(s);
    if first.None? then None
    else
      var rest := first.value.1;
      if rest != [] && rest[0] == '+' then
        var more := ParseMonos(rest[1..]);
        if more.None? then None else Some(([first.value.0] + more.value.0, more.value.1))
      else Some(([first.value.0], rest))
  }

  /** `(`, a polynomial, `,`, an exponent, `)`. */
  function ParseMono(s: string): (r: Option<(Mono, string)>)
    ensures r.Some? ==> |r.value.1| < |s|
    decreases |s|, 0
  {
    if !(s != [] && s[0] == '(') then None
    else
      var coeff := ParsePoly(s[1..]);
      if coeff.None? then None
      else
        var r := coeff.value.1;
        if !(r != [] && r[0] == ',') then None
        else
          var exp := ParseNat(r[1..]);
          if exp.None? then None
          else
            var r2 := exp.value.1;
            if r2 != [] && r2[0] == ')' then Some((Mono(exp.value.0, coeff.value.0), r2[1..]))
            else None
  }

  /** Parses a whole string as one polynomial. */
  function Parse(s: string): Option<Poly> {
    var r := ParsePoly(s);
    if r.Some? && r.value.1 == [] then Some(r.value.0) else None
  }

  // ---------------------------------------------------------------------
  // Round trip
  // ---------------------------------------------------------------------

  /** What may follow a coefficient: the end of the text or the ',' before an exponent. */
  predicate Stops(rest: string) {
    rest == [] || rest[0] == ','
  }

  lemma {:induction false} LeadingDigitsOf(t: string, rest: string)
    requires AllDigits(t) && (rest == [] || !IsDigit(rest[0]))
    ensures LeadingDigits(t + rest) == |t|
    decreases |t|
  {
    if t != [] {
      assert (t + rest)[1..] == t[1..] + rest;
      LeadingDigitsOf(t[1..], rest);
    }
  }

  /** The rendering of a natural number, followed by a non-digit or nothing, parses back to it. */
  lemma ParseNatOf(n: nat, rest: string)
    requires rest == [] || !IsDigit(rest[0])
    ensures ParseNat(NatToString(n) + rest) == Some((n, rest))
  {
    var t := NatToString(n);
    LeadingDigitsOf(t, rest);
    assert (t + rest)[..|t|] == t;
    assert (t + rest)[|t|..] == rest;
    if n == 0 {
      assert Value(t) == Value([]) * 10 + DigitValue('0');
    } else {
      ValueOfDigits(n);
    }
  }

  /** The rendering of an integer, followed by a non-digit or nothing, parses back to it. */
  lemma ParseIntOf(c: int, rest: string)
    requires rest == [] || !IsDigit(rest[0])
    ensures ParseInt(IntToString(c) + rest) == Some((c, rest))
  {
    if c < 0 {
      var t := NatToString(-c);
      assert ("-" + t + rest)[1..] == t + rest;
      ParseNatOf(-c, rest);
    } else {
      var t := NatToString(c);
      ParseNatOf(c, rest);
      assert (t + rest)[0] == t[0] && IsDigit(t[0]);
    }
  }

  /** Parsing the rendering of a well-formed polynomial, followed by a ',' or nothing, gives it back. */
  lemma {:induction false} ParsePolyOf(p: Poly, rest: string)
    requires WellFormed(p) && Stops(rest)
    ensures ParsePoly(PolyToString(p) + rest) == Some((p, rest))
    decreases p, 1, 0, 0
  {
    var t := PolyToString(p);
    if IsCoeff(p) {
      ParseIntOf(p.c, rest);
      IntToStringShape(p.c);
      assert (t + rest)[0] == t[0];
    } else {
      ParseMonosFrom(p, 0, rest);
      assert p.ms[0..] == p.ms;
      assert (t + rest)[0] == t[0] == MonoToString(p.ms[0])[0] == '(';
    }
  }

  lemma {:induction false} ParseMonosFrom(p: Poly, k: nat, rest: string)
    requires WellFormed(p) && p.Terms? && k < |p.ms| && Stops(rest)
    ensures ParseMonos(MonosFrom(p, k) + rest) == Some((p.ms[k..], rest))
    decreases p, 0, |p.ms| - k, 1
  {
    var m := p.ms[k];
    assert m in p.ms;
    if k + 1 < |p.ms| {
      ParseTwoOrMore(p, k, rest);
    } else {
      assert MonosFrom(p, k) == MonoToString(m);
      ParseMonoOf(m, rest);
      assert p.ms[k..] == [m];
    }
  }

  lemma {:induction false} ParseTwoOrMore(p: Poly, k: nat, rest: string)
    requires WellFormed(p) && p.Terms? && k + 1 < |p.ms| && Stops(rest)
    ensures ParseMonos(MonosFrom(p, k) + rest) == Some((p.ms[k..], rest))
    decreases p, 0, |p.ms| - k, 0
  {
    var m := p.ms[k];
    assert m in p.ms;
    var more := MonosFrom(p, k + 1) + rest;
    var s := MonosFrom(p, k) + rest;
    TwoOrMoreText(p, k, rest);
    assert ParseMono(s) == Some((m, "+" + more)) by {
      ParseMonoOf(m, "+" + more);
    }
    assert ParseMonos(more) == Some((p.ms[k + 1..], rest)) by {
      ParseMonosFrom(p, k + 1, rest);
    }
    ParseMonosMore(s, m, more, p.ms[k + 1..], rest);
    ConsSlice(p.ms, k);
  }

  lemma ConsSlice(ms: seq<Mono>, k: nat)
    requires k < |ms|
    ensures [ms[k]] + ms[k + 1..] == ms[k..]
  {
  }

  lemma TwoOrMoreText(p: Poly, k: nat, rest: string)
    requires p.Terms? && k + 1 < |p.ms|
    ensures MonosFrom(p, k) + rest == MonoToString(p.ms[k]) + ("+" + (MonosFrom(p, k + 1) + rest))
  {
  }

  lemma ParseMonosMore(s: string, m: Mono, more: string, ms: seq<Mono>, rest: string)
    requires ParseMono(s) == Some((m, "+" + more)) && ParseMonos(more) == Some((ms, rest))
    ensures ParseMonos(s) == Some(([m] + ms, rest))
  {
    assert ("+" + more)[1..] == more;
  }

  lemma {:induction false} ParseMonoOf(m: Mono, rest: string)
    requires WellFormed(m.p)
    ensures ParseMono(MonoToString(m) + rest) == Some((m, rest))
    decreases m, 2, 0, 0
  {
    var pt, et := PolyToString(m.p), NatToString(m.exp);
    var s := MonoToString(m) + rest;
    var r2 := ")" + rest;
    var r := "," + (et + r2);
    assert s == "(" + (pt + r);
    assert s[1..] == pt + r;
    ParsePolyOf(m.p, r);
    assert r[1..] == et + r2;
    ParseNatOf(m.exp, r2);
  }

  /** The printed form of a well-formed polynomial parses back to it. */
  lemma ParsePrinted(p: Poly)
    requires WellFormed(p)
    ensures Parse(PolyToString(p)) == Some(p)
  {
    ParsePolyOf(p, []);
    assert PolyToString(p) + [] == PolyToString(p);
  }

  /** Hence the rendering is injective on well-formed polynomials. */
  lemma PrintInjective(p: Poly, q: Poly)
    requires WellFormed(p) && WellFormed(q) && PolyToString(p) == PolyToString(q)
    ensures p == q
  {
    ParsePrinted(p);
    ParsePrinted(q);
  }
}
