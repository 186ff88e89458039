/**
 * Decimal numbers read from commands: a sign flag and a word of digits,
 * most significant first. They are compared by sign, then by number of
 * digits, then digit by digit, and converted to and from `long`.
 */
module Numbers {
  import opened Decimal
  import opened Words

  const LONG_MIN: int := -9223372036854775808
  const LONG_MAX: int := 9223372036854775807
  /** The size of the digit buffer in LongToNumber. */
  const MAX_LONG_LENGTH: nat := 30

  class Number {
    const repr: Word
    var isNegative: bool

    /** EmptyNumber: no digits, not negative. */
    constructor ()
      ensures fresh(repr) && repr.chars == [] && !isNegative
    {
      repr := new Word();
      isNegative := false;
    }

    /** NumberIsEmpty */
    predicate IsEmpty()
      reads repr
    {
      repr.IsEmpty()
    }

    /** NumberAppend: one more digit at the end. */
    method Append(c: char)
      modifies repr
      ensures repr.chars == old(repr.chars) + [c]
    {
      repr.Append(c);
    }

    /** NumberSize: the number of digits. */
    method Size() returns (n: nat)
      ensures n == |repr.chars|
    {
      n := repr.Size();
    }
  }

  // ---------------------------------------------------------------------
  // Specification
  // ---------------------------------------------------------------------

  function Abs(l: int): nat {
    if l < 0 then -l else l
  }

  function Sign(x: int): int {
    if x > 0 then 1 else if x < 0 then -1 else 0
  }

  /** Digits as a number would hold them: decimal, no leading zero, and a negative one is not empty. */
  predicate Canonical(isNegative: bool, digits: string) {
    AllDigits(digits) && (digits == [] || digits[0] != '0') && (isNegative ==> digits != [])
  }

  /** Comparison of two strings of the same length, first differing character deciding. */
  function LexCmp(a: string, b: string): int
    requires |a| == |b|
  {
    if a == [] then 0
    else if a[0] > b[0] then 1
    else if a[0] < b[0] then -1
    else LexCmp(a[1..], b[1..])
  }

  /** The comparison of magnitudes: more digits is greater, equal lengths compare lexicographically. */
  function CmpDigits(a: string, b: string): int {
    if |a| > |b| then 1
    else if |a| < |b| then -1
    else LexCmp(a, b)
  }

  /** The comparison of signed numbers: a negative one is below any non-negative one. */
  function CmpSigned(neg1: bool, a: string, neg2: bool, b: string): int {
    if neg1 then (if !neg2 then -1 else -CmpDigits(a, b))
    else (if neg2 then 1 else CmpDigits(a, b))
  }

  /** `res * 10 + (c - '0')` over the characters, as NumberToLong accumulates it. */
  function DigitFold(s: string): int
    decreases |s|
  {
    if s == [] then 0 else DigitFold(s[..|s| - 1]) * 10 + (s[|s| - 1] as int - '0' as int)
  }

  /** The value NumberToLong gives a number. */
  function ToLong(isNegative: bool, digits: string): int {
    if isNegative then -DigitFold(digits) else DigitFold(digits)
  }

  // ---------------------------------------------------------------------
  // The operations
  // ---------------------------------------------------------------------

  /**
   * CmpNumberAbs: compares the sizes of the two digit words, and for equal
   * sizes walks both lists until the first differing digit.
   */
  method CmpNumberAbs(n1: Number, n2: Number) returns (r: int)
    ensures r == CmpDigits(n1.repr.chars, n2.repr.chars)
  {
    var size1 := n1.repr.Size();
    var size2 := n2.repr.Size();
    if size1 > size2 {
      return 1;
    } else if size1 < size2 {
      return -1;
    }
    var a, b := n1.repr.chars, n2.repr.chars;
    var iter := 0;
    while iter < |a| && iter < |b|
      invariant 0 <= iter <= |a|
      invariant LexCmp(a, b) == LexCmp(a[iter..], b[iter..])
    {
      if a[iter] > b[iter] {
        return 1;
      } else if a[iter] < b[iter] {
        return -1;
      }
      assert a[iter..][1..] == a[iter + 1..] && b[iter..][1..] == b[iter + 1..];
      iter := iter + 1;
    }
    return 0;
  }

  /** CmpNumber: by sign first, then by magnitude, reversed for two negatives. */
  method CmpNumber(n1: Number, n2: Number) returns (r: int)
    ensures r == CmpSigned(n1.isNegative, n1.repr.chars, n2.isNegative, n2.repr.chars)
  {
    if n1.isNegative {
      if !n2.isNegative {
        return -1;
      } else {
        var abs := CmpNumberAbs(n1, n2);
        return -1 * abs;
      }
    } else {
      if n2.isNegative {
        return 1;
      } else {
        r := CmpNumberAbs(n1, n2);
      }
    }
  }

  /** CmpNumberLong: compares `n` with the number LongToNumber makes of `l`. */
  method CmpNumberLong(n: Number, l: int) returns (r: int)
    requires LONG_MIN <= l <= LONG_MAX
    ensures r == CmpSigned(n.isNegative, n.repr.chars, l < 0, Digits(Abs(l)))
  {
    var n2 := LongToNumber(l);
    r := CmpNumber(n, n2);
  }

  /** The characters of `s` in reverse order. */
  function Reversed(s: string): string {
    if s == [] then [] else [s[|s| - 1]] + Reversed(s[..|s| - 1])
  }

  /**
   * LongToNumber: the sign of `l` and the digits of its magnitude, most
   * significant first and empty for 0. The digits are first collected least
   * significant first in a buffer, then appended in reverse. LONG_MIN, whose
   * magnitude is no `long`, is made from LONG_MIN + 1 by raising its last digit.
   */
  method LongToNumber(l: int) returns (res: Number)
    requires LONG_MIN <= l <= LONG_MAX
    ensures fresh(res) && fresh(res.repr)
    ensures res.isNegative <==> l < 0
    ensures res.repr.chars == Digits(Abs(l))
    decreases if l == LONG_MIN then 1 else 0
  {
    if l == LONG_MIN {
      var tmp := LongToNumber(l + 1);
      assert Abs(l + 1) == LONG_MAX;
      LongMinDigits();
      var last := |tmp.repr.chars| - 1;
      tmp.repr.chars := tmp.repr.chars[..last] + [(tmp.repr.chars[last] as int + 1) as char];
      return tmp;
    }
    res := new Number();
    var v := l;
    if v < 0 {
      res.isNegative := true;
      v := -v;
    }
    assert v == Abs(l);
    ghost var digits := Digits(v);
    LongHasAtMost19Digits(v);

    var tab := new char[MAX_LONG_LENGTH];
    var currIndex := 0;
    while v != 0
      invariant 0 <= v && 0 <= currIndex
      invariant currIndex + |Digits(v)| == |digits|
      invariant digits == Digits(v) + Reversed(tab[..currIndex])
      modifies tab
    {
      tab[currIndex] := DigitChar(v % 10);
      DigitsStep(v, tab[..], currIndex);
      v := v / 10;
      currIndex := currIndex + 1;
    }
    currIndex := currIndex - 1;
    var repr := res.repr;
    while currIndex >= 0
      invariant -1 <= currIndex < |digits|
      invariant repr.chars + Reversed(tab[..currIndex + 1]) == digits
      modifies repr
    {
      AppendStep(repr.chars, tab[..], currIndex, digits);
      repr.Append(tab[currIndex]);
      currIndex := currIndex - 1;
    }
  }

  lemma ReversedStep(t: string, k: nat)
    requires k < |t|
    ensures Reversed(t[..k + 1]) == [t[k]] + Reversed(t[..k])
  {
    assert t[..k + 1][..k] == t[..k];
  }

  /** Appending the last buffered digit keeps the digits of the whole. */
  lemma AppendStep(chars: string, t: string, k: nat, digits: string)
    requires k < |t| && chars + Reversed(t[..k + 1]) == digits
    ensures (chars + [t[k]]) + Reversed(t[..k]) == digits
  {
    ReversedStep(t, k);
  }

  /** Moving the last digit of `v` into the buffer keeps the digits of the whole. */
  lemma DigitsStep(v: nat, t: string, k: nat)
    requires v != 0 && k < |t| && t[k] == DigitChar(v % 10)
    ensures Digits(v) + Reversed(t[..k]) == Digits(v / 10) + Reversed(t[..k + 1])
  {
    ReversedStep(t, k);
  }

  /** The digits of LONG_MIN's magnitude are those of LONG_MAX with the last one raised by one. */
  lemma LongMinDigits()
    ensures var s := Digits(LONG_MAX);
      Digits(Abs(LONG_MIN)) == s[..|s| - 1] + [(s[|s| - 1] as int + 1) as char]
  {
    IncrementLastDigit(LONG_MAX);
  }

  /** The magnitude of a `long` other than LONG_MIN has at most 19 digits. */
  lemma LongHasAtMost19Digits(v: nat)
    requires v <= LONG_MAX
    ensures |Digits(v)| <= 19
  {
    Pow10Add(10, 9);
    assert Pow10(10) == 10000000000;
    assert Pow10(9) == 1000000000;
    DigitsLength(v, 19);
  }

  /** NumberToLong: folds `res * 10 + digit` over the digits, then applies the sign. */
  method NumberToLong(n: Number) returns (res: int)
    ensures res == ToLong(n.isNegative, n.repr.chars)
  {
    var s := n.repr.chars;
    res := 0;
    var iter := 0;
    while iter < |s|
      invariant 0 <= iter <= |s|
      invariant res == DigitFold(s[..iter])
    {
      assert s[..iter + 1][..iter] == s[..iter];
      res := res * 10;
      res := res + (s[iter] as int - '0' as int);
      iter := iter + 1;
    }
    assert s[..iter] == s;
    if n.isNegative {
      res := -res;
    }
  }

  // ---------------------------------------------------------------------
  // Properties
  // ---------------------------------------------------------------------

  /** On digit strings the fold is the value. */
  lemma {:induction false} DigitFoldIsValue(s: string)
    requires AllDigits(s)
    ensures DigitFold(s) == Value(s)
    decreases |s|
  {
    if s != [] {
      DigitFoldIsValue(s[..|s| - 1]);
    }
  }

  /** The number made of a `long` converts back to it. */
  lemma LongRoundTrip(l: int)
    ensures ToLong(l < 0, Digits(Abs(l))) == l
  {
    DigitFoldIsValue(Digits(Abs(l)));
    ValueOfDigits(Abs(l));
  }

  /** The digits LongToNumber produces are canonical. */
  lemma LongIsCanonical(l: int)
    ensures Canonical(l < 0, Digits(Abs(l)))
  {
    if l != 0 {
      DigitsNoLeadingZero(Abs(l));
    }
  }

  /** For equal lengths the first differing digit decides as the values do. */
  lemma {:induction false} LexCmpValue(a: string, b: string)
    requires |a| == |b| && AllDigits(a) && AllDigits(b)
    ensures LexCmp(a, b) == Sign(Value(a) - Value(b))
    decreases |a|
  {
    if a != [] {
      var ta, tb := a[1..], b[1..];
      assert a == [a[0]] + ta && b == [b[0]] + tb;
      ValueCons(a[0], ta);
      ValueCons(b[0], tb);
      var p := Pow10(|ta|);
      var da, db := DigitValue(a[0]), DigitValue(b[0]);
      if a[0] > b[0] {
        ValueBelow(tb);
        LeadingDigitDecides(da, db, p, Value(ta), Value(tb));
      } else if a[0] < b[0] {
        ValueBelow(ta);
        LeadingDigitDecides(db, da, p, Value(tb), Value(ta));
      } else {
        LexCmpValue(ta, tb);
      }
    }
  }

  lemma LeadingDigitDecides(x: nat, y: nat, p: nat, u: nat, v: nat)
    requires x > y && v < p
    ensures x * p + u > y * p + v
  {
    assert x * p >= (y + 1) * p;
  }

  /** On canonical digit strings the magnitude comparison agrees with the order of the values. */
  lemma CmpDigitsValue(a: string, b: string)
    requires Canonical(false, a) && Canonical(false, b)
    ensures CmpDigits(a, b) == Sign(Value(a) - Value(b))
  {
    if |a| > |b| {
      LongerIsGreater(a, b);
    } else if |a| < |b| {
      LongerIsGreater(b, a);
    } else {
      LexCmpValue(a, b);
    }
  }

  lemma LongerIsGreater(a: string, b: string)
    requires Canonical(false, a) && AllDigits(b) && |a| > |b|
    ensures Value(a) > Value(b)
  {
    ValueAtLeast(a);
    ValueBelow(b);
    Pow10Monotone(|b|, |a| - 1);
  }

  /** The value of a number as CmpNumber should see it. */
  function NumberValue(isNegative: bool, digits: string): int
    requires AllDigits(digits)
  {
    if isNegative then -(Value(digits) as int) else Value(digits)
  }

  /** On canonical numbers the signed comparison agrees with the order of the values. */
  lemma CmpSignedValue(neg1: bool, a: string, neg2: bool, b: string)
    requires Canonical(neg1, a) && Canonical(neg2, b)
    ensures CmpSigned(neg1, a, neg2, b) == Sign(NumberValue(neg1, a) - NumberValue(neg2, b))
  {
    CmpDigitsValue(a, b);
    if neg1 {
      ValuePositive(a);
    }
    if neg2 {
      ValuePositive(b);
    }
  }

  /** Hence CmpNumberLong of a canonical number is the sign of the difference of the values. */
  lemma CmpNumberLongValue(neg: bool, digits: string, l: int)
    requires Canonical(neg, digits)
    ensures CmpSigned(neg, digits, l < 0, Digits(Abs(l))) == Sign(NumberValue(neg, digits) - l)
  {
    LongIsCanonical(l);
    CmpSignedValue(neg, digits, l < 0, Digits(Abs(l)));
    ValueOfDigits(Abs(l));
  }

  /**
   * Outside canonical form the comparison follows the digits, not the
   * values: the number "0" is above the `long` 0, whose digit string is
   * empty, and "-0" is below "0".
   */
  lemma ZeroDigitQuirks()
    ensures CmpSigned(false, "0", false, Digits(Abs(0))) == 1
    ensures CmpSigned(true, "0", false, "0") == -1
    ensures NumberValue(false, "0") == 0 && NumberValue(true, "0") == 0
  {
    assert Value("0") == Value([]) * 10 + DigitValue('0');
  }
}
