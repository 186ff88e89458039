/**
 * Decimal digit strings: the most-significant-first digits of a natural
 * number without leading zeros (empty for 0), their value, and the
 * `%ld`/`%d` rendering of an integer.
 */
module Decimal {
  predicate IsDigit(c: char) {
    '0' <= c <= '9'
  }

  predicate AllDigits(s: string) {
    forall i :: 0 <= i < |s| ==> IsDigit(s[i])
  }

  function DigitValue(c: char): (d: nat)
    requires IsDigit(c)
    ensures d < 10
  {
    c as int - '0' as int
  }

  function DigitChar(d: nat): (c: char)
    requires d < 10
    ensures IsDigit(c) && DigitValue(c) == d
  {
    ('0' as int + d) as char
  }

  /** The decimal digits of `n`, most significant first, without leading zeros; empty for 0. */
  function Digits(n: nat): (s: string)
    ensures AllDigits(s)
    ensures s == [] <==> n == 0
    decreases n
  {
    if n == 0 then [] else Digits(n / 10) + [DigitChar(n % 10)]
  }

  /** The number a digit string denotes. */
  function Value(s: string): nat
    requires AllDigits(s)
    decreases |s|
  {
    if s == [] then 0 else Value(s[..|s| - 1]) * 10 + DigitValue(s[|s| - 1])
  }

  /** `%d` of a natural number: "0" for zero, its digits otherwise. */
  function NatToString(n: nat): string {
    if n == 0 then "0" else Digits(n)
  }

  /** `%ld` of an integer: a minus sign before the digits of the magnitude. */
  function IntToString(i: int): string {
    if i < 0 then "-" + NatToString(-i) else NatToString(i)
  }

  lemma {:induction false} ValueOfDigits(n: nat)
    ensures Value(Digits(n)) == n
    decreases n
  {
    if n > 0 {
      var s := Digits(n);
      assert s[..|s| - 1] == Digits(n / 10);
      ValueOfDigits(n / 10);
    }
  }

  /** The digits of a positive number never start with '0'. */
  lemma {:induction false} DigitsNoLeadingZero(n: nat)
    requires n > 0
    ensures Digits(n)[0] != '0'
    decreases n
  {
    if n / 10 > 0 {
      DigitsNoLeadingZero(n / 10);
    }
  }

  lemma {:induction false} ValuePositive(s: string)
    requires AllDigits(s) && s != [] && s[0] != '0'
    ensures Value(s) > 0
    decreases |s|
  {
    if |s| > 1 {
      ValuePositive(s[..|s| - 1]);
    }
  }

  /** A digit string without a leading zero is the digit string of its value. */
  lemma {:induction false} DigitsOfValue(s: string)
    requires AllDigits(s) && (s == [] || s[0] != '0')
    ensures Digits(Value(s)) == s
    decreases |s|
  {
    if s != [] {
      var init := s[..|s| - 1];
      ValuePositive(s);
      DigitsOfValue(init);
      assert s == init + [s[|s| - 1]];
    }
  }

  /** The rendering of an integer is a non-empty digit string, after a '-' exactly for negatives. */
  lemma IntToStringShape(i: int)
    ensures var s := IntToString(i);
      s != [] && (s[0] == '-' <==> i < 0) &&
      (i < 0 ==> |s| > 1 && AllDigits(s[1..])) && (i >= 0 ==> AllDigits(s))
  {
    if i < 0 {
      assert IntToString(i)[1..] == NatToString(-i);
    }
  }

  function Pow10(k: nat): (r: nat)
    ensures r >= 1
  {
    if k == 0 then 1 else 10 * Pow10(k - 1)
  }

  lemma {:induction false} Pow10Monotone(i: nat, j: nat)
    requires i <= j
    ensures Pow10(i) <= Pow10(j)
    decreases j
  {
    if i < j {
      Pow10Monotone(i, j - 1);
    }
  }

  lemma {:induction false} Pow10Add(i: nat, j: nat)
    ensures Pow10(i + j) == Pow10(i) * Pow10(j)
    decreases j
  {
    if j > 0 {
      Pow10Add(i, j - 1);
    }
  }

  /** A digit string of length `k` denotes less than 10^k. */
  lemma {:induction false} ValueBelow(s: string)
    requires AllDigits(s)
    ensures Value(s) < Pow10(|s|)
    decreases |s|
  {
    if s != [] {
      ValueBelow(s[..|s| - 1]);
    }
  }

  /** A digit string of length `k` that does not start with '0' denotes at least 10^(k-1). */
  lemma {:induction false} ValueAtLeast(s: string)
    requires AllDigits(s) && s != [] && s[0] != '0'
    ensures Value(s) >= Pow10(|s| - 1)
    decreases |s|
  {
    if |s| > 1 {
      ValueAtLeast(s[..|s| - 1]);
    }
  }

  /** The leading digit of a string weighs 10^(number of digits after it). */
  lemma {:induction false} ValueCons(c: char, t: string)
    requires IsDigit(c) && AllDigits(t)
    ensures AllDigits([c] + t) && Value([c] + t) == DigitValue(c) * Pow10(|t|) + Value(t)
    decreases |t|
  {
    var s := [c] + t;
    if t != [] {
      var init := t[..|t| - 1];
      assert s[..|s| - 1] == [c] + init;
      ValueCons(c, init);
      calc {
        Value(s);
        Value([c] + init) * 10 + DigitValue(t[|t| - 1]);
        (DigitValue(c) * Pow10(|init|) + Value(init)) * 10 + DigitValue(t[|t| - 1]);
        { MulTen(DigitValue(c), Pow10(|init|), Value(init)); }
        DigitValue(c) * Pow10(|t|) + Value(t);
      }
    }
  }

  lemma MulTen(a: int, p: int, v: int)
    ensures (a * p + v) * 10 == a * (10 * p) + v * 10
  {
  }

  /** A natural number below 10^k has at most `k` digits. */
  lemma {:induction false} DigitsLength(n: nat, k: nat)
    requires n < Pow10(k)
    ensures |Digits(n)| <= k
    decreases k
  {
    if n > 0 {
      assert k > 0;
      DigitsLength(n / 10, k - 1);
    }
  }

  /** Adding 1 to a number whose last digit is not 9 raises only its last digit. */
  lemma IncrementLastDigit(n: nat)
    requires n > 0 && n % 10 < 9
    ensures var s := Digits(n);
      Digits(n + 1) == s[..|s| - 1] + [(s[|s| - 1] as int + 1) as char]
  {
    var s := Digits(n);
    assert (n + 1) / 10 == n / 10 && (n + 1) % 10 == n % 10 + 1;
    assert s[..|s| - 1] == Digits(n / 10);
  }
}
