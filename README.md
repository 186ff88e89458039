# Polynomial stack calculator, modelled in Dafny

The calculator keeps a stack of sparse polynomials in many variables with
integer coefficients. A polynomial is either a scalar or a list of monomials
`p·x_i^e`, where the coefficient `p` is itself a polynomial in the next
variable. Commands read from the input push, combine, query and print the
polynomials on the stack. Three commands take a numeric argument:
`DEG_BY idx`, `AT x` and `COMPOSE k`.

The model follows the C program file by file:

- `poly_base.dfy`: the polynomial value. Its canonical form is
  `PolyBase.Valid`: exponents strictly increasing, no zero coefficients, and a
  list never equal to a lone scalar term. Its meaning is `PolyBase.Eval`, the
  value at a vector of integers, with missing variables read as 0.
- `poly_sum.dfy` and `poly_sum_facts.dfy`: sums. `PolyAppendMono`, which
  merges one monomial into a sorted list, becomes `AppendMono`. Adding a
  sorted array of monomials becomes `AddMonos`. `Add`, `Neg` and `Sub` are
  defined from these. The facts are their values under `Eval`, the
  canonical form they keep, and that they rebuild a canonical polynomial
  exactly.
- `mono_sort.dfy`: the order `MonoCmp` gives to `qsort`, as an insertion
  sort that permutes, sorts and keeps the value.
- `poly_product.dfy` and `poly_product_facts.dfy`: `PolyMul`, `MonoMul`,
  `PowI` and `PolyPow`.
- `poly_subst.dfy`: `PolyAt` and `PolyCompose`.
- `poly_degree.dfy`: `PolyDeg` and `PolyDegBy`.
- `poly_unique.dfy`: canonical form is unique. Two canonical polynomials
  with the same value at every point are equal, so `PolyIsEq`'s structural
  comparison is equality of polynomials. The laws of addition,
  multiplication and powers therefore hold between the canonical
  polynomials themselves.
- `poly_text.dfy`: the text `PrintPoly` writes. A reference parser is proved
  to read it back.
- `poly_loops.dfy`: the list-walking C procedures as methods with loops. An
  array of monomials is sorted in place, then appended one by one. The
  product uses two nested loops. Each method is proved equal to the function
  above that specifies it.
- `poly_stack.dfy`: the stack, as a class whose `items` sequence is bottom
  first.
- `words.dfy`: the character list that holds a command name read from the
  input, matched against the command table by `WordEquals`, and the digits
  of a command's argument.
- `numbers.dfy`: the arbitrary-length decimal number. It covers comparison
  by magnitude, with sign, and against a `long`, and the conversions to and
  from a `long`.
- `decimal.dfy`: decimal digits and their values, shared by the number
  module and the printer.
- `operations.dfy`: the command executors and the operation tables. Each
  command's effect on the stack is a function of the stack contents: `After`,
  `Output`, `AfterArg` and `ArgOutput`. Every executor is proved to
  implement it. The stack-wide invariant "every polynomial is canonical" is
  proved to survive every command.

Where the documentation comments and the code disagree, the model follows
the code:

- `PolyCompose` (`src/poly.c:643-693`). The header says that when `k` is
  smaller than the number of variables, the variables from `x_k` on are
  replaced by 0. The code instead drops the whole monomial once the
  substitution level reaches `k`, and a constant term nested below that
  level goes with it. `PolySubst.ComposeDropsDeeperConstant` exhibits
  `(5 + x_1)` composed with `[7]` as `0`, although setting `x_1` to 0 gives 5.
  `PolySubst.ComposeTruncEval` states what the code computes for every
  `k > 0`: `p` evaluated with `x_i` set to the value of the `i`-th
  polynomial, where every monomial list reached at level `k` or deeper is
  worth 0 as a whole (`PolySubst.EvalTrunc`). `PolySubst.ComposeEval` shows
  that this agrees with the header whenever `k` is at least the
  polynomial's depth.
- `CmpNumberLong` (`src/number.c:82-88`). The header says it returns 0 for
  equal values. The code compares digit strings, and `LongToNumber(0)`
  produces no digits, so the number written `0` compares greater than the
  long 0. Likewise `-0` compares less than `0`. `Numbers.ZeroDigitQuirks`
  states both cases. `Numbers.CmpNumberLongValue` gives the exact agreement
  for numbers without a leading zero.

## Model

| member | source | states |
|---|---|---|
| PolyBase.ValidIsWellFormed | src/poly.h:41-72 | every canonical polynomial has a non-empty monomial list at every level, as the linked-list representation guarantees |
| PolySum.TransformIfCoeff | src/poly.c:140-149 | the result is a monomial list; it is non-empty for a well-formed input; a polynomial that already is a list is left unchanged |
| PolySum.TurnToCoeff | src/poly.c:164-170 | a one-term list whose exponent is 0, or whose coefficient is zero, becomes the scalar that is that term's coefficient |
| PolySumFacts.TurnToCoeffEval | src/poly.c:164-170 | turning such a one-term list into a scalar does not change its value |
| PolySumFacts.TransformIfCoeffEval | src/poly.c:140-149 | turning a scalar `c` into the list `[c·x^0]` keeps its value |
| PolySum.AppendMono | src/poly.c:177-232 | appending a monomial keeps the top level well formed and does not deepen the polynomial |
| PolySumFacts.AppendMonoEval | src/poly.c:177-232 | the value after appending `m` is the old value plus the value of `m`: a zero monomial is dropped, a zero polynomial starts over, an equal exponent merges coefficients |
| PolySumFacts.AppendMonoValid | src/poly.c:177-232 | appending a monomial whose exponent is at least the last one keeps the canonical form: merged zeros vanish, and a lone `c·x^0` collapses to the scalar `c` |
| PolySumFacts.AppendMonoRebuilds | src/poly.c:177-232 | appending the next monomial of a canonical list to the polynomial built from its prefix gives the polynomial built from the longer prefix |
| PolySumFacts.AppendAllEval | src/poly.c:266-293 | appending a whole sequence of monomials adds their values |
| PolySumFacts.AppendAllValid | src/poly.c:266-293 | appending a sorted sequence of canonical monomials to a canonical polynomial gives a canonical polynomial |
| PolySumFacts.AppendAllRebuilds | src/poly.c:266-293 | appending the rest of a canonical list to the polynomial built from its prefix rebuilds the polynomial exactly |
| PolySum.AddMonos | src/poly.c:266-293 | the sum of an array of monomials is well formed and no deeper than its terms |
| PolySumFacts.AddMonosEval | src/poly.c:266-293 | the sum of an array of monomials has the value of the sum of their values, in any order |
| PolySumFacts.AddMonosValid | src/poly.c:266-293 | summing monomials with canonical coefficients gives a canonical polynomial |
| PolySumFacts.AddMonosOfValid | src/poly.c:266-293 | summing the monomials of a canonical polynomial gives that polynomial back |
| PolySumFacts.MonosOfEval | src/poly.c:395-418 | the monomials copied out of a polynomial (a scalar becomes `c·x^0`) have the polynomial's value |
| PolySum.Add | src/poly.c:420-432 | the sum is well formed and no deeper than the deeper summand |
| PolySumFacts.AddEval | src/poly.h:192-199 | the value of `p + q` is the value of `p` plus the value of `q` at every point |
| PolySumFacts.AddValid | src/poly.h:192-199 | the sum of canonical polynomials is canonical |
| PolySumFacts.AddZero | src/poly.c:420-432 | adding zero on either side returns a canonical polynomial unchanged |
| PolySum.Neg | src/poly.c:496-519 | negation keeps the shape: a scalar stays a scalar, a list keeps its length and every exponent |
| PolySumFacts.NegEval | src/poly.h:233-238 | the value of `-p` is minus the value of `p` |
| PolySumFacts.NegValid | src/poly.c:496-519 | negating a canonical polynomial gives a canonical polynomial |
| PolySumFacts.NegInvolutive | src/poly.c:496-519 | negating twice gives the polynomial back |
| PolySumFacts.SubEval | src/poly.h:240-246 | the value of `p - q` is the value of `p` minus the value of `q` |
| PolySumFacts.SubValid | src/poly.c:295-301 | the difference of canonical polynomials is canonical |
| MonoSort.SortByExpSorts | src/poly.c:129-134 | sorting by `MonoCmp` gives a sequence ordered by exponent that is a permutation of the input |
| MonoSort.SortByExpMembers | src/poly.c:278 | the sorted sequence has exactly the input's monomials |
| MonoSort.SortByExpEval | src/poly.c:278 | sorting the monomials does not change their summed value |
| MonoSort.SortByExpOfSorted | src/poly.c:278 | an already sorted sequence is left as it is |
| PolyProduct.Mul | src/poly.c:445-490 | the product is well formed at the top level |
| PolyProductFacts.MulEval | src/poly.h:210-216 | the value of `p * q` is the product of the values |
| PolyProductFacts.MonoMulEval | src/poly.c:439-443 | multiplying monomials adds exponents and multiplies coefficients, so values multiply |
| PolyProductFacts.RowEval | src/poly.c:475-485 | one row of the nested loop, monomial `a` times every monomial of `q`, has value `a·q` |
| PolyProductFacts.ProductsEval | src/poly.c:470-488 | all pairwise products of the two lists together have the value of the product |
| PolyProductFacts.MulValid | src/poly.c:445-490 | the product of canonical polynomials is canonical |
| PolyProductFacts.OneTimes | src/poly.c:445-490 | multiplying a canonical polynomial by the scalar 1 on the left gives it back |
| PolyProductFacts.MulOne | src/poly.c:445-490 | 1 is a neutral element on both sides for canonical polynomials |
| PolyProductFacts.PowIIsPower | src/poly.c:527-537 | integer power by repeated squaring equals `x^e` |
| PolyProductFacts.PowEval | src/poly.c:623-639 | the value of `p^e` is the value of `p` raised to `e` |
| PolyProductFacts.PowValid | src/poly.c:623-639 | a power of a canonical polynomial is canonical |
| PolyProductFacts.PowOne | src/poly.c:623-639 | `p^1` is `p` for canonical `p` |
| PolySubst.AtEval | src/poly.h:276-287 | substituting `x` for the main variable gives the polynomial whose value at `xs` is that of `p` at `[x] + xs` |
| PolySubst.AtValid | src/poly.c:539-576 | substituting into a canonical polynomial gives a canonical polynomial |
| PolySubst.ComposeEval | src/poly.h:302-312 | when `k > 0` and `p` has at most `k` variables, composing gives the polynomial whose value is `p` evaluated at the values of `x_0 … x_{k-1}` |
| PolySubst.ComposeTruncEval | src/poly.c:643-693 | for every `k > 0` and every `p`, composing gives the polynomial whose value is `p` evaluated at the values of `x_0 … x_{k-1}` with every monomial list at level `k` or deeper counted as 0 |
| PolySubst.ComposeValid | src/poly.c:643-693 | composing canonical polynomials gives a canonical polynomial |
| PolySubst.ComposeDropsDeeperConstant | src/poly.c:661-683 | a term nested below level `k` is dropped with its constant: `(5 + x_1)` composed with `[7]` is 0 |
| PolySubst.X0IsTheVariable | src/unit_tests_poly.c:269-357 | the polynomial `x_0` used by the unit tests is canonical and is the single term `1·x^1` |
| PolySubst.ComposeUnitCases | src/unit_tests_poly.c:269-357 | the seven compose cases of the unit tests: zero, a constant and `x_0`, each composed with no polynomial, with the constant 1337 or 1, and with `x_0` |
| PolyDegree.DegNonNegative | src/poly.h:261-266 | the degree of a canonical polynomial is at least -1, and is -1 exactly for the zero polynomial |
| PolyDegree.DegByNonNegative | src/poly.h:248-259 | the degree with respect to any variable is at least -1, and is -1 exactly for zero |
| PolyDegree.DegByMainIsLargestExp | src/poly.c:336-361 | the degree with respect to the main variable bounds every exponent of the top list |
| PolyDegree.DegByAtMostDeg | src/poly.c:336-361 | the degree with respect to one variable never exceeds the total degree |
| PolyDegree.DegNeg | src/poly.c:314-334 | negation does not change the total degree |
| PolyDegree.PolyDeg | src/poly.c:314-334 | the loop over the monomials computes the total degree: the largest exponent plus coefficient degree, and -1 for zero |
| PolyDegree.PolyDegBy | src/poly.c:336-361 | the loop computes the degree with respect to variable `varIdx`, taken at depth `varIdx` and maximised over the monomials |
| PolyUnique.CanonicalUnique | src/poly.h:268-274 | two canonical polynomials that take the same value at every point are the same polynomial, so the structural comparison of `PolyIsEq` decides `p = q` |
| PolyUnique.DenseVanishes | src/poly.h:268-274 | an integer polynomial of one variable that is zero at every integer has only zero coefficients, the fact canonical uniqueness rests on |
| PolyUnique.AddMonosOrderFree | src/poly.c:266-293 | `PolyAddMonos` gives the same canonical polynomial for every order of its input list |
| PolyUnique.AddComm | src/poly.c:420-432 | `p + q == q + p` for canonical `p` and `q` |
| PolyUnique.AddAssoc | src/poly.c:420-432 | `(p + q) + r == p + (q + r)` for canonical operands |
| PolyUnique.SubSelf | src/poly.c:295-301 | `p - p` is the zero polynomial for canonical `p` |
| PolyUnique.MulComm | src/poly.c:445-490 | `p · q == q · p` for canonical `p` and `q` |
| PolyUnique.MulAssoc | src/poly.c:445-490 | `(p · q) · r == p · (q · r)` for canonical operands |
| PolyUnique.MulAddDistrib | src/poly.c:445-490 | `p · (q + r) == p · q + p · r` for canonical operands |
| PolyUnique.PowAdd | src/poly.c:623-639 | `p^(e1 + e2) == p^e1 · p^e2` for canonical `p` |
| PolyText.ParseIntOf | src/poly.c:587-607 | a printed coefficient is read back as the same integer, sign included |
| PolyText.ParseMonoOf | src/poly.c:609-614 | a printed monomial `(p,e)` is read back as the same monomial |
| PolyText.ParsePrinted | src/poly.c:587-614 | the text printed for a well-formed polynomial is read back as that polynomial |
| PolyText.PrintInjective | src/poly.c:587-614 | two well-formed polynomials that print the same are equal |
| PolyLoops.SortMonos | src/poly.c:278 | the in-place sort leaves the array equal to the exponent-sorted permutation of its old contents |
| PolyLoops.PolyAddMonos | src/poly.c:266-293 | copying, sorting and appending the monomials one by one computes their sum |
| PolyLoops.PolyAddMonosFromMonoList | src/poly.c:234-264 | a monomial list copied into an array and summed gives the sum of its monomials |
| PolyLoops.AppendCopiedMonos | src/poly.c:395-418 | the copied monomials of `p` come after those already in the list, in order |
| PolyLoops.PolyAdd | src/poly.c:420-432 | the sum computed through the joined monomial list equals `Add` |
| PolyLoops.MonoMul | src/poly.c:439-443 | the monomial product has the summed exponent and the product of the coefficients |
| PolyLoops.PolyMul | src/poly.c:445-490 | the nested loops over both monomial lists compute `Mul` |
| PolyLoops.MulRow | src/poly.c:475-485 | the inner loop multiplies `a` by each monomial of the list in order and keeps the non-zero products, which is one row of the product |
| PolyLoops.PolySub | src/poly.c:295-301 | adding the negated second polynomial computes `Sub` |
| PolyLoops.PolyAt | src/poly.c:539-576 | the loop over the monomials, scaling each coefficient by `x^e`, computes `At` |
| PolyLoops.PolyClone | src/poly.c:102-121 | a clone is equal to the original |
| PolyLoops.MonoClone | src/poly.c:578-586 | a cloned monomial is equal to the original |
| PolyLoops.PolyIsEq | src/poly.c:363-386 | the walk over both lists answers true exactly when the polynomials are equal |
| PolyStacks.PolyStack.constructor | src/polystack.c:5-10 | a new stack is empty |
| PolyStacks.PolyStack.HasEnoughElements | src/polystack.c:11-31 | true exactly when at most zero elements are asked for or the stack holds at least that many |
| PolyStacks.PolyStack.Push | src/polystack.c:32-39 | the new polynomial is on top and everything below is unchanged |
| PolyStacks.PolyStack.Pop | src/polystack.c:40-46 | exactly the top is removed |
| PolyStacks.PolyStack.Destroy | src/polystack.c:47-53 | popping until empty leaves the stack empty |
| Words.Word.constructor | src/word.c:26-32 | a new word has no characters |
| Words.Word.Append | src/word.c:9-25 | the character goes after the existing ones |
| Words.Word.Size | src/word.c:33-44 | the count is the number of characters |
| Words.Word.Equals | src/word.c:45-65 | true exactly when the word spells `text` |
| Numbers.Number.constructor | src/number.c:12-18 | a new number has no digits and is not negative |
| Numbers.Number.Append | src/number.h:48-51 | the digit goes after the existing ones |
| Numbers.Number.Size | src/number.h:57-60 | the size is the number of digits |
| Numbers.CmpNumberAbs | src/number.c:23-54 | the comparison of magnitudes: the longer digit string is larger, and equal lengths compare digit by digit |
| Numbers.CmpNumber | src/number.c:56-80 | the comparison of signed numbers: a negative number is below a non-negative one, and two negatives compare by reversed magnitude |
| Numbers.CmpNumberLong | src/number.c:82-88 | the number compares with `l` as it compares with the digits `LongToNumber(l)` produces |
| Numbers.CmpSignedValue | src/number.c:56-80 | for numbers without leading zeros, the comparison is the sign of the difference of their values |
| Numbers.CmpDigitsValue | src/number.c:23-54 | for digit strings without leading zeros, the magnitude comparison is the sign of the difference of their values |
| Numbers.CmpNumberLongValue | src/number.c:82-88 | for a number without leading zeros, comparing with `l` gives the sign of its value minus `l` |
| Numbers.ZeroDigitQuirks | src/number.c:82-88 | the number `0` compares greater than the long 0, and `-0` less than `0`, although all three values are zero |
| Numbers.LongToNumber | src/number.c:90-123 | the digits are the decimal digits of `|l|`, most significant first, with none for 0, and the sign is that of `l`; `LONG_MIN` is handled through `LONG_MIN + 1` |
| Numbers.LongIsCanonical | src/number.c:90-123 | the number produced for a long has no leading zero, and has digits when it is negative |
| Numbers.NumberToLong | src/number.c:125-143 | folding the digits `value * 10 + digit` and applying the sign computes `ToLong` |
| Numbers.DigitFoldIsValue | src/number.c:125-143 | the digit fold computes the decimal value of the digits |
| Numbers.LongRoundTrip | src/number.c:90-143 | converting a long to a number and back gives the long |
| Decimal.ValueOfDigits | src/number.c:109-121 | the decimal digits of `n` have the value `n` |
| Decimal.DigitsOfValue | src/number.c:109-121 | a digit string without a leading zero is the decimal form of its value |
| Decimal.DigitsNoLeadingZero | src/number.c:109-121 | the decimal form of a positive number does not start with `0` |
| Decimal.IntToStringShape | src/poly.c:587-607 | a printed integer is `0`, or its digits without leading zero, preceded by `-` when negative |
| Operations.AfterKeepsBelow | src/operation.c:13-135 | a command touches only the polynomials it consumes; all below stay as they were |
| Operations.AfterArgKeepsBelow | src/operation.c:142-189 | a command with an argument touches only the top polynomial, or the top `k + 1` for `COMPOSE k` |
| Operations.AfterKeepsValid | src/operation.c:13-135 | every command without argument keeps every polynomial on the stack canonical |
| Operations.AfterArgKeepsValid | src/operation.c:142-189 | `DEG_BY`, `AT` and `COMPOSE` keep every polynomial on the stack canonical |
| Operations.SubIsTopMinusNext | src/operation.c:84-87 | `SUB` replaces the top two with the top minus the one below it, by value |
| Operations.Execute2ArgArithmeticOper | src/operation.c:13-21 | the top two polynomials are replaced by `op(top, next)` |
| Operations.IsCoeffExecute | src/operation.c:27-31 | prints 1 when the top is a scalar and 0 otherwise; the stack is unchanged |
| Operations.IsZeroExecute | src/operation.c:37-41 | prints 1 when the top is zero and 0 otherwise |
| Operations.CloneExecute | src/operation.c:46-51 | a copy of the top is pushed |
| Operations.AddExecute | src/operation.c:56-59 | the top two are replaced by their sum |
| Operations.MulExecute | src/operation.c:64-67 | the top two are replaced by their product |
| Operations.NegExecute | src/operation.c:72-78 | the top is replaced by its negation |
| Operations.SubExecute | src/operation.c:84-87 | the top two are replaced by the top minus the next |
| Operations.IsEqExecute | src/operation.c:93-98 | prints 1 exactly when the top two polynomials are equal |
| Operations.DegExecute | src/operation.c:104-108 | prints the total degree of the top |
| Operations.PopExecute | src/operation.c:113-116 | the top is removed |
| Operations.ZeroExecute | src/operation.c:121-125 | the zero polynomial is pushed |
| Operations.PrintExecute | src/operation.c:130-135 | prints the text of the top, followed by a newline |
| Operations.DegByExecute | src/operation.c:142-146 | prints the degree of the top with respect to the variable given by the argument, cast to unsigned |
| Operations.AtExecute | src/operation.c:153-159 | the top is replaced by its value at `x_0 = arg` |
| Operations.ComposeExecute | src/operation.c:166-189 | the top and the `k` polynomials below it are replaced by the top composed with them, with the one directly below the top as `x_0` |
| Operations.RequiredStackSizeOf | src/operation.c:191-197 | a constant rule asks for 1 polynomial; the argument-dependent rule asks for `arg + 1` |
| Operations.InitStandardOperations | src/operation.c:199-269 | both tables are filled with the twelve commands and the three commands with an argument, their stack sizes, error messages and argument ranges; the rest of each array is untouched |
| Operations.TableMatchesExecutors | src/operation.c:199-269 | every table entry asks for exactly as many polynomials as its executor reads |
| Operations.ArgTableMatchesExecutors | src/operation.c:199-269 | for every argument in an entry's range, its required stack size is what its executor reads |
| Operations.NamesDistinct | src/operation.h:18-34 | no two commands share a name |
| Operations.Run | src/operation.h:42-62 | calling a table entry's executor performs the command's effect and output, and keeps every polynomial on the stack canonical |
| Operations.RunWithArg | src/operation.h:42-62 | the same for the commands with an argument |

## Left out

- Reading commands and polynomials from standard input (`src/read.c`), the
  main loop (`src/calc_poly.c`) and error reporting to standard error
  (`src/error.c`) are not part of this model. Printing is modelled as the
  returned text.
- The command table's range check (`src/read.c`) is not modelled. It
  guarantees that an argument lies in its entry's range before the executor
  runs. `Operations.ArgTableMatchesExecutors` assumes this range.
- Memory allocation, `free`, `PolyDestroy`, `WordDestroy`, `NumberDestroy`
  and the upkeep of `first`/`last` pointers are not modelled. Linked lists
  are sequences, so sharing and aliasing between lists are not modelled.
- PolySum.AppendMono: `PolyAppendMono`, `PolyTransformIfCoeff`,
  `PolyTurnToCoeff`, `PolySetInverseCoeffs` and `MonoListAppendMono` update a
  polynomial in place. They are modelled as functions from the old value to
  the new one.
- MonoSort.SortByExpSorts: `qsort` is not stable and the model's insertion
  sort is. `PolyUnique.AddMonosOrderFree` proves that summing a list gives
  the same canonical polynomial for every order of the list, so the
  difference does not show in any result.
- PolySumFacts.AddValid, PolyProductFacts.MulValid, PolySubst.AtValid and
  PolySubst.ComposeValid assume canonical inputs. The calculator only ever
  builds canonical polynomials (`Operations.AfterKeepsValid`).
- PolyLoops.PolyIsEq, PolyDegree.PolyDegBy and Operations.IsEqExecute
  require well-formed polynomials, with no empty monomial list at any level.
  The C representation cannot form an empty list that is not a scalar.
- The integer width of `poly_coeff_t` (`long`) is not modelled:
  coefficients, sums, products and `PowI` are unbounded integers, so
  overflow is not modelled.
- The integer width of `poly_exp_t` (`int`, `src/poly.h:22`) is not
  modelled: exponents are natural numbers. The reader accepts exponents up
  to `INT_MAX` (`src/read.h:24`), and `MonoMul` adds exponents
  (`src/poly.c:442`), `PolyDeg` adds a degree to an exponent
  (`src/poly.c:329`) and `PolyPow` multiplies exponents through repeated
  products, so each can overflow `int` in C where the model keeps the exact
  sum. `MonoCmp` subtracts exponents; that cannot overflow only while
  exponents stay non-negative, which such an overflow breaks.
- Numbers.NumberToLong: a digit string longer than a `long` overflows in C
  and is an unbounded integer here. The caller only converts arguments that
  are already within range.
- Operations.DegByExecute and Operations.ComposeExecute: the conversion of
  the argument to `unsigned` is written out as a remainder modulo 2^32. In
  the argument ranges of the table it changes nothing.
- `WordSize` returns `unsigned`. `Words.Word.Size` returns a natural number
  without wrap-around.
- `PolyText.Parse` is a reference reader for the printed text used to prove
  that printing loses nothing. It is not a model of the input parser in
  `src/read.c`.
