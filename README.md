# functional_parsers in Dafny

A model of the core of `functional_parsers`, a small backtracking parser-combinator library
that keeps ambiguity: a parser maps an input to the ordered list of **all** its successful
parses, each a `ParseResult` record of the input still unconsumed (`remaining`) and the value
built so far. The empty list means failure.

The model has six modules:

- `Values` (values.dfy): the JavaScript values the library handles (`undefined`, `null`, booleans,
  integers, strings, objects compared by reference, arrays). An input is a sequence of values; a
  text input is the sequence of its one-character strings (`Text`).
- `ArrayEquality` (array_equality.dfy): `equalsArray`, as the loop the source runs (`EqualsArray`)
  and as the predicate it decides (`ArrayEquals`).
- `ParseResults` (parse_result.dfy): the `ParseResult` record as a datatype, with `equals` and
  `toString`.
- `ParserCombinators` (parser_combinators.dfy): a parser is a total function
  `seq<Val> -> seq<ParseResult>`; the primitives `satisfy`, `matchFirst`, `symbol`, `token`,
  `succeed`, `epsilon`, `fail`; the choices `alt` and `strictAlt`; `seq` (also as the nested loop
  the source runs, `RunSeq`), `apply`, `concatSeq`, `sequence`, `plus` and the two projections;
  and the chaining methods that the `Parser` decorator attaches to every parser.
- `Repetition` (repetition.dfy): `zeroOrMoreOf`, the recursive fixpoint.
- `Utilities` (utilities.dfy): `hasCompleteParse`, `accepts`, `containsResult` and
  `getFinalValue` (as the flag loop the source runs, `GetFinalValue`).

`Wrappers` (wrappers.dfy) holds the `Option` and `Result` types. A thrown error becomes
`Failure` with the source's message. A call of `sequence` or `plus` with no parser makes `reduce`
throw; the model returns `None` there.

The comment at Utilities.js:41 says `some` is used to terminate as quickly as possible, that is, at
the first complete result; the code keeps the **last** one. The model follows the code (`FinalValue`,
`GetFinalValue`) and adds the first-result reading as the corrected definition (see Findings).

## Model

| member | source | states |
|---|---|---|
| Values.At | ParserCombinators.js:162-175 | on the two-element arrays the projections and `add` receive, `v[i]` is the element at `i`; on a string it is the one-character string at `i`; out of range it is `undefined` |
| ParserCombinators.Satisfy | ParserCombinators.js:37-44 | at most one result; there is one exactly when the input is non-empty and its first element satisfies the predicate; that result is `(input[1..], input[0])`; every success consumes input |
| ParserCombinators.MatchFirst | ParserCombinators.js:47-52 | a match is decided by the given `equals(value, x)`, or by `===` when no function is given; the result is as for `satisfy` |
| ParserCombinators.Symbol | ParserCombinators.js:55-57 | the full result list: `[(input[1..], s)]` when the first element is `s`, otherwise `[]`, the empty input included |
| ParserCombinators.Token | ParserCombinators.js:60-66 | the full result list: one result when `expected.equals(first element)`, otherwise none |
| ParserCombinators.Succeed | ParserCombinators.js:69-73 | exactly one result on every input, the empty one included, consuming nothing and holding `v` |
| ParserCombinators.EpsilonAndFail | ParserCombinators.js:76-81 | `epsilon` succeeds once with `null` without consuming; `fail` has no result on any input |
| ParserCombinators.Alt | ParserCombinators.js:84-88 | defined as `p1`'s results followed by `p2`'s; laws in AltLaws and AltAlgebra |
| ParserCombinators.StrictAlt | ParserCombinators.js:91-99 | defined as `p1`'s results when there are any, else `p2`'s; laws in StrictAltLaws |
| ParserCombinators.AltLaws | ParserCombinators.js:84-88 | `alt` returns all results of `p1` followed by all of `p2`: count is the sum, the two parts are the two lists in order, duplicates are kept |
| ParserCombinators.AltAlgebra | ParserCombinators.js:84-88 | `fail` is a unit of `alt` on both sides, and `alt` is associative |
| ParserCombinators.StrictAltLaws | ParserCombinators.js:91-99 | `strictAlt` gives `p1`'s results when there are any, else `p2`'s; it equals `alt` exactly when one side fails, and is always a prefix of `alt` |
| ParserCombinators.Pairs | ParserCombinators.js:108-111 | the inner loop: one result per result of `p2`, with its remaining and the pair of the two values |
| ParserCombinators.SeqResults | ParserCombinators.js:106-112 | defined as the outer loop over `p1`'s results, each paired with `p2`'s results after it; laws in SeqCount, SeqAt and SeqMembership |
| ParserCombinators.Seq | ParserCombinators.js:102-116 | defined as SeqResults of `p1`'s results; laws in SeqCount to SeqFailZero, loop in RunSeq |
| ParserCombinators.SeqCount | ParserCombinators.js:102-116 | the number of results of `seq` is the sum over `p1`'s results of the number of `p2`'s results after each |
| ParserCombinators.SeqAt | ParserCombinators.js:102-116 | order outer-over-`p1`, inner-over-`p2`: the `k`-th result of `p2` after the `j`-th of `p1` sits at the offset of the earlier outer results plus `k`, with `p2`'s remaining and the value pair |
| ParserCombinators.SeqMembership | ParserCombinators.js:102-116 | a record is a result of `seq` if and only if it pairs some result of `p1` with some result of `p2` after it |
| ParserCombinators.SeqFails | ParserCombinators.js:102-116 | `seq` fails if and only if `p2` fails after every result of `p1`, in particular when `p1` fails |
| ParserCombinators.SeqResultsAgree | ParserCombinators.js:107-108 | `seq` consults `p2` only on the remainings of `p1`'s results |
| ParserCombinators.SeqValuesArePairs | ParserCombinators.js:110 | every value `seq` builds is a two-element array |
| ParserCombinators.SeqFailZero | ParserCombinators.js:102-116 | `fail` on either side of `seq` gives no result |
| ParserCombinators.RunSeq | ParserCombinators.js:102-116 | the nested `forEach` loops with `push` compute exactly the results specified by `Seq` |
| ParserCombinators.MapValues | ParserCombinators.js:121-125 | the `map` keeps count, order and every remaining and replaces each value by `f(value)` |
| ParserCombinators.Apply | ParserCombinators.js:119-127 | `apply(f, p)` has `p`'s count and remainings, with every value mapped through `f` |
| ParserCombinators.ApplyFunctor | ParserCombinators.js:119-127 | `apply` of the identity changes nothing; two `apply`s are one `apply` of the composition |
| ParserCombinators.Wrap | ParserCombinators.js:135-136 | an array is taken as it is, anything else as a one-element array |
| ParserCombinators.Concat | ParserCombinators.js:131-138 | a non-array value passes through; a pair `[a, b]` becomes the concatenation of `a` and `b`, each taken as an array |
| ParserCombinators.ConcatSeq | ParserCombinators.js:130-141 | defined as `apply(concat, seq(p1, p2))`; laws in ConcatSeqAt and ConcatSeqOnScalars |
| ParserCombinators.ConcatSeqAt | ParserCombinators.js:130-141 | `concatSeq` has `seq`'s count and remainings and replaces each pair by the one-level concatenation of its parts |
| ParserCombinators.ConcatSeqOnScalars | ParserCombinators.js:130-141 | when neither parser produces array values, `concatSeq` is `seq` |
| ParserCombinators.ConcatExamples | ParserCombinators.js:131-138 | `[['b'],'c']` gives `['b','c']`, `['e',['f']]` gives `['e','f']`, two one-element arrays are joined, two strings become a two-element array |
| ParserCombinators.SeqPreservesFailure | ParserCombinators.js:140 | a parser that always fails on either side makes `apply(f, seq(·,·))` always fail |
| ParserCombinators.FoldLeft | ParserCombinators.js:146-148 | defined as the `reduce` without initial value over the parsers after the first; laws in FoldLeftSnoc and FoldLeftFails |
| ParserCombinators.Sequence | ParserCombinators.js:144-149 | no parser gives the error case; one parser gives that parser itself |
| ParserCombinators.SequenceSnoc | ParserCombinators.js:144-149 | the left fold: `sequence(p1..pn, q)` is `concatSeq(sequence(p1..pn), q)` |
| ParserCombinators.SequenceFails | ParserCombinators.js:144-149 | `sequence` always fails when any one of its parsers always fails |
| ParserCombinators.SequenceExample | ParserCombinators.js:144-149 | `sequence(succeed('a'), succeed('b'), succeed('c'))` yields the one value `['a','b','c']` |
| ParserCombinators.Add | ParserCombinators.js:154 | `val[0] + val[1]` is the integer sum of two numbers and the concatenation of two strings |
| ParserCombinators.PlusStep | ParserCombinators.js:154-158 | defined as the reducer `apply(add, seq(soFar, current))`; laws in PlusSnoc, PlusOfTwo and PlusStepOfSingletons |
| ParserCombinators.Plus | ParserCombinators.js:152-159 | no parser gives the error case; one parser gives that parser itself |
| ParserCombinators.PlusSnoc | ParserCombinators.js:152-159 | the left fold: `plus(p1..pn, q)` is `apply(add, seq(plus(p1..pn), q))` |
| ParserCombinators.PlusFails | ParserCombinators.js:152-159 | `plus` always fails when any one of its parsers always fails |
| ParserCombinators.PlusOfStrings | ParserCombinators.js:152-159 | when each parser succeeds once with a string, starting where the previous one left off, `plus` succeeds once, leaves what the last one leaves and holds the strings joined in order |
| ParserCombinators.PlusOfTwo | ParserCombinators.js:152-159 | `plus` of two parsers is the single step `apply(add, seq(p, q))` |
| ParserCombinators.PlusStepOfSymbols | ParserCombinators.js:154-158 | the reducer step on `symbol(x)` and `symbol(y)`, on an input starting with `x, y`, consumes both and holds `x + y` |
| ParserCombinators.PlusOfSymbolsExample | ParserCombinators.js:152-159 | `plus(symbol('a'), symbol('b'))` on `"ab"` has the one complete parse holding `'ab'` |
| ParserCombinators.PlusExamples | ParserCombinators.js:152-159 | `'a' + 'b' + 'd'` gives `'abd'`; `2 + 3` gives `5` |
| ParserCombinators.First | ParserCombinators.js:163-165 | defined as `value[0]`; what it gives on a pair is in Values.At and TakeValueOfSeqAt |
| ParserCombinators.Second | ParserCombinators.js:171-173 | defined as `value[1]`; what it gives on a pair is in Values.At and TakeValueOfSeqAt |
| ParserCombinators.TakeFirstValueOfSeq | ParserCombinators.js:162-167 | defined as `apply(first, seq(p1, p2))`; laws in TakeValueOfSeqAt |
| ParserCombinators.TakeSecondValueOfSeq | ParserCombinators.js:170-175 | defined as `apply(second, seq(p1, p2))`; laws in TakeValueOfSeqAt |
| ParserCombinators.TakeValueOfSeqAt | ParserCombinators.js:162-175 | both projections have `seq`'s count and remainings; their values are the first and second components of `seq`'s pair |
| ParserCombinators.Or | ParserCombinators.js:5-7 | `p.or(q)` behaves as `alt(p, q)` on every input |
| ParserCombinators.OrElse | ParserCombinators.js:9-11 | `p.orElse(q)` behaves as `strictAlt(p, q)` on every input |
| ParserCombinators.Then | ParserCombinators.js:13-15 | `p.then(q)` behaves as `seq(p, q)` on every input |
| ParserCombinators.ThenConcat | ParserCombinators.js:17-19 | `p.thenConcat(q)` behaves as `concatSeq(p, q)` on every input |
| ParserCombinators.ThenAppend | ParserCombinators.js:21-23 | `p.thenAppend(q)`, i.e. `plus(p, q)`, is the single fold step `apply(add, seq(p, q))` |
| ParserCombinators.ThenDrop | ParserCombinators.js:25-27 | `p.thenDrop(q)` behaves as `takeFirstValueOfSeq(p, q)` on every input |
| ParserCombinators.ThenReturn | ParserCombinators.js:29-31 | `p.thenReturn(q)` behaves as `takeSecondValueOfSeq(p, q)` on every input |
| Repetition.ZeroOrMoreOf | ParserCombinators.js:178-182 | defined as the fixpoint `p.thenConcat(zeroOrMoreOf(p)).or(succeed([]))`, by recursion on the input's length; laws in ZeroOrMoreOfUnfolds to ZeroOrMoreOfFail |
| Repetition.ZeroOrMoreAt | ParserCombinators.js:178-182 | `zeroOrMoreOf(p)` on one input: the concatenated repetitions, then `(input, [])`; laws in ZeroOrMoreOfStep and ZeroOrMoreOfShape |
| Repetition.RepetitionsAreSeq | ParserCombinators.js:180 | the model's recursion over `p`'s results is `seq`'s double loop with `zeroOrMoreOf(p)` as second parser |
| Repetition.ZeroOrMoreOfUnfolds | ParserCombinators.js:178-182 | the source's defining equation `zeroOrMoreOf(p) = p.thenConcat(zeroOrMoreOf(p)).or(succeed([]))` holds on every input |
| Repetition.ZeroOrMoreOfStep | ParserCombinators.js:178-182 | the same equation with the combinators evaluated: concatenated repetitions first, `(input, [])` last |
| Repetition.ZeroOrMoreOfShape | ParserCombinators.js:178-182 | count is one more than `seq`'s; the last result is `(input, [])`; every value is an array |
| Repetition.ZeroOrMoreOfEmpty | ParserCombinators.js:178-182 | `zeroOrMoreOf(p)` on the empty input, for a `p` whose successes consume input, has the one result `([], [])` |
| Repetition.ZeroOrMoreOfNoMatch | ParserCombinators.js:178-182 | when `p` fails at the start, the empty input included, the only result is `(input, [])` |
| Repetition.SatisfyMatchesOne | ParserCombinators.js:37-44 | `satisfy(pred)` consumes exactly the first element when it satisfies `pred` and fails otherwise |
| Repetition.ZeroOrMoreOfOne | ParserCombinators.js:178-182 | for a parser matching one element at a time with `m` leading matches: exactly `m + 1` results, longest first, the `j`-th consuming `m - j` elements and holding them joined |
| Repetition.ZeroOrMoreOfSymbol | ParserCombinators.js:178-182 | on `n` copies of a symbol: exactly `n + 1` results; the `j`-th leaves `j` copies and holds a list of the `n - j` copies consumed |
| Repetition.ZeroOrMoreOfExample | ParserCombinators.js:178-182 | `zeroOrMoreOf(symbol('a'))` on `"aaa"` gives `("", [a,a,a])`, `("a", [a,a])`, `("aa", [a])`, `("aaa", [])` in that order |
| Repetition.ZeroOrMoreOfFail | ParserCombinators.js:178-182 | `zeroOrMoreOf(fail)` succeeds once, consuming nothing, with `[]` |
| ParseResults.Make | ParseResult.js:5-11 | the constructor stores both fields unchanged, and the record equals one built from the same fields |
| ParseResults.ParseResult.Equals | ParseResult.js:21-28 | defined as both fields comparing equal, `remaining` by `equalsArray` and `value` by `equalsArray` or `===`; laws in EqualsIsEquality and EqualsExamples |
| ParseResults.EqualsIsEquality | ParseResult.js:21-28 | `a.equals(b)` holds if and only if both fields agree, and is symmetric |
| ParseResults.EqualsExamples | ParseResult.js:21-28 | records with the same string, array or number fields are equal; records differing in `remaining`, in `value`, or array against string, are not |
| ParseResults.ParseResult.ToString | ParseResult.js:14-17 | for a text remaining and a string value: the prefix `{ Remaining: `, the remaining text, a space, a vertical bar and ` Value: `, the value, then `}` with no space before it |
| ParseResults.ToStringExample | ParseResult.js:14-17 | `("mozilla", "gecko")` renders as the prefix, `mozilla`, the separator, `gecko` and the closing brace |
| ArrayEquality.ArrayEquals | Utilities.js:17-34 | defined as both arrays, equal lengths and elements pairwise equal; laws in ArrayEqualsIsEquality, loop in EqualsArray |
| ArrayEquality.EqualsArray | Utilities.js:17-34 | the loop with early returns decides `ArrayEquals`: both arrays, equal lengths, elements pairwise equal (arrays recursively, others by `===`) |
| ArrayEquality.ArrayEqualsIsEquality | Utilities.js:17-34 | `equalsArray(l, r)` holds if and only if `l` is an array and `r` is the same array value |
| ArrayEquality.ElementEqualsIsEquality | Utilities.js:28 | the element comparison holds if and only if the two elements are equal values |
| ArrayEquality.EqualsArrayExamples | Utilities.js:17-34 | equal nested arrays and two empty arrays are equal; different lengths, a differing element or subarray, and a non-array argument are not |
| Utilities.HasCompleteParse | Utilities.js:55-59 | true if and only if some result has an empty `remaining`; false on `[]` |
| Utilities.Accepts | Utilities.js:5-7 | true if and only if some result of the parser on the input has an empty `remaining` |
| Utilities.AcceptsAlt | Utilities.js:5-7 | `alt(p, q)` accepts exactly when `p` or `q` accepts |
| Utilities.AcceptsStrictAlt | Utilities.js:5-7 | what `strictAlt(p, q)` accepts `alt(p, q)` accepts; when `p` fails it accepts exactly what `q` accepts |
| Utilities.AcceptsSucceedAndFail | Utilities.js:5-7 | `succeed(v)` accepts only the empty input; `fail` accepts nothing |
| Utilities.AcceptsExamples | Utilities.js:5-7 | `symbol('a')` accepts `"a"`, and neither `"ab"` nor the empty input |
| Utilities.ContainsResult | Utilities.js:10-14 | true if and only if some element `r` has `r.equals(needle)`; false on `[]` |
| Utilities.ContainsResultIsMembership | Utilities.js:10-14 | `containsResult(needle, rs)` is membership of `needle` in `rs` |
| Utilities.LastComplete | Utilities.js:38-47 | the record the flags end up holding: none exactly when no result is complete, otherwise a complete result with no complete result after it |
| Utilities.FinalValue | Utilities.js:37-52 | the error with the source's message exactly when no result is complete; otherwise the value of the last complete result |
| Utilities.GetFinalValue | Utilities.js:37-52 | the loop over all results, updating `resultFound` and `finalResult`, computes `FinalValue` |
| Utilities.FinalValueExamples | Utilities.js:37-52 | `getFinalValue([])` fails; on `[("a","b"), ("","c")]` it gives `"c"` |
| Utilities.FinalValueIffAccepts | Utilities.js:5-7 | a parser's results have a final value exactly when the parser accepts the input |
| Utilities.FirstComplete | Utilities.js:41-47 | none exactly when no result is complete, otherwise a complete result with no complete result before it |
| Utilities.FirstFinalValue | Utilities.js:41-52 | the error exactly when no result is complete; otherwise the value of the first complete result |
| Utilities.GetFirstFinalValue | Utilities.js:41-52 | the loop that leaves at the first complete result computes `FirstFinalValue` |
| Utilities.FinalValuesAgree | Utilities.js:37-52 | when all complete results carry the same value, the last-result and first-result readings give the same answer |
| Utilities.FinalValueFinding | Utilities.js:41-47 | on two complete results the code returns the second value, the first-result reading the first |

## Left out

- The `Parser` decorator mutates each function object and binds `this`; the chaining methods are modelled as plain functions of the receiver.
- Values.At: where JavaScript throws a TypeError for `null[i]` or `undefined[i]`, the model gives `undefined`; `first`, `second` and `add` only ever index the two-element arrays `seq` builds, so the case does not arise there.
- `Add` covers `+` on two integers and on two strings only; other operand combinations (arrays or mixed types, which JavaScript stringifies) give `undefined` in the model.
- Numbers are unbounded integers: no floating point, `NaN` or rounding.
- Identity of arrays under `===`: `symbol` of an array value compares by reference in JavaScript and by value in the model. `equalsArray` and `equals` never apply `===` to an array, so they are unaffected.
- Inputs are sequences of values, so a text remaining and an array remaining of the same elements are not told apart; the source's string-against-array checks in `equals` are not modelled.
- ParseResults.ParseResult.ToString: states `toString` only for a text remaining and a string value; `toString` of arrays, numbers and objects is not modelled.
- `satisfy` does not call its predicate on an empty input; predicates in the model are total and side-effect free, so this is not observable.
- `zeroOrMoreOf` on a parser that can succeed without consuming input recurses forever; the model requires every success of `p` to consume input (`Progressive`) instead of modelling the divergence.
- Repetition.ZeroOrMoreOfOne: the exact count and order law is stated for parsers that match one element at a time; for other parsers only the general shape (ZeroOrMoreOfShape) and the defining equation are proved.
- The `instanceof` check that lets `ParseResult` be called without `new` is not modelled; a datatype constructor has no such distinction.
- `token` calls the token's own `equals` method; the model takes that method as a function parameter.
- `optional`, `oneOrMoreOf`, `zeroOrMoreCharacters`, `oneOrMoreCharacters`, `logFinalValue`, `printParses` and `logAccepts` are not part of this model: they do not appear in ParserCombinators.js or Utilities.js.
- The test suites' checks on function arity and property existence, and the module loading, are not modelled.

## Findings

| source | as written | input that shows it | evidently intended | confidence | as-written member | corrected member |
|---|---|---|---|---|---|---|
| Utilities.js:41-47 | the `some` callback never returns `true`, so iteration never stops and the last complete result overwrites earlier ones | `[("", "x"), ("", "y")]` gives `"y"` | stop at the first complete result, as the comment at line 41 says | not executed | Utilities.FinalValueFinding | Utilities.FirstFinalValue |
