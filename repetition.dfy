/**
 * `zeroOrMoreOf` of ParserCombinators.js: one more match of `p` concatenated with further
 * repetitions, or else stop with the empty array. The recursion ends because every success of
 * `p` consumes input (Progressive); a parser that can succeed without consuming makes the source
 * recurse forever, and the model leaves that case to its precondition.
 */
module Repetition {
  import opened Values
  import opened ParseResults
  import opened ParserCombinators

  /**
   * `zeroOrMoreOf(p)(input)`, i.e. `p.thenConcat(zeroOrMoreOf(p)).or(succeed([]))(input)` with
   * the combinators evaluated: the concatenated repetitions first, the zero-match branch last.
   */
  function ZeroOrMoreAt(p: Parser, input: seq<Val>): seq<ParseResult>
    requires Progressive(p)
    decreases |input|, 1
  {
    MapValues(Concat, Repetitions(p, p(input), input)) + [ParseResult(input, Lst([]))]
  }

  /** `seq`'s double loop over the results `rs` of `p`, with `zeroOrMoreOf(p)` as the second parser. */
  function Repetitions(p: Parser, rs: seq<ParseResult>, input: seq<Val>): seq<ParseResult>
    requires Progressive(p)
    requires forall k :: 0 <= k < |rs| ==> |rs[k].remaining| < |input|
    decreases |input|, 0, |rs|
  {
    if rs == [] then []
    else Pairs(rs[0], ZeroOrMoreAt(p, rs[0].remaining)) + Repetitions(p, rs[1..], input)
  }

  /** `zeroOrMoreOf(p)`. */
  function ZeroOrMoreOf(p: Parser): Parser
    requires Progressive(p)
  {
    input => ZeroOrMoreAt(p, input)
  }

  lemma {:induction false} RepetitionsAreSeq(p: Parser, rs: seq<ParseResult>, input: seq<Val>)
    requires Progressive(p)
    requires forall k :: 0 <= k < |rs| ==> |rs[k].remaining| < |input|
    ensures Repetitions(p, rs, input) == SeqResults(rs, ZeroOrMoreOf(p))
    decreases |rs|
  {
    if rs != [] {
      RepetitionsAreSeq(p, rs[1..], input);
    }
  }

  /** The defining equation of the source holds of the model on every input. */
  lemma ZeroOrMoreOfUnfolds(p: Parser, input: seq<Val>)
    requires Progressive(p)
    ensures ZeroOrMoreOf(p)(input) == Alt(ConcatSeq(p, ZeroOrMoreOf(p)), Succeed(Lst([])))(input)
  {
    RepetitionsAreSeq(p, p(input), input);
  }

  /** The same equation with the combinators evaluated: concatenated pairs first, then `(input, [])`. */
  lemma ZeroOrMoreOfStep(p: Parser, input: seq<Val>)
    requires Progressive(p)
    ensures ZeroOrMoreOf(p)(input) ==
      MapValues(Concat, SeqResults(p(input), ZeroOrMoreOf(p))) + [ParseResult(input, Lst([]))]
  {
    RepetitionsAreSeq(p, p(input), input);
  }

  lemma MatchesOneIsProgressive(p: Parser, pred: Val -> bool)
    requires MatchesOne(p, pred)
    ensures Progressive(p)
  {
  }

  /** One more match in front of the repetitions of the rest of the input. */
  lemma ConsMatch(x: Val, tail: seq<Val>, zt: seq<ParseResult>, m: nat)
    requires |zt| == m
    requires m <= |tail| + 1
    requires forall j :: 0 <= j < m ==> zt[j] == ParseResult(tail[m - 1 - j..], Lst(Flatten(tail[..m - 1 - j])))
    ensures forall j :: 0 <= j < m ==>
              MapValues(Concat, Pairs(ParseResult(tail, x), zt))[j] ==
              ParseResult(([x] + tail)[m - j..], Lst(Flatten(([x] + tail)[..m - j])))
  {
    var input := [x] + tail;
    forall j | 0 <= j < m
      ensures MapValues(Concat, Pairs(ParseResult(tail, x), zt))[j] ==
              ParseResult(input[m - j..], Lst(Flatten(input[..m - j])))
    {
      assert tail[m - 1 - j..] == input[m - j..];
      assert input[..m - j][1..] == tail[..m - 1 - j];
    }
  }

  /**
   * The zero-repetition branch always comes last; before it come the results of `concatSeq`,
   * one per result of `p` and result of the repetition after it; every value is an array.
   */
  lemma ZeroOrMoreOfShape(p: Parser, input: seq<Val>)
    requires Progressive(p)
    ensures |ZeroOrMoreOf(p)(input)| == 1 + SumCounts(p(input), ZeroOrMoreOf(p))
    ensures ZeroOrMoreOf(p)(input)[|ZeroOrMoreOf(p)(input)| - 1] == ParseResult(input, Lst([]))
    ensures forall n :: 0 <= n < |ZeroOrMoreOf(p)(input)| ==> ZeroOrMoreOf(p)(input)[n].value.Lst?
  {
    ZeroOrMoreOfUnfolds(p, input);
    var z := ZeroOrMoreOf(p);
    SeqCount(p(input), z);
    SeqValuesArePairs(p(input), z);
  }

  /** When `p` fails at the start, including on the empty input, the only result is `(input, [])`. */
  lemma ZeroOrMoreOfNoMatch(p: Parser, input: seq<Val>)
    requires Progressive(p) && p(input) == []
    ensures ZeroOrMoreOf(p)(input) == [ParseResult(input, Lst([]))]
  {
    ZeroOrMoreOfUnfolds(p, input);
  }

  /** Each result of a progressive parser leaves less than its input. */
  lemma ProgressiveShortens(p: Parser, input: seq<Val>, k: nat)
    requires Progressive(p) && k < |p(input)|
    ensures |p(input)[k].remaining| < |input|
  {
  }

  /** A parser that always consumes cannot match the empty input, so `zeroOrMoreOf` yields `([], [])` there. */
  lemma ZeroOrMoreOfEmpty(p: Parser)
    requires Progressive(p)
    ensures ZeroOrMoreOf(p)([]) == [ParseResult([], Lst([]))]
  {
    if p([]) != [] {
      ProgressiveShortens(p, [], 0);
      assert false;
    }
    ZeroOrMoreOfNoMatch(p, []);
  }

  /** `p` behaves as `satisfy(pred)`: it consumes exactly the first element, when that satisfies `pred`. */
  ghost predicate MatchesOne(p: Parser, pred: Val -> bool) {
    forall input :: p(input) == if |input| > 0 && pred(input[0]) then [ParseResult(input[1..], input[0])] else []
  }

  lemma SatisfyMatchesOne(pred: Val -> bool)
    ensures MatchesOne(Satisfy(pred), pred)
  {
  }

  /** The number of leading elements of `input` that satisfy `pred`. */
  function Run(pred: Val -> bool, input: seq<Val>): (m: nat)
    ensures m <= |input|
    ensures forall k :: 0 <= k < m ==> pred(input[k])
    ensures m < |input| ==> !pred(input[m])
    decreases |input|
  {
    if |input| > 0 && pred(input[0]) then 1 + Run(pred, input[1..]) else 0
  }

  /** Elements joined the way `concatSeq` joins them: arrays spliced in, anything else as one element. */
  function Flatten(xs: seq<Val>): seq<Val>
    decreases |xs|
  {
    if xs == [] then [] else Wrap(xs[0]) + Flatten(xs[1..])
  }

  lemma {:induction false} FlattenScalars(xs: seq<Val>)
    requires forall k :: 0 <= k < |xs| ==> !xs[k].Lst?
    ensures Flatten(xs) == xs
    decreases |xs|
  {
    if xs != [] {
      FlattenScalars(xs[1..]);
    }
  }

  /**
   * One step of the induction below: when `p` matches exactly the first element of `input`, the
   * results on `input` are those on the tail with that element joined on front, then `(input, [])`.
   */
  lemma ZeroOrMoreOfCons(p: Parser, input: seq<Val>, m: nat)
    requires Progressive(p)
    requires |input| > 0 && p(input) == [ParseResult(input[1..], input[0])]
    requires 1 <= m <= |input|
    requires |ZeroOrMoreOf(p)(input[1..])| == m
    requires forall j :: 0 <= j < m ==>
               ZeroOrMoreOf(p)(input[1..])[j] ==
               ParseResult(input[1..][m - 1 - j..], Lst(Flatten(input[1..][..m - 1 - j])))
    ensures |ZeroOrMoreOf(p)(input)| == m + 1
    ensures forall j :: 0 <= j <= m ==>
              ZeroOrMoreOf(p)(input)[j] == ParseResult(input[m - j..], Lst(Flatten(input[..m - j])))
  {
    var z := ZeroOrMoreOf(p);
    var tail := input[1..];
    ZeroOrMoreOfStep(p, input);
    var pairs := Pairs(ParseResult(tail, input[0]), z(tail));
    assert SeqResults(p(input), z) == pairs + SeqResults(p(input)[1..], z);
    assert p(input)[1..] == [];
    assert SeqResults(p(input), z) == pairs;
    assert z(input) == MapValues(Concat, pairs) + [ParseResult(input, Lst([]))];
    assert [input[0]] + tail == input;
    ConsMatch(input[0], tail, z(tail), m);
    assert input[..0] == [];
  }

  /** `p` matches at most the first element, as `MatchesOne` describes, at one particular input. */
  lemma MatchesOneAt(p: Parser, pred: Val -> bool, input: seq<Val>)
    requires MatchesOne(p, pred)
    ensures p(input) == if |input| > 0 && pred(input[0]) then [ParseResult(input[1..], input[0])] else []
  {
  }

  /**
   * On a parser that matches one element at a time, `zeroOrMoreOf` yields one result per
   * achievable repetition count, longest first: with `m` the number of leading matches, the
   * `j`-th result has consumed `m - j` elements and holds them, joined by `concatSeq`.
   */
  lemma {:induction false} ZeroOrMoreOfOne(p: Parser, pred: Val -> bool, input: seq<Val>)
    requires MatchesOne(p, pred)
    ensures Progressive(p)
    ensures |ZeroOrMoreOf(p)(input)| == Run(pred, input) + 1
    ensures forall j :: 0 <= j <= Run(pred, input) ==>
              ZeroOrMoreOf(p)(input)[j] ==
              ParseResult(input[Run(pred, input) - j..], Lst(Flatten(input[..Run(pred, input) - j])))
    decreases |input|
  {
    MatchesOneIsProgressive(p, pred);
    MatchesOneAt(p, pred, input);
    var m := Run(pred, input);
    if m == 0 {
      ZeroOrMoreOfNoMatch(p, input);
      assert input[..0] == [];
    } else {
      ZeroOrMoreOfOne(p, pred, input[1..]);
      assert Run(pred, input[1..]) == m - 1;
      ZeroOrMoreOfCons(p, input, m);
    }
  }

  /** `n` copies of `a`. */
  function Repeat(a: Val, n: nat): (xs: seq<Val>)
    ensures |xs| == n && forall k :: 0 <= k < n ==> xs[k] == a
  {
    seq(n, _ => a)
  }

  /**
   * `zeroOrMoreOf(symbol(a))` on `n` copies of `a` returns exactly `n + 1` results; the `j`-th has
   * `j` copies left and holds the `n - j` copies it consumed.
   */
  lemma ZeroOrMoreOfSymbol(a: Val, n: nat)
    requires !a.Lst?
    ensures Progressive(Symbol(a))
    ensures |ZeroOrMoreOf(Symbol(a))(Repeat(a, n))| == n + 1
    ensures forall j :: 0 <= j <= n ==>
              ZeroOrMoreOf(Symbol(a))(Repeat(a, n))[j] == ParseResult(Repeat(a, j), Lst(Repeat(a, n - j)))
  {
    var pred := x => x == a;
    var input := Repeat(a, n);
    SymbolMatchesOne(a, pred);
    ZeroOrMoreOfOne(Symbol(a), pred, input);
    RepeatRun(a, n, pred);
    forall j | 0 <= j <= n
      ensures ZeroOrMoreOf(Symbol(a))(input)[j] == ParseResult(Repeat(a, j), Lst(Repeat(a, n - j)))
    {
      RepeatSlices(a, n, j);
    }
  }

  lemma SymbolMatchesOne(a: Val, pred: Val -> bool)
    requires forall x :: pred(x) == (x == a)
    ensures MatchesOne(Symbol(a), pred)
  {
  }

  lemma RepeatRun(a: Val, n: nat, pred: Val -> bool)
    requires forall x :: pred(x) == (x == a)
    ensures Run(pred, Repeat(a, n)) == n
  {
  }

  lemma RepeatSlices(a: Val, n: nat, j: nat)
    requires !a.Lst? && j <= n
    ensures Repeat(a, n)[n - j..] == Repeat(a, j)
    ensures Flatten(Repeat(a, n)[..n - j]) == Repeat(a, n - j)
  {
    FlattenScalars(Repeat(a, n)[..n - j]);
    assert Repeat(a, n)[..n - j] == Repeat(a, n - j);
  }

  /** Two sequences of four results that agree at every index are equal. */
  lemma FourResults(r: seq<ParseResult>, r0: ParseResult, r1: ParseResult, r2: ParseResult, r3: ParseResult)
    requires |r| == 4 && r[0] == r0 && r[1] == r1 && r[2] == r2 && r[3] == r3
    ensures r == [r0, r1, r2, r3]
  {
  }

  lemma TextOfAs(a: Val)
    requires a == Str("a")
    ensures Text("aaa") == Repeat(a, 3) && Text("aa") == Repeat(a, 2)
    ensures Text("a") == Repeat(a, 1) && Text("") == Repeat(a, 0)
  {
  }

  lemma ZeroOrMoreOfThree(a: Val)
    requires !a.Lst?
    ensures Progressive(Symbol(a))
    ensures ZeroOrMoreOf(Symbol(a))(Repeat(a, 3)) ==
      [ParseResult(Repeat(a, 0), Lst(Repeat(a, 3))), ParseResult(Repeat(a, 1), Lst(Repeat(a, 2))),
       ParseResult(Repeat(a, 2), Lst(Repeat(a, 1))), ParseResult(Repeat(a, 3), Lst(Repeat(a, 0)))]
  {
    ZeroOrMoreOfSymbol(a, 3);
    FourResults(ZeroOrMoreOf(Symbol(a))(Repeat(a, 3)),
      ParseResult(Repeat(a, 0), Lst(Repeat(a, 3))), ParseResult(Repeat(a, 1), Lst(Repeat(a, 2))),
      ParseResult(Repeat(a, 2), Lst(Repeat(a, 1))), ParseResult(Repeat(a, 3), Lst(Repeat(a, 0))));
  }

  /** The worked case: `zeroOrMoreOf(symbol('a'))` on `"aaa"`. */
  lemma ZeroOrMoreOfExample(a: Val)
    requires a == Str("a")
    ensures Progressive(Symbol(a))
    ensures ZeroOrMoreOf(Symbol(a))(Text("aaa")) ==
      [ParseResult(Text(""), Lst(Text("aaa"))), ParseResult(Text("a"), Lst(Text("aa"))),
       ParseResult(Text("aa"), Lst(Text("a"))), ParseResult(Text("aaa"), Lst([]))]
  {
    ZeroOrMoreOfThree(a);
    TextOfAs(a);
  }

  /** `zeroOrMoreOf(fail)` succeeds once, consuming nothing. */
  lemma ZeroOrMoreOfFail(input: seq<Val>)
    ensures Progressive(Fail)
    ensures ZeroOrMoreOf(Fail)(input) == [ParseResult(input, Lst([]))]
  {
    ZeroOrMoreOfNoMatch(Fail, input);
  }
}
