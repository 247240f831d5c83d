/**
 * ParserCombinators.js: the primitive parsers and the combinator algebra. A parser maps an input
 * to the ordered list of ALL its successful parses; the empty list means failure.
 */
module ParserCombinators {
  import opened Wrappers
  import opened Values
  import opened ParseResults

  type Parser = seq<Val> -> seq<ParseResult>

  /** A parser that never succeeds, on any input. */
  ghost predicate AlwaysFails(p: Parser) {
    forall input :: p(input) == []
  }

  /** Every success of `p` consumes at least one element: what `zeroOrMoreOf` asks of its argument. */
  ghost predicate Progressive(p: Parser) {
    forall input, k :: 0 <= k < |p(input)| ==> |p(input)[k].remaining| < |input|
  }

  // ---------------------------------------------------------------------------------------------
  // Primitives

  /** `satisfy(pred)`: consume the first element when it satisfies `pred`. */
  function Satisfy(pred: Val -> bool): (p: Parser)
    ensures forall input :: |p(input)| <= 1
    ensures forall input :: p(input) != [] <==> |input| > 0 && pred(input[0])
    ensures forall input :: p(input) != [] ==> p(input)[0] == ParseResult(input[1..], input[0])
    ensures Progressive(p)
  {
    input => if |input| > 0 && pred(input[0]) then [ParseResult(input[1..], input[0])] else []
  }

  /**
   * `matchFirst(value, equals)`: `satisfy` with the predicate `x => equals(value, x)`, where a
   * missing `equals` means `===`.
   */
  function MatchFirst(value: Val, equals: Option<(Val, Val) -> bool>): (p: Parser)
    ensures forall input :: |p(input)| <= 1
    ensures forall input :: p(input) != [] <==>
      |input| > 0 && (if equals.Some? then equals.value(value, input[0]) else StrictEquals(value, input[0]))
    ensures forall input :: p(input) != [] ==> p(input)[0] == ParseResult(input[1..], input[0])
  {
    var eq := if equals.Some? then equals.value else (a, b) => StrictEquals(a, b);
    Satisfy(x => eq(value, x))
  }

  /** `symbol(s)`: match exactly an element equal to `s` (by `===`). */
  function Symbol(s: Val): (p: Parser)
    ensures forall input ::
              p(input) == if |input| > 0 && input[0] == s then [ParseResult(input[1..], s)] else []
    ensures Progressive(p)
  {
    MatchFirst(s, None)
  }

  /**
   * `token(expected)`: match an element `x` for which `expected.equals(x)` holds; `equalsMethod(a, b)`
   * stands for the token's own method call `a.equals(b)`.
   */
  function Token(expected: Val, equalsMethod: (Val, Val) -> bool): (p: Parser)
    ensures forall input ::
              p(input) == if |input| > 0 && equalsMethod(expected, input[0])
                          then [ParseResult(input[1..], input[0])] else []
    ensures Progressive(p)
  {
    MatchFirst(expected, Some(equalsMethod))
  }

  /** `succeed(v)`: one success that consumes nothing, on every input including the empty one. */
  function Succeed(v: Val): (p: Parser)
    ensures forall input :: |p(input)| == 1 && p(input)[0].remaining == input && p(input)[0].value == v
  {
    input => [ParseResult(input, v)]
  }

  /** `epsilon`: `succeed(null)`. */
  const Epsilon: Parser := Succeed(Null)

  /** `fail`: no success on any input. */
  const Fail: Parser := input => []

  lemma EpsilonAndFail(input: seq<Val>)
    ensures Epsilon(input) == [ParseResult(input, Null)]
    ensures Fail(input) == []
  {
  }

  // ---------------------------------------------------------------------------------------------
  // Choice

  /** `alt(p1, p2)`: all results of `p1`, then all results of `p2`; nothing merged or dropped. */
  function Alt(p1: Parser, p2: Parser): Parser {
    input => p1(input) + p2(input)
  }

  /** `strictAlt(p1, p2)`: the results of `p1` when there are any, otherwise those of `p2`. */
  function StrictAlt(p1: Parser, p2: Parser): Parser {
    input => var result := p1(input); if |result| > 0 then result else p2(input)
  }

  lemma AltLaws(p1: Parser, p2: Parser, input: seq<Val>)
    ensures |Alt(p1, p2)(input)| == |p1(input)| + |p2(input)|
    ensures Alt(p1, p2)(input)[..|p1(input)|] == p1(input)
    ensures Alt(p1, p2)(input)[|p1(input)|..] == p2(input)
    ensures forall r :: r in Alt(p1, p2)(input) <==> r in p1(input) || r in p2(input)
  {
  }

  /** `fail` is a unit of `alt` on both sides, and `alt` is associative. */
  lemma AltAlgebra(p: Parser, q: Parser, s: Parser, input: seq<Val>)
    ensures Alt(Fail, p)(input) == p(input) && Alt(p, Fail)(input) == p(input)
    ensures Alt(Alt(p, q), s)(input) == Alt(p, Alt(q, s))(input)
  {
  }

  /**
   * Committed choice agrees with the inclusive one exactly when at most one side succeeds, and is
   * otherwise the prefix that `p1` contributes.
   */
  lemma StrictAltLaws(p1: Parser, p2: Parser, input: seq<Val>)
    ensures StrictAlt(p1, p2)(input) == (if p1(input) != [] then p1(input) else p2(input))
    ensures StrictAlt(p1, p2)(input) == Alt(p1, p2)(input) <==> p1(input) == [] || p2(input) == []
    ensures StrictAlt(p1, p2)(input) <= Alt(p1, p2)(input)
  {
  }

  // ---------------------------------------------------------------------------------------------
  // Sequencing

  /** The results `seq` builds from one first-stage result `r1` and the results `rs2` of `p2` after it. */
  function Pairs(r1: ParseResult, rs2: seq<ParseResult>): (rs: seq<ParseResult>)
    ensures |rs| == |rs2|
    ensures forall k :: 0 <= k < |rs2| ==> rs[k] == ParseResult(rs2[k].remaining, Pair(r1.value, rs2[k].value))
  {
    seq(|rs2|, k requires 0 <= k < |rs2| => ParseResult(rs2[k].remaining, Pair(r1.value, rs2[k].value)))
  }

  /** The double loop of `seq`: outer over the first results, inner over `p2` after each of them. */
  function SeqResults(rs1: seq<ParseResult>, p2: Parser): seq<ParseResult>
    decreases |rs1|
  {
    if rs1 == [] then [] else Pairs(rs1[0], p2(rs1[0].remaining)) + SeqResults(rs1[1..], p2)
  }

  /** `seq(p1, p2)`. */
  function Seq(p1: Parser, p2: Parser): Parser {
    input => SeqResults(p1(input), p2)
  }

  /** Σ over the first-stage results `r` of the number of results of `p2` on `r.remaining`. */
  function SumCounts(rs1: seq<ParseResult>, p2: Parser): nat
    decreases |rs1|
  {
    if rs1 == [] then 0 else |p2(rs1[0].remaining)| + SumCounts(rs1[1..], p2)
  }

  lemma {:induction false} SumCountsSnoc(rs1: seq<ParseResult>, r: ParseResult, p2: Parser)
    ensures SumCounts(rs1 + [r], p2) == SumCounts(rs1, p2) + |p2(r.remaining)|
    decreases |rs1|
  {
    if rs1 != [] {
      assert (rs1 + [r])[1..] == rs1[1..] + [r];
      SumCountsSnoc(rs1[1..], r, p2);
    }
  }

  lemma {:induction false} SeqResultsSnoc(rs1: seq<ParseResult>, r: ParseResult, p2: Parser)
    ensures SeqResults(rs1 + [r], p2) == SeqResults(rs1, p2) + Pairs(r, p2(r.remaining))
    decreases |rs1|
  {
    if rs1 == [] {
      assert [r][1..] == [];
    } else {
      assert (rs1 + [r])[1..] == rs1[1..] + [r];
      SeqResultsSnoc(rs1[1..], r, p2);
    }
  }

  /** The number of results of `seq` is the sum of the second stage's result counts. */
  lemma {:induction false} SeqCount(rs1: seq<ParseResult>, p2: Parser)
    ensures |SeqResults(rs1, p2)| == SumCounts(rs1, p2)
    decreases |rs1|
  {
    if rs1 != [] {
      SeqCount(rs1[1..], p2);
    }
  }

  /**
   * The order and shape of `seq`'s results: the `k`-th result of `p2` after the `j`-th result of
   * `p1` sits right after the results contributed by the first `j` results of `p1`, and carries
   * the second result's remaining input and the pair of the two values.
   */
  lemma {:induction false} SeqAt(rs1: seq<ParseResult>, p2: Parser, j: nat, k: nat)
    requires j < |rs1| && k < |p2(rs1[j].remaining)|
    ensures SumCounts(rs1[..j], p2) + k < |SeqResults(rs1, p2)|
    ensures SeqResults(rs1, p2)[SumCounts(rs1[..j], p2) + k] ==
      ParseResult(p2(rs1[j].remaining)[k].remaining, Pair(rs1[j].value, p2(rs1[j].remaining)[k].value))
    decreases |rs1|
  {
    SeqCount(rs1, p2);
    var head := Pairs(rs1[0], p2(rs1[0].remaining));
    if j == 0 {
      assert rs1[..0] == [];
    } else {
      SeqAt(rs1[1..], p2, j - 1, k);
      assert rs1[1..][..j - 1] == rs1[..j][1..];
      assert SumCounts(rs1[..j], p2) == |head| + SumCounts(rs1[1..][..j - 1], p2);
    }
  }

  /** A result is produced by `seq` exactly when it pairs some first result with a result of `p2` after it. */
  lemma {:induction false} SeqMembership(rs1: seq<ParseResult>, p2: Parser, x: ParseResult)
    ensures x in SeqResults(rs1, p2) <==>
      exists j, k :: 0 <= j < |rs1| && 0 <= k < |p2(rs1[j].remaining)| &&
        x == ParseResult(p2(rs1[j].remaining)[k].remaining, Pair(rs1[j].value, p2(rs1[j].remaining)[k].value))
    decreases |rs1|
  {
    if rs1 != [] {
      SeqMembership(rs1[1..], p2, x);
      var head := Pairs(rs1[0], p2(rs1[0].remaining));
      if x in head {
        var k :| 0 <= k < |head| && head[k] == x;
        assert 0 <= k < |p2(rs1[0].remaining)|;
      }
      if x in SeqResults(rs1[1..], p2) {
        var j, k :| 0 <= j < |rs1[1..]| && 0 <= k < |p2(rs1[1..][j].remaining)| &&
          x == ParseResult(p2(rs1[1..][j].remaining)[k].remaining, Pair(rs1[1..][j].value, p2(rs1[1..][j].remaining)[k].value));
        assert rs1[1..][j] == rs1[j + 1];
      }
      if exists j, k ::
             0 <= j < |rs1| && 0 <= k < |p2(rs1[j].remaining)| &&
             x == ParseResult(p2(rs1[j].remaining)[k].remaining, Pair(rs1[j].value, p2(rs1[j].remaining)[k].value))
      {
        var j, k :| 0 <= j < |rs1| && 0 <= k < |p2(rs1[j].remaining)| &&
          x == ParseResult(p2(rs1[j].remaining)[k].remaining, Pair(rs1[j].value, p2(rs1[j].remaining)[k].value));
        if j == 0 {
          assert head[k] == x;
        } else {
          assert rs1[1..][j - 1] == rs1[j];
        }
      }
    }
  }

  /** `seq` fails exactly when `p2` fails after every result of `p1`; in particular when `p1` fails. */
  lemma {:induction false} SeqFails(rs1: seq<ParseResult>, p2: Parser)
    ensures SeqResults(rs1, p2) == [] <==> forall j :: 0 <= j < |rs1| ==> p2(rs1[j].remaining) == []
    decreases |rs1|
  {
    if rs1 != [] {
      SeqFails(rs1[1..], p2);
      assert forall j :: 1 <= j < |rs1| ==> rs1[j] == rs1[1..][j - 1];
    }
  }

  /** `seq` consults `p2` only where a result of `p1` leaves off. */
  lemma {:induction false} SeqResultsAgree(rs1: seq<ParseResult>, p2: Parser, q2: Parser)
    requires forall j :: 0 <= j < |rs1| ==> p2(rs1[j].remaining) == q2(rs1[j].remaining)
    ensures SeqResults(rs1, p2) == SeqResults(rs1, q2)
    decreases |rs1|
  {
    if rs1 != [] {
      assert forall j :: 1 <= j < |rs1| ==> rs1[1..][j - 1] == rs1[j];
      SeqResultsAgree(rs1[1..], p2, q2);
    }
  }

  /** Every value `seq` produces is a two-element array. */
  lemma {:induction false} SeqValuesArePairs(rs1: seq<ParseResult>, p2: Parser)
    ensures forall n :: 0 <= n < |SeqResults(rs1, p2)| ==>
      SeqResults(rs1, p2)[n].value.Lst? && |SeqResults(rs1, p2)[n].value.items| == 2
    decreases |rs1|
  {
    if rs1 != [] {
      SeqValuesArePairs(rs1[1..], p2);
    }
  }

  /** `fail` is a zero of `seq` on both sides. */
  lemma SeqFailZero(p: Parser, input: seq<Val>)
    ensures Seq(Fail, p)(input) == [] && Seq(p, Fail)(input) == []
  {
    assert Fail(input) == [];
    assert forall j :: 0 <= j < |p(input)| ==> Fail(p(input)[j].remaining) == [];
    SeqFails(p(input), Fail);
  }

  /**
   * `seq` as the source runs it: `forEach` over the first results, `forEach` over the second
   * results, and a `push` of the pair for each.
   */
  method RunSeq(p1: Parser, p2: Parser, input: seq<Val>) returns (results: seq<ParseResult>)
    ensures results == Seq(p1, p2)(input)
  {
    var firstResults := p1(input);
    results := [];
    var i := 0;
    while i < |firstResults|
      invariant 0 <= i <= |firstResults|
      invariant results == SeqResults(firstResults[..i], p2)
    {
      var res := firstResults[i];
      var secondResults := p2(res.remaining);
      var j := 0;
      while j < |secondResults|
        invariant 0 <= j <= |secondResults|
        invariant results == SeqResults(firstResults[..i], p2) + Pairs(res, secondResults[..j])
      {
        var res2 := secondResults[j];
        assert Pairs(res, secondResults[..j + 1]) ==
          Pairs(res, secondResults[..j]) + [ParseResult(res2.remaining, Pair(res.value, res2.value))];
        results := results + [ParseResult(res2.remaining, Pair(res.value, res2.value))];
        j := j + 1;
      }
      assert secondResults[..j] == secondResults;
      SeqResultsSnoc(firstResults[..i], res, p2);
      assert firstResults[..i + 1] == firstResults[..i] + [res];
      i := i + 1;
    }
    assert firstResults[..i] == firstResults;
  }

  // ---------------------------------------------------------------------------------------------
  // Transforming values

  /** `results.map(r => ParseResult(r.remaining, f(r.value)))`. */
  function MapValues(f: Val -> Val, rs: seq<ParseResult>): (out: seq<ParseResult>)
    ensures |out| == |rs|
    ensures forall k :: 0 <= k < |rs| ==> out[k] == ParseResult(rs[k].remaining, f(rs[k].value))
  {
    seq(|rs|, k requires 0 <= k < |rs| => ParseResult(rs[k].remaining, f(rs[k].value)))
  }

  /** `apply(f, parser)`. */
  function Apply(f: Val -> Val, parser: Parser): (p: Parser)
    ensures forall input :: |p(input)| == |parser(input)|
    ensures forall input, k :: 0 <= k < |parser(input)| ==>
      p(input)[k] == ParseResult(parser(input)[k].remaining, f(parser(input)[k].value))
  {
    input => MapValues(f, parser(input))
  }

  /** The functor laws: mapping the identity changes nothing, and two maps are one map of the composition. */
  lemma ApplyFunctor(f: Val -> Val, g: Val -> Val, p: Parser, input: seq<Val>)
    ensures Apply(x => x, p)(input) == p(input)
    ensures Apply(f, Apply(g, p))(input) == Apply(x => f(g(x)), p)(input)
  {
  }

  /** A value as an array: arrays as they are, anything else as a one-element array. */
  function Wrap(v: Val): (xs: seq<Val>)
    ensures v.Lst? ==> xs == v.items
    ensures !v.Lst? ==> xs == [v]
  {
    if v.Lst? then v.items else [v]
  }

  /** The `concat` helper of `concatSeq`: flatten one level of the pair `[a, b]`. */
  function Concat(v: Val): (r: Val)
    ensures !v.Lst? ==> r == v
    ensures v.Lst? && |v.items| == 2 ==> r == Lst(Wrap(v.items[0]) + Wrap(v.items[1]))
  {
    if !v.Lst? then v else Lst(Wrap(At(v, 0)) + Wrap(At(v, 1)))
  }

  /** `concatSeq(p1, p2)`. */
  function ConcatSeq(p1: Parser, p2: Parser): Parser {
    Apply(Concat, Seq(p1, p2))
  }

  /**
   * `concatSeq` keeps `seq`'s remainings, count and order and replaces each pair `[a, b]` by
   * the concatenation of `a` and `b`, each taken as an array.
   */
  lemma ConcatSeqAt(p1: Parser, p2: Parser, input: seq<Val>, n: nat)
    requires n < |Seq(p1, p2)(input)|
    ensures |ConcatSeq(p1, p2)(input)| == |Seq(p1, p2)(input)|
    ensures Seq(p1, p2)(input)[n].value.Lst? && |Seq(p1, p2)(input)[n].value.items| == 2
    ensures ConcatSeq(p1, p2)(input)[n] == ParseResult(Seq(p1, p2)(input)[n].remaining,
      Lst(Wrap(Seq(p1, p2)(input)[n].value.items[0]) + Wrap(Seq(p1, p2)(input)[n].value.items[1])))
  {
    SeqValuesArePairs(p1(input), p2);
  }

  /** When no value that `p1` or `p2` produces is an array, `concatSeq` is `seq`. */
  lemma ConcatSeqOnScalars(p1: Parser, p2: Parser, input: seq<Val>)
    requires forall j :: 0 <= j < |p1(input)| ==>
               !p1(input)[j].value.Lst? &&
               forall k :: 0 <= k < |p2(p1(input)[j].remaining)| ==> !p2(p1(input)[j].remaining)[k].value.Lst?
    ensures ConcatSeq(p1, p2)(input) == Seq(p1, p2)(input)
  {
    var s := Seq(p1, p2)(input);
    forall n | 0 <= n < |s| ensures ConcatSeq(p1, p2)(input)[n] == s[n] {
      SeqMembership(p1(input), p2, s[n]);
    }
  }

  /** The test cases: `[['b'], 'c']` becomes `['b', 'c']`, `['e', ['f']]` becomes `['e', 'f']`. */
  lemma ConcatExamples()
    ensures Concat(Pair(Lst([Str("b")]), Str("c"))) == Lst([Str("b"), Str("c")])
    ensures Concat(Pair(Str("e"), Lst([Str("f")]))) == Lst([Str("e"), Str("f")])
    ensures Concat(Pair(Lst([Str("g")]), Lst([Str("h")]))) == Lst([Str("g"), Str("h")])
    ensures Concat(Pair(Str("b"), Str("b"))) == Pair(Str("b"), Str("b"))
  {
  }

  // ---------------------------------------------------------------------------------------------
  // Folds

  /** `args.reduce(step)` with no initial value: fold `rest` into `acc` from the left. */
  function FoldLeft(step: (Parser, Parser) -> Parser, acc: Parser, rest: seq<Parser>): Parser
    decreases |rest|
  {
    if rest == [] then acc else FoldLeft(step, step(acc, rest[0]), rest[1..])
  }

  lemma {:induction false} FoldLeftSnoc(step: (Parser, Parser) -> Parser, acc: Parser, rest: seq<Parser>, q: Parser)
    ensures FoldLeft(step, acc, rest + [q]) == step(FoldLeft(step, acc, rest), q)
    decreases |rest|
  {
    if rest == [] {
      assert [q][1..] == [];
    } else {
      assert (rest + [q])[1..] == rest[1..] + [q];
      FoldLeftSnoc(step, step(acc, rest[0]), rest[1..], q);
    }
  }

  /** A step that fails whenever one operand always fails makes the whole fold fail. */
  lemma {:induction false} FoldLeftFails(step: (Parser, Parser) -> Parser, acc: Parser, rest: seq<Parser>)
    requires forall p, q :: AlwaysFails(p) || AlwaysFails(q) ==> AlwaysFails(step(p, q))
    requires AlwaysFails(acc) || exists k :: 0 <= k < |rest| && AlwaysFails(rest[k])
    ensures AlwaysFails(FoldLeft(step, acc, rest))
    decreases |rest|
  {
    if rest != [] {
      if AlwaysFails(acc) || AlwaysFails(rest[0]) {
        assert AlwaysFails(step(acc, rest[0]));
      } else {
        var k :| 0 <= k < |rest| && AlwaysFails(rest[k]);
        assert AlwaysFails(rest[1..][k - 1]);
      }
      FoldLeftFails(step, step(acc, rest[0]), rest[1..]);
    }
  }

  lemma SeqPreservesFailure(p: Parser, q: Parser, f: Val -> Val)
    requires AlwaysFails(p) || AlwaysFails(q)
    ensures AlwaysFails(Apply(f, Seq(p, q)))
  {
    forall input ensures Apply(f, Seq(p, q))(input) == [] {
      SeqFails(p(input), q);
    }
  }

  /** `sequence(p1, …, pn)`; `None` stands for the TypeError that `reduce` throws when no parser is given. */
  function Sequence(ps: seq<Parser>): (r: Option<Parser>)
    ensures r.None? <==> ps == []
    ensures |ps| == 1 ==> r == Some(ps[0])
  {
    if ps == [] then None else Some(FoldLeft(ConcatSeq, ps[0], ps[1..]))
  }

  /** `sequence(p1, …, pn, q)` is `concatSeq(sequence(p1, …, pn), q)`. */
  lemma SequenceSnoc(ps: seq<Parser>, q: Parser)
    requires ps != []
    ensures Sequence(ps + [q]) == Some(ConcatSeq(Sequence(ps).value, q))
  {
    assert (ps + [q])[1..] == ps[1..] + [q];
    FoldLeftSnoc(ConcatSeq, ps[0], ps[1..], q);
  }

  /** `sequence` fails on every input when one of its parsers does (first, middle or last). */
  lemma SequenceFails(ps: seq<Parser>, k: nat)
    requires k < |ps| && AlwaysFails(ps[k])
    ensures AlwaysFails(Sequence(ps).value)
  {
    forall p, q | AlwaysFails(p) || AlwaysFails(q) ensures AlwaysFails(ConcatSeq(p, q)) {
      SeqPreservesFailure(p, q, Concat);
    }
    if k > 0 {
      assert AlwaysFails(ps[1..][k - 1]);
    }
    FoldLeftFails(ConcatSeq, ps[0], ps[1..]);
  }

  /** The `add` helper of `plus`: `val[0] + val[1]` on two integers or two strings. */
  function Add(v: Val): (r: Val)
    ensures v.Lst? && |v.items| == 2 && v.items[0].Num? && v.items[1].Num? ==>
      r == Num(v.items[0].n + v.items[1].n)
    ensures v.Lst? && |v.items| == 2 && v.items[0].Str? && v.items[1].Str? ==>
      r == Str(v.items[0].s + v.items[1].s)
  {
    var a, b := At(v, 0), At(v, 1);
    if a.Num? && b.Num? then Num(a.n + b.n)
    else if a.Str? && b.Str? then Str(a.s + b.s)
    else Undefined
  }

  /** The reduction step of `plus`. */
  function PlusStep(soFar: Parser, current: Parser): Parser {
    Apply(Add, Seq(soFar, current))
  }

  /** `plus(p1, …, pn)`; `None` for the TypeError of a call with no parser. */
  function Plus(ps: seq<Parser>): (r: Option<Parser>)
    ensures r.None? <==> ps == []
    ensures |ps| == 1 ==> r == Some(ps[0])
  {
    if ps == [] then None else Some(FoldLeft(PlusStep, ps[0], ps[1..]))
  }

  lemma PlusSnoc(ps: seq<Parser>, q: Parser)
    requires ps != []
    ensures Plus(ps + [q]) == Some(PlusStep(Plus(ps).value, q))
  {
    assert (ps + [q])[1..] == ps[1..] + [q];
    FoldLeftSnoc(PlusStep, ps[0], ps[1..], q);
  }

  lemma PlusFails(ps: seq<Parser>, k: nat)
    requires k < |ps| && AlwaysFails(ps[k])
    ensures AlwaysFails(Plus(ps).value)
  {
    forall p, q | AlwaysFails(p) || AlwaysFails(q) ensures AlwaysFails(PlusStep(p, q)) {
      SeqPreservesFailure(p, q, Add);
    }
    if k > 0 {
      assert AlwaysFails(ps[1..][k - 1]);
    }
    FoldLeftFails(PlusStep, ps[0], ps[1..]);
  }

  /**
   * `plus` of two parsers that each succeed once, the second where the first leaves off, succeeds
   * once with the sum of their values.
   */
  lemma PlusStepOfSingletons(p: Parser, q: Parser, x: seq<Val>, y: seq<Val>, z: seq<Val>, a: Val, b: Val)
    requires p(x) == [ParseResult(y, a)] && q(y) == [ParseResult(z, b)]
    ensures PlusStep(p, q)(x) == [ParseResult(z, Add(Pair(a, b)))]
  {
    var rs := SeqResults(p(x), q);
    assert rs == Pairs(ParseResult(y, a), q(y)) + SeqResults(p(x)[1..], q);
    assert rs == [ParseResult(z, Pair(a, b))];
  }

  /** The same for `concatSeq`: one result, holding the concatenation of the two values. */
  lemma ConcatSeqOfSingletons(p: Parser, q: Parser, x: seq<Val>, y: seq<Val>, z: seq<Val>, a: Val, b: Val)
    requires p(x) == [ParseResult(y, a)] && q(y) == [ParseResult(z, b)]
    ensures ConcatSeq(p, q)(x) == [ParseResult(z, Concat(Pair(a, b)))]
  {
    var rs := SeqResults(p(x), q);
    assert rs == Pairs(ParseResult(y, a), q(y)) + SeqResults(p(x)[1..], q);
    assert rs == [ParseResult(z, Pair(a, b))];
  }

  /**
   * `plus(p1, …, pn)` where each `pi` succeeds once with a string, starting where the one before
   * it left off (`inputs[i]` is what `pi` sees and `inputs[i + 1]` what it leaves), succeeds once:
   * it leaves what `pn` leaves and holds the strings joined in order.
   */
  lemma {:induction false} PlusOfStrings(ps: seq<Parser>, strs: seq<string>, inputs: seq<seq<Val>>)
    requires |ps| == |strs| > 0 && |inputs| == |ps| + 1
    requires forall i :: 0 <= i < |ps| ==> ps[i](inputs[i]) == [ParseResult(inputs[i + 1], Str(strs[i]))]
    ensures Plus(ps).value(inputs[0]) == [ParseResult(inputs[|ps|], Str(Joined(strs)))]
    decreases |ps|
  {
    var n := |ps| - 1;
    if n == 0 {
      assert strs[..0] == [];
      assert Joined(strs) == strs[0];
    } else {
      var init := ps[..n];
      assert ps == init + [ps[n]];
      PlusSnoc(init, ps[n]);
      PlusOfStrings(init, strs[..n], inputs[..n + 1]);
      PlusStepOfSingletons(Plus(init).value, ps[n], inputs[0], inputs[n], inputs[n + 1],
                           Str(Joined(strs[..n])), Str(strs[n]));
      assert Joined(strs) == Joined(strs[..n]) + strs[n];
    }
  }

  /** The strings of `strs` concatenated, in order. */
  function Joined(strs: seq<string>): string
    decreases |strs|
  {
    if strs == [] then "" else Joined(strs[..|strs| - 1]) + strs[|strs| - 1]
  }

  /** The test cases: `'a' + 'b' + 'd'` is `'abd'`, and `2 + 3` is `5`. */
  lemma PlusExamples(input: seq<Val>)
    ensures Plus([Succeed(Str("a")), Succeed(Str("b")), Succeed(Str("d"))]).value(input) == [ParseResult(input, Str("abd"))]
    ensures Plus([Succeed(Num(2)), Succeed(Num(3))]).value(input) == [ParseResult(input, Num(5))]
  {
    var strs := ["a", "b", "d"];
    PlusOfStrings([Succeed(Str("a")), Succeed(Str("b")), Succeed(Str("d"))], strs, [input, input, input, input]);
    assert Joined(strs) == "abd" by {
      assert strs[..2][..1] == ["a"];
      assert strs[..2] == ["a", "b"];
      assert Joined(["a"]) == "a";
    }
    assert [Succeed(Num(2)), Succeed(Num(3))] == [Succeed(Num(2))] + [Succeed(Num(3))];
    PlusSnoc([Succeed(Num(2))], Succeed(Num(3)));
    PlusStepOfSingletons(Succeed(Num(2)), Succeed(Num(3)), input, input, input, Num(2), Num(3));
  }

  /** `plus` of two parsers is one `plus` step. */
  lemma PlusOfTwo(a: Parser, b: Parser)
    ensures Plus([a, b]) == Some(PlusStep(a, b))
  {
    assert [a, b] == [a] + [b];
    PlusSnoc([a], b);
  }

  /** `symbol(x)` on an input starting with `x` consumes that element. */
  lemma SymbolOnCons(x: Val, tail: seq<Val>)
    ensures Symbol(x)([x] + tail) == [ParseResult(tail, x)]
  {
    assert ([x] + tail)[1..] == tail;
  }

  /** The step `plus` takes for `symbol(x), symbol(y)` consumes `x` then `y` and holds `x + y`. */
  lemma PlusStepOfSymbols(x: Val, y: Val, rest: seq<Val>)
    ensures PlusStep(Symbol(x), Symbol(y))([x, y] + rest) == [ParseResult(rest, Add(Pair(x, y)))]
  {
    var tail := [y] + rest;
    assert [x, y] + rest == [x] + tail;
    SymbolOnCons(x, tail);
    SymbolOnCons(y, rest);
    PlusStepOfSingletons(Symbol(x), Symbol(y), [x] + tail, tail, rest, x, y);
  }

  /** `plus(symbol('a'), symbol('b'))` on `"ab"`: one complete parse, holding `'ab'`. */
  lemma PlusOfSymbolsExample(a: Val, b: Val)
    requires a == Str("a") && b == Str("b")
    ensures Plus([Symbol(a), Symbol(b)]).value(Text("ab")) == [ParseResult([], Str("ab"))]
  {
    assert Text("ab") == [a, b] + [] by {
      assert Text("ab")[0] == a && Text("ab")[1] == b;
    }
    assert Add(Pair(a, b)) == Str("ab");
    PlusOfTwo(Symbol(a), Symbol(b));
    PlusStepOfSymbols(a, b, []);
  }

  /** The test case: `sequence(succeed('a'), succeed('b'), succeed('c'))` yields `['a', 'b', 'c']`. */
  lemma SequenceExample(input: seq<Val>)
    ensures Sequence([Succeed(Str("a")), Succeed(Str("b")), Succeed(Str("c"))]).value(input) ==
      [ParseResult(input, Lst([Str("a"), Str("b"), Str("c")]))]
  {
    var a, b, c := Succeed(Str("a")), Succeed(Str("b")), Succeed(Str("c"));
    assert [a, b, c] == [a, b] + [c];
    SequenceSnoc([a, b], c);
    assert [a, b] == [a] + [b];
    SequenceSnoc([a], b);
    var ab := Sequence([a, b]).value;
    assert ab == ConcatSeq(a, b);
    ConcatSeqOfSingletons(a, b, input, input, input, Str("a"), Str("b"));
    assert Concat(Pair(Str("a"), Str("b"))) == Lst([Str("a"), Str("b")]);
    ConcatSeqOfSingletons(ab, c, input, input, input, Lst([Str("a"), Str("b")]), Str("c"));
    assert Concat(Pair(Lst([Str("a"), Str("b")]), Str("c"))) == Lst([Str("a"), Str("b"), Str("c")]);
    assert Sequence([a, b, c]).value == ConcatSeq(ab, c);
  }

  // ---------------------------------------------------------------------------------------------
  // Projections

  /** The `first` helper: `value[0]`. */
  function First(v: Val): Val {
    At(v, 0)
  }

  /** The `second` helper: `value[1]`. */
  function Second(v: Val): Val {
    At(v, 1)
  }

  function TakeFirstValueOfSeq(p1: Parser, p2: Parser): Parser {
    Apply(First, Seq(p1, p2))
  }

  function TakeSecondValueOfSeq(p1: Parser, p2: Parser): Parser {
    Apply(Second, Seq(p1, p2))
  }

  /**
   * The projections keep `seq`'s results one for one, with the same remaining input, and keep
   * the first or the second component of the pair as the value.
   */
  lemma TakeValueOfSeqAt(p1: Parser, p2: Parser, input: seq<Val>, n: nat)
    requires n < |Seq(p1, p2)(input)|
    ensures |TakeFirstValueOfSeq(p1, p2)(input)| == |Seq(p1, p2)(input)|
    ensures |TakeSecondValueOfSeq(p1, p2)(input)| == |Seq(p1, p2)(input)|
    ensures Seq(p1, p2)(input)[n].value == Pair(TakeFirstValueOfSeq(p1, p2)(input)[n].value,
                                                TakeSecondValueOfSeq(p1, p2)(input)[n].value)
    ensures TakeFirstValueOfSeq(p1, p2)(input)[n].remaining == Seq(p1, p2)(input)[n].remaining
    ensures TakeSecondValueOfSeq(p1, p2)(input)[n].remaining == Seq(p1, p2)(input)[n].remaining
  {
    SeqValuesArePairs(p1(input), p2);
    var v := Seq(p1, p2)(input)[n].value;
    assert v == Lst([v.items[0], v.items[1]]);
  }

  // ---------------------------------------------------------------------------------------------
  // The chaining methods that `Parser` attaches to every parser, as plain functions of `this`.

  function Or(receiver: Parser, p2: Parser): (r: Parser)
    ensures forall input :: r(input) == Alt(receiver, p2)(input)
  {
    Alt(receiver, p2)
  }

  function OrElse(receiver: Parser, p2: Parser): (r: Parser)
    ensures forall input :: r(input) == StrictAlt(receiver, p2)(input)
  {
    StrictAlt(receiver, p2)
  }

  function Then(receiver: Parser, p2: Parser): (r: Parser)
    ensures forall input :: r(input) == Seq(receiver, p2)(input)
  {
    Seq(receiver, p2)
  }

  function ThenConcat(receiver: Parser, p2: Parser): (r: Parser)
    ensures forall input :: r(input) == ConcatSeq(receiver, p2)(input)
  {
    ConcatSeq(receiver, p2)
  }

  function ThenAppend(receiver: Parser, p2: Parser): (r: Parser)
    ensures forall input :: r(input) == PlusStep(receiver, p2)(input)
  {
    assert [receiver, p2][1..] == [p2] && [p2][1..] == [];
    assert FoldLeft(PlusStep, receiver, [p2]) == FoldLeft(PlusStep, PlusStep(receiver, p2), []);
    Plus([receiver, p2]).value
  }

  function ThenDrop(receiver: Parser, p2: Parser): (r: Parser)
    ensures forall input :: r(input) == TakeFirstValueOfSeq(receiver, p2)(input)
  {
    TakeFirstValueOfSeq(receiver, p2)
  }

  function ThenReturn(receiver: Parser, p2: Parser): (r: Parser)
    ensures forall input :: r(input) == TakeSecondValueOfSeq(receiver, p2)(input)
  {
    TakeSecondValueOfSeq(receiver, p2)
  }
}
