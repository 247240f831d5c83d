/**
 * Interpreting what a parser returned: whether some parse consumed the whole input, whether a
 * given result is among the results, and the value of a complete parse.
 */
module Utilities {
  import opened Wrappers
  import opened Values
  import opened ParseResults
  import opened ParserCombinators

  /** A result is complete when nothing of the input is left over. */
  predicate Complete(r: ParseResult) {
    |r.remaining| == 0
  }

  /** `hasCompleteParse`: some result, anywhere in the list, is complete. */
  function HasCompleteParse(results: seq<ParseResult>): (b: bool)
    ensures b <==> exists k :: 0 <= k < |results| && Complete(results[k])
    ensures results == [] ==> !b
    decreases |results|
  {
    if results == [] then false
    else if Complete(results[0]) then true
    else
      var rest := HasCompleteParse(results[1..]);
      assert forall k :: 1 <= k < |results| ==> results[k] == results[1..][k - 1];
      rest
  }

  /** `accepts`: the parser has a parse of `input` that consumes all of it. */
  function Accepts(parser: Parser, input: seq<Val>): (b: bool)
    ensures b <==> exists k :: 0 <= k < |parser(input)| && Complete(parser(input)[k])
  {
    HasCompleteParse(parser(input))
  }

  /** `containsResult`: some element of `results` equals `needle` under `ParseResult.equals`. */
  function ContainsResult(needle: ParseResult, results: seq<ParseResult>): (b: bool)
    ensures b <==> exists k :: 0 <= k < |results| && results[k].Equals(needle)
    ensures results == [] ==> !b
    decreases |results|
  {
    if results == [] then false
    else if results[0].Equals(needle) then true
    else
      var rest := ContainsResult(needle, results[1..]);
      assert forall k :: 1 <= k < |results| ==> results[k] == results[1..][k - 1];
      rest
  }

  /** Because `equals` is structural, `containsResult` is list membership. */
  lemma ContainsResultIsMembership(needle: ParseResult, results: seq<ParseResult>)
    ensures ContainsResult(needle, results) <==> needle in results
  {
    forall k | 0 <= k < |results|
      ensures results[k].Equals(needle) <==> results[k] == needle
    {
      EqualsIsEquality(results[k], needle);
    }
  }

  /** A choice has a complete parse exactly when one of its alternatives has. */
  lemma AcceptsAlt(p1: Parser, p2: Parser, input: seq<Val>)
    ensures Accepts(Alt(p1, p2), input) <==> Accepts(p1, input) || Accepts(p2, input)
  {
    var r1 := p1(input);
    var r2 := p2(input);
    assert Alt(p1, p2)(input) == r1 + r2;
    if Accepts(p1, input) {
      var k :| 0 <= k < |r1| && Complete(r1[k]);
      assert (r1 + r2)[k] == r1[k];
    }
    if Accepts(p2, input) {
      var k :| 0 <= k < |r2| && Complete(r2[k]);
      assert (r1 + r2)[|r1| + k] == r2[k];
    }
    if Accepts(Alt(p1, p2), input) {
      var k :| 0 <= k < |r1 + r2| && Complete((r1 + r2)[k]);
      if k < |r1| {
        assert r1[k] == (r1 + r2)[k];
      } else {
        assert r2[k - |r1|] == (r1 + r2)[k];
      }
    }
  }

  /** Committing to the first alternative that succeeds can only lose complete parses. */
  lemma AcceptsStrictAlt(p1: Parser, p2: Parser, input: seq<Val>)
    ensures Accepts(StrictAlt(p1, p2), input) ==> Accepts(Alt(p1, p2), input)
    ensures p1(input) == [] ==> (Accepts(StrictAlt(p1, p2), input) <==> Accepts(p2, input))
  {
    AcceptsAlt(p1, p2, input);
  }

  /** `succeed` accepts only the empty input; `fail` accepts nothing. */
  lemma AcceptsSucceedAndFail(v: Val, input: seq<Val>)
    ensures Accepts(Succeed(v), input) <==> input == []
    ensures !Accepts(Fail, input)
  {
  }

  /** `symbol('a')` accepts `"a"` but neither `"ab"` nor the empty input. */
  lemma AcceptsExamples()
    ensures Accepts(Symbol(Str("a")), Text("a"))
    ensures !Accepts(Symbol(Str("a")), Text("ab"))
    ensures !Accepts(Symbol(Str("a")), [])
  {
  }

  /**
   * The result `getFinalValue` ends up holding: the flag loop visits every element (its callback
   * never asks `some` to stop), so the last complete result wins. `None` when there is none.
   */
  function LastComplete(results: seq<ParseResult>): (o: Option<ParseResult>)
    ensures o.None? <==> !HasCompleteParse(results)
    ensures o.Some? ==>
              exists k :: 0 <= k < |results| && results[k] == o.value && Complete(results[k]) &&
                forall j :: k < j < |results| ==> !Complete(results[j])
    decreases |results|
  {
    if results == [] then None
    else if Complete(results[|results| - 1]) then Some(results[|results| - 1])
    else
      var front := results[..|results| - 1];
      var o := LastComplete(front);
      assert forall k :: 0 <= k < |front| ==> front[k] == results[k];
      o
  }

  const NoResult := "No result - parse incomplete/failed!"

  /** `getFinalValue` as written: the error when no result is complete, else the last complete value. */
  function FinalValue(results: seq<ParseResult>): (r: Result<Val>)
    ensures r.Failure? <==> !HasCompleteParse(results)
    ensures r.Failure? ==> r.error == NoResult
    ensures r.Ok? ==>
              exists k :: 0 <= k < |results| && Complete(results[k]) && results[k].value == r.value &&
                forall j :: k < j < |results| ==> !Complete(results[j])
  {
    match LastComplete(results)
    case None => Failure(NoResult)
    case Some(last) => Ok(last.value)
  }

  /**
   * The loop of `getFinalValue`: `resultFound` and `finalResult` are updated at every complete
   * result, and the thrown error becomes `Failure`.
   */
  method GetFinalValue(results: seq<ParseResult>) returns (r: Result<Val>)
    ensures r == FinalValue(results)
  {
    var resultFound := false;
    var finalResult: Option<ParseResult> := None;
    var i := 0;
    while i < |results|
      invariant 0 <= i <= |results|
      invariant finalResult == LastComplete(results[..i])
      invariant resultFound <==> finalResult.Some?
    {
      var result := results[i];
      if |result.remaining| == 0 {
        resultFound := true;
        finalResult := Some(result);
      }
      assert results[..i + 1][..i] == results[..i];
      i := i + 1;
    }
    assert results[..i] == results;
    if !resultFound {
      return Failure(NoResult);
    }
    return Ok(finalResult.value.value);
  }

  /** The first complete result, for the early-exit loop the comment in `getFinalValue` describes. */
  function FirstComplete(results: seq<ParseResult>): (o: Option<ParseResult>)
    ensures o.None? <==> !HasCompleteParse(results)
    ensures o.Some? ==>
              exists k :: 0 <= k < |results| && results[k] == o.value && Complete(results[k]) &&
                forall j :: 0 <= j < k ==> !Complete(results[j])
    decreases |results|
  {
    if results == [] then None
    else if Complete(results[0]) then Some(results[0])
    else
      var o := FirstComplete(results[1..]);
      assert forall k :: 1 <= k < |results| ==> results[k] == results[1..][k - 1];
      o
  }

  /** `getFinalValue` as its comment intends: stop at the first complete result. */
  function FirstFinalValue(results: seq<ParseResult>): (r: Result<Val>)
    ensures r.Failure? <==> !HasCompleteParse(results)
    ensures r.Failure? ==> r.error == NoResult
    ensures r.Ok? ==>
              exists k :: 0 <= k < |results| && Complete(results[k]) && results[k].value == r.value &&
                forall j :: 0 <= j < k ==> !Complete(results[j])
  {
    match FirstComplete(results)
    case None => Failure(NoResult)
    case Some(first) => Ok(first.value)
  }

  /** The intended loop: leave as soon as a complete result is seen. */
  method GetFirstFinalValue(results: seq<ParseResult>) returns (r: Result<Val>)
    ensures r == FirstFinalValue(results)
  {
    var i := 0;
    while i < |results|
      invariant 0 <= i <= |results|
      invariant forall j :: 0 <= j < i ==> !Complete(results[j])
    {
      if |results[i].remaining| == 0 {
        FirstCompleteAt(results, i);
        return Ok(results[i].value);
      }
      i := i + 1;
    }
    return Failure(NoResult);
  }

  /** The first complete result is the one at the first index where a complete result occurs. */
  lemma {:induction false} FirstCompleteAt(results: seq<ParseResult>, i: nat)
    requires i < |results| && Complete(results[i])
    requires forall j :: 0 <= j < i ==> !Complete(results[j])
    ensures FirstComplete(results) == Some(results[i])
    decreases i
  {
    if i > 0 {
      assert forall j :: 0 <= j < i - 1 ==> results[1..][j] == results[j + 1];
      FirstCompleteAt(results[1..], i - 1);
    }
  }

  /** Both readings agree whenever all complete results carry the same value, e.g. when there is one. */
  lemma FinalValuesAgree(results: seq<ParseResult>)
    requires forall j, k ::
               0 <= j < |results| && 0 <= k < |results| && Complete(results[j]) && Complete(results[k])
               ==> results[j].value == results[k].value
    ensures FinalValue(results) == FirstFinalValue(results)
  {
  }

  /** Two complete results: as written the second one's value is returned, as intended the first's. */
  lemma FinalValueFinding()
    ensures FinalValue([ParseResult([], Str("x")), ParseResult([], Str("y"))]) == Ok(Str("y"))
    ensures FirstFinalValue([ParseResult([], Str("x")), ParseResult([], Str("y"))]) == Ok(Str("x"))
  {
  }

  /** `getFinalValue([])` fails; on `[("a", "b"), ("", "c")]` it returns `"c"`. */
  lemma FinalValueExamples()
    ensures FinalValue([]) == Failure(NoResult)
    ensures FinalValue([ParseResult(Text("a"), Str("b")), ParseResult([], Str("c"))]) == Ok(Str("c"))
  {
  }

  /** A parser's results have a final value exactly when it accepts the input. */
  lemma FinalValueIffAccepts(parser: Parser, input: seq<Val>)
    ensures FinalValue(parser(input)).Ok? <==> Accepts(parser, input)
    ensures FirstFinalValue(parser(input)).Ok? <==> Accepts(parser, input)
  {
  }
}
