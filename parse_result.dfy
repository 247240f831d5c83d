/** ParseResult.js: one successful parse branch, the unconsumed input and the value produced. */
module ParseResults {
  import opened Values
  import opened ArrayEquality

  datatype ParseResult = ParseResult(remaining: seq<Val>, value: Val) {

    /**
     * `this.equals(other)`: `remaining` is compared first, and `value` only when they agree.
     * Each field is compared as the receiver's field dictates: deeply when it is an array,
     * with `===` otherwise (ElementEquals). A remaining input is always a sequence; for a text
     * input the source compares the two strings with `===`, which is the same comparison.
     */
    predicate Equals(other: ParseResult) {
      ArrayEquals(Lst(remaining), Lst(other.remaining)) && ElementEquals(value, other.value)
    }

    /** `toString` for a text remaining and a string value. */
    function ToString(): (s: string)
      requires IsText(remaining) && value.Str?
      ensures |s| == 24 + |remaining| + |value.s|
      ensures s[..13] == "{ Remaining: "
      ensures s[13..13 + |remaining|] == TextOf(remaining)
      ensures s[13 + |remaining|..23 + |remaining|] == " | Value: "
      ensures s[23 + |remaining|..|s| - 1] == value.s
      ensures s[|s| - 1] == '}'
    {
      var r := TextOf(remaining);
      var pre := "{ Remaining: " + r + " | Value: ";
      assert |pre| == 23 + |r|;
      var s := pre + value.s + "}";
      assert s[..13] == pre[..13];
      assert s[13..13 + |r|] == pre[13..13 + |r|];
      assert s[13 + |r|..23 + |r|] == pre[13 + |r|..];
      assert s[23 + |r|..|s| - 1] == value.s;
      s
    }
  }

  /** The canonical factory: both fields are stored exactly as given. */
  function Make(remaining: seq<Val>, value: Val): (r: ParseResult)
    ensures r.remaining == remaining && r.value == value
    ensures r.Equals(ParseResult(remaining, value))
  {
    var r := ParseResult(remaining, value);
    EqualsIsEquality(r, r);
    r
  }

  /**
   * Structural equality: `a.equals(b)` holds exactly when both fields agree, so two records built
   * independently from the same fields are equal, and records that differ in `remaining`, in
   * `value` or in both are unequal, in either direction.
   */
  lemma EqualsIsEquality(a: ParseResult, b: ParseResult)
    ensures a.Equals(b) <==> a == b
    ensures a.Equals(b) <==> b.Equals(a)
  {
    ArrayEqualsIsEquality(Lst(a.remaining), Lst(b.remaining));
    ElementEqualsIsEquality(a.value, b.value);
    ArrayEqualsIsEquality(Lst(b.remaining), Lst(a.remaining));
    ElementEqualsIsEquality(b.value, a.value);
  }

  /** The test records of the library: arrays, strings and numbers as fields. */
  lemma EqualsExamples()
    ensures ParseResult(Text("a"), Lst([Str("a"), Str("b")])).Equals(ParseResult(Text("a"), Lst([Str("a"), Str("b")])))
    ensures ParseResult(Text("a"), Num(4)).Equals(ParseResult(Text("a"), Num(4)))
    ensures !ParseResult(Text("a"), Str("a")).Equals(ParseResult(Text("b"), Str("a")))
    ensures !ParseResult(Text("a"), Lst([Str("a")])).Equals(ParseResult(Text("a"), Str("a")))
    ensures !ParseResult(Text("a"), Str("a")).Equals(ParseResult(Text("a"), Lst([Str("a")])))
    ensures !ParseResult(Text("a"), Num(4)).Equals(ParseResult(Text("a"), Num(5)))
  {
    EqualsIsEquality(ParseResult(Text("a"), Lst([Str("a"), Str("b")])), ParseResult(Text("a"), Lst([Str("a"), Str("b")])));
    EqualsIsEquality(ParseResult(Text("a"), Num(4)), ParseResult(Text("a"), Num(4)));
    var a, b := Text("a"), Text("b");
    assert a[0] != b[0];
    EqualsIsEquality(ParseResult(a, Str("a")), ParseResult(b, Str("a")));
    EqualsIsEquality(ParseResult(a, Lst([Str("a")])), ParseResult(a, Str("a")));
    EqualsIsEquality(ParseResult(a, Num(4)), ParseResult(a, Num(5)));
  }

  /** The rendering the tests expect. */
  lemma ToStringExample()
    ensures ParseResult(Text("mozilla"), Str("gecko")).ToString() ==
            "{ Remaining: " + "mozilla" + " | Value: " + "gecko" + "}"
  {
    TextRoundTrip("mozilla");
  }
}
