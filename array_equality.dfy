/**
 * Deep array equality, `equalsArray` of Utilities.js. It lives in a module of its own because
 * ParseResult's `equals` is built on it while the rest of the utilities are built on ParseResult.
 */
module ArrayEquality {
  import opened Values

  /**
   * The meaning of `equalsArray(l, r)`: both are arrays of the same length whose elements agree
   * pairwise under ElementEquals.
   */
  predicate ArrayEquals(l: Val, r: Val)
    decreases l, 0
  {
    l.Lst? && r.Lst? && |l.items| == |r.items| &&
    forall k :: 0 <= k < |l.items| ==> ElementEquals(l.items[k], r.items[k])
  }

  /** How one element pair is compared: arrays recursively, anything else with `===`. */
  predicate ElementEquals(left: Val, right: Val)
    decreases left, 1
  {
    if left.Lst? then ArrayEquals(left, right) else StrictEquals(left, right)
  }

  /**
   * `equalsArray` as the source runs it: reject non-arrays and length mismatches, then walk the
   * elements and return false at the first pair that differs.
   */
  method EqualsArray(l: Val, r: Val) returns (equal: bool)
    ensures equal == ArrayEquals(l, r)
    decreases l
  {
    if !l.Lst? || !r.Lst? {
      return false;
    }
    if |l.items| != |r.items| {
      return false;
    }
    var i := 0;
    while i < |l.items|
      invariant 0 <= i <= |l.items|
      invariant forall k :: 0 <= k < i ==> ElementEquals(l.items[k], r.items[k])
    {
      var left := l.items[i];
      var right := r.items[i];
      var same;
      if left.Lst? {
        same := EqualsArray(left, right);
      } else {
        same := left == right;
      }
      if !same {
        return false;
      }
      i := i + 1;
    }
    return true;
  }

  /**
   * Deep equality coincides with structural equality of arrays: `equalsArray(l, r)` holds exactly
   * when `l` is an array and `r` is the same array value.
   */
  lemma {:induction false} ArrayEqualsIsEquality(l: Val, r: Val)
    ensures ArrayEquals(l, r) <==> l.Lst? && l == r
    decreases l, 0
  {
    if l.Lst? && r.Lst? && |l.items| == |r.items| {
      forall k | 0 <= k < |l.items|
        ensures ElementEquals(l.items[k], r.items[k]) <==> l.items[k] == r.items[k]
      {
        ElementEqualsIsEquality(l.items[k], r.items[k]);
      }
      if ArrayEquals(l, r) {
        assert l.items == r.items;
      }
    }
  }

  lemma {:induction false} ElementEqualsIsEquality(left: Val, right: Val)
    ensures ElementEquals(left, right) <==> left == right
    decreases left, 1
  {
    if left.Lst? {
      ArrayEqualsIsEquality(left, right);
    }
  }

  /** The cases that the library's tests tabulate. */
  lemma EqualsArrayExamples()
    ensures ArrayEquals(Lst([Num(1), Lst([Num(2), Num(3)])]), Lst([Num(1), Lst([Num(2), Num(3)])]))
    ensures ArrayEquals(Lst([]), Lst([]))
    ensures !ArrayEquals(Lst([Num(1), Num(2)]), Lst([Num(1), Num(2), Num(3)]))
    ensures !ArrayEquals(Lst([Num(1), Num(2)]), Lst([Num(3), Num(2)]))
    ensures !ArrayEquals(Lst([Num(1), Num(2), Lst([Num(3), Num(4)])]), Lst([Num(1), Num(2), Lst([Num(7), Num(8)])]))
    ensures !ArrayEquals(Num(1), Lst([Num(1)]))
    ensures !ArrayEquals(Lst([]), Str(""))
  {
    ArrayEqualsIsEquality(Lst([Num(1), Lst([Num(2), Num(3)])]), Lst([Num(1), Lst([Num(2), Num(3)])]));
    ArrayEqualsIsEquality(Lst([Num(1), Num(2), Lst([Num(3), Num(4)])]), Lst([Num(1), Num(2), Lst([Num(7), Num(8)])]));
    ArrayEqualsIsEquality(Lst([Num(1), Num(2)]), Lst([Num(3), Num(2)]));
  }
}
