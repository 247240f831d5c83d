/**
 * The JavaScript values the combinators handle. Inputs are sequences of such values: a text
 * input is the sequence of its characters, each a one-character string, and a token input is
 * the sequence of its tokens.
 */
module Values {

  datatype Val =
    | Undefined
    | Null
    | Bool(b: bool)
    | Num(n: int)
    | Str(s: string)
    | Obj(id: nat)         // an object compared by identity; `id` stands for the reference
    | Lst(items: seq<Val>) // a JavaScript array

  /** The two-element array that `seq` builds from the values of its two parses. */
  function Pair(a: Val, b: Val): Val {
    Lst([a, b])
  }

  /** Element access `v[i]`: array elements and string characters; `undefined` otherwise. */
  function At(v: Val, i: nat): (r: Val)
    ensures v.Lst? && i < |v.items| ==> r == v.items[i]
    ensures v.Str? && i < |v.s| ==> r == Str([v.s[i]])
    ensures !(v.Lst? && i < |v.items|) && !(v.Str? && i < |v.s|) ==> r == Undefined
  {
    match v
    case Lst(xs) => if i < |xs| then xs[i] else Undefined
    case Str(s) => if i < |s| then Str([s[i]]) else Undefined
    case _ => Undefined
  }

  /**
   * `a === b`. The library applies `===` only when `a` is not an array (array operands go to
   * deep comparison), and there it is value equality on primitives and identity on objects.
   */
  predicate StrictEquals(a: Val, b: Val) {
    a == b
  }

  /** The text realisation of an input: one single-character string per character. */
  function Text(s: string): (xs: seq<Val>)
    ensures |xs| == |s|
    ensures forall k :: 0 <= k < |s| ==> xs[k] == Str([s[k]])
  {
    if s == [] then [] else [Str([s[0]])] + Text(s[1..])
  }

  /** An input that is a text: every element is a one-character string. */
  predicate IsText(xs: seq<Val>) {
    forall k :: 0 <= k < |xs| ==> xs[k].Str? && |xs[k].s| == 1
  }

  /** The string a text input stands for. */
  function TextOf(xs: seq<Val>): (s: string)
    requires IsText(xs)
    ensures |s| == |xs|
    ensures forall k :: 0 <= k < |xs| ==> s[k] == xs[k].s[0]
  {
    if xs == [] then "" else xs[0].s + TextOf(xs[1..])
  }

  /** Reading a text back recovers the string it was built from, and conversely. */
  lemma {:induction false} TextRoundTrip(s: string)
    ensures IsText(Text(s)) && TextOf(Text(s)) == s
  {
    var xs := Text(s);
    assert IsText(xs);
    var t := TextOf(xs);
    assert forall k :: 0 <= k < |s| ==> t[k] == s[k];
  }

  lemma {:induction false} TextOfRoundTrip(xs: seq<Val>)
    requires IsText(xs)
    ensures Text(TextOf(xs)) == xs
  {
    var ys := Text(TextOf(xs));
    forall k | 0 <= k < |xs| ensures ys[k] == xs[k] {
      assert xs[k].s == [xs[k].s[0]];
    }
  }
}
