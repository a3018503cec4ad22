/** Failure-carrying datatypes shared by both decoders, and small sequence helpers. */
module Wrappers {

  /** A possibly absent value: the model's stand-in for a JVM `null` reference. */
  datatype Option<+T> = None | Some(value: T)

  /** The outcome of an operation that the source either completes or ends with an exception. */
  datatype Result<+T, +E> = Ok(value: T) | Err(error: E)
}

module Lists {

  /** The last element of a non-empty sequence. */
  function Last<T>(s: seq<T>): T
    requires |s| > 0
  {
    s[|s| - 1]
  }

  /** No element occurs twice. */
  predicate Distinct<T(==)>(s: seq<T>) {
    forall i, j :: 0 <= i < j < |s| ==> s[i] != s[j]
  }

  /** `java.util.List.indexOf`: the first position holding `x`, or -1. */
  function IndexOf<T(==)>(s: seq<T>, x: T): (i: int)
    ensures -1 <= i < |s|
    ensures i == -1 <==> x !in s
    ensures 0 <= i ==> s[i] == x && forall j :: 0 <= j < i ==> s[j] != x
  {
    if |s| == 0 then -1
    else if s[0] == x then 0
    else
      var k := IndexOf(s[1..], x);
      assert s == [s[0]] + s[1..];
      if k == -1 then -1 else k + 1
  }

  /** In a list without repetitions, the first position of an element is its only position. */
  lemma IndexOfDistinct<T>(s: seq<T>, i: int)
    requires Distinct(s)
    requires 0 <= i < |s|
    ensures IndexOf(s, s[i]) == i
  {
  }
}
