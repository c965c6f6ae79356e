/** Failure-compatible optional values, used wherever the C++ code returns
    `std::optional` or a null `FlValue`. */
module Wrappers {

  datatype Option<+T> = None | Some(value: T) {

    predicate IsFailure() {
      None?
    }

    function PropagateFailure<U>(): Option<U>
      requires None?
    {
      None
    }

    function Extract(): T
      requires Some?
    {
      value
    }

    /** The value, or `default` when there is none. */
    function GetOr(default: T): T {
      match this
      case Some(v) => v
      case None => default
    }
  }

  /** How many entries are present; zero exactly when none is. */
  function SomeCount<T>(xs: seq<Option<T>>): (r: nat)
    ensures r <= |xs|
    ensures r == 0 <==> forall i :: 0 <= i < |xs| ==> xs[i].None?
  {
    if |xs| == 0 then 0
    else
      assert forall i :: 0 < i < |xs| ==> xs[i] == xs[1..][i - 1];
      (if xs[0].Some? then 1 else 0) + SomeCount(xs[1..])
  }

  /** The values of the present entries, in order. */
  function Somes<T>(xs: seq<Option<T>>): (r: seq<T>)
    ensures |r| == SomeCount(xs)
  {
    if |xs| == 0 then []
    else (match xs[0] case Some(v) => [v] case None => []) + Somes(xs[1..])
  }

  /** A present entry lands at the position given by the number of
      present entries before it. With the length this fixes the whole
      result. */
  lemma {:induction false} SomesPlaces<T>(xs: seq<Option<T>>, i: int)
    requires 0 <= i < |xs| && xs[i].Some?
    ensures SomeCount(xs[..i]) < |Somes(xs)|
    ensures Somes(xs)[SomeCount(xs[..i])] == xs[i].value
    decreases |xs|
  {
    if i > 0 {
      SomesPlaces(xs[1..], i - 1);
      var before := xs[..i];
      assert before[0] == xs[0] && before[1..] == xs[1..][..i - 1];
    }
  }

  /** When every entry is present, nothing is dropped. */
  lemma {:induction false} SomesAll<T>(xs: seq<Option<T>>)
    requires forall i :: 0 <= i < |xs| ==> xs[i].Some?
    ensures |Somes(xs)| == |xs|
    ensures forall i :: 0 <= i < |xs| ==> Somes(xs)[i] == xs[i].value
    decreases |xs|
  {
    if |xs| > 0 {
      var rest := xs[1..];
      assert forall i :: 0 <= i < |rest| ==> rest[i] == xs[i + 1];
      SomesAll(rest);
      assert Somes(xs) == [xs[0].value] + Somes(rest);
    }
  }
}
