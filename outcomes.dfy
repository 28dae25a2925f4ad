/** The two ways the scripts' results and failures are returned in this model. */
module Outcomes {

  /** A value that may be absent (Python's `None`, a `-1` from `find`, a regex that did not match). */
  datatype Option<+T> = None | Some(value: T)

  /** A value, or the error that stopped the computation (a Python exception, an exit). */
  datatype Result<+T, +E> = Ok(value: T) | Err(error: E)

  /** The present values, in order: a list comprehension with an `if` filter. */
  function Somes<T>(xs: seq<Option<T>>): (r: seq<T>)
    ensures |r| <= |xs|
  {
    if xs == [] then []
    else if xs[|xs| - 1].Some? then Somes(xs[..|xs| - 1]) + [xs[|xs| - 1].value]
    else Somes(xs[..|xs| - 1])
  }

  /** A value is kept exactly when some element holds it. */
  lemma {:induction false} SomesIff<T>(xs: seq<Option<T>>, x: T)
    ensures x in Somes(xs) <==> Some(x) in xs
    decreases |xs|
  {
    if xs != [] {
      var front := xs[..|xs| - 1];
      SomesIff(front, x);
      assert xs == front + [xs[|xs| - 1]];
    }
  }

  /** One more element adds its value, if it has one, at the end. */
  lemma SomesSnoc<T>(xs: seq<Option<T>>, x: Option<T>)
    ensures Somes(xs + [x]) == Somes(xs) + (if x.Some? then [x.value] else [])
  {
    assert (xs + [x])[..|xs|] == xs;
  }

  /** All the values, when every element has one: a loop that stops at the first missing value. */
  function AllSome<T>(xs: seq<Option<T>>): (r: Option<seq<T>>)
    ensures r.Some? ==> |r.value| == |xs|
  {
    if xs == [] then Some([])
    else
      match AllSome(xs[..|xs| - 1])
      case None => None
      case Some(vs) => if xs[|xs| - 1].Some? then Some(vs + [xs[|xs| - 1].value]) else None
  }

  /** The values come out exactly when every element has one, one per element and in order. */
  lemma {:induction false} AllSomeIff<T>(xs: seq<Option<T>>)
    ensures AllSome(xs).Some? <==> forall k :: 0 <= k < |xs| ==> xs[k].Some?
    ensures AllSome(xs).Some? ==> |AllSome(xs).value| == |xs| && forall k :: 0 <= k < |xs| ==> xs[k] == Some(AllSome(xs).value[k])
    decreases |xs|
  {
    if xs != [] {
      var front := xs[..|xs| - 1];
      AllSomeIff(front);
      assert forall k :: 0 <= k < |front| ==> front[k] == xs[k];
    }
  }

  lemma AllSomeSnoc<T>(xs: seq<Option<T>>, x: Option<T>)
    ensures AllSome(xs + [x]) == if AllSome(xs).Some? && x.Some? then Some(AllSome(xs).value + [x.value]) else None
  {
    assert (xs + [x])[..|xs|] == xs;
  }

  lemma WholePrefix<T>(xs: seq<T>)
    ensures xs[..|xs|] == xs
  {
  }

  lemma PrefixSnoc<T>(xs: seq<T>, i: nat)
    requires i < |xs|
    ensures xs[..i + 1] == xs[..i] + [xs[i]]
  {
  }

  /** A missing value in a prefix leaves out every value. */
  lemma {:induction false} NoneStays<T>(xs: seq<Option<T>>, i: nat)
    requires i <= |xs| && AllSome(xs[..i]).None?
    ensures AllSome(xs).None?
  {
    AllSomeIff(xs[..i]);
    AllSomeIff(xs);
    var k :| 0 <= k < i && xs[..i][k].None?;
    assert xs[k].None?;
  }

  /** One more step of a loop collecting values: a value extends the collected ones, a missing one ends with none. */
  lemma AllSomeStep<T>(xs: seq<Option<T>>, i: nat, vs: seq<T>)
    requires i < |xs| && AllSome(xs[..i]) == Some(vs)
    ensures xs[i].Some? ==> AllSome(xs[..i + 1]) == Some(vs + [xs[i].value])
    ensures xs[i].None? ==> AllSome(xs).None?
  {
    PrefixSnoc(xs, i);
    AllSomeSnoc(xs[..i], xs[i]);
    if xs[i].None? {
      NoneStays(xs, i + 1);
    }
  }
}
