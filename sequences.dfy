/**
 * The two loop shapes the directive code is made of: a loop that maps every
 * element to one output element, and a loop that does the same but returns
 * the first error it meets and stops there.
 */
module Sequences {
  import opened Wrappers

  /** One output per input, in input order. */
  function MapSeq<A, B>(xs: seq<A>, f: A -> B): (r: seq<B>)
    ensures |r| == |xs|
    ensures forall i :: 0 <= i < |xs| ==> r[i] == f(xs[i])
  {
    if xs == [] then [] else [f(xs[0])] + MapSeq(xs[1..], f)
  }

  /** Applies `f` to each element in order; the first error aborts the whole run. */
  function MapAll<A, B, E>(xs: seq<A>, f: A -> Result<B, E>): Result<seq<B>, E>
  {
    if xs == [] then Ok([])
    else match f(xs[0])
      case Err(e) => Err(e)
      case Ok(b) =>
        match MapAll(xs[1..], f)
        case Err(e) => Err(e)
        case Ok(bs) => Ok([b] + bs)
  }

  /** MapAll succeeds exactly when every element succeeds, and then yields every element's value in order. */
  lemma {:induction false} MapAllOk<A, B, E>(xs: seq<A>, f: A -> Result<B, E>)
    ensures MapAll(xs, f).Ok? <==> forall i :: 0 <= i < |xs| ==> f(xs[i]).Ok?
    ensures MapAll(xs, f).Ok? ==>
      |MapAll(xs, f).value| == |xs| &&
      forall i :: 0 <= i < |xs| ==> MapAll(xs, f).value[i] == f(xs[i]).value
  {
    if xs != [] {
      MapAllOk(xs[1..], f);
      assert forall i :: 1 <= i < |xs| ==> xs[i] == xs[1..][i - 1];
    }
  }

  /** When the elements before `i` succeed and element `i` fails, MapAll returns element `i`'s error. */
  lemma {:induction false} MapAllFirstErr<A, B, E>(xs: seq<A>, f: A -> Result<B, E>, i: nat)
    requires i < |xs|
    requires forall k :: 0 <= k < i ==> f(xs[k]).Ok?
    requires f(xs[i]).Err?
    ensures MapAll(xs, f) == Err(f(xs[i]).error)
  {
    if i > 0 {
      assert forall k :: 0 <= k < i - 1 ==> xs[1..][k] == xs[k + 1];
      MapAllFirstErr(xs[1..], f, i - 1);
    }
  }

  /** A failing MapAll returns the error of its first failing element. */
  lemma {:induction false} MapAllErr<A, B, E>(xs: seq<A>, f: A -> Result<B, E>)
    requires MapAll(xs, f).Err?
    ensures exists i :: 0 <= i < |xs| && f(xs[i]) == Err(MapAll(xs, f).error) &&
                        forall k :: 0 <= k < i ==> f(xs[k]).Ok?
  {
    if f(xs[0]).Err? {
      assert f(xs[0]) == Err(MapAll(xs, f).error);
    } else {
      MapAllErr(xs[1..], f);
      var j :| 0 <= j < |xs[1..]| && f(xs[1..][j]) == Err(MapAll(xs[1..], f).error) &&
               forall k :: 0 <= k < j ==> f(xs[1..][k]).Ok?;
      assert f(xs[j + 1]) == Err(MapAll(xs, f).error);
      assert forall k :: 1 <= k < j + 1 ==> xs[k] == xs[1..][k - 1];
    }
  }
}
