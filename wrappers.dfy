/** The outcome of an operation of the pipeline. Every exception the stages
    raise (a failed assertion, a value error, a missing tuple element, a
    failed pattern match) is the one outcome `Fail`. */
module Wrappers {

  datatype Result<+T> = Ok(value: T) | Fail {

    predicate IsFailure() {
      Fail?
    }

    function PropagateFailure<U>(): Result<U>
      requires Fail?
    {
      Fail
    }

    function Extract(): T
      requires Ok?
    {
      value
    }
  }

  datatype Option<+T> = None | Some(value: T)

  /** f applied to every element, in order; the first failure fails it. */
  function MapAll<A, B>(f: A -> Result<B>, xs: seq<A>): (r: Result<seq<B>>)
    ensures r.Ok? <==> forall i :: 0 <= i < |xs| ==> f(xs[i]).Ok?
    ensures r.Ok? ==> |r.value| == |xs| && forall i :: 0 <= i < |xs| ==> f(xs[i]) == Ok(r.value[i])
  {
    if xs == [] then Ok([])
    else
      var before :- MapAll(f, xs[..|xs| - 1]);
      var y :- f(xs[|xs| - 1]);
      Ok(before + [y])
  }

  /** MapAll takes one more element by one application of f. */
  lemma MapAllStep<A, B>(f: A -> Result<B>, xs: seq<A>, i: int)
    requires 0 <= i < |xs| && MapAll(f, xs[..i]).Ok?
    ensures MapAll(f, xs[..i + 1]) == match f(xs[i])
                                      case Fail => Fail
                                      case Ok(y) => Ok(MapAll(f, xs[..i]).value + [y])
  {
    assert xs[..i + 1][..i] == xs[..i];
  }

  /** Mapping the prefix as long as the sequence maps the whole sequence. */
  lemma MapAllWhole<A, B>(f: A -> Result<B>, xs: seq<A>, ys: seq<B>)
    requires MapAll(f, xs[..|xs|]) == Ok(ys)
    ensures MapAll(f, xs) == Ok(ys)
  {
    assert xs[..|xs|] == xs;
  }

  /** Mapping a prefix gives a prefix of the mapped sequence. */
  lemma MapAllPrefix<A, B>(f: A -> Result<B>, xs: seq<A>, n: int)
    requires 0 <= n <= |xs| && MapAll(f, xs[..n]).Ok? && MapAll(f, xs).Ok?
    ensures MapAll(f, xs).value[..n] == MapAll(f, xs[..n]).value
  {
    var all, pre := MapAll(f, xs).value, MapAll(f, xs[..n]).value;
    forall i | 0 <= i < n
      ensures all[i] == pre[i]
    {
      assert xs[..n][i] == xs[i];
    }
  }
}
