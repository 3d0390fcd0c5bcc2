/** Failure-carrying datatypes shared by the whole model. */
module Results {

  /** What `d.get(key)` returns: the stored value, or `None` when the key is absent. Also the
      outcome of a conversion that can fail without saying why. */
  datatype Option<+T> = None | Some(value: T) {

    /** `d.get(key, default)`: the stored value, falling back to `default`. */
    function ValueOr(default: T): (r: T) {
      if Some? then value else default
    }
  }

  /** The outcome of an operation that can raise: either a value or the exception it raised. */
  datatype Result<+R, +E> = Success(value: R) | Failure(error: E)

  /** Apply `f` to every element in order, stopping at the first failure: a loop over a
      list whose body may raise. */
  function MapAll<A, B, E>(xs: seq<A>, f: A -> Result<B, E>): (r: Result<seq<B>, E>)
    ensures r.Success? <==> forall i :: 0 <= i < |xs| ==> f(xs[i]).Success?
    ensures r.Success? ==> |r.value| == |xs|
    ensures r.Success? ==> forall i :: 0 <= i < |xs| ==> f(xs[i]).Success? && f(xs[i]).value == r.value[i]
  {
    if |xs| == 0 then Success([])
    else
      match f(xs[0])
      case Failure(e) => Failure(e)
      case Success(y) =>
        match MapAll(xs[1..], f)
        case Failure(e) => Failure(e)
        case Success(ys) =>
          assert forall i :: 1 <= i < |xs| ==> xs[i] == xs[1..][i - 1];
          Success([y] + ys)
  }

  /** A failure of the whole loop is the failure of its first failing element. */
  lemma {:induction false} MapAllFirstError<A, B, E>(xs: seq<A>, f: A -> Result<B, E>) returns (i: nat)
    requires MapAll(xs, f).Failure?
    ensures i < |xs|
    ensures f(xs[i]) == Failure(MapAll(xs, f).error)
    ensures forall j :: 0 <= j < i ==> f(xs[j]).Success?
  {
    if f(xs[0]).Failure? {
      i := 0;
    } else {
      var k := MapAllFirstError(xs[1..], f);
      i := k + 1;
      assert forall j :: 1 <= j < i ==> xs[j] == xs[1..][j - 1];
    }
  }
}
