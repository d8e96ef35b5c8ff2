/** Failure-compatible wrappers used by every caption module: an optional
    value, and a result that is either a value or the error the Python
    code would have raised at that point. */
module Results {

  datatype Option<+T> = None | Some(value: T) {

    predicate IsFailure() {
      None?
    }

    function PropagateFailure<U>(): Option<U>
      requires None?
    {
      None
    }

    function Extract(): T
      requires Some?
    {
      value
    }

    /** Turns a missing value into the given error. */
    function OrFail<E>(error: E): Result<T, E>
    {
      match this
      case Some(v) => Success(v)
      case None => Failure(error)
    }
  }

  datatype Result<+T, +E> = Success(value: T) | Failure(error: E) {

    predicate IsFailure() {
      Failure?
    }

    function PropagateFailure<U>(): Result<U, E>
      requires Failure?
    {
      Failure(error)
    }

    function Extract(): T
      requires Success?
    {
      value
    }
  }

  /** The values of a run of steps taken in order, or the error of the
      first step that fails: what a loop that appends each step's value
      and stops at the first exception produces. */
  function Collect<T, E>(rs: seq<Result<T, E>>): (r: Result<seq<T>, E>)
    ensures r.Success? ==> |r.value| == |rs|
  {
    if rs == [] then Success([])
    else
      var init :- Collect(rs[..|rs| - 1]);
      var v :- rs[|rs| - 1];
      Success(init + [v])
  }

  /** Every step of a successful run succeeds with the value collected at
      its position. */
  lemma {:induction false} CollectAt<T, E>(rs: seq<Result<T, E>>, k: nat)
    requires Collect(rs).Success? && k < |rs|
    ensures rs[k] == Success(Collect(rs).value[k])
  {
    var init := rs[..|rs| - 1];
    if k < |init| {
      CollectAt(init, k);
    }
  }

  /** A run fails with the error of its first failing step. */
  lemma {:induction false} CollectFirstFailure<T, E>(rs: seq<Result<T, E>>, k: nat)
    requires k < |rs| && rs[k].Failure?
    requires forall j :: 0 <= j < k ==> rs[j].Success?
    ensures Collect(rs) == Failure(rs[k].error)
  {
    var init := rs[..|rs| - 1];
    if k < |init| {
      CollectFirstFailure(init, k);
    } else {
      if Collect(init).Failure? {
        var j := FirstFailure(init);
      }
    }
  }

  /** The position of the first failing step of a failed run. */
  lemma {:induction false} FirstFailure<T, E>(rs: seq<Result<T, E>>) returns (k: nat)
    requires Collect(rs).Failure?
    ensures k < |rs| && rs[k] == Failure(Collect(rs).error)
    ensures forall j :: 0 <= j < k ==> rs[j].Success?
  {
    var init := rs[..|rs| - 1];
    if Collect(init).Failure? {
      k := FirstFailure(init);
      forall j | 0 <= j < k
        ensures rs[j].Success?
      {
        assert rs[j] == init[j];
      }
    } else {
      k := |rs| - 1;
      forall j | 0 <= j < k
        ensures rs[j].Success?
      {
        CollectAt(init, j);
      }
    }
  }

  /** One more step of the loop: its value is appended, or its error ends
      the whole run. */
  lemma CollectNext<T, E>(rs: seq<Result<T, E>>, n: nat, values: seq<T>)
    requires n < |rs| && Collect(rs[..n]) == Success(values)
    ensures rs[n].Success? ==> Collect(rs[..n + 1]) == Success(values + [rs[n].value])
    ensures rs[n].Failure? ==> Collect(rs) == Failure(rs[n].error)
  {
    assert rs[..n + 1][..n] == rs[..n];
    if rs[n].Failure? {
      forall j | 0 <= j < n
        ensures rs[j].Success?
      {
        CollectAt(rs[..n], j);
      }
      CollectFirstFailure(rs, n);
    }
  }
}