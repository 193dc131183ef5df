/** Failure-compatible Option and Result types used throughout the model. */
module Wrappers {

  /** Python's `None` / present value. */
  datatype Option<+T> = None | Some(value: T) {

    predicate IsFailure() {
      None?
    }

    function PropagateFailure<U>(): Option<U>
      requires None?
    {
      None
    }

    function Extract(): T
      requires Some?
    {
      value
    }

    function GetOr(default: T): T {
      match this
      case Some(v) => v
      case None => default
    }
  }

  /** A computation that either returns a value or raises an exception. */
  datatype Result<+T, +E> = Ok(value: T) | Err(error: E) {

    predicate IsFailure() {
      Err?
    }

    function PropagateFailure<U>(): Result<U, E>
      requires Err?
    {
      Err(error)
    }

    function Extract(): T
      requires Ok?
    {
      value
    }
  }

  /** Results collected in order, as a list comprehension raising at the first failure does: all the values, or the first error. */
  function AllOk<T, E>(rs: seq<Result<T, E>>): (r: Result<seq<T>, E>)
    ensures r.Ok? <==> forall i :: 0 <= i < |rs| ==> rs[i].Ok?
    ensures r.Ok? ==> |r.value| == |rs| && forall i :: 0 <= i < |rs| ==> Ok(r.value[i]) == rs[i]
    decreases |rs|
  {
    if |rs| == 0 then Ok([])
    else
      match rs[0]
      case Err(e) => Err(e)
      case Ok(c) =>
        match AllOk(rs[1..])
        case Err(e) => Err(e)
        case Ok(cs) =>
          assert forall i :: 1 <= i < |rs| ==> rs[i] == rs[1..][i - 1];
          Ok([c] + cs)
  }

  /** A failing collection reports the error of its first failing element. */
  lemma {:induction false} AllOkFirstError<T, E>(rs: seq<Result<T, E>>)
    requires AllOk(rs).Err?
    ensures exists i :: 0 <= i < |rs| && rs[i] == Err(AllOk(rs).error) && forall k :: 0 <= k < i ==> rs[k].Ok?
    decreases |rs|
  {
    if rs[0].Ok? {
      AllOkFirstError(rs[1..]);
      var i :| 0 <= i < |rs[1..]| && rs[1..][i] == Err(AllOk(rs[1..]).error) && forall k :: 0 <= k < i ==> rs[1..][k].Ok?;
      assert rs[1..][i] == rs[i + 1];
      assert forall k :: 1 <= k < i + 1 ==> rs[k] == rs[1..][k - 1];
    }
  }
}

/** The Python exceptions the modelled code raises, by kind. */
module Exceptions {

  datatype Raised =
    | TypeError(detail: string)
    | KeyError(key: string)
    | ValueError(detail: string)
    | AssertionError
    /** `jsonschema.ValidationError` from the abstract schema check. */
    | SchemaError
    /** A field value of a JSON type the model's datatypes cannot hold, which Python would store unchecked. */
    | IllTyped(field: string)
    /** `FileNotFoundError` / `NotADirectoryError` from a directory listing. */
    | NotFound(path: string)
    /** `IndexError` from a list index past the end. */
    | IndexError
    /** `ZeroDivisionError` */
    | ZeroDivisionError
    /** `UnboundLocalError`: a local read before any assignment. */
    | Unbound(name: string)
    /** A plain `Exception(message)`. */
    | Failure(message: string)
}
