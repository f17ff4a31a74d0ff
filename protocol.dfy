/**
 * The check phase of the table protocol: every generated `*_check` function
 * expands its declarations one after another, each with an early
 * `return Err(..)`, so the reported error is the one of the FIRST violated
 * declaration in declaration order.
 */
module Protocol {

  /** Rust's `Result<T, E>`. */
  datatype Result<T, E> = Ok(value: T) | Err(error: E)

  /** The verdict of one declaration's check arm: is it violated, and with which error. */
  datatype Check<E> = Check(violated: bool, error: E)

  /** A check arm that can never fail (the `{}` arms of the check macros). */
  function Pass<E>(error: E): Check<E> {
    Check(false, error)
  }

  /** Declaration `i` is violated and every declaration before it passes. */
  ghost predicate FirstViolated<E>(checks: seq<Check<E>>, i: int) {
    && 0 <= i < |checks|
    && checks[i].violated
    && forall j :: 0 <= j < i ==> !checks[j].violated
  }

  /**
   * Runs the checks in order and stops at the first violated one
   * (the `$( ... return Err($err); )* Ok(())` expansion): the call passes
   * exactly when no declaration is violated, and otherwise reports the error
   * of the first violated declaration.
   */
  function FirstViolation<E>(checks: seq<Check<E>>): (r: Result<(), E>)
    ensures r.Ok? <==> forall i :: 0 <= i < |checks| ==> !checks[i].violated
    ensures r.Err? ==> exists i :: FirstViolated(checks, i) && checks[i].error == r.error
    ensures forall i :: FirstViolated(checks, i) ==> r == Err(checks[i].error)
  {
    if checks == [] then Ok(())
    else if checks[0].violated then
      assert FirstViolated(checks, 0);
      Err(checks[0].error)
    else
      var rest := FirstViolation(checks[1..]);
      assert forall i :: FirstViolated(checks[1..], i) ==> FirstViolated(checks, i + 1);
      assert forall i :: FirstViolated(checks, i) ==> FirstViolated(checks[1..], i - 1);
      rest
  }
}
