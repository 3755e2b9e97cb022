/** Failure-compatible wrappers used across the model: a Java `null` becomes
    `None`, and a thrown exception becomes `Err` carrying a module-specific
    error kind. */
module Wrappers {

  datatype Option<+T> = None | Some(value: T) {

    /** The value, or `default` when absent (Java's `Optional.orElse`). */
    function GetOr(default: T): T {
      match this
      case Some(v) => v
      case None => default
    }
  }

  datatype Result<+T, +E> = Ok(value: T) | Err(error: E) {

    predicate IsFailure() {
      Err?
    }

    function PropagateFailure<U>(): Result<U, E>
      requires Err?
    {
      Err(error)
    }

    function Extract(): T
      requires Ok?
    {
      value
    }
  }

  /** The outcome of a repository query that promises at most one match
      (`Optional<T> findBy...`): none, exactly one, or the non-unique-result
      failure Spring Data raises. */
  datatype Found<+K> = Missing | Single(key: K) | Ambiguous

  function FindUnique<K(==)>(s: set<K>): (r: Found<K>)
    ensures r.Missing? <==> s == {}
    ensures r.Single? <==> |s| == 1
    ensures r.Single? ==> s == {r.key}
  {
    if s == {} then Missing
    else if |s| == 1 then
      var k :| k in s;
      assert s == {k} by {
        assert s == (s - {k}) + {k};
        assert |s - {k}| == 0;
      }
      Single(k)
    else Ambiguous
  }
}
