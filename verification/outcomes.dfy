/** Outcomes of the analyses and of the evaluator.

    Go reports failures in two ways: a non-nil `error` return, which the
    callers inspect, and a panic (nil dereference, index out of range, an
    explicit `panic`), which unwinds everything.  `Err` models the first and
    `Crash` the second.  `OutOfFuel` is not in the Go program: it is what the
    model returns when a chain of function calls is deeper than the fuel it
    was given, and like a panic it aborts every enclosing computation. */
module Outcomes {

  /** The kinds of error the inference code returns.  The messages
      themselves are diagnostics only and are not modelled. */
  datatype ErrKind =
    | Impossible          // an `*Impossible` refinement failure
    | NotAList            // "... is not a list type"
    | EmptyHead           // "cannot take head of an empty list"
    | EmptyTail           // "cannot take tail of an empty list"
    | NegateList          // negating a list, forwards or backwards
    | UndefinedFunction   // a call to a name the runtime does not define
    | Undefined           // the pattern-match failure node

  datatype Outcome<+T> =
    | Ok(value: T)
    | Err(kind: ErrKind)
    | Crash
    | OutOfFuel
  {
    /** True for the two outcomes that abort the whole computation. */
    predicate Aborts() {
      Crash? || OutOfFuel?
    }
  }

  /** A panic or exhausted fuel, carried over to another value type. */
  function Abort<T, U>(o: Outcome<T>): (r: Outcome<U>)
    requires o.Aborts()
    ensures r.Aborts() && (r.Crash? <==> o.Crash?)
  {
    if o.Crash? then Crash else OutOfFuel
  }

  /** An error return, carried over to another value type. */
  function Fail<T, U>(o: Outcome<T>): (r: Outcome<U>)
    requires !o.Ok?
    ensures !r.Ok? && (r.Err? <==> o.Err?) && (r.Crash? <==> o.Crash?)
    ensures o.Err? ==> r == Err(o.kind)
  {
    match o
    case Err(k) => Err(k)
    case Crash => Crash
    case OutOfFuel => OutOfFuel
  }
}
