/** Small value types shared by the planner model: optional references,
    floats that may be `math.inf`, and the Python exceptions the planner can raise. */
module Values {

  /** `None` or a value; used for node references that may be absent. */
  datatype Option<T> = None | Some(value: T)

  /** A float that is either finite or +infinity (`math.inf`). */
  datatype Ext = Fin(v: real) | Inf

  /** Strict `<` on floats extended with +infinity. */
  predicate Less(a: Ext, b: Ext)
  {
    match (a, b)
    case (Fin(u), Fin(w)) => u < w
    case (Fin(_), Inf) => true
    case (Inf, _) => false
  }

  /** `<=` on floats extended with +infinity. */
  predicate AtMost(a: Ext, b: Ext)
  {
    !Less(b, a)
  }

  /** The Python exceptions that the modelled code can raise. */
  datatype PyError = ZeroDivisionError | IndexError | ValueError | AttributeError

  /** The result of a call that either returns a value or raises an exception. */
  datatype Outcome<T> = Ok(value: T) | Raised(error: PyError)

  /** The absolute value. */
  function Abs(r: real): (a: real)
    ensures 0.0 <= a && (a == r || a == -r)
  {
    if r < 0.0 then -r else r
  }

  /** The smaller of two integers. */
  function Min(a: int, b: int): (m: int)
    ensures m <= a && m <= b && (m == a || m == b)
  {
    if a < b then a else b
  }
}
