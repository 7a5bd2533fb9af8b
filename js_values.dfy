/** JavaScript values that the parsers and selection rules produce and inspect. */
module JsValues {

  /** A value or its absence; `None` stands for JavaScript's NaN where a number is parsed. */
  datatype Option<+T> = None | Some(value: T)

  /** The outcome of a check that either accepts its input or reports a message. */
  datatype Result<+T, +E> = Ok(value: T) | Err(error: E)

  /**
   * The JavaScript numbers that integer-valued computations in the source can reach:
   * an integer, NaN, or negative infinity (what `Math.max()` returns with no arguments).
   */
  datatype JsNumber = NegInfinity | Finite(value: int) | NaN

  /** JavaScript truthiness of a parsed integer: `!x` holds for NaN and for zero. */
  predicate Falsy(n: Option<int>)
  {
    n == None || n == Some(0)
  }

  /** `x + 1` on a JavaScript number. */
  function PlusOne(x: JsNumber): (r: JsNumber)
    ensures r.Finite? <==> x.Finite?
    ensures r.Finite? ==> r.value == x.value + 1
    ensures x == NaN ==> r == NaN
    ensures x == NegInfinity ==> r == NegInfinity
  {
    match x
    case NegInfinity => NegInfinity
    case Finite(v) => Finite(v + 1)
    case NaN => NaN
  }

  /** One step of `Math.max`: NaN absorbs everything, negative infinity is the identity. */
  function MaxStep(m: JsNumber, v: Option<int>): (r: JsNumber)
    ensures r == NaN <==> m == NaN || v == None
    ensures r != NegInfinity
    ensures r.Finite? ==> v.Some? && v.value <= r.value && (r.value == v.value || (m.Finite? && r.value == m.value))
    ensures r.Finite? && m.Finite? ==> m.value <= r.value
  {
    match (m, v)
    case (NaN, _) => NaN
    case (_, None) => NaN
    case (NegInfinity, Some(x)) => Finite(x)
    case (Finite(y), Some(x)) => Finite(if x < y then y else x)
  }
}
