/** What an Express middleware does with its response object and its `next` callback. */
module Express {

  /** A response written with `res.status(status).json({ success: false, message })`. */
  datatype Written = Written(status: int, message: string)

  function BadRequest(message: string): Written {
    Written(400, message)
  }

  /** A middleware that either calls `next()` or writes one response and returns. */
  datatype Step = Next | Stop(response: Written)

  /**
   * A middleware that writes without returning. `attempts` lists, in order,
   * the responses the code writes; Express delivers the first, and a second
   * write raises inside Express, so the rest of the middleware (its `next()`
   * call included) does not run.
   */
  datatype Effects = Effects(attempts: seq<Written>, callsNext: bool)

  /** Running `first` and, when it calls `next()`, `second`: how a route's middleware array behaves. */
  function Then(first: Step, second: Step): (r: Step)
    ensures r.Next? <==> first.Next? && second.Next?
    ensures first.Stop? ==> r == first
  {
    if first.Next? then second else first
  }
}
