/** Optional values, and results that may carry one of the Python exceptions
    the scraper lets escape to its caller. */
module Outcomes {

  /** The exceptions raised by the scraper's own code (not by the network). */
  datatype Error =
    | AttributeError     // `.text`, `.get_text()` or `.get(...)` on a missing element
    | IndexError         // `s[-1]` on an empty word list, `find_all(...)[1]` on fewer than two
    | ValueError         // `int(...)` on text that is not an integer literal
    | UnboundLocalError  // `item` read before the loop in parse_reviews ever bound it

  /** Python's `None` or a present value. */
  datatype Option<+T> = None | Some(value: T)

  /** A returned value, or a raised exception; usable with `:-`. */
  datatype Result<+T> = Ok(value: T) | Err(error: Error) {
    predicate IsFailure() { Err? }

    function PropagateFailure<U>(): Result<U>
      requires Err?
    {
      Err(error)
    }

    function Extract(): T
      requires Ok?
    {
      value
    }
  }
}
