/** What the two combinators of the SDK share: how an awaitable can end. */
module Asyncio {

  /** `Raised` is an `Exception`; `Fatal` is any other `BaseException` except the cancellation error. */
  datatype Ending<+T> =
    | Value(v: T)
    | Raised(e: string)
    | Fatal(e: string)
    | CancelledOut
}
