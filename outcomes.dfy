/** Failure-carrying values shared by every part of the model. The source signals
    its failures by throwing (or by rejecting a promise); here each operation that
    can fail returns one of these instead. */
module Outcomes {

  /** A value that may be missing: a JavaScript `undefined` (or a `NaN`) is `None`. */
  datatype Option<+T> = None | Some(value: T)

  /** The failures the core can raise. */
  datatype Error =
    | InvalidChannel   // BaseImageAdapter.getChannelValue with a channel other than r, g, b
    | OutOfBounds      // NodeCanvasAdapter.getChannelValues outside the image
    | MissingPixel     // an in-bounds pixel whose entry is absent: `pixel.r` on `undefined`
    | InvalidLength    // `new Uint8Array(n)` with a negative length

  /** The text the source attaches to each failure. */
  function Message(e: Error): string {
    match e
    case InvalidChannel => "Invalid channel"
    case OutOfBounds => "Pixel coordinates out of bounds"
    case MissingPixel => "Cannot read properties of undefined"
    case InvalidLength => "Invalid typed array length"
  }

  /** The outcome of an operation that returns a value or throws. */
  datatype Result<+T> = Ok(value: T) | Err(error: Error)

  /** The outcome of an operation that returns nothing or throws. */
  datatype Outcome = Pass | Fail(error: Error)
}
