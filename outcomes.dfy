/** Failure-carrying results for the guards and conversions of the frame conversion. */
module Outcomes {

  datatype Option<+T> = None | Some(value: T)

  /** Why a conversion call stops (each is an exception in the original code). */
  datatype Error =
    | ImageTooLarge      // more than 3000 source pixels
    | OutputTooLarge     // a frame's markup longer than 32768 characters
    | InvalidBitmapSize  // the resampled bitmap would have no columns
    | Overflow           // `Convert.ToInt32` of a value outside the 32-bit range

  datatype Result<+T> = Ok(value: T) | Err(error: Error)
}
