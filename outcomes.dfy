/**
 * Failure-compatible results of the photometry engine. The C code aborts the
 * process (bail/exit) or lets NaN and out-of-bounds reads through where this
 * model returns an explicit failure.
 */
module Outcomes {

  /** The ways one photometry step can fail. */
  datatype Failure =
    | NoSourceDetected  // no pixel above the threshold: the centroid would be 0/0
    | BoxTooSmall       // the sky-sampling ring does not fit inside the box
    | EmptyAnnulus      // no pixel lies strictly inside the sky-sampling ring

  datatype Result<T> = Ok(value: T) | Err(error: Failure)

  datatype Option<T> = None | Some(value: T)

  /** A pair of absolute frame coordinates (a centroid). */
  datatype Point = Point(x: real, y: real)
}
