/** Option and Result, plus the fatal conditions of the pipeline. */
module Wrappers {

  /** `None` stands for a value that is not there; for grid samples it stands for NaN. */
  datatype Option<+T> = None | Some(value: T)

  /** A computation that either yields a value or stops with a fault. */
  datatype Result<+T, +E> = Ok(value: T) | Err(error: E)

  /** Every condition that makes the original program raise on the modelled path. */
  datatype Fault =
    | MissingGridFile(key: string)   // xr.open_dataset: no cloud grid for that day
    | EmptyTimeAxis                  // np.argmin over an empty time_offset coordinate
    | ZeroCloudTop                   // 1 - base/top with top == 0.0 (ZeroDivisionError)
    | BadFileName(name: string)      // split('.')[2] out of range, or the date does not parse
    | NoTransitMatch(key: string)    // no row of the transit table has this start time
    | BadReleaseLabel(text: string) // strptime on the record label fails (hour outside 0..23)
    | DateOutOfRange                 // stepping back before 0001-01-01 00:00
    | UnboundRecord                  // first trajectory of a file leaves hours_CBL unassigned
}
