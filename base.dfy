/** Failure-carrying values shared by the whole model. */
module Base {

  datatype Option<+T> = None | Some(value: T)

  /** The exceptions the handlers can raise on the paths the model covers. */
  datatype Error =
    | ZeroDivision    // `total / norm` with a zero norm
    | IllegalMonth    // `calendar.monthrange` with a month outside 1..12
    | YearOutOfRange  // `date(year, month, 1)` with a year outside 1..9999
    | Overflow        // `date + timedelta` leaving 0001-01-01..9999-12-31

  datatype Result<+T> = Ok(value: T) | Err(error: Error)
}
