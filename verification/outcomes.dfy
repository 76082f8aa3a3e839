/** Failure-carrying results shared by the spectra model and the histogram model. */
module Outcomes {

  datatype Option<+T> = None | Some(value: T)

  /** The exceptions the modelled code raises or throws. */
  datatype Error =
    | NoPeaksDefined    // optimise on a None or empty peak list
    | ParameterMismatch // a parameter vector whose length differs from the peak count
    | DivisionByZero    // heterozygous rate over a genome size of zero
    | HighBelowLow      // HistogramException: high count below low count

  datatype Result<+T> = Success(value: T) | Failure(error: Error)

  datatype Outcome = Pass | Fail(error: Error)
}
