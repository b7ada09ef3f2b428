/** The optional value used for a measurement that may have timed out and for a
    detection start time that has not been recorded yet. */
module Options {

  datatype Option<+T> = None | Some(value: T)
}
