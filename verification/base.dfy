/** Small shared vocabulary: an optional value. */
module Base {

  /** A value that may be missing: a dictionary miss, a dropped record line, an absent file. */
  datatype Option<+T> = None | Some(value: T)
}
