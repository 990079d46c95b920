module Wrappers {
  /** A value, or the absence of one: a null, an exception that was thrown, a search that found nothing. */
  datatype Option<+T> = None | Some(value: T)
}
