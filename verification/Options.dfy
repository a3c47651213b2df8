/** A value that may be absent: a guarded read that faulted, or a search that found nothing. */
module Options {
  datatype Option<+T> = None | Some(value: T)
}
