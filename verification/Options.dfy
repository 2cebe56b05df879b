/** Absence of a value: a null reference, an empty slot, a search that found nothing. */
module Options {
  datatype Option<+T> = None | Some(value: T)
}
