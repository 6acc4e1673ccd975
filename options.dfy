/** An optional value: an empty form field, or a chart cell with no weight. */
module Options {
  datatype Option<+T> = None | Some(value: T)
}
