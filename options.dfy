/** The optional value the widget uses for "no date" (a null cell, no selection). */
module Options {
  datatype Option<+T> = None | Some(value: T)
}
