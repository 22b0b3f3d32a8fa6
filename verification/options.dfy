/** An optional value: a spreadsheet cell or cache slot that may be empty. */
module Options {

  datatype Option<+T> = None | Some(value: T)
}
