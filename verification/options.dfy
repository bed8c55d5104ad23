/** The optional values the view stores where the Java code uses `null`. */
module Options {

  datatype Option<+T> = None | Some(value: T)
}
