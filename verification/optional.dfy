/** An optional value, standing for a JavaScript property that may be undefined or null. */
module Optional {

  datatype Option<+T> = None | Some(value: T)
}
