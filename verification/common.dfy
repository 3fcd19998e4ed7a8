/** Values that may be absent: JavaScript `undefined`/`null` and Python `None`. */
module Common {

  datatype Option<+T> = None | Some(value: T)
}
