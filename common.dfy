/** The optional value used wherever the source yields `null`/`undefined` or throws. */
module Common {

  datatype Option<+T> = None | Some(value: T)

}
