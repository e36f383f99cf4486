/** The optional value used for JavaScript's `undefined`/`null` fields. */
module Options {

  datatype Option<+T> = None | Some(value: T)

}
