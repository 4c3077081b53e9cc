/** The optional value used where the JavaScript source has `undefined`,
    `null` or an array search that can miss. */
module Optional {

  datatype Option<+T> = None | Some(value: T)
}
