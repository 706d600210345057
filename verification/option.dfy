/** An optional value: a JavaScript value that may be `undefined` (a missing
    header, a missing file, a regular expression that did not match). */
module Optional {

  datatype Option<+T> = None | Some(value: T)

}
