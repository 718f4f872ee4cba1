/** The optional value the JavaScript code expresses with `null` / `undefined`. */
module Options {

  datatype Option<+T> = None | Some(value: T)

}
