/** The "value or nothing" result used where the component returns `null`. */
module Optional {

  datatype Option<+T> = None | Some(value: T)
}
