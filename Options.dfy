/** The optional value the broker uses wherever Python returns `None`. */
module Options {

  datatype Option<+T> = None | Some(value: T)

}
