/** The optional value that the modelled Rust code expresses with `Option`. */
module Wrappers {

  datatype Option<+T> = None | Some(value: T)

}
