/** The optional value used wherever the crawled program gets back `None`. */
module Wrappers {

  datatype Option<+T> = None | Some(value: T)
}
