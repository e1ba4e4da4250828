/** The optional value used wherever the scraper returns or stores `None`. */
module Wrappers {

  datatype Option<+T> = None | Some(value: T)
}
