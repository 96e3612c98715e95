/** The optional value that stands for Python's `None`-or-value returns and
    for the regex search's `match`-or-`None`. */
module Wrappers {

  datatype Option<+T> = None | Some(value: T)
}
