/** The optional value used wherever the source answers "nothing" with a
    `NULL` pointer or a failed `sscanf`. */
module Wrappers {

  datatype Option<T> = None | Some(value: T)
}
