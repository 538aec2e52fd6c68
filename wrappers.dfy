/** An optional value.  `None` marks something that does not exist (yet):
    the fences of an empty column, whose quartiles pandas reports as NaN,
    and the IQR flags of a row before the IQR columns are attached. */
module Wrappers {
  datatype Option<T> = None | Some(value: T)
}
