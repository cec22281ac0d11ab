/** The optional result shared by the packer, the command decoder and the command reader. */
module Wrappers {
  datatype Option<T> = None | Some(value: T)
}
