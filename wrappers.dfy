/** Optional values, shared by the decoder and the image packer. */
module Wrappers {

  datatype Option<T> = None | Some(value: T)
}
