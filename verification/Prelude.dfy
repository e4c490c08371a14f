/** Types shared by the models. */
module Prelude {

  datatype Option<+T> = None | Some(value: T)

  type Byte = b: int | 0 <= b < 256

}
