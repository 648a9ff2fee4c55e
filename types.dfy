/** Small value types shared by the whole model. */
module Types {

  /** Python's `None` or a present value. */
  datatype Option<+T> = None | Some(value: T)

  /** An IPv4 address as the socket layer reports it (a dotted string). */
  type Addr = string

  /** An opaque handle standing for one connected TCP socket object. */
  type Handle = nat

  /** An opaque name for one message callback function. */
  type CallbackId = nat
}
