/** An optional value, shared by the protocol decoders and the drawing surface. */
module Optional {
  datatype Option<T> = None | Some(value: T)
}
