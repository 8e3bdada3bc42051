/** The optional value returned by the register lookups and the decoders
    (Rust's `Option`). */
module Options {

  datatype Option<+T> = None | Some(value: T)

}
