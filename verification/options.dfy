/** The optional-value datatype shared by the decoders of this model. */
module Options {

  datatype Option<+T> = None | Some(value: T)

}
