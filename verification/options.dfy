/** The optional value used for the nullable fields of the model (`string | null`). */
module Options {

  datatype Option<+T> = None | Some(value: T)

}
