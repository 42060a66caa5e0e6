/** Small wrapper types shared by the whole model. */
module Common {

  /** A child slot of a branch: `None` is the C null pointer. */
  datatype Option<+T> = None | Some(value: T)

  /** The outcome of an operation that may follow a child pointer without
      checking it for null. The C program has undefined behaviour there (in
      practice a crash); the model makes that visible as `NullChild`. */
  datatype Result<+T> = Ok(value: T) | NullChild
}
