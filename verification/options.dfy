/** Java's `Optional` (and, for arguments, a nullable reference): a value or nothing. */
module Options {

  datatype Option<+T> = None | Some(value: T)

}
