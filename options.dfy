/** The absent-or-present wrapper used for the source's null pointers. */
module Options {

  datatype Option<+T> = None | Some(value: T)

}
