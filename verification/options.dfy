/** The optional value returned by the resolvers (Python's `Optional[...]`). */
module Options {

  datatype Option<+T> = None | Some(value: T)
}
