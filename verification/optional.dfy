/** The optional value used wherever the program reads an attribute that may never have been set. */
module Optional {

  datatype Option<T> = None | Some(value: T)

}
