/** The absent value of the navigator: a missing path, a missing node, the end of a traversal. */
module Optional {

  datatype Option<+T> = None | Some(value: T)
}
