/** Values shared by the two generations of the matching engine. */
module Common {

  /** A Go pointer or map lookup that may come back nil / absent. */
  datatype Option<T> = None | Some(value: T)
}
