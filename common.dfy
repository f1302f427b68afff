/** Small shared vocabulary: an optional value, used where the source returns null or throws. */
module Common {

  datatype Option<T> = None | Some(value: T)
}
