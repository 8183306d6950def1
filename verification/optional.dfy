/** An optional value: an attribute that may be absent, a lookup that may find nothing. */
module Optional {

  datatype Option<+T> = None | Some(value: T)
}
