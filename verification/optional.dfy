/** An optional value: an absent interval handle, a rejected detection, or a
    failed parse. */
module Optional {
  datatype Option<T> = None | Some(value: T)
}
