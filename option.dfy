/** An optional value, for the components' nullable state. */
module Optional {
  datatype Option<V> = None | Some(value: V)
}
