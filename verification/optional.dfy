/** An optional value: the engine's failure returns that carry no data. */
module Optional {

  datatype Option<T> = None | Some(value: T)
}
