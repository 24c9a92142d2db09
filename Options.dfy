/** An optional value: what a store lookup or an optional query parameter yields. */
module Options {

  datatype Option<+T> = None | Some(value: T)
}
