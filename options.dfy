/** An optional value, used for lookups that may find nothing and for errors a step may raise. */
module Options {

  datatype Option<+T> = None | Some(value: T)

}
