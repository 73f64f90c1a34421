/** The optional value a nullable reference stands for (`T | null`). */
module Options {

  datatype Option<+T> = None | Some(value: T)
}
