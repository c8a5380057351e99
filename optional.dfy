/** Swift's `Optional`, used for `Int?` values (player answers, recognised digits). */
module Optional {

  datatype Option<T> = None | Some(value: T)
}
