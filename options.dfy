/** The optional value used for `Link<T>`, for `head()` and for `Iter::next()`. */
module Options {

  datatype Option<T> = None | Some(value: T)
}
