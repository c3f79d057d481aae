/** The optional value used wherever the source returns `bool` together with an out-parameter
    that it writes only on success. */
module Options {

  datatype Option<+T> = None | Some(value: T)
}
