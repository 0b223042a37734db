/** The absent-or-present value used for fields that may be unset (a null
    handle, a default-constructed enum). */
module Optional {

  datatype Option<+T> = None | Some(value: T)
}
