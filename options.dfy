/** The usual optional value, used for the collaborators that may fail
    (row decoding, field collection) and for index keys that cannot be built. */
module Options {

  datatype Option<+T> = None | Some(value: T)
}
