/** The optional value used wherever the source reads something that may be
    absent: `localStorage.getItem` returning null, an extension that is not
    there, a storage event without a key. */
module Options {

  datatype Option<+T> = None | Some(value: T)
}
