/** The optional value used for the debounce wrapper's pending timer slot and
    for what one timer tick delivers. */
module Options {

  datatype Option<T> = None | Some(value: T)
}
