/** A value that may be missing: a layout block without a "lines" entry, or
    an upload without the "output_name" form field. */
module Optional {

  datatype Option<T> = None | Some(value: T)
}
