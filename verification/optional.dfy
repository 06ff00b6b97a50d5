/** A value that may be absent: JavaScript's `undefined` as returned by
    `Array.prototype.find` or by indexing past the end of an array. */
module Optional {
  datatype Option<+T> = None | Some(value: T)
}
