/** A value or the absence of one: Python's None, or a JSON null stored in a document. */
module Maybe {
  datatype Option<+T> = None | Some(value: T)
}
