/** The JavaScript `null`-or-value fields of the extractor, as an explicit option type. */
module Options {

  /** `None` stands for JavaScript `null`. */
  datatype Option<+T> = None | Some(value: T)
}
