/** Optional values: `None` stands for JavaScript's `undefined`, `null` or `NaN`
    where the modelled code produces one. */
module Options {
  datatype Option<+T> = None | Some(value: T)
}
